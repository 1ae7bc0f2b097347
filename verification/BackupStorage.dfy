/** The backup header and image of shared/src/backup_image.c and common/storage/backup_image_storage.c. */
module BackupStorage {
  import opened Bytes
  import opened Nor
  import opened BootMetadata
  import opened Container
  import opened Device
  import opened Progress
  import Crc32

  const BACKUP_MAGIC: word := 0x3850_4B42
  const BACKUP_FORMAT: word := 1
  const BLANK_WORD: word := 0xFFFF_FFFF
  const PROGRAM_PAGE := 256

  function HeaderCrc(h: seq<word>): word
    requires |h| >= 6
  {
    Crc32.Checksum(WordBytes(h[..6]))
  }

  /** The finalized record for an image of the given version and checksum. */
  function HeaderRecord(version: word, imageCrc: word): (h: seq<word>)
    ensures |h| == HEADER_WORDS
  {
    var body := [BACKUP_MAGIC, BACKUP_FORMAT, version, APPLICATION_MAX_SIZE, imageCrc, APPLICATION_START];
    body + [HeaderCrc(body)]
  }

  /** BackupImage_Validate */
  predicate HeaderValid(h: seq<word>)
    requires |h| == HEADER_WORDS
  {
    && h[0] == BACKUP_MAGIC && h[1] == BACKUP_FORMAT && h[2] != 0
    && h[3] == APPLICATION_MAX_SIZE && h[5] == APPLICATION_START
    && h[6] == HeaderCrc(h)
  }

  lemma RecordIsValid(version: word, imageCrc: word)
    ensures HeaderValid(HeaderRecord(version, imageCrc)) <==> version != 0
    ensures var h := HeaderRecord(version, imageCrc); h[2] == version && h[4] == imageCrc
  {
    hide WordBytes, Crc32.Checksum;
    var h := HeaderRecord(version, imageCrc);
    var body := [BACKUP_MAGIC, BACKUP_FORMAT, version, APPLICATION_MAX_SIZE, imageCrc, APPLICATION_START];
    assert h[..6] == body && body[..6] == body;
  }

  function Image(i: Images): seq<byte>
    requires WellSized(i)
  {
    i.backupData[..APPLICATION_MAX_SIZE]
  }

  /** ValidateBackupImage */
  predicate BackupValidates(i: Images)
    requires WellSized(i)
  {
    HeaderValid(i.backupHeader) && Crc32.Checksum(Image(i)) == i.backupHeader[4]
  }

  /** Only the header differs. */
  ghost predicate SameButHeader(a: Images, b: Images) { b == a.(backupHeader := b.backupHeader) }

  method InvalidateHeader(d: Device) returns (r: Run<()>)
    modifies d`flash, d`power
    ensures d.steady ==> r.Done?
    ensures d.flash == old(d.flash).(images := d.flash.images)
    ensures SameButHeader(old(d.flash.images), d.flash.images)
    ensures r.Done? ==> !HeaderValid(d.flash.images.backupHeader)
  {
    r := d.OperateOn(d.flash.images.(backupHeader := seq(HEADER_WORDS, _ => BLANK_WORD)));
  }

  /** BackupImageStorage_CommitHeader; false is a record that fails its own validation. */
  method CommitHeader(d: Device, version: word, imageCrc: word) returns (r: Run<bool>)
    modifies d`flash, d`power
    ensures d.steady ==> r.Done?
    ensures d.flash == old(d.flash).(images := d.flash.images)
    ensures SameButHeader(old(d.flash.images), d.flash.images)
    ensures r.Done? ==> (r.value <==> version != 0)
    ensures r == Done(true) ==> d.flash.images.backupHeader == HeaderRecord(version, imageCrc)
    ensures r == Done(false) ==> d.flash == old(d.flash)
  {
    hide HeaderCrc, HeaderRecord;
    var record := HeaderRecord(version, imageCrc);
    RecordIsValid(version, imageCrc);
    if !HeaderValid(record) { return Done(false); }
    var _ :- InvalidateHeader(d);
    var _ :- d.OperateOn(d.flash.images.(backupHeader := record[..6] + d.flash.images.backupHeader[6..]));
    var _ :- d.OperateOn(d.flash.images.(backupHeader := d.flash.images.backupHeader[..6] + record[6..]));
    assert record[..6] + record[6..] == record;
    return Done(true);
  }

  /**
   * CopyActiveImageToBackupChunk: erases one sector of the backup and fills it from the application
   * region, one 256-byte page program at a time.
   */
  method CopyChunk(d: Device, offset: nat, length: nat) returns (r: Run<()>)
    requires offset < APPLICATION_MAX_SIZE && offset % EXT_FLASH_SECTOR_SIZE == 0 && length == ChunkLength(offset)
    modifies d`flash, d`power
    ensures d.steady ==> r.Done?
    ensures d.flash == old(d.flash).(images := d.flash.images)
    ensures d.flash.images == old(d.flash.images).(backupData := d.flash.images.backupData)
    ensures d.flash.images.backupData[..offset] == old(d.flash.images.backupData)[..offset]
    ensures r.Done? ==>
              d.flash.images.backupData[..offset + length] ==
              old(d.flash.images.backupData)[..offset] + old(d.flash.images.app)[offset..offset + length]
  {
    hide Program, Store, Pad;
    ghost var before := d.flash.images.backupData;
    var source := d.flash.images.app[offset..offset + length];
    var region := d.flash.images.backupData;
    PadNothing(before, offset, source);
    var _ :- d.OperateOn(d.flash.images.(backupData := Erase(region, offset, EXT_FLASH_SECTOR_SIZE)));
    KeepsFront(before, offset, source[..0]);
    var copied := 0;
    while copied < length
      invariant 0 <= copied <= length
      invariant d.flash == old(d.flash).(images := d.flash.images)
      invariant d.flash.images == old(d.flash.images).(backupData := d.flash.images.backupData)
      invariant d.flash.images.backupData == Store(before, offset, Pad(source[..copied], EXT_FLASH_SECTOR_SIZE))
      invariant d.flash.images.backupData[..offset] == before[..offset]
    {
      var n := Min(length - copied, PROGRAM_PAGE);
      ProgramNext(before, offset, EXT_FLASH_SECTOR_SIZE, source, copied, n);
      KeepsFront(before, offset, source[..copied + n]);
      region := d.flash.images.backupData;
      var _ :- d.OperateOn(d.flash.images.(backupData := Program(region, offset + copied, source[copied..copied + n])));
      copied := copied + n;
    }
    assert source[..length] == source;
    StoredFront(before, offset, source);
    return Done(());
  }

  lemma PadNothing(region: seq<byte>, offset: nat, source: seq<byte>)
    requires offset + EXT_FLASH_SECTOR_SIZE <= |region|
    ensures Erase(region, offset, EXT_FLASH_SECTOR_SIZE) ==
              Store(region, offset, Pad(source[..0], EXT_FLASH_SECTOR_SIZE))
  {
    assert Pad(source[..0], EXT_FLASH_SECTOR_SIZE) == Fill(ERASED, EXT_FLASH_SECTOR_SIZE);
  }

  lemma KeepsFront(region: seq<byte>, offset: nat, data: seq<byte>)
    requires offset + EXT_FLASH_SECTOR_SIZE <= |region| && |data| <= EXT_FLASH_SECTOR_SIZE
    ensures Store(region, offset, Pad(data, EXT_FLASH_SECTOR_SIZE))[..offset] == region[..offset]
  {
  }

  lemma StoredFront(region: seq<byte>, offset: nat, data: seq<byte>)
    requires offset + EXT_FLASH_SECTOR_SIZE <= |region| && |data| <= EXT_FLASH_SECTOR_SIZE
    ensures Store(region, offset, Pad(data, EXT_FLASH_SECTOR_SIZE))[..offset + |data|] == region[..offset] + data
  {
  }
}
