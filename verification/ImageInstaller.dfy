/**
 * bootloader/src/image_installer.c: backup, page-checkpointed install, verification and rollback.  The
 * checkpoint in the metadata record always lies at or before what has been copied, so an interrupted page
 * or sector is erased and redone.
 */
module ImageInstaller {
  import opened Bytes
  import opened Nor
  import opened BootMetadata
  import opened Container
  import opened Device
  import opened MetadataStorage
  import opened Progress
  import opened BackupStorage
  import opened Acceptance
  import opened BootSafety
  import opened SecureContainer
  import Crc32

  const HANDOFF_MISMATCH: int := 4
  const SOURCE_VECTOR_INVALID: int := 6
  const SOURCE_CRC_MISMATCH: int := 7
  const METADATA_COMMIT_FAILED: int := 8
  const PROGRESS_INVALID: int := 9
  const VERIFY_CRC_FAILED: int := 14
  const VERIFY_VECTOR_FAILED: int := 15
  const BACKUP_HEADER_FAILED: int := 17
  const BACKUP_CRC_MISMATCH: int := 21
  const BACKUP_PROGRESS_INVALID: int := 22
  const ROLLBACK_SOURCE_INVALID: int := 23
  const ROLLBACK_VERIFY_FAILED: int := 25
  const TRIAL_TRANSITION_FAILED: int := 26

  const INSTALLER_ERROR_BASE: int := 0x0008_0000
  const ROLLBACK_TRIAL_LIMIT_BASE: int := 0x0008_B000
  const ROLLBACK_INVALID_TRIAL: int := 0x0008_B100
  const ROLLBACK_INSTALL_BASE: int := 0x0008_B200

  function InstallerError(status: int): word { INSTALLER_ERROR_BASE + status % 0x100 }

  datatype InstallResult = InstallOk(m: Metadata) | SourceRejected(m: Metadata) | InstallFailed(reason: int)

  /** A resumable phase either moves on with the record it published or stops with a reason. */
  datatype Phase = Next(m: Metadata) | Stop(reason: int)

  // ----- the candidate ---------------------------------------------------------------------

  datatype Source = Source(size: nat, crc: word) | NoSource(reason: int)

  /** What the container in Incoming offers to install. */
  function Offered(t: Trust, im: Images): Source
    requires WellSized(im)
  {
    match LoadVerifiedInfo(t, im.incoming, 0)
    case Refused(_) => NoSource(HANDOFF_MISMATCH)
    case Authentic(i) => Source(i.targetSize, i.targetCrc)
  }

  /** LoadCandidateSource: the container is authenticated again on every recovery boot. */
  function CandidateSource(t: Trust, im: Images, m: Metadata): (r: Source)
    requires WellSized(im)
    ensures r.Source? ==> r.size == m.expectedSize && 8 <= r.size <= APPLICATION_MAX_SIZE && r == Offered(t, im)
  {
    match LoadVerifiedInfo(t, im.incoming, 0)
    case Refused(_) => NoSource(HANDOFF_MISMATCH)
    case Authentic(i) =>
      if m.state == ARTIFACT_READY || m.pendingVersion != i.targetVersion || m.updateId == 0 ||
         m.receivedSize != i.targetSize || m.expectedSize != i.targetSize then NoSource(HANDOFF_MISMATCH)
      else if i.delta && m.activeVersion != i.baseVersion then NoSource(HANDOFF_MISMATCH)
      else Source(i.targetSize, i.targetCrc)
  }

  /** ValidateExternalSource: zero, or the reason for refusing it. */
  function SourceProblem(im: Images, s: Source): int
    requires WellSized(im) && s.Source? && 8 <= s.size <= APPLICATION_MAX_SIZE
  {
    if !VectorOk(im.reconstructed[..s.size], s.size) then SOURCE_VECTOR_INVALID
    else if Crc32.Checksum(im.reconstructed[..s.size]) != s.crc then SOURCE_CRC_MISMATCH
    else 0
  }

  lemma ReadySource(t: Trust, m: Metadata, im: Images, u: Update)
    requires WellSized(im) && u.Valid() && m.activeVersion == u.version && m.state != ARTIFACT_READY
    requires Ready(t, m, im, u)
    ensures var s := CandidateSource(t, im, m); s.Source? && SourceProblem(im, s) == 0
  {
    hide LoadVerifiedInfo, Target, VectorOk, Overlay;
  }

  /** VerifyInstalledApplication: zero, or the reason. */
  function InstallProblem(app: seq<byte>, s: Source): int
    requires |app| == APPLICATION_MAX_SIZE && s.Source? && s.size <= APPLICATION_MAX_SIZE
  {
    if Crc32.Checksum(app[..s.size]) != s.crc then VERIFY_CRC_FAILED
    else if !VectorOk(app, s.size) then VERIFY_VECTOR_FAILED
    else if !VectorOk(app, APPLICATION_MAX_SIZE) then VERIFY_VECTOR_FAILED
    else 0
  }

  // ----- pages -----------------------------------------------------------------------------

  /** ProgramBufferedApplicationPage: one page erase, then one operation per half-word. */
  method ProgramPage(d: Device, offset: nat, buffer: seq<byte>) returns (r: Run<()>)
    requires offset % INTERNAL_FLASH_PAGE_SIZE == 0 && offset + INTERNAL_FLASH_PAGE_SIZE <= APPLICATION_MAX_SIZE
    requires |buffer| <= INTERNAL_FLASH_PAGE_SIZE
    modifies d`flash, d`power
    ensures d.steady ==> r.Done?
    ensures d.flash == old(d.flash).(images := d.flash.images)
    ensures d.flash.images == old(d.flash.images).(app := d.flash.images.app)
    ensures d.flash.images.app[..offset] == old(d.flash.images.app)[..offset]
    ensures d.flash.images.app[offset + INTERNAL_FLASH_PAGE_SIZE..] ==
              old(d.flash.images.app)[offset + INTERNAL_FLASH_PAGE_SIZE..]
    ensures r.Done? ==>
              d.flash.images.app == Store(old(d.flash.images.app), offset, Pad(buffer, INTERNAL_FLASH_PAGE_SIZE))
  {
    hide Collides, Tore, Spoilt, Program, Store, Pad;
    ghost var before := d.flash.images.app;
    var region := d.flash.images.app;
    PageEdges(before, offset, buffer[..0]);
    ErasedPage(before, offset, buffer);
    var _ :- d.OperateOn(d.flash.images.(app := Erase(region, offset, INTERNAL_FLASH_PAGE_SIZE)));
    var i := 0;
    while i < |buffer|
      invariant 0 <= i <= |buffer| + 1 && i % 2 == 0
      invariant d.flash == old(d.flash).(images := d.flash.images)
      invariant d.flash.images == old(d.flash.images).(app := d.flash.images.app)
      invariant d.flash.images.app == Store(before, offset, Pad(buffer[..Min(i, |buffer|)], INTERNAL_FLASH_PAGE_SIZE))
      invariant d.flash.images.app[..offset] == before[..offset]
      invariant d.flash.images.app[offset + INTERNAL_FLASH_PAGE_SIZE..] == before[offset + INTERNAL_FLASH_PAGE_SIZE..]
    {
      var high := if i + 1 < |buffer| then buffer[i + 1] else ERASED;
      HalfWordNext(before, offset, buffer, i, high);
      PageEdges(before, offset, buffer[..Min(i + 2, |buffer|)]);
      region := d.flash.images.app;
      var _ :- d.OperateOn(d.flash.images.(app := Program(region, offset + i, [buffer[i], high])));
      i := i + 2;
    }
    assert buffer[..|buffer|] == buffer;
    return Done(());
  }

  lemma PageEdges(region: seq<byte>, offset: nat, data: seq<byte>)
    requires offset + INTERNAL_FLASH_PAGE_SIZE <= |region| && |data| <= INTERNAL_FLASH_PAGE_SIZE
    ensures var r := Store(region, offset, Pad(data, INTERNAL_FLASH_PAGE_SIZE));
            && r[..offset] == region[..offset]
            && r[offset + INTERNAL_FLASH_PAGE_SIZE..] == region[offset + INTERNAL_FLASH_PAGE_SIZE..]
  {
  }

  lemma ErasedPage(region: seq<byte>, offset: nat, buffer: seq<byte>)
    requires offset + INTERNAL_FLASH_PAGE_SIZE <= |region|
    ensures Erase(region, offset, INTERNAL_FLASH_PAGE_SIZE) ==
              Store(region, offset, Pad(buffer[..0], INTERNAL_FLASH_PAGE_SIZE))
  {
    assert Pad(buffer[..0], INTERNAL_FLASH_PAGE_SIZE) == Fill(ERASED, INTERNAL_FLASH_PAGE_SIZE);
  }

  /** A half-word: two bytes of the buffer, or its last byte and a high byte left erased. */
  lemma HalfWordNext(region: seq<byte>, offset: nat, buffer: seq<byte>, i: nat, high: byte)
    requires offset + INTERNAL_FLASH_PAGE_SIZE <= |region| && i < |buffer| <= INTERNAL_FLASH_PAGE_SIZE &&
             i + 2 <= INTERNAL_FLASH_PAGE_SIZE
    requires high == if i + 1 < |buffer| then buffer[i + 1] else ERASED
    ensures Program(Store(region, offset, Pad(buffer[..i], INTERNAL_FLASH_PAGE_SIZE)), offset + i, [buffer[i], high])
         == Store(region, offset, Pad(buffer[..Min(i + 2, |buffer|)], INTERNAL_FLASH_PAGE_SIZE))
  {
    hide Program, Store;
    if i + 1 < |buffer| {
      ProgramNext(region, offset, INTERNAL_FLASH_PAGE_SIZE, buffer, i, 2);
      assert buffer[i..i + 2] == [buffer[i], high];
    } else {
      var padded := buffer + [ERASED];
      ProgramNext(region, offset, INTERNAL_FLASH_PAGE_SIZE, padded, i, 2);
      assert padded[i..i + 2] == [buffer[i], high];
      assert padded[..i] == buffer[..i] && padded[..i + 2] == padded;
      assert Pad(padded, INTERNAL_FLASH_PAGE_SIZE) == Pad(buffer, INTERNAL_FLASH_PAGE_SIZE);
      assert buffer[..Min(i + 2, |buffer|)] == buffer;
    }
  }

  // ----- backup ----------------------------------------------------------------------------

  /** Only the backup partition differs. */
  ghost predicate SameButBackup(a: Images, b: Images) {
    b == a.(backupHeader := b.backupHeader, backupData := b.backupData)
  }

  /** BeginBackup: the old header goes first, then BACKING_UP is published. */
  method BeginBackup(d: Device, working: Metadata, ghost u: Update) returns (r: Run<Option<Metadata>>)
    requires Load(d.flash) == Some(working) && working.state == IMAGE_READY
    modifies d
    ensures d.steady ==> r.Done?
    ensures d.torn == old(d.torn) || (r.PowerCut? && Tore(d.flash, d.torn))
    ensures SameButBackup(old(d.flash.images), d.flash.images)
    ensures old(Safe(d.trust, d.flash, u)) ==> Kept(d, r.PowerCut?, u) && d.refused == old(d.refused)
    ensures r.Done? ==> d.torn == old(d.torn)
    ensures r.Done? && r.value.Some? ==>
              && Load(d.flash) == r.value && r.value.value.state == BACKING_UP && r.value.value.copyOffset == 0
              && !HeaderValid(d.flash.images.backupHeader)
    ensures r.Done? && r.value.Some? ==> r.value.value.expectedSize == working.expectedSize
    ensures r == Done(None) ==> Load(d.flash) == Some(working)
    ensures old(Safe(d.trust, d.flash, u)) && r.Done? ==> r.value.Some?
  {
    hide Collides, Tore, Spoilt, Decode, CalculateCrc, SelectNewestSlot, LoadVerifiedInfo, Target, VectorOk, Overlay,
         HeaderRecord, Crc32.Checksum;
    var _ :- InvalidateHeader(d);
    assert d.flash.images.backupData[..0] == u.image[..0];
    r := Publish(d, working.(state := BACKING_UP, copyOffset := 0, bootAttempts := 0, lastError := 0), u);
  }

  /** The record with the checkpoint at `k`. */
  function CopiedTo(m: Metadata, k: word): Metadata { m.(copyOffset := k, lastError := 0) }

  /** A chunk in progress leaves everything before the checkpoint alone. */
  lemma ChunkTouched(t: Trust, m: Metadata, im: Images, im': Images, u: Update)
    requires WellSized(im) && WellSized(im') && m.state == BACKING_UP && SafeIn(t, m, im, u)
    requires m.copyOffset <= BACKUP_DATA_SIZE && SameButBackup(im, im')
    requires im'.backupData[..m.copyOffset] == im.backupData[..m.copyOffset]
    ensures SafeIn(t, m, im', u)
  {
    hide Ready;
    ReadyElsewhere(t, m, im, im', u);
  }

  lemma ChunkStep(t: Trust, m: Metadata, im: Images, im': Images, u: Update)
    requires WellSized(im) && WellSized(im') && IsValid(m) && m.state == BACKING_UP && SafeIn(t, m, im, u)
    requires BackupValid(m.copyOffset) && m.copyOffset < APPLICATION_MAX_SIZE && SameButBackup(im, im')
    requires var k, e := m.copyOffset, NextChunk(m.copyOffset);
             e <= APPLICATION_MAX_SIZE && k <= e && im'.backupData[..e] == im.backupData[..k] + im.app[k..e]
    ensures var next := CopiedTo(m, NextChunk(m.copyOffset));
            Acceptable(next) && SafeIn(t, next, im', u)
  {
    hide Ready, CalculateCrc, VectorOk;
    var k, e := m.copyOffset, NextChunk(m.copyOffset);
    BackupAdvances(k);
    ReadyElsewhere(t, m, im, im', u);
    ReadyRecordOnly(t, m, CopiedTo(m, e), im', u);
    ChunkCopied(im.backupData, im'.backupData, u.image, k, e - k);
  }

  /** One sector of the backup; None when the new checkpoint is refused. */
  method BackUpChunk(d: Device, working: Metadata, ghost u: Update) returns (r: Run<Option<Metadata>>)
    requires Load(d.flash) == Some(working) && working.state == BACKING_UP
    requires BackupValid(working.copyOffset) && working.copyOffset < APPLICATION_MAX_SIZE
    modifies d
    ensures d.steady ==> r.Done?
    ensures d.torn == old(d.torn) || (r.PowerCut? && Tore(d.flash, d.torn))
    ensures SameButBackup(old(d.flash.images), d.flash.images)
    ensures old(Safe(d.trust, d.flash, u)) ==> Kept(d, r.PowerCut?, u) && d.refused == old(d.refused)
    ensures r.Done? ==>
              d.torn == old(d.torn) && Load(d.flash).Some? && Load(d.flash).value.activeVersion == working.activeVersion
    ensures r.Done? && r.value.Some? ==>
              && Load(d.flash) == r.value && r.value.value.expectedSize == working.expectedSize
              && r.value.value.state == BACKING_UP && r.value.value.copyOffset == NextChunk(working.copyOffset)
    ensures old(Safe(d.trust, d.flash, u)) && r.Done? ==> r.value.Some?
  {
    hide Collides, Tore, Spoilt, IsValid, CalculateCrc, Decode, SelectNewestSlot, SafeIn, Acceptable;
    var offset, length := working.copyOffset, ChunkLength(working.copyOffset);
    BackupAdvances(offset);
    ghost var before := d.flash.images;
    var next := CopiedTo(working, NextChunk(offset));
    var c := CopyChunk(d, offset, length);
    if SafeIn(d.trust, working, before, u) {
      ChunkTouched(d.trust, working, before, d.flash.images, u);
      if c.Done? { ChunkStep(d.trust, working, before, d.flash.images, u); }
    }
    if c.PowerCut? { return PowerCut; }
    r := Publish(d, next, u);
  }

  lemma BackupProgress(t: Trust, m: Metadata, im: Images, u: Update)
    requires WellSized(im) && m.state == BACKING_UP && SafeIn(t, m, im, u)
    ensures BackupValid(m.copyOffset)
  {
    hide Ready;
  }

  /** ResumeBackup: sector after sector, then the header, then INSTALLING. */
  method ResumeBackup(d: Device, metadata: Metadata, ghost u: Update) returns (r: Run<Phase>)
    requires Load(d.flash) == Some(metadata) && metadata.state == BACKING_UP
    modifies d
    ensures d.steady ==> r.Done?
    ensures d.torn == old(d.torn) || (r.PowerCut? && Tore(d.flash, d.torn))
    ensures SameButBackup(old(d.flash.images), d.flash.images)
    ensures old(Safe(d.trust, d.flash, u)) ==> Kept(d, r.PowerCut?, u) && d.refused == old(d.refused)
    ensures r.Done? ==> d.torn == old(d.torn) && Load(d.flash).Some?
    ensures r.Done? ==> Load(d.flash).value.activeVersion == metadata.activeVersion
    ensures r.Done? && r.value.Next? ==>
              && Load(d.flash) == Some(r.value.m) && r.value.m.state == INSTALLING && r.value.m.copyOffset == 0
              && r.value.m.expectedSize == metadata.expectedSize
    ensures old(Safe(d.trust, d.flash, u)) && r.Done? ==> r.value.Next?
  {
    hide Collides, Tore, Spoilt, Load, SafeIn, IsValid;
    ghost var safe := Safe(d.trust, d.flash, u);
    var working := metadata;
    if safe { BackupProgress(d.trust, metadata, d.flash.images, u); }
    if !BackupValid(working.copyOffset) { return Done(Stop(BACKUP_PROGRESS_INVALID)); }
    while working.copyOffset < APPLICATION_MAX_SIZE
      invariant Load(d.flash) == Some(working) && working.state == BACKING_UP && BackupValid(working.copyOffset)
      invariant working.expectedSize == metadata.expectedSize && working.activeVersion == metadata.activeVersion
      invariant SameButBackup(old(d.flash.images), d.flash.images)
      invariant d.torn == old(d.torn) && (safe ==> Safe(d.trust, d.flash, u) && d.refused == old(d.refused))
      decreases APPLICATION_MAX_SIZE - working.copyOffset
    {
      BackupAdvances(working.copyOffset);
      var p :- BackUpChunk(d, working, u);
      if p == None { return Done(Stop(METADATA_COMMIT_FAILED)); }
      working := p.value;
    }
    r := FinishBackup(d, working, u);
  }

  lemma ChunkCopied(before: seq<byte>, after: seq<byte>, image: seq<byte>, offset: nat, length: nat)
    requires offset + length <= |image| && offset + length <= |after| && offset <= |before|
    requires before[..offset] == image[..offset]
    requires after[..offset + length] == before[..offset] + image[offset..offset + length]
    ensures after[..offset + length] == image[..offset + length]
  {
  }

  /** The candidate does not depend on the application region or the backup. */
  lemma ReadyElsewhere(t: Trust, m: Metadata, a: Images, b: Images, u: Update)
    requires WellSized(a) && WellSized(b) && u.Valid()
    requires a.incoming == b.incoming && a.reconstructed == b.reconstructed
    ensures Ready(t, m, a, u) <==> Ready(t, m, b, u)
  {
    hide LoadVerifiedInfo, Target, VectorOk, Overlay, Crc32.Checksum;
  }

  /** The whole region is copied: compare checksums, commit the header, publish INSTALLING. */
  method FinishBackup(d: Device, working: Metadata, ghost u: Update) returns (r: Run<Phase>)
    requires Load(d.flash) == Some(working) && working.state == BACKING_UP && working.copyOffset == APPLICATION_MAX_SIZE
    modifies d
    ensures d.steady ==> r.Done?
    ensures d.torn == old(d.torn) || (r.PowerCut? && Tore(d.flash, d.torn))
    ensures SameButBackup(old(d.flash.images), d.flash.images)
    ensures old(Safe(d.trust, d.flash, u)) ==> Kept(d, r.PowerCut?, u) && d.refused == old(d.refused)
    ensures r.Done? ==> d.torn == old(d.torn) && Load(d.flash).Some?
    ensures r.Done? ==> Load(d.flash).value.activeVersion == working.activeVersion
    ensures r.Done? && r.value.Next? ==>
              && Load(d.flash) == Some(r.value.m) && r.value.m.state == INSTALLING && r.value.m.copyOffset == 0
              && r.value.m.expectedSize == working.expectedSize
              && d.flash.images.backupHeader ==
                    HeaderRecord(working.activeVersion, Crc32.Checksum(Image(d.flash.images)))
              && Crc32.Checksum(Image(d.flash.images)) == Crc32.Checksum(d.flash.images.app)
    ensures old(Safe(d.trust, d.flash, u)) && r.Done? ==> r.value.Next?
  {
    hide Collides, Tore, Spoilt, Decode, CalculateCrc, SelectNewestSlot, Ready, Crc32.Checksum, HeaderRecord, OnTrial;
    ghost var safe := Safe(d.trust, d.flash, u);
    assert safe ==> u.image[..APPLICATION_MAX_SIZE] == u.image;
    var backupCrc := Crc32.Checksum(Image(d.flash.images));
    if Crc32.Checksum(d.flash.images.app) != backupCrc { return Done(Stop(BACKUP_CRC_MISMATCH)); }
    var h := CommitHeader(d, working.activeVersion, backupCrc);
    if u.Valid() { ReadyElsewhere(d.trust, working, old(d.flash.images), d.flash.images, u); }
    if h.PowerCut? { return PowerCut; }
    if !h.value { return Done(Stop(BACKUP_HEADER_FAILED)); }
    var next := working.(state := INSTALLING, copyOffset := 0, lastError := 0);
    if safe {
      ReadySize(d.trust, working, d.flash.images, u);
      ReadyRecordOnly(d.trust, working, next, d.flash.images, u);
    }
    var p :- Publish(d, next, u);
    if p == None { return Done(Stop(METADATA_COMMIT_FAILED)); }
    return Done(Next(p.value));
  }

  lemma ReadySize(t: Trust, m: Metadata, im: Images, u: Update)
    requires WellSized(im) && u.Valid() && Ready(t, m, im, u)
    ensures 8 <= m.expectedSize <= APPLICATION_MAX_SIZE && m.pendingVersion > u.version && u.attempts == 0
  {
    hide LoadVerifiedInfo, Target, VectorOk, Overlay, Crc32.Checksum;
  }

  /** Ready looks only at the identity and the sizes in the record. */
  lemma ReadyRecordOnly(t: Trust, m: Metadata, m': Metadata, im: Images, u: Update)
    requires WellSized(im) && u.Valid()
    requires m'.updateId == m.updateId && m'.pendingVersion == m.pendingVersion
    requires m'.receivedSize == m.receivedSize && m'.expectedSize == m.expectedSize
    ensures Ready(t, m, im, u) <==> Ready(t, m', im, u)
  {
    hide LoadVerifiedInfo, Target, VectorOk, Overlay, Crc32.Checksum;
  }

  // ----- install ---------------------------------------------------------------------------

  /** Only the application region differs. */
  ghost predicate SameButApp(a: Images, b: Images) { b == a.(app := b.app) }

  /** While the page at the checkpoint is being rewritten the invariant holds whatever that page contains. */
  lemma PageTouched(app: seq<byte>, app': seq<byte>, u: Update, k: nat, size: nat)
    requires |app| == |app'| == APPLICATION_MAX_SIZE && u.Valid() && Installed(app, u, k, size) && k < size
    requires app'[..k] == app[..k] && app'[k + INTERNAL_FLASH_PAGE_SIZE..] == app[k + INTERNAL_FLASH_PAGE_SIZE..]
    ensures Installed(app', u, k, size)
  {
  }

  lemma OverlayPage(target: seq<byte>, image: seq<byte>, k: nat)
    requires |target| <= |image| == APPLICATION_MAX_SIZE && k < |target| && k % INTERNAL_FLASH_PAGE_SIZE == 0
    ensures k + INTERNAL_FLASH_PAGE_SIZE <= APPLICATION_MAX_SIZE
    ensures var n := Min(|target| - k, INTERNAL_FLASH_PAGE_SIZE);
            var goal := Overlay(target, image);
            && goal[k..k + INTERNAL_FLASH_PAGE_SIZE] == Pad(target[k..k + n], INTERNAL_FLASH_PAGE_SIZE)
            && (k + n == |target| ==> goal[k + INTERNAL_FLASH_PAGE_SIZE..] == image[k + INTERNAL_FLASH_PAGE_SIZE..])
  {
    var n := Min(|target| - k, INTERNAL_FLASH_PAGE_SIZE);
    assert k + INTERNAL_FLASH_PAGE_SIZE <= RoundUp(|target|);
    if k + n == |target| {
      assert RoundUp(|target|) == k + INTERNAL_FLASH_PAGE_SIZE;
    }
  }

  /** A programmed page carries the checkpoint one page on. */
  lemma PageInstalled(app: seq<byte>, app': seq<byte>, u: Update, target: seq<byte>, k: nat)
    requires |app| == APPLICATION_MAX_SIZE && u.Valid() && 8 <= |target| <= APPLICATION_MAX_SIZE
    requires Installed(app, u, k, |target|) && k < |target|
    requires u.Goal() == Overlay(target, u.image)
    requires var n := PageLength(|target|, k);
             app' == Store(app, k, Pad(target[k..k + n], INTERNAL_FLASH_PAGE_SIZE))
    ensures Installed(app', u, NextPage(|target|, k), |target|)
  {
    hide Overlay, Pad;
    InstallAdvances(|target|, k);
    OverlayPage(target, u.image, k);
    var n := PageLength(|target|, k);
    var e := k + INTERNAL_FLASH_PAGE_SIZE;
    assert app'[..k] == app[..k] && app'[e..] == app[e..];
    assert app'[k..e] == u.Goal()[k..e];
    assert app'[..e] == u.Goal()[..e] by {
      assert app'[..e] == app'[..k] + app'[k..e] && u.Goal()[..e] == u.Goal()[..k] + u.Goal()[k..e];
    }
    if k + n == |target| {
      assert app' == app'[..e] + app'[e..] && u.Goal() == u.Goal()[..e] + u.Goal()[e..];
    } else {
      var e' := e + INTERNAL_FLASH_PAGE_SIZE;
      InstallAdvances(|target|, e);
      assert app'[e'..] == app'[e..][INTERNAL_FLASH_PAGE_SIZE..];
      assert u.image[e'..] == u.image[e..][INTERNAL_FLASH_PAGE_SIZE..];
    }
  }

  lemma ReadyGoal(t: Trust, m: Metadata, im: Images, u: Update)
    requires WellSized(im) && u.Valid() && Ready(t, m, im, u)
    ensures m.expectedSize <= APPLICATION_MAX_SIZE
    ensures u.Goal() == Overlay(im.reconstructed[..m.expectedSize], u.image)
  {
    hide LoadVerifiedInfo, Target, VectorOk, Overlay, Crc32.Checksum;
  }

  lemma CopyTouched(t: Trust, m: Metadata, im: Images, im': Images, u: Update)
    requires WellSized(im) && WellSized(im') && m.state == INSTALLING && SafeIn(t, m, im, u)
    requires m.copyOffset < m.expectedSize && SameButApp(im, im')
    requires m.copyOffset + INTERNAL_FLASH_PAGE_SIZE <= APPLICATION_MAX_SIZE
    requires im'.app[..m.copyOffset] == im.app[..m.copyOffset]
    requires im'.app[m.copyOffset + INTERNAL_FLASH_PAGE_SIZE..] == im.app[m.copyOffset + INTERNAL_FLASH_PAGE_SIZE..]
    ensures SafeIn(t, m, im', u)
  {
    hide HeaderRecord, Crc32.Checksum, VectorOk, Ready, Installed;
    ReadyElsewhere(t, m, im, im', u);
    PageTouched(im.app, im'.app, u, m.copyOffset, m.expectedSize);
  }

  lemma CopyStep(t: Trust, m: Metadata, im: Images, im': Images, u: Update)
    requires WellSized(im) && WellSized(im') && IsValid(m) && m.state == INSTALLING && SafeIn(t, m, im, u)
    requires InstallValid(m.expectedSize, m.copyOffset) && m.copyOffset < m.expectedSize && SameButApp(im, im')
    requires m.copyOffset + INTERNAL_FLASH_PAGE_SIZE <= APPLICATION_MAX_SIZE
    requires var k := m.copyOffset;
             var n := PageLength(m.expectedSize, k);
             im'.app == Store(im.app, k, Pad(im.reconstructed[k..k + n], INTERNAL_FLASH_PAGE_SIZE))
    ensures var next := CopiedTo(m, NextPage(m.expectedSize, m.copyOffset));
            Acceptable(next) && SafeIn(t, next, im', u)
  {
    hide HeaderRecord, Crc32.Checksum, VectorOk, Store, Pad, CalculateCrc, Ready, Installed, Overlay;
    var k, size := m.copyOffset, m.expectedSize;
    var n := PageLength(size, k);
    InstallAdvances(size, k);
    ReadyElsewhere(t, m, im, im', u);
    ReadyRecordOnly(t, m, CopiedTo(m, NextPage(size, k)), im', u);
    ReadyGoal(t, m, im, u);
    var target := im.reconstructed[..size];
    assert target[k..k + n] == im.reconstructed[k..k + n];
    PageInstalled(im.app, im'.app, u, target, k);
    InstalledValid(im'.app, u, NextPage(size, k), size);
  }

  /** One page of the candidate; None when the new checkpoint is refused. */
  method CopyPage(d: Device, working: Metadata, ghost u: Update) returns (r: Run<Option<Metadata>>)
    requires Load(d.flash) == Some(working) && working.state == INSTALLING
    requires InstallValid(working.expectedSize, working.copyOffset) && working.copyOffset < working.expectedSize
    modifies d
    ensures d.steady ==> r.Done?
    ensures d.torn == old(d.torn) || (r.PowerCut? && Tore(d.flash, d.torn))
    ensures SameButApp(old(d.flash.images), d.flash.images)
    ensures old(Safe(d.trust, d.flash, u)) ==> Kept(d, r.PowerCut?, u) && d.refused == old(d.refused)
    ensures r.Done? ==> d.torn == old(d.torn) && Load(d.flash).Some? && Load(d.flash).value.state == INSTALLING
    ensures r.Done? && r.value.Some? ==>
              && Load(d.flash) == r.value && r.value.value.expectedSize == working.expectedSize
              && r.value.value.copyOffset == NextPage(working.expectedSize, working.copyOffset)
    ensures old(Safe(d.trust, d.flash, u)) && r.Done? ==> r.value.Some?
  {
    hide Collides, Tore, Spoilt, IsValid, CalculateCrc, Decode, SelectNewestSlot, SafeIn, Acceptable, Store, Pad;
    var offset, size := working.copyOffset, working.expectedSize;
    var length := PageLength(size, offset);
    InstallAdvances(size, offset);
    ghost var before := d.flash.images;
    var next := CopiedTo(working, NextPage(size, offset));
    var c := ProgramPage(d, offset, d.flash.images.reconstructed[offset..offset + length]);
    if SafeIn(d.trust, working, before, u) {
      CopyTouched(d.trust, working, before, d.flash.images, u);
      if c.Done? { CopyStep(d.trust, working, before, d.flash.images, u); }
    }
    if c.PowerCut? { return PowerCut; }
    r := Publish(d, next, u);
  }

  lemma InstallProgress(t: Trust, m: Metadata, im: Images, u: Update)
    requires WellSized(im) && m.state == INSTALLING && SafeIn(t, m, im, u)
    ensures InstallValid(m.expectedSize, m.copyOffset)
  {
    hide Ready, Backed;
  }

  /** ResumePageCheckpointedCopy: page after page from the last published checkpoint. */
  method ResumeCopy(d: Device, metadata: Metadata, size: nat, ghost u: Update) returns (r: Run<Phase>)
    requires Load(d.flash) == Some(metadata) && metadata.state == INSTALLING && size == metadata.expectedSize
    modifies d
    ensures d.steady ==> r.Done?
    ensures d.torn == old(d.torn) || (r.PowerCut? && Tore(d.flash, d.torn))
    ensures SameButApp(old(d.flash.images), d.flash.images)
    ensures old(Safe(d.trust, d.flash, u)) ==> Kept(d, r.PowerCut?, u) && d.refused == old(d.refused)
    ensures r.Done? ==> d.torn == old(d.torn) && Load(d.flash).Some? && Load(d.flash).value.state == INSTALLING
    ensures r.Done? && r.value.Next? ==>
              && Load(d.flash) == Some(r.value.m) && r.value.m.copyOffset == size == r.value.m.expectedSize
    ensures old(Safe(d.trust, d.flash, u)) && r.Done? ==> r.value.Next?
  {
    hide Collides, Tore, Spoilt, Load, SafeIn, IsValid;
    ghost var safe := Safe(d.trust, d.flash, u);
    var working := metadata;
    if safe { InstallProgress(d.trust, metadata, d.flash.images, u); }
    if !InstallValid(size, working.copyOffset) { return Done(Stop(PROGRESS_INVALID)); }
    while working.copyOffset < size
      invariant Load(d.flash) == Some(working) && working.state == INSTALLING && InstallValid(size, working.copyOffset)
      invariant working.expectedSize == size
      invariant SameButApp(old(d.flash.images), d.flash.images)
      invariant d.torn == old(d.torn) && (safe ==> Safe(d.trust, d.flash, u) && d.refused == old(d.refused))
      decreases size - working.copyOffset
    {
      InstallAdvances(size, working.copyOffset);
      var p :- CopyPage(d, working, u);
      if p == None { return Done(Stop(METADATA_COMMIT_FAILED)); }
      working := p.value;
    }
    return Done(Next(working));
  }

  lemma InstalledValid(app: seq<byte>, u: Update, k: nat, size: nat)
    requires |app| == APPLICATION_MAX_SIZE && u.Valid() && Installed(app, u, k, size)
    ensures InstallValid(size, k) && (k == size ==> app == u.Goal())
  {
  }

  /** With the goal in place every check of the installed application passes. */
  lemma GoalVerifies(t: Trust, m: Metadata, im: Images, u: Update)
    requires WellSized(im) && u.Valid() && m.activeVersion == u.version && m.state != ARTIFACT_READY
    requires Ready(t, m, im, u) && im.app == u.Goal()
    ensures var s := CandidateSource(t, im, m); s.Source? && InstallProblem(im.app, s) == 0
    ensures VectorOk(u.Goal(), APPLICATION_MAX_SIZE)
  {
    hide LoadVerifiedInfo, Target, VectorOk, Overlay;
    ReadySource(t, m, im, u);
    ReadyGoal(t, m, im, u);
    var target := im.reconstructed[..m.expectedSize];
    OverlayFront(target, u.image);
    assert im.app[..8] == im.app[..|target|][..8];
    VectorWidens(target, im.app, |target|);
    VectorSame(target, im.app, |target|);
  }

  lemma OverlayFront(target: seq<byte>, image: seq<byte>)
    requires |target| <= |image| == APPLICATION_MAX_SIZE
    ensures Overlay(target, image)[..|target|] == target
  {
  }

  lemma VectorSame(a: seq<byte>, b: seq<byte>, size: nat)
    requires |a| >= 8 && |b| >= 8 && a[..8] == b[..8]
    ensures VectorOk(a, size) <==> VectorOk(b, size)
  {
    assert a[0..4] == a[..8][0..4] && a[4..8] == a[..8][4..8];
    assert b[0..4] == b[..8][0..4] && b[4..8] == b[..8][4..8];
  }

  /** TransitionToVerify */
  method BeginVerify(d: Device, working: Metadata, size: nat, ghost u: Update) returns (r: Run<Option<Metadata>>)
    requires Load(d.flash) == Some(working) && working.state == INSTALLING
    requires working.copyOffset == working.expectedSize == size
    modifies d
    ensures d.steady ==> r.Done?
    ensures d.flash.images == old(d.flash.images)
    ensures d.torn == old(d.torn) || (r.PowerCut? && Tore(d.flash, d.torn))
    ensures old(Safe(d.trust, d.flash, u)) ==> Kept(d, r.PowerCut?, u) && d.refused == old(d.refused)
    ensures r.Done? ==> d.torn == old(d.torn)
    ensures r.Done? && r.value.Some? ==>
              && Load(d.flash) == r.value && r.value.value.state == VERIFYING_INSTALL
              && r.value.value.expectedSize == size
    ensures old(Safe(d.trust, d.flash, u)) && r.Done? ==> r.value.Some?
  {
    hide Collides, Tore, Spoilt, Decode, CalculateCrc, SelectNewestSlot, Ready, Backed, OnTrial, Overlay, Installed;
    var next := working.(state := VERIFYING_INSTALL, copyOffset := size, lastError := 0);
    if Safe(d.trust, d.flash, u) {
      ReadyRecordOnly(d.trust, working, next, d.flash.images, u);
      InstalledValid(d.flash.images.app, u, working.copyOffset, size);
    }
    r := Publish(d, next, u);
  }

  function TrialRecord(m: Metadata): Metadata {
    m.(state := TRIAL_BOOT, copyOffset := 0, bootAttempts := 0, lastError := 0)
  }

  lemma VerifiedIsOnTrial(t: Trust, m: Metadata, im: Images, u: Update)
    requires WellSized(im) && IsValid(m) && m.state == VERIFYING_INSTALL && SafeIn(t, m, im, u)
    ensures Acceptable(TrialRecord(m)) && SafeIn(t, TrialRecord(m), im, u)
  {
    hide CalculateCrc, Backed, VectorOk, LoadVerifiedInfo, Overlay, Crc32.Checksum;
    ReadySize(t, m, im, u);
    GoalVerifies(t, m, im, u);
  }

  /** TransitionToTrialBoot: the download checkpoint goes first, then TRIAL_BOOT with no attempts. */
  method BeginTrial(d: Device, working: Metadata, ghost u: Update) returns (r: Run<InstallResult>)
    requires Load(d.flash) == Some(working) && working.state == VERIFYING_INSTALL
    requires VectorOk(d.flash.images.app, APPLICATION_MAX_SIZE)
    modifies d
    ensures d.steady ==> r.Done?
    ensures d.flash.images == old(d.flash.images)
    ensures d.torn == old(d.torn) || (r.PowerCut? && Tore(d.flash, d.torn))
    ensures old(Safe(d.trust, d.flash, u)) ==> Kept(d, r.PowerCut?, u) && d.refused == old(d.refused)
    ensures r.Done? ==> d.torn == old(d.torn)
    ensures r.Done? ==> !r.value.SourceRejected?
    ensures r.Done? && r.value.InstallOk? ==>
              Load(d.flash) == Some(r.value.m) && r.value.m.state == TRIAL_BOOT && r.value.m.bootAttempts == 0
    ensures old(Safe(d.trust, d.flash, u)) && r.Done? ==> r.value.InstallOk?
  {
    hide Collides, Tore, Spoilt, Decode, CalculateCrc, SelectNewestSlot, SafeIn, VectorOk, IsValid, Acceptable;
    var next := TrialRecord(working);
    if Safe(d.trust, d.flash, u) { VerifiedIsOnTrial(d.trust, working, d.flash.images, u); }
    var _ :- ClearCheckpoint(d);
    var p :- Publish(d, next, u);
    if p == None { return Done(InstallFailed(TRIAL_TRANSITION_FAILED)); }
    return Done(InstallOk(p.value));
  }

  // ----- rollback --------------------------------------------------------------------------

  function RollbackDiagnostic(m: Metadata): word {
    if m.state == ROLLBACK then m.lastError
    else if m.bootAttempts >= MAX_BOOT_ATTEMPTS then ROLLBACK_TRIAL_LIMIT_BASE + m.bootAttempts % 0x100
    else if m.state == TRIAL_BOOT then ROLLBACK_INVALID_TRIAL
    else ROLLBACK_INSTALL_BASE
  }

  /** BootDecision asks for a rollback although the image is jumpable. */
  predicate RollbackDue(m: Metadata) {
    m.state == ROLLBACK || (m.state == TRIAL_BOOT && m.bootAttempts >= MAX_BOOT_ATTEMPTS)
  }

  /** BeginRollback */
  method BeginRollback(d: Device, working: Metadata, diagnostic: word, ghost u: Update)
    returns (r: Run<Option<Metadata>>)
    requires Load(d.flash) == Some(working)
    modifies d
    ensures d.steady ==> r.Done?
    ensures d.flash.images == old(d.flash.images)
    ensures d.torn == old(d.torn) || (r.PowerCut? && Tore(d.flash, d.torn))
    ensures old(Safe(d.trust, d.flash, u)) && RollbackDue(working) ==>
              Kept(d, r.PowerCut?, u) && d.refused == old(d.refused)
    ensures r.Done? ==> d.torn == old(d.torn)
    ensures r.Done? && r.value.Some? ==>
              Load(d.flash) == r.value && r.value.value.state == ROLLBACK && r.value.value.copyOffset == 0
    ensures old(Safe(d.trust, d.flash, u)) && RollbackDue(working) && r.Done? ==> r.value.Some?
  {
    hide Collides, Tore, Spoilt, Decode, CalculateCrc, SelectNewestSlot, Ready, Backed, Overlay, Installed, VectorOk;
    assert d.flash.images.app[..0] == u.image[..0];
    r := Publish(d, working.(state := ROLLBACK, copyOffset := 0, lastError := diagnostic), u);
  }

  /** The restored pages are the confirmed image up to the checkpoint. */
  lemma PageRestored(app: seq<byte>, app': seq<byte>, image: seq<byte>, k: nat)
    requires |app| == |image| == APPLICATION_MAX_SIZE
    requires k % INTERNAL_FLASH_PAGE_SIZE == 0 && k + INTERNAL_FLASH_PAGE_SIZE <= APPLICATION_MAX_SIZE
    requires app[..k] == image[..k]
    requires app' == Store(app, k, Pad(image[k..k + INTERNAL_FLASH_PAGE_SIZE], INTERNAL_FLASH_PAGE_SIZE))
    ensures app'[..k + INTERNAL_FLASH_PAGE_SIZE] == image[..k + INTERNAL_FLASH_PAGE_SIZE]
  {
    var e := k + INTERNAL_FLASH_PAGE_SIZE;
    assert Pad(image[k..e], INTERNAL_FLASH_PAGE_SIZE) == image[k..e];
    assert app'[..e] == app[..k] + image[k..e];
    assert image[..e] == image[..k] + image[k..e];
  }

  lemma BackupPage(im: Images, offset: nat, length: nat)
    requires WellSized(im) && offset + length <= APPLICATION_MAX_SIZE
    ensures im.backupData[offset..offset + length] == Image(im)[offset..offset + length]
  {
    var x, y := im.backupData[offset..offset + length], Image(im)[offset..offset + length];
    forall i | 0 <= i < length ensures x[i] == y[i] { assert y[i] == Image(im)[offset + i]; }
    assert x == y;
  }

  /** While the page at the checkpoint is being restored the invariant holds whatever that page contains. */
  lemma RestoreTouched(t: Trust, m: Metadata, im: Images, im': Images, u: Update)
    requires WellSized(im) && WellSized(im') && m.state == ROLLBACK && SafeIn(t, m, im, u)
    requires m.copyOffset <= APPLICATION_MAX_SIZE && SameButApp(im, im') &&
             im'.app[..m.copyOffset] == im.app[..m.copyOffset]
    ensures SafeIn(t, m, im', u)
  {
    hide HeaderRecord, Crc32.Checksum, VectorOk;
  }

  function RestoredTo(m: Metadata, k: word): Metadata { m.(copyOffset := k) }

  lemma RestoreStep(t: Trust, m: Metadata, im: Images, im': Images, u: Update)
    requires WellSized(im) && WellSized(im') && IsValid(m) && m.state == ROLLBACK && SafeIn(t, m, im, u)
    requires m.copyOffset < APPLICATION_MAX_SIZE && SameButApp(im, im')
    requires m.copyOffset % INTERNAL_FLASH_PAGE_SIZE == 0 &&
             m.copyOffset + INTERNAL_FLASH_PAGE_SIZE <= APPLICATION_MAX_SIZE
    requires var k := m.copyOffset;
             var page := Pad(im.backupData[k..k + INTERNAL_FLASH_PAGE_SIZE], INTERNAL_FLASH_PAGE_SIZE);
             im'.app == Store(im.app, k, page)
    ensures var next := RestoredTo(m, m.copyOffset + INTERNAL_FLASH_PAGE_SIZE);
            Acceptable(next) && SafeIn(t, next, im', u)
  {
    hide HeaderRecord, Crc32.Checksum, VectorOk, Store, Pad, CalculateCrc;
    BackupPage(im, m.copyOffset, INTERNAL_FLASH_PAGE_SIZE);
    PageRestored(im.app, im'.app, u.image, m.copyOffset);
  }

  lemma RollbackProgress(t: Trust, m: Metadata, im: Images, u: Update)
    requires WellSized(im) && m.state == ROLLBACK && SafeIn(t, m, im, u)
    ensures InstallValid(APPLICATION_MAX_SIZE, m.copyOffset)
  {
  }

  /** One page from the backup; None when the new checkpoint is refused. */
  method RestorePage(d: Device, working: Metadata, ghost u: Update) returns (r: Run<Option<Metadata>>)
    requires Load(d.flash) == Some(working) && working.state == ROLLBACK
    requires InstallValid(APPLICATION_MAX_SIZE, working.copyOffset) && working.copyOffset < APPLICATION_MAX_SIZE
    modifies d
    ensures d.steady ==> r.Done?
    ensures d.torn == old(d.torn) || (r.PowerCut? && Tore(d.flash, d.torn))
    ensures SameButApp(old(d.flash.images), d.flash.images)
    ensures old(Safe(d.trust, d.flash, u)) ==> Kept(d, r.PowerCut?, u) && d.refused == old(d.refused)
    ensures r.Done? ==> d.torn == old(d.torn) && Load(d.flash).Some?
    ensures r.Done? && r.value.Some? ==>
              && Load(d.flash) == r.value && r.value.value.state == ROLLBACK &&
                    r.value.value.lastError == working.lastError
              && r.value.value.copyOffset == working.copyOffset + INTERNAL_FLASH_PAGE_SIZE
    ensures old(Safe(d.trust, d.flash, u)) && r.Done? ==> r.value.Some?
  {
    hide Collides, Tore, Spoilt, IsValid, CalculateCrc, Decode, SelectNewestSlot, SafeIn, Acceptable, Store, Pad;
    var offset, length := working.copyOffset, PageLength(APPLICATION_MAX_SIZE, working.copyOffset);
    InstallAdvances(APPLICATION_MAX_SIZE, offset);
    ghost var before := d.flash.images;
    var next := RestoredTo(working, NextPage(APPLICATION_MAX_SIZE, offset));
    var c := ProgramPage(d, offset, d.flash.images.backupData[offset..offset + length]);
    if SafeIn(d.trust, working, before, u) {
      RestoreTouched(d.trust, working, before, d.flash.images, u);
      if c.Done? { RestoreStep(d.trust, working, before, d.flash.images, u); }
    }
    if c.PowerCut? { return PowerCut; }
    r := Publish(d, next, u);
  }

  /** ResumeRollbackCopy: all 38 pages from the backup, from the last published checkpoint. */
  method ResumeRollback(d: Device, metadata: Metadata, ghost u: Update) returns (r: Run<Phase>)
    requires Load(d.flash) == Some(metadata) && metadata.state == ROLLBACK
    modifies d
    ensures d.steady ==> r.Done?
    ensures d.torn == old(d.torn) || (r.PowerCut? && Tore(d.flash, d.torn))
    ensures SameButApp(old(d.flash.images), d.flash.images)
    ensures old(Safe(d.trust, d.flash, u)) ==> Kept(d, r.PowerCut?, u) && d.refused == old(d.refused)
    ensures r.Done? ==> d.torn == old(d.torn) && Load(d.flash).Some?
    ensures r.Done? && r.value.Next? ==>
              && Load(d.flash) == Some(r.value.m) && r.value.m.state == ROLLBACK
              && r.value.m.copyOffset == APPLICATION_MAX_SIZE && r.value.m.lastError == metadata.lastError
    ensures old(Safe(d.trust, d.flash, u)) && r.Done? ==> r.value.Next?
  {
    hide Collides, Tore, Spoilt, Load, SafeIn, IsValid;
    ghost var safe := Safe(d.trust, d.flash, u);
    var working := metadata;
    if safe { RollbackProgress(d.trust, metadata, d.flash.images, u); }
    if !InstallValid(APPLICATION_MAX_SIZE, working.copyOffset) { return Done(Stop(PROGRESS_INVALID)); }
    while working.copyOffset < APPLICATION_MAX_SIZE
      invariant Load(d.flash) == Some(working) && working.state == ROLLBACK
      invariant InstallValid(APPLICATION_MAX_SIZE, working.copyOffset) && working.lastError == metadata.lastError
      invariant SameButApp(old(d.flash.images), d.flash.images)
      invariant d.torn == old(d.torn) && (safe ==> Safe(d.trust, d.flash, u) && d.refused == old(d.refused))
      decreases APPLICATION_MAX_SIZE - working.copyOffset
    {
      var p :- RestorePage(d, working, u);
      if p == None { return Done(Stop(METADATA_COMMIT_FAILED)); }
      working := p.value;
    }
    return Done(Next(working));
  }

  /** VerifyRolledBackApplication */
  predicate RolledBack(im: Images)
    requires WellSized(im)
  {
    Crc32.Checksum(im.app) == im.backupHeader[4] && VectorOk(im.app, APPLICATION_MAX_SIZE)
  }

  /** BestEffortMarkFailed */
  method MarkFailed(d: Device, working: Metadata, reason: int, ghost u: Update) returns (r: Run<()>)
    modifies d
    ensures d.steady ==> r.Done?
    ensures d.flash.images == old(d.flash.images)
    ensures d.torn == old(d.torn) || (r.PowerCut? && Tore(d.flash, d.torn))
    ensures var failed := working.(state := FAILED, lastError := InstallerError(reason));
            r.Done? ==>
              && d.torn == old(d.torn)
              && if Acceptable(failed) then Load(d.flash).Some? && Same(Load(d.flash).value, failed)
                 else d.flash == old(d.flash)
  {
    hide Collides, Tore, Spoilt, Decode, CalculateCrc, Load, SafeIn, Acceptable;
    var _ :- Publish(d, working.(state := FAILED, lastError := InstallerError(reason)), u);
    return Done(());
  }

  /** FinalizeRollback: IDLE with the version the backup header names. */
  method FinalizeRollback(d: Device, working: Metadata, diagnostic: word, ghost u: Update)
    returns (r: Run<InstallResult>)
    requires Load(d.flash) == Some(working) && working.state == ROLLBACK && working.copyOffset == APPLICATION_MAX_SIZE
    modifies d
    ensures d.steady ==> r.Done?
    ensures d.flash.images == old(d.flash.images)
    ensures d.torn == old(d.torn) || (r.PowerCut? && Tore(d.flash, d.torn))
    ensures old(Safe(d.trust, d.flash, u)) ==> Kept(d, r.PowerCut?, u) && d.refused == old(d.refused)
    ensures r.Done? ==> d.torn == old(d.torn) && r.value.InstallOk?
    ensures r.Done? ==> Load(d.flash) == Some(r.value.m) && r.value.m.state == IDLE
    ensures r.Done? ==>
              Same(r.value.m, IdleRecord(working, diagnostic).(activeVersion := d.flash.images.backupHeader[2]))
  {
    hide Collides, Tore, Spoilt, Decode, CalculateCrc, Load, Ready, OnTrial, Overlay, Installed, Crc32.Checksum;
    if u.Valid() { RecordIsValid(u.version, Crc32.Checksum(u.image)); }
    assert u.Valid() ==> u.image[..APPLICATION_MAX_SIZE] == u.image;
    assert d.flash.images.app[..APPLICATION_MAX_SIZE] == d.flash.images.app;
    var _ :- ClearCheckpoint(d);
    var next := IdleRecord(working, diagnostic).(activeVersion := d.flash.images.backupHeader[2]);
    var p :- Publish(d, next, u);
    return Done(InstallOk(p.value));
  }

  lemma BackedValidates(im: Images, u: Update)
    requires WellSized(im) && u.Valid() && Backed(im, u)
    ensures BackupValidates(im) && im.backupHeader[4] == Crc32.Checksum(u.image)
    ensures im.app == u.image ==> RolledBack(im)
  {
    hide VectorOk, Crc32.Checksum, HeaderRecord, HeaderCrc, HeaderValid;
    RecordIsValid(u.version, Crc32.Checksum(u.image));
  }

  /** ImageInstaller_ProcessRollback */
  method ProcessRollback(d: Device, metadata: Metadata, ghost u: Update) returns (r: Run<InstallResult>)
    requires Load(d.flash) == Some(metadata)
    modifies d
    ensures d.steady ==> r.Done?
    ensures d.torn == old(d.torn) || (r.PowerCut? && Tore(d.flash, d.torn))
    ensures SameButApp(old(d.flash.images), d.flash.images)
    ensures old(Safe(d.trust, d.flash, u)) && RollbackDue(metadata) ==>
              Kept(d, r.PowerCut?, u) && d.refused == old(d.refused)
    ensures r.Done? ==> !r.value.SourceRejected? && d.torn == old(d.torn)
    ensures r.Done? && r.value.InstallOk? ==> Load(d.flash) == Some(r.value.m) && r.value.m.state == IDLE
    ensures old(Safe(d.trust, d.flash, u)) && RollbackDue(metadata) && r.Done? ==>
              r.value.InstallOk?
  {
    hide Collides, Tore, Spoilt, Decode, CalculateCrc, SelectNewestSlot, IsValid, Ready, Crc32.Checksum, HeaderRecord,
         Overlay, Installed,
         BackupValidates, RolledBack, VectorOk, RollbackDiagnostic;
    ghost var safe := Safe(d.trust, d.flash, u) && RollbackDue(metadata);
    var working := metadata;
    if safe { BackedValidates(d.flash.images, u); }
    if !BackupValidates(d.flash.images) {
      var _ :- MarkFailed(d, working, ROLLBACK_SOURCE_INVALID, u);
      return Done(InstallFailed(ROLLBACK_SOURCE_INVALID));
    }
    var diagnostic := RollbackDiagnostic(working);
    if working.state != ROLLBACK {
      var p :- BeginRollback(d, working, diagnostic, u);
      if p == None { return Done(InstallFailed(METADATA_COMMIT_FAILED)); }
      working := p.value;
    }
    var c :- ResumeRollback(d, working, u);
    if c.Stop? {
      var _ :- MarkFailed(d, working, c.reason, u);
      return Done(InstallFailed(c.reason));
    }
    working := c.m;
    if safe {
      assert u.image[..APPLICATION_MAX_SIZE] == u.image;
      assert d.flash.images.app[..APPLICATION_MAX_SIZE] == d.flash.images.app;
      BackedValidates(d.flash.images, u);
    }
    if !RolledBack(d.flash.images) {
      var _ :- MarkFailed(d, working, ROLLBACK_VERIFY_FAILED, u);
      return Done(InstallFailed(ROLLBACK_VERIFY_FAILED));
    }
    r := FinalizeRollback(d, working, diagnostic, u);
  }

  // ----- the installer ---------------------------------------------------------------------

  /** RollbackAfterInstallFailure: only outside the invariant. */
  method RollBackAfter(d: Device, working: Metadata, reason: int, ghost u: Update) returns (r: Run<InstallResult>)
    requires Load(d.flash) == Some(working)
    modifies d
    ensures d.steady ==> r.Done?
    ensures d.torn == old(d.torn) || (r.PowerCut? && Tore(d.flash, d.torn))
    ensures SameButApp(old(d.flash.images), d.flash.images)
    ensures r.Done? ==> !r.value.SourceRejected? && d.torn == old(d.torn)
    ensures r.Done? && r.value.InstallOk? ==> Load(d.flash) == Some(r.value.m) && r.value.m.state == IDLE
  {
    hide Collides, Tore, Spoilt, Load, SafeIn;
    var p :- BeginRollback(d, working, ROLLBACK_INSTALL_BASE + reason % 0x100, u);
    if p == None { return Done(InstallFailed(METADATA_COMMIT_FAILED)); }
    r := ProcessRollback(d, p.value, u);
  }

  /** From INSTALLING to TRIAL_BOOT. */
  method CopyAndVerify(d: Device, metadata: Metadata, s: Source, ghost u: Update) returns (r: Run<InstallResult>)
    requires Load(d.flash) == Some(metadata) && metadata.state == INSTALLING
    requires s.Source? && s.size == metadata.expectedSize <= APPLICATION_MAX_SIZE &&
             s == Offered(d.trust, d.flash.images)
    modifies d
    ensures d.steady ==> r.Done?
    ensures d.torn == old(d.torn) || (r.PowerCut? && Tore(d.flash, d.torn))
    ensures SameButApp(old(d.flash.images), d.flash.images)
    ensures old(Safe(d.trust, d.flash, u)) ==> Kept(d, r.PowerCut?, u) && d.refused == old(d.refused)
    ensures r.Done? ==> d.torn == old(d.torn) && !r.value.SourceRejected?
    ensures r.Done? && r.value.InstallOk? ==> Load(d.flash) == Some(r.value.m) && Launchable(r.value.m, d.flash.images)
    ensures old(Safe(d.trust, d.flash, u)) && r.Done? ==> r.value.InstallOk? && r.value.m.state == TRIAL_BOOT
  {
    hide Collides, Tore, Spoilt, Decode, CalculateCrc, SelectNewestSlot, Ready, Backed, OnTrial, Installed, Offered,
         CandidateSource,
         Crc32.Checksum, VectorOk, IsValid;
    ghost var safe := Safe(d.trust, d.flash, u);
    var c :- ResumeCopy(d, metadata, s.size, u);
    if c.Stop? {
      if c.reason == METADATA_COMMIT_FAILED { return Done(InstallFailed(METADATA_COMMIT_FAILED)); }
      r := RollBackAfter(d, Load(d.flash).value, c.reason, u);
      return;
    }
    var v :- BeginVerify(d, c.m, s.size, u);
    if v == None { return Done(InstallFailed(METADATA_COMMIT_FAILED)); }
    OfferedElsewhere(d.trust, old(d.flash.images), d.flash.images);
    if safe { GoalVerifies(d.trust, v.value, d.flash.images, u); }
    var problem := InstallProblem(d.flash.images.app, s);
    if problem != 0 {
      r := RollBackAfter(d, v.value, problem, u);
      return;
    }
    r := BeginTrial(d, v.value, u);
  }

  lemma OfferedElsewhere(t: Trust, a: Images, b: Images)
    requires WellSized(a) && WellSized(b) && a.incoming == b.incoming
    ensures Offered(t, a) == Offered(t, b)
  {
    hide LoadVerifiedInfo;
  }

  /** What the installer hands back: a fresh trial of a jumpable image, or the idle state. */
  ghost predicate Launchable(m: Metadata, im: Images)
    requires WellSized(im)
  {
    m.state == IDLE || (m.state == TRIAL_BOOT && m.bootAttempts == 0 && VectorOk(im.app, APPLICATION_MAX_SIZE))
  }

  /** ImageInstaller_ProcessBasicFull, for the states from IMAGE_READY to VERIFYING_INSTALL. */
  method Install(d: Device, metadata: Metadata, ghost u: Update) returns (r: Run<InstallResult>)
    requires Load(d.flash) == Some(metadata) && IMAGE_READY <= metadata.state <= VERIFYING_INSTALL
    modifies d
    ensures d.steady ==> r.Done?
    ensures d.torn == old(d.torn) || (r.PowerCut? && Tore(d.flash, d.torn))
    ensures old(Safe(d.trust, d.flash, u)) ==> Kept(d, r.PowerCut?, u) && d.refused == old(d.refused)
    ensures r.Done? ==> d.torn == old(d.torn)
    ensures r.Done? && !r.value.InstallFailed? ==>
              Load(d.flash) == Some(r.value.m) && Launchable(r.value.m, d.flash.images)
    ensures old(Safe(d.trust, d.flash, u)) && r.Done? ==> r.value.InstallOk? && r.value.m.state == TRIAL_BOOT
  {
    hide Collides, Tore, Spoilt, Decode, CalculateCrc, SelectNewestSlot, Ready, OnTrial, Installed, Offered,
         CandidateSource,
         Crc32.Checksum, VectorOk, IsValid, BackupValidates, SourceProblem, InstallProblem, Backed;
    ghost var safe := Safe(d.trust, d.flash, u);
    var modified := metadata.state == INSTALLING || metadata.state == VERIFYING_INSTALL;
    if safe { ReadySource(d.trust, metadata, d.flash.images, u); }
    var s := CandidateSource(d.trust, d.flash.images, metadata);
    var problem := if s.NoSource? then s.reason else SourceProblem(d.flash.images, s);
    if problem != 0 || s.NoSource? {
      if modified { r := RollBackAfter(d, metadata, problem, u); } else { r := Revert(d, metadata, problem, u); }
      return;
    }
    if metadata.state < INSTALLING {
      r := BackUpThenCopy(d, metadata, s, u);
      return;
    }
    if safe { BackedValidates(d.flash.images, u); }
    if !BackupValidates(d.flash.images) {
      var _ :- MarkFailed(d, metadata, ROLLBACK_SOURCE_INVALID, u);
      return Done(InstallFailed(ROLLBACK_SOURCE_INVALID));
    }
    if metadata.state == INSTALLING {
      if safe { InstalledValid(d.flash.images.app, u, metadata.copyOffset, s.size); }
      if !InstallValid(s.size, metadata.copyOffset) {
        r := RollBackAfter(d, metadata, PROGRESS_INVALID, u);
        return;
      }
      r := CopyAndVerify(d, metadata, s, u);
      return;
    }
    if safe { GoalVerifies(d.trust, metadata, d.flash.images, u); }
    if InstallProblem(d.flash.images.app, s) == 0 {
      BootableApp(d.flash.images.app, s);
      r := BeginTrial(d, metadata, u);
      return;
    }
    var p :- Publish(d, metadata.(state := INSTALLING, copyOffset := 0, lastError := 0), u);
    if p == None { return Done(InstallFailed(METADATA_COMMIT_FAILED)); }
    r := CopyAndVerify(d, p.value, s, u);
  }

  lemma BootableApp(app: seq<byte>, s: Source)
    requires |app| == APPLICATION_MAX_SIZE && s.Source? && s.size <= APPLICATION_MAX_SIZE && InstallProblem(app, s) == 0
    ensures VectorOk(app, APPLICATION_MAX_SIZE)
  {
    hide VectorOk, Crc32.Checksum;
  }

  /** RevertToActiveImage: the application has not been touched yet. */
  method Revert(d: Device, working: Metadata, reason: int, ghost u: Update) returns (r: Run<InstallResult>)
    requires Load(d.flash) == Some(working)
    modifies d
    ensures d.steady ==> r.Done?
    ensures d.flash.images == old(d.flash.images) && d.refused == old(d.refused)
    ensures d.torn == old(d.torn) || (r.PowerCut? && Tore(d.flash, d.torn))
    ensures r.Done? ==>
              && r.value.SourceRejected? && Load(d.flash) == Some(r.value.m) && r.value.m.state == IDLE
              && Same(r.value.m, IdleRecord(working, InstallerError(reason))) && d.torn == old(d.torn)
  {
    hide Collides, Tore, Spoilt, Load, SafeIn;
    var c :- Reject(d, working, InstallerError(reason), u);
    return Done(SourceRejected(c.m));
  }

  /** IMAGE_READY and BACKING_UP: complete the backup, then copy. */
  method BackUpThenCopy(d: Device, metadata: Metadata, s: Source, ghost u: Update) returns (r: Run<InstallResult>)
    requires Load(d.flash) == Some(metadata) && (metadata.state == IMAGE_READY || metadata.state == BACKING_UP)
    requires s.Source? && s.size == metadata.expectedSize <= APPLICATION_MAX_SIZE &&
             s == Offered(d.trust, d.flash.images)
    modifies d
    ensures d.steady ==> r.Done?
    ensures d.torn == old(d.torn) || (r.PowerCut? && Tore(d.flash, d.torn))
    ensures old(Safe(d.trust, d.flash, u)) ==> Kept(d, r.PowerCut?, u) && d.refused == old(d.refused)
    ensures r.Done? ==> d.torn == old(d.torn)
    ensures r.Done? && !r.value.InstallFailed? ==>
              Load(d.flash) == Some(r.value.m) && Launchable(r.value.m, d.flash.images)
    ensures old(Safe(d.trust, d.flash, u)) && r.Done? ==> r.value.InstallOk? && r.value.m.state == TRIAL_BOOT
  {
    hide Collides, Tore, Spoilt, Decode, CalculateCrc, SelectNewestSlot, Ready, OnTrial, Installed, Offered,
         Crc32.Checksum, VectorOk, IsValid, BackupValidates, Backed;
    ghost var safe := Safe(d.trust, d.flash, u);
    var working := metadata;
    if working.state == IMAGE_READY {
      var p :- BeginBackup(d, working, u);
      if p == None {
        var _ :- MarkFailed(d, working, METADATA_COMMIT_FAILED, u);
        return Done(InstallFailed(METADATA_COMMIT_FAILED));
      }
      working := p.value;
    }
    var b :- ResumeBackup(d, working, u);
    if b.Stop? {
      r := Revert(d, Load(d.flash).value, b.reason, u);
      return;
    }
    working := b.m;
    OfferedElsewhere(d.trust, old(d.flash.images), d.flash.images);
    if safe { BackedValidates(d.flash.images, u); }
    if !BackupValidates(d.flash.images) {
      var _ :- MarkFailed(d, working, ROLLBACK_SOURCE_INVALID, u);
      return Done(InstallFailed(ROLLBACK_SOURCE_INVALID));
    }
    if safe { InstalledValid(d.flash.images.app, u, working.copyOffset, s.size); }
    if !InstallValid(s.size, working.copyOffset) {
      r := RollBackAfter(d, working, PROGRESS_INVALID, u);
      return;
    }
    r := CopyAndVerify(d, working, s, u);
  }
}
