/** application/src/ota_receiver.c: the node's end of a transfer. */
module Receiver {
  import opened Bytes
  import opened Nor
  import opened BootMetadata
  import opened Container
  import opened Device
  import opened SharedSectors
  import P = Packet
  import Crc32

  const CMD_START: byte := 0x10
  const CMD_DATA: byte := 0x11
  const CMD_FINISH: byte := 0x12
  const CMD_ABORT: byte := 0x13
  const CMD_RESUME: byte := 0x14
  const CMD_INSTALL: byte := 0x20
  const CMD_CONFIRM: byte := 0x22
  const QUERIES: set<byte> := {0x01, 0x02, 0x21}

  const STATUS_OK: word := 0x00
  const INVALID_PACKET: word := 0x01
  const INVALID_STATE: word := 0x02
  const WRONG_SEQUENCE: word := 0x03
  const WRONG_OFFSET: word := 0x04
  const IMAGE_TOO_LARGE: word := 0x07
  const UPDATE_ID_MISMATCH: word := 0x08
  const BASE_MISMATCH: word := 0x09
  const CONTAINER_ERROR: word := 0x0A
  const SIGNATURE_ERROR: word := 0x0B
  const VERSION_REJECTED: word := 0x0C
  const INTERNAL_ERROR: word := 0x0F

  const SECTOR: int := 0x1000
  const SECTORS := 32
  const PAGE: int := 0x100
  const START_PAYLOAD_SIZE := 24
  const CONTAINER_FORMAT: half := 1

  /** Every artifact is larger than its container header and signature. */
  const OVERHEAD := HEADER_SIZE + SIGNATURE_SIZE

  const FULL_IMAGE: byte := 1
  const DELTA_IMAGE: byte := 2

  /** The last DATA packet that was stored. */
  datatype Last = Last(offset: word, sequence: half, length: nat)

  /** g_session: lost at every reset. */
  datatype Session = Session(
    state: word,
    id: word,
    version: word,
    size: word,
    next: word,
    persisted: word,
    crc: word,
    erased: set<nat>,
    sequence: half,
    last: Option<Last>)

  const NO_SESSION := Session(IDLE, 0, 0, 0, 0, 0, 0, {}, 0, None)

  /** A reply; the id is that of the session, which queries report. */
  datatype Reply = Reply(status: word, detail: word, state: word, next: word, size: word, id: word)

  function ReplyFor(s: Session, status: word, detail: word): Reply {
    Reply(status, detail, s.state, s.next, s.size, s.id)
  }

  // ----- what the transfer keeps -----------------------------------------------------------

  /** Erased sectors hold nothing beyond the received bytes, and every sector with received bytes is one of them. */
  ghost predicate Clean(erased: set<nat>, incoming: seq<byte>, next: nat) {
    && (forall i :: next <= i < |incoming| && i / SECTOR in erased ==> incoming[i] == ERASED)
    && (forall k: nat :: k * SECTOR < next ==> k in erased)
  }

  /** A checkpoint that says READY describes bytes with the declared checksum. */
  ghost predicate StoredSound(incoming: seq<byte>, c: Option<Checkpoint>) {
    && (c.Some? && c.value.state != DOWNLOAD_IDLE ==> OVERHEAD < c.value.size)
    && (c.Some? && c.value.state == DOWNLOAD_READY ==>
          c.value.size <= |incoming| && Crc32.Checksum(incoming[..c.value.size]) == c.value.imageCrc)
  }

  /** The persisted checkpoint of the session's transfer. */
  ghost predicate Backs(c: Option<Checkpoint>, s: Session) {
    && c.Some? && c.value.state == DOWNLOAD_RECEIVING
    && c.value.id == s.id && c.value.size == s.size && c.value.imageCrc == s.crc && c.value.version == s.version
    && c.value.next == s.persisted <= s.next
  }

  /** The checkpoint says that the session's artifact is ready. */
  ghost predicate OnRecord(c: Option<Checkpoint>, s: Session) {
    c.Some? && c.value.state == DOWNLOAD_READY && c.value.id == s.id && c.value.size == s.size
  }

  /** Holds of every session, whatever packets arrive. */
  ghost predicate SessionSound(s: Session, incoming: seq<byte>, c: Option<Checkpoint>) {
    && |incoming| == EXT_INCOMING_SIZE && StoredSound(incoming, c)
    && (s.state == RECEIVING ==>
          && s.id != 0 && OVERHEAD < s.size <= EXT_INCOMING_SIZE && s.next <= s.size
          && Clean(s.erased, incoming, s.next) && Backs(c, s)
          && (s.next % SECTOR == 0 ==> s.persisted == s.next)
          && (s.last.Some? ==> 0 < s.last.value.length && s.last.value.offset + s.last.value.length == s.next))
    && (s.state == ARTIFACT_READY ==>
          && s.id != 0 && OVERHEAD < s.next == s.size <= EXT_INCOMING_SIZE &&
                Crc32.Checksum(incoming[..s.size]) == s.crc
          && OnRecord(c, s))
    && (c.Some? && c.value.state == DOWNLOAD_READY ==> s.state == ARTIFACT_READY && s.id == c.value.id)
  }

  /** The first `next` bytes of Incoming are those of the artifact that the update id names. */
  ghost predicate Holds(art: word -> seq<byte>, incoming: seq<byte>, id: word, size: nat, crc: word, next: nat) {
    && size == |art(id)| && crc == Crc32.Checksum(art(id))
    && next <= size && next <= |incoming| && incoming[..next] == art(id)[..next]
  }

  ghost predicate StoredFaithful(art: word -> seq<byte>, incoming: seq<byte>, c: Option<Checkpoint>) {
    c.Some? && c.value.state != DOWNLOAD_IDLE ==>
      Holds(art, incoming, c.value.id, c.value.size, c.value.imageCrc, c.value.next)
  }

  ghost predicate SessionFaithful(art: word -> seq<byte>, s: Session, incoming: seq<byte>) {
    s.state == RECEIVING || s.state == ARTIFACT_READY ==> Holds(art, incoming, s.id, s.size, s.crc, s.next)
  }

  /** A sender that has one artifact per update id. */
  ghost predicate Honest(art: word -> seq<byte>, p: P.Packet) {
    && (p.command == CMD_START && |p.payload| == START_PAYLOAD_SIZE ==>
          StartSize(p) == |art(p.id)| && StartCrc(p) == Crc32.Checksum(art(p.id)))
    && (p.command == CMD_DATA && p.offset + |p.payload| <= |art(p.id)| ==>
          p.payload == art(p.id)[p.offset..p.offset + |p.payload|])
  }

  /** The pace of a sender that sends 256 bytes at a time: the next sequence number and the checkpoint. */
  ghost predicate Paced(s: Session) {
    s.state == RECEIVING ==>
      && (s.next % PAGE == 0 || s.next == s.size)
      && s.sequence == (s.next + PAGE - 1) / PAGE % 0x1_0000
      && s.persisted == s.next / SECTOR * SECTOR
  }

  ghost predicate FullChunk(s: Session, p: P.Packet) {
    p.command == CMD_DATA && s.state == RECEIVING && p.id == s.id && p.offset == s.next && s.next <= s.size ==>
      |p.payload| == Min(PAGE, s.size - s.next)
  }

  // ----- START -----------------------------------------------------------------------------

  function StartSize(p: P.Packet): word requires |p.payload| == START_PAYLOAD_SIZE { Word(p.payload[12..16]) }
  function StartCrc(p: P.Packet): word requires |p.payload| == START_PAYLOAD_SIZE { Word(p.payload[16..20]) }
  function StartVersion(p: P.Packet): word requires |p.payload| == START_PAYLOAD_SIZE { Word(p.payload[8..12]) }

  /** The checks of ProcessStart after the session checks: zero, or the status to refuse with. */
  function StartProblem(p: P.Packet, own: word): word
    requires |p.payload| == START_PAYLOAD_SIZE
  {
    var kind, base := p.payload[0], Word(p.payload[4..8]);
    if p.id == 0 then INVALID_PACKET
    else if kind != FULL_IMAGE && kind != DELTA_IMAGE then INVALID_PACKET
    else if P.Half(p.payload[2..4]) != CONTAINER_FORMAT then CONTAINER_ERROR
    else if StartSize(p) <= OVERHEAD || StartSize(p) > EXT_INCOMING_SIZE then IMAGE_TOO_LARGE
    else if StartVersion(p) == 0 || StartVersion(p) <= own then VERSION_REJECTED
    else if Word(p.payload[20..24]) != HEADER_SIZE then SIGNATURE_ERROR
    else if kind == DELTA_IMAGE && (base == 0 || base != own) then BASE_MISMATCH
    else if kind != DELTA_IMAGE && base != 0 then CONTAINER_ERROR
    else STATUS_OK
  }

  function StartSession(p: P.Packet): Session
    requires |p.payload| == START_PAYLOAD_SIZE
  {
    Session(RECEIVING, p.id, StartVersion(p), StartSize(p), 0, 0, StartCrc(p), {}, 0, None)
  }

  /** The record that PersistDownloadCheckpoint asks for. */
  function CheckpointOf(s: Session, state: word, next: word): Checkpoint {
    Checkpoint(CHECKPOINT_MAGIC, 0, FORMAT_VERSION, state, s.id, s.version, s.size, s.crc, next, 0)
  }

  // ----- the flash below the session -------------------------------------------------------

  /** Erasing a sector that is not yet marked touches no received byte. */
  lemma SectorErased(erased: set<nat>, incoming: seq<byte>, next: nat, k: nat)
    requires |incoming| == EXT_INCOMING_SIZE && next <= |incoming| && Clean(erased, incoming, next) && k < SECTORS &&
             k !in erased
    ensures var after := Erase(incoming, k * SECTOR, SECTOR);
            Clean(erased + {k}, after, next) && after[..next] == incoming[..next]
  {
    hide Store;
    var after := Erase(incoming, k * SECTOR, SECTOR);
    assert !(k * SECTOR < next);
    StoreElsewhere(incoming, k * SECTOR, Fill(ERASED, SECTOR));
    forall i | next <= i < |after| && i / SECTOR in erased + {k} ensures after[i] == ERASED {
      if k * SECTOR <= i < (k + 1) * SECTOR {
        assert after[k * SECTOR..k * SECTOR + SECTOR][i - k * SECTOR] == ERASED;
      } else if i < k * SECTOR {
        assert after[..k * SECTOR][i] == incoming[..k * SECTOR][i];
      } else {
        assert after[k * SECTOR + SECTOR..][i - k * SECTOR - SECTOR] ==
            incoming[k * SECTOR + SECTOR..][i - k * SECTOR - SECTOR];
      }
    }
    assert after[..k * SECTOR][..next] == incoming[..k * SECTOR][..next];
  }

  /** Storing the next bytes in erased sectors keeps the sectors clean. */
  lemma DataStored(erased: set<nat>, incoming: seq<byte>, next: nat, data: seq<byte>)
    requires next + |data| <= |incoming| && Clean(erased, incoming, next) && data != []
    requires forall k: nat :: next / SECTOR <= k <= (next + |data| - 1) / SECTOR ==> k in erased
    ensures IsErased(incoming, next, next + |data|)
    ensures var after := Store(incoming, next, data);
            && Clean(erased, after, next + |data|) && after[..next] == incoming[..next]
            && after[..next + |data|] == incoming[..next] + data
  {
    forall i | next <= i < next + |data| ensures incoming[i] == ERASED {
      assert next / SECTOR <= i / SECTOR <= (next + |data| - 1) / SECTOR;
    }
    forall k: nat | k * SECTOR < next + |data| ensures k in erased {
      if k * SECTOR >= next { assert next / SECTOR <= k <= (next + |data| - 1) / SECTOR; }
    }
  }

  /** The bytes of the session's transfer are untouched. */
  ghost predicate PrefixKept(before: seq<byte>, after: seq<byte>, n: nat) {
    n <= |before| == |after| && after[..n] == before[..n]
  }

  /** Bytes beyond the received ones matter neither to the session nor to its checkpoint. */
  lemma Unaffected(art: word -> seq<byte>, before: seq<byte>, after: seq<byte>, s: Session, c: Option<Checkpoint>)
    requires s.state == RECEIVING && Backs(c, s) && StoredSound(before, c) && PrefixKept(before, after, s.next)
    ensures StoredSound(after, c)
    ensures StoredFaithful(art, before, c) ==> StoredFaithful(art, after, c)
    ensures SessionFaithful(art, s, before) ==> SessionFaithful(art, s, after)
  {
    var n := c.value.next;
    assert after[..n] == after[..s.next][..n] && before[..n] == before[..s.next][..n];
  }

  /** The session after a stored DATA packet. */
  function Stepped(s: Session, p: P.Packet): Session
    requires s.next + |p.payload| <= s.size
  {
    s.(next := s.next + |p.payload|, sequence := (s.sequence + 1) % 0x1_0000,
       last := Some(Last(p.offset, p.sequence, |p.payload|)))
  }

  /** A stored packet extends the received prefix of the artifact. */
  lemma StepFaithful(art: word -> seq<byte>, before: seq<byte>, after: seq<byte>, s: Session, p: P.Packet)
    requires s.state == RECEIVING && s.next + |p.payload| <= s.size <= |before| == |after|
    requires p.command == CMD_DATA && p.id == s.id && p.offset == s.next && Honest(art, p) &&
             SessionFaithful(art, s, before)
    requires after[..s.next + |p.payload|] == before[..s.next] + p.payload
    ensures SessionFaithful(art, Stepped(s, p), after)
  {
    var n := s.next + |p.payload|;
    assert art(s.id)[..n] == art(s.id)[..s.next] + art(s.id)[s.next..n];
  }

  lemma PageCount(k: nat, n: nat)
    requires 0 < n <= PAGE
    ensures (k * PAGE + PAGE - 1) / PAGE == k && (k * PAGE + n + PAGE - 1) / PAGE == k + 1
    ensures n == PAGE ==> (k * PAGE + n) % PAGE == 0
  {
  }

  lemma SequenceWraps(k: nat)
    ensures (k % 0x1_0000 + 1) % 0x1_0000 == (k + 1) % 0x1_0000
  {
  }

  lemma NextSequence(next: nat, n: nat)
    requires next % PAGE == 0 && 0 < n <= PAGE
    ensures ((next + PAGE - 1) / PAGE % 0x1_0000 + 1) % 0x1_0000 == (next + n + PAGE - 1) / PAGE % 0x1_0000
    ensures n == PAGE ==> (next + n) % PAGE == 0
  {
    var k := next / PAGE;
    assert next == k * PAGE;
    PageCount(k, n);
    SequenceWraps(k);
  }

  lemma StepPaced(s: Session, p: P.Packet)
    requires s.state == RECEIVING && Paced(s) && 0 < |p.payload| && |p.payload| == Min(PAGE, s.size - s.next)
    ensures var t := Stepped(s, p);
            && (t.next % PAGE == 0 || t.next == t.size)
            && t.sequence == (t.next + PAGE - 1) / PAGE % 0x1_0000
            && (t.next % SECTOR != 0 ==> t.next / SECTOR * SECTOR == t.persisted)
  {
    NextSequence(s.next, |p.payload|);
    if (s.next + |p.payload|) % SECTOR != 0 { SectorOf(s.next, s.next + |p.payload|); }
  }

  /** The session after a packet has been stored and its boundary, if it met one, persisted. */
  ghost predicate Advanced(s: Session, t: Session, p: P.Packet)
    requires s.next + |p.payload| <= s.size
  {
    && t == Stepped(s, p).(erased := t.erased, persisted := t.persisted)
    && t.persisted == if t.next % SECTOR == 0 then t.next else s.persisted
  }

  lemma PacedAfter(s: Session, t: Session, p: P.Packet)
    requires s.state == RECEIVING && Paced(s) && FullChunk(s, p) && p.command == CMD_DATA && p.id == s.id &&
             0 < |p.payload|
    requires p.offset == s.next && s.next + |p.payload| <= s.size && Advanced(s, t, p)
    ensures Paced(t)
  {
    hide Paced;
    StepPaced(s, p);
    PacedIs(t);
  }

  lemma PacedIs(s: Session)
    requires s.next % PAGE == 0 || s.next == s.size
    requires s.sequence == (s.next + PAGE - 1) / PAGE % 0x1_0000
    requires s.persisted == s.next / SECTOR * SECTOR
    ensures Paced(s)
  {
  }

  /** Within a page of a page boundary no sector boundary is passed without being met. */
  lemma SectorOf(a: nat, b: nat)
    requires a % PAGE == 0 && a < b <= a + PAGE && b % SECTOR != 0
    ensures b / SECTOR == a / SECTOR
  {
    var q := a / SECTOR;
    assert a % SECTOR + PAGE <= SECTOR;
    assert a == q * SECTOR + a % SECTOR;
  }

  lemma Tail(incoming: seq<byte>, front: seq<byte>, data: seq<byte>)
    requires |front| + |data| <= |incoming| && incoming[..|front| + |data|] == front + data
    ensures incoming[|front|..|front| + |data|] == data
  {
    assert incoming[|front|..|front| + |data|] == incoming[..|front| + |data|][|front|..];
  }

  lemma RoomFor(s: Session, incoming: seq<byte>, c: Option<Checkpoint>, n: nat)
    requires SessionSound(s, incoming, c) && s.state == RECEIVING && 0 < n <= s.size - s.next
    ensures |incoming| == EXT_INCOMING_SIZE && s.next <= |incoming| && (s.next + n - 1) / SECTOR < SECTORS
  {
    hide Clean;
  }

  class Receiver {
    const flash: ExternalFlash

    /** APPLICATION_VERSION */
    const own: word

    var session: Session

    constructor (flash: ExternalFlash, own: word)
      ensures this.flash == flash && this.own == own && session == NO_SESSION
    {
      this.flash, this.own, session := flash, own, NO_SESSION;
    }

    ghost function Stored(): Option<Checkpoint>
      reads flash
    {
      LoadCheckpoint(flash.sectors)
    }

    ghost predicate Sound()
      reads this, flash
    {
      SessionSound(session, flash.incoming, Stored())
    }

    ghost predicate Faithful(art: word -> seq<byte>)
      reads this, flash
    {
      SessionFaithful(art, session, flash.incoming) && StoredFaithful(art, flash.incoming, Stored())
    }

    /** What survives a reset. */
    ghost predicate Durable(art: word -> seq<byte>, faithful: bool)
      reads flash
    {
      && |flash.incoming| == EXT_INCOMING_SIZE && StoredSound(flash.incoming, Stored())
      && (faithful ==> StoredFaithful(art, flash.incoming, Stored()))
    }

    /** One sector of EnsureIncomingSectorsErased. */
    method EraseSector(sector: nat, ghost art: word -> seq<byte>) returns (r: Run<()>)
      requires Sound() && session.state == RECEIVING && sector < SECTORS && sector !in session.erased
      modifies this`session, flash`incoming, flash`power
      ensures flash.steady ==> r.Done?
      ensures session == old(session).(erased := session.erased) && Sound() && old(session.erased) <= session.erased
      ensures PrefixKept(old(flash.incoming), flash.incoming, session.next)
      ensures old(Faithful(art)) ==> Faithful(art)
      ensures r.Done? ==> sector in session.erased
    {
      hide LoadCheckpoint, Clean, StoredSound, StoredFaithful, Holds;
      ghost var before := flash.incoming;
      SectorErased(session.erased, flash.incoming, session.next, sector);
      var _ :- flash.WriteIncoming(Erase(flash.incoming, sector * SECTOR, SECTOR));
      Unaffected(art, before, flash.incoming, session, Stored());
      session := session.(erased := session.erased + {sector});
      return Done(());
    }

    /** EnsureIncomingSectorsErased */
    method EnsureErased(offset: nat, length: nat, ghost art: word -> seq<byte>) returns (r: Run<()>)
      requires Sound() && session.state == RECEIVING
      requires offset == session.next && 0 < length <= session.size - session.next
      modifies this`session, flash`incoming, flash`power
      ensures flash.steady ==> r.Done?
      ensures session == old(session).(erased := session.erased) && Sound()
      ensures PrefixKept(old(flash.incoming), flash.incoming, session.next)
      ensures old(Faithful(art)) ==> Faithful(art)
      ensures r.Done? ==> forall k: nat :: offset / SECTOR <= k <= (offset + length - 1) / SECTOR ==>
                k in session.erased
    {
      hide SessionSound, SessionFaithful, StoredFaithful, LoadCheckpoint;
      RoomFor(session, flash.incoming, Stored(), length);
      var sector, last := offset / SECTOR, (offset + length - 1) / SECTOR;
      while sector <= last
        invariant offset / SECTOR <= sector <= last + 1 <= SECTORS
        invariant session == old(session).(erased := session.erased) && Sound()
        invariant PrefixKept(old(flash.incoming), flash.incoming, session.next)
        invariant old(Faithful(art)) ==> Faithful(art)
        invariant forall k: nat :: offset / SECTOR <= k < sector ==> k in session.erased
      {
        if sector !in session.erased {
          var _ :- EraseSector(sector, art);
        }
        sector := sector + 1;
      }
      return Done(());
    }

    /** ExternalFlashStorage_Write: one program operation per flash page touched. */
    method WriteData(p: P.Packet, ghost art: word -> seq<byte>) returns (r: Run<()>)
      requires Sound() && session.state == RECEIVING
      requires p.offset == session.next && 0 < |p.payload| <= session.size - session.next
      requires forall k: nat :: p.offset / SECTOR <= k <= (p.offset + |p.payload| - 1) / SECTOR ==> k in session.erased
      modifies flash`incoming, flash`power
      ensures flash.steady ==> r.Done?
      ensures PrefixKept(old(flash.incoming), flash.incoming, session.next)
      ensures r.Done? ==> flash.incoming == Store(old(flash.incoming), p.offset, p.payload)
    {
      hide LoadCheckpoint, Clean, StoredSound, Store, Program, Pad;
      var offset, n := p.offset, |p.payload|;
      ghost var before := flash.incoming;
      DataStored(session.erased, before, offset, p.payload);
      BlankBlock(before, offset, p.payload);
      var done := 0;
      while done < n
        invariant 0 <= done <= n
        invariant flash.incoming == Store(before, offset, Pad(p.payload[..done], n))
      {
        var chunk := Min(n - done, PAGE - (offset + done) % PAGE);
        ProgramNext(before, offset, n, p.payload, done, chunk);
        StoreElsewhere(before, offset, Pad(p.payload[..done], n));
        var _ :- flash.WriteIncoming(Program(flash.incoming, offset + done, p.payload[done..done + chunk]));
        done := done + chunk;
      }
      FullBlock(p.payload);
      StoreElsewhere(before, offset, p.payload);
      return Done(());
    }

    /** PersistReceiveBoundaryIfNeeded */
    method PersistBoundary(ghost art: word -> seq<byte>) returns (r: Run<()>)
      requires |flash.incoming| == EXT_INCOMING_SIZE && session.state == RECEIVING && session.id != 0
      requires OVERHEAD < session.size <= EXT_INCOMING_SIZE && session.next <= session.size
      requires Clean(session.erased, flash.incoming, session.next) && Backs(Stored(), session)
      requires session.last.Some? ==>
                0 < session.last.value.length && session.last.value.offset + session.last.value.length == session.next
      modifies this`session, flash`sectors, flash`power
      ensures flash.steady ==> r.Done?
      ensures session == old(session).(persisted := session.persisted)
      ensures r.Done? ==> Sound()
      ensures r.Done? ==>
                session.persisted == (if session.next % SECTOR == 0 then session.next else old(session.persisted))
      ensures old(session.next % SECTOR != 0 || session.persisted == session.next) ==>
                r.Done? && unchanged(this) && unchanged(flash)
      ensures Durable(art, old(Faithful(art)))
      ensures r.Done? && old(Faithful(art)) ==> Faithful(art)
    {
      hide LoadCheckpoint, Clean, Crc32.Checksum;
      if session.next == 0 || session.next % SECTOR != 0 || session.persisted == session.next { return Done(()); }
      var c :- flash.CommitCheckpoint(CheckpointOf(session, DOWNLOAD_RECEIVING, session.next));
      session := session.(persisted := c.value.next);
      return Done(());
    }

    /** Erase what is needed and write the payload. */
    method Stage(p: P.Packet, ghost art: word -> seq<byte>) returns (r: Run<()>)
      requires Sound() && p.command == CMD_DATA && Expected(session, p)
      modifies this`session, flash`incoming, flash`power
      ensures flash.steady ==> r.Done?
      ensures Durable(art, old(Faithful(art)))
      ensures session == old(session).(erased := session.erased)
      ensures r.Done? ==>
                && var n := session.next + |p.payload|;
                && Clean(session.erased, flash.incoming, n) && Backs(Stored(), session)
                && flash.incoming[..n] == old(flash.incoming)[..session.next] + p.payload
    {
      hide LoadCheckpoint, Clean, Holds, Store, StoredSound, StoredFaithful;
      var _ :- EnsureErased(p.offset, |p.payload|, art);
      ghost var before := flash.incoming;
      var w := WriteData(p, art);
      Unaffected(art, before, flash.incoming, session, Stored());
      if w.PowerCut? { return PowerCut; }
      DataStored(session.erased, before, session.next, p.payload);
      return Done(());
    }

    /** The part of ProcessData that writes. */
    method StoreData(p: P.Packet, ghost art: word -> seq<byte>) returns (r: Run<Reply>)
      requires Sound() && p.command == CMD_DATA && Expected(session, p)
      modifies this`session, flash`incoming, flash`sectors, flash`power
      ensures flash.steady ==> r.Done?
      ensures Durable(art, Honest(art, p) && old(Faithful(art)))
      ensures r.Done? ==> Sound()
      ensures r.Done? && Honest(art, p) && old(Faithful(art)) ==> Faithful(art)
      ensures r.Done? ==> Advanced(old(session), session, p)
      ensures r.Done? ==>
                && r.value == ReplyFor(session, STATUS_OK, 0) && session.state == RECEIVING
                && flash.incoming[p.offset..session.next] == p.payload
    {
      hide LoadCheckpoint, Clean, Holds, Store, StoredSound, StoredFaithful, Honest;
      ghost var start, before := session, flash.incoming;
      var _ :- Stage(p, art);
      Tail(flash.incoming, before[..session.next], p.payload);
      if Honest(art, p) && SessionFaithful(art, start, before) {
        StepFaithful(art, before, flash.incoming, session, p);
      }
      session := Stepped(session, p);
      var _ :- PersistBoundary(art);
      return Done(ReplyFor(session, STATUS_OK, 0));
    }

    /** ProcessData */
    method ProcessData(p: P.Packet, ghost art: word -> seq<byte>) returns (r: Run<Reply>)
      requires Sound() && p.command == CMD_DATA
      modifies this`session, flash
      ensures flash.steady == old(flash.steady) && (flash.steady ==> r.Done?)
      ensures Durable(art, Honest(art, p) && old(Faithful(art)))
      ensures old(session.state) == ARTIFACT_READY ==> session == old(session) && Stored() == old(Stored())
      ensures r.Done? ==> Answer(own, old(session), session, p, r.value)
      ensures r.Done? ==> Sound()
      ensures r.Done? && Honest(art, p) && old(Faithful(art)) ==> Faithful(art)
      ensures r.Done? && old(Paced(session)) && FullChunk(old(session), p) ==> Paced(session)
      // Re-delivery of the packet that was stored last is acknowledged and changes nothing.
      ensures old(Redelivered(session, p)) && r.Done? && r.value.status == STATUS_OK ==>
                session == old(session) && flash.incoming == old(flash.incoming) && flash.sectors == old(flash.sectors)
      ensures old(Redelivered(session, p) && StoredMatches(flash.incoming, p)) ==>
                r == Done(ReplyFor(session, STATUS_OK, 0)) && session == old(session)
      // The expected packet is stored and acknowledged.
      ensures old(Expected(session, p)) && r.Done? ==>
                && r.value == ReplyFor(session, STATUS_OK, 0) && session.state == RECEIVING
                && session.next == p.offset + |p.payload| && session.id == p.id
                && flash.incoming[p.offset..session.next] == p.payload
      ensures r.Done? && r.value.status != STATUS_OK ==>
                session == old(session) && flash.incoming == old(flash.incoming)
    {
      hide LoadCheckpoint, Clean, StoredSound, StoredFaithful, Holds, Store, Honest, Paced;
      if session.state != RECEIVING { return Done(ReplyFor(session, INVALID_STATE, 0)); }
      if p.id != session.id { return Done(ReplyFor(session, UPDATE_ID_MISMATCH, 0)); }
      if p.payload == [] || |p.payload| > P.MAX_PAYLOAD { return Done(ReplyFor(session, INVALID_PACKET, 0)); }
      if session.last == Some(Last(p.offset, p.sequence, |p.payload|)) {
        if !StoredMatches(flash.incoming, p) { return Done(ReplyFor(session, WRONG_OFFSET, p.offset)); }
        var b := PersistBoundary(art);
        assert b.Done?;
        return Done(ReplyFor(session, STATUS_OK, 0));
      }
      if p.sequence != session.sequence { return Done(ReplyFor(session, WRONG_SEQUENCE, session.sequence)); }
      if p.offset != session.next { return Done(ReplyFor(session, WRONG_OFFSET, session.next)); }
      if |p.payload| > session.size - session.next { return Done(ReplyFor(session, WRONG_OFFSET, session.size)); }
      ghost var start := session;
      r := StoreData(p, art);
      if r.Done? && Paced(start) && FullChunk(start, p) { PacedAfter(start, session, p); }
    }

    /** ProcessStart: the checkpoint of the new transfer is committed before anything is erased. */
    method ProcessStart(p: P.Packet, ghost art: word -> seq<byte>) returns (r: Run<Reply>)
      requires Sound() && p.command == CMD_START
      modifies this`session, flash`sectors, flash`power
      ensures flash.steady ==> r.Done?
      ensures Durable(art, Honest(art, p) && old(Faithful(art)))
      ensures old(session.state) == ARTIFACT_READY ==> session == old(session) && Stored() == old(Stored())
      ensures r.Done? ==> Answer(own, old(session), session, p, r.value)
      ensures r.Done? ==> Sound()
      ensures r.Done? && Honest(art, p) && old(Faithful(art)) ==> Faithful(art)
      ensures r.Done? && old(Paced(session)) ==> Paced(session)
      ensures r.Done? && r.value.status != STATUS_OK ==> session == old(session)
      ensures r.Done? && r.value.status == STATUS_OK ==>
                |p.payload| == START_PAYLOAD_SIZE && session == StartSession(p) &&
                    r.value == ReplyFor(session, STATUS_OK, 0)
      ensures r.Done? ==> (r.value.status == STATUS_OK <==>
                             && |p.payload| == START_PAYLOAD_SIZE && StartProblem(p, own) == STATUS_OK
                             && (old(session.state) == IDLE || old(session.state) == FAILED ||
                                   old(session.state) == RECEIVING))
    {
      hide LoadCheckpoint, Crc32.Checksum, Word, P.Half;
      if |p.payload| != START_PAYLOAD_SIZE { return Done(ReplyFor(session, INVALID_PACKET, 0)); }
      if session.state != IDLE && session.state != FAILED && session.state != RECEIVING {
        return Done(ReplyFor(session, INVALID_STATE, 0));
      }
      var problem := StartProblem(p, own);
      if problem != STATUS_OK { return Done(ReplyFor(session, problem, 0)); }
      session := StartSession(p);
      var _ :- flash.CommitCheckpoint(CheckpointOf(session, DOWNLOAD_RECEIVING, 0));
      return Done(ReplyFor(session, STATUS_OK, 0));
    }

    /** ProcessFinish */
    method ProcessFinish(p: P.Packet, ghost art: word -> seq<byte>) returns (r: Run<Reply>)
      requires Sound() && p.command == CMD_FINISH
      modifies this`session, flash`sectors, flash`power
      ensures flash.steady ==> r.Done?
      ensures Durable(art, old(Faithful(art)))
      ensures old(session.state) == ARTIFACT_READY ==> session == old(session) && Stored() == old(Stored())
      ensures r.Done? ==> Answer(own, old(session), session, p, r.value)
      ensures r.Done? ==> Sound() && session == old(session).(state := session.state, persisted := session.persisted)
      ensures r.Done? && old(Faithful(art)) ==> Faithful(art)
      ensures r.Done? && old(Paced(session)) ==> Paced(session)
      // An acknowledgement means that the stored bytes have the declared checksum, and that this is on record.
      ensures r.Done? && r.value.status == STATUS_OK ==>
                && p.id == session.id && session.state == ARTIFACT_READY && r.value == ReplyFor(session, STATUS_OK, 0)
                && session.next == session.size <= |flash.incoming|
                && Crc32.Checksum(flash.incoming[..session.size]) == session.crc
      ensures r.Done? && old(Faithful(art) && Complete(session, p)) ==> r.value.status == STATUS_OK
      ensures r.Done? && old(session.state) == ARTIFACT_READY && p.payload == [] && p.id == old(session.id) ==>
                r.value.status == STATUS_OK && session == old(session)
      ensures r.Done? && r.value.status == STATUS_OK && old(session.state) == RECEIVING ==>
                Stored().Some? && Stored().value.state == DOWNLOAD_READY && Stored().value.id == session.id
    {
      hide LoadCheckpoint, Crc32.Checksum, Clean;
      if p.payload != [] { return Done(ReplyFor(session, INVALID_PACKET, 0)); }
      if session.state == ARTIFACT_READY && p.id == session.id && session.next == session.size {
        return Done(ReplyFor(session, STATUS_OK, 0));
      }
      if session.state != RECEIVING { return Done(ReplyFor(session, INVALID_STATE, 0)); }
      if p.id != session.id { return Done(ReplyFor(session, UPDATE_ID_MISMATCH, 0)); }
      if session.next != session.size { return Done(ReplyFor(session, WRONG_OFFSET, session.next)); }
      assert art(session.id)[..|art(session.id)|] == art(session.id);
      var crc := ArtifactCrc(session.size);
      if crc != session.crc {
        session := session.(state := FAILED);
        return Done(ReplyFor(session, CONTAINER_ERROR, crc));
      }
      var c :- flash.CommitCheckpoint(CheckpointOf(session, DOWNLOAD_READY, session.size));
      session := session.(state := ARTIFACT_READY, persisted := c.value.next);
      return Done(ReplyFor(session, STATUS_OK, 0));
    }

    /** CalculateIncomingCrc: 256 bytes at a time. */
    method ArtifactCrc(length: nat) returns (crc: word)
      requires length <= |flash.incoming|
      ensures crc == Crc32.Checksum(flash.incoming[..length])
    {
      var offset, running := 0, Crc32.INITIAL;
      assert flash.incoming[..0] == [];
      while offset < length
        invariant 0 <= offset <= length
        invariant running == Crc32.Update(Crc32.INITIAL, flash.incoming[..offset])
      {
        var chunk := Min(length - offset, PAGE);
        var buffer := flash.incoming[offset..offset + chunk];
        Crc32.UpdateConcat(Crc32.INITIAL, flash.incoming[..offset], buffer);
        assert flash.incoming[..offset] + buffer == flash.incoming[..offset + chunk];
        running := Crc32.UpdateLoop(running, buffer);
        offset := offset + chunk;
      }
      return Crc32.Xor(running, Crc32.FINAL_XOR) as int;
    }

    /** ABORT, in any state: the checkpoint is cleared, then the session. */
    method ProcessAbort(p: P.Packet, ghost art: word -> seq<byte>) returns (r: Run<Reply>)
      requires Sound() && p.command == CMD_ABORT
      modifies this`session, flash`sectors, flash`power
      ensures flash.steady ==> r.Done?
      ensures Durable(art, old(Faithful(art)))
      ensures r.Done? ==> Sound() && (old(Faithful(art)) ==> Faithful(art)) && (old(Paced(session)) ==> Paced(session))
      ensures Stored() == old(Stored()) || (Stored().Some? && Stored().value.state == DOWNLOAD_IDLE)
      ensures r.Done? ==>
                (r.value.status == STATUS_OK <==> p.payload == []) && (p.payload == [] ==> session == NO_SESSION)
      ensures r.Done? ==> Answer(own, old(session), session, p, r.value)
    {
      hide LoadCheckpoint, Crc32.Checksum, Clean;
      if p.payload != [] { return Done(ReplyFor(session, INVALID_PACKET, 0)); }
      var _ :- flash.CommitCheckpoint(IDLE_CHECKPOINT);
      session := NO_SESSION;
      return Done(ReplyFor(session, STATUS_OK, 0));
    }

    /** RESUME only reports where the transfer stands. */
    function Resume(p: P.Packet): Reply
      reads this
    {
      if p.payload != [] then ReplyFor(session, INVALID_PACKET, 0)
      else if session.state != RECEIVING then ReplyFor(session, INVALID_STATE, 0)
      else if p.id != session.id then ReplyFor(session, UPDATE_ID_MISMATCH, 0)
      else ReplyFor(session, STATUS_OK, 0)
    }

    /** INSTALL before the boot metadata is touched: zero, or the status to refuse with. */
    function InstallProblem(p: P.Packet): word
      reads this, flash
    {
      if p.payload != [] then INVALID_PACKET
      else if session.state != ARTIFACT_READY then INVALID_STATE
      else if p.id != session.id then UPDATE_ID_MISMATCH
      else if session.version == 0 then VERSION_REJECTED
      else if !HasMagic(flash.incoming) then SIGNATURE_ERROR
      else STATUS_OK
    }

    /** CONFIRM before the boot metadata is touched. */
    function ConfirmProblem(p: P.Packet): word
      reads this
    {
      if p.payload != [] then INVALID_PACKET
      else if session.state != TRIAL_BOOT then INVALID_STATE
      else if p.id != 0 && p.id != session.id then UPDATE_ID_MISMATCH
      else STATUS_OK
    }

    /** What the other commands answer; RESUME and the queries only report. */
    function Report(p: P.Packet): Reply
      reads this
    {
      if p.command == CMD_RESUME then Resume(p)
      else ReplyFor(session, if p.command in QUERIES && p.payload == [] then STATUS_OK else INVALID_PACKET, 0)
    }

    /** INSTALL and CONFIRM; `committed` says whether the commit to the boot metadata succeeds. */
    method ProcessBoot(p: P.Packet, committed: bool, ghost art: word -> seq<byte>) returns (reply: Reply)
      requires Sound() && (p.command == CMD_INSTALL || p.command == CMD_CONFIRM)
      modifies this`session
      ensures Sound() && (old(Faithful(art)) ==> Faithful(art)) && (old(Paced(session)) ==> Paced(session))
      ensures Answer(own, old(session), session, p, reply)
      ensures p.command == CMD_INSTALL ==>
                (reply.status == STATUS_OK <==> old(InstallProblem(p)) == STATUS_OK && committed)
      ensures p.command == CMD_CONFIRM ==>
                (reply.status == STATUS_OK <==> old(ConfirmProblem(p)) == STATUS_OK && committed)
    {
      hide LoadCheckpoint, StoredSound, StoredFaithful, Clean, Crc32.Checksum, Holds;
      var problem := if p.command == CMD_INSTALL then InstallProblem(p) else ConfirmProblem(p);
      if problem == STATUS_OK && !committed { problem := INTERNAL_ERROR; }
      if problem == STATUS_OK && p.command == CMD_CONFIRM { session := session.(state := CONFIRMED); }
      return ReplyFor(session, problem, 0);
    }

    /**
     * OtaReceiver_ProcessPacket.  INSTALL and CONFIRM also commit to the boot metadata, as
     * Application.RequestInstall and Application.ConfirmTrial do; `committed` says whether that succeeds.
     */
    method Handle(p: P.Packet, committed: bool, ghost art: word -> seq<byte>) returns (r: Run<Reply>)
      requires Sound()
      modifies this`session, flash
      ensures flash.steady == old(flash.steady) && (flash.steady ==> r.Done?)
      ensures Durable(art, Honest(art, p) && old(Faithful(art)))
      ensures r.Done? ==> Sound()
      ensures r.Done? && Honest(art, p) && old(Faithful(art)) ==> Faithful(art)
      ensures r.Done? && old(Paced(session)) && FullChunk(old(session), p) ==> Paced(session)
      ensures r.Done? ==> Answer(own, old(session), session, p, r.value)
      ensures r.Done? && old(Faithful(art)) && Honest(art, p) && Owed(own, old(session), p) ==>
                r.value.status == STATUS_OK
      // Nothing but ABORT takes a complete artifact back.
      ensures old(session.state) == ARTIFACT_READY && p.command != CMD_ABORT ==>
                session == old(session) && Stored() == old(Stored())
      ensures p.command == CMD_ABORT ==>
                Stored() == old(Stored()) || (Stored().Some? && Stored().value.state == DOWNLOAD_IDLE)
      // An INSTALL request that reaches the boot metadata names a session the handoff accepts.
      ensures r.Done? && p.command == CMD_INSTALL && r.value.status == STATUS_OK ==>
                Handover(session) && p.id == session.id
    {
      hide LoadCheckpoint, StoredSound, StoredFaithful, SessionSound, SessionFaithful, StartProblem, Paced, Honest;
      if p.command == CMD_START {
        r := ProcessStart(p, art);
      } else if p.command == CMD_DATA {
        if Redelivered(session, p) && Faithful(art) && Honest(art, p) {
          MatchesAgain(art, session, flash.incoming, Stored(), p);
        }
        r := ProcessData(p, art);
      } else if p.command == CMD_FINISH {
        r := ProcessFinish(p, art);
      } else if p.command == CMD_ABORT {
        r := ProcessAbort(p, art);
      } else {
        DurableNow(art);
        var reply := Report(p);
        if p.command == CMD_INSTALL || p.command == CMD_CONFIRM {
          ReadyHandsOver(session, flash.incoming, Stored());
          reply := ProcessBoot(p, committed, art);
        }
        return Done(reply);
      }
    }

    lemma DurableNow(art: word -> seq<byte>)
      requires Sound()
      ensures Durable(art, Faithful(art))
    {
      hide LoadCheckpoint;
    }

    /** OtaReceiver_Init after a reset: the session is rebuilt from the checkpoint, or mirrors a trial. */
    method Restart(trial: Option<Metadata>, ghost art: word -> seq<byte>)
      requires Durable(art, false) &&
               (trial.Some? ==> trial.value.state == TRIAL_BOOT || trial.value.state == CONFIRMED)
      modifies this`session
      ensures Sound() && Paced(session)
      ensures Durable(art, true) ==> Faithful(art)
      ensures trial.None? ==> session.state in {IDLE, RECEIVING, ARTIFACT_READY}
      // The transfer stands where the last committed checkpoint says.
      ensures Stored().Some? && Stored().value.state != DOWNLOAD_IDLE ==>
                && session.id == Stored().value.id && session.size == Stored().value.size
                && session.next == session.persisted == Stored().value.next
                && session.state == (if Stored().value.state == DOWNLOAD_READY then ARTIFACT_READY else RECEIVING)
      // A paced transfer resumes at the last sector boundary it had passed.
      ensures old(Sound() && Paced(session) && session.state == RECEIVING) ==>
                session.state == RECEIVING && session.id == old(session.id) &&
                    session.next == old(session.next) / SECTOR * SECTOR
    {
      hide LoadCheckpoint, Crc32.Checksum;
      session := NO_SESSION;
      var c := LoadCheckpoint(flash.sectors);
      if c.Some? && c.value.state != DOWNLOAD_IDLE {
        var done := CompletedSectors(c.value.next);
        var state := if c.value.state == DOWNLOAD_READY then ARTIFACT_READY else RECEIVING;
        session := Session(state, c.value.id, c.value.version, c.value.size, c.value.next, c.value.next,
                           c.value.imageCrc, done, c.value.next / PAGE % 0x1_0000, None);
      } else if trial.Some? {
        var m := trial.value;
        session := session.(state := m.state, id := m.updateId, version := m.pendingVersion, size := m.expectedSize,
                            next := m.receivedSize);
      }
    }
  }

  const IDLE_CHECKPOINT := Checkpoint(CHECKPOINT_MAGIC, 0, FORMAT_VERSION, DOWNLOAD_IDLE, 0, 0, 0, 0, 0, 0)

  /** CompletedSectorBitmap */
  method CompletedSectors(offset: nat) returns (done: set<nat>)
    ensures forall k: nat :: k in done <==> (k + 1) * SECTOR <= offset
  {
    done := {};
    for k := 0 to offset / SECTOR
      invariant forall j: nat :: j in done <==> j < k
    {
      done := done + {k};
    }
  }

  /** What an INSTALL request hands to the bootloader. */
  predicate Handover(s: Session) { s.id != 0 && s.version != 0 && OVERHEAD < s.size <= EXT_INCOMING_SIZE }

  lemma ReadyHandsOver(s: Session, incoming: seq<byte>, c: Option<Checkpoint>)
    requires SessionSound(s, incoming, c)
    ensures s.state == ARTIFACT_READY && s.version != 0 ==> Handover(s)
  {
  }

  /** OtaReceiver_ShouldReset: the node restarts into the bootloader after the reply. */
  predicate Resets(p: P.Packet,
                   reply: Reply) { (p.command == CMD_INSTALL || p.command == CMD_CONFIRM) && reply.status == STATUS_OK }

  /** What a reply says about the session. */
  ghost predicate Answer(own: word, s: Session, t: Session, p: P.Packet, reply: Reply) {
    && reply.state == t.state && reply.next == t.next && reply.size == t.size && reply.id == t.id
    && (reply.status == STATUS_OK && p.command == CMD_START ==>
          s.state != ARTIFACT_READY && |p.payload| == START_PAYLOAD_SIZE && t == StartSession(p))
    && (reply.status == STATUS_OK && p.command == CMD_DATA ==>
          && s.state == RECEIVING && t.state == RECEIVING && t.id == p.id && t.size == s.size
          && 0 < |p.payload| <= P.MAX_PAYLOAD && t.next == p.offset + |p.payload|
          && t.last == Some(Last(p.offset, p.sequence, |p.payload|)))
    && (reply.status == STATUS_OK && p.command == CMD_FINISH ==>
          t.state == ARTIFACT_READY && t.id == p.id && t.size == s.size && (s.state == ARTIFACT_READY ==> t == s))
    && (reply.status == STATUS_OK && p.command == CMD_RESUME ==> t == s && t.state == RECEIVING && t.id == p.id)
    && (reply.status == STATUS_OK && p.command == CMD_ABORT ==> t == NO_SESSION)
    && (reply.status == STATUS_OK && p.command == CMD_INSTALL ==> t == s && s.state == ARTIFACT_READY && s.id == p.id)
    && (reply.status == STATUS_OK && p.command == CMD_CONFIRM ==> s.state == TRIAL_BOOT && t == s.(state := CONFIRMED))
    && (p.command in QUERIES ==> t == s)
    && (reply.status != STATUS_OK ==>
          t == s || (p.command == CMD_FINISH && s.state == RECEIVING && t == s.(state := FAILED)))
  }

  /** Packets that a faithful session acknowledges. */
  predicate Owed(own: word, s: Session, p: P.Packet) {
    if p.command == CMD_START then
      && |p.payload| == START_PAYLOAD_SIZE && StartProblem(p, own) == STATUS_OK
      && (s.state == IDLE || s.state == FAILED || s.state == RECEIVING)
    else if p.command == CMD_DATA then Expected(s, p) || Redelivered(s, p)
    else if p.command == CMD_FINISH then
      Complete(s, p) || (s.state == ARTIFACT_READY && p.payload == [] && p.id == s.id)
    else if p.command == CMD_RESUME then p.payload == [] && s.state == RECEIVING && p.id == s.id
    else (p.command == CMD_ABORT || p.command in QUERIES) && p.payload == []
  }

  /** What was stored from an honest sender is what the same packet carries again. */
  lemma MatchesAgain(art: word -> seq<byte>, s: Session, incoming: seq<byte>, c: Option<Checkpoint>, p: P.Packet)
    requires SessionSound(s, incoming, c) && Redelivered(s, p) && p.command == CMD_DATA
    requires Honest(art, p) && SessionFaithful(art, s, incoming)
    ensures StoredMatches(incoming, p)
  {
    hide Clean, Crc32.Checksum;
    var a, b := p.offset, p.offset + |p.payload|;
    assert incoming[a..b] == incoming[..b][a..b] && art(s.id)[a..b] == art(s.id)[..b][a..b];
  }

  /** The packet repeats the one that was stored last. */
  predicate Redelivered(s: Session, p: P.Packet) {
    && s.state == RECEIVING && p.id == s.id && 0 < |p.payload| <= P.MAX_PAYLOAD
    && s.last == Some(Last(p.offset, p.sequence, |p.payload|))
  }

  /** A FINISH packet for a transfer that has received everything. */
  predicate Complete(s: Session, p: P.Packet) {
    s.state == RECEIVING && p.payload == [] && p.id == s.id && s.next == s.size
  }

  /** The packet is the one that comes next. */
  predicate Expected(s: Session, p: P.Packet) {
    && s.state == RECEIVING && p.id == s.id && 0 < |p.payload| <= P.MAX_PAYLOAD && !Redelivered(s, p)
    && p.sequence == s.sequence && p.offset == s.next && p.offset + |p.payload| <= s.size
  }

  /** StoredDataMatches */
  predicate StoredMatches(incoming: seq<byte>, p: P.Packet) {
    p.offset + |p.payload| <= |incoming| && incoming[p.offset..p.offset + |p.payload|] == p.payload
  }

  lemma BlankBlock(incoming: seq<byte>, offset: nat, data: seq<byte>)
    requires offset + |data| <= |incoming| && IsErased(incoming, offset, offset + |data|)
    ensures Store(incoming, offset, Pad(data[..0], |data|)) == incoming
  {
  }

  lemma FullBlock(data: seq<byte>)
    ensures Pad(data[..|data|], |data|) == data
  {
  }
}
