/**
 * Two kinds of redundant record in the same two sectors of the external flash: the download checkpoint
 * (shared/src/download_checkpoint.c, common/storage/download_checkpoint_storage.c) and the install handoff
 * (shared/src/update_handoff.c, common/storage/update_handoff_storage.c).  A commit of either kind erases a
 * whole sector and puts the other kind's record back.
 */
module SharedSectors {
  import opened Bytes
  import opened BootMetadata
  import opened Container
  import opened Device
  import Crc32

  const CHECKPOINT_MAGIC: word := 0x3750_4344
  const HANDOFF_MAGIC: word := 0x3641_544F

  const DOWNLOAD_IDLE: word := 0
  const DOWNLOAD_RECEIVING: word := 1
  const DOWNLOAD_READY: word := 2

  const NOTHING: word := 0xFFFF_FFFF

  datatype Checkpoint = Checkpoint(
    magic: word,
    generation: word,
    format: word,
    state: word,
    id: word,
    version: word,
    size: word,
    imageCrc: word,
    next: word,
    crc: word)

  datatype Handoff = Handoff(
    magic: word,
    generation: word,
    format: word,
    id: word,
    version: word,
    size: word,
    imageCrc: word,
    load: word,
    crc: word)

  const BLANK_CHECKPOINT := Checkpoint(NOTHING, NOTHING, NOTHING, NOTHING, NOTHING, NOTHING, NOTHING, NOTHING, NOTHING,
                                       NOTHING)
  const BLANK_HANDOFF := Handoff(NOTHING, NOTHING, NOTHING, NOTHING, NOTHING, NOTHING, NOTHING, NOTHING, NOTHING)

  // ----- validation ------------------------------------------------------------------------

  function CheckpointCrc(c: Checkpoint): word {
    Crc32.Checksum(WordBytes([c.magic, c.generation, c.format, c.state, c.id, c.version, c.size, c.imageCrc, c.next]))
  }

  function HandoffCrc(h: Handoff): word {
    Crc32.Checksum(WordBytes([h.magic, h.generation, h.format, h.id, h.version, h.size, h.imageCrc, h.load]))
  }

  predicate SessionFieldsValid(c: Checkpoint) {
    && c.id != 0 && 0 < c.size <= EXT_INCOMING_SIZE && c.next <= c.size
    && if c.state == DOWNLOAD_RECEIVING then c.next % EXT_FLASH_SECTOR_SIZE == 0
       else c.state == DOWNLOAD_READY && c.next == c.size
  }

  predicate CheckpointFields(c: Checkpoint) {
    && c.magic == CHECKPOINT_MAGIC && c.format == FORMAT_VERSION && c.generation != 0 && c.state <= DOWNLOAD_READY
    && if c.state == DOWNLOAD_IDLE then c.id == 0 && c.version == 0 && c.size == 0 && c.imageCrc == 0 && c.next == 0
       else SessionFieldsValid(c)
  }

  predicate CheckpointValid(c: Checkpoint) { CheckpointFields(c) && c.crc == CheckpointCrc(c) }

  predicate HandoffValid(h: Handoff) {
    && h.magic == HANDOFF_MAGIC && h.format == FORMAT_VERSION && h.generation != 0
    && h.id != 0 && h.version != 0 && 8 <= h.size <= APPLICATION_MAX_SIZE && h.load == APPLICATION_START
    && h.crc == HandoffCrc(h)
  }

  // ----- the two sectors -------------------------------------------------------------------

  datatype Sector = Sector(handoff: Handoff, checkpoint: Checkpoint)

  const BLANK_SECTOR := Sector(BLANK_HANDOFF, BLANK_CHECKPOINT)

  datatype Sectors = Sectors(a: Sector, b: Sector)

  function At(s: Sectors, slot: Slot): Sector { if slot == SlotB then s.b else s.a }
  function Other(slot: Slot): Slot { if slot == SlotB then SlotA else SlotB }
  function With(s: Sectors, slot: Slot, x: Sector): Sectors { if slot == SlotB then s.(b := x) else s.(a := x) }

  /** The newest of two records, by validity and then by generation. */
  function Newest(validA: bool, generationA: word, validB: bool, generationB: word): Slot {
    if !validA && !validB then NoSlot
    else if !validA then SlotB
    else if !validB then SlotA
    else if IsGenerationNewer(generationB, generationA) then SlotB
    else SlotA
  }

  function CheckpointSlot(s: Sectors): Slot {
    Newest(CheckpointValid(s.a.checkpoint), s.a.checkpoint.generation, CheckpointValid(s.b.checkpoint),
           s.b.checkpoint.generation)
  }

  function HandoffSlot(s: Sectors): Slot {
    Newest(HandoffValid(s.a.handoff), s.a.handoff.generation, HandoffValid(s.b.handoff), s.b.handoff.generation)
  }

  /** DownloadCheckpointStorage_Load */
  function LoadCheckpoint(s: Sectors): (r: Option<Checkpoint>)
    ensures r.Some? ==> CheckpointValid(r.value)
  {
    if CheckpointSlot(s) == NoSlot then None else Some(At(s, CheckpointSlot(s)).checkpoint)
  }

  /** UpdateHandoffStorage_Load */
  function LoadHandoff(s: Sectors): (r: Option<Handoff>)
    ensures r.Some? ==> HandoffValid(r.value)
  {
    if HandoffSlot(s) == NoSlot then None else Some(At(s, HandoffSlot(s)).handoff)
  }

  /** The slot a commit writes: the one that does not hold the newest record. */
  function Target(newest: Slot): Slot { if newest == SlotA then SlotB else SlotA }

  function CheckpointGeneration(s: Sectors): word {
    match LoadCheckpoint(s)
    case Some(c) => c.generation
    case None => 0
  }

  function HandoffGeneration(s: Sectors): word {
    match LoadHandoff(s)
    case Some(h) => h.generation
    case None => 0
  }

  function CheckpointCandidate(s: Sectors, requested: Checkpoint): Checkpoint {
    var c := requested.(magic := CHECKPOINT_MAGIC, format := FORMAT_VERSION,
                        generation := NextGeneration(CheckpointGeneration(s)));
    c.(crc := CheckpointCrc(c))
  }

  function HandoffCandidate(s: Sectors, requested: Handoff): Handoff {
    var h := requested.(magic := HANDOFF_MAGIC, format := FORMAT_VERSION,
                        generation := NextGeneration(HandoffGeneration(s)));
    h.(crc := HandoffCrc(h))
  }

  /** What is put back into a sector that a checkpoint commit has erased. */
  function Preserved(h: Handoff): Handoff { if HandoffValid(h) then h else BLANK_HANDOFF }
  function PreservedCheckpoint(c: Checkpoint): Checkpoint { if CheckpointValid(c) then c else BLANK_CHECKPOINT }

  /** The sectors after a completed commit. */
  function CheckpointCommitted(s: Sectors, requested: Checkpoint): Sectors {
    var slot := Target(CheckpointSlot(s));
    With(s, slot, Sector(Preserved(At(s, slot).handoff), CheckpointCandidate(s, requested)))
  }

  function HandoffCommitted(s: Sectors, requested: Handoff): Sectors {
    var slot := Target(HandoffSlot(s));
    With(s, slot, Sector(HandoffCandidate(s, requested), PreservedCheckpoint(At(s, slot).checkpoint)))
  }

  /** A completed commit is what the next load returns, and the other kind is not affected. */
  lemma CheckpointCommit(s: Sectors, requested: Checkpoint)
    requires CheckpointValid(CheckpointCandidate(s, requested))
    ensures LoadCheckpoint(CheckpointCommitted(s, requested)) == Some(CheckpointCandidate(s, requested))
    ensures LoadHandoff(CheckpointCommitted(s, requested)) == LoadHandoff(s)
  {
    hide CheckpointValid, HandoffCrc, CheckpointCrc, IsGenerationNewer, NextGeneration;
    NextIsNewer(CheckpointGeneration(s));
  }

  lemma HandoffCommit(s: Sectors, requested: Handoff)
    requires HandoffValid(HandoffCandidate(s, requested))
    ensures LoadHandoff(HandoffCommitted(s, requested)) == Some(HandoffCandidate(s, requested))
    ensures LoadCheckpoint(HandoffCommitted(s, requested)) == LoadCheckpoint(s)
  {
    hide HandoffValid, HandoffCrc, CheckpointCrc, IsGenerationNewer, NextGeneration;
    NextIsNewer(HandoffGeneration(s));
  }

  // ----- every sequence of completed commits -----------------------------------------------

  datatype Commit = OfCheckpoint(checkpoint: Checkpoint) | OfHandoff(handoff: Handoff)

  /** The fields a caller chooses. */
  function CheckpointRequest(c: Checkpoint): Checkpoint { c.(magic := 0, format := 0, generation := 0, crc := 0) }
  function HandoffRequest(h: Handoff): Handoff { h.(magic := 0, format := 0, generation := 0, crc := 0) }

  /** A commit that fails its own validation changes nothing. */
  function Committed(s: Sectors, c: Commit): Sectors {
    match c
    case OfCheckpoint(r) => if CheckpointValid(CheckpointCandidate(s, r)) then CheckpointCommitted(s, r) else s
    case OfHandoff(r) => if HandoffValid(HandoffCandidate(s, r)) then HandoffCommitted(s, r) else s
  }

  function AllCommitted(s: Sectors, cs: seq<Commit>): Sectors
    decreases |cs|
  {
    if cs == [] then s else Committed(AllCommitted(s, cs[..|cs| - 1]), cs[|cs| - 1])
  }

  /** The fields of a request decide whether it is accepted. */
  predicate CheckpointAcceptable(r: Checkpoint) {
    if r.state == DOWNLOAD_IDLE then r.id == 0 && r.version == 0 && r.size == 0 && r.imageCrc == 0 && r.next == 0
    else SessionFieldsValid(r)
  }

  predicate HandoffAcceptable(r: Handoff) {
    r.id != 0 && r.version != 0 && 8 <= r.size <= APPLICATION_MAX_SIZE && r.load == APPLICATION_START
  }

  function LastCheckpoint(start: Option<Checkpoint>, cs: seq<Commit>): Option<Checkpoint>
    decreases |cs|
  {
    if cs == [] then (match start case Some(c) => Some(CheckpointRequest(c)) case None => None)
    else
      match cs[|cs| - 1]
      case OfCheckpoint(r) =>
        if CheckpointAcceptable(r) then Some(CheckpointRequest(r)) else LastCheckpoint(start, cs[..|cs| - 1])
      case _ => LastCheckpoint(start, cs[..|cs| - 1])
  }

  function LastHandoff(start: Option<Handoff>, cs: seq<Commit>): Option<Handoff>
    decreases |cs|
  {
    if cs == [] then (match start case Some(h) => Some(HandoffRequest(h)) case None => None)
    else
      match cs[|cs| - 1]
      case OfHandoff(r) => if HandoffAcceptable(r) then Some(HandoffRequest(r)) else LastHandoff(start, cs[..|cs| - 1])
      case _ => LastHandoff(start, cs[..|cs| - 1])
  }

  lemma Acceptance(s: Sectors, c: Checkpoint, h: Handoff)
    ensures CheckpointValid(CheckpointCandidate(s, c)) <==> CheckpointAcceptable(c)
    ensures HandoffValid(HandoffCandidate(s, h)) <==> HandoffAcceptable(h)
  {
    hide LoadCheckpoint, LoadHandoff, Crc32.Checksum, WordBytes, NextGeneration, CheckpointGeneration,
         HandoffGeneration;
    NextIsNewer(CheckpointGeneration(s));
    NextIsNewer(HandoffGeneration(s));
    var x := CheckpointCandidate(s, c);
    assert CheckpointCrc(x) == CheckpointCrc(x.(crc := c.crc));
    var y := HandoffCandidate(s, h);
    assert HandoffCrc(y) == HandoffCrc(y.(crc := h.crc));
  }

  /** Loading either kind returns the last accepted request of that kind. */
  lemma {:induction false} LastCommitLoaded(s: Sectors, cs: seq<Commit>)
    ensures var t := AllCommitted(s, cs);
            && LastCheckpoint(LoadCheckpoint(s), cs) ==
               (match LoadCheckpoint(t) case Some(c) => Some(CheckpointRequest(c)) case None => None)
            && LastHandoff(LoadHandoff(s), cs) ==
               (match LoadHandoff(t) case Some(h) => Some(HandoffRequest(h)) case None => None)
    decreases |cs|
  {
    hide LoadCheckpoint, LoadHandoff, CheckpointCrc, HandoffCrc, CheckpointValid, HandoffValid, NextGeneration,
         CheckpointCommitted, HandoffCommitted;
    if cs != [] {
      var before := cs[..|cs| - 1];
      LastCommitLoaded(s, before);
      var t := AllCommitted(s, before);
      match cs[|cs| - 1]
      case OfCheckpoint(r) =>
        Acceptance(t, r, BLANK_HANDOFF);
        if CheckpointAcceptable(r) { CheckpointCommit(t, r); }
      case OfHandoff(r) =>
        Acceptance(t, BLANK_CHECKPOINT, r);
        if HandoffAcceptable(r) { HandoffCommit(t, r); }
    }
  }

  // ----- cuts ------------------------------------------------------------------------------

  /** While the target sector holds no complete record, the old one is loaded; the body is written whole. */
  lemma CheckpointCut(s: Sectors, requested: Checkpoint, h: Handoff, k: nat)
    requires k < 2 && CheckpointValid(CheckpointCandidate(s, requested))
    ensures var slot := Target(CheckpointSlot(s));
            var c := CheckpointCandidate(s, requested);
            var t := With(s, slot, Sector(h, if k == 0 then BLANK_CHECKPOINT else c.(crc := NOTHING)));
            LoadCheckpoint(t) == LoadCheckpoint(s) || LoadCheckpoint(t) == Some(c)
  {
    hide CheckpointCrc, IsGenerationNewer, NextGeneration, SessionFieldsValid;
    NextIsNewer(CheckpointGeneration(s));
    var c := CheckpointCandidate(s, requested);
    assert CheckpointCrc(c.(crc := NOTHING)) == CheckpointCrc(c) by { BodyOnly(c, NOTHING); }
  }

  lemma HandoffCut(s: Sectors, requested: Handoff, c: Checkpoint, k: nat)
    requires k < 2 && HandoffValid(HandoffCandidate(s, requested))
    ensures var slot := Target(HandoffSlot(s));
            var h := HandoffCandidate(s, requested);
            var t := With(s, slot, Sector(if k == 0 then BLANK_HANDOFF else h.(crc := NOTHING), c));
            LoadHandoff(t) == LoadHandoff(s) || LoadHandoff(t) == Some(h)
  {
    hide HandoffCrc, IsGenerationNewer, NextGeneration;
    NextIsNewer(HandoffGeneration(s));
    var h := HandoffCandidate(s, requested);
    assert HandoffCrc(h.(crc := NOTHING)) == HandoffCrc(h) by { HandoffBodyOnly(h, NOTHING); }
  }

  lemma HandoffBodyOnly(h: Handoff, crc: word)
    ensures HandoffCrc(h.(crc := crc)) == HandoffCrc(h)
  {
    hide WordBytes, Crc32.Checksum;
  }

  lemma BodyOnly(c: Checkpoint, crc: word)
    ensures CheckpointCrc(c.(crc := crc)) == CheckpointCrc(c)
  {
    hide WordBytes, Crc32.Checksum;
  }

  /**
   * A cut between the erase and the rewrite of the other kind's record: that kind is loaded as before
   * exactly when its newest record was not in the erased sector, or had an identical copy.
   */
  lemma HandoffSurvivesIff(s: Sectors, slot: Slot, c: Checkpoint)
    requires slot != NoSlot
    ensures LoadHandoff(With(s, slot, Sector(BLANK_HANDOFF, c))) == LoadHandoff(s) <==>
            HandoffSlot(s) != slot || At(s, Other(slot)).handoff == At(s, slot).handoff
  {
    hide HandoffCrc, IsGenerationNewer;
  }

  /** The same for the checkpoint when a handoff commit is cut. */
  lemma CheckpointSurvivesIff(s: Sectors, slot: Slot, h: Handoff)
    requires slot != NoSlot
    ensures LoadCheckpoint(With(s, slot, Sector(h, BLANK_CHECKPOINT))) == LoadCheckpoint(s) <==>
            CheckpointSlot(s) != slot || At(s, Other(slot)).checkpoint == At(s, slot).checkpoint
  {
    hide CheckpointCrc, IsGenerationNewer, SessionFieldsValid;
  }

  /** A concrete loss: the only handoff record sits in the sector that the next checkpoint commit erases. */
  lemma HandoffLost(h: Handoff, c: Checkpoint)
    requires HandoffValid(h)
    ensures var s := Sectors(Sector(h, BLANK_CHECKPOINT), BLANK_SECTOR);
            && Target(CheckpointSlot(s)) == SlotA && LoadHandoff(s) == Some(h)
            && LoadHandoff(With(s, SlotA, Sector(BLANK_HANDOFF, c))) == None
  {
    hide HandoffCrc, CheckpointCrc;
  }

  // ----- the flash itself ------------------------------------------------------------------

  class ExternalFlash {
    var sectors: Sectors
    var incoming: seq<byte>
    var power: nat
    var steady: bool

    /** One erase or program operation is paid for. */
    method Spend() returns (r: Run<()>)
      modifies this`power
      ensures r.Done? <==> steady || old(power) > 0
    {
      if !steady {
        if power == 0 { return PowerCut; }
        power := power - 1;
      }
      return Done(());
    }

    /** One erase or program operation in Incoming. */
    method WriteIncoming(next: seq<byte>) returns (r: Run<()>)
      modifies this`power, this`incoming
      ensures r.Done? ==> incoming == next
      ensures r.PowerCut? ==> incoming == old(incoming)
      ensures steady ==> r.Done?
    {
      var _ :- Spend();
      incoming := next;
      return Done(());
    }

    /** DownloadCheckpointStorage_Commit; None when the record fails its own validation. */
    method CommitCheckpoint(requested: Checkpoint) returns (r: Run<Option<Checkpoint>>)
      modifies this`power, this`sectors
      ensures steady ==> r.Done?
      ensures r.Done? ==>
                (r.value.Some? <==> CheckpointAcceptable(requested)) &&
                    sectors == Committed(old(sectors), OfCheckpoint(requested))
      ensures r.Done? && r.value.Some? ==>
                r.value == LoadCheckpoint(sectors) && CheckpointRequest(r.value.value) == CheckpointRequest(requested)
      ensures LoadCheckpoint(sectors) == old(LoadCheckpoint(sectors)) ||
              (CheckpointAcceptable(requested) &&
                  LoadCheckpoint(sectors) == Some(CheckpointCandidate(old(sectors), requested)))
    {
      hide LoadCheckpoint, CheckpointSlot, CheckpointValid, HandoffValid, CheckpointCrc, HandoffCrc, NextGeneration,
           CheckpointAcceptable;
      Acceptance(sectors, requested, BLANK_HANDOFF);
      var slot, c := Target(CheckpointSlot(sectors)), CheckpointCandidate(sectors, requested);
      if !CheckpointValid(c) { return Done(None); }
      var kept := At(sectors, slot).handoff;
      var restore := HandoffValid(kept);
      CheckpointCommit(sectors, requested);
      CheckpointCut(sectors, requested, BLANK_HANDOFF, 0);
      CheckpointCut(sectors, requested, BLANK_HANDOFF, 1);
      WholeCheckpoint(sectors, requested, BLANK_HANDOFF);
      var _ :- Spend();
      sectors := With(sectors, slot, BLANK_SECTOR);
      var _ :- Spend();
      sectors := With(sectors, slot, Sector(BLANK_HANDOFF, c.(crc := NOTHING)));
      var _ :- Spend();
      sectors := With(sectors, slot, Sector(BLANK_HANDOFF, c));
      if restore {
        var _ :- Spend();
        sectors := With(sectors, slot, Sector(kept, c));
      }
      return Done(Some(c));
    }

    /** UpdateHandoffStorage_Commit; None when the record fails its own validation. */
    method CommitHandoff(requested: Handoff) returns (r: Run<Option<Handoff>>)
      modifies this`power, this`sectors
      ensures steady ==> r.Done?
      ensures r.Done? ==>
                (r.value.Some? <==> HandoffAcceptable(requested)) &&
                sectors == Committed(old(sectors), OfHandoff(requested))
      ensures r.Done? && r.value.Some? ==>
                r.value == LoadHandoff(sectors) && HandoffRequest(r.value.value) == HandoffRequest(requested)
      ensures LoadHandoff(sectors) == old(LoadHandoff(sectors)) ||
              (HandoffAcceptable(requested) && LoadHandoff(sectors) == Some(HandoffCandidate(old(sectors), requested)))
    {
      hide LoadHandoff, HandoffSlot, CheckpointValid, HandoffValid, CheckpointCrc, HandoffCrc, NextGeneration,
           HandoffAcceptable;
      Acceptance(sectors, BLANK_CHECKPOINT, requested);
      var slot, h := Target(HandoffSlot(sectors)), HandoffCandidate(sectors, requested);
      if !HandoffValid(h) { return Done(None); }
      var kept := At(sectors, slot).checkpoint;
      var restore := CheckpointValid(kept);
      HandoffCommit(sectors, requested);
      HandoffCut(sectors, requested, BLANK_CHECKPOINT, 0);
      HandoffCut(sectors, requested, BLANK_CHECKPOINT, 1);
      WholeHandoff(sectors, requested, BLANK_CHECKPOINT);
      var _ :- Spend();
      sectors := With(sectors, slot, BLANK_SECTOR);
      var _ :- Spend();
      sectors := With(sectors, slot, Sector(h.(crc := NOTHING), BLANK_CHECKPOINT));
      var _ :- Spend();
      sectors := With(sectors, slot, Sector(h, BLANK_CHECKPOINT));
      if restore {
        var _ :- Spend();
        sectors := With(sectors, slot, Sector(h, kept));
      }
      return Done(Some(h));
    }
  }

  lemma WholeCheckpoint(s: Sectors, requested: Checkpoint, h: Handoff)
    requires CheckpointValid(CheckpointCandidate(s, requested))
    ensures var c := CheckpointCandidate(s, requested);
            LoadCheckpoint(With(s, Target(CheckpointSlot(s)), Sector(h, c))) == Some(c)
  {
    hide CheckpointValid, CheckpointCrc, IsGenerationNewer, NextGeneration;
    NextIsNewer(CheckpointGeneration(s));
  }

  lemma WholeHandoff(s: Sectors, requested: Handoff, c: Checkpoint)
    requires HandoffValid(HandoffCandidate(s, requested))
    ensures var h := HandoffCandidate(s, requested);
            LoadHandoff(With(s, Target(HandoffSlot(s)), Sector(h, c))) == Some(h)
  {
    hide HandoffValid, HandoffCrc, IsGenerationNewer, NextGeneration;
    NextIsNewer(HandoffGeneration(s));
  }
}
