/** The redundant metadata pages of bootloader/storage/metadata_storage.c. */
module MetadataStorage {
  import opened Bytes
  import opened BootMetadata
  import opened Device

  function RecordA(f: Memory): Metadata { Decode(f.metaA) }
  function RecordB(f: Memory): Metadata { Decode(f.metaB) }

  function Newest(f: Memory): Slot { SelectNewestSlot(RecordA(f), RecordB(f)) }

  /** MetadataStorage_Load; None is "defaults used". */
  function Load(f: Memory): (r: Option<Metadata>)
    ensures r.Some? ==> IsValid(r.value)
  {
    match Newest(f)
    case SlotA => Some(RecordA(f))
    case SlotB => Some(RecordB(f))
    case NoSlot => None
  }

  function CurrentGeneration(f: Memory): word {
    match Load(f)
    case Some(m) => m.generation
    case None => 0
  }

  /** The record a commit writes for a request. */
  function Candidate(f: Memory, requested: Metadata): Metadata {
    Finalize(requested.(generation := NextGeneration(CurrentGeneration(f))))
  }

  function WriteSlot(f: Memory): Slot { SelectWriteSlot(RecordA(f), RecordB(f)) }

  function WithPage(f: Memory, slot: Slot, page: Page): Memory {
    if slot == SlotB then f.(metaB := page) else f.(metaA := page)
  }

  /** Two valid records are exactly one generation apart. */
  predicate Chained(f: Memory) {
    IsValid(RecordA(f)) && IsValid(RecordB(f)) ==>
      || RecordA(f).generation == NextGeneration(RecordB(f).generation)
      || RecordB(f).generation == NextGeneration(RecordA(f).generation)
  }

  /** While the target page holds no acceptable record, the old record is still the one loaded. */
  lemma RejectedKeepsOld(f: Memory, page: Page)
    requires !IsValid(Decode(page))
    ensures var f' := WithPage(f, WriteSlot(f), page); Load(f') == Load(f) && Chained(f')
  {
    hide IsValid, Decode;
  }

  /** Once the target page holds the candidate, the candidate is the one loaded. */
  lemma WrittenIsNewest(f: Memory, requested: Metadata, page: Page)
    requires var c := Candidate(f, requested); IsValid(c) && Decode(page) == c
    ensures var f' := WithPage(f, WriteSlot(f), page);
            Load(f') == Some(Candidate(f, requested)) && Chained(f')
  {
    hide IsValid, Decode, CalculateCrc, IsGenerationNewer, NextGeneration;
    NextIsNewer(CurrentGeneration(f));
  }

  /** The page being written is never the one the current record was loaded from. */
  lemma SelectedNeverErased(f: Memory)
    ensures Load(f).Some? ==> WriteSlot(f) != Newest(f)
  {
  }

  /** What a commit cut after `k` half-words leaves. */
  function AfterCut(f: Memory, requested: Metadata, k: nat): Memory
    requires k <= RECORD_HALVES
  {
    WithPage(f, WriteSlot(f), Torn(Candidate(f, requested), k))
  }

  /** A cut commit is atomic exactly when the tear is not one that collides. */
  lemma CommitIsAtomic(f: Memory, requested: Metadata, k: nat)
    requires IsValid(Candidate(f, requested)) && k <= RECORD_HALVES
    ensures var f' := AfterCut(f, requested, k);
            var c := Candidate(f, requested);
            && (Load(f') == Load(f) || Load(f') == Some(c) <==> !Collides(c, k))
            && (!Collides(c, k) ==> Chained(f'))
  {
    hide IsValid, Decode, CalculateCrc, Candidate, Torn, Collides;
    var c := Candidate(f, requested);
    var page := Torn(c, k);
    TornVerdict(c, k);
    if !IsValid(Decode(page)) {
      RejectedKeepsOld(f, page);
    } else if Decode(page) == c {
      WrittenIsNewest(f, requested, page);
    } else {
      CollisionIsLoaded(f, requested, k);
    }
  }

  /** The generation word precedes boot_attempts, so a colliding tear has the new generation and wins. */
  lemma CollisionIsLoaded(f: Memory, requested: Metadata, k: nat)
    requires k <= RECORD_HALVES && Collides(Candidate(f, requested), k)
    requires IsValid(Decode(Torn(Candidate(f, requested), k)))
    ensures var d := Decode(Torn(Candidate(f, requested), k));
            Load(AfterCut(f, requested, k)) == Some(d) && Load(f) != Some(d) && d != Candidate(f, requested)
  {
    hide IsValid, Decode, CalculateCrc, IsGenerationNewer, NextGeneration, Torn;
    var c := Candidate(f, requested);
    var d := Decode(Torn(c, k));
    TornGeneration(c, k);
    NextIsNewer(CurrentGeneration(f));
  }

  /** The record passes its own validation once it has been finalized. */
  predicate Acceptable(m: Metadata) {
    ValidateFields(m.(magic := MAGIC, version := FORMAT_VERSION, generation := FIRST_GENERATION)) == Valid
  }

  lemma AcceptableIsValid(f: Memory, requested: Metadata)
    ensures IsValid(Candidate(f, requested)) <==> Acceptable(requested)
  {
    hide CalculateCrc, CurrentGeneration, IsGenerationNewer, NextGeneration;
    NextIsNewer(CurrentGeneration(f));
    var c := Candidate(f, requested);
    SameBody(c, c.(crc32 := requested.crc32));
  }

  /** `m` is what a commit makes of `requested`. */
  predicate Same(m: Metadata, requested: Metadata) { m == Finalize(requested.(generation := m.generation)) }

  /** One commit of a run: what is asked for, and how many half-words are programmed before power fails. */
  datatype Attempt = Attempt(requested: Metadata, halves: nat) {
    function Cut(): nat { if halves < RECORD_HALVES then halves else RECORD_HALVES }
  }

  /** The memory after a run of commits; a refused one changes nothing. */
  function AfterRun(f: Memory, run: seq<Attempt>): Memory {
    if run == [] then f
    else
      var before, last := AfterRun(f, run[..|run| - 1]), run[|run| - 1];
      if IsValid(Candidate(before, last.requested)) then AfterCut(before, last.requested, last.Cut()) else before
  }

  ghost predicate CollisionFree(f: Memory, run: seq<Attempt>) {
    forall n :: 0 <= n < |run| ==> !Collides(Candidate(AfterRun(f, run[..n]), run[n].requested), run[n].Cut())
  }

  /**
   * Every run from erased pages: two valid records are one generation step apart, so the selection is right
   * across wrap-around; what is loaded is one of the requests, and none before the last completed one.
   */
  lemma {:induction false} RunIsChained(f: Memory, run: seq<Attempt>)
    requires f.metaA == f.metaB == Blank(PAGE_HALVES) && CollisionFree(f, run)
    ensures Chained(AfterRun(f, run)) && Recent(Load(AfterRun(f, run)), run)
  {
    hide IsValid, Decode, CalculateCrc, Candidate, Torn, Collides, Load, Chained, NextGeneration, Acceptable,
         CollisionFree, Recent, AfterCut;
    if run == [] {
      ErasedIsEmpty(f);
    } else {
      var front, last := run[..|run| - 1], run[|run| - 1];
      FrontIsFree(f, run);
      RunIsChained(f, front);
      RunStep(AfterRun(f, front), front, last);
      assert front + [last] == run;
    }
  }

  lemma FrontIsFree(f: Memory, run: seq<Attempt>)
    requires run != [] && CollisionFree(f, run)
    ensures var n := |run| - 1;
            && CollisionFree(f, run[..n])
            && !Collides(Candidate(AfterRun(f, run[..n]), run[n].requested), run[n].Cut())
  {
    hide Collides, Candidate, AfterRun;
    var front := run[..|run| - 1];
    forall n | 0 <= n < |front|
      ensures !Collides(Candidate(AfterRun(f, front[..n]), front[n].requested), front[n].Cut()) {
      assert front[..n] == run[..n] && front[n] == run[n];
    }
  }

  /** One more commit of a run. */
  lemma RunStep(before: Memory, front: seq<Attempt>, last: Attempt)
    requires Chained(before) && Recent(Load(before), front)
    requires !Collides(Candidate(before, last.requested), last.Cut())
    ensures var after :=
              if IsValid(Candidate(before, last.requested)) then AfterCut(before, last.requested, last.Cut())
              else before;
            Chained(after) && Recent(Load(after), front + [last])
  {
    hide IsValid, Decode, CalculateCrc, Candidate, Torn, Collides, Load, Chained, NextGeneration, Acceptable, Recent,
         AfterCut;
    AcceptableIsValid(before, last.requested);
    if IsValid(Candidate(before, last.requested)) {
      CommitIsAtomic(before, last.requested, last.Cut());
      WholeIsWritten(before, last.requested);
      StillRecent(before, front, last, Load(AfterCut(before, last.requested, last.Cut())));
    } else {
      StillRecent(before, front, last, Load(before));
    }
  }

  /** `m` was requested in the run, and no commit after that request was accepted and completed. */
  ghost predicate RequestedAt(m: Metadata, run: seq<Attempt>, i: nat) {
    && i < |run| && Same(m, run[i].requested)
    && forall j :: i < j < |run| ==> run[j].halves < RECORD_HALVES || !Acceptable(run[j].requested)
  }

  ghost predicate Recent(loaded: Option<Metadata>, run: seq<Attempt>) {
    match loaded
    case Some(m) => exists i: nat :: RequestedAt(m, run, i)
    case None => forall j :: 0 <= j < |run| ==> run[j].halves < RECORD_HALVES || !Acceptable(run[j].requested)
  }

  lemma ErasedIsEmpty(f: Memory)
    requires f.metaA == f.metaB == Blank(PAGE_HALVES)
    ensures Load(f) == None && Chained(f) && Recent(None, [])
  {
    hide CalculateCrc;
    assert Decode(f.metaA).magic == 0xFFFF_FFFF;
  }

  lemma StillRecent(before: Memory, front: seq<Attempt>, last: Attempt, loaded: Option<Metadata>)
    requires Recent(Load(before), front)
    requires if !Acceptable(last.requested) then loaded == Load(before)
             else if last.halves < RECORD_HALVES then
               loaded == Load(before) || loaded == Some(Candidate(before, last.requested))
             else loaded == Some(Candidate(before, last.requested))
    ensures Recent(loaded, front + [last])
  {
    hide IsValid, Decode, CalculateCrc, Load, NextGeneration, Acceptable;
    var run := front + [last];
    if loaded == Some(Candidate(before, last.requested)) && Acceptable(last.requested) {
      assert RequestedAt(loaded.value, run, |front|);
    } else if loaded.Some? {
      var i: nat :| RequestedAt(loaded.value, front, i);
      assert run[i] == front[i];
      assert RequestedAt(loaded.value, run, i);
    }
  }

  lemma TornGeneration(m: Metadata, k: nat)
    requires 20 <= k <= RECORD_HALVES
    ensures Decode(Torn(m, k)).generation == m.generation
  {
    TornField(m, k, 1);
  }

  lemma Programmed(m: Metadata, k: nat)
    requires k < RECORD_HALVES
    ensures Torn(m, k)[k := Halves(m)[k]] == Torn(m, k + 1)
    ensures Torn(m, 0) == Blank(PAGE_HALVES)
  {
  }

  /** What is loaded is the page that this tear left, accepted as another record. */
  ghost predicate Tore(f: Memory, a: Accident) {
    a.Some? && a.value.halves <= RECORD_HALVES && Load(f) == Some(Decode(Torn(a.value.record, a.value.halves)))
  }

  /**
   * MetadataStorage_Commit: erases the other page, programs the record half-word by half-word with the
   * checksum last, and reads it back.  None is a refused record.
   */
  method Commit(d: Device, requested: Metadata) returns (r: Run<Option<Metadata>>)
    modifies d
    ensures d.steady ==> r.Done?
    ensures d.flash.images == old(d.flash.images)
    ensures d.torn == old(d.torn) || (r.PowerCut? && Tore(d.flash, d.torn))
    ensures var c := Candidate(old(d.flash), requested);
            if IsValid(c) then
              && d.refused == old(d.refused)
              && (r.Done? ==> r == Done(Some(c)) && Load(d.flash) == Some(c) && d.torn == old(d.torn))
              && (r.PowerCut? ==>
                    || (Tore(d.flash, d.torn) && d.torn.value.record == c)
                    || Load(d.flash) == old(Load(d.flash)) || Load(d.flash) == Some(c))
              && (old(Chained(d.flash)) ==> (r.PowerCut? && Tore(d.flash, d.torn)) || Chained(d.flash))
            else
              r == Done(None) && d.refused && d.flash == old(d.flash) && d.torn == old(d.torn)
  {
    hide IsValid, Decode, CalculateCrc, Torn, Collides, Candidate, Chained, Load, WriteSlot, Halves;
    ghost var f := d.flash;
    var target := WriteSlot(d.flash);
    var candidate := Candidate(d.flash, requested);
    if !IsValid(candidate) {
      d.refused := true;
      return Done(None);
    }
    var o := d.Operate(WithPage(d.flash, target, Blank(PAGE_HALVES)));
    if o.PowerCut? { return PowerCut; }
    Programmed(candidate, 0);
    var k := 0;
    while k < RECORD_HALVES
      invariant 0 <= k <= RECORD_HALVES
      invariant d.flash == AfterCut(f, requested, k)
      invariant d.torn == old(d.torn) && d.refused == old(d.refused)
    {
      Programmed(candidate, k);
      var page := if target == SlotB then d.flash.metaB else d.flash.metaA;
      o := d.Operate(WithPage(d.flash, target, page[k := Halves(candidate)[k]]));
      if o.PowerCut? {
        CommitIsAtomic(f, requested, k);
        if Collides(candidate, k) {
          TornVerdict(candidate, k);
          CollisionIsLoaded(f, requested, k);
          d.torn := Some(Tear(candidate, k));
        }
        return PowerCut;
      }
      k := k + 1;
    }
    CommitIsAtomic(f, requested, k);
    WholeIsWritten(f, requested);
    return Done(Some(candidate));
  }

  lemma WholeIsWritten(f: Memory, requested: Metadata)
    requires IsValid(Candidate(f, requested))
    ensures Load(AfterCut(f, requested, RECORD_HALVES)) == Some(Candidate(f, requested))
    ensures !Collides(Candidate(f, requested), RECORD_HALVES)
  {
    hide IsValid, Decode, CalculateCrc, Torn, Candidate;
    DecodeWhole(Candidate(f, requested));
    WrittenIsNewest(f, requested, Torn(Candidate(f, requested), RECORD_HALVES));
  }
}
