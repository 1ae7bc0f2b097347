/**
 * The whole life of a node: any sequence of boots, downloads, install requests and confirmations, each cut
 * short by a power loss after any number of flash operations or not at all.
 */
module Lifecycle {
  import opened Bytes
  import opened BootMetadata
  import opened Container
  import opened Device
  import opened MetadataStorage
  import opened BackupStorage
  import opened Acceptance
  import opened BootSafety
  import opened TrialBoot
  import opened BootManager
  import opened Application
  import ImageInstaller
  import Crc32

  /** A supply budget of None means that power stays on until the step is complete. */
  datatype Event =
    | Boot(budget: Option<nat>)
    | Receive(incoming: seq<byte>, budget: Option<nat>)
    | Install(session: Session, budget: Option<nat>)
    | Confirm(ownVersion: word, budget: Option<nat>)

  predicate WellFormed(e: Event) {
    match e
    case Receive(incoming, _) => |incoming| == EXT_INCOMING_SIZE
    case Install(session, _) => session.Valid()
    case _ => true
  }

  /** How many of the last completed boots jumped to a candidate; `ends` has None for anything else. */
  function Trials(ends: seq<Option<Outcome>>): nat {
    if ends == [] then 0
    else
      var front := ends[..|ends| - 1];
      match ends[|ends| - 1]
      case None => Trials(front)
      case Some(o) => NextTrials(Trials(front), o)
  }

  function NextTrials(trials: nat, o: Outcome): nat { if o == ToTrial then trials + 1 else 0 }

  /** A candidate is never jumped to more than three times running. */
  ghost predicate Bounded(ends: seq<Option<Outcome>>) {
    forall n :: 0 <= n <= |ends| ==> Trials(ends[..n]) <= MAX_BOOT_ATTEMPTS
  }

  lemma BoundedExtends(ends: seq<Option<Outcome>>, o: Option<Outcome>)
    requires Bounded(ends) && (o == Some(ToTrial) ==> Trials(ends) < MAX_BOOT_ATTEMPTS)
    ensures Bounded(ends + [o])
    ensures Trials(ends + [o]) == if o.Some? then NextTrials(Trials(ends), o.value) else Trials(ends)
  {
    var next := ends + [o];
    assert next[..|ends|] == ends && ends[..|ends|] == ends;
    forall n | 0 <= n <= |next| ensures Trials(next[..n]) <= MAX_BOOT_ATTEMPTS {
      if n <= |ends| { assert next[..n] == ends[..n]; } else { assert next[..n] == next; }
    }
  }

  /** What holds of the memory between two events; a new node has no record until its first boot commits one. */
  ghost predicate Between(t: Trust, memory: Memory, factoryVersion: word, running: Option<Outcome>, trials: nat,
                          u: Update) {
    if Load(memory) == None then Factory(memory, factoryVersion, u) && running == None && trials == 0
    else
      && Safe(t, memory, u)
      && (trials <= u.jumps || Load(memory).value.state == IDLE)
      && (running == Some(ToActive) ==> Load(memory).value.state == IDLE && trials == 0)
      && (running == Some(ToTrial) ==> Load(memory).value.state == TRIAL_BOOT)
  }

  /** The same update, with other counts of attempts and jumps. */
  ghost predicate SameUpdate(v: Update, w: Update) { w == v.(attempts := w.attempts, jumps := w.jumps) }

  /** The approved candidate of `v` has become the confirmed image of `w`. */
  ghost predicate Promotes(v: Update,
                           w: Update) { v.Valid() && v.approved && v.pending > v.version && w == Confirmed(v) }

  /** The candidate of `v` has confirmed itself under the version `own`. */
  ghost predicate Approves(own: word, v: Update, w: Update) {
    v.pending == own && v.attempts > 0 && !v.approved && w == v.(approved := true)
  }

  /** What one event may do to the update. */
  ghost predicate Follows(e: Event, v: Update, w: Update) {
    match e
    case Boot(_) => SameUpdate(v, w) || Promotes(v, w)
    case Receive(_, _) => w == v
    case Install(s, _) =>
      w == v || (w.image == v.image && w.version == v.version && w.id == s.id && w.pending == s.version &&
                 w.attempts == w.jumps == 0 && !w.approved)
    case Confirm(own, _) => w == v || Approves(own, v, w)
  }

  /** A boot, after which the application runs unless power was lost. */
  method PowerOn(t: Trust, memory: Memory, factoryVersion: word, budget: Option<nat>, ghost trials: nat,
                 ghost u: Update)
    returns (next: Memory, ended: Option<Outcome>, ghost torn: Accident, ghost refused: bool, ghost v: Update)
    requires factoryVersion != 0
    ensures budget == None ==> ended.Some?
    ensures Between(t, memory, factoryVersion, None, trials, u) ==>
              && !refused && Follows(Boot(budget), u, v)
              && (ended == Some(ToActive) ==> v == u || Promotes(u, v))
              && (SameUpdate(u, v) ==> u.attempts <= v.attempts <= u.attempts + 1)
              && Sane(ended) && (ended == Some(ToTrial) ==> trials < MAX_BOOT_ATTEMPTS)
              && (|| Carried(t, memory, next, factoryVersion, ended, CountOn(trials, ended), v)
                  || (ended.None? && Spoilt(t, next, torn, v)))
  {
    hide Collides, Tore, Spoilt, Load, SafeIn, IsValid, VectorOk;
    var d := new Device(t, memory, budget);
    ghost var safe := Between(t, memory, factoryVersion, None, trials, u) && Load(memory).Some?;
    if safe {
      SafeStates(t, memory, u);
      TrialStates(t, memory, u);
      VersionRises(t, memory, u);
    }
    var r, decisions;
    r, decisions, v := BootOnce(d, factoryVersion, u);
    next, torn, refused := d.flash, d.torn, d.refused;
    ended := if r.Done? then Some(r.value) else None;
    if safe && Safe(t, next, v) {
      TrialStates(t, next, v);
      if v == Confirmed(u) { NoUpdateIsIdle(t, next, v); }
    }
  }

  function CountOn(trials: nat,
                   ended: Option<Outcome>): nat { if ended.Some? then NextTrials(trials, ended.value) else trials }

  /** The invariant between events holds again, and a record once committed is not lost. */
  ghost predicate Carried(t: Trust, memory: Memory, next: Memory, factoryVersion: word, running: Option<Outcome>,
                          trials: nat, v: Update) {
    Between(t, next, factoryVersion, running, trials, v) && (Load(memory).Some? ==> Load(next).Some?)
  }

  /** Nothing runs, or an application does. */
  predicate Sane(running: Option<Outcome>) { running.Some? ==> !running.value.Fatal? }

  /** An event while the application runs; an install request or a confirmation resets the node. */
  method AppEvent(t: Trust, memory: Memory, factoryVersion: word, running: Outcome, e: Event, ghost trials: nat,
                  ghost u: Update)
    returns (next: Memory, still: Option<Outcome>, ghost torn: Accident, ghost refused: bool, ghost v: Update)
    requires WellFormed(e) && !e.Boot?
    ensures still == None || still == Some(running)
    ensures Between(t, memory, factoryVersion, Some(running), trials, u) && !running.Fatal? ==>
              && !refused && Follows(e, u, v)
              && (|| Carried(t, memory, next, factoryVersion, still, trials, v)
                  || (e.budget.Some? && Spoilt(t, next, torn, v)))
  {
    hide Collides, Tore, Spoilt, Load, SafeIn, IsValid, VectorOk, Accepted;
    var d := new Device(t, memory, e.budget);
    v, still := u, None;
    match e {
      case Receive(incoming, _) =>
        var r := Download(d, incoming, u);
        if r.Done? { still := Some(running); }
      case Install(session, _) =>
        // The receiver accepts no transfer during a trial unless it is told to abort.
        if running == ToActive {
          var r;
          r, v := RequestInstall(d, session, 0, u);
        } else {
          still := Some(running);
        }
      case Confirm(ownVersion, _) =>
        var r;
        r, v := ConfirmTrial(d, ownVersion, u);
        if r == Done(false) { still := Some(running); }
    }
    next, torn, refused := d.flash, d.torn, d.refused;
  }

  lemma TrialStates(t: Trust, f: Memory, u: Update)
    requires Safe(t, f, u)
    ensures u.Valid()
    ensures Load(f).value.state != IDLE && Load(f).value.state < TRIAL_BOOT ==> u.jumps == 0
  {
    hide Load, Backed, Installed, VectorOk;
  }

  lemma NoUpdateIsIdle(t: Trust, f: Memory, u: Update)
    requires Safe(t, f, u) && u.target == None && u.id == 0 && u.attempts == 0
    ensures Load(f).value.state == IDLE
  {
    hide Load, CalculateCrc, Backed, Installed, VectorOk, Accepted;
  }

  lemma VersionRises(t: Trust, f: Memory, u: Update)
    requires Safe(t, f, u)
    ensures u.Valid() && (Load(f).value.state == CONFIRMED <==> u.approved) && (u.approved ==> u.pending > u.version)
  {
    hide Load, Backed, Installed, VectorOk, Ready, Overlay;
  }

  /**
   * Recoverability: before INSTALLING is on record the application region is the confirmed image; from then
   * until the confirmation the backup passes its own checks and holds that image, with its version.
   */
  lemma Recoverable(t: Trust, f: Memory, u: Update)
    requires Safe(t, f, u)
    ensures u.Valid() && Load(f).value.activeVersion == u.version
    ensures Load(f).value.state < INSTALLING ==> f.images.app == u.image
    ensures Load(f).value.state >= INSTALLING ==>
              && BackupValidates(f.images) && Image(f.images) == u.image
              && f.images.backupHeader == HeaderRecord(u.version, Crc32.Checksum(u.image))
  {
    hide Load, HeaderRecord, Crc32.Checksum, VectorOk, Overlay, BackupValidates, Installed, Accepted;
    if Load(f).value.state >= INSTALLING { ImageInstaller.BackedValidates(f.images, u); }
  }

  // ----- crash transparency ----------------------------------------------------------------

  /** The boots up to number `n` leave the same update described, with at most one more attempt each. */
  ghost predicate Rebooted(t: Trust, memories: seq<Memory>, us: seq<Update>, n: nat)
    requires n < |memories| == |us|
  {
    forall i :: 0 <= i <= n ==>
      && Safe(t, memories[i], us[i]) && SameUpdate(us[0], us[i])
      && us[0].attempts <= us[i].attempts <= us[0].attempts + i
  }

  /**
   * Any number of boots, each cut after its own number of flash operations or not at all.  The update survives
   * them up to boot number `good`: the last, or one cut by a tear that is accepted by accident.
   */
  method Reboot(t: Trust, start: Memory, factoryVersion: word, budgets: seq<Option<nat>>, ghost u: Update)
    returns (memories: seq<Memory>, ghost us: seq<Update>, ghost good: nat, ghost torn: Accident)
    requires factoryVersion != 0 && Safe(t, start, u) && Load(start).value.state != CONFIRMED
    ensures |memories| == |us| == |budgets| + 1 && memories[0] == start && us[0] == u && good <= |budgets|
    ensures Rebooted(t, memories, us, good)
    ensures good < |budgets| ==>
              budgets[good].Some? && SameUpdate(u, us[good + 1]) && Spoilt(t, memories[good + 1], torn, us[good + 1])
  {
    hide Load, Safe, SafeIn, Spoilt;
    memories, us, good, torn := [start], [u], 0, None;
    VersionRises(t, start, u);
    for i := 0 to |budgets|
      invariant |memories| == |us| == i + 1 && memories[0] == start && us[0] == u
      invariant good <= i && Rebooted(t, memories, us, good)
      invariant good < i ==>
                  budgets[good].Some? && SameUpdate(u, us[good + 1]) &&
                      Spoilt(t, memories[good + 1], torn, us[good + 1])
    {
      ghost var tear: Accident, refusal, v;
      var next, ended;
      if good == i { Rests(t, memories[i], factoryVersion, us[i]); }
      next, ended, tear, refusal, v := PowerOn(t, memories[i], factoryVersion, budgets[i], 0, us[i]);
      if good == i {
        if Safe(t, next, v) { good := i + 1; } else {
          torn := tear;
          if Load(next).Some? { NotRested(t, next, factoryVersion, ended, CountOn(0, ended), v); }
        }
      }
      memories, us := memories + [next], us + [v];
    }
  }

  lemma Rests(t: Trust, f: Memory, factoryVersion: word, u: Update)
    requires Safe(t, f, u)
    ensures Between(t, f, factoryVersion, None, 0, u) && Load(f).Some?
  {
    hide Load, SafeIn;
  }

  lemma NotRested(t: Trust, f: Memory, factoryVersion: word, running: Option<Outcome>, trials: nat, u: Update)
    requires Load(f).Some? && !Safe(t, f, u)
    ensures !Between(t, f, factoryVersion, running, trials, u)
  {
    hide Load, SafeIn;
  }

  /** The update can still end in a jump to the candidate. */
  predicate Pending(m: Metadata) {
    ARTIFACT_READY <= m.state <= VERIFYING_INSTALL || (m.state == TRIAL_BOOT && m.bootAttempts < MAX_BOOT_ATTEMPTS)
  }

  /** The record without the fields a commit fills in and without the attempts. */
  function Content(m: Metadata): Metadata { m.(generation := 0, crc32 := 0, bootAttempts := 0) }

  /** Equal application regions and records; on trial, equal backups as well. */
  predicate Agree(f: Memory, g: Memory) {
    && f.images.app == g.images.app
    && Load(f).Some? && Load(g).Some? && Load(f).value.state == Load(g).value.state
    && Content(Load(f).value).(lastError := 0) == Content(Load(g).value).(lastError := 0)
    && (Load(f).value.state == TRIAL_BOOT ==>
          && Content(Load(f).value) == Content(Load(g).value)
          && f.images.backupHeader == g.images.backupHeader && Image(f.images) == Image(g.images))
  }

  lemma DescribedAlike(t: Trust, f: Memory, g: Memory, v: Update, w: Update)
    requires Safe(t, f, v) && Safe(t, g, w) && SameUpdate(v, w)
    requires Load(f).value.state == Load(g).value.state && Load(f).value.state in {IDLE, TRIAL_BOOT}
    ensures Agree(f, g)
  {
    hide Load, CalculateCrc, HeaderRecord, VectorOk, Overlay;
  }

  /** Where a completed boot leaves an update: on trial, or idle without a candidate or with its attempts spent. */
  lemma Landing(t: Trust, f: Memory, u: Update)
    requires Safe(t, f, u) && u.Valid()
    ensures Load(f).Some?
    ensures Load(f).value.state == TRIAL_BOOT ==> u.target.Some?
    ensures Load(f).value.state == IDLE ==> u.target.None? || u.attempts == MAX_BOOT_ATTEMPTS
    ensures Pending(Load(f).value) ==> u.attempts < MAX_BOOT_ATTEMPTS
    ensures Load(f).value.state <= VERIFYING_INSTALL && Load(f).value.state != IDLE ==> u.attempts == 0
  {
    hide Load, CalculateCrc, Backed, Installed, VectorOk, Overlay, Accepted;
  }

  /** What a complete boot makes of an update that is not yet approved. */
  ghost predicate Lands(t: Trust, f: Memory, u: Update, v: Update) {
    && Safe(t, f, v) && SameUpdate(u, v) && Load(f).value.state in {IDLE, TRIAL_BOOT}
    && (Load(f).value.state == TRIAL_BOOT ==> u.target.Some?)
    && (Load(f).value.state == IDLE ==> u.target.None? || u.attempts == MAX_BOOT_ATTEMPTS)
  }

  method BootToEnd(t: Trust, memory: Memory, factoryVersion: word, ghost u: Update)
    returns (next: Memory, ghost v: Update)
    requires factoryVersion != 0
    ensures Safe(t, memory, u) && !u.approved && u.Valid() ==> Lands(t, next, u, v)
  {
    hide Load, Safe, SafeIn, Spoilt, Between, Carried, Follows;
    ghost var torn: Accident, refused;
    var ended;
    ghost var safe := Safe(t, memory, u) && !u.approved && u.Valid();
    if safe { Rests(t, memory, factoryVersion, u); }
    next, ended, torn, refused, v := PowerOn(t, memory, factoryVersion, None, 0, u);
    if safe { Arrives(t, memory, next, factoryVersion, ended, u, v); }
  }

  lemma Arrives(t: Trust, memory: Memory, next: Memory, factoryVersion: word, ended: Option<Outcome>, u: Update,
                v: Update)
    requires Safe(t, memory, u) && !u.approved && u.Valid() && ended.Some? && Sane(ended) && Follows(Boot(None), u, v)
    requires ended == Some(ToActive) ==> v == u || Promotes(u, v)
    requires Carried(t, memory, next, factoryVersion, ended, CountOn(0, ended), v)
    ensures Lands(t, next, u, v)
  {
    hide Load, SafeIn, Factory;
    VersionRises(t, next, v);
    Landing(t, next, v);
  }

  /** Two landings of the same update. */
  lemma LandAlike(t: Trust, f: Memory, g: Memory, u: Update, v: Update, w: Update, w': Update)
    requires SameUpdate(u, v) && Lands(t, f, v, w) && Lands(t, g, u, w') && u.attempts == 0
    ensures Load(f).Some? && Load(g).Some? && {Load(f).value.state, Load(g).value.state} <= {IDLE, TRIAL_BOOT}
    ensures v.attempts < MAX_BOOT_ATTEMPTS ==> Load(f).value.state == Load(g).value.state
    ensures Load(f).value.state == TRIAL_BOOT ==> Load(g).value.state == TRIAL_BOOT
    ensures Load(f).value.state == Load(g).value.state ==> Agree(f, g)
  {
    hide Load, SafeIn, Agree;
    if Load(f).value.state == Load(g).value.state { DescribedAlike(t, f, g, w, w'); }
  }

  /**
   * What the interrupted update, left at `before` by `boots` boots and completed to `cut`, has in common with
   * the one that was not interrupted.
   */
  predicate Transparent(before: Memory, boots: nat, cut: Memory, uncut: Memory) {
    && Load(before).Some? && Load(cut).Some? && Load(uncut).Some?
    && {Load(cut).value.state, Load(uncut).value.state} <= {IDLE, TRIAL_BOOT}
    && (Pending(Load(before).value) || boots < MAX_BOOT_ATTEMPTS ==> Load(cut).value.state == Load(uncut).value.state)
    && (Load(cut).value.state == TRIAL_BOOT ==> Load(uncut).value.state == TRIAL_BOOT)
    && (Load(cut).value.state == Load(uncut).value.state ==> Agree(cut, uncut))
  }

  /**
   * Power cuts are transparent.  An update interrupted by any number of cut or completed boots and then
   * given a complete one is compared with the same update given one complete boot: unless the trial's
   * attempts were used up in between, both end in the same state, and wherever they do, the application
   * region and the record agree and, on trial, so does the backup.  The exception is a tear accepted by
   * accident at boot `good`, before which the update was intact.
   */
  method CrashTransparent(t: Trust, start: Memory, factoryVersion: word, budgets: seq<Option<nat>>, ghost u: Update)
    returns (memories: seq<Memory>, cut: Memory, uncut: Memory, ghost us: seq<Update>, ghost good: nat,
             ghost torn: Accident)
    requires factoryVersion != 0 && Safe(t, start, u)
    requires ARTIFACT_READY <= Load(start).value.state <= VERIFYING_INSTALL
    ensures |memories| == |us| == |budgets| + 1 && memories[0] == start && us[0] == u && good <= |budgets|
    ensures Rebooted(t, memories, us, good)
    ensures good < |budgets| ==>
              budgets[good].Some? && SameUpdate(u, us[good + 1]) && Spoilt(t, memories[good + 1], torn, us[good + 1])
    ensures good == |budgets| ==> Transparent(memories[|budgets|], |budgets|, cut, uncut)
    ensures Load(uncut).Some? && Load(uncut).value.state in {IDLE, TRIAL_BOOT}
  {
    hide Load, Safe, SafeIn, Agree, Pending, Lands, Spoilt;
    VersionRises(t, start, u);
    Landing(t, start, u);
    ghost var w, w';
    memories, us, good, torn := Reboot(t, start, factoryVersion, budgets, u);
    var before := memories[|budgets|];
    cut, w := BootToEnd(t, before, factoryVersion, us[|budgets|]);
    uncut, w' := BootToEnd(t, start, factoryVersion, u);
    LandAlike(t, uncut, uncut, u, u, w', w');
    if good == |budgets| {
      ghost var v := us[|budgets|];
      assert Safe(t, memories[|budgets|], v) && SameUpdate(u, v);
      VersionRises(t, before, v);
      Landing(t, before, v);
      LandAlike(t, cut, uncut, u, v, w, w');
    }
  }

  // ----- every run -------------------------------------------------------------------------

  /** The updates that a run goes through, one before the first event and one after each. */
  ghost predicate History(events: seq<Event>, us: seq<Update>) {
    && |us| == |events| + 1
    && forall i :: 0 <= i < |events| ==> Follows(events[i], us[i], us[i + 1])
  }

  lemma HistoryExtends(events: seq<Event>, us: seq<Update>, e: Event, w: Update)
    requires History(events, us) && Follows(e, us[|events|], w)
    ensures History(events + [e], us + [w])
  {
    hide Follows;
  }

  /** Every memory of a run is described by its update: safe, or still without any record. */
  ghost predicate AllDescribed(t: Trust, factoryVersion: word, memories: seq<Memory>, us: seq<Update>) {
    && |memories| == |us|
    && (forall i :: 0 <= i < |us| ==> Safe(t, memories[i], us[i]) || Factory(memories[i], factoryVersion, us[i]))
    && forall i :: 0 <= i < |us| - 1 ==> Load(memories[i]).Some? ==> Load(memories[i + 1]).Some?
  }

  lemma AllDescribedExtends(t: Trust, factoryVersion: word, memories: seq<Memory>, us: seq<Update>, f: Memory,
                            u: Update)
    requires AllDescribed(t, factoryVersion, memories, us) && memories != []
    requires Safe(t, f, u) || Factory(f, factoryVersion, u)
    requires Load(memories[|memories| - 1]).Some? ==> Load(f).Some?
    ensures AllDescribed(t, factoryVersion, memories + [f], us + [u])
  {
    hide Safe, Factory, Load;
  }

  /** An approved update owes its approval to an earlier confirmation, under its own version, in the run. */
  lemma {:induction false} ApprovedEarlier(events: seq<Event>, us: seq<Update>, i: nat) returns (k: nat)
    requires History(events, us) && i <= |events| && !us[0].approved && us[i].approved
    ensures k < i && events[k].Confirm? && Approves(events[k].ownVersion, us[k], us[k + 1]) &&
            SameUpdate(us[k + 1], us[i])
  {
    var e := events[i - 1];
    assert Follows(e, us[i - 1], us[i]);
    if us[i - 1].approved {
      k := ApprovedEarlier(events, us, i - 1);
    } else {
      k := i - 1;
    }
  }

  /**
   * Event `i`, a boot, made the candidate that the application region held the confirmed image; event `k`, a
   * confirmation by an image of the pending version after an attempt on record, had committed CONFIRMED for
   * that update.
   */
  ghost predicate ConfirmedBy(events: seq<Event>, memories: seq<Memory>, us: seq<Update>, i: nat, k: nat)
    requires |memories| == |us| == |events| + 1 && k < i < |events|
  {
    && us[i].Valid() && us[i].target.Some? && us[i + 1].image == us[i].Goal() == memories[i].images.app
    && events[i].Boot? && us[i + 1].version == us[i].pending > us[i].version
    && events[k].Confirm? && events[k].ownVersion == us[i].pending && us[k].attempts > 0
    && SameUpdate(us[k + 1], us[i]) && Load(memories[k + 1]).Some? && Load(memories[k + 1]).value.state == CONFIRMED
  }

  ghost predicate Changed(us: seq<Update>, i: nat)
    requires i + 1 < |us|
  {
    us[i + 1].image != us[i].image || us[i + 1].version != us[i].version
  }

  /** The confirmed image and its version change only by way of a trial whose candidate confirmed itself. */
  ghost predicate OnlyConfirmed(events: seq<Event>, memories: seq<Memory>, us: seq<Update>)
    requires |memories| == |us| == |events| + 1
  {
    forall i: nat :: i < |events| && Changed(us, i) ==>
        exists k: nat :: k < i && ConfirmedBy(events, memories, us, i, k)
  }

  /** No confirmation is on record. */
  predicate Unconfirmed(f: Memory) { Load(f).Some? ==> Load(f).value.state != CONFIRMED }

  lemma ChangeIsConfirmed(t: Trust, factoryVersion: word, events: seq<Event>, memories: seq<Memory>, us: seq<Update>,
                          i: nat)
    returns (k: nat)
    requires History(events, us) && AllDescribed(t, factoryVersion, memories, us) && Unconfirmed(memories[0])
    requires i < |events| && Changed(us, i)
    ensures k < i && ConfirmedBy(events, memories, us, i, k)
  {
    hide Load, Safe, SafeIn, Factory, Unconfirmed;
    assert Follows(events[i], us[i], us[i + 1]);
    StartsUnapproved(t, factoryVersion, memories[0], us[0]);
    k := ApprovedEarlier(events, us, i);
    ApprovalOnRecord(t, factoryVersion, memories[k + 1], us[k + 1]);
    ApprovalOnRecord(t, factoryVersion, memories[i], us[i]);
    ApprovedIsInstalled(t, memories[i], us[i]);
  }

  lemma StartsUnapproved(t: Trust, factoryVersion: word, f: Memory, u: Update)
    requires (Safe(t, f, u) || Factory(f, factoryVersion, u)) && Unconfirmed(f)
    ensures !u.approved
  {
    hide Load, Safe, Factory;
    ApprovalOnRecord(t, factoryVersion, f, u);
  }

  lemma ApprovalOnRecord(t: Trust, factoryVersion: word, f: Memory, u: Update)
    requires Safe(t, f, u) || Factory(f, factoryVersion, u)
    ensures u.Valid() && (u.approved <==> Load(f).Some? && Load(f).value.state == CONFIRMED) &&
            (u.approved ==> Safe(t, f, u))
  {
    hide Load, SafeIn;
    if Safe(t, f, u) { VersionRises(t, f, u); }
  }

  lemma ChangesAreConfirmed(t: Trust, factoryVersion: word, events: seq<Event>, memories: seq<Memory>, us: seq<Update>)
    requires History(events, us) && AllDescribed(t, factoryVersion, memories, us) && Unconfirmed(memories[0])
    ensures OnlyConfirmed(events, memories, us)
  {
    hide Load, Safe, Factory, Follows, ConfirmedBy, Changed;
    forall i: nat | i < |events| && Changed(us, i)
      ensures exists k: nat :: k < i && ConfirmedBy(events, memories, us, i, k) {
      var k := ChangeIsConfirmed(t, factoryVersion, events, memories, us, i);
    }
  }

  lemma ApprovedIsInstalled(t: Trust, f: Memory, u: Update)
    requires Safe(t, f, u) && u.Valid() && Load(f).value.state == CONFIRMED
    ensures u.target.Some? && f.images.app == u.Goal()
  {
    hide Load, CalculateCrc, Backed, VectorOk, Overlay, Ready, Installed, Accepted;
  }

  lemma {:induction false} VersionsRise(events: seq<Event>, us: seq<Update>, i: nat, j: nat)
    requires History(events, us) && i <= j <= |events|
    ensures us[i].version <= us[j].version
    decreases j
  {
    if i < j {
      VersionsRise(events, us, i, j - 1);
      assert Follows(events[j - 1], us[j - 1], us[j]);
    }
  }

  /** One event of a run: a boot, or something the application does if it runs. */
  method Happen(t: Trust, memory: Memory, running: Option<Outcome>, factoryVersion: word, e: Event, ghost trials: nat,
                ghost u: Update)
    returns (next: Memory, still: Option<Outcome>, ended: Option<Outcome>, ghost torn: Accident, ghost refused: bool,
             ghost v: Update)
    requires factoryVersion != 0 && WellFormed(e)
    ensures e == Boot(None) ==> ended.Some?
    ensures ended.Some? ==> e.Boot?
    ensures Between(t, memory, factoryVersion, running, trials, u) && Sane(running) ==>
              && !refused && Follows(e, u, v) && Sane(still) && Sane(ended)
              && (ended == Some(ToTrial) ==> trials < MAX_BOOT_ATTEMPTS)
              && (|| Carried(t, memory, next, factoryVersion, still, CountOn(trials, ended), v)
                  || (e.budget.Some? && ended.None? && Spoilt(t, next, torn, v)))
  {
    hide Load, Safe, Spoilt, Factory;
    next, still, ended, torn, refused, v := memory, None, None, None, false, u;
    match e {
      case Boot(budget) =>
        next, ended, torn, refused, v := PowerOn(t, memory, factoryVersion, budget, trials, u);
        still := ended;
      case _ =>
        if running.Some? {
          next, still, torn, refused, v := AppEvent(t, memory, factoryVersion, running.value, e, trials, u);
        }
    }
  }

  /** What a boot event comes to: a jump if power lasts, and never recovery. */
  predicate Ends(e: Event, end: Option<Outcome>) {
    (e == Boot(None) ==> end.Some?) && (end.Some? ==> e.Boot? && !end.value.Fatal?)
  }

  /** What is true of a run: the events, the memories before and after them, their updates and how boots ended. */
  ghost predicate Lived(t: Trust, factoryVersion: word, events: seq<Event>, memories: seq<Memory>,
                        ends: seq<Option<Outcome>>, us: seq<Update>) {
    && History(events, us) && AllDescribed(t, factoryVersion, memories, us)
    && |ends| == |events| && (forall i :: 0 <= i < |events| ==> Ends(events[i], ends[i]))
    && Bounded(ends)
  }

  lemma LivedExtends(t: Trust, factoryVersion: word, events: seq<Event>, memories: seq<Memory>,
                     ends: seq<Option<Outcome>>,
                     us: seq<Update>, e: Event, f: Memory, end: Option<Outcome>, v: Update)
    requires Lived(t, factoryVersion, events, memories, ends, us)
    requires Follows(e, us[|events|], v) && Ends(e, end) && (end == Some(ToTrial) ==> Trials(ends) < MAX_BOOT_ATTEMPTS)
    requires Safe(t, f, v) || Factory(f, factoryVersion, v)
    requires Load(memories[|events|]).Some? ==> Load(f).Some?
    ensures Lived(t, factoryVersion, events + [e], memories + [f], ends + [end], us + [v])
    ensures Trials(ends + [end]) == CountOn(Trials(ends), end)
  {
    hide Follows, Safe, Factory, Load, Bounded, Trials, Ends;
    HistoryExtends(events, us, e, v);
    AllDescribedExtends(t, factoryVersion, memories, us, f, v);
    BoundedExtends(ends, end);
  }

  /**
   * Every run, of a node in use or of a new one.  Up to event number `good`, the memory before and after every
   * event is described by an update that follows from the one before; no commit is refused by its own
   * validator; no boot ends in recovery; every boot that power lasts for jumps to an application; a candidate
   * is jumped to at most three times running; the confirmed version never falls; and unless a confirmation
   * was on record at the start, the confirmed image changes only to a candidate that confirmed itself on
   * trial.  Event `good` is the end of the run, or one cut by a tear that is accepted by accident, over images
   * for which the record being written was safe.
   */
  method Live(t: Trust, start: Memory, factoryVersion: word, events: seq<Event>, ghost u: Update)
    returns (memories: seq<Memory>, ends: seq<Option<Outcome>>, ghost us: seq<Update>, ghost good: nat,
             ghost torn: Accident,
             ghost refused: bool)
    requires factoryVersion != 0 && (Safe(t, start, u) || Factory(start, factoryVersion, u))
    requires forall i :: 0 <= i < |events| ==> WellFormed(events[i])
    ensures |memories| == |us| == |events| + 1 && |ends| == |events| && good <= |events| && memories[0] == start &&
            us[0] == u
    ensures !refused && Lived(t, factoryVersion, events[..good], memories[..good + 1], ends[..good], us[..good + 1])
    ensures good < |events| ==>
              events[good].budget.Some? && Follows(events[good], us[good], us[good + 1]) &&
              Spoilt(t, memories[good + 1], torn, us[good + 1])
    ensures forall i, j :: 0 <= i <= j <= good ==> ActiveVersion(memories[i]) <= ActiveVersion(memories[j])
    ensures Unconfirmed(start) ==> OnlyConfirmed(events[..good], memories[..good + 1], us[..good + 1])
  {
    hide OnlyConfirmed, Load, Safe, Factory, Between, Trials, Follows, Lived, ActiveVersion, WellFormed, Spoilt, Ends,
         Carried,
         Unconfirmed, Sane;
    var running: Option<Outcome> := None;
    memories, ends, us, good, torn, refused := [start], [], [u], 0, None, false;
    AtStart(t, start, factoryVersion, u);
    ghost var ms, es, vs := memories, ends, us;
    assert events[..0] == [];
    for n := 0 to |events|
      invariant |memories| == |us| == n + 1 && |ends| == n && memories[0] == start && us[0] == u && !refused
      invariant good <= n && |ms| == |vs| == good + 1 && |es| == good && ms <= memories && es <= ends && vs <= us
      invariant Lived(t, factoryVersion, events[..good], ms, es, vs)
      invariant good == n ==> Between(t, memories[n], factoryVersion, running, Trials(es), us[n]) && Sane(running)
      invariant good < n ==>
                  events[good].budget.Some? && Follows(events[good], us[good], us[good + 1]) &&
                  Spoilt(t, memories[good + 1], torn, us[good + 1])
    {
      var e := events[n];
      ghost var tear: Accident, refusal, v;
      var next, ended;
      ghost var trials := Trials(es);
      next, running, ended, tear, refusal, v := Happen(t, memories[n], running, factoryVersion, e, trials, us[n]);
      if good == n {
        refused := refused || refusal;
        if Carried(t, memories[n], next, factoryVersion, running, CountOn(trials, ended), v) {
          CarriedOn(t, memories[n], next, factoryVersion, running, CountOn(trials, ended), v);
          EndsWell(e, ended);
          LivedExtends(t, factoryVersion, events[..n], ms, es, vs, e, next, ended, v);
          assert events[..n] + [e] == events[..n + 1];
          good, ms, es, vs := n + 1, ms + [next], es + [ended], vs + [v];
        } else {
          torn := tear;
        }
      }
      memories, ends, us := memories + [next], ends + [ended], us + [v];
    }
    assert ms == memories[..good + 1] && es == ends[..good] && vs == us[..good + 1];
    Concluded(t, factoryVersion, events[..good], ms, es, vs);
  }

  lemma CarriedOn(t: Trust, memory: Memory, next: Memory, factoryVersion: word, running: Option<Outcome>, trials: nat,
                  v: Update)
    requires Carried(t, memory, next, factoryVersion, running, trials, v)
    ensures Between(t, next, factoryVersion, running, trials, v) && (Load(memory).Some? ==> Load(next).Some?)
    ensures Safe(t, next, v) || Factory(next, factoryVersion, v)
  {
    hide Load, Safe, Factory;
  }

  lemma EndsWell(e: Event, end: Option<Outcome>)
    requires (e == Boot(None) ==> end.Some?) && (end.Some? ==> e.Boot?) && Sane(end)
    ensures Ends(e, end)
  {
  }

  /** What follows from a history for the versions and the images. */
  lemma Concluded(t: Trust, factoryVersion: word, events: seq<Event>, memories: seq<Memory>, ends: seq<Option<Outcome>>,
                  us: seq<Update>)
    requires Lived(t, factoryVersion, events, memories, ends, us)
    ensures forall i, j :: 0 <= i <= j <= |events| ==> ActiveVersion(memories[i]) <= ActiveVersion(memories[j])
    ensures Unconfirmed(memories[0]) ==> OnlyConfirmed(events, memories, us)
  {
    hide History, AllDescribed, ActiveVersion, OnlyConfirmed, Unconfirmed, Bounded, Ends;
    VersionsNeverFall(t, factoryVersion, events, memories, us);
    if Unconfirmed(memories[0]) { ChangesAreConfirmed(t, factoryVersion, events, memories, us); }
  }

  /** The confirmed version on record; zero while there is none. */
  function ActiveVersion(f: Memory): word {
    match Load(f)
    case Some(m) => m.activeVersion
    case None => 0
  }

  lemma VersionsNeverFall(t: Trust, factoryVersion: word, events: seq<Event>, memories: seq<Memory>, us: seq<Update>)
    requires History(events, us) && AllDescribed(t, factoryVersion, memories, us)
    ensures |memories| == |events| + 1
    ensures forall i, j :: 0 <= i <= j <= |events| ==> ActiveVersion(memories[i]) <= ActiveVersion(memories[j])
  {
    hide Safe, Factory, ActiveVersion, Follows, Load;
    forall i, j | 0 <= i <= j <= |events| ensures ActiveVersion(memories[i]) <= ActiveVersion(memories[j]) {
      VersionsRise(events, us, i, j);
      StaysOnRecord(t, factoryVersion, memories, us, i, j);
      ActiveIs(t, factoryVersion, memories[i], us[i]);
      ActiveIs(t, factoryVersion, memories[j], us[j]);
    }
  }

  lemma {:induction false} StaysOnRecord(t: Trust, factoryVersion: word, memories: seq<Memory>, us: seq<Update>, i: nat,
                                         j: nat)
    requires AllDescribed(t, factoryVersion, memories, us) && i <= j < |memories|
    ensures Load(memories[i]).Some? ==> Load(memories[j]).Some?
    decreases j
  {
    hide Safe, Factory, Load;
    if i < j { StaysOnRecord(t, factoryVersion, memories, us, i, j - 1); }
  }

  lemma ActiveIs(t: Trust, factoryVersion: word, f: Memory, u: Update)
    requires Safe(t, f, u) || Factory(f, factoryVersion, u)
    ensures ActiveVersion(f) == if Load(f).Some? then u.version else 0
  {
    hide Load;
  }

  lemma AtStart(t: Trust, f: Memory, factoryVersion: word, u: Update)
    requires Safe(t, f, u) || Factory(f, factoryVersion, u)
    ensures Trials([]) == 0 && Between(t, f, factoryVersion, None, 0, u) && Lived(t, factoryVersion, [], [f], [], [u])
    ensures Sane(None)
  {
    hide SafeIn, Load;
  }
}
