/** bootloader/src/boot_decision.c */
module BootDecision {
  import opened BootMetadata

  datatype Action =
    | JumpActive | ResumeDownload | ProcessArtifact | RestartValidation | RestartPatch | ContinueBackup
    | ResumeInstall | VerifyInstall | BootTrial | FinalizeConfirmation | ResumeRollback | StayRecovery

  datatype Reason = NoReason | ApplicationInvalid | MetadataInvalid | TrialLimitReached | FailedState

  datatype Decision = Decision(action: Action, reason: Reason)

  function ForState(m: Metadata): Decision {
    if m.state == IDLE then Decision(JumpActive, NoReason)
    else if m.state == RECEIVING then Decision(ResumeDownload, NoReason)
    else if m.state == ARTIFACT_READY then Decision(ProcessArtifact, NoReason)
    else if m.state == VERIFYING_CONTAINER || m.state == VERIFYING_BASE then Decision(RestartValidation, NoReason)
    else if m.state == PATCHING then Decision(RestartPatch, NoReason)
    else if m.state == IMAGE_READY || m.state == BACKING_UP then Decision(ContinueBackup, NoReason)
    else if m.state == INSTALLING then Decision(ResumeInstall, NoReason)
    else if m.state == VERIFYING_INSTALL then Decision(VerifyInstall, NoReason)
    else if m.state == TRIAL_BOOT then
      if m.bootAttempts >= MAX_BOOT_ATTEMPTS then Decision(ResumeRollback, TrialLimitReached)
      else Decision(BootTrial, NoReason)
    else if m.state == CONFIRMED then Decision(FinalizeConfirmation, NoReason)
    else if m.state == ROLLBACK then Decision(ResumeRollback, NoReason)
    else Decision(StayRecovery, FailedState)
  }

  /** BootDecision_Evaluate */
  function Evaluate(m: Metadata, applicationValid: bool): Decision {
    if !IsValid(m) then Decision(StayRecovery, MetadataInvalid)
    else
      var d := ForState(m);
      if !applicationValid && d.action == BootTrial then Decision(ResumeRollback, ApplicationInvalid)
      else if !applicationValid && (d.action == JumpActive || d.action == ResumeDownload) then
        Decision(StayRecovery, ApplicationInvalid)
      else d
  }

  /** Nothing is jumped to without valid vectors and a valid record, and a trial only below the limit. */
  lemma JumpsOnlyWhenValid(m: Metadata, applicationValid: bool)
    ensures var a := Evaluate(m, applicationValid).action;
            && (a == JumpActive || a == ResumeDownload || a == BootTrial ==> applicationValid && IsValid(m))
            && (a == BootTrial ==> m.state == TRIAL_BOOT && m.bootAttempts < MAX_BOOT_ATTEMPTS)
            && (a == ResumeRollback && applicationValid ==>
                  m.state == ROLLBACK || (m.state == TRIAL_BOOT && m.bootAttempts == MAX_BOOT_ATTEMPTS))
  {
    hide CalculateCrc;
  }
}

/** bootloader/src/trial_boot.c */
module TrialBoot {
  import opened Bytes
  import opened BootMetadata
  import opened Device
  import opened MetadataStorage
  import opened Acceptance
  import opened BackupStorage
  import opened BootSafety
  import opened Container
  import SecureContainer

  /** One more attempt is on record. */
  ghost function Attempted(u: Update): Update { u.(attempts := u.attempts + 1) }

  /** The candidate has become the confirmed image. */
  ghost function Confirmed(u: Update): Update
    requires u.Valid()
  {
    Update(u.Goal(), u.pending, None, 0, 0, 0, 0, false)
  }

  /** TrialBoot_PrepareAttempt: the attempt is on record before the jump. */
  method PrepareAttempt(d: Device, m: Metadata, ghost u: Update) returns (r: Run<Option<Metadata>>, ghost v: Update)
    requires Load(d.flash) == Some(m)
    modifies d
    ensures d.steady ==> r.Done?
    ensures d.flash.images == old(d.flash.images)
    ensures d.torn == old(d.torn) || (r.PowerCut? && Tore(d.flash, d.torn))
    ensures r.Done? ==> d.torn == old(d.torn)
    ensures r.Done? && r.value.Some? ==>
              && Load(d.flash) == r.value && r.value.value.state == TRIAL_BOOT && m.state == TRIAL_BOOT
              && r.value.value.bootAttempts == m.bootAttempts + 1 <= MAX_BOOT_ATTEMPTS
              && Same(r.value.value, m.(bootAttempts := m.bootAttempts + 1, lastError := 0))
              && v == Attempted(u)
    ensures v == u || v == Attempted(u)
    ensures old(Safe(d.trust, d.flash, u)) ==> Kept(d, r.PowerCut?, v) && d.refused == old(d.refused)
    ensures old(Safe(d.trust, d.flash, u)) && r.Done? && m.state == TRIAL_BOOT && m.bootAttempts < MAX_BOOT_ATTEMPTS ==>
              r.value.Some?
  {
    hide Collides, Tore, Spoilt, Decode, CalculateCrc, SelectNewestSlot, Ready, Overlay, Installed, VectorOk,
         HeaderRecord, Image;
    v := u;
    if m.state != TRIAL_BOOT || m.bootAttempts >= MAX_BOOT_ATTEMPTS { return Done(None), v; }
    r, v := Advance(d, m.(bootAttempts := m.bootAttempts + 1, lastError := 0), u, Attempted(u));
  }

  /** TrialBoot_FinalizeConfirmation: the pending version becomes the active one. */
  method FinalizeConfirmation(d: Device, m: Metadata, ghost u: Update)
    returns (r: Run<Option<Metadata>>, ghost v: Update)
    requires Load(d.flash) == Some(m)
    modifies d
    ensures d.steady ==> r.Done?
    ensures d.flash.images == old(d.flash.images)
    ensures d.torn == old(d.torn) || (r.PowerCut? && Tore(d.flash, d.torn))
    ensures r.Done? ==> d.torn == old(d.torn)
    ensures r.Done? && r.value.Some? ==>
              && Load(d.flash) == r.value && r.value.value.state == IDLE && m.state == CONFIRMED
              && Same(r.value.value, SecureContainer.IdleRecord(m, 0).(activeVersion := m.pendingVersion))
    ensures v == u || (u.Valid() && v == Confirmed(u) && m.state == CONFIRMED)
    ensures old(Safe(d.trust, d.flash, u)) ==> Kept(d, r.PowerCut?, v) && d.refused == old(d.refused)
    ensures old(Safe(d.trust, d.flash, u)) && r.Done? && m.state == CONFIRMED ==> r.value.Some? && v == Confirmed(u)
  {
    hide Collides, Tore, Spoilt, Decode, CalculateCrc, SelectNewestSlot, Ready, Backed, Overlay, Installed, VectorOk;
    v := u;
    if m.state != CONFIRMED || m.pendingVersion == 0 { return Done(None), v; }
    var next := SecureContainer.IdleRecord(m, 0).(activeVersion := m.pendingVersion);
    ghost var u' := if u.Valid() then Confirmed(u) else u;
    r, v := Advance(d, next, u, u');
  }
}

/** bootloader/src/boot_manager.c */
module BootManager {
  import opened Bytes
  import opened BootMetadata
  import opened Container
  import opened Device
  import opened MetadataStorage
  import opened BackupStorage
  import opened Acceptance
  import opened BootSafety
  import opened BootDecision
  import opened SecureContainer
  import opened ImageInstaller
  import opened TrialBoot

  const MAX_BOOT_TRANSITIONS := 8

  /** Which pulse pattern the bootloader blinks for ever. */
  datatype Fault = ApplicationFault | RecoveryFault | InstallFault | TrialFault | RollbackFault | SecureFault

  /** How a boot that is not cut short ends. */
  datatype Outcome = ToActive | ToTrial | Fatal(fault: Fault)

  datatype Step = Again(m: Metadata) | End(outcome: Outcome)

  predicate Bootable(im: Images)
    requires WellSized(im)
  {
    VectorOk(im.app, APPLICATION_MAX_SIZE)
  }

  /** An upper bound on the decisions still to be taken. */
  ghost function DecisionsLeft(m: Metadata, im: Images): (n: nat)
    requires WellSized(im)
    ensures 1 <= n <= 3
  {
    if ARTIFACT_READY <= m.state <= PATCHING then 3
    else if IMAGE_READY <= m.state <= VERIFYING_INSTALL then 2
    else if m.state == TRIAL_BOOT then (if m.bootAttempts < MAX_BOOT_ATTEMPTS && Bootable(im) then 1 else 2)
    else if m.state == CONFIRMED || m.state == ROLLBACK then 2
    else 1
  }

  /** What a jump out of the bootloader guarantees, whatever the memory held before. */
  ghost predicate JumpIsSound(f: Memory, o: Outcome) {
    && (!o.Fatal? ==> Load(f).Some? && Bootable(f.images))
    && (o.ToActive? ==> Load(f).value.state == IDLE || Load(f).value.state == RECEIVING)
    && (o.ToTrial? ==> Load(f).value.state == TRIAL_BOOT && 0 < Load(f).value.bootAttempts <= MAX_BOOT_ATTEMPTS)
  }

  /** The candidate has been jumped to once more. */
  ghost function Jumped(u: Update): Update { u.(attempts := u.attempts + 1, jumps := u.jumps + 1) }

  lemma JumpKeepsSafe(t: Trust, f: Memory, u: Update)
    requires u.Valid() && Safe(t, f, Attempted(u)) && Load(f).value.state == TRIAL_BOOT
    ensures Safe(t, f, Jumped(u))
  {
    hide Load, Ready, HeaderRecord, Image, VectorOk, Overlay;
  }

  /** Under the invariant the recovery states do not occur and whatever may be jumped to is bootable. */
  lemma SafeStates(t: Trust, f: Memory, u: Update)
    requires Safe(t, f, u)
    ensures u.Valid()
    ensures var s := Load(f).value.state; s != RECEIVING && s <= ROLLBACK
    ensures Load(f).value.state == IDLE || Load(f).value.state == TRIAL_BOOT ==> Bootable(f.images)
  {
    hide Load, Ready, Backed, VectorOk, Installed, Undecided;
  }

  /** What the application region holds when the bootloader jumps. */
  lemma Landed(t: Trust, f: Memory, u: Update)
    requires Safe(t, f, u)
    ensures u.Valid()
    ensures Load(f).value.state == TRIAL_BOOT ==> f.images.app == u.Goal() && u.target.Some?
    ensures Load(f).value.state == IDLE ==>
              f.images.app == u.image && (u.target == None || u.attempts == MAX_BOOT_ATTEMPTS)
  {
    hide Load, Backed, VectorOk;
  }

  lemma Untried(t: Trust, f: Memory, u: Update)
    requires Safe(t, f, u)
    ensures ARTIFACT_READY <= Load(f).value.state <= VERIFYING_INSTALL ==> u.attempts == 0
  {
    hide Load, Backed, Installed, VectorOk;
  }

  /** What a pass that does not end the boot leaves. */
  ghost predicate Nearer(m: Metadata, im: Images, n: Metadata, im': Images)
    requires WellSized(im) && WellSized(im')
  {
    && DecisionsLeft(n, im') < DecisionsLeft(m, im)
    && (n.state == IDLE || n.state == IMAGE_READY || n.state == TRIAL_BOOT)
    && (m.state == CONFIRMED ==> n.state == IDLE)
  }

  /** The actions that work on the images. */
  predicate Repairs(a: Action) {
    a in {ProcessArtifact, RestartValidation, RestartPatch, ContinueBackup, ResumeInstall, VerifyInstall,
          ResumeRollback}
  }

  /** One pass of the decision loop whose action works on the images. */
  method Repair(d: Device, m: Metadata, action: Action, ghost u: Update) returns (r: Run<Step>)
    requires Load(d.flash) == Some(m) && action == Evaluate(m, Bootable(d.flash.images)).action && Repairs(action)
    modifies d
    ensures d.steady ==> r.Done?
    ensures d.torn == old(d.torn) || (r.PowerCut? && Tore(d.flash, d.torn))
    ensures r.Done? ==> d.torn == old(d.torn)
    ensures r.Done? && r.value.Again? ==>
              Load(d.flash) == Some(r.value.m) && Nearer(m, old(d.flash.images), r.value.m, d.flash.images)
    ensures r.Done? && r.value.End? ==> r.value.outcome.Fatal?
    ensures old(Safe(d.trust, d.flash, u)) ==> Kept(d, r.PowerCut?, u) && d.refused == old(d.refused)
    ensures old(Safe(d.trust, d.flash, u)) && r.Done? ==> r.value.Again?
  {
    hide Collides, Tore, Spoilt, Load, Safe, IsValid, VectorOk;
    if Safe(d.trust, d.flash, u) { SafeStates(d.trust, d.flash, u); }
    if action in {ProcessArtifact, RestartValidation, RestartPatch} {
      var incoming := HasMagic(d.flash.images.incoming);
      var s :- SecureContainer.Process(d, m, u);
      if s.SecureFailed? || (!incoming && !s.SecureRejected?) { return Done(End(Fatal(SecureFault))); }
      return Done(Again(s.m));
    }
    if action == ResumeRollback {
      var s :- ImageInstaller.ProcessRollback(d, m, u);
      if !s.InstallOk? { return Done(End(Fatal(RollbackFault))); }
      return Done(Again(s.m));
    }
    var s :- ImageInstaller.Install(d, m, u);
    if s.InstallFailed? { return Done(End(Fatal(InstallFault))); }
    return Done(Again(s.m));
  }

  /** One pass of the decision loop. */
  method Turn(d: Device, m: Metadata, ghost u: Update) returns (r: Run<Step>, ghost v: Update)
    requires Load(d.flash) == Some(m)
    modifies d
    ensures d.steady ==> r.Done?
    ensures d.torn == old(d.torn) || (r.PowerCut? && Tore(d.flash, d.torn))
    ensures r.Done? ==> d.torn == old(d.torn)
    ensures r.Done? && r.value.Again? ==>
              Load(d.flash) == Some(r.value.m) && Nearer(m, old(d.flash.images), r.value.m, d.flash.images)
    ensures r.Done? && r.value.End? ==> JumpIsSound(d.flash, r.value.outcome)
    ensures old(Safe(d.trust, d.flash, u)) ==> Kept(d, r.PowerCut?, v) && d.refused == old(d.refused)
    ensures old(Safe(d.trust, d.flash, u)) && r.Done? && r.value.Again? ==>
              v == (if m.state == CONFIRMED && u.Valid() then Confirmed(u) else u)
    ensures old(Safe(d.trust, d.flash, u)) && r.Done? && r.value.End? ==>
              || (r.value.outcome == ToActive && v == u && m.state == IDLE && Load(d.flash) == Some(m))
              || (r.value.outcome == ToTrial && v == Jumped(u) && m.state == TRIAL_BOOT)
    ensures old(Safe(d.trust, d.flash, u)) && m.state == IDLE ==> r == Done(End(ToActive)) && v == u
    ensures old(Safe(d.trust, d.flash, u)) && r.PowerCut? ==>
              v == u || (v == Attempted(u) && m.state == TRIAL_BOOT) ||
                  (u.Valid() && v == Confirmed(u) && m.state == CONFIRMED)
  {
    hide Collides, Tore, Spoilt, Load, Safe, IsValid, VectorOk;
    v := u;
    ghost var safe := Safe(d.trust, d.flash, u);
    if safe { SafeStates(d.trust, d.flash, u); }
    var decision := Evaluate(m, Bootable(d.flash.images));
    if Repairs(decision.action) {
      r := Repair(d, m, decision.action, u);
      return;
    }
    match decision.action
    case FinalizeConfirmation =>
      var s;
      s, v := TrialBoot.FinalizeConfirmation(d, m, u);
      if s.PowerCut? { return PowerCut, v; }
      if s.value == None { return Done(End(Fatal(TrialFault))), v; }
      return Done(Again(s.value.value)), v;
    case BootTrial =>
      var s;
      s, v := TrialBoot.PrepareAttempt(d, m, u);
      if s.PowerCut? { return PowerCut, v; }
      if s.value == None { return Done(End(Fatal(TrialFault))), v; }
      if safe { JumpKeepsSafe(d.trust, d.flash, u); }
      v := Jumped(u);
      return Done(End(ToTrial)), v;
    case JumpActive | ResumeDownload =>
      return Done(End(ToActive)), v;
    case StayRecovery =>
      return Done(End(Fatal(if decision.reason == ApplicationInvalid then ApplicationFault else RecoveryFault))), v;
  }

  /** The record a device without any metadata starts from. */
  ghost predicate Factory(f: Memory, factoryVersion: word, u: Update) {
    && Load(f) == None
    && u.Valid() && u.image == f.images.app && u.version == factoryVersion && u.target == None && !u.approved
  }

  /** MetadataStorage_Load, with the defaults committed when neither page holds a record. */
  method LoadOrInit(d: Device, factoryVersion: word, ghost u: Update) returns (r: Run<Metadata>)
    requires factoryVersion != 0
    modifies d
    ensures d.steady ==> r.Done?
    ensures d.flash.images == old(d.flash.images) && d.refused == old(d.refused)
    ensures d.torn == old(d.torn) || (r.PowerCut? && Tore(d.flash, d.torn))
    ensures old(Load(d.flash)).Some? ==>
              r == Done(old(Load(d.flash)).value) && d.flash == old(d.flash) && d.torn == old(d.torn)
    ensures r.Done? ==> d.torn == old(d.torn) && Load(d.flash) == Some(r.value)
    ensures old(Factory(d.flash, factoryVersion, u)) ==>
              Kept(d, r.PowerCut?, u) || (r.PowerCut? && Factory(d.flash, factoryVersion, u))
    ensures old(Factory(d.flash, factoryVersion, u)) && r.Done? ==> Safe(d.trust, d.flash, u) && r.value.state == IDLE
  {
    hide Collides, Tore, Spoilt, Decode, CalculateCrc, SelectNewestSlot, Ready, Backed, Overlay, Installed, VectorOk;
    var loaded := Load(d.flash);
    if loaded.Some? { return Done(loaded.value); }
    var first := Init(factoryVersion);
    var p := Publish(d, first, u);
    if p.PowerCut? { return PowerCut; }
    return Done(p.value.value);
  }

  /** What one boot does to the update: nothing, one more attempt, one more jump, or the confirmation. */
  ghost predicate BootEffect(confirmed: bool, r: Run<Outcome>, u: Update, v: Update) {
    var w := if confirmed && u.Valid() then Confirmed(u) else u;
    match r
    case Done(ToActive) => v == w
    case Done(ToTrial) => v == Jumped(u) && !confirmed
    case Done(Fatal(_)) => false
    case PowerCut => v == u || v == w || v == Attempted(u)
  }

  /** BootManager_Run */
  method BootOnce(d: Device, factoryVersion: word, ghost u: Update)
    returns (r: Run<Outcome>, decisions: nat, ghost v: Update)
    requires factoryVersion != 0
    modifies d
    ensures d.steady ==> r.Done?
    ensures decisions <= 3
    ensures d.torn == old(d.torn) || (r.PowerCut? && Tore(d.flash, d.torn))
    ensures r.Done? ==> d.torn == old(d.torn) && JumpIsSound(d.flash, r.value)
    ensures old(Safe(d.trust, d.flash, u)) ==>
              && Kept(d, r.PowerCut?, v)
              && d.refused == old(d.refused)
              && BootEffect(old(Load(d.flash)).value.state == CONFIRMED, r, u, v)
    ensures old(Safe(d.trust, d.flash, u)) && r == Done(ToActive) ==> Load(d.flash).value.state == IDLE
    ensures old(Safe(d.trust, d.flash, u)) && old(Load(d.flash)).value.state == IDLE ==> r == Done(ToActive) && v == u
    ensures old(Safe(d.trust, d.flash, u)) && r.Done? && u.Valid() ==>
              && (ARTIFACT_READY <= old(Load(d.flash)).value.state <= VERIFYING_INSTALL ==>
                    d.flash.images.app == u.Goal() && (r.value == ToTrial <==> u.target.Some?))
              && d.flash.images.app == (if r.value == ToTrial then u.Goal() else v.image)
    ensures old(Factory(d.flash, factoryVersion, u)) ==>
              && v == u && d.refused == old(d.refused) && (r.Done? ==> r.value == ToActive)
              && (Kept(d, r.PowerCut?, u) || (r.PowerCut? && Factory(d.flash, factoryVersion, u)))
    ensures old(Factory(d.flash, factoryVersion, u)) && r.Done? ==> Load(d.flash).value.state == IDLE
  {
    hide Collides, Tore, Spoilt, Load, IsValid, SafeIn, Bootable;
    decisions, v := 0, u;
    ghost var confirmed := Load(d.flash).Some? && Load(d.flash).value.state == CONFIRMED;
    ghost var factory := Factory(d.flash, factoryVersion, u);
    ghost var safe := Safe(d.trust, d.flash, u) || factory;
    ghost var first := if factory then IDLE else if Load(d.flash).Some? then Load(d.flash).value.state else FAILED;
    r := Done(Fatal(RecoveryFault));
    var loaded := LoadOrInit(d, factoryVersion, u);
    if loaded.PowerCut? { return PowerCut, decisions, v; }
    if safe {
      SafeStates(d.trust, d.flash, u);
      Untried(d.trust, d.flash, u);
    }
    var m := loaded.value;
    while decisions < MAX_BOOT_TRANSITIONS
      invariant Load(d.flash) == Some(m) && decisions + DecisionsLeft(m, d.flash.images) <= 3
      invariant d.torn == old(d.torn)
      invariant safe ==> Safe(d.trust, d.flash, v) && d.refused == old(d.refused)
      invariant safe ==>
                if decisions > 0 && confirmed && u.Valid() then v == Confirmed(u) && m.state == IDLE else v == u
      invariant safe && decisions == 0 && confirmed ==> m.state == CONFIRMED
      invariant safe && !confirmed ==> m.state != CONFIRMED
      invariant safe ==> if decisions == 0 then m.state == first else first != IDLE
    {
      var s;
      s, v := Turn(d, m, v);
      decisions := decisions + 1;
      if s.PowerCut? { return PowerCut, decisions, v; }
      if s.value.End? {
        if safe { Landed(d.trust, d.flash, v); }
        return Done(s.value.outcome), decisions, v;
      }
      m := s.value.m;
    }
    assert false;
  }
}
