/** The running application's side of an update: application/src/ota_receiver.c and trial_confirmation.c. */
module Application {
  import opened Bytes
  import opened BootMetadata
  import opened Container
  import opened Device
  import opened MetadataStorage
  import opened BackupStorage
  import opened Acceptance
  import opened BootSafety
  import Crc32
  import R = Receiver

  /** What START has checked about the session that an INSTALL request hands over. */
  datatype Session = Session(id: word, version: word, size: word) {
    predicate Valid() { id != 0 && version != 0 && HEADER_SIZE + SIGNATURE_SIZE < size <= EXT_INCOMING_SIZE }
  }

  /** What the receiver's session hands over. */
  function HandedOver(s: R.Session): (r: Session)
    requires R.Handover(s)
    ensures r.Valid()
  {
    Session(s.id, s.version, s.size)
  }

  function HandoffRecord(m: Metadata, s: Session): Metadata {
    m.(state := ARTIFACT_READY, pendingVersion := s.version, updateId := s.id, receivedSize := s.size,
       expectedSize := s.size, copyOffset := 0, bootAttempts := 0, lastError := 0)
  }

  /** The update that an INSTALL request opens. */
  ghost function Requested(t: Trust, m: Metadata, im: Images, s: Session, u: Update): Update
    requires WellSized(im) && u.Valid()
  {
    Update(u.image, u.version, Accepted(t, HandoffRecord(m, s), im.incoming, u.image), s.id, s.version, 0, 0, false)
  }

  /** A request made while the confirmed image runs starts a new update. */
  lemma HandoffIsSafe(t: Trust, m: Metadata, im: Images, s: Session, u: Update)
    requires WellSized(im) && s.Valid() && IsValid(m) && m.state == IDLE && SafeIn(t, m, im, u)
    ensures Acceptable(HandoffRecord(m, s)) && SafeIn(t, HandoffRecord(m, s), im, Requested(t, m, im, s, u))
  {
    hide CalculateCrc, Accepted, VectorOk, LoadVerifiedInfo;
  }

  /** The memory with the request in place of the record is safe for the image confirmed so far. */
  ghost predicate HandoffKeeps(t: Trust, m: Metadata, im: Images, s: Session, u: Update)
    requires WellSized(im)
  {
    exists v: Update :: v.image == u.image && v.version == u.version && SafeIn(t, HandoffRecord(m, s), im, v)
  }

  /**
   * PersistSecureInstallRequest does not look at the record it replaces.  Over any safe record the request
   * is safe for the confirmed image exactly when installation had not begun or the application region still
   * equals the backup; while an application runs, exactly when the record is idle or the trial is one of an
   * image that changes nothing.
   */
  lemma HandoffSafeIff(t: Trust, m: Metadata, im: Images, s: Session, u: Update)
    requires WellSized(im) && s.Valid() && SafeIn(t, m, im, u)
    ensures HandoffKeeps(t, m, im, s, u) <==> m.state < INSTALLING || im.app == Image(im)
    ensures Running(m) ==> (HandoffKeeps(t, m, im, s, u) <==> m.state == IDLE || u.Goal() == u.image)
  {
    hide Accepted, VectorOk, Ready, Installed, LoadVerifiedInfo, Overlay, HeaderRecord;
    assert m.state >= INSTALLING ==> Image(im) == u.image;
    if im.app == u.image {
      var v := Requested(t, m, im, s, u);
      assert SafeIn(t, HandoffRecord(m, s), im, v);
    }
  }

  const VECTORS: seq<byte> := [0x00, 0x50, 0x00, 0x20, 0x09, 0x60, 0x00, 0x08]

  /** An image that is the same byte throughout behind its vectors. */
  function Uniform(fill: byte): (r: seq<byte>)
    ensures |r| == APPLICATION_MAX_SIZE
  {
    VECTORS + Fill(fill, APPLICATION_MAX_SIZE - 8)
  }

  /** The trial, after its first attempt, of a candidate that differs from that image in one byte. */
  const TRIAL_RECORD := Metadata(MAGIC, 1, FORMAT_VERSION, TRIAL_BOOT, 1, 2, 7, 9, 9, 0, 1, 0, 0)
  ghost function TrialOver(image: seq<byte>): Update { Update(image, 1, Some(VECTORS + [0]), 7, 2, 1, 1, false) }

  lemma UniformJumps(image: seq<byte>)
    requires |image| == APPLICATION_MAX_SIZE && image[..8] == VECTORS
    ensures VectorOk(image, APPLICATION_MAX_SIZE)
  {
    assert image[0..4] == VECTORS[0..4] && image[4..8] == VECTORS[4..8];
  }

  /** Safe trials over which an INSTALL request, whatever it asks for, is not safe for the confirmed image. */
  lemma HandoffInTrial(t: Trust, s: Session, fill: byte, incoming: seq<byte>, reconstructed: seq<byte>,
                       spare: seq<byte>)
    requires s.Valid() && fill != 0
    requires |incoming| == EXT_INCOMING_SIZE && |reconstructed| == RECONSTRUCTED_SIZE
    requires |spare| == BACKUP_DATA_SIZE - APPLICATION_MAX_SIZE
    ensures Acceptable(TRIAL_RECORD) && Running(TRIAL_RECORD) && TrialOver(Uniform(fill)).Valid()
    ensures var u := TrialOver(Uniform(fill));
            var im := Images(u.Goal(), incoming, reconstructed, HeaderRecord(1, Crc32.Checksum(u.image)),
                             u.image + spare);
            WellSized(im) && SafeIn(t, TRIAL_RECORD, im, u) && !HandoffKeeps(t, TRIAL_RECORD, im, s, u)
  {
    hide Accepted, VectorOk, Ready, Installed, LoadVerifiedInfo, HeaderRecord, Crc32.Checksum, HandoffKeeps;
    var u := TrialOver(Uniform(fill));
    UniformJumps(u.image);
    var goal := u.Goal();
    UniformJumps(goal);
    assert goal[8] == 0 && u.image[8] == fill;
    assert (u.image + spare)[..APPLICATION_MAX_SIZE] == u.image;
    var im := Images(goal, incoming, reconstructed, HeaderRecord(1, Crc32.Checksum(u.image)), u.image + spare);
    HandoffSafeIff(t, TRIAL_RECORD, im, s, u);
  }

  /** PersistSecureInstallRequest */
  method RequestInstall(d: Device, s: Session, ownVersion: word, ghost u: Update)
    returns (r: Run<bool>, ghost v: Update)
    requires s.Valid()
    modifies d
    ensures d.steady ==> r.Done?
    ensures d.flash.images == old(d.flash.images)
    ensures d.torn == old(d.torn) || (r.PowerCut? && Tore(d.flash, d.torn))
    ensures r.Done? ==> d.torn == old(d.torn)
    ensures r == Done(true) ==> Load(d.flash).Some? && Load(d.flash).value.state == ARTIFACT_READY
    ensures old(Safe(d.trust, d.flash, u)) && old(Load(d.flash)).value.state == IDLE ==>
              && u.Valid() && d.refused == old(d.refused)
              && (v == u || v == Requested(d.trust, old(Load(d.flash)).value, d.flash.images, s, u))
              && Kept(d, r.PowerCut?, v)
              && (r.Done? ==> r.value)
  {
    hide Collides, Tore, Spoilt, Decode, CalculateCrc, SelectNewestSlot, IsValid, SafeIn, Acceptable, Accepted;
    v := u;
    var loaded := Load(d.flash);
    var m := if loaded.Some? then loaded.value else Init(ownVersion);
    ghost var u' := u;
    if Safe(d.trust, d.flash, u) && m.state == IDLE {
      HandoffIsSafe(d.trust, m, d.flash.images, s, u);
      ValidUpdate(d.trust, d.flash, u);
      u' := Requested(d.trust, m, d.flash.images, s, u);
    }
    var p;
    p, v := Advance(d, HandoffRecord(m, s), u, u');
    if p.PowerCut? { return PowerCut, v; }
    return Done(p.value.Some?), v;
  }

  lemma ValidUpdate(t: Trust, f: Memory, u: Update)
    requires Safe(t, f, u)
    ensures u.Valid()
  {
    hide Load;
  }

  /** A candidate on trial that has an attempt on record may confirm itself. */
  lemma ApprovalIsSafe(t: Trust, m: Metadata, im: Images, u: Update)
    requires WellSized(im) && IsValid(m) && m.state == TRIAL_BOOT && m.bootAttempts > 0 && SafeIn(t, m, im, u)
    ensures var confirmed := m.(state := CONFIRMED, copyOffset := 0, lastError := 0);
            Acceptable(confirmed) && SafeIn(t, confirmed, im, u.(approved := true))
    ensures u.pending == m.pendingVersion && u.attempts > 0
  {
    hide CalculateCrc, Overlay, VectorOk, Image, HeaderRecord;
  }

  /** TrialConfirmation_ConfirmNow */
  method ConfirmTrial(d: Device, ownVersion: word, ghost u: Update) returns (r: Run<bool>, ghost v: Update)
    modifies d
    ensures d.steady ==> r.Done?
    ensures d.flash.images == old(d.flash.images)
    ensures d.torn == old(d.torn) || (r.PowerCut? && Tore(d.flash, d.torn))
    ensures r.Done? ==> d.torn == old(d.torn)
    ensures r == Done(false) ==> d.flash == old(d.flash)
    ensures r == Done(true) ==> Load(d.flash).Some? && Load(d.flash).value.state == CONFIRMED
    ensures v == u || (v == u.(approved := true) && r != Done(false))
    ensures old(Safe(d.trust, d.flash, u)) ==> Kept(d, r.PowerCut?, v) && d.refused == old(d.refused)
    ensures r == Done(true) ==> v.approved
    ensures old(Safe(d.trust, d.flash, u)) && v != u ==> u.pending == ownVersion && u.attempts > 0
    ensures r.Done? && old(Safe(d.trust, d.flash, u)) ==>
              (r.value <==> var m := old(Load(d.flash)).value;
                            m.state == TRIAL_BOOT && m.pendingVersion == ownVersion && m.bootAttempts > 0)
  {
    hide Collides, Tore, Spoilt, Decode, CalculateCrc, SelectNewestSlot, SafeIn, Acceptable;
    v := u;
    var loaded := Load(d.flash);
    if loaded == None { return Done(false), v; }
    var m := loaded.value;
    if m.state != TRIAL_BOOT || m.pendingVersion != ownVersion || m.bootAttempts == 0 ||
        m.bootAttempts > MAX_BOOT_ATTEMPTS {
      return Done(false), v;
    }
    var confirmed := m.(state := CONFIRMED, copyOffset := 0, lastError := 0);
    if Safe(d.trust, d.flash, u) { ApprovalIsSafe(d.trust, m, d.flash.images, u); }
    var p;
    p, v := Advance(d, confirmed, u, u.(approved := true));
    if p.PowerCut? { return PowerCut, v; }
    return Done(p.value.Some?), v;
  }

  /** The states in which the application runs; none of them depends on what Incoming holds. */
  predicate Running(m: Metadata) { m.state == IDLE || m.state == TRIAL_BOOT || m.state == CONFIRMED }

  /** A download rewrites Incoming, in any way. */
  method Download(d: Device, incoming: seq<byte>, ghost u: Update) returns (r: Run<()>)
    requires |incoming| == EXT_INCOMING_SIZE
    modifies d`flash, d`power
    ensures d.steady ==> r.Done?
    ensures Load(d.flash) == old(Load(d.flash)) && d.flash.images.app == old(d.flash.images.app)
    ensures old(Safe(d.trust, d.flash, u)) && Running(Load(d.flash).value) ==> Safe(d.trust, d.flash, u)
  {
    hide Collides, Tore, Spoilt, Decode, IsValid, Accepted, Ready, Installed, VectorOk, Overlay;
    r := d.OperateOn(d.flash.images.(incoming := incoming));
  }
}
