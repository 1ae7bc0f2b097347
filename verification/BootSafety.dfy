/**
 * What the bootloader keeps true of the persistent memory at every moment of every run: the invariant
 * behind recovery, crash transparency, version order and the trial bound.
 */
module BootSafety {
  import opened Bytes
  import opened BootMetadata
  import opened Container
  import opened Device
  import opened MetadataStorage
  import opened Progress
  import opened BackupStorage
  import opened Acceptance
  import Crc32

  /**
   * One update as seen from outside: the last confirmed image and its version, the candidate the artifact
   * leads to (None when it is rejected or there is no update), its identity, how many trial attempts have
   * been recorded, how often the candidate has been jumped to, and whether it has confirmed itself.
   */
  datatype Update = Update(
    image: seq<byte>,
    version: word,
    target: Option<seq<byte>>,
    id: word,
    pending: word,
    attempts: nat,
    jumps: nat,
    approved: bool)
  {
    ghost predicate Valid() {
      && |image| == APPLICATION_MAX_SIZE
      && VectorOk(image, APPLICATION_MAX_SIZE)
      && version != 0
      && (target.Some? ==> 8 <= |target.value| <= APPLICATION_MAX_SIZE)
      && jumps <= attempts <= MAX_BOOT_ATTEMPTS
    }

    /** The application region the update leads to. */
    ghost function Goal(): (r: seq<byte>)
      requires Valid()
      ensures |r| == APPLICATION_MAX_SIZE
    {
      match target
      case None => image
      case Some(t) => Overlay(t, image)
    }
  }

  /** The record names an authentic container and Reconstructed holds the candidate. */
  ghost predicate Ready(t: Trust, m: Metadata, im: Images, u: Update)
    requires WellSized(im) && u.Valid()
  {
    && u.attempts == 0
    && LoadVerifiedInfo(t, im.incoming, 0).Authentic?
    && var i := LoadVerifiedInfo(t, im.incoming, 0).info;
    && m.updateId == u.id != 0
    && m.pendingVersion == u.pending == i.targetVersion > u.version
    && m.receivedSize == m.expectedSize == i.targetSize
    && (i.delta ==> i.baseVersion == u.version)
    && u.target == Some(im.reconstructed[..i.targetSize])
    && Crc32.Checksum(im.reconstructed[..i.targetSize]) == i.targetCrc
    && VectorOk(im.reconstructed[..i.targetSize], i.targetSize)
  }

  /** The backup can restore the last confirmed image. */
  ghost predicate Backed(im: Images, u: Update)
    requires WellSized(im) && u.Valid()
  {
    im.backupHeader == HeaderRecord(u.version, Crc32.Checksum(u.image)) && Image(im) == u.image
  }

  /** Pages before `k` are installed; the page at `k` may hold anything; the rest is still the old image. */
  ghost predicate Installed(app: seq<byte>, u: Update, k: nat, size: nat)
    requires |app| == APPLICATION_MAX_SIZE && u.Valid()
  {
    && InstallValid(size, k)
    && (k == size ==> app == u.Goal())
    && (k < size ==> k + INTERNAL_FLASH_PAGE_SIZE <= APPLICATION_MAX_SIZE &&
                     app[..k] == u.Goal()[..k] &&
                     app[k + INTERNAL_FLASH_PAGE_SIZE..] == u.image[k + INTERNAL_FLASH_PAGE_SIZE..])
  }

  /** The candidate is in place, can be jumped to, and is newer than the confirmed version. */
  ghost predicate OnTrial(m: Metadata, im: Images, u: Update)
    requires WellSized(im) && u.Valid()
  {
    && Backed(im, u)
    && u.target.Some? && im.app == u.Goal() && VectorOk(u.Goal(), APPLICATION_MAX_SIZE)
    && m.updateId == u.id && m.pendingVersion == u.pending > u.version
    && m.receivedSize == m.expectedSize == |u.target.value|
    && m.bootAttempts == u.attempts && m.lastError == 0
  }

  /** Validation has not finished: the artifact still determines the candidate. */
  ghost predicate Undecided(t: Trust, m: Metadata, im: Images, u: Update)
    requires WellSized(im) && u.Valid()
  {
    && im.app == u.image && u.attempts == 0
    && m.updateId == u.id && m.pendingVersion == u.pending
    && u.target == Accepted(t, m, im.incoming, u.image)
    && (m.state == VERIFYING_BASE ==>
          var a := LoadVerifiedInfo(t, im.incoming, m.expectedSize);
          a.Authentic? ==> a.info.delta)
  }

  ghost predicate SafeIn(t: Trust, m: Metadata, im: Images, u: Update)
    requires WellSized(im)
  {
    && u.Valid()
    && m.activeVersion == u.version
    && (m.state == CONFIRMED <==> u.approved)
    && if m.state == IDLE then im.app == u.image && (u.target == None || u.attempts == MAX_BOOT_ATTEMPTS)
       else if ARTIFACT_READY <= m.state <= PATCHING then Undecided(t, m, im, u)
       else if m.state == IMAGE_READY then Ready(t, m, im, u) && im.app == u.image
       else if m.state == BACKING_UP then
         && Ready(t, m, im, u) && im.app == u.image
         && BackupValid(m.copyOffset) && im.backupData[..m.copyOffset] == u.image[..m.copyOffset]
       else if m.state == INSTALLING then
         Ready(t, m, im, u) && Backed(im, u) && Installed(im.app, u, m.copyOffset, m.expectedSize)
       else if m.state == VERIFYING_INSTALL then Ready(t, m, im, u) && Backed(im, u) && im.app == u.Goal()
       else if m.state == TRIAL_BOOT || m.state == CONFIRMED then OnTrial(m, im, u)
       else
         && m.state == ROLLBACK && Backed(im, u) && u.attempts == MAX_BOOT_ATTEMPTS
         && InstallValid(APPLICATION_MAX_SIZE, m.copyOffset) && im.app[..m.copyOffset] == u.image[..m.copyOffset]
  }

  /** The invariant: the record that a boot would load is safe for the images beside it. */
  ghost predicate Safe(t: Trust, f: Memory, u: Update) {
    Load(f).Some? && SafeIn(t, Load(f).value, f.images, u)
  }

  /**
   * The memory is one torn page away from safety: the page is accepted by accident, and the record that was
   * being written to it is safe for the images.
   */
  ghost predicate Spoilt(t: Trust, f: Memory, a: Accident, u: Update) {
    Tore(f, a) && IsValid(a.value.record) && SafeIn(t, a.value.record, f.images, u)
  }

  /** The device is safe, or a cut has spoilt it. */
  ghost predicate Kept(d: Device, cut: bool, u: Update)
    reads d
  {
    Safe(d.trust, d.flash, u) || (cut && Spoilt(d.trust, d.flash, d.torn, u))
  }

  // ----- publishing a record ---------------------------------------------------------------

  /** The invariant does not look at the fields a commit fills in. */
  lemma SafeSame(t: Trust, m: Metadata, requested: Metadata, im: Images, u: Update)
    requires WellSized(im) && Same(m, requested)
    ensures SafeIn(t, m, im, u) <==> SafeIn(t, requested, im, u)
  {
    hide CalculateCrc, LoadVerifiedInfo, Accepted, Overlay, VectorOk, Crc32.Checksum, HeaderRecord, Image,
         InstallValid, BackupValid;
    if u.Valid() { AcceptedRecord(t, m, requested, im.incoming, u.image); }
  }

  /** CommitMetadata: the commit every step of the bootloader uses. */
  method Publish(d: Device, requested: Metadata, ghost u: Update) returns (r: Run<Option<Metadata>>)
    modifies d
    ensures d.steady ==> r.Done?
    ensures d.flash.images == old(d.flash.images)
    ensures d.torn == old(d.torn) || (r.PowerCut? && Tore(d.flash, d.torn))
    ensures d.refused == (old(d.refused) || !Acceptable(requested))
    ensures r.Done? ==> d.torn == old(d.torn) && (r.value.Some? <==> Acceptable(requested))
    ensures r.Done? && r.value.Some? ==> Load(d.flash) == r.value && Same(r.value.value, requested)
    ensures r == Done(None) ==> d.flash == old(d.flash)
    ensures r.PowerCut? ==>
              || (Tore(d.flash, d.torn) && IsValid(d.torn.value.record) && Same(d.torn.value.record, requested))
              || Load(d.flash) == old(Load(d.flash))
              || (Load(d.flash).Some? && Same(Load(d.flash).value, requested))
    ensures Acceptable(requested) && SafeIn(d.trust, requested, old(d.flash.images), u) ==>
              && (r.Done? ==> Safe(d.trust, d.flash, u))
              && (Kept(d, r.PowerCut?, u) || Load(d.flash) == old(Load(d.flash)))
              && (old(Safe(d.trust, d.flash, u)) ==> Kept(d, r.PowerCut?, u))
  {
    hide Collides, IsValid, Decode, Torn, CalculateCrc, Load, SafeIn;
    AcceptableIsValid(d.flash, requested);
    r := Commit(d, requested);
    if Load(d.flash).Some? && Same(Load(d.flash).value, requested) {
      SafeSame(d.trust, Load(d.flash).value, requested, d.flash.images, u);
    }
    if d.torn.Some? && Same(d.torn.value.record, requested) {
      SafeSame(d.trust, d.torn.value.record, requested, d.flash.images, u);
    }
  }

  /** A commit that carries the update itself from `u` to `u'`: at every cut one of the two describes the memory. */
  method Advance(d: Device, requested: Metadata, ghost u: Update, ghost u': Update)
    returns (r: Run<Option<Metadata>>, ghost v: Update)
    modifies d
    ensures d.steady ==> r.Done?
    ensures d.flash.images == old(d.flash.images)
    ensures d.torn == old(d.torn) || (r.PowerCut? && Tore(d.flash, d.torn))
    ensures d.refused == (old(d.refused) || !Acceptable(requested))
    ensures r.Done? ==> d.torn == old(d.torn) && (r.value.Some? <==> Acceptable(requested))
    ensures r.Done? && r.value.Some? ==> Load(d.flash) == r.value && Same(r.value.value, requested) && v == u'
    ensures r == Done(None) ==> d.flash == old(d.flash) && v == u
    ensures v == u || v == u'
    ensures Acceptable(requested) && old(Safe(d.trust, d.flash, u)) &&
            SafeIn(d.trust, requested, old(d.flash.images), u') ==>
              Kept(d, r.PowerCut?, v)
  {
    hide Collides, IsValid, Decode, CalculateCrc, Load, SafeIn, Acceptable, Tore;
    ghost var before := d.flash;
    r := Publish(d, requested, u');
    v := if r == Done(None) || (r.PowerCut? && Load(d.flash) == Load(before)) then u else u';
    if Load(d.flash).Some? && Same(Load(d.flash).value, requested) {
      SafeSame(d.trust, Load(d.flash).value, requested, d.flash.images, u');
    }
  }
}
