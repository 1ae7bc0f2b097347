/**
 * bootloader/src/secure_container.c: from ARTIFACT_READY to IMAGE_READY.  The container is authenticated,
 * checked against the version policy, reconstructed into external flash and verified there; the
 * application region is only read.
 */
module SecureContainer {
  import opened Bytes
  import opened Nor
  import opened BootMetadata
  import opened Container
  import opened Device
  import opened MetadataStorage
  import opened BackupStorage
  import opened Acceptance
  import opened BootSafety
  import Janpatch

  const ERROR_BASE: int := 0x0014_0000

  datatype SecureResult = SecureOk(m: Metadata) | SecureRejected(m: Metadata) | SecureFailed

  /** The record after a rejected or finished update: everything about the update is cleared. */
  function IdleRecord(m: Metadata, error: word): Metadata {
    m.(state := IDLE, pendingVersion := 0, updateId := 0, receivedSize := 0, expectedSize := 0,
       copyOffset := 0, bootAttempts := 0, lastError := error)
  }

  /** DownloadCheckpointStorage_Clear: an erase and two writes in sectors of its own. */
  method ClearCheckpoint(d: Device) returns (r: Run<()>)
    modifies d`flash, d`power
    ensures d.steady ==> r.Done?
    ensures d.flash == old(d.flash)
  {
    var _ :- d.Operate(d.flash);
    var _ :- d.Operate(d.flash);
    r := d.Operate(d.flash);
  }

  /** Reject and, for the installer, RevertToActiveImage: back to IDLE with the running image untouched. */
  method Reject(d: Device, working: Metadata, error: word, ghost u: Update) returns (r: Run<SecureResult>)
    requires Load(d.flash) == Some(working)
    modifies d
    ensures d.steady ==> r.Done?
    ensures d.flash.images == old(d.flash.images) && d.refused == old(d.refused)
    ensures d.torn == old(d.torn) || (r.PowerCut? && Tore(d.flash, d.torn))
    ensures old(Safe(d.trust, d.flash, u)) && d.flash.images.app == u.image && u.target == None ==>
              Kept(d, r.PowerCut?, u)
    ensures r.Done? ==>
              && r.value.SecureRejected? && Load(d.flash) == Some(r.value.m) && r.value.m.state == IDLE
              && Same(r.value.m, IdleRecord(working, error)) && d.torn == old(d.torn)
  {
    hide Collides, Tore, Spoilt, IsValid, Decode, CalculateCrc, Load, Ready, Backed, Installed, Overlay;
    var _ :- ClearCheckpoint(d);
    var c :- Publish(d, IdleRecord(working, error), u);
    return Done(SecureRejected(c.value));
  }

  method Transition(d: Device, working: Metadata, state: word, ghost u: Update) returns (r: Run<Option<Metadata>>)
    requires Load(d.flash) == Some(working)
    requires ARTIFACT_READY <= working.state <= PATCHING && VERIFYING_CONTAINER <= state <= PATCHING
    requires state == VERIFYING_BASE ==>
               var a := LoadVerifiedInfo(d.trust, d.flash.images.incoming, working.expectedSize);
               a.Authentic? ==> a.info.delta
    modifies d
    ensures d.steady ==> r.Done?
    ensures d.flash.images == old(d.flash.images) && d.refused == old(d.refused)
    ensures d.torn == old(d.torn) || (r.PowerCut? && Tore(d.flash, d.torn))
    ensures old(Safe(d.trust, d.flash, u)) ==> Kept(d, r.PowerCut?, u)
    ensures r.Done? ==>
              && r.value.Some? && Load(d.flash) == r.value && d.torn == old(d.torn)
              && r.value.value.state == state
              && r.value.value == working.(state := state, copyOffset := 0, bootAttempts := 0, lastError := 0,
                                           magic := MAGIC, version := FORMAT_VERSION,
                                           generation := r.value.value.generation, crc32 := r.value.value.crc32)
  {
    hide Collides, Tore, Spoilt, Decode, CalculateCrc, Load, Ready, Backed, OnTrial, Installed, Accepted,
         LoadVerifiedInfo;
    var next := working.(state := state, copyOffset := 0, bootAttempts := 0, lastError := 0);
    if u.Valid() { AcceptedRecord(d.trust, working, next, d.flash.images.incoming, u.image); }
    r := Publish(d, next, u);
  }

  /** Erased sectors that cover `n` bytes. */
  function SectorsFor(n: nat): nat { (n + EXT_FLASH_SECTOR_SIZE - 1) / EXT_FLASH_SECTOR_SIZE }

  /** EraseReconstructed: sector by sector. */
  method EraseReconstructed(d: Device, size: nat) returns (r: Run<()>)
    requires size <= APPLICATION_MAX_SIZE
    modifies d`flash, d`power
    ensures d.steady ==> r.Done?
    ensures d.flash == old(d.flash).(images := d.flash.images)
    ensures d.flash.images == old(d.flash.images).(reconstructed := d.flash.images.reconstructed)
    ensures r.Done? ==> IsErased(d.flash.images.reconstructed, 0, size)
  {
    hide Collides, Tore, Spoilt, Store, Fill;
    var sectors := SectorsFor(size);
    var n := 0;
    while n < sectors
      invariant 0 <= n <= sectors
      invariant d.flash == old(d.flash).(images := d.flash.images)
      invariant d.flash.images == old(d.flash.images).(reconstructed := d.flash.images.reconstructed)
      invariant IsErased(d.flash.images.reconstructed, 0, n * EXT_FLASH_SECTOR_SIZE)
    {
      var region := d.flash.images.reconstructed;
      EraseExtends(region, n * EXT_FLASH_SECTOR_SIZE, EXT_FLASH_SECTOR_SIZE);
      var _ :- d.OperateOn(d.flash.images.(reconstructed := Erase(region, n * EXT_FLASH_SECTOR_SIZE,
                                                                  EXT_FLASH_SECTOR_SIZE)));
      n := n + 1;
    }
    return Done(());
  }

  lemma EraseExtends(region: seq<byte>, from: nat, n: nat)
    requires from + n <= |region| && IsErased(region, 0, from)
    ensures IsErased(Erase(region, from, n), 0, from + n)
  {
    var after := Erase(region, from, n);
    forall i | 0 <= i < from + n ensures after[i] == ERASED {
      if i >= from { assert after[i] == Fill(ERASED, n)[i - from]; }
    }
  }

  /** The target written in order into the erased partition, at most 256 bytes per program operation. */
  method WriteReconstructed(d: Device, target: seq<byte>) returns (r: Run<()>)
    requires |target| <= APPLICATION_MAX_SIZE && IsErased(d.flash.images.reconstructed, 0, |target|)
    modifies d`flash, d`power
    ensures d.steady ==> r.Done?
    ensures d.flash == old(d.flash).(images := d.flash.images)
    ensures d.flash.images == old(d.flash.images).(reconstructed := d.flash.images.reconstructed)
    ensures r.Done? ==> d.flash.images.reconstructed[..|target|] == target
  {
    hide Collides, Tore, Spoilt, Store, Program, Pad;
    ghost var before := d.flash.images.reconstructed;
    PadErased(before, target);
    var offset := 0;
    while offset < |target|
      invariant 0 <= offset <= |target|
      invariant d.flash == old(d.flash).(images := d.flash.images)
      invariant d.flash.images == old(d.flash.images).(reconstructed := d.flash.images.reconstructed)
      invariant d.flash.images.reconstructed == Store(before, 0, Pad(target[..offset], |target|))
    {
      var n := Min(|target| - offset, PROGRAM_PAGE);
      ProgramNext(before, 0, |target|, target, offset, n);
      var region := d.flash.images.reconstructed;
      var _ :- d.OperateOn(d.flash.images.(reconstructed := Program(region, offset, target[offset..offset + n])));
      offset := offset + n;
    }
    PadFull(target);
    return Done(());
  }

  lemma PadErased(region: seq<byte>, target: seq<byte>)
    requires |target| <= |region| && IsErased(region, 0, |target|)
    ensures Store(region, 0, Pad(target[..0], |target|)) == region
  {
  }

  lemma PadFull(target: seq<byte>)
    ensures Pad(target[..|target|], |target|) == target
  {
  }

  /**
   * ApplyDeltaPayload: the streaming applier reads the application region and the payload, and what it writes
   * reaches the partition in order, also when it stops part way.
   */
  method ApplyDelta(d: Device, i: Header) returns (r: Run<bool>)
    requires IsErased(d.flash.images.reconstructed, 0, i.targetSize)
    modifies d`flash, d`power
    ensures d.steady ==> r.Done?
    ensures d.flash == old(d.flash).(images := d.flash.images)
    ensures d.flash.images == old(d.flash.images).(reconstructed := d.flash.images.reconstructed)
    ensures var im := old(d.flash.images);
            var target := Janpatch.Reconstruction(im.app[..i.baseSize], Payload(i, im.incoming), i.targetSize);
            r.Done? ==>
              && (r.value <==> target.Some?)
              && (r.value ==> d.flash.images.reconstructed[..i.targetSize] == target.value)
  {
    hide Collides, Tore, Spoilt, Janpatch.Reconstruction, Payload;
    var im := d.flash.images;
    var stream := new Janpatch.Context(im.app[..i.baseSize], Payload(i, im.incoming), i.targetSize, im.reconstructed);
    var status := stream.ApplyStream();
    var written := stream.target[..stream.targetPosition];
    StoredFront(im, i, written, stream.target);
    var _ :- WriteReconstructed(d, written);
    return Done(status == Janpatch.Ok);
  }

  /** What a completed stream leaves at the front of the partition is its target. */
  lemma StoredFront(im: Images, i: Header, written: seq<byte>, region: seq<byte>)
    requires WellSized(im) && |written| <= |region|
    requires written == region[..|written|]
    ensures var target := Janpatch.Reconstruction(im.app[..i.baseSize], Payload(i, im.incoming), i.targetSize);
            target.Some? ==>
              && |target.value| == i.targetSize <= |im.reconstructed|
              && (region == Store(im.reconstructed, 0, target.value) && |written| == i.targetSize ==>
                    written == target.value)
  {
  }

  lemma TargetIs(i: Header, incoming: seq<byte>, image: seq<byte>)
    requires |incoming| == EXT_INCOMING_SIZE && |image| == APPLICATION_MAX_SIZE
    ensures Target(i, incoming, image) ==
            if i.delta then Janpatch.Reconstruction(image[..i.baseSize], Payload(i, incoming), i.targetSize)
            else Some(Payload(i, incoming))
    ensures !i.delta ==> |Payload(i, incoming)| == i.targetSize
  {
    hide Janpatch.Reconstruction;
  }

  /** Erase, then copy the full payload or apply the delta; false when the delta does not apply. */
  method Reconstruct(d: Device, i: Header) returns (r: Run<bool>)
    modifies d`flash, d`power
    ensures d.steady ==> r.Done?
    ensures d.flash == old(d.flash).(images := d.flash.images)
    ensures d.flash.images == old(d.flash.images).(reconstructed := d.flash.images.reconstructed)
    ensures var target := Target(i, old(d.flash.images.incoming), old(d.flash.images.app));
            r.Done? ==>
              && (r.value <==> target.Some?)
              && (r.value ==> d.flash.images.reconstructed[..i.targetSize] == target.value)
  {
    hide Collides, Tore, Spoilt, Target, IsErased;
    ghost var incoming, app := d.flash.images.incoming, d.flash.images.app;
    TargetIs(i, incoming, app);
    var _ :- EraseReconstructed(d, i.targetSize);
    if i.delta {
      r := ApplyDelta(d, i);
      return;
    }
    var _ :- WriteReconstructed(d, Payload(i, d.flash.images.incoming));
    return Done(true);
  }

  /** The record that hands the verified target to the installer. */
  function ReadyRecord(m: Metadata, i: Header): Metadata {
    m.(state := IMAGE_READY, receivedSize := i.targetSize, expectedSize := i.targetSize,
       copyOffset := 0, bootAttempts := 0, lastError := 0)
  }

  /** Every check passed, so the record and the partition are what the installer relies on. */
  lemma VerifiedIsReady(t: Trust, m: Metadata, i: Header, im: Images, u: Update)
    requires WellSized(im)
    requires u.Valid() && m.activeVersion == u.version && !u.approved && Undecided(t, m, im, u)
    requires LoadVerifiedInfo(t, im.incoming, m.expectedSize) == Authentic(i)
    requires Policy(i, m) == 0
    requires BaseMatches(t, i, im.app) && Target(i, im.incoming, im.app) == Some(im.reconstructed[..i.targetSize])
    requires Verify(t, i, im.reconstructed[..i.targetSize]) == 0
    ensures Acceptable(ReadyRecord(m, i)) && SafeIn(t, ReadyRecord(m, i), im, u)
  {
    hide Target, VectorOk, HasMagic, BaseMatches;
  }

  /** SecureContainer_Process */
  method Process(d: Device, metadata: Metadata, ghost u: Update) returns (r: Run<SecureResult>)
    requires Load(d.flash) == Some(metadata) && ARTIFACT_READY <= metadata.state <= PATCHING
    modifies d
    ensures d.steady ==> r.Done?
    ensures d.torn == old(d.torn) || (r.PowerCut? && Tore(d.flash, d.torn))
    ensures d.flash.images == old(d.flash.images).(reconstructed := d.flash.images.reconstructed)
    ensures old(Safe(d.trust, d.flash, u)) ==> Kept(d, r.PowerCut?, u) && d.refused == old(d.refused)
    ensures r.Done? ==> d.torn == old(d.torn)
    ensures r.Done? && !r.value.SecureFailed? ==>
              && Load(d.flash) == Some(r.value.m)
              && r.value.m.state == (if r.value.SecureOk? then IMAGE_READY else IDLE)
    ensures r.Done? && !HasMagic(old(d.flash.images.incoming)) ==> r.value.SecureRejected?
    ensures old(Safe(d.trust, d.flash, u)) && r.Done? ==>
              !r.value.SecureFailed? && (r.value.SecureOk? <==> u.target.Some?)
  {
    hide Collides, Tore, Spoilt, IsValid, Decode, CalculateCrc, Load, Ready, Backed, OnTrial, Installed, Target,
         LoadVerifiedInfo,
         Policy, Verify, HasMagic, Acceptable;
    var working := metadata;
    ghost var safe := Safe(d.trust, d.flash, u);
    var incoming := d.flash.images.incoming;
    if !HasMagic(incoming) {
      WithoutMagic(d.trust, incoming, working.expectedSize);
      r := Reject(d, working, ERROR_BASE + NOT_PRESENT, u);
      return;
    }
    var auth := LoadVerifiedInfo(d.trust, incoming, working.expectedSize);
    if auth.Refused? {
      r := Reject(d, working, ErrorCode(auth.reason), u);
      return;
    }
    var info := auth.info;
    var reason := Policy(info, working);
    if reason != 0 {
      r := Reject(d, working, ErrorCode(reason), u);
      return;
    }
    if working.state == ARTIFACT_READY {
      var c :- Transition(d, working, VERIFYING_CONTAINER, u);
      working := c.value;
    }
    if info.delta {
      if working.state == VERIFYING_CONTAINER {
        var c :- Transition(d, working, VERIFYING_BASE, u);
        working := c.value;
      }
      if !BaseMatches(d.trust, info, d.flash.images.app) {
        r := Reject(d, working, ERROR_BASE + BASE_HASH_MISMATCH, u);
        return;
      }
      if working.state == VERIFYING_BASE {
        var c :- Transition(d, working, PATCHING, u);
        working := c.value;
      }
    } else if working.state == VERIFYING_CONTAINER {
      var c :- Transition(d, working, PATCHING, u);
      working := c.value;
    }
    if working.state != PATCHING {
      r := Reject(d, working, ERROR_BASE + METADATA_MISMATCH, u);
      return;
    }
    PolicyStable(info, metadata, working);
    r := Finish(d, working, info, u);
  }

  lemma WithoutMagic(t: Trust, incoming: seq<byte>, size: nat)
    requires !HasMagic(incoming)
    ensures LoadVerifiedInfo(t, incoming, size).Refused?
  {
  }

  /** `0x00140000 | reason` for a reason below 0x100. */
  function ErrorCode(reason: int): word { ERROR_BASE + reason % 0x100 }

  lemma PolicyStable(i: Header, m: Metadata, m': Metadata)
    requires m'.updateId == m.updateId && m'.pendingVersion == m.pendingVersion && m'.receivedSize == m.receivedSize
    requires m'.expectedSize == m.expectedSize && m'.activeVersion == m.activeVersion
    ensures Policy(i, m') == Policy(i, m)
  {
  }

  /** PATCHING: reconstruct, verify, and publish IMAGE_READY. */
  method Finish(d: Device, working: Metadata, info: Header, ghost u: Update) returns (r: Run<SecureResult>)
    requires Load(d.flash) == Some(working) && working.state == PATCHING
    requires LoadVerifiedInfo(d.trust, d.flash.images.incoming, working.expectedSize) == Authentic(info)
    requires Policy(info, working) == 0 && BaseMatches(d.trust, info, d.flash.images.app)
    modifies d
    ensures d.steady ==> r.Done?
    ensures d.torn == old(d.torn) || (r.PowerCut? && Tore(d.flash, d.torn))
    ensures d.flash.images == old(d.flash.images).(reconstructed := d.flash.images.reconstructed)
    ensures old(Safe(d.trust, d.flash, u)) ==> Kept(d, r.PowerCut?, u) && d.refused == old(d.refused)
    ensures r.Done? ==> d.torn == old(d.torn)
    ensures r.Done? && !r.value.SecureFailed? ==>
              && Load(d.flash) == Some(r.value.m)
              && r.value.m.state == (if r.value.SecureOk? then IMAGE_READY else IDLE)
    ensures old(Safe(d.trust, d.flash, u)) && r.Done? ==>
              !r.value.SecureFailed? && (r.value.SecureOk? <==> u.target.Some?)
  {
    hide Collides, Tore, Spoilt, IsValid, Decode, CalculateCrc, Ready, Backed, OnTrial, Installed, Target,
         LoadVerifiedInfo,
         Policy, Verify, HasMagic, Acceptable, SelectNewestSlot;
    ghost var safe := Safe(d.trust, d.flash, u);
    var ok :- Reconstruct(d, info);
    if !ok {
      r := Reject(d, working, ERROR_BASE + PATCH_FAILED, u);
      return;
    }
    var reason := Verify(d.trust, info, d.flash.images.reconstructed[..info.targetSize]);
    if reason != 0 {
      r := Reject(d, working, ErrorCode(reason), u);
      return;
    }
    if safe { VerifiedIsReady(d.trust, working, info, d.flash.images, u); }
    var c :- Publish(d, ReadyRecord(working, info), u);
    if c == None { return Done(SecureFailed); }
    return Done(SecureOk(c.value));
  }
}
