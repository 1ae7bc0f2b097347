/**
 * Which artifacts bootloader/src/secure_container.c turns into a candidate image, as a function of the
 * record, the artifact and the running image.
 */
module Acceptance {
  import opened Bytes
  import opened Nor
  import opened BootMetadata
  import opened Container
  import Crc32
  import Janpatch

  const NOT_PRESENT: int := 1
  const METADATA_MISMATCH: int := 7
  const VERSION_REJECTED: int := 8
  const BASE_VERSION_MISMATCH: int := 13
  const BASE_HASH_MISMATCH: int := 14
  const PATCH_FAILED: int := 17
  const TARGET_HASH_MISMATCH: int := 19
  const TARGET_CRC_MISMATCH: int := 20
  const TARGET_VECTOR_INVALID: int := 21

  /** ValidateMetadataPolicy: zero, or the reason for rejecting. */
  function Policy(i: Header, m: Metadata): int {
    if m.updateId == 0 || m.pendingVersion != i.targetVersion || m.receivedSize != m.expectedSize ||
       m.expectedSize != TotalSize(i) then METADATA_MISMATCH
    else if i.targetVersion <= m.activeVersion then VERSION_REJECTED
    else if !i.delta then (if i.baseVersion != 0 then METADATA_MISMATCH else 0)
    else if i.baseVersion != m.activeVersion then BASE_VERSION_MISMATCH
    else 0
  }

  /** VerifyBase */
  predicate BaseMatches(t: Trust, i: Header, image: seq<byte>)
    requires |image| == APPLICATION_MAX_SIZE
  {
    i.delta ==> t.digest(image[..i.baseSize]) == i.baseDigest
  }

  /** The image a container asks for on top of the running one; None when its payload does not apply. */
  function Target(i: Header, incoming: seq<byte>, image: seq<byte>): (r: Option<seq<byte>>)
    requires |incoming| == EXT_INCOMING_SIZE && |image| == APPLICATION_MAX_SIZE
    ensures r.Some? ==> |r.value| == i.targetSize
  {
    if i.delta then Janpatch.Reconstruction(image[..i.baseSize], Payload(i, incoming), i.targetSize)
    else Some(Payload(i, incoming))
  }

  /** VerifyReconstructed: zero, or the reason for rejecting. */
  function Verify(t: Trust, i: Header, target: seq<byte>): int
    requires |target| == i.targetSize
  {
    if t.digest(target) != i.targetDigest then TARGET_HASH_MISMATCH
    else if Crc32.Checksum(target) != i.targetCrc then TARGET_CRC_MISMATCH
    else if !VectorOk(target, i.targetSize) then TARGET_VECTOR_INVALID
    else 0
  }

  /** The candidate that the artifact in Incoming leads to, if it leads to one. */
  function Accepted(t: Trust, m: Metadata, incoming: seq<byte>, image: seq<byte>): (r: Option<seq<byte>>)
    requires |incoming| == EXT_INCOMING_SIZE && |image| == APPLICATION_MAX_SIZE
    ensures r.Some? ==> 8 <= |r.value| <= APPLICATION_MAX_SIZE
  {
    match LoadVerifiedInfo(t, incoming, m.expectedSize)
    case Refused(_) => None
    case Authentic(i) =>
      if Policy(i, m) != 0 || !BaseMatches(t, i, image) then None
      else
        match Target(i, incoming, image)
        case None => None
        case Some(target) => if Verify(t, i, target) == 0 then Some(target) else None
  }

  /** The verdict looks only at the identity and the sizes in the record. */
  lemma AcceptedRecord(t: Trust, m: Metadata, m': Metadata, incoming: seq<byte>, image: seq<byte>)
    requires |incoming| == EXT_INCOMING_SIZE && |image| == APPLICATION_MAX_SIZE
    requires m'.updateId == m.updateId && m'.pendingVersion == m.pendingVersion && m'.activeVersion == m.activeVersion
    requires m'.receivedSize == m.receivedSize && m'.expectedSize == m.expectedSize
    ensures Accepted(t, m', incoming, image) == Accepted(t, m, incoming, image)
  {
    hide LoadVerifiedInfo, Target, Verify, BaseMatches;
  }

  function RoundUp(n: nat): nat {
    (n + INTERNAL_FLASH_PAGE_SIZE - 1) / INTERNAL_FLASH_PAGE_SIZE * INTERNAL_FLASH_PAGE_SIZE
  }

  /** The application region once `target` has been installed over `image`: whole pages are replaced. */
  function Overlay(target: seq<byte>, image: seq<byte>): (r: seq<byte>)
    requires |target| <= |image| == APPLICATION_MAX_SIZE
    ensures |r| == APPLICATION_MAX_SIZE
  {
    Pad(target, RoundUp(|target|)) + image[RoundUp(|target|)..]
  }
}
