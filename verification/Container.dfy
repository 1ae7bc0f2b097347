/** What the bootloader learns from an authenticated firmware container (shared/src/firmware_container.c). */
module Container {
  import opened Bytes
  import opened BootMetadata

  const CONTAINER_MAGIC: word := 0x544F_4453
  const HEADER_SIZE := 140
  const SIGNATURE_SIZE := 64

  datatype Info = Info(
    delta: bool,
    baseVersion: word,
    targetVersion: word,
    baseSize: nat,
    payloadSize: nat,
    targetSize: nat,
    targetCrc: word,
    baseDigest: seq<byte>,
    targetDigest: seq<byte>)

  /** The constraints FirmwareContainer_Parse enforces on an accepted header. */
  predicate Parsed(i: Info) {
    && i.targetVersion != 0
    && 0 < i.payloadSize <= EXT_INCOMING_SIZE - HEADER_SIZE - SIGNATURE_SIZE
    && 8 <= i.targetSize <= APPLICATION_MAX_SIZE
    && (if i.delta then i.baseVersion != 0 && 8 <= i.baseSize <= APPLICATION_MAX_SIZE
        else i.baseVersion == 0 && i.baseSize == 0 && i.payloadSize == i.targetSize)
  }

  type Header = i: Info | Parsed(i) witness Info(false, 0, 1, 0, 8, 8, 0, [], [])

  function TotalSize(i: Header): nat { HEADER_SIZE + i.payloadSize + SIGNATURE_SIZE }

  datatype Authentication = Authentic(info: Header) | Refused(reason: word)

  /** The trust anchor: which contents of Incoming carry a valid signature, and the digest function. */
  datatype Trust = Trust(verify: seq<byte> -> Authentication, digest: seq<byte> -> seq<byte>)

  const HEADER_INVALID: word := 5

  /** SecureContainer_IsIncoming */
  predicate HasMagic(incoming: seq<byte>) { |incoming| >= 4 && Word(incoming[..4]) == CONTAINER_MAGIC }

  /** SecureContainer_LoadVerifiedInfo; a size of zero accepts the size the header declares. */
  function LoadVerifiedInfo(t: Trust, incoming: seq<byte>, artifactSize: nat): Authentication {
    if !HasMagic(incoming) then Refused(HEADER_INVALID)
    else
      match t.verify(incoming)
      case Refused(reason) => Refused(reason)
      case Authentic(i) =>
        if artifactSize != 0 && artifactSize != TotalSize(i) then Refused(HEADER_INVALID) else Authentic(i)
  }

  function Payload(i: Header, incoming: seq<byte>): seq<byte>
    requires |incoming| == EXT_INCOMING_SIZE
  {
    incoming[HEADER_SIZE..HEADER_SIZE + i.payloadSize]
  }

  // ----- vectors ---------------------------------------------------------------------------

  const SRAM_BASE: int := 0x2000_0000
  const SRAM_END: int := 0x2000_5000
  const APPLICATION_START: int := 0x0800_6000

  /** FullImage_ValidateVector on the first two words of an image; at 38 KiB it is ApplicationJump_Validate. */
  predicate VectorOk(image: seq<byte>, size: nat)
    requires |image| >= 8
  {
    var stack, reset := Word(image[0..4]), Word(image[4..8]);
    && 8 <= size <= APPLICATION_MAX_SIZE
    && SRAM_BASE <= stack <= SRAM_END && stack % 8 == 0
    && reset % 2 == 1
    && APPLICATION_START <= reset - 1 < APPLICATION_START + size
  }

  lemma VectorWidens(image: seq<byte>, larger: seq<byte>, size: nat)
    requires |image| >= 8 && |larger| >= 8 && image[..8] == larger[..8] && VectorOk(image, size)
    ensures VectorOk(larger, APPLICATION_MAX_SIZE)
  {
    assert image[0..4] == image[..8][0..4] && image[4..8] == image[..8][4..8];
    assert larger[0..4] == larger[..8][0..4] && larger[4..8] == larger[..8][4..8];
  }
}
