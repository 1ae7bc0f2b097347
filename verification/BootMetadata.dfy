/** The persistent boot record of shared/src/boot_metadata.c: layout, validation, generation order. */
module BootMetadata {
  import opened Bytes
  import Crc32

  const MAGIC: word := 0x424D_4554
  const FORMAT_VERSION: word := 1
  const FIRST_GENERATION: word := 1
  const MAX_BOOT_ATTEMPTS: word := 3

  const APPLICATION_MAX_SIZE := 38912
  const INTERNAL_FLASH_PAGE_SIZE := 1024
  const EXT_FLASH_SECTOR_SIZE := 4096
  const EXT_INCOMING_SIZE := 0x2_0000

  const IDLE: word := 0
  const RECEIVING: word := 1
  const ARTIFACT_READY: word := 2
  const VERIFYING_CONTAINER: word := 3
  const VERIFYING_BASE: word := 4
  const PATCHING: word := 5
  const IMAGE_READY: word := 6
  const BACKING_UP: word := 7
  const INSTALLING: word := 8
  const VERIFYING_INSTALL: word := 9
  const TRIAL_BOOT: word := 10
  const CONFIRMED: word := 11
  const ROLLBACK: word := 12
  const FAILED: word := 13

  datatype Metadata = Metadata(
    magic: word,
    generation: word,
    version: word,
    state: word,
    activeVersion: word,
    pendingVersion: word,
    updateId: word,
    receivedSize: word,
    expectedSize: word,
    copyOffset: word,
    bootAttempts: word,
    lastError: word,
    crc32: word)

  datatype Validation =
    | Valid
    | InvalidMagic
    | InvalidVersion
    | InvalidGeneration
    | InvalidState
    | InvalidProgress
    | InvalidStateFields
    | InvalidCrc

  /** The words the checksum covers: everything but the checksum. */
  function Body(m: Metadata): seq<word> {
    [m.magic, m.generation, m.version, m.state, m.activeVersion, m.pendingVersion, m.updateId,
     m.receivedSize, m.expectedSize, m.copyOffset, m.bootAttempts, m.lastError]
  }

  function CalculateCrc(m: Metadata): word { Crc32.Checksum(WordBytes(Body(m))) }

  function Init(activeVersion: word): Metadata {
    Metadata(MAGIC, 0, FORMAT_VERSION, IDLE, activeVersion, 0, 0, 0, 0, 0, 0, 0, 0)
  }

  function Finalize(m: Metadata): Metadata {
    var f := m.(magic := MAGIC, version := FORMAT_VERSION);
    f.(crc32 := CalculateCrc(f))
  }

  predicate PayloadComplete(m: Metadata) {
    m.updateId != 0 && m.expectedSize != 0 && m.receivedSize == m.expectedSize
  }

  predicate StateFieldsConsistent(m: Metadata) {
    if m.state == IDLE then
      m.pendingVersion == 0 && m.updateId == 0 && m.receivedSize == 0 && m.expectedSize == 0 &&
      m.copyOffset == 0 && m.bootAttempts == 0
    else if m.state == RECEIVING then m.updateId != 0 && m.expectedSize != 0 && m.pendingVersion != 0
    else if m.state == ARTIFACT_READY then PayloadComplete(m) && m.copyOffset == 0
    else if VERIFYING_CONTAINER <= m.state <= IMAGE_READY then PayloadComplete(m)
    else if m.state == BACKING_UP then
      PayloadComplete(m) && m.pendingVersion != 0 && m.bootAttempts == 0 &&
      m.copyOffset <= APPLICATION_MAX_SIZE &&
      (m.copyOffset == APPLICATION_MAX_SIZE || m.copyOffset % EXT_FLASH_SECTOR_SIZE == 0)
    else if m.state == INSTALLING then
      PayloadComplete(m) && m.copyOffset <= m.expectedSize &&
      (m.copyOffset == m.expectedSize || m.copyOffset % INTERNAL_FLASH_PAGE_SIZE == 0)
    else if m.state == VERIFYING_INSTALL then PayloadComplete(m) && m.copyOffset == m.expectedSize
    else if m.state == TRIAL_BOOT then
      PayloadComplete(m) && m.pendingVersion != 0 && m.copyOffset == 0 && m.bootAttempts <= MAX_BOOT_ATTEMPTS
    else if m.state == CONFIRMED then
      PayloadComplete(m) && m.pendingVersion != 0 && m.copyOffset == 0 && 0 < m.bootAttempts <= MAX_BOOT_ATTEMPTS
    else if m.state == ROLLBACK then
      PayloadComplete(m) && m.pendingVersion != 0 && m.bootAttempts <= MAX_BOOT_ATTEMPTS &&
      m.copyOffset <= APPLICATION_MAX_SIZE &&
      (m.copyOffset == APPLICATION_MAX_SIZE || m.copyOffset % INTERNAL_FLASH_PAGE_SIZE == 0)
    else m.state == FAILED
  }

  /** The checks that need no checksum, in the order the code makes them. */
  function ValidateFields(m: Metadata): Validation {
    if m.magic != MAGIC then InvalidMagic
    else if m.version != FORMAT_VERSION then InvalidVersion
    else if m.generation == 0 then InvalidGeneration
    else if m.state > FAILED then InvalidState
    else if m.receivedSize > m.expectedSize || m.expectedSize > EXT_INCOMING_SIZE || m.copyOffset > APPLICATION_MAX_SIZE
    then InvalidProgress
    else if !StateFieldsConsistent(m) then InvalidStateFields
    else Valid
  }

  function Validate(m: Metadata): Validation {
    if ValidateFields(m) != Valid then ValidateFields(m)
    else if m.crc32 != CalculateCrc(m) then InvalidCrc
    else Valid
  }

  predicate IsValid(m: Metadata) { Validate(m) == Valid }

  // ----- generations -----------------------------------------------------------------------

  /** Unsigned 32-bit subtraction, then a signed comparison with zero. */
  predicate IsGenerationNewer(candidate: word, reference: word) {
    var difference := (candidate - reference) % 0x1_0000_0000;
    difference != 0 && difference < 0x8000_0000
  }

  function NextGeneration(current: word): word {
    var next := (current + 1) % 0x1_0000_0000;
    if next == 0 then FIRST_GENERATION else next
  }

  /** A next generation is never zero and is newer than its predecessor, and never the other way round. */
  lemma NextIsNewer(g: word)
    ensures NextGeneration(g) != 0
    ensures IsGenerationNewer(NextGeneration(g), g) && !IsGenerationNewer(g, NextGeneration(g))
  {
  }

  datatype Slot = NoSlot | SlotA | SlotB

  function SelectNewestSlot(a: Metadata, b: Metadata): Slot {
    if !IsValid(a) && !IsValid(b) then NoSlot
    else if !IsValid(a) then SlotB
    else if !IsValid(b) then SlotA
    else if IsGenerationNewer(b.generation, a.generation) then SlotB
    else SlotA
  }

  function SelectWriteSlot(a: Metadata, b: Metadata): Slot {
    if SelectNewestSlot(a, b) == SlotA then SlotB else SlotA
  }

  // ----- the record in a flash page --------------------------------------------------------

  const RECORD_HALVES := 26
  const PAGE_HALVES := 512
  const BLANK: half := 0xFFFF

  function Blank(n: nat): (r: seq<half>)
    ensures |r| == n
    ensures forall i :: 0 <= i < n ==> r[i] == BLANK
  {
    seq(n, _ => BLANK)
  }

  type Page = p: seq<half> | |p| == PAGE_HALVES witness Blank(PAGE_HALVES)

  /** The record's half-words in the order they are programmed, the checksum last. */
  function Halves(m: Metadata): (r: seq<half>)
    ensures |r| == RECORD_HALVES
  {
    [Low(m.magic), High(m.magic), Low(m.generation), High(m.generation), Low(m.version), High(m.version),
     Low(m.state), High(m.state), Low(m.activeVersion), High(m.activeVersion),
     Low(m.pendingVersion), High(m.pendingVersion), Low(m.updateId), High(m.updateId),
     Low(m.receivedSize), High(m.receivedSize), Low(m.expectedSize), High(m.expectedSize),
     Low(m.copyOffset), High(m.copyOffset), Low(m.bootAttempts), High(m.bootAttempts),
     Low(m.lastError), High(m.lastError), Low(m.crc32), High(m.crc32)]
  }

  function Field(p: Page, i: nat): word
    requires i < 13
  {
    p[2 * i] as int + p[2 * i + 1] as int * 0x1_0000
  }

  function Decode(p: Page): Metadata {
    Metadata(Field(p, 0), Field(p, 1), Field(p, 2), Field(p, 3), Field(p, 4), Field(p, 5), Field(p, 6),
             Field(p, 7), Field(p, 8), Field(p, 9), Field(p, 10), Field(p, 11), Field(p, 12))
  }

  /** A page after an erase and the first `k` half-words of the record. */
  function Torn(m: Metadata, k: nat): Page
    requires k <= RECORD_HALVES
  {
    Halves(m)[..k] + Blank(PAGE_HALVES - k)
  }

  lemma DecodeWhole(m: Metadata)
    ensures Decode(Torn(m, RECORD_HALVES)) == m
  {
  }

  /** Field `i` of a torn page: whole, only its low half, or blank. */
  lemma TornField(m: Metadata, k: nat, i: nat)
    requires k <= RECORD_HALVES && i < 13
    ensures var w := (Body(m) + [m.crc32])[i];
            Field(Torn(m, k), i) ==
            if 2 * i + 1 < k then w else if 2 * i + 1 == k then Low(w) as int + 0xFFFF_0000 else 0xFFFF_FFFF
  {
    var w := (Body(m) + [m.crc32])[i];
    assert Halves(m)[2 * i] == Low(w) && Halves(m)[2 * i + 1] == High(w);
  }

  /**
   * A tear that leaves an acceptable record other than the one being written: the cut fell inside
   * boot_attempts or last_error, the blank bits changed the body, the field checks do not look at them,
   * and the changed body happens to have the checksum 0xFFFFFFFF that the blank checksum word spells.
   */
  ghost predicate Collides(m: Metadata, k: nat) {
    20 <= k < 24 &&
    var d := Decode(Torn(m, k));
    ValidateFields(d) == Valid && Body(d) != Body(m) && CalculateCrc(d) == 0xFFFF_FFFF
  }

  /** A commit cut short: the record being written and how many of its half-words were programmed. */
  datatype Tear = Tear(record: Metadata, halves: nat)

  /** None, or a tear that is accepted as another record. */
  type Accident = a: Option<Tear> | a.Some? ==> Collides(a.value.record, a.value.halves) witness None

  /** Until boot_attempts is reached the field checks alone reject the record: copy_offset is out of range. */
  lemma TornEarly(m: Metadata, k: nat)
    requires IsValid(m) && k < 20
    ensures ValidateFields(Decode(Torn(m, k))) in
              {InvalidMagic, InvalidVersion, InvalidGeneration, InvalidState, InvalidProgress}
  {
    hide CalculateCrc, Torn;
    TornField(m, k, 9);
  }

  lemma TornBody(m: Metadata, k: nat)
    requires 24 <= k <= RECORD_HALVES
    ensures Body(Decode(Torn(m, k))) == Body(m)
  {
  }

  /** Exactly which tears are accepted as something other than the record being written. */
  lemma TornVerdict(m: Metadata, k: nat)
    requires IsValid(m) && k <= RECORD_HALVES
    ensures IsValid(Decode(Torn(m, k))) && Decode(Torn(m, k)) != m <==> Collides(m, k)
  {
    hide ValidateFields, WordBytes, Torn, Decode;
    var d := Decode(Torn(m, k));
    if k < 20 {
      TornEarly(m, k);
    } else {
      SameBody(d, m);
      if k >= 24 {
        TornBody(m, k);
      } else {
        TornCrc(m, k);
      }
    }
  }

  lemma TornCrc(m: Metadata, k: nat)
    requires k <= 24
    ensures Decode(Torn(m, k)).crc32 == 0xFFFF_FFFF
  {
    TornField(m, k, 12);
  }

  lemma SameBody(d: Metadata, m: Metadata)
    ensures Body(d) == Body(m) && d.crc32 == m.crc32 ==> d == m
    ensures Body(d) == Body(m) ==> CalculateCrc(d) == CalculateCrc(m)
  {
    hide WordBytes;
    var x, y := Body(d), Body(m);
    if x == y {
      assert x[0] == y[0] && x[1] == y[1] && x[2] == y[2] && x[3] == y[3] && x[4] == y[4] && x[5] == y[5];
      assert x[6] == y[6] && x[7] == y[7] && x[8] == y[8] && x[9] == y[9] && x[10] == y[10] && x[11] == y[11];
    }
  }
}
