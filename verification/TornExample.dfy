/**
 * A tear that is accepted: a concrete record for which cutting power before last_error is programmed leaves
 * a page that loads as a different record, because the torn body has the checksum 0xFFFFFFFF.
 */
module TornExample {
  import opened Bytes
  import opened BootMetadata
  import Crc32

  /** An idle record whose active version was chosen for its checksum. */
  const ACTIVE: word := 0x8C35_1F58
  const RECORD := Metadata(MAGIC, 1, FORMAT_VERSION, IDLE, ACTIVE, 0, 0, 0, 0, 0, 0, 0, 0)

  lemma ByteUpdate(c: bv32, s: seq<byte>, b: byte)
    ensures Crc32.Update(c, s + [b]) == Crc32.ByteStep(Crc32.Update(c, s), b)
  {
    hide Crc32.ByteStep;
    assert (s + [b])[..|s|] == s;
  }

  /** One more word, given what its four bytes do to the register. */
  lemma WordUpdate(ws: seq<word>, w: word, b0: byte, b1: byte, b2: byte, b3: byte, r0: bv32, r1: bv32, r2: bv32,
                   r3: bv32, r4: bv32)
    requires LittleEndian(w) == [b0, b1, b2, b3] && Crc32.Update(Crc32.INITIAL, WordBytes(ws)) == r0
    requires Crc32.ByteStep(r0, b0) == r1 && Crc32.ByteStep(r1, b1) == r2
    requires Crc32.ByteStep(r2, b2) == r3 && Crc32.ByteStep(r3, b3) == r4
    ensures Crc32.Update(Crc32.INITIAL, WordBytes(ws + [w])) == r4
  {
    hide Crc32.ByteStep, Crc32.Update, LittleEndian;
    var s := WordBytes(ws);
    assert (ws + [w])[..|ws|] == ws;
    ByteUpdate(Crc32.INITIAL, s, b0);
    ByteUpdate(Crc32.INITIAL, s + [b0], b1);
    ByteUpdate(Crc32.INITIAL, s + [b0] + [b1], b2);
    ByteUpdate(Crc32.INITIAL, s + [b0] + [b1] + [b2], b3);
    assert s + [b0] + [b1] + [b2] + [b3] == s + [b0, b1, b2, b3];
  }

  lemma AfterMagic(ws: seq<word>)
    requires Crc32.Update(Crc32.INITIAL, WordBytes(ws)) == 0xFFFF_FFFF
    ensures Crc32.Update(Crc32.INITIAL, WordBytes(ws + [MAGIC])) == 0x3180_E6C9
  {
    hide Crc32.Update, WordBytes;
    assert LittleEndian(MAGIC) == [0x54, 0x45, 0x4D, 0x42];
    assert Crc32.ByteStep(0xFFFF_FFFF, 0x54) == 0x41FB_859F;
    assert Crc32.ByteStep(0x41FB_859F, 0x45) == 0x6647_C04F;
    assert Crc32.ByteStep(0x6647_C04F, 0x4D) == 0xEE68_26EC;
    assert Crc32.ByteStep(0xEE68_26EC, 0x42) == 0x3180_E6C9;
    WordUpdate(ws, MAGIC, 0x54, 0x45, 0x4D, 0x42, 0xFFFF_FFFF, 0x41FB_859F, 0x6647_C04F, 0xEE68_26EC, 0x3180_E6C9);
  }

  lemma AfterGeneration(ws: seq<word>)
    requires Crc32.Update(Crc32.INITIAL, WordBytes(ws)) == 0x3180_E6C9
    ensures Crc32.Update(Crc32.INITIAL, WordBytes(ws + [1])) == 0x74CB_F28A
  {
    hide Crc32.Update, WordBytes;
    assert LittleEndian(1) == [0x01, 0x00, 0x00, 0x00];
    assert Crc32.ByteStep(0x3180_E6C9, 0x01) == 0x958E_CA64;
    assert Crc32.ByteStep(0x958E_CA64, 0x00) == 0x4A4A_2B8B;
    assert Crc32.ByteStep(0x4A4A_2B8B, 0x00) == 0x7A20_1083;
    assert Crc32.ByteStep(0x7A20_1083, 0x00) == 0x74CB_F28A;
    WordUpdate(ws, 1, 0x01, 0x00, 0x00, 0x00, 0x3180_E6C9, 0x958E_CA64, 0x4A4A_2B8B, 0x7A20_1083, 0x74CB_F28A);
  }

  lemma AfterVersion(ws: seq<word>)
    requires Crc32.Update(Crc32.INITIAL, WordBytes(ws)) == 0x74CB_F28A
    ensures Crc32.Update(Crc32.INITIAL, WordBytes(ws + [1])) == 0xF37E_2D24
  {
    hide Crc32.Update, WordBytes;
    assert LittleEndian(1) == [0x01, 0x00, 0x00, 0x00];
    assert Crc32.ByteStep(0x74CB_F28A, 0x01) == 0x7A1E_915A;
    assert Crc32.ByteStep(0x7A1E_915A, 0x00) == 0x8BC4_A67B;
    assert Crc32.ByteStep(0x8BC4_A67B, 0x00) == 0xC75C_6C12;
    assert Crc32.ByteStep(0xC75C_6C12, 0x00) == 0xF37E_2D24;
    WordUpdate(ws, 1, 0x01, 0x00, 0x00, 0x00, 0x74CB_F28A, 0x7A1E_915A, 0x8BC4_A67B, 0xC75C_6C12, 0xF37E_2D24);
  }

  lemma AfterState(ws: seq<word>)
    requires Crc32.Update(Crc32.INITIAL, WordBytes(ws)) == 0xF37E_2D24
    ensures Crc32.Update(Crc32.INITIAL, WordBytes(ws + [IDLE])) == 0x8ACD_1A04
  {
    hide Crc32.Update, WordBytes;
    assert LittleEndian(IDLE) == [0x00, 0x00, 0x00, 0x00];
    assert Crc32.ByteStep(0xF37E_2D24, 0x00) == 0x3CF0_9AFC;
    assert Crc32.ByteStep(0x3CF0_9AFC, 0x00) == 0xB437_4EAD;
    assert Crc32.ByteStep(0xB437_4EAD, 0x00) == 0xA8D3_E81B;
    assert Crc32.ByteStep(0xA8D3_E81B, 0x00) == 0x8ACD_1A04;
    WordUpdate(ws, IDLE, 0x00, 0x00, 0x00, 0x00, 0xF37E_2D24, 0x3CF0_9AFC, 0xB437_4EAD, 0xA8D3_E81B, 0x8ACD_1A04);
  }

  lemma AfterActive(ws: seq<word>)
    requires Crc32.Update(Crc32.INITIAL, WordBytes(ws)) == 0x8ACD_1A04
    ensures Crc32.Update(Crc32.INITIAL, WordBytes(ws + [ACTIVE])) == 0xB216_BC71
  {
    hide Crc32.Update, WordBytes;
    assert LittleEndian(ACTIVE) == [0x58, 0x1F, 0x35, 0x8C];
    assert Crc32.ByteStep(0x8ACD_1A04, 0x58) == 0x6257_D0C5;
    assert Crc32.ByteStep(0x6257_D0C5, 0x1F) == 0x6664_6C1A;
    assert Crc32.ByteStep(0x6664_6C1A, 0x35) == 0xABB7_5935;
    assert Crc32.ByteStep(0xABB7_5935, 0x8C) == 0xB216_BC71;
    WordUpdate(ws, ACTIVE, 0x58, 0x1F, 0x35, 0x8C, 0x8ACD_1A04, 0x6257_D0C5, 0x6664_6C1A, 0xABB7_5935, 0xB216_BC71);
  }

  lemma AfterPending(ws: seq<word>)
    requires Crc32.Update(Crc32.INITIAL, WordBytes(ws)) == 0xB216_BC71
    ensures Crc32.Update(Crc32.INITIAL, WordBytes(ws + [0])) == 0x2630_A7FA
  {
    hide Crc32.Update, WordBytes;
    assert LittleEndian(0) == [0x00, 0x00, 0x00, 0x00];
    assert Crc32.ByteStep(0xB216_BC71, 0x00) == 0x27B0_5716;
    assert Crc32.ByteStep(0x27B0_5716, 0x00) == 0xF4F3_0506;
    assert Crc32.ByteStep(0xF4F3_0506, 0x00) == 0xE997_5630;
    assert Crc32.ByteStep(0xE997_5630, 0x00) == 0x2630_A7FA;
    WordUpdate(ws, 0, 0x00, 0x00, 0x00, 0x00, 0xB216_BC71, 0x27B0_5716, 0xF4F3_0506, 0xE997_5630, 0x2630_A7FA);
  }

  lemma AfterId(ws: seq<word>)
    requires Crc32.Update(Crc32.INITIAL, WordBytes(ws)) == 0x2630_A7FA
    ensures Crc32.Update(Crc32.INITIAL, WordBytes(ws + [0])) == 0x38A7_0E28
  {
    hide Crc32.Update, WordBytes;
    assert LittleEndian(0) == [0x00, 0x00, 0x00, 0x00];
    assert Crc32.ByteStep(0x2630_A7FA, 0x00) == 0x5D4E_2BA5;
    assert Crc32.ByteStep(0x5D4E_2BA5, 0x00) == 0xA6E1_194C;
    assert Crc32.ByteStep(0xA6E1_194C, 0x00) == 0x7FCC_ECA2;
    assert Crc32.ByteStep(0x7FCC_ECA2, 0x00) == 0x38A7_0E28;
    WordUpdate(ws, 0, 0x00, 0x00, 0x00, 0x00, 0x2630_A7FA, 0x5D4E_2BA5, 0xA6E1_194C, 0x7FCC_ECA2, 0x38A7_0E28);
  }

  lemma AfterReceived(ws: seq<word>)
    requires Crc32.Update(Crc32.INITIAL, WordBytes(ws)) == 0x38A7_0E28
    ensures Crc32.Update(Crc32.INITIAL, WordBytes(ws + [0])) == 0xA65C_386B
  {
    hide Crc32.Update, WordBytes;
    assert LittleEndian(0) == [0x00, 0x00, 0x00, 0x00];
    assert Crc32.ByteStep(0x38A7_0E28, 0x00) == 0x358D_0FF4;
    assert Crc32.ByteStep(0x358D_0FF4, 0x00) == 0xBAE5_BB0A;
    assert Crc32.ByteStep(0xBAE5_BB0A, 0x00) == 0xE06F_0CA5;
    assert Crc32.ByteStep(0xE06F_0CA5, 0x00) == 0xA65C_386B;
    WordUpdate(ws, 0, 0x00, 0x00, 0x00, 0x00, 0x38A7_0E28, 0x358D_0FF4, 0xBAE5_BB0A, 0xE06F_0CA5, 0xA65C_386B);
  }

  lemma AfterExpected(ws: seq<word>)
    requires Crc32.Update(Crc32.INITIAL, WordBytes(ws)) == 0xA65C_386B
    ensures Crc32.Update(Crc32.INITIAL, WordBytes(ws + [0])) == 0xEFE4_D0AF
  {
    hide Crc32.Update, WordBytes;
    assert LittleEndian(0) == [0x00, 0x00, 0x00, 0x00];
    assert Crc32.ByteStep(0xA65C_386B, 0x00) == 0xDAC6_E4E8;
    assert Crc32.ByteStep(0xDAC6_E4E8, 0x00) == 0xAE0B_ACAE;
    assert Crc32.ByteStep(0xAE0B_ACAE, 0x00) == 0x31C0_8543;
    assert Crc32.ByteStep(0x31C0_8543, 0x00) == 0xEFE4_D0AF;
    WordUpdate(ws, 0, 0x00, 0x00, 0x00, 0x00, 0xA65C_386B, 0xDAC6_E4E8, 0xAE0B_ACAE, 0x31C0_8543, 0xEFE4_D0AF);
  }

  lemma AfterOffset(ws: seq<word>)
    requires Crc32.Update(Crc32.INITIAL, WordBytes(ws)) == 0xEFE4_D0AF
    ensures Crc32.Update(Crc32.INITIAL, WordBytes(ws + [0])) == 0x9226_F562
  {
    hide Crc32.Update, WordBytes;
    assert LittleEndian(0) == [0x00, 0x00, 0x00, 0x00];
    assert Crc32.ByteStep(0xEFE4_D0AF, 0x00) == 0x4686_5AA9;
    assert Crc32.ByteStep(0x4686_5AA9, 0x00) == 0xAF4C_9D16;
    assert Crc32.ByteStep(0xAF4C_9D16, 0x00) == 0xF47B_F9CC;
    assert Crc32.ByteStep(0xF47B_F9CC, 0x00) == 0x9226_F562;
    WordUpdate(ws, 0, 0x00, 0x00, 0x00, 0x00, 0xEFE4_D0AF, 0x4686_5AA9, 0xAF4C_9D16, 0xF47B_F9CC, 0x9226_F562);
  }

  lemma AfterAttempts(ws: seq<word>)
    requires Crc32.Update(Crc32.INITIAL, WordBytes(ws)) == 0x9226_F562
    ensures Crc32.Update(Crc32.INITIAL, WordBytes(ws + [0])) == 0xFFFF_FFFF
  {
    hide Crc32.Update, WordBytes;
    assert LittleEndian(0) == [0x00, 0x00, 0x00, 0x00];
    assert Crc32.ByteStep(0x9226_F562, 0x00) == 0xA32E_2681;
    assert Crc32.ByteStep(0xA32E_2681, 0x00) == 0x9A1C_9D90;
    assert Crc32.ByteStep(0x9A1C_9D90, 0x00) == 0xF095_8FD9;
    assert Crc32.ByteStep(0xF095_8FD9, 0x00) == 0xFFFF_FFFF;
    WordUpdate(ws, 0, 0x00, 0x00, 0x00, 0x00, 0x9226_F562, 0xA32E_2681, 0x9A1C_9D90, 0xF095_8FD9, 0xFFFF_FFFF);
  }

  lemma AfterError(ws: seq<word>)
    requires Crc32.Update(Crc32.INITIAL, WordBytes(ws)) == 0xFFFF_FFFF
    ensures Crc32.Update(Crc32.INITIAL, WordBytes(ws + [0xFFFF_FFFF])) == 0x0000_0000
  {
    hide Crc32.Update, WordBytes;
    assert LittleEndian(0xFFFF_FFFF) == [0xFF, 0xFF, 0xFF, 0xFF];
    assert Crc32.ByteStep(0xFFFF_FFFF, 0xFF) == 0x00FF_FFFF;
    assert Crc32.ByteStep(0x00FF_FFFF, 0xFF) == 0x0000_FFFF;
    assert Crc32.ByteStep(0x0000_FFFF, 0xFF) == 0x0000_00FF;
    assert Crc32.ByteStep(0x0000_00FF, 0xFF) == 0x0000_0000;
    WordUpdate(ws, 0xFFFF_FFFF, 0xFF, 0xFF, 0xFF, 0xFF, 0xFFFF_FFFF, 0x00FF_FFFF, 0x0000_FFFF, 0x0000_00FF,
               0x0000_0000);
  }

  /** The checksum of the torn body, word by word. */
  lemma TornChecksum()
    ensures CalculateCrc(RECORD.(lastError := 0xFFFF_FFFF)) == 0xFFFF_FFFF
  {
    hide Crc32.Update, WordBytes;
    NoWords();
    AfterMagic([]);
    assert [] + [MAGIC] == [MAGIC];
    AfterGeneration([MAGIC]);
    assert [MAGIC] + [1] == [MAGIC, 1];
    AfterVersion([MAGIC, 1]);
    assert [MAGIC, 1] + [1] == [MAGIC, 1, 1];
    AfterState([MAGIC, 1, 1]);
    assert [MAGIC, 1, 1] + [IDLE] == [MAGIC, 1, 1, IDLE];
    AfterActive([MAGIC, 1, 1, IDLE]);
    assert [MAGIC, 1, 1, IDLE] + [ACTIVE] == [MAGIC, 1, 1, IDLE, ACTIVE];
    AfterPending([MAGIC, 1, 1, IDLE, ACTIVE]);
    assert [MAGIC, 1, 1, IDLE, ACTIVE] + [0] == [MAGIC, 1, 1, IDLE, ACTIVE, 0];
    AfterId([MAGIC, 1, 1, IDLE, ACTIVE, 0]);
    assert [MAGIC, 1, 1, IDLE, ACTIVE, 0] + [0] == [MAGIC, 1, 1, IDLE, ACTIVE, 0, 0];
    AfterReceived([MAGIC, 1, 1, IDLE, ACTIVE, 0, 0]);
    assert [MAGIC, 1, 1, IDLE, ACTIVE, 0, 0] + [0] == [MAGIC, 1, 1, IDLE, ACTIVE, 0, 0, 0];
    AfterExpected([MAGIC, 1, 1, IDLE, ACTIVE, 0, 0, 0]);
    assert [MAGIC, 1, 1, IDLE, ACTIVE, 0, 0, 0] + [0] == [MAGIC, 1, 1, IDLE, ACTIVE, 0, 0, 0, 0];
    AfterOffset([MAGIC, 1, 1, IDLE, ACTIVE, 0, 0, 0, 0]);
    assert [MAGIC, 1, 1, IDLE, ACTIVE, 0, 0, 0, 0] + [0] == [MAGIC, 1, 1, IDLE, ACTIVE, 0, 0, 0, 0, 0];
    AfterAttempts([MAGIC, 1, 1, IDLE, ACTIVE, 0, 0, 0, 0, 0]);
    assert [MAGIC, 1, 1, IDLE, ACTIVE, 0, 0, 0, 0, 0] + [0] == [MAGIC, 1, 1, IDLE, ACTIVE, 0, 0, 0, 0, 0, 0];
    AfterError([MAGIC, 1, 1, IDLE, ACTIVE, 0, 0, 0, 0, 0, 0]);
    assert [MAGIC, 1, 1, IDLE, ACTIVE, 0, 0, 0, 0, 0, 0] + [0xFFFF_FFFF] ==
        [MAGIC, 1, 1, IDLE, ACTIVE, 0, 0, 0, 0, 0, 0, 0xFFFF_FFFF];
  }

  lemma NoWords()
    ensures Crc32.Update(Crc32.INITIAL, WordBytes([])) == 0xFFFF_FFFF
  {
  }

  /** The page after 22 half-words: everything but last_error and the checksum is in place. */
  lemma TornPage(m: Metadata)
    ensures Decode(Torn(m, 22)) == m.(lastError := 0xFFFF_FFFF, crc32 := 0xFFFF_FFFF)
  {
    hide Torn, Field;
    forall i | 0 <= i < 13 ensures Field(Torn(m, 22), i) == if i < 11 then Body(m)[i] else 0xFFFF_FFFF {
      TornField(m, 22, i);
    }
  }

  /** The concrete collision. */
  lemma TornRecordAccepted()
    ensures IsValid(Finalize(RECORD)) && Collides(Finalize(RECORD), 22)
  {
    hide CalculateCrc, Torn, Decode;
    var m := Finalize(RECORD);
    TornChecksum();
    TornPage(m);
    SameBody(Decode(Torn(m, 22)), RECORD.(lastError := 0xFFFF_FFFF));
    SameBody(m, RECORD);
  }
}
