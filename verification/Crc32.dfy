/** The reflected IEEE CRC-32 of shared/src/crc32.c and of the gateway's uart_ota_protocol.c. */
module Crc32 {
  import opened Bytes

  const POLYNOMIAL: bv32 := 0xEDB8_8320
  const INITIAL: bv32 := 0xFFFF_FFFF
  const FINAL_XOR: bv32 := 0xFFFF_FFFF

  /** A byte in the low bits of a register. */
  function Wide(b: byte): bv32 { (b as bv8) as bv32 }

  /** Division by the polynomial, one bit: a conditional exclusive-or. */
  function BitStep(c: bv32): bv32 { if c & 1 == 1 then (c >> 1) ^ POLYNOMIAL else c >> 1 }

  function BitSteps(c: bv32, n: nat): bv32 { if n == 0 then c else BitStep(BitSteps(c, n - 1)) }

  function Xor(x: bv32, y: bv32): bv32 { x ^ y }

  function ByteStep(c: bv32, b: byte): bv32 { BitSteps(Xor(c, Wide(b)), 8) }

  /** The register after `data`. */
  function Update(c: bv32, data: seq<byte>): bv32 {
    if data == [] then c else ByteStep(Update(c, data[..|data| - 1]), data[|data| - 1])
  }

  function Calculate(data: seq<byte>): bv32 { Xor(Update(INITIAL, data), FINAL_XOR) }

  /** The same as an unsigned word. */
  function Checksum(data: seq<byte>): word { Calculate(data) as int }

  // ----- the loops -------------------------------------------------------------------------

  /** The branch-free form: the mask is all ones exactly when the low bit is set. */
  function MaskedStep(c: bv32): bv32 { (c >> 1) ^ (POLYNOMIAL & (0 - (c & 1))) }

  lemma MaskStep(c: bv32)
    ensures MaskedStep(c) == BitStep(c)
  {
    LowBit(c);
    if c & 1 == 1 { MaskOne(c); } else { MaskZero(c); }
  }

  lemma LowBit(c: bv32) ensures c & 1 == 0 || c & 1 == 1 {}

  lemma MaskZero(c: bv32)
    requires c & 1 == 0
    ensures (c >> 1) ^ (POLYNOMIAL & (0 - (c & 1))) == c >> 1
  {}

  lemma MaskOne(c: bv32)
    requires c & 1 == 1
    ensures (c >> 1) ^ (POLYNOMIAL & (0 - (c & 1))) == (c >> 1) ^ POLYNOMIAL
  {}

  /** Crc32_Update. */
  method UpdateLoop(running: bv32, data: seq<byte>) returns (crc: bv32)
    ensures crc == Update(running, data)
  {
    hide BitStep, MaskedStep, Wide, Xor, Update, ByteStep;
    crc := running;
    UpdateNothing(crc);
    for index := 0 to |data|
      invariant crc == Update(running, data[..index])
    {
      UpdateNext(running, data, index);
      crc := Xor(crc, Wide(data[index]));
      ghost var start := crc;
      for bit := 0 to 8
        invariant crc == BitSteps(start, bit)
      {
        MaskStep(crc);
        crc := MaskedStep(crc);
      }
    }
    assert data[..|data|] == data;
  }

  /** UartOta_Crc32: the gateway's own loops. */
  method GatewayCrc32(data: seq<byte>) returns (crc: bv32)
    ensures crc == Calculate(data)
  {
    hide BitStep, MaskedStep, Wide, Xor, Update, ByteStep;
    crc := INITIAL;
    UpdateNothing(crc);
    var i := 0;
    while i < |data|
      invariant 0 <= i <= |data| && crc == Update(INITIAL, data[..i])
    {
      UpdateNext(INITIAL, data, i);
      crc := Xor(crc, Wide(data[i]));
      ghost var start := crc;
      var left := 8;
      while left > 0
        invariant 0 <= left <= 8 && crc == BitSteps(start, 8 - left)
      {
        MaskStep(crc);
        crc := MaskedStep(crc);
        left := left - 1;
      }
      i := i + 1;
    }
    assert data[..i] == data;
    crc := Xor(crc, FINAL_XOR);
  }

  lemma UpdateNext(c: bv32, data: seq<byte>, i: nat)
    requires i < |data|
    ensures Update(c, data[..i + 1]) == BitSteps(Xor(Update(c, data[..i]), Wide(data[i])), 8)
  {
    hide Wide, BitSteps, Xor;
    assert data[..i + 1][..i] == data[..i];
  }

  /** Updating over two chunks is updating over their concatenation. */
  lemma {:induction false} UpdateConcat(c: bv32, a: seq<byte>, b: seq<byte>)
    ensures Update(c, a + b) == Update(Update(c, a), b)
  {
    hide ByteStep;
    if b == [] {
      assert a + b == a;
    } else {
      UpdateConcat(c, a, b[..|b| - 1]);
      assert (a + b)[..|a + b| - 1] == a + b[..|b| - 1];
    }
  }

  /** Any split into chunks gives the one-pass register. */
  function UpdateChunks(c: bv32, chunks: seq<seq<byte>>): bv32
    decreases |chunks|
  {
    if chunks == [] then c else UpdateChunks(Update(c, chunks[0]), chunks[1..])
  }

  function Concat(chunks: seq<seq<byte>>): seq<byte> {
    if chunks == [] then [] else chunks[0] + Concat(chunks[1..])
  }

  lemma {:induction false} ChunksAgree(c: bv32, chunks: seq<seq<byte>>)
    ensures UpdateChunks(c, chunks) == Update(c, Concat(chunks))
    decreases |chunks|
  {
    hide Update;
    if chunks != [] {
      ChunksAgree(Update(c, chunks[0]), chunks[1..]);
      UpdateConcat(c, chunks[0], Concat(chunks[1..]));
    } else {
      UpdateNothing(c);
    }
  }

  lemma UpdateNothing(c: bv32) ensures Update(c, []) == c {}

  // ----- what the checksum detects ---------------------------------------------------------

  predicate Odd(c: bv32) { c & 1 == 1 }

  lemma InjectiveOddOdd(x: bv32, y: bv32)
    requires Odd(x) && Odd(y) && BitStep(x) == BitStep(y)
    ensures x == y
  {}

  lemma InjectiveEvenEven(x: bv32, y: bv32)
    requires !Odd(x) && !Odd(y) && BitStep(x) == BitStep(y)
    ensures x == y
  {}

  /** The polynomial has its top bit set and a shift clears it. */
  lemma InjectiveMixed(x: bv32, y: bv32)
    requires Odd(x) && !Odd(y)
    ensures BitStep(x) != BitStep(y)
  {}

  /** So a step never confuses two registers. */
  lemma StepInjective(x: bv32, y: bv32)
    requires BitStep(x) == BitStep(y)
    ensures x == y
  {
    hide Odd, BitStep;
    if Odd(x) && Odd(y) {
      InjectiveOddOdd(x, y);
    } else if Odd(x) {
      InjectiveMixed(x, y);
    } else if Odd(y) {
      InjectiveMixed(y, x);
    } else {
      InjectiveEvenEven(x, y);
    }
  }

  lemma {:induction false} StepsInjective(x: bv32, y: bv32, n: nat)
    requires BitSteps(x, n) == BitSteps(y, n)
    ensures x == y
  {
    hide BitStep;
    if n > 0 {
      StepInjective(BitSteps(x, n - 1), BitSteps(y, n - 1));
      StepsInjective(x, y, n - 1);
    }
  }

  lemma XorCancel(x: bv32, y: bv32, z: bv32)
    requires Xor(x, z) == Xor(y, z)
    ensures x == y
  {}

  lemma {:induction false} UpdateInjective(x: bv32, y: bv32, data: seq<byte>)
    requires Update(x, data) == Update(y, data)
    ensures x == y
  {
    hide BitSteps, Wide, Xor;
    if data != [] {
      var front, b := data[..|data| - 1], Wide(data[|data| - 1]);
      StepsInjective(Xor(Update(x, front), b), Xor(Update(y, front), b), 8);
      XorCancel(Update(x, front), Update(y, front), b);
      UpdateInjective(x, y, front);
    }
  }

  lemma LinearOddOdd(x: bv32, y: bv32)
    requires Odd(x) && Odd(y)
    ensures BitStep(Xor(x, y)) == Xor(BitStep(x), BitStep(y))
  {}

  lemma XorCommutes(x: bv32, y: bv32) ensures Xor(x, y) == Xor(y, x) {}

  lemma LinearEvenOdd(x: bv32, y: bv32)
    requires !Odd(x) && Odd(y)
    ensures BitStep(Xor(x, y)) == Xor(BitStep(x), BitStep(y))
  {}

  lemma LinearEvenEven(x: bv32, y: bv32)
    requires !Odd(x) && !Odd(y)
    ensures BitStep(Xor(x, y)) == Xor(BitStep(x), BitStep(y))
  {}

  lemma StepLinear(x: bv32, y: bv32)
    ensures BitStep(Xor(x, y)) == Xor(BitStep(x), BitStep(y))
  {
    hide Odd, BitStep, Xor;
    if Odd(x) && Odd(y) {
      LinearOddOdd(x, y);
    } else if Odd(x) {
      XorCommutes(x, y);
      XorCommutes(BitStep(x), BitStep(y));
      LinearEvenOdd(y, x);
    } else if Odd(y) {
      LinearEvenOdd(x, y);
    } else {
      LinearEvenEven(x, y);
    }
  }

  lemma {:induction false} StepsLinear(x: bv32, y: bv32, n: nat)
    ensures BitSteps(Xor(x, y), n) == Xor(BitSteps(x, n), BitSteps(y, n))
  {
    hide BitStep, Xor;
    if n > 0 {
      StepsLinear(x, y, n - 1);
      StepLinear(BitSteps(x, n - 1), BitSteps(y, n - 1));
    }
  }

  lemma {:induction false} StepsAdd(x: bv32, m: nat, n: nat)
    ensures BitSteps(BitSteps(x, m), n) == BitSteps(x, m + n)
  {
    hide BitStep;
    if n > 0 { StepsAdd(x, m, n - 1); }
  }

  /** A register with its top byte clear. */
  predicate Low24(z: bv32) { z & 0xFF00_0000 == 0 }

  lemma Down8(z: bv32) requires Low24(z) ensures BitStep(z << 8) == z << 7 {}
  lemma Down7(z: bv32) requires Low24(z) ensures BitStep(z << 7) == z << 6 {}
  lemma Down6(z: bv32) requires Low24(z) ensures BitStep(z << 6) == z << 5 {}
  lemma Down5(z: bv32) requires Low24(z) ensures BitStep(z << 5) == z << 4 {}
  lemma Down4(z: bv32) requires Low24(z) ensures BitStep(z << 4) == z << 3 {}
  lemma Down3(z: bv32) requires Low24(z) ensures BitStep(z << 3) == z << 2 {}
  lemma Down2(z: bv32) requires Low24(z) ensures BitStep(z << 2) == z << 1 {}
  lemma Down1(z: bv32) requires Low24(z) ensures BitStep(z << 1) == z {}

  /** Eight steps of a register whose low byte is zero only shift it. */
  lemma ShiftByte(z: bv32)
    requires Low24(z)
    ensures BitSteps(z << 8, 8) == z
  {
    hide BitStep, Low24;
    Down8(z); Down7(z); Down6(z); Down5(z); Down4(z); Down3(z); Down2(z); Down1(z);
    var x := z << 8;
    assert BitSteps(x, 1) == z << 7;
    assert BitSteps(x, 2) == z << 6;
    assert BitSteps(x, 3) == z << 5;
    assert BitSteps(x, 4) == z << 4;
    assert BitSteps(x, 5) == z << 3;
    assert BitSteps(x, 6) == z << 2;
    assert BitSteps(x, 7) == z << 1;
  }

  /** A byte moved up by `n` bytes. */
  function Place(b: byte, n: nat): bv32
    requires n < 4
  {
    if n == 0 then Wide(b) else if n == 1 then Wide(b) << 8 else if n == 2 then Wide(b) << 16 else Wide(b) << 24
  }

  /** The bytes of a window as one register, the first in the low bits. */
  function Window(w: seq<byte>): bv32
    requires |w| <= 4
  {
    if w == [] then 0 else Xor(Window(w[..|w| - 1]), Place(w[|w| - 1], |w| - 1))
  }

  lemma WideLow(b: byte)
    ensures var x := Wide(b);
            && Low24(x) && Low24(x << 8) && Low24(x << 16)
            && (x << 8) << 8 == x << 16 && (x << 16) << 8 == x << 24
  {}

  lemma PlaceFalls(b: byte, n: nat)
    requires n < 4
    ensures BitSteps(Place(b, n), 8 * n) == Wide(b)
  {
    hide BitSteps, Wide, Low24;
    var x := Wide(b);
    WideLow(b);
    if n == 0 {
      StepsNone(x);
    } else {
      ShiftByte(x);
      if n > 1 {
        ShiftByte(x << 8);
        StepsAdd(x << 16, 8, 8);
      }
      if n > 2 {
        ShiftByte(x << 16);
        StepsAdd(x << 24, 8, 16);
      }
    }
  }

  lemma StepsNone(x: bv32) ensures BitSteps(x, 0) == x {}

  lemma XorAssociates(x: bv32, y: bv32, z: bv32) ensures Xor(Xor(x, y), z) == Xor(x, Xor(y, z)) {}
  lemma XorZero(x: bv32) ensures Xor(x, 0) == x {}

  /** A short run of bytes enters the register all at once. */
  lemma {:induction false} WindowUpdate(c: bv32, w: seq<byte>)
    requires |w| <= 4
    ensures Update(c, w) == BitSteps(Xor(c, Window(w)), 8 * |w|)
  {
    hide Xor, Wide, BitSteps, Place;
    if w == [] {
      XorZero(c);
      StepsNone(c);
    } else {
      var n := |w| - 1;
      var front, b := w[..n], w[n];
      var x := Xor(c, Window(front));
      WindowUpdate(c, front);
      PlaceFalls(b, n);
      StepsLinear(x, Place(b, n), 8 * n);
      StepsAdd(Xor(x, Place(b, n)), 8 * n, 8);
      XorAssociates(c, Window(front), Place(b, n));
    }
  }

  /** No bits at or above byte `n`. */
  predicate Below(x: bv32, n: nat) {
    if n == 0 then x == 0 else if n == 1 then x & 0xFFFF_FF00 == 0
    else if n == 2 then x & 0xFFFF_0000 == 0 else if n == 3 then x & 0xFF00_0000 == 0 else true
  }

  lemma PlaceBelow0(x: bv32, b: byte) requires x == 0 ensures Xor(x, Wide(b)) & 0xFFFF_FF00 == 0 {}
  lemma PlaceBelow1(x: bv32, b: byte) requires x & 0xFFFF_FF00 == 0 ensures Xor(x, Wide(b) << 8) & 0xFFFF_0000 == 0 {}
  lemma PlaceBelow2(x: bv32, b: byte) requires x & 0xFFFF_0000 == 0 ensures Xor(x, Wide(b) << 16) & 0xFF00_0000 == 0 {}

  lemma PlaceBelow(x: bv32, b: byte, n: nat)
    requires n < 4 && Below(x, n)
    ensures Below(Xor(x, Place(b, n)), n + 1)
  {
    hide Xor, Wide;
    if n == 0 { PlaceBelow0(x, b); }
    if n == 1 { PlaceBelow1(x, b); }
    if n == 2 { PlaceBelow2(x, b); }
  }

  lemma {:induction false} WindowBelow(w: seq<byte>)
    requires |w| <= 4
    ensures Below(Window(w), |w|)
  {
    hide Xor, Wide, Place;
    if w != [] {
      WindowBelow(w[..|w| - 1]);
      PlaceBelow(Window(w[..|w| - 1]), w[|w| - 1], |w| - 1);
    }
  }

  /** The bits below byte `n` and the byte above them do not mix. */
  lemma Split(x: bv32, y: bv32, a: byte, b: byte, n: nat)
    requires n < 4 && Below(x, n) && Below(y, n) && Xor(x, Place(a, n)) == Xor(y, Place(b, n))
    ensures x == y && Wide(a) == Wide(b)
  {
    hide Xor, Wide, Place, Below;
    if n == 0 { Split0(x, y, a, b); }
    if n == 1 { Split1(x, y, a, b); }
    if n == 2 { Split2(x, y, a, b); }
    if n == 3 { Split3(x, y, a, b); }
  }

  lemma Split0(x: bv32, y: bv32, a: byte, b: byte)
    requires Below(x, 0) && Below(y, 0) && Xor(x, Place(a, 0)) == Xor(y, Place(b, 0))
    ensures x == y && Wide(a) == Wide(b)
  {}

  lemma Split1(x: bv32, y: bv32, a: byte, b: byte)
    requires Below(x, 1) && Below(y, 1) && Xor(x, Place(a, 1)) == Xor(y, Place(b, 1))
    ensures x == y && Wide(a) == Wide(b)
  {}

  lemma Split2(x: bv32, y: bv32, a: byte, b: byte)
    requires Below(x, 2) && Below(y, 2) && Xor(x, Place(a, 2)) == Xor(y, Place(b, 2))
    ensures x == y && Wide(a) == Wide(b)
  {}

  lemma Split3(x: bv32, y: bv32, a: byte, b: byte)
    requires Below(x, 3) && Below(y, 3) && Xor(x, Place(a, 3)) == Xor(y, Place(b, 3))
    ensures x == y && Wide(a) == Wide(b)
  {}

  lemma Successor(v: bv8) requires v != 0xFF ensures (v + 1) as int == v as int + 1 {}
  lemma BitsBack(v: bv8) ensures (v as int) as bv8 == v {}

  /** Counting up reaches every byte, so the conversion to bits loses none. */
  lemma {:induction false} Counted(b: byte) returns (v: bv8)
    ensures v as int == b
  {
    if b == 0 { return 0; }
    var u := Counted(b - 1);
    Successor(u);
    v := u + 1;
  }

  lemma ByteBack(b: byte)
    ensures (b as bv8) as int == b
  {
    var v := Counted(b);
    BitsBack(v);
  }

  lemma Narrow(x: bv8, y: bv8) requires x as bv32 == y as bv32 ensures x == y {}

  lemma WideInjective(a: byte, b: byte)
    requires Wide(a) == Wide(b)
    ensures a == b
  {
    Narrow(a as bv8, b as bv8);
    ByteBack(a);
    ByteBack(b);
  }

  lemma {:induction false} WindowInjective(v: seq<byte>, w: seq<byte>)
    requires |v| == |w| <= 4 && Window(v) == Window(w)
    ensures v == w
  {
    hide Xor, Wide, Place, Below;
    if v != [] {
      var n := |v| - 1;
      WindowBelow(v[..n]);
      WindowBelow(w[..n]);
      Split(Window(v[..n]), Window(w[..n]), v[n], w[n], n);
      WideInjective(v[n], w[n]);
      WindowInjective(v[..n], w[..n]);
      assert v == v[..n] + [v[n]] && w == w[..n] + [w[n]];
    }
  }

  lemma CalculateInjective(m: seq<byte>, m': seq<byte>)
    requires Calculate(m) == Calculate(m')
    ensures Update(INITIAL, m) == Update(INITIAL, m')
  {
    hide Update, Xor;
    XorCancel(Update(INITIAL, m), Update(INITIAL, m'), FINAL_XOR);
  }

  /** Two messages that differ only inside a window of four bytes never have the same checksum. */
  lemma BurstDetected(before: seq<byte>, v: seq<byte>, w: seq<byte>, after: seq<byte>)
    requires |v| == |w| <= 4 && v != w
    ensures Calculate(before + v + after) != Calculate(before + w + after)
  {
    hide Update, Xor, Window, BitSteps, Calculate;
    if Calculate(before + v + after) == Calculate(before + w + after) {
      var c := Update(INITIAL, before);
      CalculateInjective(before + v + after, before + w + after);
      UpdateConcat(INITIAL, before, v);
      UpdateConcat(INITIAL, before + v, after);
      UpdateConcat(INITIAL, before, w);
      UpdateConcat(INITIAL, before + w, after);
      UpdateInjective(Update(c, v), Update(c, w), after);
      WindowUpdate(c, v);
      WindowUpdate(c, w);
      StepsInjective(Xor(c, Window(v)), Xor(c, Window(w)), 8 * |v|);
      XorCommutes(c, Window(v));
      XorCommutes(c, Window(w));
      XorCancel(Window(v), Window(w), c);
      WindowInjective(v, w);
    }
  }
}
