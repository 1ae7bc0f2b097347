/** Residues, bits and powers: what the modular routines of ecdsa_p256.c rest on. */
module Residues {

  lemma Distribute(a: int, b: int, c: int)
    ensures a * (b + c) == a * b + a * c
  {
  }

  lemma Associate(a: int, b: int, c: int)
    ensures a * (b * c) == (a * b) * c
  {
  }

  lemma Grows(m: int, d: int)
    requires m > 0
    ensures d >= 1 ==> m * d >= m
    ensures d <= -1 ==> m * d <= -m
    ensures d >= 0 ==> m * d >= 0
  {
  }

  lemma Monotone(m: int, a: int, b: int)
    requires m >= 0 && a <= b
    ensures m * a <= m * b
  {
  }

  lemma Divided(a: int, m: int)
    requires m > 0
    ensures a == m * (a / m) + a % m && 0 <= a % m < m
  {
  }

  /** Quotient and remainder are the only numbers of their kind. */
  lemma Unique(a: int, m: int, q: int, r: int)
    requires m > 0 && a == m * q + r && 0 <= r < m
    ensures a / m == q && a % m == r
  {
    Divided(a, m);
    Distribute(m, a / m, q - a / m);
    Grows(m, q - a / m);
  }

  lemma SumMod(x: int, y: int, m: int)
    requires m > 0
    ensures (x % m + y % m) % m == (x + y) % m
  {
    var s := x % m + y % m;
    Divided(x, m);
    Divided(y, m);
    Divided(s, m);
    Distribute(m, x / m, y / m);
    Distribute(m, x / m + y / m, s / m);
    Unique(x + y, m, x / m + y / m + s / m, s % m);
  }

  lemma DifferenceMod(x: int, y: int, m: int)
    requires m > 0
    ensures (x % m - y % m) % m == (x - y) % m
  {
    var s := x % m - y % m;
    Divided(x, m);
    Divided(y, m);
    Divided(s, m);
    Distribute(m, x / m, -(y / m));
    Distribute(m, x / m - y / m, s / m);
    Distribute(m, y / m, -(y / m));
    Unique(x - y, m, x / m - y / m + s / m, s % m);
  }

  lemma FactorMod(x: int, y: int, m: int)
    requires m > 0
    ensures (x % m * y) % m == (x * y) % m
  {
    var q, r := x / m, x % m;
    var s := r * y;
    Divided(x, m);
    Divided(s, m);
    assert x * y == m * (q * y) + s by {
      Distribute(y, m * q, r);
      Associate(m, q, y);
    }
    Distribute(m, q * y, s / m);
    Unique(x * y, m, q * y + s / m, s % m);
  }

  lemma FactorModRight(x: int, y: int, m: int)
    requires m > 0
    ensures (y * (x % m)) % m == (y * x) % m
  {
    FactorMod(x, y, m);
    Commute(y, x % m);
    Commute(y, x);
  }

  lemma Commute(a: int, b: int)
    ensures a * b == b * a
  {
  }

  lemma ProductMod(x: int, y: int, m: int)
    requires m > 0
    ensures (x % m * (y % m)) % m == (x * y) % m
  {
    FactorMod(x, y % m, m);
    FactorMod(y, x, m);
  }

  // ----- powers of two and bits ------------------------------------------------------------

  function Pow2(n: nat): (r: nat)
    ensures r > 0
  {
    if n == 0 then 1 else 2 * Pow2(n - 1)
  }

  lemma {:induction false} Pow2Sum(a: nat, b: nat)
    ensures Pow2(a + b) == Pow2(a) * Pow2(b)
    decreases b
  {
    if b > 0 {
      Pow2Sum(a, b - 1);
      Associate(2, Pow2(a), Pow2(b - 1));
      Associate(Pow2(a), 2, Pow2(b - 1));
    }
  }

  lemma DivideByProduct(a: nat, b: nat, c: nat)
    requires b > 0 && c > 0
    ensures b * c > 0 && a / (b * c) == a / b / c
  {
    var q := a / b;
    Divided(a, b);
    Divided(q, c);
    Grows(b, c);
    Distribute(b, c * (q / c), q % c);
    Associate(b, c, q / c);
    Monotone(b, q % c, c - 1);
    Grows(b, q % c);
    Distribute(b, c, -1);
    Unique(a, b * c, q / c, b * (q % c) + a % b);
  }

  /** Bit `k` of a number. */
  function BitOf(n: nat, k: nat): nat { n / Pow2(k) % 2 }

  /** The low `k + 1` bits are the low `k` bits and bit `k`. */
  lemma LowBits(n: nat, k: nat)
    ensures n % Pow2(k + 1) == n % Pow2(k) + BitOf(n, k) * Pow2(k)
  {
    var p, a := Pow2(k), n / Pow2(k);
    Divided(n, p);
    Divided(a, 2);
    Distribute(p, 2 * (a / 2), a % 2);
    Associate(p, 2, a / 2);
    Monotone(p, a % 2, 1);
    Grows(p, a % 2);
    Unique(n, 2 * p, a / 2, n % p + a % 2 * p);
  }

  /** The bits from `k` up are twice those above and bit `k`. */
  lemma HighBits(n: nat, k: nat)
    ensures n / Pow2(k) == 2 * (n / Pow2(k + 1)) + BitOf(n, k)
  {
    DivideByProduct(n, Pow2(k), 2);
    Divided(n / Pow2(k), 2);
  }

  // ----- powers ----------------------------------------------------------------------------

  function Power(x: int, n: nat): int { if n == 0 then 1 else x * Power(x, n - 1) }

  lemma {:induction false} PowerSum(x: int, a: nat, b: nat)
    ensures Power(x, a + b) == Power(x, a) * Power(x, b)
    decreases a
  {
    if a > 0 {
      PowerSum(x, a - 1, b);
      Associate(x, Power(x, a - 1), Power(x, b));
    }
  }
}

/** ModAdd, ModSub, ModMul and ModInverse of ecdsa_p256.c. */
module Modular {
  import opened Bytes
  import opened Limbs
  import opened Residues

  // ----- bits of limbs ---------------------------------------------------------------------

  /** U256_GetBit */
  function GetBit(s: seq<word>, bit: nat): nat
    requires bit < 32 * |s|
  {
    s[bit / 32] / Pow2(bit % 32) % 2
  }

  lemma {:induction false} Split(s: seq<word>, i: nat)
    requires i <= |s|
    ensures Value(s) == Value(s[..i]) + Weight(i) * Value(s[i..])
    decreases |s|
  {
    hide Value, Weight;
    var n := |s| - 1;
    if i == |s| {
      assert s[..i] == s && s[i..] == [];
      Empty();
    } else {
      Split(s[..n], i);
      Append(s, s[..n], s[n]);
      Append(s[i..], s[i..n], s[n]);
      assert s[..n][..i] == s[..i] && s[..n][i..] == s[i..n];
      WeightSum(i, n - i);
      Distribute(Weight(i), Value(s[i..n]), s[n] * Weight(n - i));
      Associate(Weight(i), s[n], Weight(n - i));
      Associate(s[n], Weight(i), Weight(n - i));
    }
  }

  lemma {:induction false} WeightSum(a: nat, b: nat)
    ensures Weight(a + b) == Weight(a) * Weight(b)
    decreases b
  {
    if b > 0 {
      WeightSum(a, b - 1);
      Associate(RADIX, Weight(a), Weight(b - 1));
      Associate(Weight(a), RADIX, Weight(b - 1));
    }
  }

  lemma {:induction false} WeightIsPower(n: nat)
    ensures Weight(n) == Pow2(32 * n)
  {
    if n > 0 {
      WeightIsPower(n - 1);
      Pow2Sum(32, 32 * (n - 1));
      RadixIsPower();
    }
  }

  lemma RadixIsPower()
    ensures Pow2(32) == RADIX
  {
    assert Pow2(8) == 0x100;
    Pow2Sum(8, 8);
    Pow2Sum(16, 16);
  }

  lemma Single(x: word)
    ensures Value([x]) == x
  {
    assert [x][..0] == [];
  }

  /** Shifting out the low limbs and then the low bits of a limb reaches the bit of the number. */
  lemma GetBitIs(s: seq<word>, bit: nat)
    requires bit < 32 * |s|
    ensures GetBit(s, bit) == BitOf(Value(s), bit)
  {
    hide Value, Weight, Pow2;
    var q, r := bit / 32, bit % 32;
    var high, rest := Value(s[q..]), Value(s[q + 1..]);
    Split(s, q);
    Unique(Value(s), Weight(q), high, Value(s[..q]));
    WeightIsPower(q);
    Pow2Sum(32 * q, r);
    DivideByProduct(Value(s), Weight(q), Pow2(r));
    assert s[q..][..1] == [s[q]] && s[q..][1..] == s[q + 1..];
    Split(s[q..], 1);
    Single(s[q]);
    OneLimb();
    ShiftLimb(s[q], rest, r);
  }

  lemma OneLimb()
    ensures Weight(1) == RADIX
  {
    assert Weight(0) == 1;
  }

  lemma ShiftLimb(limb: word, rest: nat, r: nat)
    requires r < 32
    ensures (limb + RADIX * rest) / Pow2(r) % 2 == limb / Pow2(r) % 2
  {
    hide Pow2;
    RadixIsPower();
    Pow2Sum(r, 32 - r);
    Twice(31 - r);
    ShiftBy(limb, rest, Pow2(r), Pow2(31 - r));
  }

  lemma ShiftBy(limb: nat, rest: nat, p: nat, t: nat)
    requires p > 0 && p * (2 * t) == RADIX
    ensures (limb + RADIX * rest) / p % 2 == limb / p % 2
  {
    var even := 2 * t * rest;
    Divided(limb, p);
    Associate(p, 2 * t, rest);
    Distribute(p, limb / p, even);
    Unique(limb + RADIX * rest, p, limb / p + even, limb % p);
    Associate(2, t, rest);
    EvenPart(limb / p, t * rest);
  }

  lemma Twice(n: nat)
    ensures Pow2(n + 1) == 2 * Pow2(n)
  {
  }

  lemma EvenPart(a: nat, b: nat)
    ensures (a + 2 * b) % 2 == a % 2
  {
  }

  // ----- addition and subtraction ----------------------------------------------------------

  predicate Numbers(a: array<word>, b: array<word>, c: array<word>, m: array<word>)
  {
    a.Length == b.Length == c.Length == m.Length == LIMBS && a != m
  }

  /** ModAdd: no 257-bit sum is formed; the result may be one of the operands. */
  method ModAdd(result: array<word>, left: array<word>, right: array<word>, modulus: array<word>)
    requires Numbers(result, left, right, modulus)
    requires Value(left[..]) < Value(modulus[..]) && Value(right[..]) < Value(modulus[..])
    modifies result
    ensures Value(result[..]) == old((Value(left[..]) + Value(right[..])) % Value(modulus[..]))
  {
    hide Value, Weight;
    ghost var l, r, m := Value(left[..]), Value(right[..]), Value(modulus[..]);
    var threshold := new word[LIMBS];
    SubRaw(threshold, modulus, right);
    var sign := Compare(left, threshold);
    if sign >= 0 {
      SubRaw(result, left, threshold);
      Unique(l + r, m, 1, l + r - m);
    } else {
      AddRaw(result, left, right);
      Unique(l + r, m, 0, l + r);
    }
  }

  /** ModSub */
  method ModSub(result: array<word>, left: array<word>, right: array<word>, modulus: array<word>)
    requires Numbers(result, left, right, modulus)
    requires Value(left[..]) < Value(modulus[..]) && Value(right[..]) < Value(modulus[..])
    modifies result
    ensures Value(result[..]) == old((Value(left[..]) - Value(right[..])) % Value(modulus[..]))
  {
    hide Value, Weight;
    ghost var l: int, r: int, m: int := Value(left[..]), Value(right[..]), Value(modulus[..]);
    var sign := Compare(left, right);
    if sign >= 0 {
      SubRaw(result, left, right);
      Unique(l - r, m, 0, l - r);
    } else {
      var difference := new word[LIMBS];
      SubRaw(difference, right, left);
      SubRaw(result, modulus, difference);
      Unique(l - r, m, -1, l - r + m);
    }
  }

  // ----- multiplication --------------------------------------------------------------------

  /** One bit of the multiplier. */
  lemma MulStep(l: nat, r: nat, m: nat, k: nat)
    requires m > 0
    ensures (l * (r % Pow2(k)) % m + l * Pow2(k) % m) % m == l * (r % Pow2(k) + Pow2(k)) % m
    ensures (l * Pow2(k) % m + l * Pow2(k) % m) % m == l * Pow2(k + 1) % m
  {
    hide Pow2;
    var low, p := r % Pow2(k), Pow2(k);
    SumMod(l * low, l * p, m);
    Distribute(l, low, p);
    SumMod(l * p, l * p, m);
    Twice(k);
    Associate(l, 2, p);
    Associate(2, l, p);
  }

  lemma BitIsSmall(r: nat, k: nat)
    ensures BitOf(r, k) == 0 || BitOf(r, k) == 1
  {
  }

  lemma LastBits(r: nat)
    requires r < Weight(LIMBS)
    ensures r % Pow2(BITS) == r
  {
    hide Weight, Pow2;
    WeightIsPower(LIMBS);
    Unique(r, Pow2(BITS), 0, r);
  }

  /** One pass of the loop of ModMul. */
  method MulBit(accumulator: array<word>, doubled: array<word>, bit: nat, one: bool, modulus: array<word>, ghost l: nat,
                ghost r: nat)
    requires accumulator.Length == doubled.Length == modulus.Length == LIMBS
    requires accumulator != doubled && accumulator != modulus && doubled != modulus
    requires bit < BITS && (one <==> BitOf(r, bit) != 0) && Value(modulus[..]) > 0
    requires Value(accumulator[..]) == l * (r % Pow2(bit)) % Value(modulus[..])
    requires Value(doubled[..]) == l * Pow2(bit) % Value(modulus[..])
    modifies accumulator, doubled
    ensures Value(accumulator[..]) == l * (r % Pow2(bit + 1)) % Value(modulus[..])
    ensures bit + 1 < BITS ==> Value(doubled[..]) == l * Pow2(bit + 1) % Value(modulus[..])
  {
    hide Value, Weight, Pow2, BitOf;
    ghost var m := Value(modulus[..]);
    LowBits(r, bit);
    MulStep(l, r, m, bit);
    BitIsSmall(r, bit);
    if one {
      var next := new word[LIMBS];
      ModAdd(next, accumulator, doubled, modulus);
      Copy(accumulator, next);
    }
    if bit + 1 < BITS {
      var next := new word[LIMBS];
      ModAdd(next, doubled, doubled, modulus);
      Copy(doubled, next);
    }
  }

  /** ModMul: double and add, from the low bit up. */
  method ModMul(result: array<word>, left: array<word>, right: array<word>, modulus: array<word>)
    requires Numbers(result, left, right, modulus)
    requires Value(left[..]) < Value(modulus[..])
    modifies result
    ensures Value(result[..]) == old(Value(left[..]) * Value(right[..]) % Value(modulus[..]))
  {
    hide Value, Weight, Pow2, BitOf;
    ghost var l, r, m := Value(left[..]), Value(right[..]), Value(modulus[..]);
    var accumulator, doubled := new word[LIMBS], new word[LIMBS];
    Clear(accumulator);
    Copy(doubled, left);
    MulStart(l, r, m);
    ghost var multiplier := right[..];
    for bit := 0 to BITS
      invariant right[..] == multiplier && Value(modulus[..]) == m
      invariant Value(accumulator[..]) == l * (r % Pow2(bit)) % m
      invariant bit < BITS ==> Value(doubled[..]) == l * Pow2(bit) % m
    {
      GetBitIs(multiplier, bit);
      MulBit(accumulator, doubled, bit, GetBit(right[..], bit) != 0, modulus, l, r);
    }
    LastBits(r);
    Copy(result, accumulator);
  }

  lemma MulStart(l: nat, r: nat, m: nat)
    requires l < m
    ensures Pow2(0) == 1 && l * (r % Pow2(0)) % m == 0 && l * Pow2(0) % m == l
  {
    Unique(l, m, 0, l);
    Unique(0, m, 0, 0);
  }

  // ----- inversion -------------------------------------------------------------------------

  /** Changing one limb changes the value by its weight. */
  lemma Replace(s: seq<word>, i: nat, x: word)
    requires i < |s|
    ensures Value(s[i := x]) == Value(s) + (x - s[i]) * Weight(i)
  {
    hide Value, Weight;
    var t := s[i := x];
    var high := s[i + 1..];
    FromLimb(s, i);
    FromLimb(t, i);
    assert t[..i] == s[..i] && t[i + 1..] == high;
    ReplaceArith(Value(s[..i]), Weight(i), s[i], x, RADIX * Value(high));
  }

  lemma FromLimb(s: seq<word>, i: nat)
    requires i < |s|
    ensures Value(s) == Value(s[..i]) + Weight(i) * (s[i] + RADIX * Value(s[i + 1..]))
  {
    hide Value, Weight;
    var t := s[i..];
    Split(s, i);
    HeadLimb(t);
    assert t[1..] == s[i + 1..] && t[0] == s[i];
  }

  lemma HeadLimb(t: seq<word>)
    requires t != []
    ensures Value(t) == t[0] + RADIX * Value(t[1..])
  {
    hide Value, Weight;
    Split(t, 1);
    assert t[..1] == [t[0]];
    Single(t[0]);
    OneLimb();
  }

  lemma ReplaceArith(front: int, w: int, a: int, x: int, rest: int)
    ensures front + w * (x + rest) == front + w * (a + rest) + (x - a) * w
  {
    Distribute(w, a + rest, x - a);
  }

  /** U256_SubSmall: the borrow runs up until a limb can pay it. */
  method SubSmall(value: array<word>, small: word)
    requires value.Length == LIMBS && Value(value[..]) >= small
    modifies value
    ensures Value(value[..]) == old(Value(value[..])) - small
  {
    hide Value, Weight;
    ghost var v := Value(value[..]);
    OneWeight();
    var borrow: word, i := small, 0;
    while i < LIMBS
      invariant 0 <= i <= LIMBS && (i > 0 ==> borrow == 1)
      invariant Value(value[..]) - borrow * Weight(i) == v - small
    {
      var current := value[i];
      ghost var before := value[..];
      var next: word := (current - borrow) % RADIX;
      value[i] := next;
      assert value[..] == before[i := next];
      Replace(before, i, next);
      BorrowUp(current, borrow, next, Weight(i));
      WeightStep(i);
      if current >= borrow { return; }
      borrow, i := 1, i + 1;
    }
    assert false;
  }

  lemma OneWeight()
    ensures Weight(0) == 1
  {
  }

  lemma BorrowUp(current: int, borrow: int, next: int, w: int)
    requires 0 <= current < RADIX && 0 <= borrow < RADIX && next == (current - borrow) % RADIX
    ensures current >= borrow ==> (next - current) * w == -(borrow * w)
    ensures current < borrow ==> (next - current) * w == RADIX * w - borrow * w
  {
    assert next == if current >= borrow then current - borrow else current - borrow + RADIX;
    Distribute(w, RADIX, -borrow);
    Distribute(w, borrow, -borrow);
  }

  /** One pass of the square-and-multiply loop. */
  lemma InverseStep(v: int, k: nat, m: nat)
    requires m > 0
    ensures (Power(v, k) % m * (Power(v, k) % m)) % m == Power(v, 2 * k) % m
    ensures (Power(v, 2 * k) % m * v) % m == Power(v, 2 * k + 1) % m
  {
    hide Power;
    ProductMod(Power(v, k), Power(v, k), m);
    PowerSum(v, k, k);
    FactorMod(Power(v, 2 * k), v, m);
    PowerSum(v, 2 * k, 1);
    PowerOne(v);
  }

  lemma PowerOne(v: int)
    ensures Power(v, 0) == 1 && Power(v, 1) == v
  {
    assert Power(v, 1) == v * Power(v, 0);
  }

  method InverseBit(accumulator: array<word>, value: array<word>, one: bool, modulus: array<word>, ghost k: nat)
    requires accumulator.Length == value.Length == modulus.Length == LIMBS
    requires accumulator != modulus && accumulator != value && Value(modulus[..]) > 0
    requires Value(accumulator[..]) == Power(Value(value[..]), k) % Value(modulus[..])
    modifies accumulator
    ensures Value(accumulator[..]) == Power(Value(value[..]), 2 * k + if one then 1 else 0) % Value(modulus[..])
  {
    hide Value, Weight, Power;
    InverseStep(Value(value[..]), k, Value(modulus[..]));
    var next := new word[LIMBS];
    ModMul(next, accumulator, accumulator, modulus);
    Copy(accumulator, next);
    if one {
      ModMul(next, accumulator, value, modulus);
      Copy(accumulator, next);
    }
  }

  /** ModInverse: the power with exponent m - 2, by squaring from the high bit down. */
  method ModInverse(result: array<word>, value: array<word>, modulus: array<word>) returns (ok: bool)
    requires result.Length == value.Length == modulus.Length == LIMBS && result != modulus
    requires Value(modulus[..]) >= 2
    modifies result
    ensures ok <==> old(Value(value[..])) != 0
    ensures ok ==> Value(result[..]) == old(Power(Value(value[..]), Value(modulus[..]) - 2) % Value(modulus[..]))
    ensures !ok ==> result[..] == old(result[..])
  {
    hide Value, Weight, Power, Pow2, BitOf;
    var zero := IsZero(value);
    if zero { return false; }
    ghost var v, m := Value(value[..]), Value(modulus[..]);
    var exponent, accumulator := new word[LIMBS], new word[LIMBS];
    Copy(exponent, modulus);
    SubSmall(exponent, 2);
    Clear(accumulator);
    ghost var blank := accumulator[..];
    accumulator[0] := 1;
    assert accumulator[..] == blank[0 := 1];
    Replace(blank, 0, 1);
    OneWeight();
    ghost var e := m - 2;
    InverseStart(v, e, m);
    var bit := BITS;
    ghost var operand, exponentLimbs := value[..], exponent[..];
    while bit > 0
      invariant 0 <= bit <= BITS
      invariant value[..] == operand && Value(modulus[..]) == m && exponent[..] == exponentLimbs
      invariant Value(accumulator[..]) == Power(v, e / Pow2(bit)) % m
    {
      bit := bit - 1;
      GetBitIs(exponentLimbs, bit);
      HighBits(e, bit);
      BitIsSmall(e, bit);
      InverseBit(accumulator, value, GetBit(exponent[..], bit) != 0, modulus, e / Pow2(bit + 1));
    }
    WholeNumber(e);
    Copy(result, accumulator);
    return true;
  }

  lemma InverseStart(v: int, e: nat, m: nat)
    requires m >= 2 && e < Weight(LIMBS)
    ensures Power(v, e / Pow2(BITS)) % m == 1
  {
    hide Weight, Pow2;
    WeightIsPower(LIMBS);
    Unique(e, Pow2(BITS), 0, e);
    PowerOne(v);
    Unique(1, m, 0, 1);
  }

  lemma WholeNumber(e: nat)
    ensures e / Pow2(0) == e
  {
  }
}
