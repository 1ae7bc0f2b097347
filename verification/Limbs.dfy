/** The 256-bit arithmetic of bootloader/crypto/ecdsa_p256.c: eight 32-bit limbs, least significant first. */
module Limbs {
  import opened Bytes

  const LIMBS := 8
  const BITS := 256
  const RADIX: int := 0x1_0000_0000

  /** RADIX to the power `n`. */
  function Weight(n: nat): (r: nat)
    ensures r > 0
  {
    if n == 0 then 1 else RADIX * Weight(n - 1)
  }

  function Value(s: seq<word>): (r: nat)
    ensures r < Weight(|s|)
  {
    if s == [] then 0
    else
      var n := |s| - 1;
      Below(Value(s[..n]), s[n], Weight(n));
      Value(s[..n]) + s[n] * Weight(n)
  }

  lemma Below(low: nat, limb: word, weight: nat)
    requires low < weight
    ensures low + limb * weight < RADIX * weight
  {
    assert limb * weight <= (RADIX - 1) * weight;
  }

  lemma Extend(s: seq<word>, i: nat)
    requires i < |s|
    ensures Value(s[..i + 1]) == Value(s[..i]) + s[i] * Weight(i)
  {
    assert s[..i + 1][..i] == s[..i];
  }

  // ----- subtraction and addition ----------------------------------------------------------

  /** One limb of a subtraction with 32-bit wrap-around: no borrow is lost. */
  lemma BorrowStep(a: word, b: word, borrow: word)
    requires borrow <= 1
    ensures var first := (a - b) % RADIX;
            var second := (first - borrow) % RADIX;
            var borrow' := if a < b || first < borrow then 1 else 0;
            second - borrow' * RADIX == a - b - borrow
  {
  }

  lemma CarryStep(a: word, b: word, carry: word)
    requires carry <= 1
    ensures var first := (a + b) % RADIX;
            var second := (first + carry) % RADIX;
            var carry' := if first < a || second < first then 1 else 0;
            second + carry' * RADIX == a + b + carry
  {
  }

  /** A limb of the difference put at its place. */
  lemma BorrowPlace(w: nat, d: int, l: int, r: int, limb: int, a: int, b: int, borrow: int, borrow': int)
    requires d - borrow * w == l - r && limb - borrow' * RADIX == a - b - borrow
    ensures (d + limb * w) - borrow' * (RADIX * w) == (l + a * w) - (r + b * w)
  {
    assert limb * w - borrow' * RADIX * w == (a - b - borrow) * w;
  }

  lemma CarryPlace(w: nat, d: int, l: int, r: int, limb: int, a: int, b: int, carry: int, carry': int)
    requires d + carry * w == l + r && limb + carry' * RADIX == a + b + carry
    ensures (d + limb * w) + carry' * (RADIX * w) == (l + a * w) + (r + b * w)
  {
    assert limb * w + carry' * RADIX * w == (a + b + carry) * w;
  }

  /** U256_SubRaw; the destination may be one of the operands. */
  method SubRaw(destination: array<word>, left: array<word>, right: array<word>)
    requires destination.Length == left.Length == right.Length == LIMBS
    requires Value(left[..]) >= Value(right[..])
    modifies destination
    ensures Value(destination[..]) == old(Value(left[..])) - old(Value(right[..]))
  {
    hide Value, Weight;
    ghost var l, r := left[..], right[..];
    Empty();
    var borrow: word, i := 0, 0;
    assert destination[..0] == [] && l[..0] == [] && r[..0] == [];
    while i < LIMBS
      invariant 0 <= i <= LIMBS && borrow <= 1
      invariant forall k :: i <= k < LIMBS ==> left[k] == l[k] && right[k] == r[k]
      invariant Value(destination[..i]) - borrow * Weight(i) == Value(l[..i]) - Value(r[..i])
    {
      var a, b := left[i], right[i];
      var first: word := (a - b) % RADIX;
      var second: word := (first - borrow) % RADIX;
      var next: word := if a < b || first < borrow then 1 else 0;
      ghost var done := destination[..i];
      BorrowStep(a, b, borrow);
      BorrowPlace(Weight(i), Value(done), Value(l[..i]), Value(r[..i]), second, a, b, borrow, next);
      Extend(l, i);
      Extend(r, i);
      WeightStep(i);
      destination[i] := second;
      Append(destination[..i + 1], done, second);
      borrow, i := next, i + 1;
    }
    assert l[..i] == l && r[..i] == r && destination[..i] == destination[..];
    NoBorrow(destination[..], borrow, Value(l) - Value(r));
  }

  lemma Empty()
    ensures Value([]) == 0 && Weight(0) == 1
  {
  }

  lemma WeightStep(i: nat)
    ensures Weight(i + 1) == RADIX * Weight(i)
  {
  }

  lemma Append(s: seq<word>, front: seq<word>, x: word)
    requires s == front + [x]
    ensures Value(s) == Value(front) + x * Weight(|front|)
  {
    assert s[..|front|] == front;
  }

  lemma NoBorrow(d: seq<word>, borrow: word, difference: nat)
    requires borrow <= 1 && Value(d) - borrow * Weight(|d|) == difference
    ensures borrow == 0
  {
  }

  /** U256_AddRaw */
  method AddRaw(destination: array<word>, left: array<word>, right: array<word>)
    requires destination.Length == left.Length == right.Length == LIMBS
    requires Value(left[..]) + Value(right[..]) < Weight(LIMBS)
    modifies destination
    ensures Value(destination[..]) == old(Value(left[..])) + old(Value(right[..]))
  {
    hide Value, Weight;
    ghost var l, r := left[..], right[..];
    Empty();
    var carry: word, i := 0, 0;
    assert destination[..0] == [] && l[..0] == [] && r[..0] == [];
    while i < LIMBS
      invariant 0 <= i <= LIMBS && carry <= 1
      invariant forall k :: i <= k < LIMBS ==> left[k] == l[k] && right[k] == r[k]
      invariant Value(destination[..i]) + carry * Weight(i) == Value(l[..i]) + Value(r[..i])
    {
      var a, b := left[i], right[i];
      var first: word := (a + b) % RADIX;
      var second: word := (first + carry) % RADIX;
      var next: word := if first < a || second < first then 1 else 0;
      ghost var done := destination[..i];
      CarryStep(a, b, carry);
      CarryPlace(Weight(i), Value(done), Value(l[..i]), Value(r[..i]), second, a, b, carry, next);
      Extend(l, i);
      Extend(r, i);
      WeightStep(i);
      destination[i] := second;
      Append(destination[..i + 1], done, second);
      carry, i := next, i + 1;
    }
    assert l[..i] == l && r[..i] == r && destination[..i] == destination[..];
    NoCarry(destination[..], carry, Value(l) + Value(r));
  }

  lemma NoCarry(d: seq<word>, carry: word, sum: nat)
    requires carry <= 1 && Value(d) + carry * Weight(|d|) == sum < Weight(|d|)
    ensures carry == 0
  {
  }

  // ----- comparison ------------------------------------------------------------------------

  lemma TopDecides(low: nat, low': nat, a: word, b: word, weight: nat)
    requires low < weight && a < b
    ensures low + a * weight < low' + b * weight
  {
    assert (a + 1) * weight <= b * weight;
  }

  /** The highest limb that differs decides. */
  lemma {:induction false} Decides(s: seq<word>, t: seq<word>, i: nat)
    requires |s| == |t| && i < |s| && s[i] < t[i] && s[i + 1..] == t[i + 1..]
    ensures Value(s) < Value(t)
    decreases |s|
  {
    hide Value, Weight;
    var n := |s| - 1;
    Append(s, s[..n], s[n]);
    Append(t, t[..n], t[n]);
    if i == n {
      TopDecides(Value(s[..n]), Value(t[..n]), s[n], t[n], Weight(n));
    } else {
      assert s[n] == s[i + 1..][n - i - 1] && t[n] == t[i + 1..][n - i - 1];
      assert s[..n][i + 1..] == s[i + 1..][..n - i - 1] && t[..n][i + 1..] == t[i + 1..][..n - i - 1];
      Decides(s[..n], t[..n], i);
    }
  }

  /** U256_Compare */
  method Compare(left: array<word>, right: array<word>) returns (sign: int)
    requires left.Length == right.Length == LIMBS
    ensures sign ==
            if Value(left[..]) > Value(right[..]) then 1 else if Value(left[..]) < Value(right[..]) then -1 else 0
  {
    hide Value;
    var i := LIMBS;
    while i > 0
      invariant 0 <= i <= LIMBS && left[i..] == right[i..]
    {
      i := i - 1;
      if left[i] > right[i] {
        Decides(right[..], left[..], i);
        return 1;
      }
      if left[i] < right[i] {
        Decides(left[..], right[..], i);
        return -1;
      }
    }
    assert left[0..] == left[..] && right[0..] == right[..];
    return 0;
  }

  /** U256_IsZero */
  method IsZero(value: array<word>) returns (zero: bool)
    requires value.Length == LIMBS
    ensures zero <==> Value(value[..]) == 0
  {
    hide Value, Weight;
    Empty();
    zero := true;
    assert value[..0] == [];
    for i := 0 to LIMBS
      invariant zero <==> Value(value[..i]) == 0
    {
      Extend(value[..], i);
      assert value[..][..i + 1] == value[..i + 1] && value[..][..i] == value[..i];
      if value[i] != 0 {
        assert value[i] * Weight(i) >= 1 * Weight(i);
        zero := false;
      } else {
        assert 0 * Weight(i) == 0;
      }
    }
    assert value[..LIMBS] == value[..];
  }

  /** U256_Clear and U256_Copy */
  method Clear(value: array<word>)
    requires value.Length == LIMBS
    modifies value
    ensures Value(value[..]) == 0 && forall k :: 0 <= k < LIMBS ==> value[k] == 0
  {
    hide Value, Weight;
    Empty();
    assert value[..0] == [];
    for i := 0 to LIMBS
      invariant Value(value[..i]) == 0 && forall k :: 0 <= k < i ==> value[k] == 0
    {
      ghost var done := value[..i];
      value[i] := 0;
      Append(value[..i + 1], done, 0);
    }
    assert value[..LIMBS] == value[..];
  }

  method Copy(destination: array<word>, source: array<word>)
    requires destination.Length == source.Length == LIMBS
    modifies destination
    ensures destination[..] == old(source[..])
  {
    ghost var s := source[..];
    for i := 0 to LIMBS
      invariant destination[..i] == s[..i] && forall k :: i <= k < LIMBS ==> source[k] == s[k]
    {
      destination[i] := source[i];
    }
    assert destination[..] == destination[..LIMBS] && s == s[..LIMBS];
  }
}
