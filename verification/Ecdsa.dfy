/** Groups written additively, and multiples of an element. */
module Groups {
  datatype Group<!T> = Group(zero: T, add: (T, T) -> T)

  ghost predicate Lawful<T(!new)>(g: Group<T>) {
    && (forall a :: g.add(g.zero, a) == a)
    && (forall a, b :: g.add(a, b) == g.add(b, a))
    && (forall a, b, c :: g.add(g.add(a, b), c) == g.add(a, g.add(b, c)))
  }

  ghost function Times<T>(g: Group<T>, k: nat, x: T): T { if k == 0 then g.zero else g.add(x, Times(g, k - 1, x)) }

  lemma Identity<T(!new)>(g: Group<T>, a: T)
    requires Lawful(g)
    ensures g.add(g.zero, a) == a && g.add(a, g.zero) == a
  {
  }

  lemma Swap<T(!new)>(g: Group<T>, a: T, b: T, c: T, d: T)
    requires Lawful(g)
    ensures g.add(g.add(a, b), g.add(c, d)) == g.add(g.add(a, c), g.add(b, d))
  {
    calc {
      g.add(g.add(a, b), g.add(c, d));
      g.add(a, g.add(b, g.add(c, d)));
      { assert g.add(b, g.add(c, d)) == g.add(g.add(b, c), d) == g.add(g.add(c, b), d) == g.add(c, g.add(b, d)); }
      g.add(a, g.add(c, g.add(b, d)));
      g.add(g.add(a, c), g.add(b, d));
    }
  }

  lemma {:induction false} TimesSum<T(!new)>(g: Group<T>, a: nat, b: nat, x: T)
    requires Lawful(g)
    ensures Times(g, a + b, x) == g.add(Times(g, a, x), Times(g, b, x))
    decreases a
  {
    if a == 0 {
      Identity(g, Times(g, b, x));
    } else {
      TimesSum(g, a - 1, b, x);
      assert g.add(x, g.add(Times(g, a - 1, x), Times(g, b, x))) == g.add(g.add(x, Times(g, a - 1, x)), Times(g, b, x));
    }
  }

  /** k1 x + k2 y */
  ghost function Combination<T>(g: Group<T>, k1: nat, x: T, k2: nat,
                                y: T): T { g.add(Times(g, k1, x), Times(g, k2, y)) }

  lemma DoubleCombination<T(!new)>(g: Group<T>, k1: nat, x: T, k2: nat, y: T)
    requires Lawful(g)
    ensures var c := Combination(g, k1, x, k2, y); Combination(g, 2 * k1, x, 2 * k2, y) == g.add(c, c)
  {
    hide Lawful, Times;
    TimesSum(g, k1, k1, x);
    TimesSum(g, k2, k2, y);
    Swap(g, Times(g, k1, x), Times(g, k2, y), Times(g, k1, x), Times(g, k2, y));
  }

  lemma MoreLeft<T(!new)>(g: Group<T>, k1: nat, x: T, k2: nat, y: T)
    requires Lawful(g)
    ensures Combination(g, k1 + 1, x, k2, y) == g.add(Combination(g, k1, x, k2, y), x)
  {
    var a, b := Times(g, k1, x), Times(g, k2, y);
    assert g.add(g.add(x, a), b) == g.add(x, g.add(a, b)) == g.add(g.add(a, b), x);
  }

  lemma MoreRight<T(!new)>(g: Group<T>, k1: nat, x: T, k2: nat, y: T)
    requires Lawful(g)
    ensures Combination(g, k1, x, k2 + 1, y) == g.add(Combination(g, k1, x, k2, y), y)
  {
    var a, b := Times(g, k1, x), Times(g, k2, y);
    assert g.add(a, g.add(y, b)) == g.add(a, g.add(b, y)) == g.add(g.add(a, b), y);
  }

  /** One pass of simultaneous double-and-add. */
  lemma CombinationStep<T(!new)>(g: Group<T>, k1: nat, x: T, k2: nat, y: T, b1: nat, b2: nat, r: T)
    requires Lawful(g) && b1 <= 1 && b2 <= 1 && r == Combination(g, k1, x, k2, y)
    ensures var d := g.add(r, r);
            var e := if b1 == 1 then g.add(d, x) else d;
            Combination(g, 2 * k1 + b1, x, 2 * k2 + b2, y) == if b2 == 1 then g.add(e, y) else e
  {
    hide Lawful, Combination;
    DoubleCombination(g, k1, x, k2, y);
    MoreLeft(g, 2 * k1, x, 2 * k2, y);
    MoreRight(g, 2 * k1, x, 2 * k2, y);
    MoreRight(g, 2 * k1 + 1, x, 2 * k2, y);
  }
}

/** PointLinearCombination and EcdsaP256_VerifyDigest of bootloader/crypto/ecdsa_p256.c. */
module Ecdsa {
  import opened Bytes
  import opened Limbs
  import opened Residues
  import opened Modular
  import opened Curve
  import opened PointArithmetic
  import opened Groups
  import Fermat

  /** The group of the curve: what doubling and mixed addition compute, on points that satisfy the equation. */
  ghost predicate Models<T(!new)>(f: Field, g: Group<T>, rep: Point -> T) {
    && Lawful(g)
    && (forall p: Point :: Residue(f, p.z) == 0 ==> rep(p) == g.zero)
    && (forall p :: OnCurve(f, p) ==> rep(Double(f, p)) == g.add(rep(p), rep(p)))
    && (forall p, x, y :: OnCurve(f, p) && OnAffine(f, x, y) ==>
          rep(AddAffine(f, p, x, y)) == g.add(rep(p), rep(Point(x, y, 1))))
  }

  /** The domain parameters: the field, the generator and its order, as limb tables. */
  datatype Domain = Domain(field: Field, gx: Number, gy: Number, order: Number) {
    /** The generator is on the curve, and 2^256 is below twice the order. */
    ghost predicate Valid() {
      && Value(gx) < field.p && Value(gy) < field.p && OnAffine(field, Value(gx), Value(gy))
      && 2 <= Value(order) && Weight(LIMBS) < 2 * Value(order)
    }

    ghost function Base(): Point { Point(Value(gx), Value(gy), 1) }
  }

  type Order = n: int | n >= 2 witness 2

  predicate OnAffine(f: Field, x: int, y: int) { Residue(f, AffineDefect(x, y, f.b)) == 0 }

  lemma AtZero<T(!new)>(f: Field, g: Group<T>, rep: Point -> T, p: Point)
    requires Models(f, g, rep) && Residue(f, p.z) == 0
    ensures rep(p) == g.zero && g.add(rep(p), rep(p)) == g.zero
  {
    Identity(g, g.zero);
  }

  lemma Twice<T(!new)>(f: Field, g: Group<T>, rep: Point -> T, p: Point)
    requires Models(f, g, rep) && OnCurve(f, p)
    ensures OnCurve(f, Double(f, p)) && rep(Double(f, p)) == g.add(rep(p), rep(p))
  {
    DoubleOnCurve(f, p);
  }

  lemma Plus<T(!new)>(f: Field, g: Group<T>, rep: Point -> T, p: Point, x: int, y: int)
    requires Models(f, g, rep) && OnCurve(f, p) && OnAffine(f, x, y)
    ensures OnCurve(f, AddAffine(f, p, x, y)) && rep(AddAffine(f, p, x, y)) == g.add(rep(p), rep(Point(x, y, 1)))
  {
    AddOnCurve(f, p, x, y);
  }

  /** One pass of the double-and-add loop. */
  method CombineBit<T(!new)>(d: Domain, j: Jacobian, qx: Number, qy: Number, b1: bool, b2: bool, ghost p: Point,
                             ghost x: int, ghost y: int, ghost g: Group<T>, ghost rep: Point -> T)
    returns (r: Jacobian, ghost q: Point)
    requires d.Valid()
    requires Holds(d.field, j, p) && Is(d.field, qx, x) && Is(d.field, qy, y)
    ensures Holds(d.field, r, q)
    ensures Models(d.field, g, rep) && OnCurve(d.field, p) && OnAffine(d.field, x, y) ==>
              && OnCurve(d.field, q)
              && var twice := g.add(rep(p), rep(p));
                 var e := if b1 then g.add(twice, rep(d.Base())) else twice;
                 rep(q) == if b2 then g.add(e, rep(Point(x, y, 1))) else e
  {
    hide Value, Models, OnCurve, OnAffine, Is, Double, AddAffine, Residue;
    ghost var lawful := Models(d.field, g, rep) && OnCurve(d.field, p) && OnAffine(d.field, x, y);
    r, q := j, p;
    var atInfinity := Zero(d.field, j.z, p.z);
    if !atInfinity {
      r := PointDouble(d.field, r, q);
      if lawful { Twice(d.field, g, rep, q); }
      q := Double(d.field, q);
    } else if lawful {
      AtZero(d.field, g, rep, q);
    }
    if b1 {
      GeneratorIs(d);
      r := PointAddAffine(d.field, r, d.gx, d.gy, q, Value(d.gx), Value(d.gy));
      if lawful { Plus(d.field, g, rep, q, Value(d.gx), Value(d.gy)); }
      q := AddAffine(d.field, q, Value(d.gx), Value(d.gy));
    }
    if b2 {
      r := PointAddAffine(d.field, r, qx, qy, q, x, y);
      if lawful { Plus(d.field, g, rep, q, x, y); }
      q := AddAffine(d.field, q, x, y);
    }
  }

  lemma GeneratorIs(d: Domain)
    requires d.Valid()
    ensures Is(d.field, d.gx, Value(d.gx)) && Is(d.field, d.gy, Value(d.gy)) &&
            OnAffine(d.field, Value(d.gx), Value(d.gy))
  {
    hide Value;
    IsItself(d.field, d.gx);
    IsItself(d.field, d.gy);
  }

  /** PointLinearCombination: u1 G + u2 Q for all scalars. */
  method LinearCombination<T(!new)>(d: Domain, u1: Number, u2: Number, qx: Number, qy: Number, ghost g: Group<T>,
                             ghost rep: Point -> T)
    returns (r: Jacobian, ghost p: Point)
    requires d.Valid()
    requires Value(qx) < d.field.p && Value(qy) < d.field.p
    ensures Holds(d.field, r, p)
    ensures Models(d.field, g, rep) && OnAffine(d.field, Value(qx), Value(qy)) ==>
              && OnCurve(d.field, p)
              && rep(p) == Combination(g, Value(u1), rep(d.Base()), Value(u2), rep(Point(Value(qx), Value(qy), 1)))
  {
    hide Models, OnCurve, OnAffine, Is, Double, AddAffine, Value, Weight, Above, GetBit, Combination, Holds, Lawful;
    ghost var x, y, k1, k2 := Value(qx), Value(qy), Value(u1), Value(u2);
    ghost var lawful := Models(d.field, g, rep) && OnAffine(d.field, x, y);
    ghost var a, b := rep(d.Base()), rep(Point(x, y, 1));
    r := SetInfinity(d.field);
    p := INFINITY;
    IsItself(d.field, qx);
    IsItself(d.field, qy);
    NothingAbove(k1);
    NothingAbove(k2);
    if lawful { AtStart(d.field, g, rep, a, b); }
    var bit := BITS;
    while bit > 0
      invariant 0 <= bit <= BITS && Holds(d.field, r, p)
      invariant lawful ==> OnCurve(d.field, p) && rep(p) == Combination(g, Above(k1, bit), a, Above(k2, bit), b)
    {
      bit := bit - 1;
      NextBit(u1, bit);
      NextBit(u2, bit);
      if lawful {
        LawfulOf(d.field, g, rep);
        CombinationStep(g, Above(k1, bit + 1), a, Above(k2, bit + 1), b, GetBit(u1, bit), GetBit(u2, bit), rep(p));
      }
      r, p := CombineBit(d, r, qx, qy, GetBit(u1, bit) != 0, GetBit(u2, bit) != 0, p, x, y, g, rep);
    }
    AllAbove(k1);
    AllAbove(k2);
  }

  /** The bits of `k` from `bit` up. */
  function Above(k: nat, bit: nat): nat { Quotient(k, Pow2(bit)) }

  function Quotient(a: nat, b: nat): nat
    requires b > 0
  {
    a / b
  }

  lemma AllAbove(k: nat)
    ensures Above(k, 0) == k
  {
  }

  lemma NextBit(n: Number, bit: nat)
    requires bit < BITS
    ensures GetBit(n, bit) <= 1 && Above(Value(n), bit) == 2 * Above(Value(n), bit + 1) + GetBit(n, bit)
  {
    hide Value, Pow2;
    GetBitIs(n, bit);
    HighBits(Value(n), bit);
    BitIsSmall(Value(n), bit);
  }

  lemma NothingAbove(k: nat)
    requires k < Weight(LIMBS)
    ensures Above(k, BITS) == 0
  {
    hide Weight, Pow2;
    WeightIsPower(LIMBS);
    Unique(k, Pow2(BITS), 0, k);
  }

  lemma LawfulOf<T(!new)>(f: Field, g: Group<T>, rep: Point -> T)
    requires Models(f, g, rep)
    ensures Lawful(g)
  {
  }

  lemma IsItself(f: Field, n: Number)
    requires Value(n) < f.p
    ensures Is(f, n, Value(n))
  {
    hide Value;
    Unique(Value(n), f.p, 0, Value(n));
  }

  lemma AtStart<T(!new)>(f: Field, g: Group<T>, rep: Point -> T, a: T, b: T)
    requires Models(f, g, rep)
    ensures OnCurve(f, INFINITY) && rep(INFINITY) == Combination(g, 0, a, 0, b)
  {
    SmallResidues(f);
    Identity(g, g.zero);
  }

  // ----- the checks around it --------------------------------------------------------------

  function Mod(n: Order, a: int): (r: nat)
    ensures r < n
  {
    a % n
  }

  lemma ModN(n: Order, a: int)
    ensures a % n == Mod(n, a)
  {
  }

  /** 2^256 is below twice the order, so one subtraction reduces. */
  method ReduceOnce(d: Domain, a: Number) returns (r: Number)
    requires d.Valid()
    ensures Value(r) == Mod(Value(d.order), Value(a))
  {
    hide Value;
    var value := Fresh(a);
    var order := Fresh(d.order);
    var sign := Compare(value, order);
    if sign >= 0 {
      SubRaw(value, value, order);
      Unique(Value(a), Value(d.order), 1, Value(a) - Value(d.order));
    } else {
      Unique(Value(a), Value(d.order), 0, Value(a));
    }
    return value[..];
  }

  /** A public key that the verifier accepts. */
  predicate KeyOk(f: Field, x: nat, y: nat) { x < f.p && y < f.p && !(x == 0 && y == 0) && OnAffine(f, x, y) }

  lemma EqualIff(f: Field, a: int, b: int)
    ensures Residue(f, a) == Residue(f, b) <==> Residue(f, a - b) == 0
  {
    hide Residue;
    ResidueOps(f, a, b);
    SmallResidues(f);
    ResidueOps(f, a - b, b);
    if Residue(f, a - b) == 0 { ResidueOps(f, 0, b); }
  }

  /** PointIsOnCurve */
  method IsOnCurve(f: Field, x: Number, y: Number) returns (ok: bool)
    ensures ok <==> KeyOk(f, Value(x), Value(y))
  {
    hide Value, Is, Residue;
    Constants(f);
    var ax := Fresh(x);
    var ay := Fresh(y);
    var prime := Fresh(f.pLimbs);
    var sx := Compare(ax, prime);
    var sy := Compare(ay, prime);
    if sx >= 0 || sy >= 0 { return false; }
    var zx := IsZero(ax);
    var zy := IsZero(ay);
    if zx && zy { return false; }
    ghost var a, b := Value(x), Value(y);
    IsItself(f, x);
    IsItself(f, y);
    BIs(f);
    var y2 := Mul(f, y, y, b, b);
    var x2 := Mul(f, x, x, a, a);
    var x3 := Mul(f, x2, x, a * a, a);
    var threeX := Threefold(f, x, a);
    var rhs := Sub(f, x3, threeX, a * a * a, 3 * a);
    rhs := Add(f, rhs, f.bLimbs, a * a * a - 3 * a, f.b);
    EqualIff(f, b * b, a * a * a - 3 * a + f.b);
    CurveSides(f, a, b);
    var left := Fresh(y2);
    var right := Fresh(rhs);
    IsValue(f, y2, b * b);
    IsValue(f, rhs, a * a * a - 3 * a + f.b);
    var sign := Compare(left, right);
    return sign == 0;
  }

  lemma IsValue(f: Field, n: Number, a: int)
    requires Is(f, n, a)
    ensures Value(n) == Residue(f, a)
  {
  }

  lemma BIs(f: Field)
    ensures Is(f, f.bLimbs, f.b)
  {
    hide Value;
    Constants(f);
  }

  lemma CurveSides(f: Field, x: int, y: int)
    ensures AffineDefect(x, y, f.b) == y * y - (x * x * x - 3 * x + f.b)
  {
  }

  /** PointAffineX: the abscissa x / z^2. */
  method AffineX(f: Field, j: Jacobian, ghost p: Point) returns (x: Option<Number>)
    requires Holds(f, j, p)
    ensures x.None? <==> Residue(f, p.z) == 0
    ensures x.Some? ==> Value(x.value) < f.p
    ensures x.Some? && Fermat.Prime(f.p) ==> Residue(f, Value(x.value) * (p.z * p.z)) == Residue(f, p.x)
  {
    hide Value, Is, Residue, Power, Fermat.Prime;
    var atInfinity := Zero(f, j.z, p.z);
    if atInfinity { return None; }
    Constants(f);
    IsValue(f, j.z, p.z);
    var z := Fresh(j.z);
    var inverse := Fresh(j.z);
    var prime := Fresh(f.pLimbs);
    var ok := ModInverse(inverse, z, prime);
    assert ok;
    ghost var i := Power(Residue(f, p.z), f.p - 2);
    PowerIs(f, inverse[..], i);
    var zi: Number := inverse[..];
    var zi2 := Mul(f, zi, zi, i, i);
    var r := Mul(f, j.x, zi2, p.x, i * i);
    IsValue(f, r, p.x * (i * i));
    if Fermat.Prime(f.p) { InverseOfZ(f, p.x, p.z, f.p - 2, i, Value(r)); }
    return Some(r);
  }

  lemma PowerIs(f: Field, n: Number, a: int)
    requires Value(n) == a % f.p
    ensures Is(f, n, a)
  {
    hide Value;
  }

  lemma InverseResidue(f: Field, z: int, e: nat, i: int)
    requires Fermat.Prime(f.p) && Residue(f, z) != 0 && e == f.p - 2 && i == Power(Residue(f, z), e)
    ensures Residue(f, i * z) == 1
  {
    hide Power, Fermat.Prime, Residue, Value;
    var r := Residue(f, z);
    ResidueOps(f, z, 0);
    ModP(f, r);
    Fermat.InverseModPrime(f.p, r);
    ModP(f, i);
    ModP(f, Residue(f, i) * r);
    ResidueOps(f, i, z);
  }

  lemma InverseOfZ(f: Field, x: int, z: int, e: nat, i: int, v: nat)
    requires Fermat.Prime(f.p) && Residue(f, z) != 0 && e == f.p - 2 && i == Power(Residue(f, z), e) &&
             v == Residue(f, x * (i * i))
    ensures Residue(f, v * (z * z)) == Residue(f, x)
  {
    hide Power, Fermat.Prime, Residue, Value;
    var iz := i * z;
    InverseResidue(f, z, e, i);
    ResidueOps(f, x * (i * i), z * z);
    ResidueOps(f, z * z, 0);
    ResidueOps(f, v, z * z);
    assert (x * (i * i)) * (z * z) == x * (iz * iz) by { Rearrange(x, i, z); }
    ResidueOps(f, iz, iz);
    ResidueOps(f, x, iz * iz);
    SmallResidues(f);
    ResidueOps(f, x, 0);
  }

  lemma Rearrange(x: int, i: int, z: int)
    ensures (x * (i * i)) * (z * z) == x * ((i * z) * (i * z))
  {
    Associate(x, i * i, z * z);
    assert (i * i) * (z * z) == (i * z) * (i * z);
  }

  // ----- the signature ---------------------------------------------------------------------

  /** `w` inverts `s` modulo the order. */
  ghost predicate Inverts(n: Order, s: nat, w: nat) { w < n && Mod(n, s * w) == 1 }

  /** The verification equation of section 6.4.2 of FIPS 186-5, for the digest `e` and the signature (r, s). */
  ghost predicate Accepts<T>(n: Order, g: Group<T>, base: T, key: T, abscissa: T -> Option<nat>, e: nat, r: nat,
                             s: nat) {
    && 0 < r < n && 0 < s < n
    && exists w :: Inverts(n, s, w) && Matches(n, g, base, key, abscissa, Mod(n, e * w), Mod(n, r * w), r)
  }

  ghost predicate Matches<T>(n: Order, g: Group<T>, base: T, key: T, abscissa: T -> Option<nat>, u1: nat, u2: nat,
                             r: nat) {
    var x := abscissa(Combination(g, u1, base, u2, key));
    x.Some? && Mod(n, x.value) == r
  }

  /** The affine abscissa of a group element; infinity has none. */
  ghost predicate Measures<T>(f: Field, rep: Point -> T, abscissa: T -> Option<nat>) {
    forall p :: OnCurve(f, p) ==>
      && (Residue(f, p.z) == 0 ==> abscissa(rep(p)) == None)
      && (Residue(f, p.z) != 0 ==>
            && abscissa(rep(p)).Some? && abscissa(rep(p)).value < f.p
            && Residue(f, abscissa(rep(p)).value * (p.z * p.z)) == Residue(f, p.x))
  }

  /** There is one abscissa. */
  lemma SameAbscissa(f: Field, z: int, a: nat, b: nat)
    requires Fermat.Prime(f.p) && Residue(f, z) != 0 && a < f.p && b < f.p
    requires Residue(f, a * (z * z)) == Residue(f, b * (z * z))
    ensures a == b
  {
    hide Fermat.Prime, Residue;
    ModP(f, z);
    ModP(f, z * z * a);
    ModP(f, z * z * b);
    Commute(a, z * z);
    Commute(b, z * z);
    Fermat.SquareNonzero(f.p, z);
    Fermat.Cancel(f.p, z * z, a, b);
  }

  /** There is one inverse. */
  lemma SameInverse(n: Order, s: nat, v: nat, w: nat)
    requires Fermat.Prime(n) && 0 < s < n && Inverts(n, s, v) && Inverts(n, s, w)
    ensures v == w
  {
    hide Fermat.Prime, Mod;
    ModN(n, s * v);
    ModN(n, s * w);
    Unique(s, n, 0, s);
    Fermat.Cancel(n, s, v, w);
  }

  lemma PowerInverts(n: Order, s: nat, e: nat, w: nat)
    requires Fermat.Prime(n) && 0 < s < n && e == n - 2 && w == Mod(n, Power(s, e))
    ensures Inverts(n, s, w)
  {
    hide Power, Fermat.Prime;
    Unique(s, n, 0, s);
    Fermat.InverseModPrime(n, s);
    Commute(s, w);
  }

  /** s^-1 modulo the order. */
  method Invert(d: Domain, s: Number) returns (w: Number)
    requires d.Valid()
    requires 0 < Value(s) < Value(d.order)
    ensures Value(w) < Value(d.order) && (Fermat.Prime(Value(d.order)) ==> Inverts(Value(d.order), Value(s), Value(w)))
  {
    hide Value, Weight, Power, Fermat.Prime;
    var value := Fresh(s);
    var inverse := Fresh(s);
    var order := Fresh(d.order);
    var ok := ModInverse(inverse, value, order);
    assert ok;
    ModN(Value(d.order), Power(Value(s), Value(d.order) - 2));
    if Fermat.Prime(Value(d.order)) { PowerInverts(Value(d.order), Value(s), Value(d.order) - 2, Value(inverse[..])); }
    return inverse[..];
  }

  /** A product modulo the order. */
  method MulOrder(d: Domain, a: Number, b: Number) returns (c: Number)
    requires d.Valid()
    requires Value(a) < Value(d.order)
    ensures Value(c) == Mod(Value(d.order), Value(a) * Value(b))
  {
    hide Value, Weight;
    var left := Fresh(a);
    var right := Fresh(b);
    var order := Fresh(d.order);
    ModN(Value(d.order), Value(a) * Value(b));
    ModMul(left, left, right, order);
    return left[..];
  }

  lemma ReducedFactor(n: Order, e: nat, w: nat)
    ensures Mod(n, Mod(n, e) * w) == Mod(n, e * w)
  {
    FactorMod(e, w, n);
  }

  datatype Status = Valid | InvalidPublicKey | InvalidSignature

  /** EcdsaP256_VerifyDigest on the five numbers of a key, a digest and a signature. */
  method VerifyNumbers<T(!new)>(d: Domain, qx: Number, qy: Number, z: Number, r: Number, s: Number,
                                ghost g: Group<T>, ghost rep: Point -> T, ghost abscissa: T -> Option<nat>)
    returns (status: Status)
    requires d.Valid()
    ensures status == InvalidPublicKey <==> !KeyOk(d.field, Value(qx), Value(qy))
    ensures Models(d.field, g, rep) && Measures(d.field, rep, abscissa) && Fermat.Prime(d.field.p) &&
            Fermat.Prime(Value(d.order)) ==>
              (status == Valid <==>
                 && KeyOk(d.field, Value(qx), Value(qy))
                 && Accepts(Value(d.order), g, rep(d.Base()), rep(Point(Value(qx), Value(qy), 1)), abscissa, Value(z),
                            Value(r), Value(s)))
  {
    hide Value, Weight, Models, Measures, Fermat.Prime, Holds, OnAffine, Inverts, Matches, OnCurve, Residue, Mod;
    var key := IsOnCurve(d.field, qx, qy);
    if !key { return InvalidPublicKey; }
    var ar := Fresh(r);
    var as' := Fresh(s);
    var order := Fresh(d.order);
    var zr := IsZero(ar);
    var zs := IsZero(as');
    var sr := Compare(ar, order);
    var ss := Compare(as', order);
    if zr || zs || sr >= 0 || ss >= 0 { return InvalidSignature; }
    var e := ReduceOnce(d, z);
    var w := Invert(d, s);
    var u1 := MulOrder(d, e, w);
    var u2 := MulOrder(d, r, w);
    ReducedFactor(Value(d.order), Value(z), Value(w));
    var j, p := LinearCombination(d, u1, u2, qx, qy, g, rep);
    var x := AffineX(d.field, j, p);
    ghost var lawful :=
      Models(d.field, g, rep) && Measures(d.field, rep, abscissa) && Fermat.Prime(d.field.p) &&
          Fermat.Prime(Value(d.order));
    if lawful {
      Decided(d.field, Value(d.order), g, rep, abscissa, rep(d.Base()), rep(Point(Value(qx), Value(qy), 1)),
              Value(z), Value(r), Value(s), Value(w), p,
              if x.Some? then Some(Value(x.value)) else None);
    }
    if x == None { return InvalidSignature; }
    var v := ReduceOnce(d, x.value);
    var av := Fresh(v);
    var sign := Compare(av, ar);
    return if sign == 0 then Valid else InvalidSignature;
  }

  /** The abscissa the code computes decides the verification equation. */
  lemma Decided<T(!new)>(f: Field, n: Order, g: Group<T>, rep: Point -> T, abscissa: T -> Option<nat>, base: T, key: T,
                         e: nat, r: nat, s: nat, w: nat, p: Point, x: Option<nat>)
    requires Measures(f, rep, abscissa) && Fermat.Prime(f.p) && Fermat.Prime(n) && 0 < r < n && 0 < s < n
    requires OnCurve(f, p) && Inverts(n, s, w)
    requires rep(p) == Combination(g, Mod(n, e * w), base, Mod(n, r * w), key)
    requires x.None? <==> Residue(f, p.z) == 0
    requires x.Some? ==> x.value < f.p && Residue(f, x.value * (p.z * p.z)) == Residue(f, p.x)
    ensures Accepts(n, g, base, key, abscissa, e, r, s) <==> x.Some? && Mod(n, x.value) == r
  {
    hide Fermat.Prime, Residue, Mod, Inverts, Combination, OnCurve;
    assert abscissa(rep(p)) == x by {
      if x.Some? { SameAbscissa(f, p.z, x.value, abscissa(rep(p)).value); }
    }
    assert Matches(n, g, base, key, abscissa, Mod(n, e * w), Mod(n, r * w), r) <==> x.Some? && Mod(n, x.value) == r;
    forall v | Inverts(n, s, v) ensures v == w { SameInverse(n, s, v, w); }
  }

  // ----- bytes -----------------------------------------------------------------------------

  lemma LastByte(b: seq<byte>)
    requires b != []
    ensures FromBigEndian(b) == FromBigEndian(b[..|b| - 1]) * 0x100 + b[|b| - 1]
  {
  }

  lemma LastWord(b: seq<byte>)
    requires |b| >= 4
    ensures FromBigEndian(b) == BigEndianWord(b[|b| - 4..]) + RADIX * FromBigEndian(b[..|b| - 4])
  {
    hide FromBigEndian;
    var n := |b|;
    LastByte(b);
    LastByte(b[..n - 1]);
    LastByte(b[..n - 2]);
    LastByte(b[..n - 3]);
    assert b[..n - 1][..n - 2] == b[..n - 2] && b[..n - 2][..n - 3] == b[..n - 3] && b[..n - 3][..n - 4] == b[..n - 4];
  }

  /** Limb `k` is the word that starts 4k + 4 bytes before the end. */
  ghost predicate Spells(s: seq<word>, b: seq<byte>) {
    && |b| == 4 * |s|
    && forall k :: 0 <= k < |s| ==> s[k] == BigEndianWord(b[|b| - 4 * k - 4..|b| - 4 * k])
  }

  lemma {:induction false} SpellsNumber(s: seq<word>, b: seq<byte>)
    requires Spells(s, b)
    ensures Value(s) == FromBigEndian(b)
    decreases |s|
  {
    hide Value, FromBigEndian, BigEndianWord;
    if s == [] {
      Limbs.Empty();
      NoBytes();
    } else {
      var front := b[..|b| - 4];
      HeadLimb(s);
      LastWord(b);
      assert s[0] == BigEndianWord(b[|b| - 4..|b|]);
      assert b[|b| - 4..|b|] == b[|b| - 4..];
      forall k | 0 <= k < |s| - 1 ensures s[1..][k] == BigEndianWord(front[|front| - 4 * k - 4..|front| - 4 * k]) {
        assert s[k + 1] == BigEndianWord(b[|b| - 4 * (k + 1) - 4..|b| - 4 * (k + 1)]);
        assert b[|b| - 4 * (k + 1) - 4..|b| - 4 * (k + 1)] == front[|front| - 4 * k - 4..|front| - 4 * k];
      }
      SpellsNumber(s[1..], front);
    }
  }

  lemma NoBytes()
    ensures FromBigEndian([]) == 0
  {
  }

  /** U256_FromBigEndian */
  method FromBytes(bytes: seq<byte>) returns (n: Number)
    requires |bytes| == 32
    ensures Value(n) == FromBigEndian(bytes)
  {
    hide Value, FromBigEndian, BigEndianWord;
    var limbs := new word[LIMBS];
    for i := 0 to LIMBS
      invariant forall k :: 0 <= k < i ==> limbs[k] == BigEndianWord(bytes[28 - 4 * k..32 - 4 * k])
    {
      limbs[i] := BigEndianWord(bytes[28 - 4 * i..32 - 4 * i]);
    }
    SpellsNumber(limbs[..], bytes);
    return limbs[..];
  }

  /** EcdsaP256_VerifyDigest */
  method VerifyDigest<T(!new)>(d: Domain, publicKey: seq<byte>, digest: seq<byte>, signature: seq<byte>,
                               ghost g: Group<T>, ghost rep: Point -> T, ghost abscissa: T -> Option<nat>)
    returns (status: Status)
    requires d.Valid()
    requires |publicKey| == 64 && |digest| == 32 && |signature| == 64
    ensures var x, y := FromBigEndian(publicKey[..32]), FromBigEndian(publicKey[32..]);
            && (status == InvalidPublicKey <==> !KeyOk(d.field, x, y))
            && (Models(d.field, g, rep) && Measures(d.field, rep, abscissa) && Fermat.Prime(d.field.p) &&
                  Fermat.Prime(Value(d.order)) ==>
                  (status == Valid <==>
                     && KeyOk(d.field, x, y)
                     && Accepts(Value(d.order), g, rep(d.Base()), rep(Point(x, y, 1)), abscissa, FromBigEndian(digest),
                                FromBigEndian(signature[..32]), FromBigEndian(signature[32..]))))
  {
    hide *;
    var qx := FromBytes(publicKey[..32]);
    var qy := FromBytes(publicKey[32..]);
    var r := FromBytes(signature[..32]);
    var s := FromBytes(signature[32..]);
    var z := FromBytes(digest);
    status := VerifyNumbers(d, qx, qy, z, r, s, g, rep, abscissa);
  }
}
