/** A prime field and the points of a curve over it, as ecdsa_p256.c computes with them. */
module PointArithmetic {
  import opened Bytes
  import opened Limbs
  import opened Residues
  import opened Modular
  import opened Curve

  type Number = s: seq<word> | |s| == LIMBS witness [0, 0, 0, 0, 0, 0, 0, 0]

  const ZERO: Number := [0, 0, 0, 0, 0, 0, 0, 0]
  const ONE: Number := [1, 0, 0, 0, 0, 0, 0, 0]

  /** The number eight limbs spell. */
  lemma Spell8(s: Number)
    ensures Value(s) ==
            s[0] + RADIX * (s[1] + RADIX * (s[2] + RADIX * (s[3] + RADIX *
            (s[4] + RADIX * (s[5] + RADIX * (s[6] + RADIX * s[7]))))))
  {
    hide Value;
    HeadLimb(s);
    HeadLimb(s[1..]);
    HeadLimb(s[2..]);
    HeadLimb(s[3..]);
    HeadLimb(s[4..]);
    HeadLimb(s[5..]);
    HeadLimb(s[6..]);
    HeadLimb(s[7..]);
    Empty();
    assert s[1..][1..] == s[2..] && s[2..][1..] == s[3..] && s[3..][1..] == s[4..] && s[4..][1..] == s[5..];
    assert s[5..][1..] == s[6..] && s[6..][1..] == s[7..] && s[7..][1..] == [];
  }

  /** A field and the coefficient of a curve y^2 = x^3 - 3 x + b over it, with the limb tables that spell them. */
  datatype Parameters = Parameters(p: int, pLimbs: Number, b: int, bLimbs: Number)

  predicate Spelled(f: Parameters) { Value(f.pLimbs) == f.p >= 2 && Value(f.bLimbs) == f.b < f.p }

  /** The field of two elements. */
  function Smallest(): (f: Parameters)
    ensures Spelled(f)
  {
    Spell8([2, 0, 0, 0, 0, 0, 0, 0]);
    Spell8(ZERO);
    Parameters(2, [2, 0, 0, 0, 0, 0, 0, 0], 0, ZERO)
  }

  type Field = f: Parameters | Spelled(f) witness Smallest()

  lemma Constants(f: Field)
    ensures Value(f.pLimbs) == f.p && Value(f.bLimbs) == f.b && Value(ZERO) == 0 && Value(ONE) == 1
  {
    hide Value;
    Spell8(ZERO);
    Spell8(ONE);
  }

  // ----- residues --------------------------------------------------------------------------

  function Residue(f: Field, a: int): (r: nat)
    ensures r < f.p
  {
    a % f.p
  }

  lemma ResidueOps(f: Field, a: int, b: int)
    ensures Residue(f, Residue(f, a) + Residue(f, b)) == Residue(f, a + b)
    ensures Residue(f, Residue(f, a) - Residue(f, b)) == Residue(f, a - b)
    ensures Residue(f, Residue(f, a) * Residue(f, b)) == Residue(f, a * b)
    ensures Residue(f, Residue(f, a)) == Residue(f, a)
  {
    SumMod(a, b, f.p);
    DifferenceMod(a, b, f.p);
    ProductMod(a, b, f.p);
    SumMod(a, 0, f.p);
  }

  /** `n` holds the residue of `a`. */
  ghost predicate Is(f: Field, n: Number, a: int) { Value(n) == Residue(f, a) }

  /** A struct copied into memory of its own. */
  method Fresh(n: Number) returns (a: array<word>)
    ensures fresh(a) && a.Length == LIMBS && a[..] == n
  {
    a := new word[LIMBS](i requires 0 <= i < LIMBS => n[i]);
    assert a[..] == n;
  }

  method Add(f: Field, a: Number, b: Number, ghost x: int, ghost y: int) returns (c: Number)
    requires Is(f, a, x) && Is(f, b, y)
    ensures Is(f, c, x + y)
  {
    hide Value, Residue;
    Constants(f);
    ResidueOps(f, x, y);
    ModP(f, Residue(f, x) + Residue(f, y));
    var r := Fresh(a);
    var right := Fresh(b);
    var modulus := Fresh(f.pLimbs);
    ModAdd(r, r, right, modulus);
    return r[..];
  }

  lemma ModP(f: Field, a: int)
    ensures a % f.p == Residue(f, a)
  {
  }

  method Sub(f: Field, a: Number, b: Number, ghost x: int, ghost y: int) returns (c: Number)
    requires Is(f, a, x) && Is(f, b, y)
    ensures Is(f, c, x - y)
  {
    hide Value, Residue;
    Constants(f);
    ResidueOps(f, x, y);
    ModP(f, Residue(f, x) - Residue(f, y));
    var r := Fresh(a);
    var right := Fresh(b);
    var modulus := Fresh(f.pLimbs);
    ModSub(r, r, right, modulus);
    return r[..];
  }

  method Mul(f: Field, a: Number, b: Number, ghost x: int, ghost y: int) returns (c: Number)
    requires Is(f, a, x) && Is(f, b, y)
    ensures Is(f, c, x * y)
  {
    hide Value, Residue;
    Constants(f);
    ResidueOps(f, x, y);
    ModP(f, Residue(f, x) * Residue(f, y));
    var r := Fresh(a);
    var right := Fresh(b);
    var modulus := Fresh(f.pLimbs);
    ModMul(r, r, right, modulus);
    return r[..];
  }

  /** ModDouble, ModTriple, ModTimes4 and ModTimes8 */
  method Twofold(f: Field, a: Number, ghost x: int) returns (c: Number)
    requires Is(f, a, x)
    ensures Is(f, c, 2 * x)
  {
    c := Add(f, a, a, x, x);
  }

  method Threefold(f: Field, a: Number, ghost x: int) returns (c: Number)
    requires Is(f, a, x)
    ensures Is(f, c, 3 * x)
  {
    var d := Twofold(f, a, x);
    c := Add(f, d, a, 2 * x, x);
  }

  method Fourfold(f: Field, a: Number, ghost x: int) returns (c: Number)
    requires Is(f, a, x)
    ensures Is(f, c, 4 * x)
  {
    var d := Twofold(f, a, x);
    c := Twofold(f, d, 2 * x);
  }

  method Eightfold(f: Field, a: Number, ghost x: int) returns (c: Number)
    requires Is(f, a, x)
    ensures Is(f, c, 8 * x)
  {
    var d := Fourfold(f, a, x);
    c := Twofold(f, d, 4 * x);
  }

  method Zero(f: Field, a: Number, ghost x: int) returns (zero: bool)
    requires Is(f, a, x)
    ensures zero <==> Residue(f, x) == 0
  {
    hide Value, Residue;
    var m := Fresh(a);
    zero := IsZero(m);
  }

  // ----- points ----------------------------------------------------------------------------

  datatype Jacobian = Jacobian(x: Number, y: Number, z: Number)

  const INFINITY := Point(0, 0, 0)

  /** `j` holds the residues of `p`. */
  ghost predicate Holds(f: Field, j: Jacobian, p: Point) { Is(f, j.x, p.x) && Is(f, j.y, p.y) && Is(f, j.z, p.z) }

  function Reduced(f: Field, p: Point): Point { Point(Residue(f, p.x), Residue(f, p.y), Residue(f, p.z)) }

  /** PointDouble as a function of residues. */
  function Double(f: Field, p: Point): Point {
    if Residue(f, p.z) == 0 || Residue(f, p.y) == 0 then INFINITY else Reduced(f, Doubled(p))
  }

  /** PointAddAffine as a function of residues. */
  function AddAffine(f: Field, p: Point, x: int, y: int): Point {
    var zz := p.z * p.z;
    if Residue(f, p.z) == 0 then Reduced(f, Point(x, y, 1))
    else if Residue(f, x * zz - p.x) != 0 then Reduced(f, Added(p, x, y))
    else if Residue(f, y * (p.z * zz) - p.y) == 0 then Double(f, p)
    else INFINITY
  }

  method SetInfinity(f: Field) returns (j: Jacobian)
    ensures Holds(f, j, INFINITY)
  {
    hide Value, Residue;
    Constants(f);
    SmallResidues(f);
    return Jacobian(ZERO, ZERO, ZERO);
  }

  lemma SmallResidues(f: Field)
    ensures Residue(f, 0) == 0 && Residue(f, 1) == 1
  {
    hide Value;
    Unique(0, f.p, 0, 0);
    Unique(1, f.p, 0, 1);
  }

  lemma HoldsReduced(f: Field, j: Jacobian, p: Point)
    requires Holds(f, j, p)
    ensures Holds(f, j, Reduced(f, p))
  {
    hide Value, Residue;
    ResidueOps(f, p.x, 0);
    ResidueOps(f, p.y, 0);
    ResidueOps(f, p.z, 0);
  }

  /** PointDouble */
  method PointDouble(f: Field, j: Jacobian, ghost p: Point) returns (r: Jacobian)
    requires Holds(f, j, p)
    ensures Holds(f, r, Double(f, p))
  {
    hide Is, Residue;
    var atInfinity := Zero(f, j.z, p.z);
    var flat := Zero(f, j.y, p.y);
    if atInfinity || flat {
      r := SetInfinity(f);
      return;
    }
    ghost var d, g := p.z * p.z, p.y * p.y;
    ghost var b, a := p.x * g, 3 * ((p.x - d) * (p.x + d));
    ghost var q := Doubled(p);
    var delta := Mul(f, j.z, j.z, p.z, p.z);
    var gamma := Mul(f, j.y, j.y, p.y, p.y);
    var beta := Mul(f, j.x, gamma, p.x, g);
    var t1 := Sub(f, j.x, delta, p.x, d);
    var t2 := Add(f, j.x, delta, p.x, d);
    var alpha := Mul(f, t1, t2, p.x - d, p.x + d);
    alpha := Threefold(f, alpha, (p.x - d) * (p.x + d));
    var x3 := Mul(f, alpha, alpha, a, a);
    t1 := Eightfold(f, beta, b);
    x3 := Sub(f, x3, t1, a * a, 8 * b);
    t1 := Add(f, j.y, j.z, p.y, p.z);
    var z3 := Mul(f, t1, t1, p.y + p.z, p.y + p.z);
    z3 := Sub(f, z3, gamma, (p.y + p.z) * (p.y + p.z), g);
    z3 := Sub(f, z3, delta, (p.y + p.z) * (p.y + p.z) - g, d);
    t1 := Fourfold(f, beta, b);
    t1 := Sub(f, t1, x3, 4 * b, q.x);
    var y3 := Mul(f, alpha, t1, a, 4 * b - q.x);
    var gamma2 := Mul(f, gamma, gamma, g, g);
    gamma2 := Eightfold(f, gamma2, g * g);
    y3 := Sub(f, y3, gamma2, a * (4 * b - q.x), 8 * (g * g));
    r := Jacobian(x3, y3, z3);
    HoldsReduced(f, r, q);
  }

  /** PointAddAffine */
  method PointAddAffine(f: Field, j: Jacobian, ax: Number, ay: Number, ghost p: Point, ghost x: int, ghost y: int)
    returns (r: Jacobian)
    requires Holds(f, j, p) && Is(f, ax, x) && Is(f, ay, y)
    ensures Holds(f, r, AddAffine(f, p, x, y))
  {
    hide Is, Residue;
    var atInfinity := Zero(f, j.z, p.z);
    if atInfinity {
      OneIs(f);
      r := Jacobian(ax, ay, ONE);
      HoldsReduced(f, r, Point(x, y, 1));
      return;
    }
    ghost var zz := p.z * p.z;
    ghost var h0, r0 := x * zz - p.x, y * (p.z * zz) - p.y;
    var z1z1 := Mul(f, j.z, j.z, p.z, p.z);
    var u2 := Mul(f, ax, z1z1, x, zz);
    var t1 := Mul(f, j.z, z1z1, p.z, zz);
    var s2 := Mul(f, ay, t1, y, p.z * zz);
    var h := Sub(f, u2, j.x, x * zz, p.x);
    var rr := Sub(f, s2, j.y, y * (p.z * zz), p.y);
    var sameX := Zero(f, h, h0);
    if sameX {
      var sameY := Zero(f, rr, r0);
      if sameY { r := PointDouble(f, j, p); } else { r := SetInfinity(f); }
      return;
    }
    r := AddDistinct(f, j, z1z1, h, rr, p, x, y);
  }

  lemma OneIs(f: Field)
    ensures Is(f, ONE, 1)
  {
    hide Value, Residue;
    Constants(f);
    SmallResidues(f);
  }

  /** The general case of PointAddAffine. */
  method AddDistinct(f: Field, j: Jacobian, z1z1: Number, h: Number, slope: Number, ghost p: Point, ghost x: int,
                     ghost y: int)
    returns (r: Jacobian)
    requires Holds(f, j, p)
    requires Is(f, z1z1, p.z * p.z) && Is(f, h, x * (p.z * p.z) - p.x) && Is(f, slope, y * (p.z * (p.z * p.z)) - p.y)
    ensures Holds(f, r, Reduced(f, Added(p, x, y)))
  {
    hide Is, Residue;
    ghost var zz := p.z * p.z;
    ghost var h0, r0 := x * zz - p.x, 2 * (y * (p.z * zz) - p.y);
    ghost var hh0 := h0 * h0;
    ghost var j0, v0 := h0 * (4 * hh0), p.x * (4 * hh0);
    ghost var q := Added(p, x, y);
    var hh := Mul(f, h, h, h0, h0);
    var i4 := Fourfold(f, hh, hh0);
    var jj := Mul(f, h, i4, h0, 4 * hh0);
    var rr := Twofold(f, slope, y * (p.z * zz) - p.y);
    var v := Mul(f, j.x, i4, p.x, 4 * hh0);
    var x3 := Mul(f, rr, rr, r0, r0);
    x3 := Sub(f, x3, jj, r0 * r0, j0);
    var t1 := Twofold(f, v, v0);
    x3 := Sub(f, x3, t1, r0 * r0 - j0, 2 * v0);
    t1 := Sub(f, v, x3, v0, q.x);
    var y3 := Mul(f, rr, t1, r0, v0 - q.x);
    var t2 := Mul(f, j.y, jj, p.y, j0);
    t2 := Twofold(f, t2, p.y * j0);
    y3 := Sub(f, y3, t2, r0 * (v0 - q.x), 2 * (p.y * j0));
    t1 := Add(f, j.z, h, p.z, h0);
    var z3 := Mul(f, t1, t1, p.z + h0, p.z + h0);
    z3 := Sub(f, z3, z1z1, (p.z + h0) * (p.z + h0), zz);
    z3 := Sub(f, z3, hh, (p.z + h0) * (p.z + h0) - zz, hh0);
    r := Jacobian(x3, y3, z3);
    HoldsReduced(f, r, q);
  }

  // ----- the curve equation ----------------------------------------------------------------

  predicate OnCurve(f: Field, p: Point) { Residue(f, p.z) == 0 || Residue(f, Defect(p, f.b)) == 0 }

  lemma SameProduct(f: Field, a: int, a': int, b: int, b': int)
    requires Residue(f, a) == Residue(f, a') && Residue(f, b) == Residue(f, b')
    ensures Residue(f, a * b) == Residue(f, a' * b')
  {
    hide Residue;
    ResidueOps(f, a, b);
    ResidueOps(f, a', b');
  }

  lemma SameSum(f: Field, a: int, a': int, b: int, b': int)
    requires Residue(f, a) == Residue(f, a') && Residue(f, b) == Residue(f, b')
    ensures Residue(f, a + b) == Residue(f, a' + b') && Residue(f, a - b) == Residue(f, a' - b')
  {
    hide Residue;
    ResidueOps(f, a, b);
    ResidueOps(f, a', b');
  }

  /** Reducing the coordinates does not change the residue of what the equation leaves over. */
  lemma DefectReduced(f: Field, p: Point)
    ensures Residue(f, Defect(Reduced(f, p), f.b)) == Residue(f, Defect(p, f.b))
  {
    hide Residue;
    var q := Reduced(f, p);
    ResidueOps(f, p.x, 0);
    ResidueOps(f, p.y, 0);
    ResidueOps(f, p.z, 0);
    var d, e := q.z * q.z, p.z * p.z;
    SameProduct(f, q.z, p.z, q.z, p.z);
    SameProduct(f, d, e, d, e);
    SameProduct(f, d * d, e * e, d, e);
    SameProduct(f, q.y, p.y, q.y, p.y);
    SameProduct(f, q.x, p.x, q.x, p.x);
    SameProduct(f, q.x * q.x, p.x * p.x, q.x, p.x);
    SameProduct(f, q.x, p.x, d * d, e * e);
    SameProduct(f, 3, 3, q.x * (d * d), p.x * (e * e));
    SameProduct(f, f.b, f.b, d * d * d, e * e * e);
    SameSum(f, q.y * q.y, p.y * p.y, q.x * q.x * q.x, p.x * p.x * p.x);
    SameSum(f, q.y * q.y - q.x * q.x * q.x, p.y * p.y - p.x * p.x * p.x, 3 * (q.x * (d * d)), 3 * (p.x * (e * e)));
    SameSum(f, q.y * q.y - q.x * q.x * q.x + 3 * (q.x * (d * d)), p.y * p.y - p.x * p.x * p.x + 3 * (p.x * (e * e)),
            f.b * (d * d * d), f.b * (e * e * e));
  }

  lemma ZeroTimes(f: Field, a: int, b: int)
    requires Residue(f, b) == 0
    ensures Residue(f, a * b) == 0
  {
    hide Residue;
    ResidueOps(f, a, b);
    SmallResidues(f);
  }

  /** Doubling stays on the curve. */
  lemma DoubleOnCurve(f: Field, p: Point)
    requires OnCurve(f, p)
    ensures OnCurve(f, Double(f, p))
  {
    hide Residue, Defect, Doubled;
    SmallResidues(f);
    if Residue(f, p.z) != 0 && Residue(f, p.y) != 0 {
      var g := p.y * p.y;
      DoubleDefect(p, f.b);
      ZeroTimes(f, g * (g * g), Defect(p, f.b));
      ZeroTimes(f, 64, g * (g * g) * Defect(p, f.b));
      DefectReduced(f, Doubled(p));
    }
  }

  /** Mixed addition stays on the curve. */
  lemma AddOnCurve(f: Field, p: Point, x: int, y: int)
    requires OnCurve(f, p) && Residue(f, AffineDefect(x, y, f.b)) == 0
    ensures OnCurve(f, AddAffine(f, p, x, y))
  {
    hide Residue, Defect, Added, AffineDefect, Double;
    SmallResidues(f);
    var d := p.z * p.z;
    var h, r := x * d - p.x, y * (p.z * d) - p.y;
    if Residue(f, p.z) == 0 {
      AffineIsPoint(f, x, y);
      DefectReduced(f, Point(x, y, 1));
    } else if Residue(f, h) != 0 {
      var c := h * (h * h);
      var q := 3 * (p.x * (h * h)) - r * r + c;
      var e1, e2 := Defect(p, f.b), d * d * d * AffineDefect(x, y, f.b);
      AddDefect(p, x, y, f.b);
      ZeroTimes(f, d * d * d, AffineDefect(x, y, f.b));
      SameSum(f, e2, 0, e1, 0);
      ZeroTimes(f, c, e2 - e1);
      ZeroTimes(f, q, c * (e2 - e1));
      ZeroTimes(f, c * c, e1);
      SameSum(f, c * c * e1, 0, q * (c * (e2 - e1)), 0);
      ZeroTimes(f, 64, c * c * e1 - q * (c * (e2 - e1)));
      DefectReduced(f, Added(p, x, y));
    } else {
      DoubleOnCurve(f, p);
    }
  }

  lemma AffineIsPoint(f: Field, x: int, y: int)
    ensures Defect(Point(x, y, 1), f.b) == AffineDefect(x, y, f.b)
  {
  }
}
