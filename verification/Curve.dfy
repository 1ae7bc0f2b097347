/**
 * The point formulas of ecdsa_p256.c over the integers: doubling and mixed addition of Jacobian points on
 * y^2 = x^3 - 3x + b, and why their results satisfy the curve equation again.
 */
module Curve {
  import opened Residues

  /** A Jacobian point; z = 0 is the point at infinity. */
  datatype Point = Point(x: int, y: int, z: int)

  /** What the curve equation leaves over: zero exactly on the curve. */
  function Defect(p: Point, b: int): int {
    var d := p.z * p.z;
    p.y * p.y - p.x * p.x * p.x + 3 * (p.x * (d * d)) - b * (d * d * d)
  }

  /** PointDouble, without reductions. */
  function Doubled(p: Point): Point {
    var delta := p.z * p.z;
    var gamma := p.y * p.y;
    var beta := p.x * gamma;
    var alpha := 3 * ((p.x - delta) * (p.x + delta));
    var x := alpha * alpha - 8 * beta;
    var y := alpha * (4 * beta - x) - 8 * (gamma * gamma);
    var z := (p.y + p.z) * (p.y + p.z) - gamma - delta;
    Point(x, y, z)
  }

  /** PointAddAffine in the general case, without reductions. */
  function Added(p: Point, x2: int, y2: int): Point {
    var zz := p.z * p.z;
    var h := x2 * zz - p.x;
    var r := 2 * (y2 * (p.z * zz) - p.y);
    var hh := h * h;
    var i := 4 * hh;
    var j := h * i;
    var v := p.x * i;
    var x := r * r - j - 2 * v;
    var y := r * (v - x) - 2 * (p.y * j);
    var z := (p.z + h) * (p.z + h) - zz - hh;
    Point(x, y, z)
  }

  // ----- small identities ------------------------------------------------------------------

  lemma SquareOfDifference(a: int, b: int)
    ensures (a - b) * (a - b) == a * a - 2 * (a * b) + b * b
  {
  }

  lemma SquareOfSum(a: int, b: int)
    ensures (a + b) * (a + b) == a * a + 2 * (a * b) + b * b
  {
  }

  lemma Times(m: int, a: int, n: int, b: int)
    ensures (m * a) * (n * b) == (m * n) * (a * b)
  {
  }

  lemma CubeOfDifference(a: int, b: int)
    ensures (a - b) * (a - b) * (a - b) == a * a * a - 3 * (a * a * b) + 3 * (a * b * b) - b * b * b
  {
    SquareOfDifference(a, b);
    CubeStep(a, b, (a - b) * (a - b));
  }

  lemma CubeStep(a: int, b: int, s: int)
    requires s == a * a - 2 * (a * b) + b * b
    ensures s * (a - b) == a * a * a - 3 * (a * a * b) + 3 * (a * b * b) - b * b * b
  {
  }

  lemma CubeOfSum(a: int, b: int)
    ensures (a + b) * (a + b) * (a + b) == a * a * a + 3 * (a * a * b) + 3 * (a * b * b) + b * b * b
  {
    CubeOfDifference(a, -b);
  }

  // ----- doubling --------------------------------------------------------------------------

  /** Y^2 - X^3 for the doubled coordinates, with k for 4 beta - X. */
  lemma DoubleShape(a: int, h: int, k: int, g: int)
    requires k == 12 * h - a * a
    ensures var x, y := 4 * h - k, a * k - 8 * g;
            y * y - x * x * x == 64 * (g * g) - 16 * (a * (k * g)) - 64 * (h * h * h) + 48 * (h * h * k)
  {
    SquareOfDifference(a * k, 8 * g);
    CubeOfDifference(4 * h, k);
    SlopeSquared(a, h, k);
    Associate(a, k, g);
    ShapeSum(a * (k * g), g * g, h * h * h, h * h * k, h * k * k, k * k * k);
  }

  lemma SlopeSquared(a: int, h: int, k: int)
    requires k == 12 * h - a * a
    ensures (a * k) * (a * k) == 12 * (h * k * k) - k * k * k
  {
    assert (a * k) * (a * k) == (a * a) * (k * k);
    Distribute(k * k, 12 * h, -k);
  }

  lemma ShapeSum(t0: int, t1: int, t2: int, t3: int, t4: int, t5: int)
    ensures (12 * t4 - t5 - 16 * t0 + 64 * t1) - (64 * t2 - 48 * t3 + 12 * t4 - t5) ==
              64 * t1 - 16 * t0 - 64 * t2 + 48 * t3
  {
  }

  lemma Squares(x: int, g: int, k: int)
    ensures (x * g) * (x * g) * k == (g * g) * k * (x * x)
  {
    assert (x * g) * (x * g) == (x * x) * (g * g);
    Associate(x * x, g * g, k);
  }

  lemma Cubes(x: int, g: int)
    ensures (x * g) * (x * g) * (x * g) == g * (g * g) * (x * x * x)
  {
    Squares(x, g, x * g);
    assert (g * g) * (x * g) * (x * x) == g * (g * g) * (x * x * x);
  }

  lemma Slope(a: int, f: int, x: int, w: int)
    requires a == 3 * (x * x - w)
    ensures a * f == 3 * (f * (x * x)) - 3 * (f * w)
  {
    Distribute(f, 3 * (x * x), -3 * w);
  }

  lemma ScaledCurve(g: int, x3: int, xw: int)
    ensures g * (g * g) * (g - x3 + 3 * xw) == g * g * (g * g) - g * (g * g) * x3 + 3 * (g * (g * g) * xw)
  {
    Distribute(g * (g * g), g - x3, 3 * xw);
    Distribute(g * (g * g), g, -x3);
  }

  /** Multiplying by 64 g^3 what the curve says of the original point. */
  lemma DoubleBalance(x: int, g: int, w: int, a: int, k: int)
    requires a == 3 * (x * x - w)
    ensures var h, gg := x * g, g * g;
            64 * (gg * gg) - 16 * (a * (k * gg)) - 64 * (h * h * h) + 48 * (h * h * k) +
                48 * ((4 * h - k) * (gg * w)) ==
            64 * (g * gg * (g - x * x * x + 3 * (x * w)))
  {
    var h, gg := x * g, g * g;
    Squares(x, g, k);
    Cubes(x, g);
    Slope(a, gg * k, x, w);
    ScaledCurve(g, x * x * x, x * w);
    Distribute(gg * w, 4 * h, -k);
    SameProduct(x, g, w);
    BalanceSum(gg * gg, gg * k * (x * x), gg * k * w, g * gg * (x * x * x), g * gg * (x * w),
               a * (gg * k), h * h * h, h * h * k, (4 * h - k) * (gg * w));
  }

  lemma SameProduct(x: int, g: int, w: int)
    ensures (x * g) * (g * g * w) == g * (g * g) * (x * w)
  {
  }

  lemma BalanceSum(t0: int, t1: int, t2: int, t3: int, t4: int, slope: int, cube: int, square: int, mixed: int)
    requires slope == 3 * t1 - 3 * t2 && cube == t3 && square == t1 && mixed == 4 * t4 - t2
    ensures 64 * t0 - 16 * slope - 64 * cube + 48 * square + 48 * mixed == 64 * (t0 - t3 + 3 * t4)
  {
  }

  /** The doubled point misses the curve by 64 y^6 times what the point misses it by. */
  lemma DoubleDefect(p: Point, b: int)
    ensures var g := p.y * p.y; Defect(Doubled(p), b) == 64 * (g * (g * g) * Defect(p, b))
  {
    var x, g, d := p.x, p.y * p.y, p.z * p.z;
    var q := Doubled(p);
    var h, w := x * g, d * d;
    var a := 3 * ((x - d) * (x + d));
    assert a == 3 * (x * x - w) by { assert (x - d) * (x + d) == x * x - d * d; }
    var k := 12 * h - a * a;
    assert q.x == 4 * h - k && q.y == a * k - 8 * (g * g);
    DoubleShape(a, h, k, g * g);
    DoubleBalance(x, g, w, a, k);
    SquareOfSum(p.y, p.z);
    assert q.z == 2 * (p.y * p.z);
    DoubleZ(p.y, p.z, q.z);
    DoubleTotal(q.x, g, w, d * w, b, g - x * x * x + 3 * (x * w), q.y * q.y - q.x * q.x * q.x);
  }

  lemma DoubleZ(y: int, z: int, t: int)
    requires t == 2 * (y * z)
    ensures var g, d, e := y * y, z * z, t * t;
            e == 4 * (g * d) && e * e == 16 * (g * g * (d * d)) && e * e * e == 64 * (g * (g * g) * (d * (d * d)))
  {
    var g, d, e := y * y, z * z, t * t;
    assert e == 4 * (g * d);
    assert e * e == 16 * (g * g * (d * d));
    assert e * e * e == 64 * (g * (g * g) * (d * (d * d))) by {
      assert (g * g * (d * d)) * (g * d) == g * (g * g) * (d * (d * d));
    }
  }

  lemma DoubleTotal(x3: int, g: int, w: int, dw: int, b: int, e: int, s: int)
    requires s + 48 * (x3 * (g * g * w)) == 64 * (g * (g * g) * e)
    ensures s + 3 * (x3 * (16 * (g * g * w))) - b * (64 * (g * (g * g) * dw)) == 64 * (g * (g * g) * (e - b * dw))
  {
    Distribute(g * (g * g), e, -(b * dw));
    assert b * (64 * (g * (g * g) * dw)) == 64 * (g * (g * g) * (b * dw));
  }

  // ----- addition --------------------------------------------------------------------------

  /** What the affine point leaves over in the curve equation. */
  function AffineDefect(x: int, y: int, b: int): int { y * y - x * x * x + 3 * x - b }

  /** The sum of the squares and cubes of the new coordinates cancels against the chord. */
  lemma AddShape(r: int, s: int, c: int, q: int, y: int, chord: int)
    requires q == 3 * s - r * r + c
    requires chord == 2 * (y * (r * c)) + c * (r * r) - 3 * (s * s) - 3 * (s * c) - c * c
    ensures var x3, y3 := s - q, r * q - y * c;
            y3 * y3 - x3 * x3 * x3 + q * chord - c * c * (y * y) + s * s * s == 0
  {
    var x3, y3 := s - q, r * q - y * c;
    SquareOfDifference(r * q, y * c);
    CubeOfDifference(s, q);
    ChordTimes(r, s, c, q, y, chord);
    CrossTerm(r, q, y, c);
    AddCancel(r, s, c, q);
    ShapeCancel((r * q) * (r * q), (r * q) * (y * c), c * c * (y * y), s * s * s, s * s * q, s * q * q, q * q * q,
                q * (c * (r * r)), q * (s * c), q * (c * c));
  }

  lemma ChordTimes(r: int, s: int, c: int, q: int, y: int, chord: int)
    requires chord == 2 * (y * (r * c)) + c * (r * r) - 3 * (s * s) - 3 * (s * c) - c * c
    ensures q * chord ==
            2 * (q * (y * (r * c))) + q * (c * (r * r)) - 3 * (q * (s * s)) - 3 * (q * (s * c)) - q * (c * c)
  {
    Distribute(q, 2 * (y * (r * c)) + c * (r * r) - 3 * (s * s) - 3 * (s * c), -(c * c));
    Distribute(q, 2 * (y * (r * c)) + c * (r * r) - 3 * (s * s), -3 * (s * c));
    Distribute(q, 2 * (y * (r * c)) + c * (r * r), -3 * (s * s));
    Distribute(q, 2 * (y * (r * c)), c * (r * r));
  }

  lemma CrossTerm(r: int, q: int, y: int, c: int)
    ensures q * (y * (r * c)) == (r * q) * (y * c) && (y * c) * (y * c) == c * c * (y * y)
  {
  }

  /** q^2 (r^2 - 3s + q) + q c (r^2 - 3s - c) vanishes because r^2 - 3s is c - q. */
  lemma AddCancel(r: int, s: int, c: int, q: int)
    requires q == 3 * s - r * r + c
    ensures (r * q) * (r * q) - 3 * (s * q * q) + q * q * q + q * (c * (r * r)) - 3 * (q * (s * c)) - q * (c * c) == 0
  {
    var f := r * r - 3 * s;
    assert f == c - q;
    assert (r * q) * (r * q) - 3 * (s * q * q) == (q * q) * f by {
      assert (r * q) * (r * q) == (q * q) * (r * r);
      Distribute(q * q, r * r, -3 * s);
    }
    assert q * (c * (r * r)) - 3 * (q * (s * c)) == (q * c) * f by {
      Distribute(q * c, r * r, -3 * s);
    }
    assert (q * q) * f == q * q * c - q * q * q by { Distribute(q * q, c, -q); }
    assert (q * c) * f == q * (c * c) - q * q * c by { Distribute(q * c, c, -q); }
  }

  lemma ShapeCancel(rq2: int, cross: int, cy2: int, s3: int, s2q: int, sq2: int, q3: int, qcr: int, qsc: int, qcc: int)
    requires rq2 - 3 * sq2 + q3 + qcr - 3 * qsc - qcc == 0
    ensures (rq2 - 2 * cross + cy2) - (s3 - 3 * s2q + 3 * sq2 - q3) +
              (2 * cross + qcr - 3 * s2q - 3 * qsc - qcc) - cy2 + s3 == 0
  {
  }

  /** The difference of the two curve equations along the chord. */
  lemma ChordDefect(x: int, y: int, h: int, r: int, w: int, e: int)
    ensures var d := 2 * (y * r) + r * r - 3 * (x * x * h) - 3 * (x * h * h) - h * h * h;
            ((y + r) * (y + r) - (x + h) * (x + h) * (x + h) + 3 * ((x + h) * w) - e) -
            (y * y - x * x * x + 3 * (x * w) - e) == d + 3 * (h * w)
  {
    SquareOfSum(y, r);
    CubeOfSum(x, h);
    Distribute(w, x, h);
  }

  lemma ChordScaled(x: int, y: int, h: int, r: int)
    ensures var s, c := x * (h * h), h * (h * h);
            var d := 2 * (y * r) + r * r - 3 * (x * x * h) - 3 * (x * h * h) - h * h * h;
            c * d == 2 * (y * (r * c)) + c * (r * r) - 3 * (s * s) - 3 * (s * c) - c * c
  {
    var s, c := x * (h * h), h * (h * h);
    assert c * (x * x * h) == s * s by { FourthPower(x, h); }
    assert x * h * h == s && h * h * h == c;
    Distribute(c, 2 * (y * r) + r * r - 3 * (x * x * h) - 3 * s, -c);
    Distribute(c, 2 * (y * r) + r * r - 3 * (x * x * h), -3 * s);
    Distribute(c, 2 * (y * r) + r * r, -3 * (x * x * h));
    Distribute(c, 2 * (y * r), r * r);
    Associate(y, r, c);
  }

  lemma FourthPower(x: int, h: int)
    ensures h * (h * h) * (x * x * h) == (x * (h * h)) * (x * (h * h))
  {
  }

  /** The equation of the sum, with the curve constant eliminated. */
  lemma AddBalance(x: int, y: int, h: int, w: int, k: int, e1: int, s: int, c: int, t: int)
    requires s == x * (h * h) && c == h * (h * h) && t == 3 * (h * w) && e1 == y * y - x * x * x + 3 * (x * w) - k
    ensures k * (c * c) == c * c * (y * y) - s * s * s + s * (c * t) - c * c * e1
  {
    assert c * c * (x * x * x) == s * s * s by { SixthPower(x, h); }
    assert c * c * (3 * (x * w)) == s * (c * t) by { FifthPower(x, h, w); }
    Distribute(c * c, y * y - x * x * x + 3 * (x * w), -e1);
    Distribute(c * c, y * y - x * x * x, 3 * (x * w));
    Distribute(c * c, y * y, -(x * x * x));
  }

  lemma SixthPower(x: int, h: int)
    ensures var s, c := x * (h * h), h * (h * h); c * c * (x * x * x) == s * s * s
  {
    var f := h * h;
    var s, c := x * f, h * f;
    assert c * c == f * (f * f);
    Cubes(x, f);
  }

  lemma FifthPower(x: int, h: int, w: int)
    ensures var s, c := x * (h * h), h * (h * h); c * c * (3 * (x * w)) == s * (c * (3 * (h * w)))
  {
    var f := h * h;
    var s, c := x * f, h * f;
    assert c * (x * w) == s * (h * w) by { assert (h * f) * (x * w) == (x * f) * (h * w); }
    Associate(c, c, 3 * (x * w));
    assert s * (c * (3 * (h * w))) == c * (3 * (s * (h * w)));
  }

  /** Everything that is left is a multiple of what the two points leave over. */
  lemma AddTotal(x3: int, y3: int, s: int, c: int, q: int, t: int, kcc: int, yy: int, e1: int, e2: int, chord: int)
    requires x3 == s - q && c * t == c * (e2 - e1) - chord
    requires kcc == c * c * yy - s * s * s + s * (c * t) - c * c * e1
    requires y3 * y3 - x3 * x3 * x3 + q * chord - c * c * yy + s * s * s == 0
    ensures y3 * y3 - x3 * x3 * x3 + x3 * (c * t) - kcc == c * c * e1 - q * (c * (e2 - e1))
  {
    Distribute(c * t, s, -q);
    Distribute(q, c * (e2 - e1), -chord);
  }

  /** The sum misses the curve by a combination of what the two points miss it by. */
  lemma AddDefect(p: Point, x2: int, y2: int, b: int)
    ensures var d := p.z * p.z;
            var h, r := x2 * d - p.x, y2 * (p.z * d) - p.y;
            var c := h * (h * h);
            var q := 3 * (p.x * (h * h)) - r * r + c;
            var e1, e2 := Defect(p, b), d * d * d * AffineDefect(x2, y2, b);
            Defect(Added(p, x2, y2), b) == 64 * (c * c * e1 - q * (c * (e2 - e1)))
  {
    hide Defect, Added, AffineDefect;
    var d := p.z * p.z;
    var u, v := x2 * d, y2 * (p.z * d);
    var h, r := u - p.x, v - p.y;
    var s, c := p.x * (h * h), h * (h * h);
    var q := 3 * s - r * r + c;
    DefectIs(p, b);
    ScaledAffine(p.z, x2, y2, b);
    AddCore(p.x, p.y, u, v, d * d, b * (d * d * d), Defect(p, b), d * d * d * AffineDefect(x2, y2, b));
    AddedIs(p, x2, y2, h, r, s, c, q);
    DefectScaled(s - q, r * q - p.y * c, p.z, h, b, Added(p, x2, y2));
  }

  /** The chord through (x, y) and (u, v) on the curve with the coefficients 3w and k. */
  lemma AddCore(x: int, y: int, u: int, v: int, w: int, k: int, e1: int, e2: int)
    requires e1 == y * y - x * x * x + 3 * (x * w) - k && e2 == v * v - u * u * u + 3 * (u * w) - k
    ensures var h, r := u - x, v - y;
            var s, c := x * (h * h), h * (h * h);
            var q := 3 * s - r * r + c;
            var x3, y3 := s - q, r * q - y * c;
            y3 * y3 - x3 * x3 * x3 + x3 * (c * (3 * (h * w))) - k * (c * c) == c * c * e1 - q * (c * (e2 - e1))
  {
    var h, r := u - x, v - y;
    var s, c := x * (h * h), h * (h * h);
    var q, t := 3 * s - r * r + c, 3 * (h * w);
    var chord := 2 * (y * (r * c)) + c * (r * r) - 3 * (s * s) - 3 * (s * c) - c * c;
    assert c * t == c * (e2 - e1) - chord by { ChordBalance(x, y, u, v, w, k); }
    AddShape(r, s, c, q, y, chord);
    AddBalance(x, y, h, w, k, e1, s, c, t);
    AddTotal(s - q, r * q - y * c, s, c, q, t, k * (c * c), y * y, e1, e2, chord);
  }

  lemma ChordBalance(x: int, y: int, u: int, v: int, w: int, k: int)
    ensures var h, r := u - x, v - y;
            var s, c := x * (h * h), h * (h * h);
            var e1, e2 := y * y - x * x * x + 3 * (x * w) - k, v * v - u * u * u + 3 * (u * w) - k;
            c * (3 * (h * w)) ==
            c * (e2 - e1) - (2 * (y * (r * c)) + c * (r * r) - 3 * (s * s) - 3 * (s * c) - c * c)
  {
    var h, r := u - x, v - y;
    var c := h * (h * h);
    var d := 2 * (y * r) + r * r - 3 * (x * x * h) - 3 * (x * h * h) - h * h * h;
    ChordDefect(x, y, h, r, w, k);
    ChordScaled(x, y, h, r);
    Distribute(c, d, 3 * (h * w));
  }

  lemma DefectIs(p: Point, b: int)
    ensures var d := p.z * p.z; Defect(p, b) == p.y * p.y - p.x * p.x * p.x + 3 * (p.x * (d * d)) - b * (d * d * d)
  {
  }

  /** The affine point brought to the denominator of the other. */
  lemma ScaledAffine(z: int, x2: int, y2: int, b: int)
    ensures var d := z * z;
            var u, v := x2 * d, y2 * (z * d);
            d * d * d * AffineDefect(x2, y2, b) == v * v - u * u * u + 3 * (u * (d * d)) - b * (d * d * d)
  {
    var d := z * z;
    var f := d * d * d;
    assert (y2 * (z * d)) * (y2 * (z * d)) == f * (y2 * y2) by {
      assert (z * d) * (z * d) == f;
      assert (y2 * (z * d)) * (y2 * (z * d)) == (y2 * y2) * ((z * d) * (z * d));
    }
    Cubes(x2, d);
    assert d * (d * d) == f;
    assert (x2 * d) * (d * d) == f * x2;
    Distribute(f, y2 * y2 - x2 * x2 * x2 + 3 * x2, -b);
    Distribute(f, y2 * y2 - x2 * x2 * x2, 3 * x2);
    Distribute(f, y2 * y2, -(x2 * x2 * x2));
  }

  /** The new coordinates in terms of the chord. */
  lemma AddedIs(p: Point, x2: int, y2: int, h: int, r: int, s: int, c: int, q: int)
    requires h == x2 * (p.z * p.z) - p.x && r == y2 * (p.z * (p.z * p.z)) - p.y
    requires s == p.x * (h * h) && c == h * (h * h) && q == 3 * s - r * r + c
    ensures Added(p, x2, y2) == Point(4 * (s - q), 8 * (r * q - p.y * c), 2 * (p.z * h))
  {
    Times(2, r, 2, r);
    Times(1, h, 4, h * h);
    Times(1, p.x, 4, h * h);
    Times(2, r, 4, q);
    Times(1, p.y, 4, c);
    SquareOfSum(p.z, h);
    assert 4 * s - 4 * (s - q) == 4 * q;
  }

  lemma DefectScaled(x: int, y: int, z: int, h: int, b: int, p: Point)
    requires p == Point(4 * x, 8 * y, 2 * (z * h))
    ensures var d, c := z * z, h * (h * h);
            Defect(p, b) == 64 * (y * y - x * x * x + x * (c * (3 * (h * (d * d)))) - b * (d * d * d) * (c * c))
  {
    var d, f := z * z, h * h;
    var c := h * f;
    DoubleZ(h, z, p.z);
    assert (8 * y) * (8 * y) == 64 * (y * y) && (4 * x) * (4 * x) * (4 * x) == 64 * (x * x * x);
    assert f * (f * f) == c * c && d * (d * d) == d * d * d;
    assert (4 * x) * (16 * (f * f * (d * d))) == 64 * (x * (f * f * (d * d)));
    assert f * f * (d * d) == c * (h * (d * d)) by { assert f * f == c * h; Associate(c, h, d * d); }
    assert b * (64 * (c * c * (d * d * d))) == 64 * (b * (d * d * d) * (c * c));
  }
}
