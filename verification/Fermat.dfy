/** Fermat's little theorem: why raising to the power m - 2 inverts modulo a prime m. */
module Fermat {
  import opened Residues

  ghost predicate Prime(p: nat) { p >= 2 && forall d :: 1 < d < p ==> p % d != 0 }

  lemma AtLeastTwo(p: nat)
    requires Prime(p)
    ensures p >= 2
  {
  }

  lemma ZeroMod(x: int, m: int, q: int)
    requires m > 0 && x == m * q
    ensures x % m == 0
  {
    Unique(x, m, q, 0);
  }

  /** A prime that divides neither factor does not divide the product. */
  lemma {:induction false} NoZeroProduct(p: nat, a: int, b: nat)
    requires Prime(p) && a % p != 0 && 0 < b < p
    ensures a * b % p != 0
    decreases b
  {
    if b > 1 {
      var q, r := p / b, p % b;
      Divided(p, b);
      NoZeroProduct(p, a, r);
      if a * b % p == 0 {
        Divided(a * b, p);
        Remainder(p, a, b, q, r, a * b / p);
        ZeroMod(a * r, p, a - a * b / p * q);
        assert false;
      }
    }
  }

  lemma Remainder(p: int, a: int, b: int, q: int, r: int, k: int)
    requires p == b * q + r && a * b == p * k
    ensures a * r == p * (a - k * q)
  {
    Distribute(a, b * q, r);
    Associate(a, b, q);
    Associate(p, k, q);
    Distribute(p, a, -(k * q));
  }

  lemma Divides(p: nat, a: int, b: int)
    requires Prime(p) && a % p != 0 && a * b % p == 0
    ensures b % p == 0
  {
    hide Prime;
    AtLeastTwo(p);
    FactorModRight(b, a, p);
    if b % p != 0 { NoZeroProduct(p, a, b % p); }
  }

  // ----- binomial coefficients -------------------------------------------------------------

  function Choose(n: nat, k: nat): nat {
    if k == 0 then 1 else if n == 0 then 0 else Choose(n - 1, k - 1) + Choose(n - 1, k)
  }

  lemma {:induction false} ChooseTop(n: nat, k: nat)
    ensures k > n ==> Choose(n, k) == 0
    ensures Choose(n, n) == 1
    decreases n
  {
    if n > 0 {
      if k > n { ChooseTop(n - 1, k - 1); }
      ChooseTop(n - 1, k);
      ChooseTop(n - 1, n);
    }
  }

  lemma AbsorbStep(n: int, k: int, u: int, v: int, y: int)
    requires k * (u + v) == n * u && (k + 1) * y == n * v
    ensures (k + 1) * (u + v + y) == (n + 1) * (u + v)
  {
    Distribute(k + 1, u + v, y);
    Distribute(u + v, k, 1);
    Distribute(n, u, v);
    Distribute(u + v, n, 1);
  }

  lemma {:induction false} Absorb(n: nat, k: nat)
    ensures (k + 1) * Choose(n + 1, k + 1) == (n + 1) * Choose(n, k)
    decreases n
  {
    hide Choose;
    ChooseStep(n, k);
    if n == 0 {
      if k > 0 { ChooseTop(0, k); }
      ChooseTop(0, k + 1);
      ChooseNone(0);
    } else if k == 0 {
      Absorb(n - 1, 0);
      ChooseNone(n);
      ChooseNone(n - 1);
    } else {
      Absorb(n - 1, k);
      Absorb(n - 1, k - 1);
      ChooseStep(n - 1, k - 1);
      AbsorbStep(n, k, Choose(n - 1, k - 1), Choose(n - 1, k), Choose(n, k + 1));
    }
  }

  lemma ChooseStep(n: nat, k: nat)
    ensures Choose(n + 1, k + 1) == Choose(n, k) + Choose(n, k + 1)
  {
  }

  lemma ChooseNone(n: nat)
    ensures Choose(n, 0) == 1
  {
  }

  /** A prime divides its inner binomial coefficients. */
  lemma InnerChoose(p: nat, k: nat)
    requires Prime(p) && 0 < k < p
    ensures Choose(p, k) % p == 0
  {
    hide Choose;
    Absorb(p - 1, k - 1);
    ZeroMod(k * Choose(p, k), p, Choose(p - 1, k - 1));
    Unique(k, p, 0, k);
    Divides(p, k, Choose(p, k));
  }

  /** The first `k + 1` terms of the binomial expansion of (a + 1)^n. */
  function Terms(a: int, n: nat, k: nat): int {
    if k == 0 then 1 else Terms(a, n, k - 1) + Choose(n, k) * Power(a, k)
  }

  lemma {:induction false} TermsStep(a: int, n: nat, k: nat)
    ensures Terms(a, n + 1, k + 1) == Terms(a, n, k + 1) + a * Terms(a, n, k)
    decreases k
  {
    hide Choose, Power, Terms;
    ChooseStep(n, k);
    PowerNext(a, k);
    TermNext(a, n + 1, k);
    TermNext(a, n, k);
    if k == 0 {
      ChooseNone(n);
      TermsStart(a, n);
      TermsStart(a, n + 1);
      TermArith(a, Choose(n, 0), Choose(n, 1), Power(a, 0), 0, 0);
      PowerNone(a);
    } else {
      TermsStep(a, n, k - 1);
      TermNext(a, n, k - 1);
      TermArith(a, Choose(n, k), Choose(n, k + 1), Power(a, k), Terms(a, n, k), Terms(a, n, k - 1));
    }
  }

  /** The terms with a^k times a, next to those with a^(k + 1). */
  lemma TermArith(a: int, c: int, d: int, e: int, low: int, lower: int)
    ensures low + a * lower + (c + d) * (a * e) == low + d * (a * e) + a * (lower + c * e)
  {
    Distribute(a * e, c, d);
    Distribute(a, lower, c * e);
    Associate(a, c, e);
    Associate(c, a, e);
  }

  lemma TermNext(a: int, n: nat, k: nat)
    ensures Terms(a, n, k + 1) == Terms(a, n, k) + Choose(n, k + 1) * Power(a, k + 1)
  {
    hide Choose, Power;
  }

  lemma TermsStart(a: int, n: nat)
    ensures Terms(a, n, 0) == 1
  {
  }

  lemma PowerNone(a: int)
    ensures Power(a, 0) == 1
  {
  }

  lemma {:induction false} Binomial(a: int, n: nat)
    ensures Power(a + 1, n) == Terms(a, n, n)
    decreases n
  {
    hide Choose, Power, Terms;
    if n == 0 {
      PowerNone(a + 1);
      TermsStart(a, 0);
    } else {
      Binomial(a, n - 1);
      PowerNext(a + 1, n - 1);
      TermsStep(a, n - 1, n - 1);
      TermNext(a, n - 1, n - 1);
      ChooseTop(n - 1, n);
      Distribute(Terms(a, n - 1, n - 1), a, 1);
    }
  }

  lemma {:induction false} InnerTerms(p: nat, a: int, k: nat)
    requires Prime(p) && k < p
    ensures Terms(a, p, k) % p == 1
    decreases k
  {
    hide Choose, Power, Prime;
    AtLeastTwo(p);
    if k == 0 {
      Unique(1, p, 0, 1);
    } else {
      InnerTerms(p, a, k - 1);
      InnerChoose(p, k);
      FactorMod(Choose(p, k), Power(a, k), p);
      SumMod(Terms(a, p, k - 1), Choose(p, k) * Power(a, k), p);
      Unique(1, p, 0, 1);
      Unique(0, p, 0, 0);
    }
  }

  lemma {:induction false} PowerP(p: nat, a: nat)
    requires Prime(p)
    ensures Power(a, p) % p == a % p
    decreases a
  {
    hide Terms, Choose, Power, Prime;
    AtLeastTwo(p);
    if a == 0 {
      ZeroPower(p);
    } else {
      var b := a - 1;
      PowerP(p, b);
      Binomial(b, p);
      LastTerm(b, p);
      InnerTerms(p, b, p - 1);
      SumMod(Terms(b, p, p - 1), Power(b, p), p);
      SumMod(1, b, p);
      Unique(1, p, 0, 1);
    }
  }

  lemma ZeroPower(p: nat)
    requires p > 0
    ensures Power(0, p) == 0
  {
  }

  lemma LastTerm(a: int, p: nat)
    requires p > 0
    ensures Terms(a, p, p) == Terms(a, p, p - 1) + Power(a, p)
  {
    hide Choose, Power;
    ChooseTop(p, p);
  }

  /** Fermat: a^(p - 1) is 1 modulo a prime p that does not divide a. */
  lemma LittleTheorem(p: nat, a: nat)
    requires Prime(p) && a % p != 0
    ensures Power(a, p - 1) % p == 1
  {
    hide Power, Prime;
    AtLeastTwo(p);
    var x := Power(a, p - 1);
    PowerNext(a, p - 1);
    PowerP(p, a);
    DifferenceMod(a * x, a, p);
    Unique(0, p, 0, 0);
    Distribute(a, x, -1);
    Divides(p, a, x - 1);
    SumMod(x - 1, 1, p);
    Unique(1, p, 0, 1);
  }

  lemma PowerNext(x: int, n: nat)
    ensures Power(x, n + 1) == x * Power(x, n)
  {
  }

  lemma Cancelled(x: int, a: int, p: int)
    requires p > 0 && a * x % p == 1
    ensures x % p * a % p == 1
  {
    FactorMod(x, a, p);
    Commute(a, x);
  }

  /** The residue that ModInverse computes is the inverse. */
  lemma InverseModPrime(p: nat, a: nat)
    requires Prime(p) && a % p != 0
    ensures Power(a, p - 2) % p * a % p == 1
  {
    hide Power, Prime;
    AtLeastTwo(p);
    LittleTheorem(p, a);
    PowerNext(a, p - 2);
    Cancelled(Power(a, p - 2), a, p);
  }

  lemma SquareNonzero(p: nat, z: int)
    requires Prime(p) && z % p != 0
    ensures z * z % p != 0
  {
    hide Prime;
    AtLeastTwo(p);
    if z * z % p == 0 { Divides(p, z, z); }
  }

  lemma SmallMultiple(p: int, d: int)
    requires p > 0 && d % p == 0 && -p < d < p
    ensures d == 0
  {
    var q := d / p;
    Divided(d, p);
    Grows(p, q);
  }

  /** A factor that the prime does not divide can be cancelled. */
  lemma Cancel(p: nat, z: int, a: int, b: int)
    requires Prime(p) && z % p != 0 && 0 <= a < p && 0 <= b < p && z * a % p == z * b % p
    ensures a == b
  {
    hide Prime;
    AtLeastTwo(p);
    SameResidue(z * a, z * b, p);
    Subtract(z, a, b);
    Divides(p, z, a - b);
    SmallMultiple(p, a - b);
  }

  lemma Subtract(z: int, a: int, b: int)
    ensures z * (a - b) == z * a - z * b
  {
  }

  lemma SameResidue(x: int, y: int, p: int)
    requires p > 0 && x % p == y % p
    ensures (x - y) % p == 0
  {
    DifferenceMod(x, y, p);
    Unique(0, p, 0, 0);
  }
}
