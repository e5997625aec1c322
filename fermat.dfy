/**
 * Why a prime passes the primality tests of BigInteger.cs: Euclid's lemma,
 * the binomial theorem, Fermat's little theorem and the square roots of 1
 * modulo a prime.
 */
module Fermat {
  import opened Words
  import opened Numbers

  /** n is prime. */
  ghost predicate IsPrime(n: int)
  {
    n >= 2 && forall d: nat :: 2 <= d < n ==> !Divides(d, n)
  }

  lemma {:induction false} PrimeNoDivisor(p: nat, d: nat)
    requires IsPrime(p) && 2 <= d < p
    ensures p % d != 0
  {
    assert !Divides(d, p);
  }

  /** The divisors of a prime are 1 and the prime itself. */
  lemma {:induction false} PrimeDivisor(p: nat, d: nat)
    requires IsPrime(p) && Divides(d, p)
    ensures d == 1 || d == p
  {
    DividesFactor(d, p);
    MulLe(1, p / d, d);
  }

  /** Multiples of a multiple of d are multiples of d. */
  lemma {:induction false} DividesMultiple(d: nat, a: int, k: int)
    requires Divides(d, a)
    ensures Divides(d, a * k)
  {
    if d > 0 {
      DividesFactor(d, a);
      MulAssoc(d, a / d, k);
      MulDivides(d, (a / d) * k);
    }
  }

  // ---------------------------------------------------------------------
  // Euclid's lemma
  // ---------------------------------------------------------------------

  /** A prime dividing r * b with 0 < r < p divides b; by descent on r. */
  lemma {:induction false} EuclidReduced(p: nat, r: nat, b: int)
    requires IsPrime(p) && 0 < r < p && Divides(p, r * b)
    ensures Divides(p, b)
    decreases r
  {
    if r > 1 {
      PrimeNoDivisor(p, r);
      var q, r' := p / r, p % r;
      assert r' * b == p * b - q * (r * b) by {
        assert p == q * r + r';
        MulAssoc(q, r, b);
      }
      MulDivides(p, b);
      DividesCombination(p, p * b, r * b, q);
      EuclidReduced(p, r', b);
    }
  }

  /** Euclid's lemma: a prime dividing a product divides one of its factors. */
  lemma {:induction false} EuclidLemma(p: nat, a: int, b: int)
    requires IsPrime(p) && Divides(p, a * b)
    ensures Divides(p, a) || Divides(p, b)
  {
    var r := a % p;
    if r != 0 {
      ModCongruent(a, p);
      CongruentSym(a % p, a, p);
      CongruentScale(a, r, b, p);
      DividesCombination(p, a * b, a * b - r * b, 1);
      EuclidReduced(p, r, b);
    }
  }

  // ---------------------------------------------------------------------
  // Binomial coefficients
  // ---------------------------------------------------------------------

  /** The binomial coefficient n choose k, by Pascal's rule. */
  ghost function Binomial(n: nat, k: nat): nat
  {
    if k == 0 then 1 else if n == 0 then 0 else Binomial(n - 1, k - 1) + Binomial(n - 1, k)
  }

  lemma {:induction false} BinomialAbove(n: nat, k: nat)
    requires k > n
    ensures Binomial(n, k) == 0
    decreases n
  {
    if n > 0 {
      BinomialAbove(n - 1, k - 1);
      BinomialAbove(n - 1, k);
    }
  }

  lemma {:induction false} BinomialSelf(n: nat)
    ensures Binomial(n, n) == 1
  {
    if n > 0 {
      BinomialSelf(n - 1);
      BinomialAbove(n - 1, n);
    }
  }

  /** The arithmetic of the absorption step. */
  lemma {:induction false} AbsorptionStep(n: int, k: int, A: int, B: int, C: int, D: int)
    requires k * B == (n - 1) * D && (k - 1) * A == (n - 1) * C && A == C + D
    ensures k * (A + B) == n * A
  {
    assert k * (A + B) == (k - 1) * A + A + k * B;
    assert (n - 1) * C + (n - 1) * D == (n - 1) * (C + D);
  }

  /** The absorption identity k * C(n, k) == n * C(n - 1, k - 1). */
  lemma {:induction false} Absorption(n: nat, k: nat)
    requires 1 <= n && 1 <= k
    ensures k * Binomial(n, k) == n * Binomial(n - 1, k - 1)
    decreases n
  {
    if n == 1 {
      if k > 1 {
        BinomialAbove(1, k);
        BinomialAbove(0, k - 1);
      }
    } else {
      var A, B, D := Binomial(n - 1, k - 1), Binomial(n - 1, k), Binomial(n - 2, k - 1);
      assert Binomial(n, k) == A + B;
      Absorption(n - 1, k);
      if k == 1 {
        assert A == 1 && D == 1;
      } else {
        var C := Binomial(n - 2, k - 2);
        Absorption(n - 1, k - 1);
        assert A == C + D;
        AbsorptionStep(n, k, A, B, C, D);
      }
    }
  }

  /** A prime p divides C(p, k) for 0 < k < p. */
  lemma {:induction false} PrimeDividesBinomial(p: nat, k: nat)
    requires IsPrime(p) && 0 < k < p
    ensures Divides(p, Binomial(p, k))
  {
    Absorption(p, k);
    MulDivides(p, Binomial(p - 1, k - 1));
    EuclidLemma(p, k, Binomial(p, k));
    DivModUnique(k, p, 0, k);
  }

  // ---------------------------------------------------------------------
  // The binomial theorem for (x + 1)^n
  // ---------------------------------------------------------------------

  /** C(n, 0) + C(n, 1) * x + ... + C(n, m) * x^m. */
  ghost function BinomialSum(n: nat, x: int, m: nat): int
  {
    (if m == 0 then 0 else BinomialSum(n, x, m - 1)) + Binomial(n, m) * Power(x, m)
  }

  /** The arithmetic of one step of PascalSum. */
  lemma {:induction false} PascalStep(x: int, U: int, c0: int, c1: int, P0: int)
    ensures (U + c0 * P0) + x * U + (c0 + c1) * (x * P0) == (U + c0 * P0) + c1 * (x * P0) + x * (U + c0 * P0)
  {
    assert (c0 + c1) * (x * P0) == c0 * (x * P0) + c1 * (x * P0);
    assert x * (U + c0 * P0) == x * U + x * (c0 * P0);
    MulAssoc(c0, x, P0);
    MulAssoc(x, c0, P0);
  }

  /** Pascal's rule summed: row n + 1 is row n plus row n shifted by one power of x. */
  lemma {:induction false} PascalSum(n: nat, x: int, m: nat)
    ensures BinomialSum(n + 1, x, m + 1) == BinomialSum(n, x, m + 1) + x * BinomialSum(n, x, m)
    decreases m
  {
    var c0, c1, P0 := Binomial(n, m), Binomial(n, m + 1), Power(x, m);
    var U := if m == 0 then 0 else BinomialSum(n, x, m - 1);
    assert BinomialSum(n, x, m) == U + c0 * P0;
    assert Binomial(n + 1, m + 1) == c0 + c1;
    assert Power(x, m + 1) == x * P0;
    if m > 0 {
      PascalSum(n, x, m - 1);
    }
    assert BinomialSum(n + 1, x, m) == (U + c0 * P0) + x * U;
    PascalStep(x, U, c0, c1, P0);
  }

  /** The binomial theorem: (x + 1)^n is the sum of C(n, k) * x^k. */
  lemma {:induction false} BinomialTheorem(n: nat, x: int)
    ensures Power(x + 1, n) == BinomialSum(n, x, n)
    decreases n
  {
    if n > 0 {
      var S := BinomialSum(n - 1, x, n - 1);
      assert BinomialSum(n - 1, x, n) == S by {
        BinomialAbove(n - 1, n);
      }
      assert BinomialSum(n, x, n) == S + x * S by {
        PascalSum(n - 1, x, n - 1);
      }
      assert Power(x + 1, n) == (x + 1) * S by {
        BinomialTheorem(n - 1, x);
      }
      assert (x + 1) * S == S + x * S;
    }
  }

  /** Modulo a prime p the inner terms of row p vanish. */
  lemma {:induction false} InnerTerms(p: nat, x: int, m: nat)
    requires IsPrime(p) && m < p
    ensures Congruent(BinomialSum(p, x, m), 1, p)
    decreases m
  {
    if m == 0 {
      CongruentRefl(1, p);
    } else {
      InnerTerms(p, x, m - 1);
      PrimeDividesBinomial(p, m);
      DividesMultiple(p, Binomial(p, m), Power(x, m));
      var S, T := BinomialSum(p, x, m - 1), Binomial(p, m) * Power(x, m);
      DividesCombination(p, S - 1, T, -1);
    }
  }

  /** (x + 1)^p and x^p + 1 are congruent modulo a prime p. */
  lemma {:induction false} FreshmansDream(p: nat, x: int)
    requires IsPrime(p)
    ensures Congruent(Power(x + 1, p), Power(x, p) + 1, p)
  {
    var S := BinomialSum(p, x, p - 1);
    BinomialTheorem(p, x);
    InnerTerms(p, x, p - 1);
    BinomialSelf(p);
    assert Power(x + 1, p) == S + Power(x, p);
    assert S + Power(x, p) - (Power(x, p) + 1) == S - 1;
  }

  // ---------------------------------------------------------------------
  // Fermat's little theorem
  // ---------------------------------------------------------------------

  /** a^p and a are congruent modulo a prime p, for a >= 0. */
  lemma {:induction false} PowerPrime(p: nat, a: nat)
    requires IsPrime(p)
    ensures Congruent(Power(a, p), a, p)
    decreases a
  {
    if a == 0 {
      assert Power(0, p) == 0 * Power(0, p - 1);
      CongruentRefl(0, p);
    } else {
      PowerPrime(p, a - 1);
      FreshmansDream(p, a - 1);
      var y := Power(a - 1, p);
      assert Congruent(y + 1, a, p) by {
        assert (y + 1) - a == y - (a - 1);
      }
      CongruentTrans(Power(a, p), y + 1, a, p);
    }
  }

  /** Fermat's little theorem for a residue 0 < r < p. */
  lemma {:induction false} LittleReduced(p: nat, r: nat)
    requires IsPrime(p) && 0 < r < p
    ensures Congruent(Power(r, p - 1), 1, p)
  {
    var y := Power(r, p - 1);
    assert Divides(p, r * (y - 1)) by {
      PowerPrime(p, r);
      assert Power(r, p) == r * y;
      assert r * y - r == r * (y - 1);
    }
    EuclidLemma(p, r, y - 1);
    DivModUnique(r, p, 0, r);
  }

  /** Fermat's little theorem: a^(p - 1) % p == 1 when the prime p does not divide a. */
  lemma {:induction false} LittleTheorem(p: nat, a: int)
    requires IsPrime(p) && a % p != 0
    ensures Power(a, p - 1) % p == 1
  {
    var r := a % p;
    LittleReduced(p, r);
    assert Congruent(Power(a, p - 1), Power(r, p - 1), p) by {
      ModCongruent(a, p);
      CongruentSym(r, a, p);
      CongruentPower(a, r, p - 1, p);
    }
    CongruentTrans(Power(a, p - 1), Power(r, p - 1), 1, p);
    CongruentSym(Power(a, p - 1), 1, p);
    CongruentReduced(1, Power(a, p - 1), p);
  }

  /** Modulo a prime, the only square roots of 1 are 1 and -1. */
  lemma {:induction false} SquareRootOfOne(p: nat, x: int)
    requires IsPrime(p) && (x * x) % p == 1
    ensures x % p == 1 || x % p == p - 1
  {
    assert (x - 1) * (x + 1) == x * x - 1;
    ModCongruent(x * x, p);
    CongruentSym((x * x) % p, x * x, p);
    EuclidLemma(p, x - 1, x + 1);
    if Divides(p, x - 1) {
      CongruentSym(x, 1, p);
      CongruentReduced(1, x, p);
    } else {
      MulDivides(p, 1);
      DividesCombination(p, p, x + 1, 1);
      CongruentReduced(p - 1, x, p);
    }
  }
}
