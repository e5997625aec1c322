/**
 * Elementary number theory on the integers, the meaning of `gcd`,
 * `modInverse`, `modPow` and the primality tests of BigInteger.cs:
 * divisibility, the greatest common divisor, powers and congruences.
 */
module Numbers {
  import opened Words

  // ---------------------------------------------------------------------
  // Divisibility
  // ---------------------------------------------------------------------

  /** d divides n; only 0 is divisible by 0. */
  ghost predicate Divides(d: nat, n: int)
  {
    if d == 0 then n == 0 else n % d == 0
  }

  lemma {:induction false} MulDivides(d: nat, k: int)
    ensures Divides(d, d * k)
  {
    if d > 0 {
      DivModUnique(d * k, d, k, 0);
    }
  }

  /** A multiple of d written back as d times its quotient. */
  lemma {:induction false} DividesFactor(d: nat, n: int)
    requires Divides(d, n) && d > 0
    ensures n == d * (n / d)
  {
  }

  /** Common divisors of m and n divide every m - k * n. */
  lemma {:induction false} DividesCombination(d: nat, m: int, n: int, k: int)
    requires Divides(d, m) && Divides(d, n)
    ensures Divides(d, m - k * n)
  {
    if d > 0 {
      var a, b := m / d, n / d;
      DividesFactor(d, m);
      DividesFactor(d, n);
      assert k * n == d * (k * b) by {
        MulAssoc(k, d, b);
      }
      assert m - k * n == d * (a - k * b);
      MulDivides(d, a - k * b);
    }
  }

  // ---------------------------------------------------------------------
  // Greatest common divisor
  // ---------------------------------------------------------------------

  /** Euclid's algorithm in the order of BigInteger.gcd's loop: (x, y) becomes (y % x, x). */
  ghost function Gcd(x: nat, y: nat): nat
    decreases x
  {
    if x == 0 then y else Gcd(y % x, x)
  }

  /** Gcd(x, y) divides both x and y. */
  lemma {:induction false} GcdDivides(x: nat, y: nat)
    ensures Divides(Gcd(x, y), x) && Divides(Gcd(x, y), y)
    decreases x
  {
    if x > 0 {
      GcdDivides(y % x, x);
      var g := Gcd(x, y);
      assert y % x - (-(y / x)) * x == y;
      DividesCombination(g, y % x, x, -(y / x));
    }
  }

  /** Every common divisor of x and y divides Gcd(x, y): it is the greatest. */
  lemma {:induction false} GcdGreatest(x: nat, y: nat, d: nat)
    requires Divides(d, x) && Divides(d, y)
    ensures Divides(d, Gcd(x, y))
    decreases x
  {
    if x > 0 {
      assert y - (y / x) * x == y % x;
      DividesCombination(d, y, x, y / x);
      GcdGreatest(y % x, x, d);
    }
  }

  // ---------------------------------------------------------------------
  // Congruences
  // ---------------------------------------------------------------------

  /** a and b are congruent modulo m; modulo 0 only equal numbers are. */
  ghost predicate Congruent(a: int, b: int, m: nat)
  {
    Divides(m, a - b)
  }

  lemma {:induction false} CongruentTrans(a: int, b: int, c: int, m: nat)
    requires Congruent(a, b, m) && Congruent(b, c, m)
    ensures Congruent(a, c, m)
  {
    DividesCombination(m, a - b, b - c, -1);
  }

  /** Both sides of a congruence multiplied by k. */
  lemma {:induction false} CongruentScale(a: int, b: int, k: int, m: nat)
    requires Congruent(a, b, m)
    ensures Congruent(a * k, b * k, m)
  {
    if m > 0 {
      DividesFactor(m, a - b);
      var t := (a - b) / m;
      assert a * k - b * k == (a - b) * k;
      assert (a - b) * k == m * (t * k) by {
        MulAssoc(k, m, t);
      }
      MulDivides(m, t * k);
    }
  }

  /** Congruent numbers leave the same remainder. */
  lemma {:induction false} CongruentMod(a: int, b: int, m: nat)
    requires m > 0 && Congruent(a, b, m)
    ensures a % m == b % m
  {
    DividesFactor(m, a - b);
    var t := (a - b) / m;
    assert a == (b / m + t) * m + b % m;
    DivModUnique(a, m, b / m + t, b % m);
  }

  /**
   * The extended-Euclid step on coefficients: if k0 * x and k1 * x stand
   * for v and A, then k0 - k1 * q stands for v - q * A.
   */
  lemma {:induction false} CoefficientStep(k0: int, k1: int, q: int, x: int, v: int, A: int, m: nat)
    requires Congruent(k0 * x, v, m) && Congruent(k1 * x, A, m)
    ensures Congruent((k0 - k1 * q) * x, v - q * A, m)
  {
    DividesCombination(m, k0 * x - v, k1 * x - A, q);
    assert q * (k1 * x - A) == (k1 * q) * x - q * A by {
      MulAssoc(q, k1, x);
    }
    assert (k0 - k1 * q) * x == k0 * x - (k1 * q) * x;
  }

  lemma {:induction false} CongruentRefl(a: int, m: nat)
    ensures Congruent(a, a, m)
  {
    MulDivides(m, 0);
  }

  lemma {:induction false} CongruentSym(a: int, b: int, m: nat)
    requires Congruent(a, b, m)
    ensures Congruent(b, a, m)
  {
    MulDivides(m, 0);
    DividesCombination(m, 0, a - b, 1);
  }

  /** Congruences multiply. */
  lemma {:induction false} CongruentMul(a: int, a': int, c: int, c': int, m: nat)
    requires Congruent(a, a', m) && Congruent(c, c', m)
    ensures Congruent(a * c, a' * c', m)
  {
    CongruentScale(a, a', c, m);
    CongruentScale(c, c', a', m);
    CongruentTrans(a * c, a' * c, a' * c', m);
  }

  /** A number in [0, m) is the remainder of everything congruent to it. */
  lemma {:induction false} CongruentReduced(r: int, a: int, m: nat)
    requires 0 <= r < m && Congruent(r, a, m)
    ensures r == a % m
  {
    CongruentMod(r, a, m);
    DivModUnique(r, m, 0, r);
  }

  /** a % m is congruent to a. */
  lemma {:induction false} ModCongruent(a: int, m: nat)
    requires m > 0
    ensures Congruent(a % m, a, m) && 0 <= a % m < m
  {
    MulDivides(m, -(a / m));
  }

  // ---------------------------------------------------------------------
  // Powers
  // ---------------------------------------------------------------------

  /** b to the power e. */
  ghost function Power(b: int, e: nat): int
  {
    if e == 0 then 1 else b * Power(b, e - 1)
  }

  lemma {:induction false} PowerAdd(b: int, x: nat, y: nat)
    ensures Power(b, x + y) == Power(b, x) * Power(b, y)
    decreases x
  {
    if x > 0 {
      PowerAdd(b, x - 1, y);
      MulAssoc(b, Power(b, x - 1), Power(b, y));
      assert Power(b, x + y) == b * Power(b, x - 1 + y);
    }
  }

  lemma {:induction false} PowerMul(b: int, x: nat, y: nat)
    ensures Power(b, x * y) == Power(Power(b, x), y)
    decreases y
  {
    if y > 0 {
      PowerMul(b, x, y - 1);
      assert x * y == x + x * (y - 1);
      PowerAdd(b, x, x * (y - 1));
    }
  }

  lemma {:induction false} PowerOfOne(e: nat)
    ensures Power(1, e) == 1
  {
    if e > 0 {
      PowerOfOne(e - 1);
    }
  }

  lemma {:induction false} PowerNonNegative(b: nat, e: nat)
    ensures Power(b, e) >= 0
  {
    if e > 0 {
      PowerNonNegative(b, e - 1);
      MulLe(0, b, Power(b, e - 1));
    }
  }

  /** (-b)^e is b^e for even e and -(b^e) for odd e. */
  lemma {:induction false} PowerNegate(b: int, e: nat)
    ensures Power(-b, e) == if e % 2 == 0 then Power(b, e) else -Power(b, e)
  {
    if e > 0 {
      PowerNegate(b, e - 1);
    }
  }

  /** Congruent bases give congruent powers. */
  lemma {:induction false} CongruentPower(a: int, a': int, e: nat, m: nat)
    requires Congruent(a, a', m)
    ensures Congruent(Power(a, e), Power(a', e), m)
  {
    if e == 0 {
      CongruentRefl(1, m);
    } else {
      CongruentPower(a, a', e - 1, m);
      CongruentMul(a, a', Power(a, e - 1), Power(a', e - 1), m);
    }
  }
}
