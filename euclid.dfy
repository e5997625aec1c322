/**
 * Euclid's algorithm on BigInteger values: `gcd` and the extended form
 * `modInverse` of BigInteger.cs.
 */
module Euclid {
  import opened Words
  import opened BigInt
  import Numbers
  import Divide
  import Additive
  import Multiply
  import Construct
  import ShortDivision
  import LongDivision
  import ModPow

  /**
   * `gcd(bi)`: both operands replaced by their magnitudes (negating the
   * most negative value overflows), then `g = x; x = y % x; y = g` until x
   * is zero.
   */
  method Gcd(a: BigInteger, b: BigInteger) returns (r: Result<BigInteger>)
    requires Canonical(a) && Canonical(b) && Divide.ShortDivisor(Value(a))
    ensures r.Err? <==> Value(b) == Divide.MinValue()
    ensures r.Err? ==> r.error == Overflow
    ensures r.Ok? ==> Canonical(r.value) && Value(r.value) == Numbers.Gcd(Abs(Value(a)), Abs(Value(b)))
  {
    Divide.ShortRange(Value(a));
    var x, _ := Divide.Magnitude(a);
    var y, _ := Divide.Magnitude(b);
    if y.Err? {
      return Err(y.error);
    }
    var xv, yv := x.value, y.value;
    var g := yv;
    while xv.dataLength > 1 || (xv.dataLength == 1 && xv.data[0] != 0)
      invariant Canonical(xv) && Canonical(yv) && g == yv
      invariant 0 <= Value(xv) && Divide.ShortDivisor(Value(xv)) && 0 <= Value(yv)
      invariant Numbers.Gcd(Value(xv), Value(yv)) == Numbers.Gcd(Abs(Value(a)), Abs(Value(b)))
      decreases Value(xv)
    {
      g := xv;
      xv, yv := Step(xv, yv);
    }
    ValueIsSigned(xv);
    NonZeroTest(xv);
    r := Ok(g);
  }

  /** One round of the loop: `x = y % x; y = g` with g the old x. */
  method Step(x: BigInteger, y: BigInteger) returns (x': BigInteger, y': BigInteger)
    requires Canonical(x) && Canonical(y) && 0 <= Value(x) && 0 <= Value(y)
    requires Divide.ShortDivisor(Value(x)) && (x.dataLength > 1 || x.data[0] != 0)
    ensures Canonical(x') && y' == x && 0 <= Value(x') < Value(x)
    ensures Numbers.Gcd(Value(x'), Value(y')) == Numbers.Gcd(Value(x), Value(y))
  {
    ValueIsSigned(x);
    NonZeroTest(x);
    ghost var vx, vy := Value(x), Value(y);
    assert vx > 0 && vy != Divide.MinValue();
    var m := Divide.Remainder(y, x);
    x', y' := m.value, x;
    RemNatural(vy, vx);
  }

  /** On non-negative operands the truncating remainder is the Euclidean one. */
  lemma {:induction false} RemNatural(y: int, x: int)
    requires y >= 0 && x > 0
    ensures Divide.Rem(y, x) == y % x
  {
    assert Divide.Quot(y, x) == y / x;
  }

  // ---------------------------------------------------------------------
  // modInverse
  // ---------------------------------------------------------------------

  /**
   * `modInverse(modulus)` on a non-negative `this` (x) and modulus (m):
   * Euclid's algorithm from a = m, b = x, carrying the last two quotients
   * q, the last two remainders r and two coefficients p reduced modulo m.
   * From the third round on, each round first replaces p by
   * (p[1], (p[0] - p[1] * q[0]) % m). When b reaches zero, r[0] must be 1,
   * and the inverse is (p[0] - p[1] * q[0]) % m, moved up by m when it is
   * negative.
   *
   * r[0] only takes a remainder from the second round on: when x divides m
   * the loop stops after one round with r[0] still 0, so x = 1, whose
   * inverse 1 exists, is refused with "No inverse!" like x = 0.
   */
  method ModInverse(x: BigInteger, m: BigInteger) returns (r: Result<BigInteger>)
    requires Canonical(x) && Canonical(m) && 0 <= Value(x) && 0 <= Value(m)
    requires Divide.ShortDivisor(Value(x)) && Divide.ShortDivisor(Value(m))
    ensures r.Err? ==> r.error == NoInverse || r.error == Overflow
    ensures Value(m) < Pow(33) && r.Err? ==> r.error == NoInverse
    ensures r.Ok? ==> Canonical(r.value) && 0 <= Value(r.value) < Value(m)
    ensures r.Ok? ==> (Value(x) * Value(r.value)) % Value(m) == 1 % Value(m)
    ensures r.Ok? ==> Numbers.Gcd(Value(x), Value(m)) == 1
    ensures r == Err(NoInverse) ==> Numbers.Gcd(Value(x), Value(m)) != 1 || Value(x) <= 1
    ensures Value(x) <= 1 ==> r == Err(NoInverse)
    ensures Value(m) < Pow(33) && Numbers.Gcd(Value(x), Value(m)) == 1 && Value(x) >= 2 ==> r.Ok?
  {
    ghost var X, M := Value(x), Value(m);
    var p0 := Construct.FromLong(0);
    var p1 := Construct.FromLong(1);
    // `new BigInteger[2]`: null entries, not read before they are set
    var q0, q1 := Zero(), Zero();
    var r0 := Construct.FromLong(0);
    var r1 := Construct.FromLong(0);
    var step := 0;
    var a, b := m, x;
    ghost var v := 0;
    while b.dataLength > 1 || (b.dataLength == 1 && b.data[0] != 0)
      invariant Canonical(a) && Canonical(b) && Canonical(p0) && Canonical(p1)
      invariant Canonical(q0) && Canonical(q1) && Canonical(r0) && Canonical(r1)
      invariant 0 <= step && Divide.ShortDivisor(Value(a)) && Divide.ShortDivisor(Value(b))
      invariant Tableau(step, X, M, Value(a), Value(b), v, Value(p0), Value(p1),
                        Value(q0), Value(q1), Value(r0), Value(r1))
      invariant Small(step, M, Value(a), Value(p0), Value(p1), Value(q0), Value(q1))
      decreases Value(b)
    {
      NonZeroTest(b);
      ValueIsSigned(b);
      var ok, quotient, remainder;
      ok, p0, p1, quotient, remainder := InverseRound(step, a, b, p0, p1, q0, q1, m, X, M, v, Value(r0), Value(r1));
      if !ok {
        assert M >= Pow(33);
        return Err(Overflow);
      }
      q0, r0 := q1, r1;
      q1, r1 := quotient, remainder;
      v := Value(a);
      a, b := b, remainder;
      step := step + 1;
    }
    NonZeroTest(b);
    ValueIsSigned(b);
    TableauEnd(step, X, M, Value(a), Value(b), v, Value(p0), Value(p1),
               Value(q0), Value(q1), Value(r0), Value(r1));
    r := Conclude(p0, p1, q0, r0, m, X);
  }

  /**
   * The body of modInverse's loop up to the shift of the q and r pairs:
   * from the third round on, p becomes (p[1], (p[0] - p[1] * q[0]) % m),
   * whose overflow ends the method; then a is divided by b.
   */
  method InverseRound(step: int, a: BigInteger, b: BigInteger, p0: BigInteger, p1: BigInteger,
                      q0: BigInteger, q1: BigInteger, m: BigInteger, ghost X: int, ghost M: int,
                      ghost v: int, ghost r0: int, ghost r1: int)
    returns (ok: bool, p0': BigInteger, p1': BigInteger, quotient: BigInteger, remainder: BigInteger)
    requires Canonical(a) && Canonical(b) && Canonical(p0) && Canonical(p1) && Canonical(q0) && Canonical(q1) && Canonical(m)
    requires 0 <= step && Divide.ShortDivisor(Value(b)) && Divide.ShortDivisor(M) && Value(b) != 0 && M == Value(m)
    requires Tableau(step, X, M, Value(a), Value(b), v, Value(p0), Value(p1), Value(q0), Value(q1), r0, r1)
    requires Small(step, M, Value(a), Value(p0), Value(p1), Value(q0), Value(q1))
    ensures !ok ==> step >= 2 && M >= Pow(33)
    ensures ok ==> Canonical(p0') && Canonical(p1') && Canonical(quotient) && Canonical(remainder)
    ensures ok ==> 0 <= Value(remainder) < Value(b)
    ensures ok ==> Tableau(step + 1, X, M, Value(b), Value(remainder), Value(a), Value(p0'), Value(p1'),
                           Value(q1), Value(quotient), r1, Value(remainder))
    ensures ok ==> Small(step + 1, M, Value(b), Value(p0'), Value(p1'), Value(q1), Value(quotient))
  {
    p0', p1' := p0, p1;
    if step > 1 {
      var pval := NextCoefficient(p0, p1, q0, m);
      if pval.Err? {
        return false, p0, p1, q0, q1;
      }
      p0', p1' := p1, pval.value;
    }
    quotient, remainder := DivideStep(a, b);
    RoundStep(step, X, M, Value(a), Value(b), v, Value(p0), Value(p1), Value(q0), Value(q1), r0, r1,
              Value(p0'), Value(p1'), Value(quotient), Value(remainder));
    ok := true;
  }

  /**
   * The end of modInverse: "No inverse!" unless r[0] is 1, otherwise
   * `(p[0] - (p[1] * q[0])) % modulus`, plus the modulus when negative.
   */
  method Conclude(p0: BigInteger, p1: BigInteger, q0: BigInteger, r0: BigInteger, m: BigInteger, ghost X: int)
    returns (r: Result<BigInteger>)
    requires Canonical(p0) && Canonical(p1) && Canonical(q0) && Canonical(r0) && Canonical(m)
    requires Divide.ShortDivisor(Value(m))
    requires Value(r0) == 1 ==> Value(m) > 0 && Numbers.Congruent((Value(p0) - Value(p1) * Value(q0)) * X, 1, Value(m))
    requires Value(r0) == 1 ==> Abs(Value(p0)) <= Value(m) && Abs(Value(p1) * Value(q0)) <= Value(m) * Value(m)
    ensures r.Err? ==> r.error == NoInverse || r.error == Overflow
    ensures Value(m) < Pow(33) && r.Err? ==> r.error == NoInverse
    ensures r == Err(NoInverse) <==> Value(r0) != 1
    ensures r.Ok? ==> Canonical(r.value) && 0 <= Value(r.value) < Value(m)
    ensures r.Ok? ==> (X * Value(r.value)) % Value(m) == 1 % Value(m)
  {
    OneTest(r0);
    if r0.dataLength > 1 || (r0.dataLength == 1 && r0.data[0] != 1) {
      return Err(NoInverse);
    }
    var result := NextCoefficient(p0, p1, q0, m);
    if result.Err? {
      return Err(result.error);
    }
    var res := result.value;
    ghost var d, M := Value(p0) - Value(p1) * Value(q0), Value(m);
    ValueIsSigned(res);
    if IsNegative(res) {
      Divide.ShortRange(M);
      var sum := Additive.Add(res, m);
      AddModulus(Value(sum.value), Value(res), d, M);
      res := sum.value;
    }
    InverseResult(d, X, M, Value(res));
    r := Ok(res);
  }

  /**
   * What modInverse's variables hold after `step` rounds: A and B are the
   * values of a and b, v the value a had before the last round, and the
   * rest the p, q and r pairs by value. (A, B) has the gcd of (m, x). The
   * coefficient of the newest remainder is not stored: the next round
   * computes it as p[0] - p[1] * q[0], so the extended-Euclid identity
   * p * x = remainder (mod m) is stated of that expression.
   */
  ghost predicate Tableau(step: nat, X: int, M: int, A: int, B: int, v: int,
                          p0: int, p1: int, q0: int, q1: int, r0: int, r1: int)
  {
    && 0 <= X && 0 <= M && 0 <= B && 0 <= A
    && Numbers.Gcd(B, A) == Numbers.Gcd(X, M)
    && (step == 0 ==> A == M && B == X && r1 == 0)
    && (step <= 1 ==> r0 == 0 && p0 == 0 && p1 == 1)
    && (step >= 1 ==> B < A && B <= v && r1 == B && v - q1 * A == B)
    && (step == 1 ==> A == X && v == M)
    && (step >= 2 ==> X >= 2 && M > 0 && r0 == A
                      && Numbers.Congruent(p1 * X, v, M)
                      && Numbers.Congruent((p0 - p1 * q0) * X, A, M))
  }

  /** One round of the loop keeps the tableau: p' is p after the round's update, q and rem its division. */
  lemma {:induction false} TableauStep(step: nat, X: int, M: int, A: int, B: int, v: int,
                                       p0: int, p1: int, q0: int, q1: int, r0: int, r1: int,
                                       p0': int, p1': int, q: int, rem: int)
    requires Tableau(step, X, M, A, B, v, p0, p1, q0, q1, r0, r1) && B > 0
    requires A == q * B + rem && 0 <= rem < B && 0 <= q
    requires step <= 1 ==> p0' == p0 && p1' == p1
    requires step >= 2 ==> p0' == p1 && Numbers.Congruent(p1', p0 - p1 * q0, M)
    ensures Tableau(step + 1, X, M, B, rem, A, p0', p1', q1, q, r1, rem)
  {
    if step == 0 {
      FirstRound(X, M, A, B, v, p0, p1, q0, q1, r0, r1, q, rem);
    } else if step == 1 {
      SecondRound(X, M, B, q0, q1, r1, q, rem);
    } else {
      LaterRound(step, X, M, A, B, v, p0, p1, q0, q1, r0, r1, p1', q, rem);
    }
  }

  /** The first round divides m by x and leaves p alone. */
  lemma {:induction false} FirstRound(X: int, M: int, A: int, B: int, v: int,
                                      p0: int, p1: int, q0: int, q1: int, r0: int, r1: int, q: int, rem: int)
    requires Tableau(0, X, M, A, B, v, p0, p1, q0, q1, r0, r1) && B > 0
    requires A == q * B + rem && 0 <= rem < B && 0 <= q
    ensures Tableau(1, X, M, B, rem, A, p0, p1, q1, q, r1, rem)
  {
    Round(A, B, q, rem);
  }

  /** The second round: p = (0, 1) already stands for (x, m - q * x) = (A, B). */
  lemma {:induction false} SecondRound(X: int, M: int, B: int, q0: int, q1: int, r1: int, q: int, rem: int)
    requires Tableau(1, X, M, X, B, M, 0, 1, q0, q1, 0, r1) && B > 0
    requires X == q * B + rem && 0 <= rem < B && 0 <= q
    ensures Tableau(2, X, M, B, rem, X, 0, 1, q1, q, r1, rem)
  {
    Round(X, B, q, rem);
    assert (0 - 1 * q1) * X == -(q1 * X) by {
      Divide.NegMul(q1, X);
    }
    assert (0 - 1 * q1) * X - B == M * -1;
    Numbers.MulDivides(M, -1);
    Numbers.MulDivides(M, 0);
  }

  /** A later round: the new p[1], congruent to p[0] - p[1] * q[0], stands for A. */
  lemma {:induction false} LaterRound(step: nat, X: int, M: int, A: int, B: int, v: int,
                                      p0: int, p1: int, q0: int, q1: int, r0: int, r1: int,
                                      p1': int, q: int, rem: int)
    requires Tableau(step, X, M, A, B, v, p0, p1, q0, q1, r0, r1) && B > 0 && step >= 2
    requires A == q * B + rem && 0 <= rem < B && 0 <= q
    requires Numbers.Congruent(p1', p0 - p1 * q0, M)
    ensures Tableau(step + 1, X, M, B, rem, A, p1, p1', q1, q, r1, rem)
  {
    Round(A, B, q, rem);
    Numbers.CongruentScale(p1', p0 - p1 * q0, X, M);
    Numbers.CongruentTrans(p1' * X, (p0 - p1 * q0) * X, A, M);
    Numbers.CoefficientStep(p1, p1', q1, X, v, A, M);
  }

  /** The division of one round: remainder and quotient, and the gcd it keeps. */
  lemma {:induction false} Round(A: int, B: int, q: int, rem: int)
    requires 0 <= A && 0 < B && A == q * B + rem && 0 <= rem < B && 0 <= q
    ensures A - q * B == rem && rem <= A
    ensures Numbers.Gcd(rem, B) == Numbers.Gcd(B, A)
  {
    Divide.QuotientBelow(A, B, q, rem);
    DivModUnique(A, B, q, rem);
  }

  /**
   * The sizes that keep modInverse's coefficient arithmetic in range: from
   * the third round on, a is at most m, both p are at most m in magnitude,
   * and p[1] * q[0] is at most m^2. A large quotient q[1] (from the second
   * round, when x exceeds m) only stands beside q[0] = p[0] = 0, which makes
   * the next p[1] zero.
   */
  ghost predicate Small(step: nat, M: int, A: int, p0: int, p1: int, q0: int, q1: int)
  {
    && (step >= 1 ==> 0 <= q1)
    && (step >= 2 ==> A <= M && Abs(p0) <= M && Abs(p1) <= M && 0 <= q0
                      && Abs(p1 * q0) <= M * M && (q1 <= M || (q0 == 0 && p0 == 0)))
  }

  /** One round of the loop keeps both the tableau and the coefficient bounds. */
  lemma {:induction false} RoundStep(step: nat, X: int, M: int, A: int, B: int, v: int,
                                     p0: int, p1: int, q0: int, q1: int, r0: int, r1: int,
                                     p0': int, p1': int, q: int, rem: int)
    requires Tableau(step, X, M, A, B, v, p0, p1, q0, q1, r0, r1) && Small(step, M, A, p0, p1, q0, q1) && B > 0
    requires A == q * B + rem && 0 <= rem < B && 0 <= q
    requires step <= 1 ==> p0' == p0 && p1' == p1
    requires step >= 2 ==> p0' == p1 && Abs(p1') < M && Numbers.Congruent(p1', p0 - p1 * q0, M)
    ensures Tableau(step + 1, X, M, B, rem, A, p0', p1', q1, q, r1, rem)
    ensures Small(step + 1, M, B, p0', p1', q1, q)
  {
    TableauStep(step, X, M, A, B, v, p0, p1, q0, q1, r0, r1, p0', p1', q, rem);
    SmallStep(step, X, M, A, B, v, p0, p1, q0, q1, r0, r1, p0', p1', q, rem);
  }

  /** One round keeps the sizes. */
  lemma {:induction false} SmallStep(step: nat, X: int, M: int, A: int, B: int, v: int,
                                     p0: int, p1: int, q0: int, q1: int, r0: int, r1: int,
                                     p0': int, p1': int, q: int, rem: int)
    requires Tableau(step, X, M, A, B, v, p0, p1, q0, q1, r0, r1) && Small(step, M, A, p0, p1, q0, q1) && B > 0
    requires A == q * B + rem && 0 <= rem < B && 0 <= q
    requires step <= 1 ==> p0' == p0 && p1' == p1
    requires step >= 2 ==> p0' == p1 && Abs(p1') < M && Numbers.Congruent(p1', p0 - p1 * q0, M)
    ensures Small(step + 1, M, B, p0', p1', q1, q)
  {
    Divide.QuotientBelow(A, B, q, rem);
    if step == 1 {
      SecondSmall(X, M, B, q1, q);
    } else if step >= 2 {
      LaterSmall(M, p0, p1, q0, q1, p1');
    }
  }

  /** After the second round: q[0] = m / x and q[1] <= x, one of them at most m. */
  lemma {:induction false} SecondSmall(X: int, M: int, B: int, q1: int, q: int)
    requires 0 < B < X && B <= M && M - q1 * X == B && 0 <= q1 && 0 <= q <= X
    ensures 1 * q1 <= M && q1 <= M * M && (q <= M || q1 == 0)
  {
    if q1 >= 1 {
      MulLe(1, q1, X);
    }
    MulLe(1, M, M);
  }

  /** A later round: the new p[1] times the old q[1] is at most m^2. */
  lemma {:induction false} LaterSmall(M: int, p0: int, p1: int, q0: int, q1: int, p1': int)
    requires M > 0 && 0 <= q1 && Abs(p1') < M && Numbers.Congruent(p1', p0 - p1 * q0, M)
    requires q1 <= M || (q0 == 0 && p0 == 0)
    ensures Abs(p1' * q1) <= M * M
  {
    if q1 <= M {
      MulLe(Abs(p1'), M, q1);
      MulLe(q1, M, M);
      AbsMul(p1', q1);
    } else {
      assert p0 - p1 * q0 == 0;
      ZeroResidue(p1', M);
    }
  }

  lemma {:induction false} AbsMul(x: int, y: int)
    requires 0 <= y
    ensures Abs(x * y) == Abs(x) * y
  {
    if x < 0 {
      assert x * y == -(Abs(x) * y);
    }
  }

  /** A multiple of m smaller than m in magnitude is zero. */
  lemma {:induction false} ZeroResidue(r: int, M: int)
    requires M > 0 && Abs(r) < M && Numbers.Congruent(r, 0, M)
    ensures r == 0
  {
    if r > 0 {
      DivModUnique(r, M, 0, r);
    } else if r < 0 {
      DivModUnique(r, M, -1, r + M);
    }
  }

  /** Below 2^1056, p[0] - p[1] * q[0] and its product are in range. */
  lemma {:induction false} CoefficientRange(p0: int, pq: int, M: int)
    requires Abs(p0) <= M < Pow(33) && Abs(pq) <= M * M
    ensures InRange(pq) && InRange(p0 - pq) && p0 - pq != Divide.MinValue()
  {
    PowAdd(33, 33);
    MulLe(M, Pow(33) - 1, M);
    MulLe(M, Pow(33) - 1, Pow(33) - 1);
    assert (Pow(33) - 1) * (Pow(33) - 1) == Pow(33) * Pow(33) - 2 * Pow(33) + 1;
    ModPow.PowBelowHalf(66);
  }

  /**
   * When b reaches zero: r[0] is 1 exactly when x is at least 2 and prime
   * to m, and then p[0] - p[1] * q[0] is an inverse of x modulo m.
   */
  lemma {:induction false} TableauEnd(step: nat, X: int, M: int, A: int, B: int, v: int,
                                      p0: int, p1: int, q0: int, q1: int, r0: int, r1: int)
    requires Tableau(step, X, M, A, B, v, p0, p1, q0, q1, r0, r1) && B == 0
    ensures r0 == 1 <==> Numbers.Gcd(X, M) == 1 && X >= 2
    ensures r0 == 1 ==> M > 0 && Numbers.Congruent((p0 - p1 * q0) * X, 1, M)
  {
    assert Numbers.Gcd(B, A) == A;
  }

  /** Adding the modulus keeps a residue's class. */
  lemma {:induction false} AddModulus(s: int, res: int, d: int, M: nat)
    requires s == res + M && Numbers.Congruent(res, d, M)
    ensures Numbers.Congruent(s, d, M)
  {
    Numbers.MulDivides(M, 1);
    Numbers.CongruentTrans(s, res, d, M);
  }

  /** A number congruent to an inverse d of x is an inverse of x. */
  lemma {:induction false} InverseResult(d: int, X: int, M: int, res: int)
    requires M > 0 && Numbers.Congruent(d * X, 1, M) && Numbers.Congruent(res, d, M)
    ensures (X * res) % M == 1 % M
  {
    Numbers.CongruentScale(res, d, X, M);
    Numbers.CongruentTrans(res * X, d * X, 1, M);
    Numbers.CongruentMod(res * X, 1, M);
    MulComm(X, res);
  }

  /** `(p[0] - (p[1] * q[0])) % modulus` */
  method NextCoefficient(p0: BigInteger, p1: BigInteger, q0: BigInteger, m: BigInteger)
    returns (r: Result<BigInteger>)
    requires Canonical(p0) && Canonical(p1) && Canonical(q0) && Canonical(m)
    requires 0 < Value(m) && Divide.ShortDivisor(Value(m))
    ensures r.Err? ==> r.error == Overflow
    ensures r.Ok? ==> Canonical(r.value) && Abs(Value(r.value)) < Value(m)
    ensures r.Ok? ==> Numbers.Congruent(Value(r.value), Value(p0) - Value(p1) * Value(q0), Value(m))
    ensures r.Ok? ==> (Value(r.value) < 0 ==> Value(p0) - Value(p1) * Value(q0) < 0)
    ensures Abs(Value(p0)) <= Value(m) < Pow(33) && Abs(Value(p1) * Value(q0)) <= Value(m) * Value(m) ==> r.Ok?
  {
    if Abs(Value(p0)) <= Value(m) < Pow(33) && Abs(Value(p1) * Value(q0)) <= Value(m) * Value(m) {
      CoefficientRange(Value(p0), Value(p1) * Value(q0), Value(m));
    }
    var prod := Multiply.Multiply(p1, q0);
    if prod.Err? {
      return Err(prod.error);
    }
    var diff := Additive.Subtract(p0, prod.value);
    if diff.Err? {
      return Err(diff.error);
    }
    Divide.ShortRange(Value(m));
    r := Divide.Remainder(diff.value, m);
    if r.Ok? {
      Divide.QuotRem(Value(diff.value), Value(m));
      RemCongruent(Value(diff.value), Value(m));
    }
  }

  /** The truncating remainder is congruent to the dividend. */
  lemma {:induction false} RemCongruent(d: int, M: int)
    requires M > 0
    ensures Numbers.Congruent(Divide.Rem(d, M), d, M)
  {
    var t := Divide.Quot(d, M);
    assert Divide.Rem(d, M) - d == M * -t;
    Numbers.MulDivides(M, -t);
  }

  /** `r[0]`'s test: a canonical value other than 1. */
  lemma {:induction false} OneTest(a: BigInteger)
    requires Canonical(a)
    ensures (a.dataLength > 1 || (a.dataLength == 1 && a.data[0] != 1)) <==> Value(a) != 1
  {
    ValueIsSigned(a);
    if a.dataLength == 1 || Val(a.data) < BASE {
      SingleWord(a);
    }
  }

  /**
   * The division of one round: `singleByteDivide` for a one-word b,
   * `multiByteDivide` otherwise. When b has more words than a (only in the
   * first round, with x longer than m), multiByteDivide's digit loop does
   * not run: the quotient is 0 and the remainder a.
   */
  method DivideStep(a: BigInteger, b: BigInteger) returns (q: BigInteger, rem: BigInteger)
    requires Canonical(a) && Canonical(b) && 0 <= Value(a) && 0 < Value(b) && Divide.ShortDivisor(Value(b))
    ensures Canonical(q) && Canonical(rem)
    ensures Value(a) == Value(q) * Value(b) + Value(rem) && 0 <= Value(rem) < Value(b) && 0 <= Value(q)
  {
    ValueIsSigned(a);
    ValueIsSigned(b);
    var r: Result<QR>;
    if b.dataLength == 1 {
      SingleWord(b);
      r := ShortDivision.SingleByteDivide(a, b);
    } else if a.dataLength < b.dataLength {
      if Val(b.data) <= Val(a.data) {
        Divide.Lengths(a, b);
      }
      return Zero(), a;
    } else {
      LongDivision.ShortBuffer(b, W - 2);
      r := LongDivision.MultiByteDivide(a, b);
    }
    q, rem := r.value.quotient, r.value.remainder;
    Divide.Unsigned(Value(a), Value(b), q, rem);
  }
}
