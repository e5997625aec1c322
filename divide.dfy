/**
 * Division of BigInteger.cs: `operator /` and `operator %`, and the two
 * private long-division routines behind them. The operators replace both
 * operands by their absolute values, return early when the dividend is
 * smaller, and otherwise divide word by word: `singleByteDivide` for a
 * one-word divisor, `multiByteDivide` (Knuth's Algorithm D on base-2^32
 * digits) for a longer one. The quotient truncates toward zero and the
 * remainder takes the dividend's sign, as C#'s `/` and `%` on `long` do.
 */
module Divide {
  import opened Words
  import opened Bits
  import opened BigInt
  import Additive
  import Multiply
  import Shift
  import Construct
  import ShortDivision
  import LongDivision

  // ---------------------------------------------------------------------
  // Specification: truncating division
  // ---------------------------------------------------------------------

  /** The quotient rounded toward zero. */
  ghost function Quot(x: int, y: int): int
    requires y != 0
  {
    if (x < 0) == (y < 0) then Abs(x) / Abs(y) else -(Abs(x) / Abs(y))
  }

  /** The remainder that goes with Quot: it has the dividend's sign. */
  ghost function Rem(x: int, y: int): int
    requires y != 0
  {
    x - y * Quot(x, y)
  }

  /**
   * Quot and Rem are the truncating division: x = y * q + r with r smaller
   * than y in magnitude and never of the opposite sign to x.
   */
  lemma {:induction false} QuotRem(x: int, y: int)
    requires y != 0
    ensures x == y * Quot(x, y) + Rem(x, y)
    ensures Abs(Rem(x, y)) < Abs(y)
    ensures x >= 0 ==> 0 <= Rem(x, y)
    ensures x < 0 ==> Rem(x, y) <= 0
    ensures Abs(Quot(x, y)) <= Abs(x)
  {
    var qt := Quot(x, y);
    var rt := x - y * qt;
    assert Rem(x, y) == rt;
    TruncArith(x, y, Abs(x), Abs(y), Abs(x) / Abs(y), Abs(x) % Abs(y), qt, rt);
  }

  /** QuotRem on plain integers: the four sign cases of the truncating quotient. */
  lemma {:induction false} TruncArith(x: int, y: int, ax: int, ay: int, q: int, m: int, qt: int, rt: int)
    requires ax == Abs(x) && ay == Abs(y) && ay > 0 && q == ax / ay && m == ax % ay
    requires qt == (if (x < 0) == (y < 0) then q else -q) && rt == x - y * qt
    ensures x == y * qt + rt && Abs(rt) < ay
    ensures x >= 0 ==> 0 <= rt
    ensures x < 0 ==> rt <= 0
    ensures Abs(qt) <= ax
  {
    assert ax == ay * q + m && 0 <= m < ay;
    NegMul(ay, q);
    MulLe(1, ay, q);
    assert rt == if x >= 0 then m else -m;
  }

  lemma {:induction false} NegMul(a: int, b: int)
    ensures (-a) * b == -(a * b) && a * (-b) == -(a * b) && (-a) * (-b) == a * b
  {
  }

  /** The one truncating quotient: any q, r with these properties are Quot and Rem. */
  lemma {:induction false} QuotUnique(x: int, y: int, q: int, r: int)
    requires y != 0 && x == y * q + r && Abs(r) < Abs(y)
    requires x >= 0 ==> r >= 0
    requires x < 0 ==> r <= 0
    ensures q == Quot(x, y) && r == Rem(x, y)
  {
    var ax, ay := Abs(x), Abs(y);
    NegMul(ay, q);
    if x >= 0 && y > 0 {
      DivModUnique(ax, ay, q, r);
    } else if x >= 0 {
      assert ax == ay * -q + r;
      DivModUnique(ax, ay, -q, r);
    } else if y > 0 {
      assert ax == ay * -q + -r;
      DivModUnique(ax, ay, -q, -r);
    } else {
      assert ax == ay * q + -r;
      DivModUnique(ax, ay, q, -r);
    }
  }

  // ---------------------------------------------------------------------
  // The operators
  // ---------------------------------------------------------------------

  /** -2^2239, the one value whose magnitude does not fit. */
  ghost function MinValue(): (m: int)
    ensures m < 0
  {
    ScalePositive(SIGN, W - 1);
    -(Half() as int)
  }

  /** A divisor of at most 68 words, the size the long division is exact for. */
  ghost predicate ShortDivisor(y: int)
  {
    Abs(y) < Pow(W - 2)
  }

  /** A short divisor's magnitude is far inside the range. */
  lemma {:induction false} ShortRange(y: int)
    requires ShortDivisor(y)
    ensures Abs(y) < Half() && y != MinValue()
  {
    PowMonotone(W - 2, W - 1);
    ScaleMonotone(1, SIGN, W - 1);
  }

  /**
   * `operator /`: both operands replaced by their magnitudes, zero when
   * the dividend's magnitude is the smaller, otherwise the magnitudes'
   * quotient, negated when the signs differ. Negating the most negative
   * value overflows; a zero divisor reaches `singleByteDivide`.
   */
  method Divide(a: BigInteger, b: BigInteger) returns (r: Result<BigInteger>)
    requires Canonical(a) && Canonical(b)
    ensures r.Err? ==> r.error in {Overflow, DivideByZero, CapacityExceeded, IndexOutOfRange}
    ensures r.Ok? ==> Canonical(r.value)
    ensures Value(a) == MinValue() || Value(b) == MinValue() ==> r == Err(Overflow)
    ensures Value(b) == 0 && Value(a) != MinValue() ==> r == Err(DivideByZero)
    ensures (Value(a) != MinValue() && Value(b) != MinValue() && Abs(Value(a)) < Abs(Value(b))) ==>
      r == Ok(Zero())
    ensures (Value(a) != MinValue() && Value(b) != 0 && ShortDivisor(Value(b))) ==>
      r.Ok? && Value(r.value) == Quot(Value(a), Value(b))
  {
    if ShortDivisor(Value(b)) {
      ShortRange(Value(b));
    }
    var x, dividendNeg := Magnitude(a);
    if x.Err? {
      return Err(x.error);
    }
    var y, divisorNeg := Magnitude(b);
    if y.Err? {
      return Err(y.error);
    }
    var lt := Less(x.value, y.value);
    if lt {
      SmallQuot(Value(a), Value(b));
      return Ok(Zero());
    }
    var qr := DivideMagnitudes(x.value, y.value);
    if qr.Err? {
      return Err(qr.error);
    }
    var q := qr.value.quotient;
    ghost var va, vb, vq, vm := Value(a), Value(b), Value(q), Value(qr.value.remainder);
    if vb != 0 && ShortDivisor(vb) {
      assert Abs(va) == vq * Abs(vb) + vm && 0 <= vm < Abs(vb) && vq <= Abs(va) < Half();
      SignedQuot(va, vb, vq, vm);
    }
    r := ApplySign(q, dividendNeg != divisorNeg);
  }

  /**
   * `operator %`: the same steps as `/`, but the early return gives the
   * dividend itself, and the magnitudes' remainder is negated when the
   * dividend is negative.
   */
  method Remainder(a: BigInteger, b: BigInteger) returns (r: Result<BigInteger>)
    requires Canonical(a) && Canonical(b)
    ensures r.Err? ==> r.error in {Overflow, DivideByZero, CapacityExceeded, IndexOutOfRange}
    ensures r.Ok? ==> Canonical(r.value)
    ensures Value(a) == MinValue() || Value(b) == MinValue() ==> r == Err(Overflow)
    ensures Value(b) == 0 && Value(a) != MinValue() ==> r == Err(DivideByZero)
    ensures (Value(a) != MinValue() && Value(b) != MinValue() && Abs(Value(a)) < Abs(Value(b))) ==>
      r == Ok(a)
    ensures (Value(a) != MinValue() && Value(b) != 0 && ShortDivisor(Value(b))) ==>
      r.Ok? && Value(r.value) == Rem(Value(a), Value(b))
  {
    if ShortDivisor(Value(b)) {
      ShortRange(Value(b));
    }
    var x, dividendNeg := Magnitude(a);
    if x.Err? {
      return Err(x.error);
    }
    var y, _ := Magnitude(b);
    if y.Err? {
      return Err(y.error);
    }
    var lt := Less(x.value, y.value);
    if lt {
      SmallQuot(Value(a), Value(b));
      return Ok(a);
    }
    var qr := DivideMagnitudes(x.value, y.value);
    if qr.Err? {
      return Err(qr.error);
    }
    var m := qr.value.remainder;
    ghost var va, vb, vq, vm := Value(a), Value(b), Value(qr.value.quotient), Value(m);
    if vb != 0 && ShortDivisor(vb) {
      assert Abs(va) == vq * Abs(vb) + vm && 0 <= vm < Abs(vb) && Abs(vb) < Half();
      SignedQuot(va, vb, vq, vm);
    }
    r := ApplySign(m, dividendNeg);
  }

  /** `return -x;` or `return x;` */
  method ApplySign(x: BigInteger, negate: bool) returns (r: Result<BigInteger>)
    requires Canonical(x)
    ensures r.Err? ==> r.error == Overflow
    ensures r.Ok? ==> Canonical(r.value)
    ensures 0 <= Value(x) < Half() ==> r.Ok? && Value(r.value) == (if negate then -Value(x) else Value(x))
  {
    if negate {
      ValueIsSigned(x);
      CanonicalZero(x);
      r := Additive.Negate(x);
    } else {
      r := Ok(x);
    }
  }

  /** `if ((x.data[lastPos] & 0x80000000) != 0) x = -x;` */
  method Magnitude(a: BigInteger) returns (r: Result<BigInteger>, neg: bool)
    requires Canonical(a)
    ensures neg <==> Value(a) < 0
    ensures r.Ok? <==> Value(a) != MinValue()
    ensures r.Err? ==> r.error == Overflow
    ensures r.Ok? ==> Canonical(r.value) && Value(r.value) == Abs(Value(a)) < Half()
  {
    ValueIsSigned(a);
    neg := IsNegative(a);
    if neg {
      r := Additive.Negate(a);
    } else {
      r := Ok(a);
    }
  }

  /**
   * The dispatch shared by `/` and `%` once the divisor's magnitude is at
   * most the dividend's: `singleByteDivide` for a one-word divisor,
   * `multiByteDivide` otherwise.
   */
  method DivideMagnitudes(x: BigInteger, y: BigInteger) returns (r: Result<QR>)
    requires Canonical(x) && Canonical(y) && 0 <= Value(y) <= Value(x)
    ensures Value(y) == 0 <==> r == Err(DivideByZero)
    ensures r.Err? ==> r.error in {DivideByZero, CapacityExceeded, Overflow, IndexOutOfRange}
    ensures r.Ok? ==> Canonical(r.value.quotient) && Canonical(r.value.remainder)
    ensures 0 < Value(y) < Pow(W - 2) ==>
      r.Ok? && Value(x) == Value(r.value.quotient) * Value(y) + Value(r.value.remainder) &&
      0 <= Value(r.value.remainder) < Value(y) && 0 <= Value(r.value.quotient) <= Value(x)
  {
    ValueIsSigned(x);
    ValueIsSigned(y);
    if y.dataLength == 1 {
      WellFormedValue(y);
      ValSingle(y.data[0]);
      assert y.data[..1] == [y.data[0]];
      r := ShortDivision.SingleByteDivide(x, y);
    } else {
      CanonicalZero(y);
      Lengths(x, y);
      if Value(y) < Pow(W - 2) {
        LongDivision.ShortBuffer(y, W - 2);
      }
      r := LongDivision.MultiByteDivide(x, y);
    }
    if r.Ok? && 0 < Value(y) < Pow(W - 2) {
      Unsigned(Value(x), Value(y), r.value.quotient, r.value.remainder);
    }
  }

  /** A canonical magnitude is at least as long as any smaller one. */
  lemma {:induction false} Lengths(x: BigInteger, y: BigInteger)
    requires Canonical(x) && Canonical(y) && Val(y.data) <= Val(x.data)
    ensures y.dataLength <= x.dataLength
  {
    if x.dataLength < y.dataLength {
      WellFormedValue(x);
      ValBound(x.data[..x.dataLength]);
      PowMonotone(x.dataLength, y.dataLength - 1);
      ValAtLeast(y.data, y.dataLength - 1);
    }
  }

  /**
   * Quotient and remainder buffers of x = q * y + m below 2^2239 are
   * non-negative: their values are their unsigned values.
   */
  lemma {:induction false} Unsigned(vx: int, vy: int, q: BigInteger, m: BigInteger)
    requires |q.data| == W && |m.data| == W && 0 < vy && 0 <= vx < Half()
    requires vx == Val(q.data) * vy + Val(m.data) && Val(m.data) < vy
    ensures Value(q) == Val(q.data) <= vx && Value(m) == Val(m.data)
  {
    QuotientBelow(vx, vy, Val(q.data), Val(m.data));
    ValueIsSigned(q);
    ValueIsSigned(m);
  }

  /** Quotient and remainder by a positive divisor are at most the dividend. */
  lemma {:induction false} QuotientBelow(x: int, y: int, q: nat, m: nat)
    requires 0 < y && x == q * y + m
    ensures q <= x && m <= x
  {
    MulLe(1, y, q);
  }

  /** A dividend smaller in magnitude than the divisor: quotient zero, remainder the dividend. */
  lemma {:induction false} SmallQuot(x: int, y: int)
    requires Abs(x) < Abs(y)
    ensures Quot(x, y) == 0 && Rem(x, y) == x
  {
    DivModUnique(Abs(x), Abs(y), 0, Abs(x));
  }

  /**
   * Division of the magnitudes gives the truncating quotient and remainder:
   * the quotient takes the sign of the product, the remainder the
   * dividend's.
   */
  lemma {:induction false} SignedQuot(x: int, y: int, q: int, m: int)
    requires y != 0 && Abs(x) == q * Abs(y) + m && 0 <= m < Abs(y)
    ensures Quot(x, y) == (if (x < 0) == (y < 0) then q else -q)
    ensures Rem(x, y) == (if x < 0 then -m else m)
  {
    DivModUnique(Abs(x), Abs(y), q, m);
    var qt := Quot(x, y);
    assert Rem(x, y) == x - y * qt;
    NegMul(y, q);
    NegMul(q, y);
  }
}
