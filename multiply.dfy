/**
 * `operator *` of BigInteger.cs: the operands are replaced by their
 * absolute values, multiplied by the schoolbook method with a 64-bit
 * column value, and the sign is put back at the end. Any write past the
 * 70-word buffer is reported as an overflow.
 */
module Multiply {
  import opened Words
  import opened BigInt
  import opened Additive

  /**
   * `operator *`. The result is exact whenever it is returned; the overflow
   * is reported exactly when the product is out of range as long as the
   * second operand is trimmed (an untrimmed one makes the row loop walk
   * past the buffer even when the product fits).
   */
  method Multiply(a: BigInteger, b: BigInteger) returns (r: Result<BigInteger>)
    requires WellFormed(a) && WellFormed(b)
    ensures r.Ok? ==> Canonical(r.value) && Value(r.value) == Value(a) * Value(b)
    ensures Canonical(b) ==> (r.Ok? <==> InRange(Value(a) * Value(b)))
    ensures r.Err? ==> r.error == Overflow
  {
    var x, aNeg, y, bNeg := Magnitudes(a, b);
    var ok, data := Schoolbook(x, y);
    if !ok {
      if Canonical(b) {
        OverflowOutOfRange(a, b, x, y, bNeg);
      }
      return Err(Overflow);
    }
    var len := x.dataLength + y.dataLength;
    if len > W {
      len := W;
    }
    var n := TrimLength(data, len);
    var res := BigInteger(data[..], n);
    ValBound(data[..]);
    NotBothKept(a, b, x, y, bNeg);
    ghost var prod := Value(a) * Value(b);
    ValueIsSigned(a);
    ValueIsSigned(b);
    ProductSign(Value(a), Value(b), aNeg, bNeg);
    r := PutSign(res, aNeg != bNeg, prod);
  }

  /**
   * The end of `*`: the overflow test on the sign bit of the magnitude
   * product res (which passes only for the most negative value when the
   * signs differ), then the negation when the signs differ.
   */
  method PutSign(res: BigInteger, neg: bool, ghost prod: int) returns (r: Result<BigInteger>)
    requires Canonical(res) && prod == (if neg then -(Val(res.data) as int) else Val(res.data))
    ensures r.Ok? <==> InRange(prod)
    ensures r.Ok? ==> Canonical(r.value) && Value(r.value) == prod
    ensures r.Err? ==> r.error == Overflow
  {
    MulSigns(prod, res, neg);
    if IsNegative(res) {
      MaxNegative(res.data);
      if neg && res.data[W - 1] == SIGN {
        // the special case of a product equal to the most negative value
        assert res.dataLength == W by {
          assert res.data[W - 1] != 0;
        }
        var isMaxNeg := ZeroBelow(res.data, res.dataLength - 1);
        if isMaxNeg {
          return Ok(res);
        }
      }
      return Err(Overflow);
    }
    if neg {
      CanonicalZero(res);
      var negated := Negate(res);
      assert negated.Ok?;
      return Ok(negated.value);
    }
    return Ok(res);
  }

  /**
   * The absolute values of the operands. Negating the most negative value
   * throws inside the C# try block and the empty catch swallows it: that
   * operand keeps its bits (which read unsigned are its magnitude 2^2239),
   * and when it is the first one the second operand is not negated at all.
   */
  method Magnitudes(a: BigInteger, b: BigInteger) returns (x: BigInteger, aNeg: bool, y: BigInteger, bNeg: bool)
    requires WellFormed(a) && WellFormed(b)
    ensures WellFormed(x) && WellFormed(y) && (Canonical(b) ==> Canonical(y))
    ensures aNeg == IsNegative(a) && Val(x.data) == Abs(Value(a))
    ensures (bNeg == IsNegative(b) && Val(y.data) == Abs(Value(b)))
         || (Value(a) == -(Half() as int) && IsNegative(b) && !bNeg && y == b)
  {
    x, aNeg, y, bNeg := a, false, b, false;
    ValueIsSigned(a);
    ValueIsSigned(b);
    HalfOfModulus();
    if IsNegative(a) {
      aNeg := true;
      var na := Negate(a);
      if na.Err? {
        return;
      }
      x := na.value;
      ValueIsSigned(x);
    }
    if IsNegative(b) {
      bNeg := true;
      var nb := Negate(b);
      if nb.Err? {
        return;
      }
      y := nb.value;
      ValueIsSigned(y);
    }
  }

  /**
   * The two nested loops on the magnitudes. `ok` is false when a write
   * would land past the buffer (the IndexOutOfRangeException the C# code
   * turns into "Multiplication overflow").
   */
  method Schoolbook(x: BigInteger, y: BigInteger) returns (ok: bool, data: array<Word>)
    requires WellFormed(x) && WellFormed(y)
    ensures fresh(data) && data.Length == W
    ensures ok ==> Val(data[..]) == Val(x.data) * Val(y.data) && ZerosFrom(data[..], x.dataLength + y.dataLength)
    ensures !ok && Canonical(y) ==> Val(x.data) * Val(y.data) >= Modulus()
  {
    data := new Word[W](_ => 0);
    ValZeros(data[..]);
    WellFormedValue(x);
    var i := 0;
    while i < x.dataLength
      invariant 0 <= i <= x.dataLength
      invariant ZerosFrom(data[..], i + y.dataLength)
      invariant Val(data[..]) == Val(x.data[..i]) * Val(y.data)
    {
      RowValue(x.data, i, Val(y.data));
      if x.data[i] != 0 {
        ok := AddRow(data, x, y, i);
        if !ok {
          return;
        }
      } else {
        ScaleZero(i);
      }
      i := i + 1;
    }
    ok := true;
  }

  /**
   * One pass of the outer loop for a non-zero word x[i]: the inner loop,
   * then `result.data[i + bi2.dataLength] = (uint)mcarry` when the final
   * carry is not zero.
   */
  method AddRow(data: array<Word>, x: BigInteger, y: BigInteger, i: int) returns (ok: bool)
    modifies data
    requires data.Length == W && WellFormed(x) && WellFormed(y) && 0 <= i < x.dataLength
    requires Val(data[..]) == Val(x.data[..i]) * Val(y.data) && ZerosFrom(data[..], i + y.dataLength)
    ensures ok ==> Val(data[..]) == Val(x.data[..i + 1]) * Val(y.data) && ZerosFrom(data[..], i + 1 + y.dataLength)
    ensures !ok && x.data[i] != 0 && Canonical(y) ==> Val(x.data) * Val(y.data) >= Modulus()
  {
    ghost var vy := Val(y.data);
    RowValue(x.data, i, vy);
    var carry;
    ok, carry := MulRow(data, x.data[i], y, i, Val(data[..]));
    if !ok {
      if x.data[i] != 0 && Canonical(y) {
        RowPastBuffer(x, y, i);
      }
      return;
    }
    var at := i + y.dataLength;
    if carry != 0 {
      if at >= W {
        CarryPastBuffer(x.data, vy, i, Val(data[..]), carry, at);
        return false;
      }
      ghost var d := data[..];
      var top: Word := carry;
      ValUpdateZero(d, at, top);
      data[at] := top;
      assert data[..] == d[at := top];
    } else {
      ScaleZero(at);
    }
  }

  /**
   * The inner loop of `*`: xi times y added into the buffer from word i on.
   * `ok` is false when the column index reaches the end of the buffer.
   */
  method MulRow(data: array<Word>, xi: Word, y: BigInteger, i: int, ghost p: int) returns (ok: bool, carry: int)
    modifies data
    requires data.Length == W && WellFormed(y) && 0 <= i < W
    requires Val(data[..]) == p && ZerosFrom(data[..], i + y.dataLength)
    ensures !ok ==> i + y.dataLength > W
    ensures ok ==> 0 <= carry < BASE && ZerosFrom(data[..], i + y.dataLength)
    ensures ok ==> Val(data[..]) + Scale(carry, i + y.dataLength) == p + Scale(xi * Val(y.data), i)
  {
    carry := 0;
    ScaleZero(i);
    ScaleZero(0);
    assert y.data[..0] == [];
    var j := 0;
    while j < y.dataLength
      invariant 0 <= j <= y.dataLength && 0 <= carry < BASE
      invariant ZerosFrom(data[..], i + y.dataLength)
      invariant Val(data[..]) + Scale(carry, i + j) == p + Scale(xi * Val(y.data[..j]), i)
    {
      var k := i + j;
      if k >= W {
        return false, carry;
      }
      var v := xi * y.data[j] + data[k] + carry;
      ghost var d := data[..];
      MulStep(d, y.data, xi, i, j, carry, p, v);
      var lo: Word := v % BASE;
      data[k] := lo;
      assert data[..] == d[k := lo];
      carry := v / BASE;
      j := j + 1;
    }
    WellFormedValue(y);
    ok := true;
  }

  /** One column of the inner loop, v = xi * ys[j] + d[i + j] + carry: the invariant moves up one word. */
  lemma {:induction false} MulStep(d: seq<Word>, ys: seq<Word>, xi: Word, i: nat, j: nat, carry: int, p: int, v: int)
    requires |d| == W && j < |ys| && i + j < W && 0 <= carry < BASE
    requires Val(d) + Scale(carry, i + j) == p + Scale(xi * Val(ys[..j]), i)
    requires v == xi * ys[j] + d[i + j] + carry
    ensures 0 <= v / BASE < BASE
    ensures Val(d[i + j := v % BASE]) + Scale(v / BASE, i + j + 1) == p + Scale(xi * Val(ys[..j + 1]), i)
  {
    var k := i + j;
    WordProduct(xi, ys[j], d[k], carry);
    var lo: Word, hi := v % BASE, v / BASE;
    ValUpdate(d, k, lo);
    ValPrefix(ys, j);
    MulColumn(Val(d), p, Val(ys[..j]), xi, ys[j], d[k], carry, lo, hi, i, j);
  }

  /** `(ulong)x * y + r + mcarry` never exceeds 64 bits. */
  lemma {:induction false} WordProduct(x: Word, y: Word, r: Word, c: int)
    requires 0 <= c < BASE
    ensures 0 <= (x * y + r + c) / BASE < BASE
  {
    MulLe(0, x, y);
    MulLe(x, 0xFFFF_FFFF, y);
    MulLe(y, 0xFFFF_FFFF, 0xFFFF_FFFF);
    MulComm(y, 0xFFFF_FFFF);
    assert x * y <= 0xFFFF_FFFE_0000_0001;
    ColumnBound(x * y, r + c);
  }

  lemma {:induction false} ColumnBound(t: int, s: int)
    requires 0 <= t <= 0xFFFF_FFFE_0000_0001 && 0 <= s <= 0x1_FFFF_FFFE
    ensures 0 <= (t + s) / BASE < BASE
  {
    DivModUnique(t + s, BASE, (t + s) / BASE, (t + s) % BASE);
  }

  /** The arithmetic of one column of `*`, on the values involved. */
  lemma {:induction false} MulColumn(vd: int, p: int, vy: int, x: int, y: int, dk: int, c: int, lo: int, hi: int, i: nat, j: nat)
    requires vd + Scale(c, i + j) == p + Scale(x * vy, i)
    requires lo + BASE * hi == x * y + dk + c
    ensures (vd + Scale(lo, i + j) - Scale(dk, i + j)) + Scale(hi, i + j + 1) == p + Scale(x * (vy + Scale(y, j)), i)
  {
    Column(x * y + dk + c, lo, hi, i + j);
    ScaleAdd(x * y, dk + c, i + j);
    ScaleAdd(dk, c, i + j);
    ScaleMul(y, x, j);
    MulComm(x, y);
    MulComm(x, Scale(y, j));
    assert x * (vy + Scale(y, j)) == x * vy + Scale(x * y, j);
    ScaleAdd(x * vy, Scale(x * y, j), i);
    ScaleScale(x * y, j, i);
  }

  /** One more row of the outer loop adds xs[i] times y at word i. */
  lemma {:induction false} RowValue(xs: seq<Word>, i: nat, vy: int)
    requires i < |xs|
    ensures Val(xs[..i + 1]) * vy == Val(xs[..i]) * vy + Scale(xs[i] * vy, i)
  {
    ValPrefix(xs, i);
    ScaleMul(xs[i], vy, i);
  }

  /**
   * A row that walks past the buffer: a non-zero word of x at i and a
   * trimmed y reaching word W - i.
   */
  lemma {:induction false} RowPastBuffer(x: BigInteger, y: BigInteger, i: nat)
    requires WellFormed(x) && Canonical(y) && i < W && x.data[i] != 0
    requires i + y.dataLength > W
    ensures Val(x.data) * Val(y.data) >= Modulus()
  {
    var n := y.dataLength;
    ValAtLeast(x.data, i);
    ValAtLeast(y.data, n - 1);
    MulLe(Pow(i), Val(x.data), Pow(n - 1));
    MulLe(Pow(n - 1), Val(y.data), Val(x.data));
    MulComm(Pow(n - 1), Val(x.data));
    MulComm(Val(y.data), Val(x.data));
    PowAdd(i, n - 1);
    PowMonotone(W, i + n - 1);
  }

  /** A final carry of a row that would land at word W or above. */
  lemma {:induction false} CarryPastBuffer(xs: seq<Word>, vy: nat, i: nat, vd: nat, carry: int, at: nat)
    requires i < |xs| && carry >= 1 && at >= W
    requires vd + Scale(carry, at) == Val(xs[..i]) * vy + Scale(xs[i] * vy, i)
    ensures Val(xs) * vy >= Modulus()
  {
    RowValue(xs, i, vy);
    ValPrefixLe(xs, i + 1);
    MulLe(Val(xs[..i + 1]), Val(xs), vy);
    ScaleMonotone(1, carry, at);
    PowMonotone(W, at);
  }

  /** An overflow reported by the loops is a product out of range. */
  lemma {:induction false} OverflowOutOfRange(a: BigInteger, b: BigInteger, x: BigInteger, y: BigInteger, bNeg: bool)
    requires |a.data| == W && |b.data| == W && |y.data| == W
    requires Val(x.data) == Abs(Value(a))
    requires (bNeg == IsNegative(b) && Val(y.data) == Abs(Value(b)))
          || (Value(a) == -(Half() as int) && IsNegative(b) && !bNeg && y == b)
    requires Val(x.data) * Val(y.data) >= Modulus()
    ensures !InRange(Value(a) * Value(b))
  {
    HalfOfModulus();
    var u, v := Value(a), Value(b);
    if bNeg == IsNegative(b) && Val(y.data) == Abs(v) {
      AbsProduct(u, v);
    } else {
      ValueIsSigned(b);
      HalfTimesNegative(u, v, Half());
    }
  }

  /** The most negative value times a negative value is at least 2^2239. */
  lemma {:induction false} HalfTimesNegative(u: int, v: int, h: nat)
    requires u + h == 0 && v < 0
    ensures u * v >= h
  {
    MulLe(1, -v, h);
    assert u * v == (-v) * h;
  }

  lemma {:induction false} AbsProduct(u: int, v: int)
    ensures Abs(u * v) == Abs(u) * Abs(v)
    ensures u * v < 0 <==> (u < 0 && v > 0) || (u > 0 && v < 0)
  {
    if u < 0 && v < 0 {
      assert u * v == (-u) * (-v);
    } else if u < 0 {
      assert u * v == -((-u) * v);
    } else if v < 0 {
      assert u * v == -(u * (-v));
    }
  }

  /**
   * When the magnitude product fits in the buffer, the first operand was
   * not the most negative value left beside an unnegated negative second
   * operand (2^2239 times at least 2^2239 does not fit).
   */
  lemma {:induction false} NotBothKept(a: BigInteger, b: BigInteger, x: BigInteger, y: BigInteger, bNeg: bool)
    requires |a.data| == W && |b.data| == W && |y.data| == W
    requires Val(x.data) == Abs(Value(a))
    requires (bNeg == IsNegative(b) && Val(y.data) == Abs(Value(b)))
          || (Value(a) == -(Half() as int) && IsNegative(b) && !bNeg && y == b)
    requires Val(x.data) * Val(y.data) < Modulus()
    ensures bNeg == IsNegative(b) && Val(y.data) == Abs(Value(b))
  {
    if !(bNeg == IsNegative(b) && Val(y.data) == Abs(Value(b))) {
      HalfOfModulus();
      ValueIsSigned(b);
      MulLe(2, Half(), Val(y.data));
      MulLe(2, Val(y.data), Half());
      MulComm(Half(), Val(y.data));
      assert false;
    }
  }

  /** The product of two signed values is the product of their magnitudes, signed. */
  lemma {:induction false} ProductSign(u: int, v: int, uNeg: bool, vNeg: bool)
    requires uNeg == (u < 0) && vNeg == (v < 0)
    ensures u * v == (if uNeg != vNeg then -((Abs(u) * Abs(v)) as int) else Abs(u) * Abs(v))
  {
    AbsProduct(u, v);
  }

  /**
   * The sign-bit test after the loops, for a product whose magnitude is the
   * unsigned value of res and whose sign is `neg`: with the sign bit set the
   * product is in range only as the most negative value; without it the
   * product is in range and is res, negated when the signs differ.
   */
  lemma {:induction false} MulSigns(prod: int, res: BigInteger, neg: bool)
    requires |res.data| == W
    requires prod == (if neg then -(Val(res.data) as int) else Val(res.data))
    ensures IsNegative(res) ==> (InRange(prod) <==> neg && Val(res.data) == Half())
    ensures IsNegative(res) && neg && Val(res.data) == Half() ==> Value(res) == prod
    ensures !IsNegative(res) ==> InRange(prod) && 0 <= Value(res) && InRange(-Value(res))
    ensures !IsNegative(res) ==> prod == (if neg then -Value(res) else Value(res))
  {
    HalfOfModulus();
    ValueIsSigned(res);
  }

  /** `isMaxNeg`: whether the words below n are all zero. */
  method ZeroBelow(ws: seq<Word>, n: int) returns (z: bool)
    requires 0 <= n <= |ws|
    ensures z <==> forall k :: 0 <= k < n ==> ws[k] == 0
  {
    z := true;
    var i := 0;
    while i < n && z
      invariant 0 <= i <= n
      invariant z <==> forall k :: 0 <= k < i ==> ws[k] == 0
    {
      if ws[i] != 0 {
        z := false;
      }
      i := i + 1;
    }
  }

  /** The bit pattern of the most negative value: 0x80000000 on top, zeros below. */
  lemma {:induction false} MaxNegative(ws: seq<Word>)
    requires |ws| == W
    ensures (ws[W - 1] == SIGN && forall k :: 0 <= k < W - 1 ==> ws[k] == 0) <==> Val(ws) == Half()
  {
    ValLast(ws);
    if ws[W - 1] == SIGN && forall k :: 0 <= k < W - 1 ==> ws[k] == 0 {
      ValZeros(ws[..W - 1]);
    }
    if Val(ws) == Half() {
      SignBit(ws);
      ValBound(ws[..W - 1]);
      if ws[W - 1] > SIGN {
        DigitOrder(0, Val(ws[..W - 1]), SIGN, ws[W - 1], W - 1);
        assert false;
      }
      ValZeroWords(ws[..W - 1]);
    }
  }

  lemma {:induction false} ValZeroWords(ws: seq<Word>)
    requires Val(ws) == 0
    ensures forall k :: 0 <= k < |ws| ==> ws[k] == 0
  {
    if |ws| > 0 {
      ValZeroWords(ws[1..]);
      assert forall k :: 1 <= k < |ws| ==> ws[k] == ws[1..][k - 1];
    }
  }
}
