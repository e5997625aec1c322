/**
 * The representation of BigInteger.cs: a fixed buffer of 70 words read as a
 * 2240-bit two's-complement integer, with `dataLength` counting the words in
 * use.  The sign is bit 31 of the top word, data[69].
 *
 * Every operator of the class allocates a fresh result and never writes to
 * its operands, so a value is modelled as an immutable datatype; the
 * operators build the result buffer in a fresh array, as the C# code does.
 */
module BigInt {
  import opened Words

  /** maxLength: the buffer size in words. */
  const W: nat := 70

  /** The sign bit of a word (0x80000000). */
  const SIGN: nat := 0x8000_0000

  /** The kinds of ArithmeticException the class throws. */
  datatype Error =
    | Overflow          // a result does not fit in 2240 signed bits
    | InvalidFormat     // "Invalid string in constructor."
    | CapacityExceeded  // "Byte overflow in constructor." and buffer overruns
    | DivideByZero
    | NoInverse         // "No inverse!"
    | InvalidExponent   // "Positive exponents only."
    | IndexOutOfRange   // an array or list index outside its bounds
    | InvalidRadix      // ArgumentException "Radix must be >= 2 and <= 36"
    | RandomExhausted   // the finite list standing for a random source ran out

  datatype Result<T> = Ok(value: T) | Err(error: Error)

  /** The outQuotient and outRemainder objects the division routines fill. */
  datatype QR = QR(quotient: BigInteger, remainder: BigInteger)

  /** A BigInteger object: its `data` buffer and its `dataLength` field. */
  datatype BigInteger = BigInteger(data: seq<Word>, dataLength: int)

  /** The representation invariant: a full buffer, and only words below dataLength in use. */
  ghost predicate WellFormed(a: BigInteger)
  {
    |a.data| == W && 1 <= a.dataLength <= W && ZerosFrom(a.data, a.dataLength)
  }

  /** dataLength counts no high zero words. */
  ghost predicate Trimmed(a: BigInteger)
    requires WellFormed(a)
  {
    a.dataLength == 1 || a.data[a.dataLength - 1] != 0
  }

  ghost predicate Canonical(a: BigInteger)
  {
    WellFormed(a) && Trimmed(a)
  }

  /** `(data[maxLength - 1] & 0x80000000) != 0` */
  predicate IsNegative(a: BigInteger)
    requires |a.data| == W
  {
    a.data[W - 1] >= SIGN
  }

  /** 2^2240 */
  ghost function Modulus(): nat
  {
    Pow(W)
  }

  /** 2^2239, the magnitude of the most negative value. */
  ghost function Half(): nat
  {
    ScalePositive(SIGN, W - 1);
    Scale(SIGN, W - 1)
  }

  /** A 2240-bit pattern read as a two's-complement number. */
  ghost function Signed(v: int): int
  {
    SignedWith(v, Half(), Modulus())
  }

  /** Two's-complement reading for a symbolic half h and modulus m. */
  ghost function SignedWith(v: int, h: int, m: int): int
  {
    if v >= h then v - m else v
  }

  /** The signed integer a BigInteger stands for. */
  ghost function Value(a: BigInteger): int
    requires |a.data| == W
  {
    if IsNegative(a) then Val(a.data) - Modulus() else Val(a.data)
  }

  /** The values a BigInteger can hold. */
  ghost predicate InRange(x: int)
  {
    -(Half() as int) <= x < Half()
  }

  /** The all-zero buffer: `new BigInteger()`. */
  function Zero(): (z: BigInteger)
    ensures Canonical(z) && Value(z) == 0 && z.dataLength == 1
  {
    ValZeros(seq(W, _ => 0));
    BigInteger(seq(W, _ => 0), 1)
  }

  // ---------------------------------------------------------------------
  // Sign and range
  // ---------------------------------------------------------------------

  /** 2^2239 = 2^31 * 2^(32 * 69). */
  lemma {:induction false} HalfIsPow2()
    ensures Half() == Pow2(32 * W - 1)
  {
    var a := Pow(W - 1);
    ScaleIsMul(SIGN, W - 1);
    assert Half() == SIGN * a;
    PowIsPow2(W - 1);
    SignIsPow2();
    Pow2Add(31, 32 * (W - 1));
    assert 31 + 32 * (W - 1) == 32 * W - 1;
  }

  lemma {:induction false} SignIsPow2()
    ensures SIGN == Pow2(31)
  {
    assert Pow2(8) == 256 && Pow2(7) == 128;
    Pow2Add(8, 7);
    Pow2Add(8, 8);
    Pow2Add(16, 15);
  }

  lemma {:induction false} HalfOfModulus()
    ensures Modulus() == 2 * Half() && Half() >= SIGN
  {
    ScaleStep(1, W - 1);
    ScaleAdd(SIGN, SIGN, W - 1);
    ScalePositive(SIGN, W - 1);
  }

  /** The sign bit is set exactly when the unsigned value is at least 2^2239. */
  lemma {:induction false} SignBit(ws: seq<Word>)
    requires |ws| == W
    ensures ws[W - 1] >= SIGN <==> Val(ws) >= Half()
  {
    var n := W - 1;
    ValLast(ws);
    ValBound(ws[..n]);
    if ws[n] >= SIGN {
      ScaleMonotone(SIGN, ws[n], n);
    } else {
      DigitOrder(Val(ws[..n]), 0, ws[n], SIGN, n);
      ScaleZero(n);
    }
  }

  /** The value of a buffer is its unsigned value read as two's complement. */
  lemma {:induction false} ValueIsSigned(a: BigInteger)
    requires |a.data| == W
    ensures Value(a) == Signed(Val(a.data)) && InRange(Value(a))
    ensures IsNegative(a) <==> Value(a) < 0
    ensures 0 <= Val(a.data) < Modulus() && (IsNegative(a) <==> Val(a.data) >= Half())
  {
    SignBit(a.data);
    ValBound(a.data);
    HalfOfModulus();
  }

  /** The facts of ValueIsSigned that the sign-bit tests need, and no more. */
  lemma {:induction false} SignedView(a: BigInteger)
    requires |a.data| == W
    ensures Value(a) == Signed(Val(a.data)) && 0 <= Val(a.data) < Modulus()
    ensures IsNegative(a) <==> Val(a.data) >= Half()
  {
    ValueIsSigned(a);
  }

  /** Two canonical representations of one value are the same representation. */
  lemma {:induction false} CanonicalUnique(a: BigInteger, b: BigInteger)
    requires Canonical(a) && Canonical(b)
    ensures a == b <==> Value(a) == Value(b)
  {
    if Value(a) == Value(b) {
      ValueIsSigned(a);
      ValueIsSigned(b);
      ValBound(a.data);
      ValBound(b.data);
      HalfOfModulus();
      assert Val(a.data) == Val(b.data);
      ValInjective(a.data, b.data);
    }
  }

  /**
   * Addition of two 2240-bit patterns with carry-out c. The C# overflow test
   * (operands of one sign, result of the other) fails exactly when the true
   * sum is out of range, and otherwise the pattern is the sum.
   */
  lemma {:induction false} SumLemma(va: int, vb: int, vr: int, c: int)
    requires 0 <= va < Modulus() && 0 <= vb < Modulus() && 0 <= vr < Modulus()
    requires (c == 0 || c == 1) && vr + Scale(c, W) == va + vb
    ensures ((va >= Half()) == (vb >= Half()) && (vr >= Half()) != (va >= Half()))
            <==> !InRange(Signed(va) + Signed(vb))
    ensures InRange(Signed(va) + Signed(vb)) ==> Signed(vr) == Signed(va) + Signed(vb)
  {
    HalfOfModulus();
    ScaleZero(W);
    SumWith(va, vb, vr, Scale(c, W), Half(), Modulus());
  }

  /** SumLemma for a symbolic width: h is half the modulus m, cm the carry out. */
  lemma {:induction false} SumWith(va: int, vb: int, vr: int, cm: int, h: int, m: int)
    requires h > 0 && m == 2 * h
    requires 0 <= va < m && 0 <= vb < m && 0 <= vr < m
    requires (cm == 0 || cm == m) && vr + cm == va + vb
    ensures var sa, sb, sr := SignedWith(va, h, m), SignedWith(vb, h, m), SignedWith(vr, h, m);
      ((va >= h) == (vb >= h) && (vr >= h) != (va >= h)) <==> !(-h <= sa + sb < h)
    ensures var sa, sb, sr := SignedWith(va, h, m), SignedWith(vb, h, m), SignedWith(vr, h, m);
      -h <= sa + sb < h ==> sr == sa + sb
  {
  }

  /** Subtraction with borrow-out c; the overflow test of `-`. */
  lemma {:induction false} DiffLemma(va: int, vb: int, vr: int, c: int)
    requires 0 <= va < Modulus() && 0 <= vb < Modulus() && 0 <= vr < Modulus()
    requires (c == 0 || c == 1) && vr + vb == va + Scale(c, W)
    ensures ((va >= Half()) != (vb >= Half()) && (vr >= Half()) != (va >= Half()))
            <==> !InRange(Signed(va) - Signed(vb))
    ensures InRange(Signed(va) - Signed(vb)) ==> Signed(vr) == Signed(va) - Signed(vb)
  {
    HalfOfModulus();
    ScaleZero(W);
    DiffWith(va, vb, vr, Scale(c, W), Half(), Modulus());
  }

  /** DiffLemma for a symbolic width; cm is the borrow out. */
  lemma {:induction false} DiffWith(va: int, vb: int, vr: int, cm: int, h: int, m: int)
    requires h > 0 && m == 2 * h
    requires 0 <= va < m && 0 <= vb < m && 0 <= vr < m
    requires (cm == 0 || cm == m) && vr + vb == va + cm
    ensures var sa, sb, sr := SignedWith(va, h, m), SignedWith(vb, h, m), SignedWith(vr, h, m);
      ((va >= h) != (vb >= h) && (vr >= h) != (va >= h)) <==> !(-h <= sa - sb < h)
    ensures var sa, sb, sr := SignedWith(va, h, m), SignedWith(vb, h, m), SignedWith(vr, h, m);
      -h <= sa - sb < h ==> sr == sa - sb
  {
  }

  /**
   * Two's-complement negation of a non-zero pattern: only 2^2239 keeps its
   * sign bit, and every other value is negated.
   */
  lemma {:induction false} NegLemma(va: int, vr: int)
    requires 0 < va < Modulus() && vr == Modulus() - va
    ensures (vr >= Half()) == (va >= Half()) <==> va == Half()
    ensures va != Half() ==> Signed(vr) == -Signed(va)
    ensures va == Half() <==> !InRange(-Signed(va))
  {
    HalfOfModulus();
    NegWith(va, vr, Half(), Modulus());
  }

  /** NegLemma for a symbolic width. */
  lemma {:induction false} NegWith(va: int, vr: int, h: int, m: int)
    requires h > 0 && m == 2 * h
    requires 0 < va < m && vr == m - va
    ensures (vr >= h) == (va >= h) <==> va == h
    ensures va != h ==> SignedWith(vr, h, m) == -SignedWith(va, h, m)
    ensures va == h <==> !(-h <= -SignedWith(va, h, m) < h)
  {
  }

  /** The value of a buffer whose words from len on are zero. */
  lemma {:induction false} WellFormedValue(a: BigInteger)
    requires WellFormed(a)
    ensures Val(a.data) == Val(a.data[..a.dataLength])
  {
    ValTrailingZeros(a.data, a.dataLength);
  }

  /** A canonical buffer longer than one word is not zero. */
  lemma {:induction false} CanonicalZero(a: BigInteger)
    requires Canonical(a)
    ensures a.dataLength > 1 ==> Val(a.data) > 0
  {
    if a.dataLength > 1 {
      ValAtLeast(a.data, a.dataLength - 1);
    }
  }

  /** `dataLength > 1 || data[0] != 0`, the class's test for a non-zero value. */
  lemma {:induction false} NonZeroTest(a: BigInteger)
    requires Canonical(a)
    ensures (a.dataLength > 1 || a.data[0] != 0) <==> Val(a.data) != 0
  {
    CanonicalZero(a);
    if a.dataLength == 1 {
      SingleWord(a);
    }
  }

  /** A one-word buffer is worth its word, and a canonical buffer below 2^32 has one word. */
  lemma {:induction false} SingleWord(a: BigInteger)
    requires Canonical(a) && (a.dataLength == 1 || Val(a.data) < BASE)
    ensures a.dataLength == 1 && Val(a.data) == a.data[0]
  {
    WellFormedValue(a);
    if a.dataLength > 1 {
      assert Pow(1) == BASE;
      PowMonotone(1, a.dataLength - 1);
      ValAtLeast(a.data, a.dataLength - 1);
      assert false;
    }
    assert a.data[..1] == [a.data[0]];
    ValSingle(a.data[0]);
  }

  // ---------------------------------------------------------------------
  // Trimming
  // ---------------------------------------------------------------------

  /**
   * `while (dataLength > 1 && data[dataLength - 1] == 0) dataLength--;`,
   * the closing step of almost every operator.
   */
  method TrimLength(buf: array<Word>, len: int) returns (n: int)
    requires 1 <= len <= buf.Length && ZerosFrom(buf[..], len)
    ensures 1 <= n <= len && ZerosFrom(buf[..], n) && (n == 1 || buf[n - 1] != 0)
    ensures buf.Length == W ==> Canonical(BigInteger(buf[..], n))
  {
    n := len;
    while n > 1 && buf[n - 1] == 0
      invariant 1 <= n <= len && ZerosFrom(buf[..], n)
    {
      n := n - 1;
    }
  }

  // ---------------------------------------------------------------------
  // Equality and ordering (BigInteger.cs, operators ==, >, <, >=, <=)
  // ---------------------------------------------------------------------

  /** `Equals`: the same length and the same words below it. */
  method Equals(a: BigInteger, b: BigInteger) returns (eq: bool)
    requires WellFormed(a) && WellFormed(b)
    ensures eq <==> a == b
    ensures Canonical(a) && Canonical(b) ==> (eq <==> Value(a) == Value(b))
  {
    if Canonical(a) && Canonical(b) {
      CanonicalUnique(a, b);
    }
    if a.dataLength != b.dataLength {
      return false;
    }
    var i := 0;
    while i < a.dataLength
      invariant 0 <= i <= a.dataLength
      invariant forall k :: 0 <= k < i ==> a.data[k] == b.data[k]
    {
      if a.data[i] != b.data[i] {
        return false;
      }
      i := i + 1;
    }
    assert forall k :: 0 <= k < W ==> a.data[k] == b.data[k];
    assert a.data == b.data;
    return true;
  }

  /**
   * The scan shared by `>` and `<`: the highest position below the longer
   * length where the words differ, or -1.
   */
  method FirstDifference(a: BigInteger, b: BigInteger) returns (pos: int)
    requires WellFormed(a) && WellFormed(b)
    ensures -1 <= pos < W && forall k :: pos < k < W ==> a.data[k] == b.data[k]
    ensures pos >= 0 ==> a.data[pos] != b.data[pos]
  {
    var len := if a.dataLength > b.dataLength then a.dataLength else b.dataLength;
    pos := len - 1;
    while pos >= 0 && a.data[pos] == b.data[pos]
      invariant -1 <= pos < len
      invariant forall k :: pos < k < W ==> a.data[k] == b.data[k]
    {
      pos := pos - 1;
    }
  }

  /** How the first differing word orders the two values. */
  lemma {:induction false} OrderAt(a: BigInteger, b: BigInteger, pos: int)
    requires WellFormed(a) && WellFormed(b) && IsNegative(a) == IsNegative(b)
    requires -1 <= pos < W && forall k :: pos < k < W ==> a.data[k] == b.data[k]
    requires pos >= 0 ==> a.data[pos] != b.data[pos]
    ensures pos >= 0 && a.data[pos] > b.data[pos] <==> Value(a) > Value(b)
    ensures pos >= 0 && a.data[pos] < b.data[pos] <==> Value(a) < Value(b)
  {
    assert a.data[pos + 1..] == b.data[pos + 1..];
    if pos < 0 {
      assert a.data == a.data[0..];
    } else if a.data[pos] > b.data[pos] {
      ValCompareAt(b.data, a.data, pos);
    } else {
      ValCompareAt(a.data, b.data, pos);
    }
  }

  /** `operator >`: the signs first, then the words from the top. */
  method Greater(a: BigInteger, b: BigInteger) returns (gt: bool)
    requires WellFormed(a) && WellFormed(b)
    ensures gt <==> Value(a) > Value(b)
  {
    ValueIsSigned(a);
    ValueIsSigned(b);
    if IsNegative(a) && !IsNegative(b) {
      return false;
    } else if !IsNegative(a) && IsNegative(b) {
      return true;
    }
    var pos := FirstDifference(a, b);
    OrderAt(a, b, pos);
    if pos >= 0 {
      gt := a.data[pos] > b.data[pos];
    } else {
      gt := false;
    }
  }

  /** `operator <` */
  method Less(a: BigInteger, b: BigInteger) returns (lt: bool)
    requires WellFormed(a) && WellFormed(b)
    ensures lt <==> Value(a) < Value(b)
  {
    ValueIsSigned(a);
    ValueIsSigned(b);
    if IsNegative(a) && !IsNegative(b) {
      return true;
    } else if !IsNegative(a) && IsNegative(b) {
      return false;
    }
    var pos := FirstDifference(a, b);
    OrderAt(a, b, pos);
    if pos >= 0 {
      lt := a.data[pos] < b.data[pos];
    } else {
      lt := false;
    }
  }

  /** `operator >=`: `bi1 == bi2 || bi1 > bi2`. */
  method GreaterOrEqual(a: BigInteger, b: BigInteger) returns (ge: bool)
    requires WellFormed(a) && WellFormed(b)
    ensures ge <==> a == b || Value(a) > Value(b)
    ensures Canonical(a) && Canonical(b) ==> (ge <==> Value(a) >= Value(b))
  {
    if Canonical(a) && Canonical(b) {
      CanonicalUnique(a, b);
    }
    var eq := Equals(a, b);
    if eq {
      return true;
    }
    ge := Greater(a, b);
  }

  /** `operator <=`: `bi1 == bi2 || bi1 < bi2`. */
  method LessOrEqual(a: BigInteger, b: BigInteger) returns (le: bool)
    requires WellFormed(a) && WellFormed(b)
    ensures le <==> a == b || Value(a) < Value(b)
    ensures Canonical(a) && Canonical(b) ==> (le <==> Value(a) <= Value(b))
  {
    if Canonical(a) && Canonical(b) {
      CanonicalUnique(a, b);
    }
    var eq := Equals(a, b);
    if eq {
      return true;
    }
    le := Less(a, b);
  }

  /**
   * The copy loop of `new BigInteger(bi)`: dataLength words into a fresh
   * zero buffer.
   */
  method NewBuffer(a: BigInteger) returns (buf: array<Word>)
    requires |a.data| == W && 1 <= a.dataLength <= W
    ensures fresh(buf) && buf.Length == W && ZerosFrom(buf[..], a.dataLength)
    ensures forall k :: 0 <= k < a.dataLength ==> buf[k] == a.data[k]
    ensures WellFormed(a) ==> buf[..] == a.data
  {
    buf := new Word[W](_ => 0);
    var i := 0;
    while i < a.dataLength
      invariant 0 <= i <= a.dataLength
      invariant forall k :: 0 <= k < i ==> buf[k] == a.data[k]
      invariant ZerosFrom(buf[..], i)
    {
      buf[i] := a.data[i];
      i := i + 1;
    }
    if WellFormed(a) {
      assert forall k :: 0 <= k < W ==> buf[..][k] == a.data[k];
    }
  }

  /** `new BigInteger(bi)`: on a well-formed value the copy is the same value. */
  method Copy(a: BigInteger) returns (r: BigInteger)
    requires |a.data| == W && 1 <= a.dataLength <= W
    ensures r.dataLength == a.dataLength && |r.data| == W && ZerosFrom(r.data, a.dataLength)
    ensures forall k :: 0 <= k < a.dataLength ==> r.data[k] == a.data[k]
    ensures WellFormed(a) ==> r == a
  {
    var buf := NewBuffer(a);
    r := BigInteger(buf[..], a.dataLength);
  }
}
