/**
 * `multiByteDivide` of BigInteger.cs: long division of a non-negative
 * dividend by a divisor of two or more words, Knuth's Algorithm D on
 * base-2^32 digits. The divisor and a copy of the dividend one word longer
 * are shifted left until the divisor's top bit is set; each step then
 * estimates one quotient digit from the top two words of the current
 * remainder window and the top two words of the divisor, lowers the
 * estimate with the usual three-word test, corrects it against the exact
 * product, and replaces the window by the difference. The remainder is
 * shifted back at the end.
 *
 * The C# code computes the estimate in `ulong` arithmetic; the model writes
 * out the wrap-around of `q_hat * secondDivisorByte` and of `q_hat--`.
 * The window is handed to `new BigInteger(uint[])`, which refuses more than
 * 70 words, so a 70-word divisor always fails; with a 69-word divisor the
 * window and the products can exceed the signed range and nothing is
 * claimed about the result. Up to 68 divisor words the routine computes
 * the exact quotient and remainder.
 */
module LongDivision {
  import opened Words
  import opened Bits
  import opened BigInt
  import Additive
  import Multiply
  import Shift
  import Construct

  /** 2^64: C#'s `ulong` arithmetic is modulo this. */
  const ULONG: nat := 0x1_0000_0000_0000_0000

  // ---------------------------------------------------------------------
  // Normalisation
  // ---------------------------------------------------------------------

  /**
   * The mask loop: the number of zero bits above the highest set bit of
   * the divisor's top word, the shift that moves that bit to bit 31.
   */
  method LeadingZeros(val: Word) returns (shift: int)
    ensures 0 <= shift <= 32 && (shift == 32 <==> val == 0)
    ensures shift < 32 ==> Pow2(31 - shift) <= val < Pow2(32 - shift)
  {
    MaskStart(val);
    var mask := SIGN;
    shift := 0;
    while mask != 0 && And(val, mask) == 0
      invariant 0 <= shift <= 32 && val < Pow2(32 - shift)
      invariant mask == MaskAt(shift)
    {
      MaskStep(val, shift);
      shift := shift + 1;
      mask := mask / 2;
    }
    MaskFound(val, shift, mask);
  }

  /** `0x80000000 >> shift` */
  function MaskAt(shift: nat): nat
  {
    if shift < 32 then Pow2(31 - shift) else 0
  }

  /** Before the loop: the mask is bit 31 and every word is below 2^32. */
  lemma {:induction false} MaskStart(val: Word)
    ensures val < Pow2(32 - 0) && SIGN == MaskAt(0)
  {
    Pow2Of32();
  }

  /** A clear bit 31 - shift below 2^(32 - shift): the word is below 2^(31 - shift). */
  lemma {:induction false} MaskStep(val: nat, shift: nat)
    requires shift < 32 && val < Pow2(32 - shift) && And(val, Pow2(31 - shift)) == 0
    ensures val < Pow2(32 - (shift + 1))
    ensures MaskAt(shift) / 2 == MaskAt(shift + 1)
  {
    MaskTest(val, 31 - shift);
    TopBit(val, 31 - shift);
  }

  /** After the loop: a set bit was found, or all 32 were clear. */
  lemma {:induction false} MaskFound(val: nat, shift: nat, mask: nat)
    requires shift <= 32 && val < Pow2(32 - shift)
    requires mask == MaskAt(shift)
    requires !(mask != 0 && And(val, mask) == 0)
    ensures shift == 32 <==> val == 0
    ensures shift < 32 ==> Pow2(31 - shift) <= val < Pow2(32 - shift)
  {
    if shift < 32 {
      MaskTest(val, 31 - shift);
      TopBit(val, 31 - shift);
    }
  }

  // ---------------------------------------------------------------------
  // The digit estimate
  // ---------------------------------------------------------------------

  /** Two words read as one number, the high word first: `((ulong)hi << 32) + lo`. */
  function Join(hi: int, lo: int): int
  {
    hi * BASE + lo
  }

  /**
   * The first inner loop: q_hat and r_hat from the top two remainder words
   * over the top divisor word, lowered while q_hat is 2^32 or the test on
   * the next words shows it too large, for as long as r_hat stays below
   * 2^32. The estimate never drops below any digit qstar that the three
   * top words allow, and it stays below 2^33 (the divisor's top word has
   * its top bit set), so the later `(long)q_hat` keeps its value.
   */
  method EstimateDigit(u0: Word, u1: Word, u2: Word, first: Word, second: Word, ghost qstar: int)
    returns (qhat: int)
    requires first >= SIGN
    requires 0 <= qstar < BASE && qstar * first <= Join(u0, u1)
    requires qstar * Join(first, second) <= Join(Join(u0, u1), u2)
    ensures qstar <= qhat <= Join(u0, u1) / first && qhat < 2 * BASE
  {
    var dividend := u0 * BASE + u1;
    qhat := dividend / first;
    var rhat := dividend % first;
    EstimateStart(dividend, first, qstar);
    var done := false;
    while !done
      invariant 0 <= qhat <= dividend / first && qhat * first + rhat == dividend && 0 <= rhat
      invariant !done ==> rhat < BASE
      invariant qstar <= qhat
      decreases if done then 0 else BASE + 1 - rhat
    {
      done := true;
      if qhat == BASE || (qhat * second) % ULONG > rhat * BASE + u2 {
        TestSound(u0, u1, u2, first, second, qhat, rhat, qstar);
        LowerEstimate(qhat, first, rhat);
        qhat := qhat - 1;
        rhat := rhat + first;
        if rhat < BASE {
          done := false;
        }
      }
    }
  }

  /** The first estimate is at least qstar and below 2^33. */
  lemma {:induction false} EstimateStart(dividend: int, first: int, qstar: int)
    requires SIGN <= first && 0 <= dividend < BASE * BASE && 0 <= qstar && qstar * first <= dividend
    ensures qstar <= dividend / first < 2 * BASE
  {
    if dividend / first < qstar {
      MulLe(dividend / first + 1, qstar, first);
    }
    MulLe(SIGN, first, 2 * BASE);
    DivBelow(dividend, first, 2 * BASE);
  }

  /** `q_hat--; r_hat += firstDivisorByte;` keeps q_hat * first + r_hat. */
  lemma {:induction false} LowerEstimate(qhat: int, first: int, rhat: int)
    ensures (qhat - 1) * first + (rhat + first) == qhat * first + rhat
  {
  }

  /** A wrapped 64-bit product is no larger than the product. */
  lemma {:induction false} WrapLe(x: int)
    requires 0 <= x
    ensures x % ULONG <= x
  {
    if x < ULONG {
      DivModUnique(x, ULONG, 0, x);
    }
  }

  /**
   * The test lowers q_hat only when it is above qstar: q_hat = 2^32 is above
   * every digit, and q_hat * second > r_hat * 2^32 + u2 (even after the
   * 64-bit wrap, which only makes the left side smaller) means q_hat times
   * the top two divisor words exceeds the top three remainder words.
   */
  lemma {:induction false} TestSound(u0: int, u1: int, u2: int, first: int, second: int, qhat: int, rhat: int, qstar: int)
    requires qhat * first + rhat == u0 * BASE + u1 && 0 <= rhat && 0 <= second && 0 <= u2
    requires 0 <= qstar < BASE && qstar <= qhat
    requires qstar * Join(first, second) <= Join(Join(u0, u1), u2)
    requires qhat == BASE || (qhat * second) % ULONG > rhat * BASE + u2
    ensures qstar < qhat
  {
    if qhat != BASE && qstar == qhat {
      MulLe(0, qhat, second);
      WrapLe(qhat * second);
      TestBound(u0, u1, u2, first, second, qhat, rhat);
      assert false;
    }
  }

  /** q_hat times the top two divisor words within the top three remainder words bounds q_hat * second. */
  lemma {:induction false} TestBound(u0: int, u1: int, u2: int, first: int, second: int, qhat: int, rhat: int)
    requires qhat * first + rhat == u0 * BASE + u1
    requires qhat * Join(first, second) <= Join(Join(u0, u1), u2)
    ensures qhat * second <= rhat * BASE + u2
  {
    var top := u0 * BASE + u1;
    Distribute(qhat, first, second, rhat);
    assert Join(top, u2) == top * BASE + u2;
  }

  lemma {:induction false} Distribute(q: int, f: int, s: int, r: int)
    ensures q * (f * BASE + s) == (q * f + r) * BASE + q * s - r * BASE
  {
  }

  // ---------------------------------------------------------------------
  // Values of word windows
  // ---------------------------------------------------------------------

  lemma {:induction false} ValTwo(ws: seq<Word>)
    requires |ws| == 2
    ensures Val(ws) == Join(ws[1], ws[0])
  {
    var t := ws[1..];
    assert t[1..] == [];
    assert Val(t) == t[0] + BASE * Val(t[1..]);
    assert Val(ws) == ws[0] + BASE * Val(t);
  }

  lemma {:induction false} ValThree(ws: seq<Word>)
    requires |ws| == 3
    ensures Val(ws) == Join(Join(ws[2], ws[1]), ws[0])
  {
    ValTwo(ws[1..]);
  }

  /** With nothing above pos, the buffer is its words below k plus the window k..pos. */
  lemma {:induction false} WindowSplit(rs: seq<Word>, k: nat, pos: nat)
    requires k <= pos < |rs| && ZerosFrom(rs, pos + 1)
    ensures Val(rs) == Val(rs[..k]) + Scale(Val(rs[k..pos + 1]), k)
  {
    ValSplit(rs, k);
    ValTrailingZeros(rs[k..], pos + 1 - k);
    assert rs[k..][..pos + 1 - k] == rs[k..pos + 1];
  }

  /**
   * Leading digits bound a quotient: if q * v <= u, v is at least vt units
   * of weight e and u is below ut + 1 of them, then q * vt <= ut.
   */
  lemma {:induction false} TopDigits(q: nat, u: int, v: int, ut: int, vt: int, e: nat)
    requires q * v <= u && Scale(vt, e) <= v && u < Scale(ut + 1, e)
    ensures q * vt <= ut
  {
    ScaleMul(vt, q, e);
    MulLe(Scale(vt, e), v, q);
    if q * vt > ut {
      ScaleMonotone(ut + 1, vt * q, e);
    }
  }

  /**
   * The exact case of a step: the window k..pos (k = pos - n) is below
   * V * 2^32, so its quotient by V is one digit, and that digit satisfies
   * the bounds of EstimateDigit on the top two and three words.
   */
  lemma {:induction false} EstimateFacts(rs: seq<Word>, pos: nat, n: nat, bs: seq<Word>)
    requires 2 <= n <= pos < |rs| && ZerosFrom(rs, pos + 1)
    requires n <= |bs| && ZerosFrom(bs, n) && Val(bs) > 0
    requires Val(rs) < Scale(Val(bs), pos - n + 1)
    ensures var k, U, V := pos - n, Val(rs[pos - n..pos + 1]), Val(bs);
      Val(rs) == Val(rs[..k]) + Scale(U, k) && U < BASE * V &&
      U / V * bs[n - 1] <= Join(rs[pos], rs[pos - 1]) &&
      U / V * Join(bs[n - 1], bs[n - 2]) <= Join(Join(rs[pos], rs[pos - 1]), rs[pos - 2])
  {
    var k, U, V := pos - n, Val(rs[pos - n..pos + 1]), Val(bs);
    WindowBelow(rs, pos, n, V);
    var w := rs[k..pos + 1];
    var d := bs[..n];
    ValTrailingZeros(bs, n);
    DivBelow(U, V, BASE);
    var q: nat := U / V;
    assert q * V <= U;
    TopTwo(w, d, q);
    TopThree(w, d, q);
  }

  /** The window k..pos is below V * 2^32 when the buffer is below V weighed at k + 1. */
  lemma {:induction false} WindowBelow(rs: seq<Word>, pos: nat, n: nat, V: int)
    requires n <= pos < |rs| && ZerosFrom(rs, pos + 1) && V > 0
    requires Val(rs) < Scale(V, pos - n + 1)
    ensures Val(rs) == Val(rs[..pos - n]) + Scale(Val(rs[pos - n..pos + 1]), pos - n)
    ensures Val(rs[pos - n..pos + 1]) < BASE * V
  {
    var k, U := pos - n, Val(rs[pos - n..pos + 1]);
    WindowSplit(rs, k, pos);
    ScaleStep(V, k);
    if U >= BASE * V {
      ScaleMonotone(BASE * V, U, k);
    }
  }

  /** A multiple of the divisor within the window: the top divisor words from e up times q are within the window's words from e up. */
  lemma {:induction false} TopWindow(w: seq<Word>, d: seq<Word>, q: nat, e: nat)
    requires e <= |d| && |w| == |d| + 1 && q * Val(d) <= Val(w)
    ensures q * Val(d[e..]) <= Val(w[e..])
  {
    Tops(w, d, e);
    TopDigits(q, Val(w), Val(d), Val(w[e..]), Val(d[e..]), e);
  }

  /** The divisor is at least its words from e up, the window below one more of them. */
  lemma {:induction false} Tops(w: seq<Word>, d: seq<Word>, e: nat)
    requires e <= |d| && |w| == |d| + 1
    ensures Scale(Val(d[e..]), e) <= Val(d) && Val(w) < Scale(Val(w[e..]) + 1, e)
  {
    ValAbove(w, e);
    ValAbove(d, e);
  }

  /** The top divisor word times q is within the top two window words. */
  lemma {:induction false} TopTwo(w: seq<Word>, d: seq<Word>, q: nat)
    requires |d| >= 2 && |w| == |d| + 1 && q * Val(d) <= Val(w)
    ensures q * d[|d| - 1] <= Join(w[|d|], w[|d| - 1])
  {
    var n := |d|;
    var wt, dt := w[n - 1..], d[n - 1..];
    TopWindow(w, d, q, n - 1);
    assert wt == [w[n - 1], w[n]];
    assert dt == [d[n - 1]];
    ValTwo(wt);
    ValSingle(d[n - 1]);
    Substitute(q, Val(dt), d[n - 1], Val(wt), Join(w[n], w[n - 1]));
  }

  /** The top two divisor words times q are within the top three window words. */
  lemma {:induction false} TopThree(w: seq<Word>, d: seq<Word>, q: nat)
    requires |d| >= 2 && |w| == |d| + 1 && q * Val(d) <= Val(w)
    ensures q * Join(d[|d| - 1], d[|d| - 2]) <= Join(Join(w[|d|], w[|d| - 1]), w[|d| - 2])
  {
    var n := |d|;
    var wt, dt := w[n - 2..], d[n - 2..];
    TopWindow(w, d, q, n - 2);
    assert wt == [w[n - 2], w[n - 1], w[n]];
    assert dt == [d[n - 2], d[n - 1]];
    ValThree(wt);
    ValTwo(dt);
    Substitute(q, Val(dt), Join(d[n - 1], d[n - 2]), Val(wt), Join(Join(w[n], w[n - 1]), w[n - 2]));
  }

  lemma {:induction false} Substitute(q: int, v: int, v': int, u: int, u': int)
    requires q * v <= u && v == v' && u == u'
    ensures q * v' <= u'
  {
  }

  // ---------------------------------------------------------------------
  // One step of the outer loop
  // ---------------------------------------------------------------------

  /**
   * The remainder buffer before the step that ends at word j: nothing at
   * or above word j + n - 1 + 1, and less than V weighed at j.
   */
  ghost predicate Reduced(rs: seq<Word>, V: int, n: nat, j: nat)
  {
    ZerosFrom(rs, j + n) && Val(rs) < Scale(V, j)
  }

  lemma {:induction false} InRangeOf(a: BigInteger)
    requires |a.data| == W
    ensures InRange(Value(a))
  {
    ValueIsSigned(a);
  }

  /** Taking v from c > k >= 0 cannot leave the signed range. */
  lemma {:induction false} SubtractFits(c: int, k: int, v: int)
    requires InRange(c) && InRange(v) && c > k >= 0 && v > 0
    ensures InRange(c - v)
  {
  }

  lemma {:induction false} MulStep(c: int, v: int)
    ensures (c + 1) * v == c * v + v
  {
  }

  /** `q_hat--` on a ulong: 0 wraps to 2^64 - 1. */
  function Dec(q: int): int
  {
    if q == 0 then ULONG - 1 else q - 1
  }

  /** Dec is subtraction of one modulo 2^64. */
  lemma {:induction false} DecWrap(q: int, x: int)
    requires q == x % ULONG
    ensures Dec(q) == (x - 1) % ULONG
  {
    if q == 0 {
      DivModUnique(x - 1, ULONG, x / ULONG - 1, ULONG - 1);
    } else {
      DivModUnique(x - 1, ULONG, x / ULONG, q - 1);
    }
  }

  /**
   * One pass of the outer loop at word pos of the remainder, k = pos - n
   * words above the bottom: estimate q_hat, take the window k..pos as a
   * BigInteger, subtract the corrected multiple of the divisor from it and
   * write the difference back; the result is `(uint)q_hat`. If the
   * remainder is Reduced and the divisor has at most 68 words, the digit is
   * the exact quotient digit of the window, the remainder loses that digit
   * times V weighed at k and stays Reduced one word lower.
   */
  method DivideStep(rem: array<Word>, pos: int, b2: BigInteger) returns (r: Result<Word>)
    requires Canonical(b2) && 2 <= b2.dataLength <= pos < rem.Length
    requires b2.data[b2.dataLength - 1] >= SIGN
    modifies rem
    ensures b2.dataLength == W ==> r == Err(CapacityExceeded)
    ensures r.Err? ==> r.error == CapacityExceeded || r.error == Overflow
    ensures r.Ok? ==> rem[..pos - b2.dataLength] == old(rem[..pos - b2.dataLength]) && rem[pos + 1..] == old(rem[pos + 1..])
    ensures b2.dataLength <= W - 2 && Reduced(old(rem[..]), Val(b2.data), b2.dataLength, pos - b2.dataLength + 1) ==>
      r.Ok? && Reduced(rem[..], Val(b2.data), b2.dataLength, pos - b2.dataLength) &&
      Val(rem[..]) + Scale(Val(b2.data) * r.value, pos - b2.dataLength) == Val(old(rem[..]))
  {
    var n := b2.dataLength;
    ghost var rs, V, k := rem[..], Val(b2.data), pos - n;
    ghost var U := Val(rem[k..pos + 1]);
    ghost var exact := n <= W - 2 && Reduced(rs, V, n, k + 1);
    var qhat := Estimate(rem, pos, b2);
    var yy, digit := Difference(rem, pos, b2, qhat, U, V);
    if yy.Err? {
      return Err(yy.error);
    }
    ghost var ys := yy.value.data;
    ghost var ns := rs[..k] + ys[..n + 1] + rs[pos + 1..];
    if exact {
      WindowSplit(rs, k, pos);
      StepExact(rs, ys, k, n, V, digit);
    }
    WriteBack(rem, pos, n, yy.value);
    assert rem[..] == ns;
    r := Ok(digit);
  }

  /**
   * The estimate of one step, from the top three words at pos and the top
   * two divisor words. In the exact case it is at least the window's
   * quotient digit, and the window is below V * 2^32.
   */
  method Estimate(rem: array<Word>, pos: int, b2: BigInteger) returns (qhat: int)
    requires Canonical(b2) && 2 <= b2.dataLength <= pos < rem.Length
    requires b2.data[b2.dataLength - 1] >= SIGN
    ensures 0 <= qhat < 2 * BASE
    ensures b2.dataLength <= W - 2 && Reduced(rem[..], Val(b2.data), b2.dataLength, pos - b2.dataLength + 1) ==>
      Val(rem[pos - b2.dataLength..pos + 1]) < BASE * Val(b2.data) &&
      Val(rem[pos - b2.dataLength..pos + 1]) / Val(b2.data) <= qhat
  {
    var n := b2.dataLength;
    ghost var rs := rem[..];
    ghost var qstar := 0;
    CanonicalZero(b2);
    if n <= W - 2 && Reduced(rs, Val(b2.data), n, pos - n + 1) {
      ghost var U, V := Val(rs[pos - n..pos + 1]), Val(b2.data);
      EstimateFacts(rs, pos, n, b2.data);
      DivBelow(U, V, BASE);
      qstar := U / V;
    }
    qhat := EstimateDigit(rem[pos], rem[pos - 1], rem[pos - 2], b2.data[n - 1], b2.data[n - 2], qstar);
  }

  /**
   * `bi2 * (long)q_hat`: the estimate is below 2^33, so the long keeps it;
   * for a divisor of at most 68 words the product cannot overflow.
   */
  method Multiple(b2: BigInteger, qhat: int) returns (ss: Result<BigInteger>)
    requires Canonical(b2) && b2.dataLength < W && 0 <= qhat < 2 * BASE
    ensures ss.Err? ==> ss.error == Overflow
    ensures ss.Ok? ==> Canonical(ss.value) && Value(ss.value) == Val(b2.data) * qhat
    ensures b2.dataLength <= W - 2 ==> ss.Ok?
  {
    DivisorBelow(b2);
    ghost var P := Val(b2.data) * qhat;
    if b2.dataLength <= W - 2 {
      ProductFits(Val(b2.data), qhat, b2.dataLength);
      assert InRange(P);
    }
    var q := Construct.FromLong(qhat);
    assert Value(b2) * Value(q) == P;
    ss := Multiply.Multiply(b2, q);
  }

  /**
   * The window minus the corrected multiple of the divisor, and the
   * corrected digit `(uint)q_hat`. With an estimate at or above the
   * window's quotient digit U / V and a window below V * 2^32, the digit is
   * U / V and the difference is U - digit * V, at most n words.
   */
  method Difference(rem: array<Word>, pos: int, b2: BigInteger, qhat: int, ghost U: int, ghost V: int)
    returns (yy: Result<BigInteger>, digit: Word)
    requires Canonical(b2) && 2 <= b2.dataLength <= pos < rem.Length && 0 <= qhat < 2 * BASE
    requires U == Val(rem[pos - b2.dataLength..pos + 1]) && V == Val(b2.data)
    ensures b2.dataLength == W ==> yy == Err(CapacityExceeded)
    ensures yy.Err? ==> yy.error == CapacityExceeded || yy.error == Overflow
    ensures yy.Ok? ==> b2.dataLength < W && |yy.value.data| == W
    ensures (b2.dataLength <= W - 2 && U < BASE * V && U / V <= qhat) ==>
      yy.Ok? && ZerosFrom(yy.value.data, b2.dataLength) && digit == U / V &&
      Val(yy.value.data) == U - digit * V && Val(yy.value.data) < V
  {
    var n := b2.dataLength;
    ghost var exact := n <= W - 2 && U < BASE * V && U / V <= qhat;
    var kk := Window(rem, pos, n);
    if kk.Err? {
      return Err(kk.error), 0;
    }
    DivisorFacts(b2);
    var ss := Multiple(b2, qhat);
    if ss.Err? {
      return Err(ss.error), 0;
    }
    if exact {
      WindowValue(kk.value, U, V, n);
    }
    var ss2;
    ss2, digit := CorrectDigit(kk.value, b2, ss.value, qhat, U);
    if ss2.Err? {
      return Err(ss2.error), 0;
    }
    if exact {
      DiffFits(U, V, U / V);
    }
    yy := WindowMinus(kk.value, ss2.value, n);
  }

  /**
   * `kk - ss`: a difference between 0 and 2^(32n) has at most n words and
   * its value is its unsigned value.
   */
  method WindowMinus(kk: BigInteger, ss: BigInteger, ghost n: int) returns (yy: Result<BigInteger>)
    requires Canonical(kk) && Canonical(ss) && 1 <= n <= W
    ensures yy.Err? ==> yy.error == Overflow
    ensures yy.Ok? ==> |yy.value.data| == W
    ensures (0 <= Value(kk) - Value(ss) < Pow(n) && InRange(Value(kk) - Value(ss))) ==>
      yy.Ok? && ZerosFrom(yy.value.data, n) && Val(yy.value.data) == Value(kk) - Value(ss)
  {
    ghost var d := Value(kk) - Value(ss);
    yy := Additive.Subtract(kk, ss);
    if 0 <= d < Pow(n) && InRange(d) {
      ValueIsSigned(yy.value);
      ShortBuffer(yy.value, n);
    }
  }

  /** A normalised divisor of 2 to 69 words: positive, below 2^(32n), its value its unsigned value. */
  lemma {:induction false} DivisorFacts(b: BigInteger)
    requires Canonical(b) && 2 <= b.dataLength < W
    ensures 0 < Val(b.data) < Pow(b.dataLength) && Value(b) == Val(b.data) && Val(b.data) < Half()
  {
    CanonicalZero(b);
    DivisorBelow(b);
    ValueIsSigned(b);
  }

  /**
   * Correct, then `(uint)q_hat`. For a window worth U >= 0 and a product
   * ss = V * q_hat with q_hat at or above U / V, the digit is U / V and the
   * corrected product is U / V times V.
   */
  method CorrectDigit(kk: BigInteger, b2: BigInteger, ss: BigInteger, qhat: int, ghost U: int)
    returns (ss2: Result<BigInteger>, digit: Word)
    requires Canonical(kk) && Canonical(b2) && Canonical(ss)
    requires Value(b2) > 0 && 0 <= qhat < 2 * BASE
    ensures ss2.Err? ==> ss2.error == Overflow
    ensures ss2.Ok? ==> Canonical(ss2.value) && Value(ss2.value) <= Value(kk)
    ensures Value(kk) >= 0 ==> ss2.Ok?
    ensures (Value(kk) == U >= 0 && Value(ss) == Value(b2) * qhat && U / Value(b2) <= qhat && U < BASE * Value(b2)) ==>
      ss2.Ok? && digit == U / Value(b2) && Value(ss2.value) == digit * Value(b2)
  {
    var qhat2;
    ghost var count;
    ss2, qhat2, count := Correct(kk, b2, ss, qhat);
    digit := qhat2 % BASE;
    if Value(kk) == U >= 0 && Value(ss) == Value(b2) * qhat && U / Value(b2) <= qhat && U < BASE * Value(b2) {
      DivBelow(U, Value(b2), BASE);
      CorrectExact(U, Value(b2), qhat, count, Value(ss2.value));
      ExactDigit(qhat - count, qhat2);
    }
  }

  /**
   * `dividendPart[h] = remainder[pos - h]` for h <= n, then
   * `new BigInteger(dividendPart)`: the window k..pos as a BigInteger,
   * refused when it has more than 70 words.
   */
  method Window(rem: array<Word>, pos: int, n: int) returns (kk: Result<BigInteger>)
    requires 0 <= n <= pos < rem.Length
    ensures n + 1 > W <==> kk == Err(CapacityExceeded)
    ensures kk.Err? ==> kk == Err(CapacityExceeded)
    ensures kk.Ok? ==> Canonical(kk.value) && Val(kk.value.data) == Val(rem[pos - n..pos + 1])
  {
    var part := new Word[n + 1](_ => 0);
    var h := 0;
    while h < n + 1
      invariant 0 <= h <= n + 1
      invariant forall i :: 0 <= i < h ==> part[i] == rem[pos - i]
    {
      part[h] := rem[pos - h];
      h := h + 1;
    }
    Construct.WordsValueReversed(part[..], rem[pos - n..pos + 1]);
    kk := Construct.FromWordsAsWritten(part[..]);
  }

  /**
   * `remainder[pos - h] = yy.data[n - h]` for h <= n: the window k..pos
   * becomes the low n + 1 words of the difference.
   */
  method WriteBack(rem: array<Word>, pos: int, n: int, yy: BigInteger)
    requires 0 <= n <= pos < rem.Length && n < |yy.data|
    modifies rem
    ensures rem[..] == old(rem[..pos - n]) + yy.data[..n + 1] + old(rem[pos + 1..])
  {
    var h := 0;
    while h < n + 1
      invariant 0 <= h <= n + 1
      invariant forall i :: 0 <= i < rem.Length ==>
        rem[i] == if pos - h < i <= pos then yy.data[i - (pos - n)] else old(rem[i])
    {
      rem[pos - h] := yy.data[n - h];
      h := h + 1;
    }
  }

  /**
   * `while (ss > kk) { q_hat--; ss -= bi2; }`: lowers the estimate while
   * its multiple of the divisor exceeds the window. Stops at the first
   * multiple within the window; q_hat is a ulong, and each `-=` can
   * overflow, which a non-negative window rules out.
   */
  method Correct(kk: BigInteger, b2: BigInteger, ss0: BigInteger, qhat0: int)
    returns (ss: Result<BigInteger>, qhat: int, ghost count: nat)
    requires Canonical(kk) && Canonical(b2) && Canonical(ss0)
    requires Value(b2) > 0 && 0 <= qhat0 < ULONG
    ensures 0 <= qhat < ULONG && qhat == (qhat0 - count) % ULONG
    ensures ss.Err? ==> ss.error == Overflow
    ensures Value(kk) >= 0 ==> ss.Ok?
    ensures ss.Ok? ==> Canonical(ss.value) && Value(ss.value) == Value(ss0) - count * Value(b2)
    ensures ss.Ok? ==> Value(ss.value) <= Value(kk) && (count > 0 ==> Value(kk) < Value(ss.value) + Value(b2))
  {
    var cur := ss0;
    qhat := qhat0;
    count := 0;
    DivModUnique(qhat0, ULONG, 0, qhat0);
    ghost var S0, V, K := Value(ss0), Value(b2), Value(kk);
    var gt := Greater(cur, kk);
    while gt
      invariant Canonical(cur) && Value(cur) == S0 - count * V
      invariant 0 <= qhat < ULONG && qhat == (qhat0 - count) % ULONG
      invariant gt <==> Value(cur) > K
      invariant count > 0 ==> K < Value(cur) + V
      decreases Value(cur) - K
    {
      DecWrap(qhat, qhat0 - count);
      qhat := Dec(qhat);
      var next := Lower(cur, b2, K);
      if next.Err? {
        return next, qhat, count + 1;
      }
      MulStep(count, V);
      count := count + 1;
      cur := next.value;
      gt := Greater(cur, kk);
    }
    ss := Ok(cur);
  }

  /** `ss -= bi2` on a multiple above a window k: it overflows only when k is negative. */
  method Lower(cur: BigInteger, b2: BigInteger, ghost k: int) returns (next: Result<BigInteger>)
    requires Canonical(cur) && Canonical(b2) && Value(b2) > 0 && Value(cur) > k
    ensures next.Err? ==> next.error == Overflow && k < 0
    ensures next.Ok? ==> Canonical(next.value) && Value(next.value) == Value(cur) - Value(b2)
  {
    if k >= 0 {
      InRangeOf(cur);
      InRangeOf(b2);
      SubtractFits(Value(cur), k, Value(b2));
    }
    next := Additive.Subtract(cur, b2);
  }

  // ---------------------------------------------------------------------
  // The exact case of a step
  // ---------------------------------------------------------------------

  /** A buffer below 2^(32e), e < 70, has its sign bit clear: its value is its unsigned value. */
  lemma {:induction false} SmallValue(x: BigInteger, e: nat)
    requires |x.data| == W && e <= W - 1 && Val(x.data) < Pow(e)
    ensures Value(x) == Val(x.data) && !IsNegative(x)
  {
    PowMonotone(e, W - 1);
    ScaleMonotone(1, SIGN, W - 1);
    SignBit(x.data);
  }

  /** A canonical buffer below 2^(32e) uses at most e words. */
  lemma {:induction false} ShortBuffer(x: BigInteger, e: nat)
    requires Canonical(x) && 1 <= e <= W && Val(x.data) < Pow(e)
    ensures x.dataLength <= e && ZerosFrom(x.data, e)
  {
    if x.dataLength > e {
      WellFormedValue(x);
      ValTopNonZero(x.data[..x.dataLength]);
      PowMonotone(e, x.dataLength - 1);
    }
  }

  /** A divisor of fewer than 70 words is positive and below 2^(32n). */
  lemma {:induction false} DivisorBelow(b: BigInteger)
    requires Canonical(b) && b.dataLength < W
    ensures Val(b.data) < Pow(b.dataLength) && Value(b) == Val(b.data)
  {
    WellFormedValue(b);
    ValBound(b.data[..b.dataLength]);
    SmallValue(b, b.dataLength);
  }

  /** q_hat times the divisor fits in the signed range. */
  lemma {:induction false} ProductFits(V: nat, q: nat, n: nat)
    requires V < Pow(n) && q < 2 * BASE && n <= W - 2
    ensures V * q < Half()
  {
    MulLe(V, Pow(n), q);
    MulLe(q, 2 * BASE, Pow(n));
    assert Pow(n + 1) == BASE * Pow(n);
    PowMonotone(n + 1, W - 1);
    MulLe(2, SIGN, Pow(W - 1));
    ScaleIsMul(SIGN, W - 1);
  }

  /** The window is below V * 2^32 < 2^(32(n+1)): its value is its unsigned value. */
  lemma {:induction false} WindowValue(kk: BigInteger, U: nat, V: nat, n: nat)
    requires |kk.data| == W && Val(kk.data) == U && U < BASE * V && V < Pow(n) && n <= W - 2
    ensures Value(kk) == U
  {
    MulLe(V, Pow(n), BASE);
    assert Pow(n + 1) == BASE * Pow(n);
    SmallValue(kk, n + 1);
  }

  /**
   * The correction ends at the true digit: q_hat started at or above
   * U / V, and the loop stopped at the first multiple (q_hat - count) * V
   * within U.
   */
  lemma {:induction false} CorrectExact(U: nat, V: nat, qhat: int, count: nat, s: int)
    requires V > 0 && U / V <= qhat && s == V * qhat - count * V && s <= U
    requires count > 0 ==> U < s + V
    ensures qhat - count == U / V && s == (U / V) * V
  {
    var d := qhat - count;
    assert s == d * V;
    if d > U / V {
      MulLe(U / V + 1, d, V);
    }
    if count > 0 && d < U / V {
      MulLe(d + 1, U / V, V);
    }
  }

  /** A digit below 2^32 survives the ulong and the `(uint)` casts. */
  lemma {:induction false} ExactDigit(d: int, qhat: int)
    requires 0 <= d < BASE && qhat == d % ULONG
    ensures qhat == d && qhat % BASE == d
  {
    DivModUnique(d, ULONG, 0, d);
    DivModUnique(d, BASE, 0, d);
  }

  /** The window minus its quotient digit times V lies in [0, V). */
  lemma {:induction false} DiffFits(U: nat, V: nat, q: int)
    requires 0 < V < Half() && q == U / V
    ensures 0 <= U - q * V < V && InRange(U - q * V)
  {
  }

  /**
   * The buffer after the write-back: the window k..k+n replaced by the
   * difference ys, worth U - q * V < V, leaves the remainder q * V weighed
   * at k lower and Reduced at k.
   */
  lemma {:induction false} StepExact(rs: seq<Word>, ys: seq<Word>, k: nat, n: nat, V: nat, q: nat)
    requires k + n < |rs| && ZerosFrom(rs, k + n + 1)
    requires n < |ys| && ZerosFrom(ys, n)
    requires Val(rs) == Val(rs[..k]) + Scale(Val(rs[k..k + n + 1]), k)
    requires Val(ys) == Val(rs[k..k + n + 1]) - q * V && Val(ys) < V
    ensures var ns := rs[..k] + ys[..n + 1] + rs[k + n + 1..];
      Reduced(ns, V, n, k) && Val(ns) + Scale(V * q, k) == Val(rs)
  {
    var ws := ys[..n + 1];
    ValTrailingZeros(ys, n + 1);
    Replace(rs, ws, k, n);
    ScaleAdd(Val(ws), V * q, k);
    ValBound(rs[..k]);
    ScaleMonotone(Val(ws) + 1, V, k);
    ScaleAdd(Val(ws), 1, k);
  }

  /** Replacing the window k..k+n of a buffer that has nothing above it. */
  lemma {:induction false} Replace(rs: seq<Word>, ws: seq<Word>, k: nat, n: nat)
    requires k + n < |rs| && ZerosFrom(rs, k + n + 1) && |ws| == n + 1
    ensures var ns := rs[..k] + ws + rs[k + n + 1..];
      Val(ns) == Val(rs[..k]) + Scale(Val(ws), k) && (ws[n] == 0 ==> ZerosFrom(ns, k + n))
  {
    var ns := rs[..k] + ws + rs[k + n + 1..];
    var top := rs[k + n + 1..];
    ValSplit(ns, k);
    assert ns[..k] == rs[..k];
    assert ns[k..] == ws + top;
    ValConcat(ws, top);
    ValZeros(top);
    ScaleZero(n + 1);
  }

  // ---------------------------------------------------------------------
  // Normalisation of the operands
  // ---------------------------------------------------------------------

  /**
   * The set-up of `multiByteDivide`: the shift that sets the divisor's top
   * bit, the dividend copied into a buffer one word longer and shifted by
   * it, and the divisor shifted by it with `<<`. Neither shift loses bits:
   * the shifted divisor has the same number of words and lies between
   * 2^31 and 2^32 weighed at its top word.
   */
  method Normalize(a: BigInteger, b: BigInteger) returns (rem: array<Word>, shift: int, b2: BigInteger)
    requires Canonical(a) && Canonical(b) && 2 <= b.dataLength
    ensures fresh(rem) && rem.Length == a.dataLength + 1
    ensures 0 <= shift < 32 && Val(rem[..]) == Val(a.data) * Pow2(shift)
    ensures Canonical(b2) && b2.dataLength == b.dataLength && b2.data[b2.dataLength - 1] >= SIGN
    ensures Val(b2.data) == Val(b.data) * Pow2(shift)
    ensures Scale(SIGN, b.dataLength - 1) <= Val(b2.data) < Pow(b.dataLength)
  {
    var n := b.dataLength;
    shift := LeadingZeros(b.data[n - 1]);
    rem := ShiftedDividend(a, shift);
    TopWord(b);
    NormalFacts(Val(b.data), b.data[n - 1], shift, n);
    PowMonotone(n, W);
    b2 := Shift.ShiftLeft(b, shift);
    DivisorShape(b2, n);
  }

  /** `remainder[i] = bi1.data[i]` for i < dataLength, then `shiftLeft(remainder, shift)`. */
  method ShiftedDividend(a: BigInteger, shift: int) returns (rem: array<Word>)
    requires Canonical(a) && 0 <= shift < 32
    ensures fresh(rem) && rem.Length == a.dataLength + 1
    ensures Val(rem[..]) == Val(a.data) * Pow2(shift)
  {
    rem := CopyIn(a);
    DividendBelow(a, rem[..], shift);
    ghost var x := Val(a.data) * Pow2(shift);
    var len := Shift.ShiftLeftBuffer(rem, shift);
    Shift.ExactMod(x, x, Pow(rem.Length));
  }

  /** `remainder[i] = bi1.data[i]` for the dividend's words, into a buffer one word longer. */
  method CopyIn(a: BigInteger) returns (rem: array<Word>)
    requires WellFormed(a)
    ensures fresh(rem) && rem.Length == a.dataLength + 1
    ensures ZerosFrom(rem[..], a.dataLength) && rem[..a.dataLength] == a.data[..a.dataLength]
  {
    var m := a.dataLength;
    rem := new Word[m + 1](_ => 0);
    for i := 0 to m
      invariant ZerosFrom(rem[..], i)
      invariant forall k :: 0 <= k < i ==> rem[k] == a.data[k]
    {
      rem[i] := a.data[i];
    }
    assert rem[..m] == a.data[..m];
  }

  /** The copied dividend keeps its value, and shifting it by under 32 bits stays below 2^(32(m+1)). */
  lemma {:induction false} DividendBelow(a: BigInteger, rs: seq<Word>, s: nat)
    requires Canonical(a) && |rs| == a.dataLength + 1 && rs[..a.dataLength] == a.data[..a.dataLength]
    requires ZerosFrom(rs, a.dataLength) && s < 32
    ensures Val(rs) == Val(a.data) && Val(a.data) < Pow(a.dataLength)
    ensures Val(a.data) * Pow2(s) < Pow(a.dataLength + 1)
  {
    var m := a.dataLength;
    WellFormedValue(a);
    ValTrailingZeros(rs, m);
    ValBound(a.data[..m]);
    Pow2Monotone(s, 32);
    Pow2Of32();
    ShiftedBelow(Val(a.data), Pow2(s), m);
  }

  /** v < 2^(32m) times p <= 2^32 is below 2^(32(m+1)). */
  lemma {:induction false} ShiftedBelow(v: nat, p: nat, m: nat)
    requires v < Pow(m) && 0 < p <= BASE
    ensures v * p < Pow(m + 1)
  {
    MulLe(v, Pow(m) - 1, p);
    MulLe(p, BASE, Pow(m) - 1);
    assert Pow(m + 1) == BASE * Pow(m);
  }

  /** The divisor lies between its top word and one more, weighed at n - 1. */
  lemma {:induction false} TopWord(b: BigInteger)
    requires Canonical(b) && 2 <= b.dataLength
    ensures var n := b.dataLength;
      Scale(b.data[n - 1], n - 1) <= Val(b.data) < Scale(b.data[n - 1] as int + 1, n - 1)
  {
    var n := b.dataLength;
    var ws := b.data[..n];
    WellFormedValue(b);
    ValAbove(ws, n - 1);
    assert ws[n - 1..] == [b.data[n - 1]];
    ValSingle(b.data[n - 1]);
  }

  /**
   * The shift puts the top word t between 2^31 and 2^32: the shifted
   * divisor lies between 2^31 weighed at n - 1 and 2^(32n).
   */
  lemma {:induction false} NormalFacts(vb: int, t: int, s: nat, n: nat)
    requires 1 <= n && s < 32 && Pow2(31 - s) <= t < Pow2(32 - s)
    requires Scale(t, n - 1) <= vb < Scale(t + 1, n - 1)
    ensures Scale(SIGN, n - 1) <= vb * Pow2(s) < Pow(n)
  {
    var p := Pow2(s);
    TopShifted(t, s);
    NormalLow(vb, t, p, n - 1);
    NormalHigh(vb, t, p, n - 1);
    ScaleStep(1, n - 1);
  }

  /** The top word shifted by s lies in [2^31, 2^32). */
  lemma {:induction false} TopShifted(t: int, s: nat)
    requires s < 32 && Pow2(31 - s) <= t < Pow2(32 - s)
    ensures SIGN <= t * Pow2(s) && (t + 1) * Pow2(s) <= BASE
  {
    Pow2Add(31 - s, s);
    Pow2Add(32 - s, s);
    Pow2Of32();
    assert Pow2(32) == 2 * Pow2(31);
    MulLe(Pow2(31 - s), t, Pow2(s));
    MulLe(t + 1, Pow2(32 - s), Pow2(s));
  }

  lemma {:induction false} NormalLow(vb: int, t: int, p: nat, e: nat)
    requires SIGN <= t * p && Scale(t, e) <= vb
    ensures Scale(SIGN, e) <= vb * p
  {
    ScaleMul(t, p, e);
    MulLe(Scale(t, e), vb, p);
    ScaleMonotone(SIGN, t * p, e);
  }

  lemma {:induction false} NormalHigh(vb: int, t: int, p: nat, e: nat)
    requires (t + 1) * p <= BASE && vb < Scale(t + 1, e) && p > 0
    ensures vb * p < Scale(BASE, e)
  {
    var T := (t + 1) * p;
    ScaleMul(t + 1, p, e);
    MulLe(vb + 1, Scale(t + 1, e), p);
    MulStep(vb, p);
    ScaleMonotone(T, BASE, e);
  }

  /** The shifted divisor has n words and its top bit set. */
  lemma {:induction false} DivisorShape(b2: BigInteger, n: nat)
    requires Canonical(b2) && 2 <= n <= W && Scale(SIGN, n - 1) <= Val(b2.data) < Pow(n)
    ensures b2.dataLength == n && b2.data[n - 1] >= SIGN
  {
    ScaleMonotone(1, SIGN, n - 1);
    ShortBuffer(b2, n);
    if b2.dataLength < n {
      WellFormedValue(b2);
      ValBound(b2.data[..b2.dataLength]);
      PowMonotone(b2.dataLength, n - 1);
    }
    TopWord(b2);
    if b2.data[n - 1] < SIGN {
      ScaleMonotone(b2.data[n - 1] as int + 1, SIGN, n - 1);
    }
  }

  // ---------------------------------------------------------------------
  // The outer loop and the whole routine
  // ---------------------------------------------------------------------

  /**
   * `while (j > 0) { ...; result[resultPos++] = (uint)q_hat; pos--; j--; }`
   * from j = remainderLen - n and pos = remainderLen - 1. In the exact
   * case every step keeps the remainder Reduced and the remainder plus V
   * times the digits so far, weighed at j, equal to the starting
   * remainder; at j = 0 the remainder is below V.
   */
  method QuotientDigits(rem: array<Word>, b2: BigInteger) returns (r: Result<int>, result: array<Word>)
    requires Canonical(b2) && 2 <= b2.dataLength < rem.Length <= W + 1
    requires b2.data[b2.dataLength - 1] >= SIGN
    modifies rem
    ensures fresh(result) && result.Length == W
    ensures b2.dataLength == W ==> r == Err(CapacityExceeded)
    ensures r.Err? ==> r.error == CapacityExceeded || r.error == Overflow
    ensures r.Ok? ==> r.value == rem.Length - b2.dataLength
    ensures b2.dataLength <= W - 2 && Reduced(old(rem[..]), Val(b2.data), b2.dataLength, rem.Length - b2.dataLength) ==>
      r.Ok? && Reduced(rem[..], Val(b2.data), b2.dataLength, 0) &&
      Val(rem[..]) + Val(b2.data) * Construct.WordsValue(result[..r.value]) == Val(old(rem[..]))
  {
    var n := b2.dataLength;
    ghost var V, A := Val(b2.data), Val(rem[..]);
    ghost var exact := n <= W - 2 && Reduced(rem[..], V, n, rem.Length - n);
    result := new Word[W](_ => 0);
    var j := rem.Length - n;
    var pos := rem.Length - 1;
    var resultPos := 0;
    assert result[..resultPos] == [];
    ScaleZero(j);
    while j > 0
      invariant 0 <= j <= rem.Length - n && pos == j + n - 1 && resultPos == rem.Length - n - j
      invariant n == W ==> j == rem.Length - n
      invariant exact ==> Reduced(rem[..], V, n, j)
      invariant exact ==> Val(rem[..]) + Scale(V * Construct.WordsValue(result[..resultPos]), j) == A
    {
      var d := QuotientStep(rem, pos, b2, result, resultPos, A);
      if d.Err? {
        return Err(d.error), result;
      }
      resultPos := resultPos + 1;
      pos := pos - 1;
      j := j - 1;
    }
    r := Ok(resultPos);
  }

  /**
   * One pass of the outer loop: the step at pos, its digit stored at
   * resultPos. In the exact case the remainder stays Reduced and the
   * remainder plus V times the digits, weighed at the step's position,
   * keeps its value A.
   */
  method QuotientStep(rem: array<Word>, pos: int, b2: BigInteger, result: array<Word>, resultPos: nat, ghost A: int)
    returns (r: Result<Word>)
    requires Canonical(b2) && 2 <= b2.dataLength <= pos < rem.Length
    requires b2.data[b2.dataLength - 1] >= SIGN
    requires rem != result && resultPos < result.Length
    modifies rem, result
    ensures b2.dataLength == W ==> r == Err(CapacityExceeded)
    ensures r.Err? ==> r.error == CapacityExceeded || r.error == Overflow
    ensures var n, V, j := b2.dataLength, Val(b2.data), pos - b2.dataLength + 1;
      n <= W - 2 && Reduced(old(rem[..]), V, n, j)
      && Val(old(rem[..])) + Scale(V * Construct.WordsValue(old(result[..resultPos])), j) == A ==>
      r.Ok? && Reduced(rem[..], V, n, j - 1)
      && Val(rem[..]) + Scale(V * Construct.WordsValue(result[..resultPos + 1]), j - 1) == A
  {
    ghost var r0 := Val(rem[..]);
    ghost var q0 := result[..resultPos];
    r := DivideStep(rem, pos, b2);
    if r.Err? {
      return;
    }
    result[resultPos] := r.value;
    assert result[..resultPos + 1] == q0 + [r.value];
    if b2.dataLength <= W - 2 && Reduced(old(rem[..]), Val(b2.data), b2.dataLength, pos - b2.dataLength + 1)
      && r0 + Scale(Val(b2.data) * Construct.WordsValue(q0), pos - b2.dataLength + 1) == A {
      DigitArith(r0, Val(rem[..]), Val(b2.data), r.value, q0, pos - b2.dataLength + 1, A);
    }
  }

  /** Appending the digit d to the quotient digits moves the weight of V times them down one word. */
  lemma {:induction false} DigitArith(r0: int, r1: int, V: int, d: Word, q0: seq<Word>, j: nat, A: int)
    requires j >= 1 && r1 + Scale(V * d, j - 1) == r0
    requires r0 + Scale(V * Construct.WordsValue(q0), j) == A
    ensures r1 + Scale(V * Construct.WordsValue(q0 + [d]), j - 1) == A
  {
    var q := q0 + [d];
    var w0 := Construct.WordsValue(q0);
    assert q[..|q| - 1] == q0;
    assert Construct.WordsValue(q) == d + BASE * w0;
    assert V * (d + BASE * w0) == V * d + BASE * (V * w0);
    ScaleAdd(V * d, BASE * (V * w0), j - 1);
    ScaleStep(V * w0, j - 1);
  }

  /**
   * `multiByteDivide(bi1, bi2, outQuotient, outRemainder)` for a dividend
   * at least as long as a divisor of two or more words. The quotient is
   * the digits read back most significant first, trimmed, with dataLength
   * 1 for none; the remainder is the buffer shifted back, copied into a
   * 70-word object (a 71st non-zero word overruns it). A 70-word divisor
   * always fails on the window; up to 68 words the routine returns the
   * quotient and remainder of the unsigned values.
   */
  method MultiByteDivide(a: BigInteger, b: BigInteger) returns (r: Result<QR>)
    requires Canonical(a) && Canonical(b) && 2 <= b.dataLength <= a.dataLength
    ensures b.dataLength == W ==> r == Err(CapacityExceeded)
    ensures r.Err? ==> r.error in {CapacityExceeded, Overflow, IndexOutOfRange}
    ensures r.Ok? ==> Canonical(r.value.quotient) && Canonical(r.value.remainder)
    ensures b.dataLength <= W - 2 ==> (r.Ok? &&
      Val(a.data) == Val(r.value.quotient.data) * Val(b.data) + Val(r.value.remainder.data) &&
      Val(r.value.remainder.data) < Val(b.data))
  {
    var n := b.dataLength;
    var rem, shift, b2 := Normalize(a, b);
    ghost var exact := n <= W - 2;
    if exact {
      WellFormedValue(a);
      ValBound(a.data[..a.dataLength]);
      InitialBound(Val(a.data), shift, a.dataLength, n, Val(b2.data));
    }
    var qr, result := QuotientDigits(rem, b2);
    if qr.Err? {
      return Err(qr.error);
    }
    ghost var R := Val(rem[..]);
    r := Finish(rem, shift, result[..qr.value]);
    if exact {
      DivisorBelow(b);
      FinalArith(Val(a.data), Val(b.data), Construct.WordsValue(result[..qr.value]), R, Pow2(shift));
      PowMonotone(n, W);
    }
  }

  /**
   * The end of `multiByteDivide`: the digits, most significant first,
   * reversed into the quotient and trimmed (dataLength 1 for none); the
   * remainder buffer shifted back and copied into a 70-word object, which
   * a non-zero 71st word overruns.
   */
  method Finish(rem: array<Word>, shift: int, digits: seq<Word>) returns (r: Result<QR>)
    requires 1 <= rem.Length <= W + 1 && |digits| <= W && 0 <= shift
    modifies rem
    ensures r.Err? ==> r.error == IndexOutOfRange
    ensures r.Ok? <==> Shr(Val(old(rem[..])), shift) < Modulus()
    ensures r.Ok? ==> Canonical(r.value.quotient) && Canonical(r.value.remainder)
    ensures r.Ok? ==> Val(r.value.quotient.data) == Construct.WordsValue(digits)
    ensures r.Ok? ==> Val(r.value.remainder.data) == Shr(Val(old(rem[..])), shift)
  {
    var qdata, qlen := Construct.ReverseWords(digits);
    if qlen == 0 {
      qlen := 1;
    }
    var mlen := Shift.ShiftRightBuffer(rem, shift);
    RemainderLength(rem[..], mlen);
    if mlen > W {
      return Err(IndexOutOfRange);
    }
    var mdata := CopyWords(rem, mlen);
    r := Ok(QR(BigInteger(qdata, qlen), BigInteger(mdata, mlen)));
  }

  /** A trimmed buffer of at most 71 words fits in 70 exactly when its value is below 2^2240. */
  lemma {:induction false} RemainderLength(rs: seq<Word>, len: int)
    requires 1 <= len <= |rs| <= W + 1 && ZerosFrom(rs, len) && (len == 1 || rs[len - 1] != 0)
    ensures len <= W <==> Val(rs) < Modulus()
  {
    ValTrailingZeros(rs, len);
    if len <= W {
      ValBound(rs[..len]);
      PowMonotone(len, W);
    } else {
      ValAtLeast(rs, W);
    }
  }

  /**
   * `outRemainder.data[y] = remainder[y]` below dataLength and 0 above:
   * the words of the remainder buffer in a 70-word object.
   */
  method CopyWords(rem: array<Word>, len: int) returns (data: seq<Word>)
    requires 1 <= len <= W && len <= rem.Length && ZerosFrom(rem[..], len)
    ensures |data| == W && ZerosFrom(data, len) && data[..len] == rem[..len]
    ensures Val(data) == Val(rem[..]) && (len == 1 || data[len - 1] == rem[len - 1])
  {
    var buf := new Word[W](_ => 0);
    for y := 0 to len
      invariant ZerosFrom(buf[..], y)
      invariant forall k :: 0 <= k < y ==> buf[k] == rem[k]
    {
      buf[y] := rem[y];
    }
    data := buf[..];
    assert data[..len] == rem[..len];
    ValTrailingZeros(data, len);
    ValTrailingZeros(rem[..], len);
  }

  /**
   * The starting remainder is below V weighed at m + 1 - n: the dividend
   * is below 2^(32m), the shift below 2^31 and V at least 2^31 weighed at
   * n - 1.
   */
  lemma {:induction false} InitialBound(va: nat, s: nat, m: nat, n: nat, V: int)
    requires va < Pow(m) && s < 32 && 2 <= n <= m && Scale(SIGN, n - 1) <= V
    ensures va * Pow2(s) < Scale(V, m + 1 - n)
  {
    var p, P := Pow2(s), Pow(m);
    Pow2Monotone(s, 31);
    Pow2Of32();
    assert Pow2(32) == 2 * Pow2(31);
    assert p <= SIGN;
    MulStep(va, p);
    MulLe(va + 1, P, p);
    MulLe(p, SIGN, P);
    MulComm(P, p);
    ScaleIsMul(SIGN, m);
    ScaleScale(SIGN, n - 1, m + 1 - n);
    ScaleMonotone(Scale(SIGN, n - 1), V, m + 1 - n);
  }

  /**
   * Undoing the shift: with R + (vb * p) * Q = va * p and R < vb * p, R is
   * a multiple of p and R / p is the remainder va - vb * Q < vb.
   */
  lemma {:induction false} FinalArith(va: int, vb: int, Q: int, R: int, p: int)
    requires p > 0 && R + (vb * p) * Q == va * p && 0 <= R < vb * p
    ensures R / p == va - vb * Q && va == Q * vb + R / p && R / p < vb
  {
    var x := va - vb * Q;
    assert R == x * p;
    DivModUnique(R, p, x, 0);
    if x >= vb {
      MulLe(vb, x, p);
    }
  }


}
