/**
 * `singleByteDivide` of BigInteger.cs: long division of a non-negative
 * dividend by a one-word divisor, one 64-by-32-bit step per word.
 */
module ShortDivision {
  import opened Words
  import opened BigInt
  import Construct

  /**
   * `singleByteDivide`: the divisor is the single word d. The remainder
   * buffer starts as the dividend; each step divides the two words at
   * pos + 1 and pos by d, appends the quotient word to `result` (most
   * significant first) and leaves the remainder word at pos. A zero
   * divisor makes the first `dividend / divisor` throw.
   */
  method SingleByteDivide(a: BigInteger, b: BigInteger) returns (r: Result<QR>)
    requires WellFormed(a) && WellFormed(b) && b.dataLength == 1
    ensures r.Err? <==> b.data[0] == 0
    ensures r.Err? ==> r.error == DivideByZero
    ensures r.Ok? ==> Canonical(r.value.quotient) && Canonical(r.value.remainder)
    ensures r.Ok? ==> Val(a.data) == Val(r.value.quotient.data) * b.data[0] + Val(r.value.remainder.data)
    ensures r.Ok? ==> Val(r.value.remainder.data) < b.data[0]
  {
    var rem := NewBuffer(a);
    var remLen := TrimLength(rem, a.dataLength);
    var ok, result, resultPos := ShortDivide(rem, remLen, b.data[0]);
    if !ok {
      return Err(DivideByZero);
    }
    var qdata, qlen := Construct.ReverseWords(result[..resultPos]);
    if qlen == 0 {
      qlen := 1;
    }
    var mlen := TrimLength(rem, remLen);
    ValTrailingZeros(rem[..], 1);
    ValSingle(rem[0]);
    assert rem[..1] == [rem[0]];
    ProductSwap(Val(a.data), rem[0], b.data[0], Construct.WordsValue(result[..resultPos]), Val(qdata), Val(rem[..]));
    r := Ok(QR(BigInteger(qdata, qlen), BigInteger(rem[..], mlen)));
  }

  /** Dividend = remainder + divisor * quotient, with the factors in the order of the contracts. */
  lemma {:induction false} ProductSwap(A: int, r0: int, d: int, Q: int, vq: int, vm: int)
    requires A == r0 + d * Q && vq == Q && vm == r0
    ensures A == vq * d + vm
  {
  }

  /**
   * The division proper of `singleByteDivide`, on the trimmed remainder
   * buffer: the top word alone when it is at least the divisor, then one
   * two-word step per lower word. Reports false where `dividend / divisor`
   * would divide by zero.
   */
  method ShortDivide(rem: array<Word>, remLen: int, divisor: Word) returns (ok: bool, result: array<Word>, resultPos: int)
    requires rem.Length == W && 1 <= remLen <= W && ZerosFrom(rem[..], remLen)
    modifies rem
    ensures fresh(result) && result.Length == W
    ensures ok <==> divisor != 0
    ensures ok ==> 0 <= resultPos <= remLen && ZerosFrom(rem[..], 1) && rem[0] < divisor
    ensures ok ==> Val(old(rem[..])) == rem[0] + divisor * Construct.WordsValue(result[..resultPos])
  {
    var pos := remLen - 1;
    var dividend := rem[pos];
    result := new Word[W](_ => 0);
    resultPos := 0;
    ghost var A := Val(rem[..]);
    if dividend >= divisor {
      if divisor == 0 {
        return false, result, resultPos;
      }
      ghost var d0: seq<Word> := rem[..];
      var quotient := dividend / divisor;
      result[resultPos] := quotient;
      resultPos := resultPos + 1;
      var m: Word := dividend % divisor;
      rem[pos] := m;
      assert rem[..] == d0[pos := m];
      assert result[..resultPos] == [quotient];
      FirstDigit(d0, pos, divisor, quotient, m);
    } else {
      assert result[..resultPos] == [];
      ScaleZero(pos);
    }
    ok := true;
    resultPos := ShortDivideRest(rem, remLen - 2, divisor, result, resultPos);
  }

  /**
   * The loop of `singleByteDivide`: from word pos down to word 0, each step
   * divides the two words at pos + 1 and pos by the divisor.
   */
  method ShortDivideRest(rem: array<Word>, pos0: int, divisor: Word, result: array<Word>, resultPos0: int)
    returns (resultPos: int)
    requires rem.Length == W && result.Length == W && rem != result
    requires -1 <= pos0 <= W - 2 && 0 <= resultPos0 && resultPos0 + pos0 + 1 <= W
    requires ZerosFrom(rem[..], pos0 + 2) && 0 <= rem[pos0 + 1] < divisor
    modifies rem, result
    ensures resultPos0 <= resultPos <= resultPos0 + pos0 + 1
    ensures ZerosFrom(rem[..], 1) && rem[0] < divisor
    ensures Val(old(rem[..])) + Scale(divisor * Construct.WordsValue(old(result[..resultPos0])), pos0 + 1)
      == rem[0] + divisor * Construct.WordsValue(result[..resultPos])
  {
    ghost var A := Val(rem[..]) + Scale(divisor * Construct.WordsValue(result[..resultPos0]), pos0 + 1);
    var pos := pos0;
    resultPos := resultPos0;
    while pos >= 0
      invariant -1 <= pos <= pos0 && resultPos == resultPos0 + (pos0 - pos)
      invariant ZerosFrom(rem[..], pos + 2) && 0 <= rem[pos + 1] < divisor
      invariant A == Val(rem[..]) + Scale(divisor * Construct.WordsValue(result[..resultPos]), pos + 1)
    {
      ghost var d0: seq<Word> := rem[..];
      ghost var q0 := result[..resultPos];
      var dividend := rem[pos + 1] * BASE + rem[pos];
      var quotient := dividend / divisor;
      DigitBound(rem[pos + 1], rem[pos], divisor);
      result[resultPos] := quotient;
      resultPos := resultPos + 1;
      assert result[..resultPos] == q0 + [quotient];
      var m: Word := dividend % divisor;
      rem[pos + 1] := 0;
      rem[pos] := m;
      assert rem[..] == d0[pos + 1 := 0][pos := m];
      SingleStep(d0, pos, divisor, q0, quotient, m);
      pos := pos - 1;
    }
    ValTrailingZeros(rem[..], 1);
    ValSingle(rem[0]);
    assert rem[..1] == [rem[0]];
    ScaleZero(0);
  }

  /** A two-word dividend whose top word is below d gives a one-word quotient. */
  lemma {:induction false} DigitBound(hi: Word, lo: Word, d: int)
    requires 0 <= hi < d
    ensures 0 <= (hi * BASE + lo) / d < BASE
  {
    MulLe(hi + 1, d, BASE);
    DivBelow(hi * BASE + lo, d, BASE);
  }

  /** The step before the loop: the top word divided on its own. */
  lemma {:induction false} FirstDigit(d0: seq<Word>, pos: nat, d: int, q: Word, m: Word)
    requires pos < |d0| && ZerosFrom(d0, pos + 1) && d > 0 && q == d0[pos] / d && m == d0[pos] % d
    ensures ZerosFrom(d0[pos := m], pos + 1) && m < d
    ensures Val(d0) == Val(d0[pos := m]) + Scale(d * Construct.WordsValue([q]), pos)
  {
    ValUpdate(d0, pos, m);
    assert [q][..0] == [];
    assert Construct.WordsValue([q]) == q;
    assert d0[pos] == m + d * q;
    ScaleAdd(m, d * q, pos);
  }

  /** One step of the loop keeps the dividend equal to remainder plus divisor times quotient. */
  lemma {:induction false} SingleStep(d0: seq<Word>, pos: nat, d: int, q0: seq<Word>, q: Word, m: Word)
    requires pos + 1 < |d0| && ZerosFrom(d0, pos + 2) && 0 <= d0[pos + 1] < d
    requires q == (d0[pos + 1] * BASE + d0[pos]) / d && m == (d0[pos + 1] * BASE + d0[pos]) % d
    ensures ZerosFrom(d0[pos + 1 := 0][pos := m], pos + 1) && m < d
    ensures Val(d0) + Scale(d * Construct.WordsValue(q0), pos + 1)
      == Val(d0[pos + 1 := 0][pos := m]) + Scale(d * Construct.WordsValue(q0 + [q]), pos)
  {
    var D := d0[pos + 1] * BASE + d0[pos];
    TwoWordStep(d0, pos, m);
    assert (q0 + [q])[..|q0|] == q0;
    var Q := Construct.WordsValue(q0);
    assert Construct.WordsValue(q0 + [q]) == q + BASE * Q;
    StepArith(D, d, q, m, Q, pos);
  }

  /** Replacing the two words at pos + 1, pos by the one word m at pos. */
  lemma {:induction false} TwoWordStep(d0: seq<Word>, pos: nat, m: Word)
    requires pos + 1 < |d0|
    ensures Val(d0[pos + 1 := 0][pos := m]) + Scale(d0[pos + 1] * BASE + d0[pos], pos) == Val(d0) + Scale(m, pos)
  {
    var e := d0[pos + 1 := 0];
    ValUpdate(d0, pos + 1, 0);
    ValUpdate(e, pos, m);
    ScaleZero(pos + 1);
    Column(d0[pos + 1] * BASE + d0[pos], d0[pos], d0[pos + 1], pos);
  }

  /** The weights of one division step: D = d q + m at position pos. */
  lemma {:induction false} StepArith(D: int, d: int, q: int, m: int, Q: int, pos: nat)
    requires D == d * q + m
    ensures Scale(D, pos) + Scale(d * Q, pos + 1) == Scale(m, pos) + Scale(d * (q + BASE * Q), pos)
  {
    ScaleStep(d * Q, pos);
    MulAssoc(d, BASE, Q);
    assert d * (q + BASE * Q) == d * q + BASE * (d * Q);
    ScaleAdd(m, d * q, pos);
    ScaleAdd(d * q, BASE * (d * Q), pos);
  }
}
