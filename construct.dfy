/**
 * The constructors of BigInteger.cs from machine integers and from a word
 * array: `BigInteger(long)`, `BigInteger(ulong)` and `BigInteger(uint[])`.
 * The implicit conversions from int and uint go through the long and ulong
 * constructors.
 */
module Construct {
  import opened Words
  import opened BigInt

  /** The range of a C# `long`. */
  const LONG_MIN: int := -0x8000_0000_0000_0000
  const LONG_MAX: int := 0x7FFF_FFFF_FFFF_FFFF

  /** The range of a C# `ulong`. */
  const ULONG_MAX: int := 0xFFFF_FFFF_FFFF_FFFF

  /**
   * `BigInteger(long value)`: the words of the value, low word first, by
   * repeated arithmetic shifts; a negative value keeps shifting out -1 and so
   * fills all 70 words. Neither overflow check can fire for a 64-bit value.
   */
  method FromLong(value: int) returns (r: BigInteger)
    requires LONG_MIN <= value <= LONG_MAX
    ensures Canonical(r) && Value(r) == value
  {
    var data := new Word[W](_ => 0);
    var v := value;
    var len := 0;
    while v != 0 && len < W
      invariant 0 <= len <= W && ZerosFrom(data[..], len)
      invariant Val(data[..len]) + Scale(v, len) == value
      invariant len == 0 ==> v == value
      invariant len == 1 ==> -(SIGN as int) <= v < SIGN
      invariant len >= 2 ==> -1 <= v <= 0
      invariant value >= 0 ==> v >= 0 && len <= 2
      invariant value < 0 ==> v < 0 && forall k :: 2 <= k < len ==> data[k] == ONES
      invariant v == 0 && len > 0 ==> data[len - 1] != 0
    {
      ghost var d := data[..];
      var w: Word := v % BASE;
      data[len] := w;
      assert data[..] == d[len := w];
      WordStep(data[..], v, len);
      v := v / BASE;
      len := len + 1;
    }
    // the "Positive overflow" and "Negative underflow" checks never fire
    assert value >= 0 ==> data[..][W - 1] == 0;
    assert value > 0 ==> v == 0 && data[W - 1] < SIGN;
    assert value < 0 ==> v == -1 && len == W && data[len - 1] >= SIGN;
    if len == 0 {
      len := 1;
    }
    r := BigInteger(data[..], len);
    LongValue(r, value, v, len);
  }

  /**
   * `BigInteger(ulong value)`: at most two words; the overflow check cannot
   * fire for a 64-bit value.
   */
  method FromULong(value: int) returns (r: BigInteger)
    requires 0 <= value <= ULONG_MAX
    ensures Canonical(r) && Value(r) == value
  {
    var data := new Word[W](_ => 0);
    var v := value;
    var len := 0;
    while v != 0 && len < W
      invariant 0 <= len <= W && ZerosFrom(data[..], len)
      invariant Val(data[..len]) + Scale(v, len) == value
      invariant len == 0 ==> v == value
      invariant len == 1 ==> 0 <= v < BASE
      invariant len >= 2 ==> v == 0
      invariant v >= 0 && len <= 2
      invariant v == 0 && len > 0 ==> data[len - 1] != 0
    {
      ghost var d := data[..];
      var w: Word := v % BASE;
      data[len] := w;
      assert data[..] == d[len := w];
      WordStep(data[..], v, len);
      v := v / BASE;
      len := len + 1;
    }
    // the "Positive overflow" check never fires
    assert data[..][W - 1] == 0;
    assert v == 0 && data[W - 1] < SIGN;
    if len == 0 {
      len := 1;
    }
    r := BigInteger(data[..], len);
    LongValue(r, value, v, len);
  }

  /** One word of the shift loop: `data[len] = value & 0xFFFFFFFF; value >>= 32`. */
  lemma {:induction false} WordStep(d: seq<Word>, v: int, len: nat)
    requires len < |d| && d[len] == v % BASE
    ensures Val(d[..len + 1]) + Scale(v / BASE, len + 1) == Val(d[..len]) + Scale(v, len)
  {
    ValPrefix(d, len);
    ScaleStep(v / BASE, len);
    ScaleAdd(v % BASE, BASE * (v / BASE), len);
  }

  /** The value of the finished buffer: the long itself, or it plus 2^2240 when negative. */
  lemma {:induction false} LongValue(r: BigInteger, value: int, v: int, len: int)
    requires |r.data| == W && 1 <= r.dataLength <= W && ZerosFrom(r.data, r.dataLength)
    requires 0 <= len <= W && ZerosFrom(r.data, len)
    requires Val(r.data[..len]) + Scale(v, len) == value
    requires value >= 0 ==> v == 0 && r.data[W - 1] < SIGN
    requires value < 0 ==> v == -1 && len == W && r.data[W - 1] >= SIGN
    requires r.dataLength == 1 || r.data[r.dataLength - 1] != 0
    ensures Canonical(r) && Value(r) == value
  {
    ValTrailingZeros(r.data, len);
    SignBit(r.data);
    if value < 0 {
      assert r.data[..len] == r.data;
      ScaleNeg(1, W);
    } else {
      ScaleZero(len);
    }
  }

  /**
   * `BigInteger(uint[] inData)` as written: the words are given most
   * significant first and copied in reverse; an empty array leaves
   * dataLength at 0.
   */
  method FromWordsAsWritten(inData: seq<Word>) returns (r: Result<BigInteger>)
    ensures |inData| > W <==> r == Err(CapacityExceeded)
    ensures r.Err? ==> r == Err(CapacityExceeded)
    ensures r.Ok? ==> |r.value.data| == W && Val(r.value.data) == WordsValue(inData)
    ensures r.Ok? && |inData| > 0 ==> Canonical(r.value)
    ensures inData == [] ==> r.Ok? && r.value.dataLength == 0 && !WellFormed(r.value)
  {
    if |inData| > W {
      return Err(CapacityExceeded);
    }
    var data, len := ReverseWords(inData);
    r := Ok(BigInteger(data, len));
  }

  /**
   * `BigInteger(uint[] inData)` with an empty array read as zero, the way
   * the other constructors treat a value without words.
   */
  method FromWords(inData: seq<Word>) returns (r: Result<BigInteger>)
    ensures |inData| > W <==> r == Err(CapacityExceeded)
    ensures r.Ok? ==> Canonical(r.value) && Value(r.value) == Signed(WordsValue(inData))
  {
    if |inData| > W {
      return Err(CapacityExceeded);
    }
    var data, len := ReverseWords(inData);
    if len == 0 {
      len := 1;
    }
    var a := BigInteger(data, len);
    SignedView(a);
    r := Ok(a);
  }

  /** The value of a word sequence given most significant word first. */
  ghost function WordsValue(ws: seq<Word>): nat
  {
    if |ws| == 0 then 0 else ws[|ws| - 1] + BASE * WordsValue(ws[..|ws| - 1])
  }

  /** Reading most significant first is reading the reversed sequence least significant first. */
  lemma {:induction false} WordsValueReversed(ws: seq<Word>, rs: seq<Word>)
    requires |rs| == |ws| && forall k :: 0 <= k < |ws| ==> rs[k] == ws[|ws| - 1 - k]
    ensures Val(rs) == WordsValue(ws)
  {
    if |ws| > 0 {
      var n := |ws| - 1;
      WordsValueReversed(ws[..n], rs[1..]);
    }
  }

  /**
   * The copy and trim loops of `BigInteger(uint[])`: reversed into a fresh
   * 70-word buffer, then dataLength lowered past high zero words.
   */
  method ReverseWords(inData: seq<Word>) returns (data: seq<Word>, len: int)
    requires |inData| <= W
    ensures |data| == W && 0 <= len <= |inData| && ZerosFrom(data, len)
    ensures Val(data) == WordsValue(inData)
    ensures len == 0 <==> inData == []
    ensures len > 1 ==> data[len - 1] != 0
  {
    var buf := new Word[W](_ => 0);
    var n := |inData|;
    var i, j := n - 1, 0;
    while i >= 0
      invariant -1 <= i < n && j == n - 1 - i
      invariant ZerosFrom(buf[..], j)
      invariant forall k :: 0 <= k < j ==> buf[k] == inData[n - 1 - k]
    {
      buf[j] := inData[i];
      i, j := i - 1, j + 1;
    }
    WordsValueReversed(inData, buf[..n]);
    ValTrailingZeros(buf[..], n);
    len := n;
    while len > 1 && buf[len - 1] == 0
      invariant 0 <= len <= n && ZerosFrom(buf[..], len)
      invariant len == 0 <==> n == 0
    {
      len := len - 1;
    }
    data := buf[..];
  }
}
