/**
 * The shift operators `<<` and `>>` of BigInteger.cs and the buffer
 * routines `shiftLeft` and `shiftRight` behind them, which work on a word
 * buffer of any length (the long division shifts a buffer one word longer
 * than its dividend). Both trim the buffer and move its words in chunks of
 * at most 32 bits, with a 64-bit carry between neighbouring words.
 * `shiftLeft` keeps a carry that leaves the top word only while the buffer
 * has room and otherwise drops it, so it computes the product with 2^n
 * modulo BASE^length. `>>` shifts the pattern logically and then, for a
 * negative operand, sets every bit above the result's highest set bit,
 * which gives the floor of the quotient.
 */
module Shift {
  import opened Words
  import opened Bits
  import opened BigInt
  import Additive

  // ---------------------------------------------------------------------
  // operator <<
  // ---------------------------------------------------------------------

  /**
   * `operator <<`. A shift by a negative count (undefined in the source's
   * documentation) moves nothing and only trims the copy.
   */
  method ShiftLeft(a: BigInteger, shiftVal: int) returns (r: BigInteger)
    requires WellFormed(a)
    ensures WellFormed(r) && (r.dataLength < W ==> Trimmed(r))
    ensures shiftVal >= 0 ==> Val(r.data) == (Val(a.data) * Pow2(shiftVal)) % Modulus()
    ensures shiftVal <= 0 ==> r.data == a.data && Canonical(r)
    ensures shiftVal >= 0 && Val(a.data) * Pow2(shiftVal) < Modulus() ==>
      Trimmed(r) && Val(r.data) == Val(a.data) * Pow2(shiftVal)
  {
    var buf := NewBuffer(a);
    var n := ShiftLeftBuffer(buf, shiftVal);
    r := BigInteger(buf[..], n);
    if shiftVal >= 0 && Val(a.data) * Pow2(shiftVal) < Modulus() {
      ExactMod(Val(a.data) * Pow2(shiftVal), Val(a.data) * Pow2(shiftVal), Modulus());
    }
  }

  /** When the product with 2^n is in range, `<<` yields it exactly. */
  lemma {:induction false} ShiftLeftValue(a: BigInteger, r: BigInteger, n: nat)
    requires |a.data| == W && |r.data| == W
    requires Val(r.data) == (Val(a.data) * Pow2(n)) % Modulus()
    requires InRange(Value(a) * Pow2(n))
    ensures Value(r) == Value(a) * Pow2(n)
  {
    SignedView(a);
    SignedView(r);
    HalfOfModulus();
    WrapProduct(Val(a.data), Pow2(n), Val(r.data), Half(), Modulus());
  }

  /** ShiftLeftValue on the values, for a symbolic width m = 2h. */
  lemma {:induction false} WrapProduct(v: int, p: int, r: int, h: int, m: int)
    requires h > 0 && m == 2 * h && 0 <= v < m && p > 0
    requires r == (v * p) % m && -h <= SignedWith(v, h, m) * p < h
    ensures SignedWith(r, h, m) == SignedWith(v, h, m) * p
  {
    var y := SignedWith(v, h, m) * p;
    var k := if v >= h then p else 0;
    assert v * p == y + k * m;
    if y >= 0 {
      DivModUnique(v * p, m, k, y);
    } else {
      DivModUnique(v * p, m, k - 1, y + m);
    }
  }

  /**
   * `shiftLeft(buffer, shiftVal)`: trims, then shifts in chunks of at most
   * 32 bits. The returned length is trimmed unless a carry was dropped at
   * the top of the buffer.
   */
  method ShiftLeftBuffer(buffer: array<Word>, shiftVal: int) returns (bufLen: int)
    requires buffer.Length >= 1
    modifies buffer
    ensures 1 <= bufLen <= buffer.Length && ZerosFrom(buffer[..], bufLen)
    ensures bufLen == buffer.Length || bufLen == 1 || buffer[bufLen - 1] != 0
    ensures shiftVal >= 0 ==> Val(buffer[..]) == (Val(old(buffer[..])) * Pow2(shiftVal)) % Pow(buffer.Length)
    ensures shiftVal <= 0 ==> buffer[..] == old(buffer[..]) && (bufLen == 1 || buffer[bufLen - 1] != 0)
    ensures shiftVal >= 0 && Val(old(buffer[..])) * Pow2(shiftVal) < Pow(buffer.Length) ==>
      bufLen == 1 || buffer[bufLen - 1] != 0
  {
    var shiftAmount := 32;
    bufLen := TrimLength(buffer, buffer.Length);
    ghost var v0 := Val(buffer[..]);
    ghost var m := Pow(buffer.Length);
    ValBound(buffer[..]);
    ModSmall(v0, m);
    var count := shiftVal;
    while count > 0
      invariant 1 <= shiftAmount <= 32
      invariant 1 <= bufLen <= buffer.Length && ZerosFrom(buffer[..], bufLen)
      invariant bufLen == buffer.Length || bufLen == 1 || buffer[bufLen - 1] != 0
      invariant shiftVal <= 0 ==> bufLen == 1 || buffer[bufLen - 1] != 0
      invariant shiftVal > 0 ==> 0 <= count <= shiftVal
      invariant shiftVal > 0 ==> Val(buffer[..]) == (v0 * Pow2(shiftVal - count)) % m
      invariant shiftVal <= 0 ==> count == shiftVal && buffer[..] == old(buffer[..])
      invariant shiftVal > 0 && v0 * Pow2(shiftVal) < m ==> bufLen == 1 || buffer[bufLen - 1] != 0
    {
      if count < shiftAmount {
        shiftAmount := count;
      }
      ghost var done := shiftVal - count;
      ghost var before := Val(buffer[..]);
      if shiftVal > 0 && v0 * Pow2(shiftVal) < m {
        NoWrapChunk(v0, done, shiftAmount, shiftVal, m, before);
      }
      bufLen := ShiftLeftChunk(buffer, bufLen, shiftAmount);
      ModMulPow2(v0, done, shiftAmount, m, before);
      count := count - shiftAmount;
    }
  }

  /** Without wrap-around overall, no chunk wraps around. */
  lemma {:induction false} NoWrapChunk(v0: nat, done: nat, s: nat, total: nat, m: nat, before: int)
    requires done + s <= total && v0 * Pow2(total) < m && before == (v0 * Pow2(done)) % m
    ensures before * Pow2(s) < m
  {
    var p, q, P := Pow2(done), Pow2(s), Pow2(total);
    Pow2Monotone(done, total);
    Pow2Add(done, s);
    Pow2Monotone(done + s, total);
    NoWrapArith(v0, p, q, P, m, before);
  }

  lemma {:induction false} NoWrapArith(v0: nat, p: nat, q: nat, P: nat, m: nat, before: int)
    requires p <= P && p * q <= P && v0 * P < m && before == (v0 * p) % m
    ensures before * q < m
  {
    MulLe(p, P, v0);
    ExactMod(v0 * p, v0 * p, m);
    MulLe(p * q, P, v0);
    assert before * q == v0 * (p * q);
  }

  /** A value below the modulus is its own remainder, also times 2^0. */
  lemma {:induction false} ModSmall(v: nat, m: nat)
    requires v < m
    ensures (v * Pow2(0)) % m == v
  {
    DivModUnique(v, m, 0, v);
  }

  /** Chunks compose: reducing after each one is reducing once at the end. */
  lemma {:induction false} ModMulPow2(v: nat, a: nat, s: nat, m: nat, x: int)
    requires m > 0 && x == (v * Pow2(a)) % m
    ensures (x * Pow2(s)) % m == (v * Pow2(a + s)) % m
  {
    Pow2Add(a, s);
    ModMulAssoc(v, Pow2(a), Pow2(s), Pow2(a + s), m, x);
  }

  /** ((v * p) mod m * q) mod m == (v * (p * q)) mod m */
  lemma {:induction false} ModMulAssoc(v: int, p: int, q: int, pq: int, m: int, x: int)
    requires m > 0 && pq == p * q && x == (v * p) % m
    ensures (x * q) % m == (v * pq) % m
  {
    ModMul(v * p, q, m);
    assert (v * p) * q == v * pq;
  }

  /** ((x mod m) * y) mod m == (x * y) mod m */
  lemma {:induction false} ModMul(x: int, y: int, m: int)
    requires m > 0
    ensures ((x % m) * y) % m == (x * y) % m
  {
    var q, r := x / m, x % m;
    var q2, r2 := (r * y) / m, (r * y) % m;
    assert x * y == (q * y) * m + r * y;
    assert x * y == (q * y + q2) * m + r2;
    DivModUnique(x * y, m, q * y + q2, r2);
  }

  /** One pass of the outer loop of shiftLeft: every word moves up by s bits. */
  method ShiftLeftChunk(buffer: array<Word>, bufLen: int, s: int) returns (newLen: int)
    requires 1 <= bufLen <= buffer.Length && ZerosFrom(buffer[..], bufLen)
    requires bufLen == buffer.Length || bufLen == 1 || buffer[bufLen - 1] != 0
    requires 1 <= s <= 32
    modifies buffer
    ensures bufLen <= newLen <= buffer.Length && ZerosFrom(buffer[..], newLen)
    ensures newLen == buffer.Length || newLen == 1 || buffer[newLen - 1] != 0
    ensures Val(buffer[..]) == (Val(old(buffer[..])) * Pow2(s)) % Pow(buffer.Length)
    ensures (bufLen == 1 || old(buffer[bufLen - 1]) != 0) && Val(old(buffer[..])) * Pow2(s) < Pow(buffer.Length) ==>
      newLen == 1 || buffer[newLen - 1] != 0
  {
    ghost var o := buffer[..];
    var carry := ShiftWords(buffer, bufLen, s);
    newLen := PlaceCarry(buffer, bufLen, carry, s, o);
  }

  /** The word loop of a pass: each word shifted up, with the bits shifted out of the word below. */
  method ShiftWords(buffer: array<Word>, bufLen: int, s: int) returns (carry: Word)
    requires 1 <= bufLen <= buffer.Length && 1 <= s <= 32
    modifies buffer
    ensures carry < Pow2(s)
    ensures forall k :: bufLen <= k < buffer.Length ==> buffer[k] == old(buffer[k])
    ensures Val(buffer[..bufLen]) + Scale(carry, bufLen) == Val(old(buffer[..bufLen])) * Pow2(s)
  {
    ghost var o := buffer[..];
    var c := 0;
    for i := 0 to bufLen
      invariant 0 <= c < Pow2(s)
      invariant forall k :: i <= k < buffer.Length ==> buffer[k] == o[k]
      invariant Val(buffer[..i]) + Scale(c, i) == Val(o[..i]) * Pow2(s)
    {
      var val := Or(buffer[i] * Pow2(s), c);
      ghost var d := buffer[..];
      ShiftLeftStep(d, o, i, c, s, val);
      var lo: Word := val % BASE;
      buffer[i] := lo;
      assert buffer[..] == d[i := lo];
      c := val / BASE;
    }
    CarryIsWord(c, s);
    carry := c;
  }

  /** The last carry of a chunk: stored in the next word, or dropped at the end of the buffer. */
  method PlaceCarry(buffer: array<Word>, bufLen: int, carry: Word, s: int, ghost o: seq<Word>) returns (newLen: int)
    requires 1 <= bufLen <= buffer.Length == |o| && ZerosFrom(o, bufLen)
    requires bufLen == buffer.Length || bufLen == 1 || o[bufLen - 1] != 0
    requires 1 <= s <= 32 && carry < Pow2(s)
    requires forall k :: bufLen <= k < buffer.Length ==> buffer[k] == o[k]
    requires Val(buffer[..bufLen]) + Scale(carry, bufLen) == Val(o[..bufLen]) * Pow2(s)
    modifies buffer
    ensures bufLen <= newLen <= buffer.Length && ZerosFrom(buffer[..], newLen)
    ensures newLen == buffer.Length || newLen == 1 || buffer[newLen - 1] != 0
    ensures Val(buffer[..]) == (Val(o) * Pow2(s)) % Pow(buffer.Length)
    ensures (bufLen == 1 || o[bufLen - 1] != 0) && Val(o) * Pow2(s) < Pow(buffer.Length) ==>
      newLen == 1 || buffer[newLen - 1] != 0
  {
    ghost var d := buffer[..];
    if carry != 0 && bufLen + 1 <= buffer.Length {
      buffer[bufLen] := carry;
      assert buffer[..] == d[bufLen := carry];
      StoreCarry(d, o, bufLen, carry, s);
      newLen := bufLen + 1;
    } else if carry == 0 {
      NoCarry(d, o, bufLen, s);
      if bufLen > 1 && o[bufLen - 1] != 0 {
        NoCarryTop(d, o, bufLen, s);
      }
      newLen := bufLen;
    } else {
      DropCarry(d, o, carry, s);
      CarryWraps(d, o, carry, s);
      newLen := bufLen;
    }
  }

  lemma {:induction false} CarryIsWord(c: int, s: nat)
    requires s <= 32 && 0 <= c < Pow2(s)
    ensures c < BASE
  {
    Pow2Monotone(s, 32);
    Pow2Of32();
  }

  /** One word of a left-shift chunk: `val = (buffer[i] << s) | carry`. */
  lemma {:induction false} ShiftLeftStep(d: seq<Word>, o: seq<Word>, i: nat, carry: int, s: nat, val: int)
    requires |d| == |o| && i < |o| && d[i] == o[i]
    requires 1 <= s <= 32 && 0 <= carry < Pow2(s)
    requires Val(d[..i]) + Scale(carry, i) == Val(o[..i]) * Pow2(s)
    requires val == Or(o[i] * Pow2(s), carry)
    ensures 0 <= val / BASE < Pow2(s)
    ensures Val(d[i := val % BASE][..i + 1]) + Scale(val / BASE, i + 1) == Val(o[..i + 1]) * Pow2(s)
  {
    var p := Pow2(s);
    OrDisjoint(o[i], carry, s);
    Pow2Monotone(1, s);
    Pow2Monotone(s, 32);
    Pow2Of32();
    WordShiftBound(o[i], carry, p, val);
    var lo, hi := val % BASE, val / BASE;
    var e := d[i := lo];
    ValPrefix(e, i);
    assert e[..i] == d[..i];
    ValPrefix(o, i);
    Column(val, lo, hi, i);
    ShiftColumn(Val(d[..i]), Val(o[..i]), o[i], carry, p, i);
  }

  /** `(ulong)w << s | carry` splits into a word and a carry below 2^s. */
  lemma {:induction false} WordShiftBound(w: Word, c: int, p: nat, val: int)
    requires 2 <= p <= BASE && 0 <= c < p && val == w * p + c
    ensures 0 <= val / BASE < p && val == val % BASE + BASE * (val / BASE)
  {
    MulLe(w, BASE - 1, p);
    DivBelow(val, BASE, p);
  }

  /** The column arithmetic of ShiftLeftStep. */
  lemma {:induction false} ShiftColumn(vd: int, vo: int, w: int, carry: int, p: int, i: nat)
    requires vd + Scale(carry, i) == vo * p
    ensures vd + Scale(w * p + carry, i) == (vo + Scale(w, i)) * p
  {
    ScaleAdd(w * p, carry, i);
    ScaleMul(w, p, i);
  }

  /** `buffer[bufLen] = (uint)carry; bufLen++` */
  lemma {:induction false} StoreCarry(d: seq<Word>, o: seq<Word>, n: nat, c: Word, s: nat)
    requires |d| == |o| && 1 <= n < |o| && ZerosFrom(o, n)
    requires forall k :: n <= k < |o| ==> d[k] == o[k]
    requires Val(d[..n]) + Scale(c, n) == Val(o[..n]) * Pow2(s)
    ensures ZerosFrom(d[n := c], n + 1)
    ensures Val(d[n := c]) == (Val(o) * Pow2(s)) % Pow(|o|)
  {
    var e := d[n := c];
    ValTrailingZeros(e, n + 1);
    ValPrefix(e, n);
    assert e[..n] == d[..n];
    ValTrailingZeros(o, n);
    ValBound(e);
    ExactMod(Val(o) * Pow2(s), Val(e), Pow(|o|));
  }

  /** A product that fits below the modulus is its own remainder. */
  lemma {:induction false} ExactMod(x: int, v: int, m: int)
    requires 0 <= v < m && x == v
    ensures x % m == v
  {
    DivModUnique(x, m, 0, v);
  }

  /** No carry out: the length stays, and so does a non-zero top word. */
  lemma {:induction false} NoCarry(d: seq<Word>, o: seq<Word>, n: nat, s: nat)
    requires |d| == |o| && 1 <= n <= |o| && ZerosFrom(o, n) && 1 <= s
    requires n == |o| || n == 1 || o[n - 1] != 0
    requires forall k :: n <= k < |o| ==> d[k] == o[k]
    requires Val(d[..n]) + Scale(0, n) == Val(o[..n]) * Pow2(s)
    ensures ZerosFrom(d, n) && (n == |o| || n == 1 || d[n - 1] != 0)
    ensures Val(d) == (Val(o) * Pow2(s)) % Pow(|o|)
  {
    ScaleZero(n);
    ValTrailingZeros(d, n);
    ValTrailingZeros(o, n);
    ValBound(d);
    ExactMod(Val(o) * Pow2(s), Val(d), Pow(|o|));
    if n < |o| && n > 1 && d[n - 1] == 0 {
      TopWordKept(d[..n], o[..n], s);
    }
  }

  /** With no carry out, a non-zero top word stays non-zero. */
  lemma {:induction false} NoCarryTop(d: seq<Word>, o: seq<Word>, n: nat, s: nat)
    requires |d| == |o| && 1 < n <= |o| && o[n - 1] != 0 && 1 <= s
    requires Val(d[..n]) + Scale(0, n) == Val(o[..n]) * Pow2(s)
    ensures d[n - 1] != 0
  {
    ScaleZero(n);
    TopWordKept(d[..n], o[..n], s);
  }

  /** A non-zero top word times 2^s leaves a non-zero top word when nothing is carried out. */
  lemma {:induction false} TopWordKept(d: seq<Word>, o: seq<Word>, s: nat)
    requires |d| == |o| >= 1 && o[|o| - 1] != 0 && 1 <= s
    requires Val(d) == Val(o) * Pow2(s)
    ensures d[|d| - 1] != 0
  {
    var n := |d|;
    var p := Pow2(s);
    var vo := Val(o);
    ValAtLeast(o, n - 1);
    assert vo >= Pow(n - 1);
    MulLe(1, p, vo);
    assert Val(d) >= vo;
    if d[n - 1] == 0 {
      ValLast(d);
      ValBound(d[..n - 1]);
      ScaleZero(n - 1);
    }
  }

  /** A carry out of the full buffer is dropped: the value wraps modulo BASE^length. */
  lemma {:induction false} DropCarry(d: seq<Word>, o: seq<Word>, c: int, s: nat)
    requires |d| == |o| && c >= 0
    requires Val(d[..|d|]) + Scale(c, |d|) == Val(o[..|o|]) * Pow2(s)
    ensures Val(d) == (Val(o) * Pow2(s)) % Pow(|o|)
  {
    assert d[..|d|] == d && o[..|o|] == o;
    ScaleIsMul(c, |d|);
    ValBound(d);
    DivModUnique(Val(o) * Pow2(s), Pow(|o|), c, Val(d));
  }

  /** A carry out of the full buffer means the product reached BASE^length. */
  lemma {:induction false} CarryWraps(d: seq<Word>, o: seq<Word>, c: int, s: nat)
    requires |d| == |o| && c >= 1
    requires Val(d[..|d|]) + Scale(c, |d|) == Val(o[..|o|]) * Pow2(s)
    ensures Val(o) * Pow2(s) >= Pow(|o|)
  {
    assert o[..|o|] == o;
    ScaleMonotone(1, c, |d|);
  }

  // ---------------------------------------------------------------------
  // operator >>
  // ---------------------------------------------------------------------

  /**
   * `operator >>`: the floor of the value divided by 2^n. A shift by a
   * negative count moves nothing and only trims the copy.
   */
  method ShiftRight(a: BigInteger, shiftVal: int) returns (r: BigInteger)
    requires WellFormed(a)
    ensures Canonical(r)
    ensures shiftVal >= 0 ==> Value(r) == Value(a) / Pow2(shiftVal)
    ensures shiftVal <= 0 ==> r.data == a.data
  {
    var buf := NewBuffer(a);
    var n := ShiftRightBuffer(buf, shiftVal);
    ghost var sh: nat := if shiftVal > 0 then shiftVal else 0;
    ghost var v := Val(a.data);
    ghost var low := Val(buf[..]);
    assert low == Shr(v, sh);
    SignedView(a);
    if a.data[W - 1] >= SIGN {
      SignExtend(buf, n, v, sh);
      n := W;
      r := BigInteger(buf[..], n);
      SignedView(r);
      assert Value(r) == (v - Modulus()) / Pow2(sh);
      assert Value(a) == v - Modulus();
    } else {
      ShrLe(v, sh);
      SignBit(buf[..]);
      r := BigInteger(buf[..], n);
      assert Value(r) == v / Pow2(sh);
      assert Value(a) == v;
    }
    assert Value(r) == Value(a) / Pow2(sh);
    if shiftVal <= 0 {
      ValInjective(r.data, a.data);
    }
  }

  /**
   * The sign fill of `>>` on a negative operand: ones above the shifted
   * words and in the top word above its highest set bit.
   */
  method SignExtend(buf: array<Word>, n: int, ghost v: nat, ghost sh: nat)
    requires buf.Length == W && 1 <= n <= W && ZerosFrom(buf[..], n)
    requires n == 1 || buf[n - 1] != 0
    requires Half() <= v < Modulus() && Val(buf[..]) == Shr(v, sh)
    modifies buf
    ensures Val(buf[..]) - Modulus() == (v - Modulus()) / Pow2(sh)
    ensures Half() <= Val(buf[..]) < Modulus()
  {
    ghost var b0 := buf[..];
    Additive.FillOnes(buf, n);
    var top := FillTopBits(buf[n - 1]);
    ghost var b1 := buf[..];
    buf[n - 1] := top;
    assert buf[..] == b1[n - 1 := top];
    FilledValue(b0, b1, n, top);
    NegativeShift(v, Val(b0), sh);
  }

  /**
   * The mask loop of `>>`: sets the bits of a word from bit 31 down to its
   * highest set bit, exclusive.
   */
  method FillTopBits(t: Word) returns (u: Word)
    ensures u == t + BASE - Pow2(BitLength(t)) && u >= SIGN
  {
    Pow2Of32();
    BitLengthBounds(t);
    var mask := SIGN;
    u := t;
    var i := 0;
    while i < 32
      invariant 0 <= i <= 32 && t < Pow2(32 - i)
      invariant u == t + BASE - Pow2(32 - i)
      invariant i < 32 ==> mask == Pow2(31 - i)
    {
      MaskTest(u, 31 - i);
      FillBit(t, i, u);
      if And(u, mask) != 0 {
        FillDone(t, i, u);
        return;
      }
      FillStep(t, i, u);
      u := Or(u, mask);
      mask := mask / 2;
      i := i + 1;
    }
    BitLengthUnique(t, 0);
  }

  /** The loop stops at the highest set bit, 31 - i: the bits above it are all set. */
  lemma {:induction false} FillDone(t: nat, i: nat, u: nat)
    requires i < 32 && Pow2(31 - i) <= t < Pow2(32 - i) && u == t + BASE - Pow2(32 - i)
    ensures u == t + BASE - Pow2(BitLength(t)) && u >= SIGN
  {
    BitLengthUnique(t, 32 - i);
    Pow2Monotone(31 - i, 31);
    Pow2Of32();
  }

  /** A clear bit 31 - i is set by `u |= mask`, one more bit of the fill. */
  lemma {:induction false} FillStep(t: nat, i: nat, u: nat)
    requires i < 32 && t < Pow2(32 - i) && u == t + BASE - Pow2(32 - i) && !Bit(u, 31 - i)
    ensures t < Pow2(31 - i) && Or(u, Pow2(31 - i)) == t + BASE - Pow2(31 - i) < BASE
  {
    FillBit(t, i, u);
    MaskSet(u, 31 - i);
    assert Pow2(32 - i) == 2 * Pow2(31 - i);
  }

  /** Bit 31 - i of the partly filled word is bit 31 - i of the original word. */
  lemma {:induction false} FillBit(t: nat, i: nat, u: nat)
    requires i < 32 && t < Pow2(32 - i) && u == t + BASE - Pow2(32 - i)
    ensures Bit(u, 31 - i) <==> t >= Pow2(31 - i)
  {
    var a, b := Pow2(32 - i), Pow2(i);
    Pow2Add(32 - i, i);
    Pow2Of32();
    MulPred(a, b);
    BitLow(t, b - 1, 32 - i, 31 - i);
    TopBit(t, 31 - i);
  }

  lemma {:induction false} MulPred(a: int, b: int)
    ensures a * (b - 1) == a * b - a
  {
  }

  /** The value after the ones fill and the top-word fill. */
  lemma {:induction false} FilledValue(b0: seq<Word>, b1: seq<Word>, n: nat, top: Word)
    requires |b0| == W && |b1| == W && 1 <= n <= W && ZerosFrom(b0, n) && (n == 1 || b0[n - 1] != 0)
    requires forall k :: 0 <= k < n ==> b1[k] == b0[k]
    requires Val(b1) + Pow(n) == Val(b0) + Modulus()
    requires top == b0[n - 1] + BASE - Pow2(BitLength(b0[n - 1]))
    ensures Val(b1[n - 1 := top]) == Val(b0) + Modulus() - Pow2(BitLength(Val(b0)))
  {
    var m := n - 1;
    var t := b0[m];
    ValUpdate(b1, m, top);
    TopScale(t, top, BitLength(t), m);
    TrimmedBitLength(b0, n);
  }

  /** The top word's fill, weighed at its position. */
  lemma {:induction false} TopScale(t: int, top: int, b: nat, m: nat)
    requires top == t + BASE - Pow2(b)
    ensures Scale(top, m) == Scale(t, m) + Pow(m + 1) - Pow2(b + 32 * m)
  {
    ScaleAdd(t, BASE - Pow2(b), m);
    ScaleAdd(BASE, -(Pow2(b) as int), m);
    ScaleNeg(Pow2(b), m);
    ScaleStep(1, m);
    ScalePow2(b, m);
  }

  /** The bit length of a trimmed word sequence: its top word's and 32 per word below. */
  lemma {:induction false} TrimmedBitLength(ws: seq<Word>, n: nat)
    requires |ws| == W && 1 <= n <= W && ZerosFrom(ws, n) && (n == 1 || ws[n - 1] != 0)
    ensures BitLength(Val(ws)) == BitLength(ws[n - 1]) + 32 * (n - 1)
  {
    var m := n - 1;
    ValTrailingZeros(ws, n);
    ValLast(ws[..n]);
    assert ws[..n][..m] == ws[..m];
    ValBound(ws[..m]);
    WeighedBitLength(Val(ws), Val(ws[..m]), ws[m], m);
  }

  /** A top word t at word position m above a lower part that fits below it. */
  lemma {:induction false} WeighedBitLength(v: nat, low: nat, t: nat, m: nat)
    requires v == low + Scale(t, m) && low < Pow(m) && (m == 0 || t > 0)
    ensures BitLength(v) == BitLength(t) + 32 * m
  {
    var b := BitLength(t);
    BitLengthBounds(t);
    WeighedBelow(v, low, t, m, b);
    if b > 0 {
      WeighedAbove(v, low, t, m, b);
    } else if m > 0 {
      assert false;
    }
    BitLengthUnique(v, b + 32 * m);
  }

  lemma {:induction false} WeighedBelow(v: nat, low: nat, t: nat, m: nat, b: nat)
    requires v == low + Scale(t, m) && low < Pow(m) && t < Pow2(b)
    ensures v < Pow2(b + 32 * m)
  {
    ScaleMonotone(t + 1, Pow2(b), m);
    ScaleAdd(t, 1, m);
    ScalePow2(b, m);
  }

  lemma {:induction false} WeighedAbove(v: nat, low: nat, t: nat, m: nat, b: nat)
    requires v == low + Scale(t, m) && b > 0 && Pow2(b - 1) <= t
    ensures Pow2(b + 32 * m - 1) <= v
  {
    ScaleMonotone(Pow2(b - 1), t, m);
    ScalePow2(b - 1, m);
    assert b + 32 * m - 1 == (b - 1) + 32 * m;
  }

  /**
   * The value arithmetic of `>>` on a negative operand with unsigned
   * pattern v: the ones above the logical shift's highest bit make it the
   * floor of the signed quotient.
   */
  lemma {:induction false} NegativeShift(v: nat, low: nat, sh: nat)
    requires Half() <= v < Modulus() && low == Shr(v, sh)
    ensures low - Pow2(BitLength(low)) == (v - Modulus()) / Pow2(sh)
    ensures Half() <= low + Modulus() - Pow2(BitLength(low)) < Modulus()
  {
    HalfOfModulus();
    PowIsPow2(W);
    var k := 32 * W - 1;
    assert Modulus() == 2 * Pow2(k);
    BitLengthBounds(low);
    if sh <= k {
      ShiftWithinWidth(v, low, sh, k);
    } else {
      ShiftPastWidth(v, low, sh, k);
    }
  }

  /** NegativeShift for a count below the width 2^(k+1): the quotient keeps k + 1 - sh bits. */
  lemma {:induction false} ShiftWithinWidth(v: nat, low: nat, sh: nat, k: nat)
    requires sh <= k && Pow2(k) <= v < 2 * Pow2(k) && low == Shr(v, sh)
    ensures BitLength(low) == k + 1 - sh
    ensures low - Pow2(k + 1 - sh) == (v - 2 * Pow2(k)) / Pow2(sh)
    ensures Pow2(k) <= low + 2 * Pow2(k) - Pow2(k + 1 - sh) < 2 * Pow2(k)
  {
    var p, lo, h := Pow2(sh), Pow2(k - sh), Pow2(k);
    Pow2Add(sh, k - sh);
    assert sh + (k - sh) == k;
    assert h == p * lo;
    var up := Pow2(k + 1 - sh);
    assert up == 2 * lo;
    QuotientRange(v, p, lo, h, low, v % p);
    BitLengthUnique(low, k + 1 - sh);
    Pow2Monotone(k - sh, k);
  }

  /** The arithmetic of ShiftWithinWidth, with h = p * lo. */
  lemma {:induction false} QuotientRange(v: int, p: int, lo: int, h: int, low: int, r: int)
    requires p > 0 && lo > 0 && h == p * lo && h <= v < 2 * h
    requires low == v / p && r == v % p
    ensures lo <= low < 2 * lo
    ensures (v - 2 * h) / p == low - 2 * lo
  {
    assert v == low * p + r && 0 <= r < p;
    assert (2 * lo) * p == 2 * h;
    if low >= 2 * lo {
      MulLe(2 * lo, low, p);
    }
    if low < lo {
      MulLe(low + 1, lo, p);
    }
    assert v - 2 * h == (low - 2 * lo) * p + r;
    DivModUnique(v - 2 * h, p, low - 2 * lo, r);
  }

  /** NegativeShift for a count at or past the width: all that is left is -1. */
  lemma {:induction false} ShiftPastWidth(v: nat, low: nat, sh: nat, k: nat)
    requires sh > k && Pow2(k) <= v < 2 * Pow2(k) && low == Shr(v, sh)
    ensures low == 0 && (v - 2 * Pow2(k)) / Pow2(sh) == -1
  {
    var p := Pow2(sh);
    Pow2Monotone(k + 1, sh);
    DivModUnique(v, p, 0, v);
    DivModUnique(v - 2 * Pow2(k), p, -1, v - 2 * Pow2(k) + p);
  }

  /** A right shift does not increase a value. */
  lemma {:induction false} ShrLe(v: nat, sh: nat)
    ensures Shr(v, sh) <= v
  {
    DivModUnique(v, Pow2(sh), Shr(v, sh), v % Pow2(sh));
    MulLe(1, Pow2(sh), Shr(v, sh));
  }

  /**
   * `shiftRight(buffer, shiftVal)`: trims, shifts in chunks of at most 32
   * bits and trims again.
   */
  method ShiftRightBuffer(buffer: array<Word>, shiftVal: int) returns (bufLen: int)
    requires buffer.Length >= 1
    modifies buffer
    ensures 1 <= bufLen <= buffer.Length && ZerosFrom(buffer[..], bufLen)
    ensures bufLen == 1 || buffer[bufLen - 1] != 0
    ensures Val(buffer[..]) == Shr(Val(old(buffer[..])), if shiftVal > 0 then shiftVal else 0)
    ensures shiftVal <= 0 ==> buffer[..] == old(buffer[..])
  {
    var shiftAmount := 32;
    var invShift := 0;
    bufLen := TrimLength(buffer, buffer.Length);
    ghost var v0 := Val(buffer[..]);
    ShrZero(v0);
    var count := shiftVal;
    while count > 0
      invariant shiftVal > 0 ==> 0 <= count <= shiftVal
      invariant shiftVal <= 0 ==> count == shiftVal && buffer[..] == old(buffer[..])
      invariant 1 <= shiftAmount <= 32 && invShift == (if shiftAmount == 32 then 0 else 32 - shiftAmount)
      invariant 1 <= bufLen <= buffer.Length && ZerosFrom(buffer[..], bufLen)
      invariant Val(buffer[..]) == Shr(v0, if shiftVal > 0 then shiftVal - count else 0)
    {
      if count < shiftAmount {
        shiftAmount := count;
        invShift := 32 - shiftAmount;
      }
      ghost var done := shiftVal - count;
      ShiftRightChunk(buffer, bufLen, shiftAmount, invShift);
      ShrShr(v0, done, shiftAmount);
      count := count - shiftAmount;
    }
    bufLen := TrimLength(buffer, bufLen);
  }

  lemma {:induction false} ShrZero(v: nat)
    ensures Shr(v, 0) == v
  {
    DivModUnique(v, 1, v, 0);
  }

  /** Two right shifts are one by the sum. */
  lemma {:induction false} ShrShr(v: nat, a: nat, s: nat)
    ensures Shr(Shr(v, a), s) == Shr(v, a + s)
  {
    DivDiv(v, Pow2(a), Pow2(s));
    Pow2Add(a, s);
  }

  /** One pass of the outer loop of shiftRight: every word moves down by s bits. */
  method ShiftRightChunk(buffer: array<Word>, bufLen: int, s: int, invShift: int)
    requires 1 <= bufLen <= buffer.Length && ZerosFrom(buffer[..], bufLen)
    requires 1 <= s <= 32 && invShift == (if s == 32 then 0 else 32 - s)
    modifies buffer
    ensures ZerosFrom(buffer[..], bufLen)
    ensures Val(buffer[..]) == Shr(Val(old(buffer[..])), s)
  {
    ghost var o := buffer[..];
    var carry: nat := 0;
    var i := bufLen;
    ChunkStart(o, bufLen, s);
    while i > 0
      invariant 0 <= i <= bufLen
      invariant forall k :: 0 <= k < i ==> buffer[k] == o[k]
      invariant ZerosFrom(buffer[..], bufLen)
      invariant Val(buffer[i..bufLen]) == Shr(Val(o[i..bufLen]), s)
      invariant carry == (Val(o[i..bufLen]) % Pow2(s)) * Pow2(32 - s)
    {
      i := i - 1;
      ghost var d := buffer[..];
      ShiftRightStep(d, o, i, bufLen, carry, s, invShift);
      var val: Word := Or(Shr(buffer[i], s), carry);
      carry := (buffer[i] * Pow2(invShift)) % BASE;
      buffer[i] := val;
      assert buffer[..] == d[i := val];
    }
    ChunkEnd(o, buffer[..], bufLen, s);
  }

  /** Before the first word of a chunk: nothing shifted and no carry. */
  lemma {:induction false} ChunkStart(o: seq<Word>, n: nat, s: nat)
    requires n <= |o| && s <= 32
    ensures Val(o[n..n]) == 0 && Shr(0, s) == 0 && (Val(o[n..n]) % Pow2(s)) * Pow2(32 - s) == 0
  {
    assert o[n..n] == [];
    DivModUnique(0, Pow2(s), 0, 0);
  }

  /** After the last word of a chunk: the shifted words are the whole value. */
  lemma {:induction false} ChunkEnd(o: seq<Word>, b: seq<Word>, n: nat, s: nat)
    requires 1 <= n <= |o| == |b| && ZerosFrom(o, n) && ZerosFrom(b, n)
    requires Val(b[0..n]) == Shr(Val(o[0..n]), s)
    ensures Val(b) == Shr(Val(o), s)
  {
    assert o[0..n] == o[..n] && b[0..n] == b[..n];
    ValTrailingZeros(o, n);
    ValTrailingZeros(b, n);
  }

  /** One word of a right-shift chunk: `val = (buffer[i] >> s) | carry`. */
  lemma {:induction false} ShiftRightStep(d: seq<Word>, o: seq<Word>, i: nat, n: nat, carry: nat, s: nat, invShift: nat)
    requires |d| == |o| && i < n <= |o| && d[i] == o[i]
    requires 1 <= s <= 32 && invShift == (if s == 32 then 0 else 32 - s)
    requires Val(d[i + 1..n]) == Shr(Val(o[i + 1..n]), s)
    requires carry == (Val(o[i + 1..n]) % Pow2(s)) * Pow2(32 - s)
    ensures Or(Shr(o[i], s), carry) < BASE
    ensures Val(d[i := Or(Shr(o[i], s), carry)][i..n]) == Shr(Val(o[i..n]), s)
    ensures (o[i] * Pow2(invShift)) % BASE == (Val(o[i..n]) % Pow2(s)) * Pow2(32 - s)
  {
    var w := o[i];
    var rest := Val(o[i + 1..n]);
    RightWord(w, rest, s, carry, invShift);
    var val := Or(Shr(w, s), carry);
    assert o[i..n][1..] == o[i + 1..n];
    var e := d[i := val];
    assert e[i..n][1..] == d[i + 1..n];
    assert Val(o[i..n]) == w + BASE * rest;
    assert Val(e[i..n]) == val + BASE * Val(d[i + 1..n]);
  }

  /** The arithmetic of one word of a right-shift chunk. */
  lemma {:induction false} RightWord(w: Word, rest: nat, s: nat, carry: nat, invShift: nat)
    requires 1 <= s <= 32 && invShift == (if s == 32 then 0 else 32 - s)
    requires carry == (rest % Pow2(s)) * Pow2(32 - s)
    ensures Or(Shr(w, s), carry) < BASE
    ensures Shr(w + BASE * rest, s) == Or(Shr(w, s), carry) + BASE * Shr(rest, s)
    ensures (w * Pow2(invShift)) % BASE == ((w + BASE * rest) % Pow2(s)) * Pow2(32 - s)
  {
    var p, q := Pow2(s), Pow2(32 - s);
    Pow2Split(s);
    DivBelow(w, p, q);
    var lo, hi := Shr(w, s), rest % p;
    HighBits(rest, p, q, hi);
    OrComm(lo, hi * q);
    OrDisjoint(hi, lo, 32 - s);
    assert Or(lo, carry) == lo + hi * q;
    ShiftRightColumn(w, rest, p, q);
    if s == 32 {
      assert q == 1 && p == BASE;
      DivModUnique(w, BASE, 0, w);
    } else {
      assert Pow2(invShift) == q;
      ModShift(w, p, q);
    }
  }

  /** Splitting a word's 32 bits at bit s. */
  lemma {:induction false} Pow2Split(s: nat)
    requires s <= 32
    ensures Pow2(s) * Pow2(32 - s) == BASE && Pow2(32 - s) * Pow2(s) == BASE
    ensures s == 32 ==> Pow2(32 - s) == 1 && Pow2(s) == BASE
  {
    var p, q := Pow2(s), Pow2(32 - s);
    Pow2Add(s, 32 - s);
    assert s + (32 - s) == 32;
    Pow2Of32();
    assert p * q == BASE;
    if s == 32 {
      assert q == Pow2(0) == 1;
    }
  }

  /** The carry into the next word down is below a word. */
  lemma {:induction false} HighBits(rest: nat, p: nat, q: nat, hi: nat)
    requires p > 0 && q > 0 && p * q == BASE && hi == rest % p
    ensures hi * q <= BASE - q
  {
    MulLe(hi, p - 1, q);
  }

  /** The quotient and remainder of one more word on top. */
  lemma {:induction false} ShiftRightColumn(w: nat, v: nat, p: nat, q: nat)
    requires p > 0 && q > 0 && p * q == BASE
    ensures (w + BASE * v) / p == w / p + (v % p) * q + BASE * (v / p)
    ensures (w + BASE * v) % p == w % p
  {
    var a, r := w / p, w % p;
    assert q * v == q * (p * (v / p) + v % p);
    assert w + BASE * v == (a + q * v) * p + r;
    DivModUnique(w + BASE * v, p, a + q * v, r);
  }

  /** `(w << (32 - s)) & 0xFFFFFFFF` keeps the low s bits of w, moved to the top. */
  lemma {:induction false} ModShift(w: nat, p: nat, q: nat)
    requires p > 0 && q > 0 && p * q == BASE
    ensures (w * q) % BASE == (w % p) * q
  {
    var a, r := w / p, w % p;
    assert w * q == a * BASE + r * q;
    MulLe(r, p - 1, q);
    DivModUnique(w * q, BASE, a, r * q);
  }
}
