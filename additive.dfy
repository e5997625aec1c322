/**
 * The additive operators of BigInteger.cs: `+`, `++`, `-` (binary), `--`
 * and unary `-`. Each fills a fresh buffer word by word with a 64-bit
 * carry or borrow, trims dataLength, and checks overflow afterwards by
 * comparing sign bits.
 */
module Additive {
  import opened Words
  import opened BigInt

  /** `operator +` */
  method Add(a: BigInteger, b: BigInteger) returns (r: Result<BigInteger>)
    requires WellFormed(a) && WellFormed(b)
    ensures r.Ok? <==> InRange(Value(a) + Value(b))
    ensures r.Ok? ==> Canonical(r.value) && Value(r.value) == Value(a) + Value(b)
    ensures r.Err? ==> r.error == Overflow
  {
    var len := if a.dataLength > b.dataLength then a.dataLength else b.dataLength;
    var data, carry := AddWords(a.data, b.data, len);
    ValTrailingZeros(a.data, len);
    ValTrailingZeros(b.data, len);
    var c := 0;
    ScaleZero(W);
    if carry != 0 && len < W {
      ghost var d := data[..];
      var top: Word := carry;
      ValUpdateZero(d, len, top);
      data[len] := top;
      assert data[..] == d[len := top];
      len := len + 1;
    } else {
      c := carry;
      if carry == 0 {
        ScaleZero(len);
      }
    }
    var n := TrimLength(data, len);
    var res := BigInteger(data[..], n);
    AddSigns(a, b, res, c);
    if IsNegative(a) == IsNegative(b) && IsNegative(res) != IsNegative(a) {
      r := Err(Overflow);
    } else {
      r := Ok(res);
    }
  }

  /** The carry loop of `+` over the first len words, into a fresh buffer. */
  method AddWords(a: seq<Word>, b: seq<Word>, len: int) returns (data: array<Word>, carry: int)
    requires |a| == |b| == W && 1 <= len <= W
    ensures fresh(data) && data.Length == W && ZerosFrom(data[..], len)
    ensures (carry == 0 || carry == 1) && Val(data[..]) + Scale(carry, len) == Val(a[..len]) + Val(b[..len])
  {
    data := new Word[W](_ => 0);
    ValZeros(data[..]);
    carry := 0;
    var i := 0;
    while i < len
      invariant 0 <= i <= len && (carry == 0 || carry == 1)
      invariant ZerosFrom(data[..], i)
      invariant Val(data[..]) + Scale(carry, i) == Val(a[..i]) + Val(b[..i])
    {
      var sum := a[i] as int + b[i] + carry;
      ghost var d := data[..];
      AddStep(d, a, b, i, carry);
      var lo: Word := sum % BASE;
      data[i] := lo;
      assert data[..] == d[i := lo];
      carry := sum / BASE;
      i := i + 1;
    }
  }

  /** One column of `+`: the invariant of its loop moves up one word. */
  lemma {:induction false} AddStep(d: seq<Word>, a: seq<Word>, b: seq<Word>, i: nat, carry: int)
    requires |d| == |a| == |b| && i < |a| && d[i] == 0 && (carry == 0 || carry == 1)
    requires Val(d) + Scale(carry, i) == Val(a[..i]) + Val(b[..i])
    ensures var sum := a[i] as int + b[i] + carry;
      sum % BASE == (if sum >= BASE then sum - BASE else sum) &&
      sum / BASE == (if sum >= BASE then 1 else 0) &&
      Val(d[i := sum % BASE]) + Scale(sum / BASE, i + 1) == Val(a[..i + 1]) + Val(b[..i + 1])
  {
    var sum := a[i] as int + b[i] + carry;
    SplitCarry(sum);
    var lo: Word, hi := if sum >= BASE then sum - BASE else sum, if sum >= BASE then 1 else 0;
    ValUpdateZero(d, i, lo);
    ValPrefix(a, i);
    ValPrefix(b, i);
    AddColumn(Val(d), Val(a[..i]), Val(b[..i]), a[i], b[i], carry, lo, hi, i);
  }

  /** The arithmetic of one column of `+`, on the values involved. */
  lemma {:induction false} AddColumn(vd: int, va: int, vb: int, x: int, y: int, c: int, lo: int, hi: int, i: nat)
    requires vd + Scale(c, i) == va + vb && lo + BASE * hi == x + y + c
    ensures (vd + Scale(lo, i)) + Scale(hi, i + 1) == (va + Scale(x, i)) + (vb + Scale(y, i))
  {
    Column(x + y + c, lo, hi, i);
    ScaleAdd(x + y, c, i);
    ScaleAdd(x, y, i);
  }

  /** The sign-bit test of `+` read on values. */
  lemma {:induction false} AddSigns(a: BigInteger, b: BigInteger, res: BigInteger, c: int)
    requires |a.data| == W && |b.data| == W && |res.data| == W
    requires (c == 0 || c == 1) && Val(res.data) + Scale(c, W) == Val(a.data) + Val(b.data)
    ensures (IsNegative(a) == IsNegative(b) && IsNegative(res) != IsNegative(a))
            <==> !InRange(Value(a) + Value(b))
    ensures InRange(Value(a) + Value(b)) ==> Value(res) == Value(a) + Value(b)
  {
    SignedView(a);
    SignedView(b);
    SignedView(res);
    SumLemma(Val(a.data), Val(b.data), Val(res.data), c);
  }

  /** `operator -` (binary) */
  method Subtract(a: BigInteger, b: BigInteger) returns (r: Result<BigInteger>)
    requires WellFormed(a) && WellFormed(b)
    ensures r.Ok? <==> InRange(Value(a) - Value(b))
    ensures r.Ok? ==> Canonical(r.value) && Value(r.value) == Value(a) - Value(b)
    ensures r.Err? ==> r.error == Overflow
  {
    var len := if a.dataLength > b.dataLength then a.dataLength else b.dataLength;
    var data, borrow := SubtractWords(a.data, b.data, len);
    ValTrailingZeros(a.data, len);
    ValTrailingZeros(b.data, len);
    if borrow != 0 {
      // roll over to negative: every higher word becomes 0xFFFFFFFF
      FillOnes(data, len);
      len := W;
    } else {
      ScaleZero(len);
      ScaleZero(W);
    }
    var n := TrimLength(data, len);
    var res := BigInteger(data[..], n);
    SubSigns(a, b, res, borrow);
    if IsNegative(a) != IsNegative(b) && IsNegative(res) != IsNegative(a) {
      r := Err(Overflow);
    } else {
      r := Ok(res);
    }
  }

  /** The borrow loop of binary `-` over the first len words, into a fresh buffer. */
  method SubtractWords(a: seq<Word>, b: seq<Word>, len: int) returns (data: array<Word>, borrow: int)
    requires |a| == |b| == W && 1 <= len <= W
    ensures fresh(data) && data.Length == W && ZerosFrom(data[..], len)
    ensures (borrow == 0 || borrow == 1) && Val(data[..]) + Val(b[..len]) == Val(a[..len]) + Scale(borrow, len)
  {
    data := new Word[W](_ => 0);
    ValZeros(data[..]);
    borrow := 0;
    var i := 0;
    while i < len
      invariant 0 <= i <= len && (borrow == 0 || borrow == 1)
      invariant ZerosFrom(data[..], i)
      invariant Val(data[..]) + Val(b[..i]) == Val(a[..i]) + Scale(borrow, i)
    {
      var diff := a[i] as int - b[i] - borrow;
      ghost var d := data[..];
      SubStep(d, a, b, i, borrow);
      var lo: Word := diff % BASE;
      data[i] := lo;
      assert data[..] == d[i := lo];
      borrow := if diff < 0 then 1 else 0;
      i := i + 1;
    }
  }

  /** Sets every word from len up to 0xFFFFFFFF: adds 2^2240 - BASE^len. */
  method FillOnes(data: array<Word>, len: int)
    requires data.Length == W && 0 <= len <= W && ZerosFrom(data[..], len)
    modifies data
    ensures forall k :: 0 <= k < len ==> data[k] == old(data[k])
    ensures forall k :: len <= k < W ==> data[k] == ONES
    ensures Val(data[..]) + Pow(len) == Val(old(data[..])) + Modulus()
  {
    var j := len;
    while j < W
      invariant len <= j <= W && ZerosFrom(data[..], j)
      invariant forall k :: 0 <= k < len ==> data[k] == old(data[k])
      invariant forall k :: len <= k < j ==> data[k] == ONES
      invariant Val(data[..]) + Pow(len) == Val(old(data[..])) + Pow(j)
    {
      ghost var d := data[..];
      FillStep(d, j);
      data[j] := ONES;
      assert data[..] == d[j := ONES];
      j := j + 1;
    }
  }

  /** One word of FillOnes. */
  lemma {:induction false} FillStep(d: seq<Word>, j: nat)
    requires j < |d| && d[j] == 0
    ensures Val(d[j := ONES]) + Pow(j) == Val(d) + Pow(j + 1)
  {
    ValUpdateZero(d, j, ONES);
    Column(BASE, 0, 1, j);
    ScaleAdd(ONES, 1, j);
    ScaleZero(j);
  }

  /** One column of binary `-`: the invariant of its loop moves up one word. */
  lemma {:induction false} SubStep(d: seq<Word>, a: seq<Word>, b: seq<Word>, i: nat, borrow: int)
    requires |d| == |a| == |b| && i < |a| && d[i] == 0 && (borrow == 0 || borrow == 1)
    requires Val(d) + Val(b[..i]) == Val(a[..i]) + Scale(borrow, i)
    ensures var diff := a[i] as int - b[i] - borrow;
      diff % BASE == (if diff < 0 then diff + BASE else diff) &&
      Val(d[i := diff % BASE]) + Val(b[..i + 1]) == Val(a[..i + 1]) + Scale(if diff < 0 then 1 else 0, i + 1)
  {
    var diff := a[i] as int - b[i] - borrow;
    SplitBorrow(diff);
    var lo: Word, out := if diff < 0 then diff + BASE else diff, if diff < 0 then 1 else 0;
    ValUpdateZero(d, i, lo);
    ValPrefix(a, i);
    ValPrefix(b, i);
    SubColumn(Val(d), Val(a[..i]), Val(b[..i]), a[i], b[i], borrow, lo, out, i);
  }

  /** The arithmetic of one column of binary `-`, on the values involved. */
  lemma {:induction false} SubColumn(vd: int, va: int, vb: int, x: int, y: int, c: int, lo: int, out: int, i: nat)
    requires vd + vb == va + Scale(c, i) && lo - BASE * out == x - y - c
    ensures (vd + Scale(lo, i)) + (vb + Scale(y, i)) == (va + Scale(x, i)) + Scale(out, i + 1)
  {
    Column(x - y - c, lo, -out, i);
    ScaleNeg(out, i + 1);
    ScaleAdd(x - y, -c, i);
    ScaleAdd(x, -y, i);
    ScaleNeg(c, i);
    ScaleNeg(y, i);
  }

  /** The sign-bit test of binary `-` read on values. */
  lemma {:induction false} SubSigns(a: BigInteger, b: BigInteger, res: BigInteger, c: int)
    requires |a.data| == W && |b.data| == W && |res.data| == W
    requires (c == 0 || c == 1) && Val(res.data) + Val(b.data) == Val(a.data) + Scale(c, W)
    ensures (IsNegative(a) != IsNegative(b) && IsNegative(res) != IsNegative(a))
            <==> !InRange(Value(a) - Value(b))
    ensures InRange(Value(a) - Value(b)) ==> Value(res) == Value(a) - Value(b)
  {
    SignedView(a);
    SignedView(b);
    SignedView(res);
    DiffLemma(Val(a.data), Val(b.data), Val(res.data), c);
  }

  /** The sign-bit test of `++`: only a non-negative operand can overflow. */
  lemma {:induction false} IncrementSigns(a: BigInteger, res: BigInteger, c: int)
    requires |a.data| == W && |res.data| == W
    requires (c == 0 || c == 1) && Val(res.data) + Scale(c, W) == Val(a.data) + 1
    ensures (!IsNegative(a) && IsNegative(res) != IsNegative(a)) <==> !InRange(Value(a) + 1)
    ensures InRange(Value(a) + 1) ==> Value(res) == Value(a) + 1
  {
    SignedView(a);
    SignedView(res);
    HalfOfModulus();
    SumLemma(Val(a.data), 1, Val(res.data), c);
  }

  /** The sign-bit test of `--`: only a negative operand can overflow. */
  lemma {:induction false} DecrementSigns(a: BigInteger, res: BigInteger, c: int)
    requires |a.data| == W && |res.data| == W
    requires (c == 0 || c == 1) && Val(res.data) + 1 == Val(a.data) + Scale(c, W)
    ensures (IsNegative(a) && IsNegative(res) != IsNegative(a)) <==> !InRange(Value(a) - 1)
    ensures InRange(Value(a) - 1) ==> Value(res) == Value(a) - 1
  {
    SignedView(a);
    SignedView(res);
    HalfOfModulus();
    DiffLemma(Val(a.data), 1, Val(res.data), c);
  }

  /**
   * The "add one" loop shared by `++` and unary `-`: the carry runs up
   * through words that were 0xFFFFFFFF and stops at the first other word.
   */
  method IncrementBuffer(buf: array<Word>) returns (carry: int, index: int)
    requires buf.Length == W
    modifies buf
    ensures 1 <= index <= W && (carry == 0 || carry == 1)
    ensures Val(buf[..]) + Scale(carry, W) == Val(old(buf[..])) + 1
    ensures forall k :: index <= k < W ==> buf[k] == old(buf[k])
    ensures carry == 0 ==> buf[index - 1] != 0
    ensures carry == 1 ==> index == W && forall k :: 0 <= k < W ==> old(buf[k]) == BASE - 1
  {
    carry := 1;
    index := 0;
    while carry != 0 && index < W
      invariant 0 <= index <= W && (carry == 0 || carry == 1)
      invariant Val(buf[..]) + Scale(carry, index) == Val(old(buf[..])) + 1
      invariant forall k :: index <= k < W ==> buf[k] == old(buf[k])
      invariant carry == 0 ==> index >= 1 && buf[index - 1] != 0
      invariant carry == 1 ==> forall k :: 0 <= k < index ==> old(buf[k]) == BASE - 1
    {
      var v := buf[index] as int + 1;
      ghost var d := buf[..];
      var lo: Word := v % BASE;
      var c := v / BASE;
      IncrementStep(d, index, Val(old(buf[..])), lo, c);
      buf[index] := lo;
      assert buf[..] == d[index := lo];
      assert c == 0 ==> buf[index] != 0;
      carry := c;
      index := index + 1;
    }
    if carry == 0 {
      ScaleZero(index);
      ScaleZero(W);
    }
  }

  /** One word of IncrementBuffer. */
  lemma {:induction false} IncrementStep(d: seq<Word>, i: nat, v0: int, lo: Word, c: int)
    requires i < |d| && Val(d) + Pow(i) == v0 + 1
    requires lo == (d[i] as int + 1) % BASE && c == (d[i] as int + 1) / BASE
    ensures c == 0 || c == 1
    ensures c == 0 ==> lo != 0
    ensures c == 1 ==> d[i] == BASE - 1
    ensures Val(d[i := lo]) + Scale(c, i + 1) == v0 + 1
  {
    var v := d[i] as int + 1;
    SplitCarry(v);
    ValUpdate(d, i, lo);
    Column(v, lo, c, i);
    ScaleAdd(d[i], 1, i);
  }

  /** `operator ++` */
  method Increment(a: BigInteger) returns (r: Result<BigInteger>)
    requires WellFormed(a)
    ensures r.Ok? <==> InRange(Value(a) + 1)
    ensures r.Ok? ==> Canonical(r.value) && Value(r.value) == Value(a) + 1
    ensures r.Err? ==> r.error == Overflow
  {
    var data := NewBuffer(a);
    var carry, index := IncrementBuffer(data);
    var len := a.dataLength;
    if index > len {
      len := index;
    } else {
      len := TrimLength(data, len);
    }
    var res := BigInteger(data[..], len);
    IncrementSigns(a, res, carry);
    if !IsNegative(a) && IsNegative(res) != IsNegative(a) {
      r := Err(Overflow);
    } else {
      r := Ok(res);
    }
  }

  /** `operator --` */
  method Decrement(a: BigInteger) returns (r: Result<BigInteger>)
    requires WellFormed(a)
    ensures r.Ok? <==> InRange(Value(a) - 1)
    ensures r.Ok? ==> Canonical(r.value) && Value(r.value) == Value(a) - 1
    ensures r.Err? ==> r.error == Overflow
  {
    var data := NewBuffer(a);
    var borrowing := true;
    var index := 0;
    while borrowing && index < W
      invariant 0 <= index <= W
      invariant Val(data[..]) + 1 == Val(a.data) + Scale(if borrowing then 1 else 0, index)
      invariant forall k :: index <= k < W ==> data[k] == a.data[k]
    {
      var v := data[index] as int - 1;
      ghost var d := data[..];
      DecrementStep(d, index, Val(a.data));
      var lo: Word := v % BASE;
      data[index] := lo;
      assert data[..] == d[index := lo];
      if v >= 0 {
        borrowing := false;
      }
      index := index + 1;
    }
    if !borrowing {
      ScaleZero(index);
      ScaleZero(W);
    }
    var len := a.dataLength;
    if index > len {
      len := index;
    }
    len := TrimLength(data, len);
    var res := BigInteger(data[..], len);
    DecrementSigns(a, res, if borrowing then 1 else 0);
    if IsNegative(a) && IsNegative(res) != IsNegative(a) {
      r := Err(Overflow);
    } else {
      r := Ok(res);
    }
  }

  /** One word of the borrow loop of `--`. */
  lemma {:induction false} DecrementStep(d: seq<Word>, i: nat, v0: int)
    requires i < |d| && Val(d) + 1 == v0 + Pow(i)
    ensures var v := d[i] as int - 1;
      v % BASE == (if v < 0 then ONES else v) &&
      Val(d[i := v % BASE]) + 1 == v0 + Scale(if v < 0 then 1 else 0, i + 1)
  {
    var v := d[i] as int - 1;
    SplitBorrow(v);
    var lo: Word, out := if v < 0 then ONES else v, if v < 0 then 1 else 0;
    ValUpdate(d, i, lo);
    Column(v, lo, -out, i);
    ScaleNeg(out, i + 1);
    ScaleAdd(d[i], -1, i);
    ScaleNeg(1, i);
  }

  /**
   * The sign-bit test of unary `-` read on values: the complement plus one
   * keeps the sign exactly for zero and for the most negative value.
   */
  lemma {:induction false} NegSigns(a: BigInteger, res: seq<Word>, carry: int)
    requires |a.data| == W && |res| == W && (carry == 0 || carry == 1)
    requires Val(res) + Scale(carry, W) == Modulus() - Val(a.data)
    ensures var res' := BigInteger(res, W);
      IsNegative(a) == IsNegative(res') <==> Value(a) == 0 || !InRange(-Value(a))
    ensures IsNegative(a) != (res[W - 1] >= SIGN) ==> Value(BigInteger(res, W)) == -Value(a)
  {
    var res' := BigInteger(res, W);
    ValueIsSigned(a);
    ValueIsSigned(res');
    SignBit(a.data);
    SignBit(res);
    ValBound(res);
    HalfOfModulus();
    if carry == 0 {
      ScaleZero(W);
    }
    if Val(a.data) > 0 {
      assert carry == 0;
      NegLemma(Val(a.data), Val(res));
    }
  }

  /** The copy of the operand, then its one's complement word by word. */
  method Complement(a: BigInteger) returns (data: array<Word>)
    requires WellFormed(a)
    ensures fresh(data) && data.Length == W
    ensures forall k :: 0 <= k < W ==> data[k] == ONES - a.data[k]
    ensures Val(data[..]) + Val(a.data) + 1 == Modulus()
  {
    data := NewBuffer(a);
    var i := 0;
    while i < W
      invariant 0 <= i <= W
      invariant forall k :: 0 <= k < i ==> data[k] == ONES - a.data[k]
    {
      data[i] := ONES - a.data[i];
      i := i + 1;
    }
    ValComplement(a.data, data[..]);
  }

  /**
   * Unary `-`. Zero of length one is returned as a fresh zero; otherwise
   * the one's complement of all 70 words plus one. The sign-bit test throws
   * for the most negative value, and also for a zero whose dataLength is
   * above one (the complement-plus-one wraps to zero, keeping the sign).
   */
  method Negate(a: BigInteger) returns (r: Result<BigInteger>)
    requires WellFormed(a)
    ensures r.Ok? <==> InRange(-Value(a)) && !(Value(a) == 0 && a.dataLength > 1)
    ensures r.Ok? ==> Canonical(r.value) && Value(r.value) == -Value(a)
    ensures r.Err? ==> r.error == Overflow
  {
    WellFormedValue(a);
    ValueIsSigned(a);
    if a.dataLength == 1 && a.data[0] == 0 {
      ValSingle(a.data[0]);
      assert a.data[..1] == [a.data[0]];
      return Ok(Zero());
    }
    var data := Complement(a);
    var carry, index := IncrementBuffer(data);
    NegSigns(a, data[..], carry);
    if IsNegative(a) == (data[W - 1] >= SIGN) {
      return Err(Overflow);
    }
    var n := TrimLength(data, W);
    r := Ok(BigInteger(data[..], n));
  }
}
