/**
 * `modPow` of BigInteger.cs: right-to-left square-and-multiply in which
 * every product is reduced by `BarrettReduction` (Handbook of Applied
 * Cryptography, Algorithm 14.42) against a precomputed constant
 * b^(2k) / n, with b = 2^32 and k the number of words of the modulus.
 */
module ModPow {
  import opened Words
  import opened BigInt
  import Numbers
  import Multiply
  import Additive
  import Divide
  import Bits
  import Bitwise

  // ---------------------------------------------------------------------
  // Barrett's estimate of the quotient
  // ---------------------------------------------------------------------

  /**
   * The estimate of BarrettReduction: with D = b^(k-1), E = b^(k+1), a
   * modulus N of k words (D <= N), x < D * E, mu = D * E / N,
   * q1 = x / D and q3 = q1 * mu / E, the estimate q3 undershoots x / N by
   * at most two, so x - q3 * N lies in [0, 3N).
   */
  lemma {:induction false} BarrettBound(X: int, N: int, D: int, E: int, q1: int, s1: int, mu: int, s2: int, q3: int, s3: int)
    requires 0 < D <= N && 0 < E
    requires 0 <= X < D * E
    requires X == q1 * D + s1 && 0 <= s1 < D
    requires D * E == mu * N + s2 && 0 <= s2 < N
    requires q1 * mu == q3 * E + s3 && 0 <= s3 < E
    ensures 0 <= X - q3 * N < 3 * N
  {
    assert 0 <= q1 < E by {
      if q1 < 0 { MulLe(q1, -1, D); }
      if q1 >= E { MulLe(E, q1, D); }
    }
    UpperBound(X, N, D, E, q1, mu, s2, q3);
    LowerBound(X, N, D, E, q1, mu, s2, q3);
  }

  lemma {:induction false} Assoc3(a: int, b: int, c: int)
    ensures (a * b) * c == a * (b * c) && (a * b) * c == (a * c) * b
  {
  }

  /** Cancelling a positive factor from a strict or weak inequality. */
  lemma {:induction false} CancelLe(x: int, y: int, p: int)
    requires p > 0 && x * p <= y * p
    ensures x <= y
  {
    if x > y {
      MulLe(y + 1, x, p);
    }
  }

  lemma {:induction false} UpperBound(X: int, N: int, D: int, E: int, q1: int, mu: int, s2: int, q3: int)
    requires E > 0 && N > 0 && q1 >= 0 && s2 >= 0
    requires q3 * E <= q1 * mu && D * E == mu * N + s2 && q1 * D <= X
    ensures q3 * N <= X
  {
    MulLe(q3 * E, q1 * mu, N);
    Assoc3(q1, mu, N);
    assert q1 * (mu * N) == q1 * (D * E) - q1 * s2;
    MulLe(0, q1, s2);
    Assoc3(q1, D, E);
    MulLe(q1 * D, X, E);
    Assoc3(q3, E, N);
    assert (q3 * N) * E <= X * E;
    CancelLe(q3 * N, X, E);
  }

  lemma {:induction false} QuotientStep(N: int, E: int, A: int, B: int)
    requires N > 0 && A < B + E
    ensures A * N <= B * N + (E - 1) * N
  {
    MulLe(A, B + E - 1, N);
  }

  lemma {:induction false} ConstantStep(q1: int, mu: int, N: int, DE: int, s2: int)
    requires DE == mu * N + s2
    ensures (q1 * mu) * N == q1 * DE - q1 * s2
  {
    Assoc3(q1, mu, N);
  }

  lemma {:induction false} ErrorStep(q1: int, s2: int, N: int, E: int)
    requires 0 <= q1 < E && 0 <= s2 < N
    ensures q1 * s2 <= (E - 1) * N
  {
    MulLe(s2, N, q1);
    MulLe(q1, E - 1, N);
  }

  lemma {:induction false} DividendStep(X: int, q1: int, D: int, E: int)
    requires E > 0 && X < q1 * D + D
    ensures (X + 1 - D) * E <= q1 * (D * E)
  {
    Assoc3(q1, D, E);
    MulLe(X + 1 - D, q1 * D, E);
  }

  lemma {:induction false} LowerBound(X: int, N: int, D: int, E: int, q1: int, mu: int, s2: int, q3: int)
    requires E > 0 && 0 < D <= N && 0 <= q1 < E && 0 <= s2 < N
    requires q1 * mu < q3 * E + E && D * E == mu * N + s2 && X < q1 * D + D
    ensures X < (q3 + 3) * N
  {
    QuotientStep(N, E, q1 * mu, q3 * E);
    ConstantStep(q1, mu, N, D * E, s2);
    ErrorStep(q1, s2, N, E);
    DividendStep(X, q1, D, E);
    MulLe(D, N, E);
    FinalStep(X, N, D, E, q3, q1 * (D * E), q1 * s2, (q1 * mu) * N);
  }

  lemma {:induction false} FinalStep(X: int, N: int, D: int, E: int, q3: int, U: int, V: int, A: int)
    requires E > 0 && N > 0 && D * E <= N * E
    requires A <= (q3 * E) * N + (E - 1) * N && A == U - V && V <= (E - 1) * N
    requires (X + 1 - D) * E <= U
    ensures X < (q3 + 3) * N
  {
    var P := E * N;
    assert (X + 1) * E == (X + 1 - D) * E + D * E;
    assert (E - 1) * N == P - N;
    assert N * E == P;
    assert (q3 * E) * N == q3 * P by {
      Assoc3(q3, E, N);
    }
    assert ((q3 + 3) * N) * E == q3 * P + 3 * P by {
      Assoc3(q3 + 3, N, E);
    }
    Chain((X + 1) * E, (X + 1 - D) * E, D * E, P, N, q3 * P, U, V, A, ((q3 + 3) * N) * E);
    CancelLe(X + 1, (q3 + 3) * N, E);
  }

  /** The linear part of FinalStep, on its products as plain numbers. */
  lemma {:induction false} Chain(xe: int, xde: int, de: int, p: int, n: int, qp: int, u: int, v: int, a: int, r: int)
    requires xe == xde + de && de <= p && xde <= u && a == u - v
    requires a <= qp + p - n && v <= p - n && r == qp + 3 * p && n >= 0
    ensures xe <= r
  {
  }


  // ---------------------------------------------------------------------
  // The word windows of BarrettReduction
  // ---------------------------------------------------------------------

  /**
   * `for (int i = e, j = 0; i < x.dataLength; i++, j++) q.data[j] = x.data[i];`
   * with `q.dataLength = x.dataLength - e`, at least 1: x / b^e.
   */
  method WordsFrom(x: BigInteger, e: int) returns (q: BigInteger)
    requires Canonical(x) && !IsNegative(x) && 0 <= e < W
    ensures Canonical(q) && 0 <= Value(q) == Val(q.data)
    ensures Val(x.data) == Val(x.data[..e]) + Scale(Val(q.data), e)
  {
    var buf, i := CopyFrom(x, e);
    var len := x.dataLength - e;
    if len <= 0 {
      len := 1;
    }
    HighWindow(x.data, buf[..], e, x.dataLength, i, len);
    q := BigInteger(buf[..], len);
    ValSplit(x.data, e);
  }

  /** The copy loop of WordsFrom; i is where it stops. */
  method CopyFrom(x: BigInteger, e: int) returns (buf: array<Word>, i: int)
    requires WellFormed(x) && 0 <= e < W
    ensures fresh(buf) && buf.Length == W
    ensures e <= i && (i == x.dataLength || (i == e && x.dataLength <= e))
    ensures buf[..i - e] == x.data[e..i] && ZerosFrom(buf[..], i - e)
  {
    buf := new Word[W](_ => 0);
    i := e;
    var j := 0;
    while i < x.dataLength
      invariant e <= i && j == i - e && (i <= x.dataLength || i == e)
      invariant buf[..j] == x.data[e..i] && ZerosFrom(buf[..], j)
    {
      buf[j] := x.data[i];
      i, j := i + 1, j + 1;
    }
  }

  /** What the copy loop of WordsFrom leaves in the buffer bs. */
  lemma {:induction false} HighWindow(xs: seq<Word>, bs: seq<Word>, e: nat, xlen: nat, i: nat, len: int)
    requires |xs| == |bs| == W && 1 <= xlen <= W && ZerosFrom(xs, xlen) && (xlen == 1 || xs[xlen - 1] != 0)
    requires e < W && e <= i && (i == xlen || (i == e && xlen <= e))
    requires bs[..i - e] == xs[e..i] && ZerosFrom(bs, i - e)
    requires len == if xlen - e <= 0 then 1 else xlen - e
    requires e == 0 ==> xs[W - 1] < SIGN
    ensures Val(bs) == Val(xs[e..]) && ZerosFrom(bs, len) && (len == 1 || bs[len - 1] != 0)
    ensures bs[W - 1] < SIGN
  {
    var j := i - e;
    assert xs[e..][..j] == xs[e..i] == bs[..j];
    forall t | j <= t < |xs[e..]|
      ensures xs[e..][t] == 0
    {
      assert xs[e..][t] == xs[e + t] && e + t >= xlen;
    }
    ValTrailingZeros(xs[e..], j);
    ValTrailingZeros(bs, j);
    if len > 1 {
      assert bs[..j][len - 1] == xs[e..i][len - 1];
    }
    if e == 0 && xlen == W {
      assert bs[..j][W - 1] == xs[e..i][W - 1];
    }
  }

  /**
   * The copy of the lowest `count` words (fewer when x is shorter), with
   * `dataLength` the number copied: x mod b^count, not trimmed.
   */
  method LowWords(x: BigInteger, count: int) returns (r: BigInteger)
    requires Canonical(x) && 1 <= count < W
    ensures WellFormed(r) && 0 <= Value(r) == Val(r.data) == Val(x.data[..count])
  {
    var len := if x.dataLength > count then count else x.dataLength;
    var buf := new Word[W](_ => 0);
    var i := 0;
    while i < len
      invariant 0 <= i <= len && buf[..i] == x.data[..i] && ZerosFrom(buf[..], i)
    {
      buf[i] := x.data[i];
      i := i + 1;
    }
    r := BigInteger(buf[..], len);
    ValTrailingZeros(buf[..], len);
    assert ZerosFrom(x.data[..count], len) && x.data[..count][..len] == buf[..][..len];
    ValTrailingZeros(x.data[..count], len);
    assert buf[W - 1] == 0;
  }

  /** `new BigInteger()` with `data[e] = 1` and `dataLength = e + 1`: b^e. */
  method UnitAt(e: int) returns (u: BigInteger)
    requires 0 <= e < W - 1
    ensures Canonical(u) && Value(u) == Pow(e) && u.dataLength == e + 1
  {
    var buf := new Word[W](_ => 0);
    ghost var d := buf[..];
    ValZeros(d);
    ValUpdateZero(d, e, 1);
    buf[e] := 1;
    assert buf[..] == d[e := 1];
    u := BigInteger(buf[..], e + 1);
    assert buf[W - 1] == 0;
  }

  // ---------------------------------------------------------------------
  // r2 = (q3 * n) mod b^(k+1): the partial multiplication
  // ---------------------------------------------------------------------

  /**
   * One row of the partial multiplication: xi times y added into the
   * buffer from word i on, dropping every column from `limit` up (the
   * inner loop stops at `t < kPlusOne`, and the final carry is stored only
   * below it).
   */
  method PartialRow(data: array<Word>, xi: Word, y: BigInteger, i: int, limit: int, ghost p: int)
    modifies data
    requires data.Length == W && WellFormed(y) && 0 <= i && 1 <= limit < W
    requires Val(data[..]) == p && ZerosFrom(data[..], i + y.dataLength) && ZerosFrom(data[..], limit)
    ensures ZerosFrom(data[..], i + y.dataLength + 1) && ZerosFrom(data[..], limit)
    ensures Numbers.Congruent(Val(data[..]), p + Scale(xi * Val(y.data), i), Pow(limit))
  {
    var carry, j := RowColumns(data, xi, y, i, limit, p);
    var t := i + j;
    if t < limit {
      ghost var d := data[..];
      var top: Word := carry;
      ValUpdateZero(d, t, top);
      data[t] := top;
      assert data[..] == d[t := top];
      WellFormedValue(y);
      Numbers.CongruentRefl(Val(data[..]), Pow(limit));
    } else {
      RowDropped(Val(data[..]), carry, xi, y.data, i, j, limit, p);
    }
  }

  /** The inner loop of the partial multiplication, up to the last word of y or word `limit`. */
  method RowColumns(data: array<Word>, xi: Word, y: BigInteger, i: int, limit: int, ghost p: int) returns (carry: int, j: int)
    modifies data
    requires data.Length == W && WellFormed(y) && 0 <= i && 1 <= limit < W
    requires Val(data[..]) == p && ZerosFrom(data[..], i + y.dataLength) && ZerosFrom(data[..], limit)
    ensures 0 <= j <= y.dataLength && (j == y.dataLength || i + j >= limit) && 0 <= carry < BASE
    ensures ZerosFrom(data[..], i + y.dataLength) && ZerosFrom(data[..], limit)
    ensures Val(data[..]) + Scale(carry, i + j) == p + Scale(xi * Val(y.data[..j]), i)
  {
    carry := 0;
    j := 0;
    var t := i;
    ScaleZero(i);
    ScaleZero(0);
    assert y.data[..0] == [];
    while j < y.dataLength && t < limit
      invariant 0 <= j <= y.dataLength && t == i + j && 0 <= carry < BASE
      invariant ZerosFrom(data[..], i + y.dataLength) && ZerosFrom(data[..], limit)
      invariant Val(data[..]) + Scale(carry, t) == p + Scale(xi * Val(y.data[..j]), i)
    {
      var v := xi * y.data[j] + data[t] + carry;
      ghost var d := data[..];
      Multiply.MulStep(d, y.data, xi, i, j, carry, p, v);
      var lo: Word := v % BASE;
      data[t] := lo;
      assert data[..] == d[t := lo];
      carry := v / BASE;
      j, t := j + 1, t + 1;
    }
  }

  /**
   * A row cut off at word `limit`: what the buffer misses is the carry and
   * xi times the words of y from j on, all of weight b^limit or more.
   */
  lemma {:induction false} RowDropped(v: int, carry: int, xi: int, ys: seq<Word>, i: nat, j: nat, limit: nat, p: int)
    requires j <= |ys| && i + j >= limit
    requires v + Scale(carry, i + j) == p + Scale(xi * Val(ys[..j]), i)
    ensures Numbers.Congruent(v, p + Scale(xi * Val(ys), i), Pow(limit))
  {
    var rest := Val(ys[j..]);
    RowTail(xi, ys, i, j);
    ScaleAdd(carry, rest * xi, i + j);
    var s := WeightAbove(carry + rest * xi, i + j, limit);
    assert v - (p + Scale(xi * Val(ys), i)) == Pow(limit) * -s;
    Numbers.MulDivides(Pow(limit), -s);
  }

  /** xi times y, at word i, split at word j of y. */
  lemma {:induction false} RowTail(xi: int, ys: seq<Word>, i: nat, j: nat)
    requires j <= |ys|
    ensures Scale(xi * Val(ys), i) == Scale(xi * Val(ys[..j]), i) + Scale(Val(ys[j..]) * xi, i + j)
  {
    ValSplit(ys, j);
    SplitProduct(xi, Val(ys), Val(ys[..j]), Val(ys[j..]), i, j);
  }

  /** xi * (a + r * b^j) at word i, as two weighted terms. */
  lemma {:induction false} SplitProduct(xi: int, v: int, a: int, r: int, i: nat, j: nat)
    requires v == a + Scale(r, j)
    ensures Scale(xi * v, i) == Scale(xi * a, i) + Scale(r * xi, i + j)
  {
    var b := Scale(r, j);
    assert xi * v == xi * a + b * xi;
    ScaleMul(r, xi, j);
    ScaleAdd(xi * a, Scale(r * xi, j), i);
    ScaleScale(r * xi, j, i);
  }

  /** A weight of at least `limit` words is a multiple of b^limit. */
  lemma {:induction false} WeightAbove(c: int, k: nat, limit: nat) returns (s: int)
    requires limit <= k
    ensures Scale(c, k) == Pow(limit) * s
  {
    s := Scale(c, k - limit);
    ScaleScale(c, k - limit, limit);
    ScaleIsMul(s, limit);
  }

  /**
   * `r2 = (q3 * n) mod b^(k+1)`: the rows of the schoolbook product, each
   * cut off at word `limit` (k + 1) and skipped for a zero word of q; then
   * the length is trimmed down from `limit`.
   */
  method PartialProduct(q: BigInteger, n: BigInteger, limit: int) returns (r: BigInteger)
    requires WellFormed(q) && WellFormed(n) && 1 <= limit < W
    ensures Canonical(r) && 0 <= Value(r) == Val(r.data) < Pow(limit)
    ensures Numbers.Congruent(Val(r.data), Val(q.data) * Val(n.data), Pow(limit))
  {
    var data := new Word[W](_ => 0);
    ValZeros(data[..]);
    assert Val(q.data[..0]) == 0 by {
      assert q.data[..0] == [];
    }
    Numbers.CongruentRefl(0, Pow(limit));
    var i := 0;
    while i < q.dataLength
      invariant 0 <= i <= q.dataLength
      invariant ZerosFrom(data[..], i + n.dataLength) && ZerosFrom(data[..], limit)
      invariant Numbers.Congruent(Val(data[..]), Val(q.data[..i]) * Val(n.data), Pow(limit))
    {
      ghost var v := Val(data[..]);
      if q.data[i] != 0 {
        PartialRow(data, q.data[i], n, i, limit, v);
      } else {
        ScaleZero(i);
        Numbers.CongruentRefl(v, Pow(limit));
      }
      Multiply.RowValue(q.data, i, Val(n.data));
      RowCongruent(Val(data[..]), v, Scale(q.data[i] * Val(n.data), i), Val(q.data[..i]) * Val(n.data), Pow(limit));
      i := i + 1;
    }
    var len := TrimLength(data, limit);
    r := BigInteger(data[..], len);
    WellFormedValue(q);
    ValTrailingZeros(data[..], limit);
    ValBound(data[..limit]);
    assert data[W - 1] == 0;
  }

  /** The invariant of PartialProduct carried over one row s. */
  lemma {:induction false} RowCongruent(v': int, v: int, s: int, prefix: int, m: nat)
    requires Numbers.Congruent(v', v + s, m) && Numbers.Congruent(v, prefix, m)
    ensures Numbers.Congruent(v', prefix + s, m)
  {
    assert (v + s) - (prefix + s) == v - prefix;
    Numbers.CongruentTrans(v', v + s, prefix + s, m);
  }

  // ---------------------------------------------------------------------
  // BarrettReduction
  // ---------------------------------------------------------------------

  /** mu is the constant of BarrettReduction for a modulus N of k words: b^(2k) / N. */
  ghost predicate BarrettConstant(mu: int, N: int, k: nat)
  {
    N > 0 && 0 <= Pow(2 * k) - mu * N < N
  }

  /** A positive modulus of k words lies in [b^(k-1), b^k). */
  lemma {:induction false} ModulusWords(n: BigInteger)
    requires Canonical(n) && 0 < Value(n)
    ensures Value(n) == Val(n.data)
    ensures Pow(n.dataLength - 1) <= Val(n.data) < Pow(n.dataLength)
  {
    var k := n.dataLength;
    ValueIsSigned(n);
    ValTrailingZeros(n.data, k);
    ValBound(n.data[..k]);
    if k > 1 {
      ValAtLeast(n.data, k - 1);
    }
  }

  lemma {:induction false} PowBelowHalf(k: nat)
    requires k < W
    ensures Pow(k) <= Half()
  {
    PowMonotone(k, W - 1);
    ScaleMonotone(1, SIGN, W - 1);
  }

  /** The Barrett constant of a modulus of k words is positive and at most b^(k+1). */
  lemma {:induction false} ConstantBounds(mu: int, N: int, k: nat)
    requires 1 <= k && Pow(k - 1) <= N < Pow(k) && BarrettConstant(mu, N, k)
    ensures 0 < mu <= Pow(k + 1)
  {
    var D, E := Pow(k - 1), Pow(k + 1);
    PowAdd(k - 1, k + 1);
    PowMonotone(k, 2 * k);
    if mu <= 0 {
      MulLe(mu, 0, N);
    }
    MulLe(D, N, E);
    assert mu * N <= E * N;
    CancelLe(mu, E, N);
  }

  /** For a modulus of at most 33 words, q1 * mu stays below b^68 and so in range. */
  lemma {:induction false} ProductFits(X: int, k: nat, s1: int, q1: int, mu: int)
    requires 1 <= k <= 33 && 0 <= X < Pow(2 * k) && 0 < mu <= Pow(k + 1)
    requires X == s1 + Scale(q1, k - 1) && 0 <= s1 && 0 <= q1
    ensures InRange(q1 * mu)
  {
    var D, E := Pow(k - 1), Pow(k + 1);
    assert q1 < E by {
      PowAdd(k - 1, k + 1);
      ScaleIsMul(q1, k - 1);
      if q1 >= E {
        MulLe(E, q1, D);
        assert false;
      }
    }
    assert 0 <= q1 * mu < E * E by {
      MulLe(mu, E, q1);
      MulLe(q1, E - 1, E);
      MulLe(0, q1, mu);
    }
    assert E * E <= Half() by {
      PowAdd(k + 1, k + 1);
      PowBelowHalf(2 * k + 2);
    }
  }

  /**
   * The quotient estimate of BarrettReduction: q3 = ((x / b^(k-1)) * mu) / b^(k+1)
   * falls short of x / n by at most two.
   */
  lemma {:induction false} Estimate(X: int, N: int, k: nat, s1: int, q1: int, mu: int, s3: int, q3: int)
    requires 1 <= k && Pow(k - 1) <= N < Pow(k) && 0 <= X < Pow(2 * k)
    requires X == s1 + Scale(q1, k - 1) && 0 <= s1 < Pow(k - 1)
    requires BarrettConstant(mu, N, k)
    requires q1 * mu == s3 + Scale(q3, k + 1) && 0 <= s3 < Pow(k + 1)
    ensures 0 <= X - q3 * N < 3 * N <= Pow(k + 1)
    ensures Numbers.Congruent(X - q3 * N, X, N)
  {
    var D, E := Pow(k - 1), Pow(k + 1);
    assert D * E == Pow(2 * k) by {
      PowAdd(k - 1, k + 1);
    }
    assert X == q1 * D + s1 by {
      ScaleIsMul(q1, k - 1);
    }
    assert q1 * mu == q3 * E + s3 by {
      ScaleIsMul(q3, k + 1);
    }
    BarrettBound(X, N, D, E, q1, s1, mu, Pow(2 * k) - mu * N, q3, s3);
    ModulusRoom(N, k);
    MultipleOff(X, q3, N);
  }

  /** Taking a multiple of N off X leaves a number congruent to X modulo N. */
  lemma {:induction false} MultipleOff(X: int, q: int, N: nat)
    ensures Numbers.Congruent(X - q * N, X, N)
  {
    Numbers.MulDivides(N, -q);
    assert N * -q == (X - q * N) - X;
  }

  lemma {:induction false} ModulusRoom(N: int, k: nat)
    requires N < Pow(k)
    ensures 3 * N <= Pow(k + 1)
  {
    assert Pow(k + 1) == BASE * Pow(k);
  }

  /** x - q3 * n and r1 - r2 agree modulo b^k when r1 = x mod b^k and r2 = q3 * n mod b^k. */
  lemma {:induction false} LowDifference(X: int, lo: int, hi: int, k: nat, r2: int, qn: int)
    requires X == lo + Scale(hi, k) && Numbers.Congruent(r2, qn, Pow(k))
    ensures Numbers.Congruent(lo - r2, X - qn, Pow(k))
  {
    var m := Pow(k);
    ScaleIsMul(hi, k);
    Numbers.CongruentSym(r2, qn, m);
    Numbers.MulDivides(m, 1);
    Numbers.DividesCombination(m, qn - r2, m, hi);
    assert (lo - r2) - (X - qn) == (qn - r2) - hi * m;
  }

  /** The lowest k words of a non-negative x, less r2, stand for x less anything congruent to r2. */
  lemma {:induction false} LowCongruent(x: BigInteger, lo: int, k: nat, r2: int, qn: int)
    requires Canonical(x) && 0 <= Value(x) && k <= W && lo == Val(x.data[..k])
    requires Numbers.Congruent(r2, qn, Pow(k))
    ensures 0 <= lo < Pow(k) && Numbers.Congruent(lo - r2, Value(x) - qn, Pow(k))
  {
    ghost var hi := Val(x.data[k..]);
    assert Value(x) == lo + Scale(hi, k) by {
      ValueIsSigned(x);
      ValSplit(x.data, k);
    }
    assert 0 <= lo < Pow(k) by {
      ValBound(x.data[..k]);
    }
    LowDifference(Value(x), lo, hi, k, r2, qn);
  }

  /**
   * The tail of BarrettReduction: r1 - r2, plus b^k when negative, is the one
   * number in [0, b^k) congruent to r1 - r2.
   */
  method Window(r1: BigInteger, r2: BigInteger, k: int, ghost Y: int) returns (rem: BigInteger)
    requires WellFormed(r1) && WellFormed(r2) && 1 <= k < W - 1
    requires 0 <= Value(r1) < Pow(k) && 0 <= Value(r2) < Pow(k)
    requires 0 <= Y < Pow(k) && Numbers.Congruent(Value(r1) - Value(r2), Y, Pow(k))
    ensures Canonical(rem) && Value(rem) == Y
  {
    ghost var E := Pow(k);
    PowBelowHalf(k);
    var d := Additive.Subtract(r1, r2);
    rem := d.value;
    ValueIsSigned(rem);
    if IsNegative(rem) {
      var v := UnitAt(k);
      var s := Additive.Add(rem, v);
      Numbers.MulDivides(E, 1);
      Numbers.CongruentTrans(Value(rem) + E, Value(rem), Y, E);
      rem := s.value;
    }
    Numbers.CongruentReduced(Value(rem), Y, E);
    Numbers.CongruentRefl(Y, E);
    Numbers.CongruentReduced(Y, Y, E);
  }

  /**
   * `q1 = x / b^(k-1)` and `q2 = q1 * constant` of BarrettReduction; the
   * product overflows only for a modulus of 34 words.
   */
  method TopProduct(x: BigInteger, n: BigInteger, constant: BigInteger)
    returns (q2: Result<BigInteger>, ghost q1: int, ghost s1: int)
    requires Canonical(x) && Canonical(n) && Canonical(constant)
    requires n.dataLength <= 34 && 0 < Value(n) && 0 <= Value(x) < Pow(2 * n.dataLength)
    requires BarrettConstant(Value(constant), Value(n), n.dataLength)
    ensures q2.Err? ==> q2.error == Overflow
    ensures n.dataLength <= 33 ==> q2.Ok?
    ensures Value(x) == s1 + Scale(q1, n.dataLength - 1) && 0 <= s1 < Pow(n.dataLength - 1) && 0 <= q1
    ensures q2.Ok? ==> Canonical(q2.value) && !IsNegative(q2.value)
    ensures q2.Ok? ==> Value(q2.value) == Val(q2.value.data) == q1 * Value(constant)
  {
    var k := n.dataLength;
    ghost var X, N, mu := Value(x), Value(n), Value(constant);
    assert !IsNegative(x) && X == Val(x.data) by {
      ValueIsSigned(x);
    }
    assert Pow(k - 1) <= N < Pow(k) && 0 < mu <= Pow(k + 1) by {
      ModulusWords(n);
      ConstantBounds(mu, N, k);
    }
    var w := WordsFrom(x, k - 1);
    q1, s1 := Value(w), Val(x.data[..k - 1]);
    assert s1 < Pow(k - 1) by {
      ValBound(x.data[..k - 1]);
    }
    q2 := Multiply.Multiply(w, constant);
    if q2.Err? {
      if k <= 33 {
        ProductFits(X, k, s1, q1, mu);
      }
      return;
    }
    assert !IsNegative(q2.value) && Value(q2.value) == Val(q2.value.data) by {
      MulLe(0, q1, mu);
      ValueIsSigned(q2.value);
    }
  }

  /**
   * The quotient estimate of BarrettReduction, `q3 = q2 / b^(k+1)`, which is
   * at most two below x / n.
   */
  method Quotient(x: BigInteger, n: BigInteger, constant: BigInteger) returns (q: Result<BigInteger>)
    requires Canonical(x) && Canonical(n) && Canonical(constant)
    requires n.dataLength <= 34 && 0 < Value(n) && 0 <= Value(x) < Pow(2 * n.dataLength)
    requires BarrettConstant(Value(constant), Value(n), n.dataLength)
    ensures q.Err? ==> q.error == Overflow
    ensures n.dataLength <= 33 ==> q.Ok?
    ensures q.Ok? ==> Canonical(q.value) && 0 <= Value(q.value) == Val(q.value.data)
    ensures q.Ok? ==> 0 <= Value(x) - Value(q.value) * Value(n) < 3 * Value(n) <= Pow(n.dataLength + 1)
  {
    var k := n.dataLength;
    var q2, q1, s1 := TopProduct(x, n, constant);
    if q2.Err? {
      return Err(Overflow);
    }
    var q3 := WordsFrom(q2.value, k + 1);
    ghost var s3 := Val(q2.value.data[..k + 1]);
    assert s3 < Pow(k + 1) by {
      ValBound(q2.value.data[..k + 1]);
    }
    assert Pow(k - 1) <= Value(n) < Pow(k) by {
      ModulusWords(n);
    }
    Estimate(Value(x), Value(n), k, s1, q1, Value(constant), s3, Value(q3));
    q := Ok(q3);
  }

  /** `while (r1 >= n) r1 -= n`: from a non-negative r congruent to X, X mod n. */
  method ReduceBelow(r: BigInteger, n: BigInteger, ghost X: int) returns (rem: BigInteger)
    requires Canonical(r) && Canonical(n) && 0 <= Value(r) && 0 < Value(n)
    requires Numbers.Congruent(Value(r), X, Value(n))
    ensures Canonical(rem) && Value(rem) == X % Value(n)
  {
    ghost var N := Value(n);
    rem := r;
    var ge := GreaterOrEqual(rem, n);
    while ge
      invariant Canonical(rem) && 0 <= Value(rem) && Numbers.Congruent(Value(rem), X, N)
      invariant ge <==> Value(rem) >= N
      decreases Value(rem)
    {
      ValueIsSigned(rem);
      var d := Additive.Subtract(rem, n);
      MultipleOff(Value(rem), 1, N);
      Numbers.CongruentTrans(Value(rem) - N, Value(rem), X, N);
      rem := d.value;
      ge := GreaterOrEqual(rem, n);
    }
    Numbers.CongruentReduced(Value(rem), X, N);
  }

  /**
   * `r1 = x mod b^(k+1)`, `r2 = (q3 * n) mod b^(k+1)`, `r1 -= r2` and
   * `r1 += b^(k+1)` when negative: x - q3 * n exactly, since it lies in [0, b^(k+1)).
   */
  method Correction(x: BigInteger, n: BigInteger, q3: BigInteger) returns (rem: BigInteger)
    requires Canonical(x) && Canonical(n) && Canonical(q3) && 0 <= Value(x) && 0 < Value(n)
    requires n.dataLength <= 34 && 0 <= Value(q3) == Val(q3.data)
    requires 0 <= Value(x) - Value(q3) * Value(n) < Pow(n.dataLength + 1)
    ensures Canonical(rem) && Value(rem) == Value(x) - Value(q3) * Value(n)
  {
    var k := n.dataLength;
    ghost var X, N, Q3 := Value(x), Value(n), Value(q3);
    var r1 := LowWords(x, k + 1);
    var r2 := PartialProduct(q3, n, k + 1);
    assert Value(r1) < Pow(k + 1) && Numbers.Congruent(Value(r1) - Value(r2), X - Q3 * N, Pow(k + 1)) by {
      ModulusWords(n);
      LowCongruent(x, Value(r1), k + 1, Value(r2), Q3 * N);
    }
    rem := Window(r1, r2, k + 1, X - Q3 * N);
  }

  /**
   * `BarrettReduction(x, n, constant)`, which requires x < b^(2k) for the
   * k words of n: it returns x mod n. The product q1 * constant is the one
   * step that can overflow, and only for a modulus of 34 words.
   */
  method Reduce(x: BigInteger, n: BigInteger, constant: BigInteger) returns (r: Result<BigInteger>)
    requires Canonical(x) && Canonical(n) && Canonical(constant)
    requires n.dataLength <= 34 && 0 < Value(n) && 0 <= Value(x) < Pow(2 * n.dataLength)
    requires BarrettConstant(Value(constant), Value(n), n.dataLength)
    ensures r.Err? ==> r.error == Overflow
    ensures n.dataLength <= 33 ==> r.Ok?
    ensures r.Ok? ==> Canonical(r.value) && Value(r.value) == Value(x) % Value(n)
  {
    var k := n.dataLength;
    ghost var X, N := Value(x), Value(n);
    ValueIsSigned(x);
    var q3 := Quotient(x, n, constant);
    if q3.Err? {
      return Err(Overflow);
    }
    var rem := Correction(x, n, q3.value);
    assert Numbers.Congruent(Value(rem), X, N) by {
      MultipleOff(X, Value(q3.value), N);
    }
    rem := ReduceBelow(rem, n, X);
    r := Ok(rem);
  }

  /** `BarrettReduction(x * y, n, constant)` for x <= n and y < n, as modPow's loop calls it. */
  method MulMod(x: BigInteger, y: BigInteger, n: BigInteger, constant: BigInteger) returns (r: Result<BigInteger>)
    requires Canonical(x) && Canonical(y) && Canonical(n) && Canonical(constant)
    requires n.dataLength <= 34 && 0 <= Value(x) <= Value(n) && 0 <= Value(y) < Value(n)
    requires BarrettConstant(Value(constant), Value(n), n.dataLength)
    ensures r.Err? ==> r.error == Overflow
    ensures n.dataLength <= 33 ==> r.Ok?
    ensures r.Ok? ==> Canonical(r.value) && Value(r.value) == (Value(x) * Value(y)) % Value(n)
  {
    assert 0 <= Value(x) * Value(y) < Pow(2 * n.dataLength) <= Half() by {
      ModulusWords(n);
      ProductBelow(Value(x), Value(y), Value(n), n.dataLength);
    }
    var p := Multiply.Multiply(x, y);
    r := Reduce(p.value, n, constant);
  }

  /** x <= N and y < N give x * y < b^(2k) for a modulus N below b^k, k <= 34. */
  lemma {:induction false} ProductBelow(x: int, y: int, N: int, k: nat)
    requires 0 <= x <= N && 0 <= y < N && k <= 34 && N < Pow(k)
    ensures 0 <= x * y < Pow(2 * k) <= Half()
  {
    assert 0 <= x * y <= N * y by {
      MulLe(x, N, y);
      MulLe(0, x, y);
    }
    assert N * y < N * N by {
      MulLe(y, N - 1, N);
    }
    assert N * N <= Pow(k) * Pow(k) by {
      MulLe(N, Pow(k), N);
      MulLe(N, Pow(k), Pow(k));
    }
    PowAdd(k, k);
    PowBelowHalf(2 * k);
  }

  // ---------------------------------------------------------------------
  // Square-and-multiply
  // ---------------------------------------------------------------------

  /** x mod 2^k is the low bit of x plus twice (x / 2) mod 2^(k-1). */
  lemma {:induction false} ModHalf(x: nat, k: nat)
    requires k > 0
    ensures x % Pow2(k) == 2 * ((x / 2) % Pow2(k - 1)) + x % 2
  {
    var p := Pow2(k - 1);
    var q, r := (x / 2) / p, (x / 2) % p;
    assert x / 2 == q * p + r;
    assert x == q * (2 * p) + (2 * r + x % 2);
    DivModUnique(x, 2 * p, q, 2 * r + x % 2);
  }

  /** The exponent bits below k + 1 are those below k and bit k, weighted 2^k. */
  lemma {:induction false} LowBits(x: nat, k: nat)
    ensures x % Pow2(k + 1) == x % Pow2(k) + (if Bits.Bit(x, k) then Pow2(k) else 0)
  {
    if k > 0 {
      LowBits(x / 2, k - 1);
      ModHalf(x, k + 1);
      ModHalf(x, k);
    }
  }

  /**
   * What modPow's loop keeps after its first c exponent bits, for the base b
   * and the exponent E modulo N: tempNum is b^(2^c) reduced, and resultNum is
   * b^(E mod 2^c) reduced, or still the initial 1 when no bit was set.
   */
  ghost predicate Progress(res: int, tmp: int, b: int, E: nat, N: nat, c: nat)
  {
    0 <= tmp < N && Numbers.Congruent(tmp, Numbers.Power(b, Pow2(c)), N) &&
    Numbers.Congruent(res, Numbers.Power(b, E % Pow2(c)), N) &&
    (if E % Pow2(c) == 0 then res == 1 else 0 <= res < N)
  }

  lemma {:induction false} ProgressStart(b: int, E: nat, N: nat)
    requires 0 <= b < N
    ensures Progress(1, b, b, E, N, 0)
  {
    assert Numbers.Power(b, 1) == b * Numbers.Power(b, 0);
    Numbers.CongruentRefl(b, N);
    Numbers.CongruentRefl(1, N);
  }

  /** One pass of the inner loop: multiply when bit c of E is set, then square. */
  lemma {:induction false} ProgressStep(res: int, res': int, tmp: int, tmp': int, b: int, E: nat, N: nat, c: nat)
    requires Progress(res, tmp, b, E, N, c)
    requires res' == (if Bits.Bit(E, c) then (res * tmp) % N else res) && tmp' == (tmp * tmp) % N
    ensures Progress(res', tmp', b, E, N, c + 1)
  {
    var P, L := Pow2(c), E % Pow2(c);
    LowBits(E, c);
    Numbers.ModCongruent(tmp * tmp, N);
    Numbers.CongruentMul(tmp, Numbers.Power(b, P), tmp, Numbers.Power(b, P), N);
    Numbers.PowerAdd(b, P, P);
    Numbers.CongruentTrans(tmp', tmp * tmp, Numbers.Power(b, P + P), N);
    if Bits.Bit(E, c) {
      Numbers.ModCongruent(res * tmp, N);
      Numbers.CongruentMul(res, Numbers.Power(b, L), tmp, Numbers.Power(b, P), N);
      Numbers.PowerAdd(b, L, P);
      Numbers.CongruentTrans(res', res * tmp, Numbers.Power(b, L + P), N);
    }
  }

  /** tempNum reaching 1 makes every further square 1: resultNum is already b^E mod N. */
  lemma {:induction false} EarlyExit(res: int, tmp: int, b: int, E: nat, N: nat, c: nat)
    requires Progress(res, tmp, b, E, N, c) && tmp == 1
    ensures res == Numbers.Power(b, E) % N && (E == 0 ==> res == 1)
  {
    var P, L := Pow2(c), E % Pow2(c);
    Bits.DivNonNegative(E, P);
    var q: nat := E / P;
    var low, t := Numbers.Power(b, L), Numbers.Power(b, P);
    var high := Numbers.Power(t, q);
    assert E == L + P * q;
    assert Numbers.Power(b, E) == low * high by {
      Numbers.PowerAdd(b, L, P * q);
      Numbers.PowerMul(b, P, q);
    }
    assert Numbers.Congruent(high, 1, N) by {
      Numbers.CongruentSym(1, t, N);
      Numbers.CongruentPower(t, 1, q, N);
      Numbers.PowerOfOne(q);
    }
    Numbers.CongruentSym(res, low, N);
    Numbers.CongruentMul(low, res, high, 1, N);
    Numbers.CongruentSym(low * high, res, N);
    Numbers.CongruentReduced(res, low * high, N);
  }

  /** Once every significant bit is consumed, resultNum is b^E mod N, or 1 for E = 0. */
  lemma {:induction false} LadderEnd(res: int, tmp: int, b: int, E: nat, N: nat, c: nat)
    requires Progress(res, tmp, b, E, N, c) && E < Pow2(c)
    ensures E == 0 ==> res == 1
    ensures E > 0 ==> res == Numbers.Power(b, E) % N
  {
    DivModUnique(E, Pow2(c), 0, E);
    if E > 0 {
      Numbers.CongruentReduced(res, Numbers.Power(b, E), N);
    }
  }

  /** The test `dataLength == 1 && data[0] == 1` on a non-negative number is the test for 1. */
  lemma {:induction false} IsOne(a: BigInteger)
    requires Canonical(a) && 0 <= Value(a)
    ensures (a.dataLength == 1 && a.data[0] == 1) <==> Value(a) == 1
  {
    ValueIsSigned(a);
    if a.dataLength == 1 || Val(a.data) < BASE {
      SingleWord(a);
    }
  }

  /** The bit count of a non-negative exponent ends in its top word. */
  lemma {:induction false} ExponentBits(exp: BigInteger, bits: int)
    requires Canonical(exp) && 0 <= Value(exp) && 1 <= bits
    requires Val(exp.data) < Pow2(bits) && (bits == 1 || Pow2(bits - 1) <= Val(exp.data))
    ensures Value(exp) == Val(exp.data) && Value(exp) < Pow2(bits)
    ensures 32 * (exp.dataLength - 1) < bits <= 32 * exp.dataLength
  {
    var len, v := exp.dataLength, Val(exp.data);
    assert Value(exp) == v by {
      ValueIsSigned(exp);
    }
    assert v < Pow2(32 * len) by {
      WellFormedValue(exp);
      ValBound(exp.data[..len]);
      PowIsPow2(len);
    }
    if bits > 32 * len {
      Pow2Monotone(32 * len, bits - 1);
    }
    if len > 1 {
      assert Pow2(32 * (len - 1)) <= v by {
        ValAtLeast(exp.data, len - 1);
        PowIsPow2(len - 1);
      }
      if bits <= 32 * (len - 1) {
        Pow2Monotone(bits, 32 * (len - 1));
      }
    }
  }

  /** `(exp.data[pos] & mask) != 0` for mask = 2^index tests bit 32 * pos + index of exp. */
  lemma {:induction false} ExponentBit(exp: BigInteger, pos: int, index: int)
    requires Canonical(exp) && 0 <= Value(exp) && 0 <= pos < W && 0 <= index < 32
    ensures Bits.And(exp.data[pos], Pow2(index)) != 0 <==> Bits.Bit(Value(exp), 32 * pos + index)
  {
    ValueIsSigned(exp);
    Bits.MaskTest(exp.data[pos], index);
    Bits.ValBit(exp.data, pos, index);
  }

  /** `mask <<= 1` on a `uint` holding 2^index. */
  lemma {:induction false} MaskShift(mask: int, index: nat)
    requires index < 32 && mask == Pow2(index)
    ensures (mask * 2) % BASE == if index + 1 < 32 then Pow2(index + 1) else 0
  {
    Pow2Of32();
    if index < 31 {
      Pow2Monotone(index + 1, 31);
    } else {
      assert Pow2(31) * 2 == Pow2(32);
    }
  }

  /**
   * One pass of modPow's inner loop: `resultNum = BarrettReduction(resultNum * tempNum, ...)`
   * when the exponent bit is set, then `tempNum = BarrettReduction(tempNum * tempNum, ...)`.
   */
  method LadderStep(res: BigInteger, tmp: BigInteger, bit: bool, n: BigInteger, constant: BigInteger,
                    ghost B: int, ghost E: nat, ghost c: nat, ghost next: nat)
    returns (r: Result<(BigInteger, BigInteger)>)
    requires Canonical(res) && Canonical(tmp) && Canonical(n) && Canonical(constant)
    requires n.dataLength <= 34 && BarrettConstant(Value(constant), Value(n), n.dataLength)
    requires Progress(Value(res), Value(tmp), B, E, Value(n), c) && bit == Bits.Bit(E, c) && next == c + 1
    ensures r.Err? ==> r.error == Overflow
    ensures n.dataLength <= 33 ==> r.Ok?
    ensures r.Ok? ==> Canonical(r.value.0) && Canonical(r.value.1)
    ensures r.Ok? ==> Progress(Value(r.value.0), Value(r.value.1), B, E, Value(n), next)
  {
    var next := res;
    if bit {
      var p := MulMod(res, tmp, n, constant);
      if p.Err? {
        return Err(Overflow);
      }
      next := p.value;
    }
    var s := MulMod(tmp, tmp, n, constant);
    if s.Err? {
      return Err(Overflow);
    }
    ProgressStep(Value(res), Value(next), Value(tmp), Value(s.value), B, E, Value(n), c);
    r := Ok((next, s.value));
  }

  /** Where the inner loop of modPow leaves off: an early return, or the state for the next word. */
  datatype Scan = Done(result: BigInteger) | More(res: BigInteger, tmp: BigInteger, count: int)

  /**
   * The loops of modPow over the bits of exp, from the least significant
   * one up to its bit count, for a base b already reduced modulo n.
   */
  method Ladder(b: BigInteger, exp: BigInteger, n: BigInteger, constant: BigInteger) returns (r: Result<BigInteger>)
    requires Canonical(b) && Canonical(exp) && Canonical(n) && Canonical(constant)
    requires 0 <= Value(exp) && 0 <= Value(b) < Value(n) && n.dataLength <= 34
    requires BarrettConstant(Value(constant), Value(n), n.dataLength)
    ensures r.Err? ==> r.error == Overflow
    ensures n.dataLength <= 33 ==> r.Ok?
    ensures r.Ok? ==> Canonical(r.value)
    ensures r.Ok? && Value(exp) == 0 ==> Value(r.value) == 1
    ensures r.Ok? && Value(exp) > 0 ==> Value(r.value) == Numbers.Power(Value(b), Value(exp)) % Value(n)
  {
    ghost var B, E, N := Value(b), Value(exp), Value(n);
    var totalBits, _ := Bitwise.BitCount(exp);
    ExponentBits(exp, totalBits);
    var res := UnitAt(0);
    var tmp := b;
    ProgressStart(B, E, N);
    var count := 0;
    var pos := 0;
    while pos < exp.dataLength
      invariant 0 <= pos <= exp.dataLength
      invariant if pos < exp.dataLength then count == 32 * pos else count == totalBits
      invariant Canonical(res) && Canonical(tmp) && Progress(Value(res), Value(tmp), B, E, N, count)
    {
      var scan := LadderWord(exp, pos, res, tmp, count, totalBits, n, constant, B);
      if scan.Err? {
        return Err(Overflow);
      }
      if scan.value.Done? {
        return Ok(scan.value.result);
      }
      res, tmp, count := scan.value.res, scan.value.tmp, scan.value.count;
      pos := pos + 1;
    }
    LadderEnd(Value(res), Value(tmp), B, E, N, count);
    r := Ok(res);
  }

  /**
   * The inner loop of modPow over the 32 bits of `exp.data[pos]`, with its
   * early return when tempNum reaches 1 and its `break` at the bit count.
   */
  method LadderWord(exp: BigInteger, pos: int, res: BigInteger, tmp: BigInteger, count: int, totalBits: int,
                    n: BigInteger, constant: BigInteger, ghost B: int)
    returns (r: Result<Scan>)
    requires Canonical(exp) && Canonical(res) && Canonical(tmp) && Canonical(n) && Canonical(constant)
    requires 0 <= pos < exp.dataLength && count == 32 * pos < totalBits && 0 <= Value(exp) < Pow2(totalBits)
    requires 0 < Value(n) && n.dataLength <= 34 && BarrettConstant(Value(constant), Value(n), n.dataLength)
    requires Progress(Value(res), Value(tmp), B, Value(exp), Value(n), count)
    ensures r.Err? ==> r.error == Overflow
    ensures n.dataLength <= 33 ==> r.Ok?
    ensures r.Ok? && r.value.Done? ==> Canonical(r.value.result)
    ensures r.Ok? && r.value.Done? && Value(exp) == 0 ==> Value(r.value.result) == 1
    ensures r.Ok? && r.value.Done? ==> Value(r.value.result) == Numbers.Power(B, Value(exp)) % Value(n)
    ensures r.Ok? && r.value.More? ==> Canonical(r.value.res) && Canonical(r.value.tmp)
    ensures r.Ok? && r.value.More? ==>
      count < r.value.count <= count + 32 && (r.value.count == totalBits || r.value.count == count + 32 < totalBits)
    ensures r.Ok? && r.value.More? ==>
      Progress(Value(r.value.res), Value(r.value.tmp), B, Value(exp), Value(n), r.value.count)
  {
    ghost var E, N := Value(exp), Value(n);
    var res, tmp, count := res, tmp, count;
    var mask: Word := 1;
    var index := 0;
    while index < 32
      invariant 0 <= index <= 32 && count == 32 * pos + index < totalBits
      invariant index < 32 ==> mask == Pow2(index)
      invariant Canonical(res) && Canonical(tmp) && Progress(Value(res), Value(tmp), B, E, N, count)
    {
      ExponentBit(exp, pos, index);
      var next := count + 1;
      var step := LadderStep(res, tmp, Bits.And(exp.data[pos], mask) != 0, n, constant, B, E, count, next);
      if step.Err? {
        return Err(Overflow);
      }
      res, tmp := step.value.0, step.value.1;
      MaskShift(mask, index);
      mask := (mask * 2) % BASE;
      assert index + 1 < 32 ==> mask == Pow2(index + 1);
      IsOne(tmp);
      if tmp.dataLength == 1 && tmp.data[0] == 1 {
        EarlyExit(Value(res), Value(tmp), B, E, N, next);
        return Ok(Done(res));
      }
      count := next;
      if count == totalBits {
        return Ok(More(res, tmp, count));
      }
      index := index + 1;
    }
    r := Ok(More(res, tmp, count));
  }

  // ---------------------------------------------------------------------
  // modPow
  // ---------------------------------------------------------------------

  /** `-this % n` for a negative this and `this % n` otherwise: |this| reduced modulo |n|. */
  method BaseResidue(a: BigInteger, n: BigInteger) returns (t: Result<BigInteger>)
    requires Canonical(a) && Canonical(n)
    ensures t.Err? ==> t.error in {Overflow, DivideByZero, CapacityExceeded, IndexOutOfRange}
    ensures t.Ok? ==> Canonical(t.value)
    ensures Value(a) == Divide.MinValue() || Value(n) == Divide.MinValue() ==> t == Err(Overflow)
    ensures Value(a) != Divide.MinValue() && Value(n) == 0 ==> t == Err(DivideByZero)
    ensures Value(a) != Divide.MinValue() && Value(n) != 0 && Divide.ShortDivisor(Value(n)) ==>
      t.Ok? && Value(t.value) == Abs(Value(a)) % Abs(Value(n))
  {
    ValueIsSigned(a);
    var m := a;
    if IsNegative(a) {
      var neg := Additive.Negate(a);
      if neg.Err? {
        return Err(Overflow);
      }
      m := neg.value;
    }
    t := Divide.Remainder(m, n);
    if Value(n) != 0 {
      RemainderOfMagnitude(Value(m), Value(n));
    }
  }

  /** The truncating remainder of a non-negative x is x mod |y|. */
  lemma {:induction false} RemainderOfMagnitude(x: int, y: int)
    requires 0 <= x && y != 0
    ensures Divide.Rem(x, y) == x % Abs(y)
  {
    Divide.SignedQuot(x, y, x / Abs(y), x % Abs(y));
  }

  /**
   * `constant = b^(2k) / n` for a modulus of k words, built as a buffer with
   * `data[2k] = 1`: the index is out of range once 2k reaches 70.
   */
  method BarrettSetup(n: BigInteger) returns (c: Result<BigInteger>)
    requires Canonical(n) && 0 < Value(n)
    ensures c.Err? <==> 2 * n.dataLength >= W
    ensures c.Err? ==> c.error == IndexOutOfRange
    ensures c.Ok? ==> Canonical(c.value) && Value(c.value) == Pow(2 * n.dataLength) / Value(n)
    ensures c.Ok? ==> BarrettConstant(Value(c.value), Value(n), n.dataLength)
  {
    var i := 2 * n.dataLength;
    if i >= W {
      return Err(IndexOutOfRange);
    }
    var u := UnitAt(i);
    ModulusSize(n, Value(n));
    c := Divide.Divide(u, n);
    ConstantOf(Pow(i), Value(n), n.dataLength);
  }

  lemma {:induction false} ConstantOf(P: int, N: int, k: nat)
    requires 0 < N && P == Pow(2 * k)
    ensures Divide.Quot(P, N) == P / N && BarrettConstant(P / N, N, k)
  {
    DivModUnique(P, N, P / N, P % N);
  }

  /** A modulus m = |nv| of at most 34 words is a short divisor; below b^33 it has at most 33 words. */
  lemma {:induction false} ModulusSize(m: BigInteger, nv: int)
    requires Canonical(m) && 0 < Value(m) == Abs(nv)
    ensures m.dataLength <= 34 ==> Divide.ShortDivisor(nv) && nv != Divide.MinValue()
    ensures Abs(nv) < Pow(33) ==> m.dataLength <= 33
  {
    ModulusWords(m);
    ValueIsSigned(m);
    if m.dataLength <= 34 {
      PowMonotone(m.dataLength, W - 2);
    }
    if m.dataLength > 33 {
      PowMonotone(33, m.dataLength - 1);
    }
  }

  /** modPow's sign: negative exactly for a negative base and an odd exponent, as the truncating remainder is. */
  lemma {:induction false} SignedPower(B: int, E: nat, nv: int, v: int)
    requires nv != 0 && v == Numbers.Power(Abs(B) % Abs(nv), E) % Abs(nv)
    ensures Divide.Rem(Numbers.Power(B, E), nv) == if B < 0 && E % 2 == 1 then -v else v
  {
    var N := Abs(nv);
    var P := Numbers.Power(Abs(B), E);
    var x := Numbers.Power(B, E);
    assert v == P % N by {
      ReducedPower(Abs(B), E, N);
    }
    PowerSign(B, E);
    RemainderSign(x, nv);
  }

  /** |b^E| is |b|^E, and b^E is negative only for a negative b and an odd E. */
  lemma {:induction false} PowerSign(b: int, E: nat)
    ensures b < 0 && E % 2 == 1 ==> Numbers.Power(b, E) == -Numbers.Power(Abs(b), E)
    ensures !(b < 0 && E % 2 == 1) ==> Numbers.Power(b, E) == Numbers.Power(Abs(b), E)
    ensures Numbers.Power(Abs(b), E) >= 0
  {
    Numbers.PowerNonNegative(Abs(b), E);
    if b < 0 {
      Numbers.PowerNegate(Abs(b), E);
    }
  }

  /** The truncating remainder is |x| mod |y| with the sign of x. */
  lemma {:induction false} RemainderSign(x: int, y: int)
    requires y != 0
    ensures Divide.Rem(x, y) == if x < 0 then -(Abs(x) % Abs(y)) else Abs(x) % Abs(y)
  {
    Divide.SignedQuot(x, y, Abs(x) / Abs(y), Abs(x) % Abs(y));
  }

  /** Reducing the base first does not change b^E mod N. */
  lemma {:induction false} ReducedPower(b: int, E: nat, N: nat)
    requires N > 0
    ensures Numbers.Power(b % N, E) % N == Numbers.Power(b, E) % N
  {
    Numbers.ModCongruent(b, N);
    Numbers.CongruentPower(b % N, b, E, N);
    Numbers.CongruentMod(Numbers.Power(b % N, E), Numbers.Power(b, E), N);
  }

  /** `return -resultNum` for a negative base and an odd exponent, `resultNum` otherwise. */
  method ApplySign(res: BigInteger, negative: bool, exp: BigInteger) returns (r: BigInteger)
    requires Canonical(res) && Canonical(exp) && 0 <= Value(res) && 0 <= Value(exp)
    ensures Canonical(r)
    ensures Value(r) == if negative && Value(exp) % 2 == 1 then -Value(res) else Value(res)
  {
    ExponentBit(exp, 0, 0);
    if negative && Bits.And(exp.data[0], 1) != 0 {
      assert Value(res) < Half() && (Value(res) == 0 ==> res.dataLength == 1) by {
        ValueIsSigned(res);
        CanonicalZero(res);
      }
      var neg := Additive.Negate(res);
      r := neg.value;
    } else {
      r := res;
    }
  }

  /** `if (n is negative) n = -n` of modPow, for a modulus that is neither 0 nor the minimum. */
  method Magnitude(n: BigInteger) returns (m: BigInteger)
    requires Canonical(n) && Value(n) != 0 && Value(n) != Divide.MinValue()
    ensures Canonical(m) && 0 < Value(m) == Abs(Value(n))
  {
    ValueIsSigned(n);
    m := n;
    if IsNegative(n) {
      var neg := Additive.Negate(n);
      m := neg.value;
    }
  }

  /**
   * `this.modPow(exp, n)`: this^exp mod n by square-and-multiply with Barrett
   * reduction, for a non-negative exponent; the result has the sign of the
   * truncating remainder, negative for a negative base and an odd exponent.
   */
  method ModPow(base: BigInteger, exp: BigInteger, n: BigInteger) returns (r: Result<BigInteger>)
    requires Canonical(base) && Canonical(exp) && Canonical(n)
    ensures Value(exp) < 0 ==> r == Err(InvalidExponent)
    ensures r.Err? ==> r.error in {InvalidExponent, Overflow, DivideByZero, CapacityExceeded, IndexOutOfRange}
    ensures r.Err? && r.error == InvalidExponent ==> Value(exp) < 0
    ensures 0 <= Value(exp) && Value(base) != Divide.MinValue() && Value(n) == 0 ==> r == Err(DivideByZero)
    ensures 0 <= Value(exp) && Value(base) != Divide.MinValue() && 0 < Abs(Value(n)) < Pow(33) ==> r.Ok?
    ensures r.Ok? ==> Canonical(r.value) && (Value(exp) == 0 ==> Value(r.value) == 1)
    ensures r.Ok? ==> Value(n) != 0 && Divide.ShortDivisor(Value(n))
    ensures r.Ok? && 0 < Value(exp) ==>
      Value(r.value) == Divide.Rem(Numbers.Power(Value(base), Value(exp)), Value(n))
  {
    ValueIsSigned(exp);
    if IsNegative(exp) {
      return Err(InvalidExponent);
    }
    var negative := IsNegative(base);
    var t := BaseResidue(base, n);
    if Abs(Value(n)) < Pow(33) {
      PowMonotone(33, W - 2);
    }
    if t.Err? {
      return Err(t.error);
    }
    var m := Magnitude(n);
    ModulusSize(m, Value(n));
    var constant := BarrettSetup(m);
    if constant.Err? {
      return Err(IndexOutOfRange);
    }
    var res := Ladder(t.value, exp, m, constant.value);
    if res.Err? {
      return Err(Overflow);
    }
    var signed := ApplySign(res.value, negative, exp);
    r := Ok(signed);
    if 0 < Value(exp) {
      assert Value(signed) == Divide.Rem(Numbers.Power(Value(base), Value(exp)), Value(n)) by {
        ValueIsSigned(base);
        SignedPower(Value(base), Value(exp), Value(n), Value(res.value));
      }
    }
  }
}
