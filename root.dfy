/**
 * The integer square root `sqrt()` of BigInteger.cs: the result is built
 * bit by bit from the top, guessing each bit and undoing the guess when the
 * square of the guess exceeds the operand.
 */
module Root {
  import opened Words
  import opened BigInt
  import opened Bits
  import Bitwise
  import Multiply

  // ---------------------------------------------------------------------
  // The integer square root
  // ---------------------------------------------------------------------

  /** s is the integer square root of n: s * s <= n < (s + 1) * (s + 1). */
  ghost predicate IsRoot(n: int, s: int)
  {
    0 <= s && s * s <= n < (s + 1) * (s + 1)
  }

  /** A reference root, from the root of n / 4. */
  ghost function Isqrt(n: nat): nat
    decreases n
  {
    if n == 0 then 0
    else if n < 4 then 1
    else
      var t := 2 * Isqrt(n / 4);
      if (t + 1) * (t + 1) <= n then t + 1 else t
  }

  lemma {:induction false} IsqrtIsRoot(n: nat)
    ensures IsRoot(n, Isqrt(n))
    decreases n
  {
    if n >= 4 {
      IsqrtIsRoot(n / 4);
      DoubleRoot(n, Isqrt(n / 4));
    }
  }

  /** Twice the root of n / 4 is the root of n or one below it. */
  lemma {:induction false} DoubleRoot(n: nat, s: nat)
    requires IsRoot(n / 4, s)
    ensures 2 * s * (2 * s) <= n < (2 * s + 2) * (2 * s + 2)
  {
    var q := n / 4;
    assert 2 * s * (2 * s) == 4 * (s * s);
    assert (2 * s + 2) * (2 * s + 2) == 4 * ((s + 1) * (s + 1));
    assert q + 1 <= (s + 1) * (s + 1);
    assert n < 4 * (q + 1);
  }

  /**
   * The root is "the largest integer n such that n * n <= this": a
   * non-negative x has x * x <= n exactly when x is at most the root.
   */
  lemma {:induction false} RootLargest(n: int, s: int, x: int)
    requires IsRoot(n, s) && x >= 0
    ensures x * x <= n <==> x <= s
  {
    if x <= s {
      MulLe(x, s, x);
      MulLe(x, s, s);
    } else {
      MulLe(s + 1, x, s + 1);
      MulLe(s + 1, x, x);
    }
  }

  /** A root is no larger than its square. */
  lemma {:induction false} RootAtMost(n: int, s: int)
    requires IsRoot(n, s)
    ensures s <= n
  {
    if s > 0 {
      MulLe(1, s, s);
    }
  }

  // ---------------------------------------------------------------------
  // The root with its low bits cleared
  // ---------------------------------------------------------------------

  /** s with bits 0 .. q - 1 cleared. */
  ghost function Cleared(s: nat, q: nat): nat
  {
    if q == 0 then s else 2 * Cleared(s / 2, q - 1)
  }

  /** Clearing q bits rounds down to a multiple of 2^q. */
  lemma {:induction false} ClearedIsMul(s: nat, q: nat)
    ensures Cleared(s, q) == s / Pow2(q) * Pow2(q)
  {
    if q > 0 {
      ClearedIsMul(s / 2, q - 1);
      DivDiv(s, 2, Pow2(q - 1));
      MulAssoc(2, s / Pow2(q), Pow2(q - 1));
    }
  }

  /** Squaring keeps the order of non-negative numbers. */
  lemma {:induction false} SquareLe(x: int, y: int)
    requires 0 <= x <= y
    ensures x * x <= y * y
  {
    MulLe(x, y, x);
    MulLe(x, y, y);
  }

  /**
   * Deciding bit p: with the bits above p already those of s, the guess
   * with bit p set is at most s exactly when s has bit p set, and then it
   * is s cleared below p.
   */
  lemma {:induction false} ClearedStep(s: nat, p: nat)
    ensures var g := Cleared(s, p + 1) + Pow2(p);
      && (g <= s ==> Cleared(s, p) == g)
      && (g > s ==> Cleared(s, p) == Cleared(s, p + 1))
  {
    if p > 0 {
      ClearedStep(s / 2, p - 1);
    }
  }

  /** Bit p of a multiple of 2^(p + 1) is clear. */
  lemma {:induction false} MultipleBit(t: nat, p: nat)
    ensures !Bit(t * Pow2(p + 1), p)
  {
    if p > 0 {
      MultipleBit(t, p - 1);
      assert t * Pow2(p + 1) / 2 == t * Pow2(p) by {
        MulAssoc(t, 2, Pow2(p));
      }
    } else {
      assert t * Pow2(1) == 2 * t;
    }
  }

  /** No guess at or below bit m of a root below 2^m exceeds 2^m. */
  lemma {:induction false} GuessBound(s: nat, p: nat, m: nat)
    requires s < Pow2(m) && p <= m
    ensures Cleared(s, p + 1) + Pow2(p) <= Pow2(m)
  {
    if p > 0 {
      GuessBound(s / 2, p - 1, m - 1);
    }
  }

  /** A value of at least 2^q keeps 2^q when its low q bits are cleared. */
  lemma {:induction false} ClearedLower(s: nat, q: nat)
    requires s >= Pow2(q)
    ensures Cleared(s, q) >= Pow2(q)
  {
    ClearedIsMul(s, q);
    MulLe(1, s / Pow2(q), Pow2(q));
  }

  // ---------------------------------------------------------------------
  // The algorithm
  // ---------------------------------------------------------------------

  /**
   * `sqrt()`: numBits is half the bit count rounded up; the first guess is
   * bit numBits (bit numBits - 1 when numBits is a multiple of 32, with the
   * mask 0x80000000), and dataLength covers the word that holds it. Each
   * guess is squared with `*`, which throws when the square leaves the
   * range; below 2^2238 it never does.
   */
  method Sqrt(a: BigInteger) returns (r: Result<BigInteger>)
    requires Canonical(a) && Value(a) >= 0
    ensures r.Ok? ==> Canonical(r.value) && IsRoot(Value(a), Value(r.value))
    ensures Value(a) < Pow2(32 * W - 2) ==> r.Ok?
    ensures r.Err? ==> r.error == Overflow
  {
    var bytePos, mask, j, s, m := FirstGuess(a);
    var data := new Word[W](_ => 0);
    Start(data[..], bytePos, j, s, m);
    var ok := Guesses(data, bytePos, mask, a, j, s, m);
    if !ok {
      return Err(Overflow);
    }
    Finished(data[..], bytePos, -1, 31, s, m);
    var result := BigInteger(data[..], bytePos);
    ValueIsSigned(a);
    RootAtMost(Value(a), s);
    ValueIsSigned(result);
    r := Ok(result);
  }

  /** The outer loop of `sqrt()`: words bytePos - 1 down to 0. */
  method Guesses(data: array<Word>, bytePos: int, mask0: int, a: BigInteger, ghost j0: int, ghost s: nat, ghost m: nat)
    returns (ok: bool)
    requires Building(data[..], bytePos, bytePos - 1, j0, s, m) && 0 <= j0 && mask0 == Pow2(j0)
    requires Canonical(a) && Value(a) >= 0 && IsRoot(Value(a), s)
    modifies data
    ensures ok ==> Building(data[..], bytePos, -1, 31, s, m)
    ensures 2 * m <= 32 * W - 2 ==> ok
  {
    var i := bytePos - 1;
    var mask := mask0;
    ghost var j := j0;
    SignIsPow2();
    while i >= 0
      invariant Building(data[..], bytePos, i, j, s, m) && 0 <= j && mask == Pow2(j)
      decreases i
    {
      ok := GuessWord(data, bytePos, i, mask, a, s, j, m);
      if !ok {
        return;
      }
      mask := SIGN;
      j := 31;
      i := i - 1;
    }
    ok := true;
  }

  /**
   * The start of `sqrt()`: numBits = ceil(bitCount() / 2), and the mask and
   * dataLength for the first guess. Its ghost results are the root s and
   * m = numBits, with s below 2^m.
   */
  method FirstGuess(a: BigInteger) returns (bytePos: int, mask: int, ghost j: int, ghost s: nat, ghost m: nat)
    requires Canonical(a) && Value(a) >= 0
    ensures Value(a) >= 0 && IsRoot(Value(a), s)
    ensures 1 <= bytePos <= W && 0 <= j < 32 && mask == Pow2(j)
    ensures m - 1 <= 32 * (bytePos - 1) + j <= m <= 32 * W - 2 && s < Pow2(m)
    ensures 1 < bytePos ==> s >= Pow2(32 * (bytePos - 1))
    ensures Value(a) < Pow2(32 * W - 2) ==> 2 * m <= 32 * W - 2
  {
    var bits, _ := Bitwise.BitCount(a);
    var numBits := if bits % 2 != 0 then bits / 2 + 1 else bits / 2;
    bytePos := numBits / 32;
    var bitPos := numBits % 32;
    if bitPos == 0 {
      mask := SIGN;
      j := 31;
      SignIsPow2();
    } else {
      mask := Pow2(bitPos);
      j := bitPos;
      bytePos := bytePos + 1;
    }
    s := Isqrt(Value(a));
    IsqrtIsRoot(Value(a));
    ValueIsSigned(a);
    Setup(bits, Value(a), s, numBits);
    Layout(numBits, bytePos, j);
    m := numBits;
  }

  /**
   * The state of the outer loop: words above i hold the root's bits above
   * position 32 * i + j, everything else is zero, and the top word is
   * non-zero once it has been decided.
   */
  ghost predicate Building(ws: seq<Word>, len: int, i: int, j: int, s: nat, m: nat)
  {
    && |ws| == W && 1 <= len <= W && -1 <= i < len && -1 <= j < 32
    && 0 <= 32 * i + j + 1 && 32 * i + j <= m <= 32 * W - 2 && s < Pow2(m)
    && (1 < len ==> s >= Pow2(32 * (len - 1)))
    && Val(ws) == Cleared(s, 32 * i + j + 1)
    && ZerosFrom(ws, len) && (1 < len && i < len - 1 ==> ws[len - 1] != 0)
  }

  /** The empty buffer starts the loop at the first guess. */
  lemma {:induction false} Start(ws: seq<Word>, len: int, j: int, s: nat, m: nat)
    requires ws == seq(W, _ => 0) && 1 <= len <= W && 0 <= j < 32
    requires m - 1 <= 32 * (len - 1) + j <= m <= 32 * W - 2 && s < Pow2(m)
    requires 1 < len ==> s >= Pow2(32 * (len - 1))
    ensures Building(ws, len, len - 1, j, s, m)
  {
    ValZeros(ws);
    Pow2Monotone(m, 32 * (len - 1) + j + 1);
    ClearedAbove(s, 32 * (len - 1) + j + 1);
  }

  /** After the inner loop, the loop moves on to the word below. */
  lemma {:induction false} WordDone(ws: seq<Word>, len: int, i: int, s: nat, m: nat)
    requires Building(ws, len, i, -1, s, m) && 0 <= i
    ensures Building(ws, len, i - 1, 31, s, m)
  {
    assert 32 * (i - 1) + 31 + 1 == 32 * i;
    if 1 < len && i == len - 1 {
      TopWordNonZero(ws, len, s);
    }
  }

  /** When every bit is decided, the buffer is the canonical root. */
  lemma {:induction false} Finished(ws: seq<Word>, len: int, i: int, j: int, s: nat, m: nat)
    requires Building(ws, len, i, j, s, m) && i < 0
    ensures Canonical(BigInteger(ws, len)) && Val(ws) == s
  {
  }

  /** Nothing of a value below 2^q is left once q bits are cleared. */
  lemma {:induction false} ClearedAbove(s: nat, q: nat)
    requires s < Pow2(q)
    ensures Cleared(s, q) == 0
  {
    if q > 0 {
      ClearedAbove(s / 2, q - 1);
    }
  }

  /**
   * Where the first guess lies: bytePos words hold bit numBits, or bit
   * numBits - 1 when numBits is a multiple of 32.
   */
  lemma {:induction false} Layout(m: int, len: int, j: int)
    requires 1 <= m <= 32 * W / 2
    requires len == (if m % 32 == 0 then m / 32 else m / 32 + 1)
    requires j == (if m % 32 == 0 then 31 else m % 32)
    ensures 1 <= len <= W && 0 <= j < 32 && m - 1 <= 32 * (len - 1) + j <= m
    ensures 1 < len ==> m >= 32 && (m - 1) / 32 == len - 1
  {
    var q, r := m / 32, m % 32;
    assert m == 32 * q + r;
    if r == 0 {
      DivModUnique(m - 1, 32, q - 1, 31);
    } else {
      DivModUnique(m - 1, 32, q, r - 1);
    }
  }

  /** The facts about the first guess that the loop starts from. */
  lemma {:induction false} Setup(bits: int, n: int, s: nat, numBits: int)
    requires 1 <= bits <= 32 * W && 0 <= n < Pow2(bits) && (bits == 1 || Pow2(bits - 1) <= n)
    requires IsRoot(n, s) && InRange(n)
    requires numBits == (if bits % 2 != 0 then bits / 2 + 1 else bits / 2)
    ensures 1 <= numBits <= 32 * W / 2 && s < Pow2(numBits)
    ensures numBits >= 32 ==> s >= Pow2(32 * ((numBits - 1) / 32))
    ensures n < Pow2(32 * W - 2) ==> 2 * numBits <= 32 * W - 2
  {
    RootBelow(n, s, bits, numBits);
    if numBits >= 32 {
      RootAbove(n, s, bits, numBits - 1);
      Pow2Monotone(32 * ((numBits - 1) / 32), numBits - 1);
    }
    if n < Pow2(32 * W - 2) {
      if bits > 32 * W - 2 {
        Pow2Monotone(32 * W - 2, bits - 1);
      }
    }
  }

  /** The root of a number below 2^bits is below 2^m once 2m >= bits. */
  lemma {:induction false} RootBelow(n: int, s: nat, bits: nat, m: nat)
    requires IsRoot(n, s) && n < Pow2(bits) && bits <= 2 * m
    ensures s < Pow2(m)
  {
    if s >= Pow2(m) {
      SquareLe(Pow2(m), s);
      Pow2Add(m, m);
      Pow2Monotone(bits, 2 * m);
    }
  }

  /** The root of a number of at least 2^(bits - 1) is at least 2^k once 2k < bits. */
  lemma {:induction false} RootAbove(n: int, s: nat, bits: nat, k: nat)
    requires IsRoot(n, s) && bits >= 1 && Pow2(bits - 1) <= n && 2 * k <= bits - 1
    ensures s >= Pow2(k)
  {
    if s + 1 <= Pow2(k) {
      SquareLe(s + 1, Pow2(k));
      Pow2Add(k, k);
      Pow2Monotone(2 * k, bits - 1);
    }
  }

  /** Once the top word is decided, the root's leading bit keeps it non-zero. */
  lemma {:induction false} TopWordNonZero(ws: seq<Word>, len: int, s: nat)
    requires 2 <= len <= |ws| && ZerosFrom(ws, len)
    requires s >= Pow2(32 * (len - 1)) && Val(ws) == Cleared(s, 32 * (len - 1))
    ensures ws[len - 1] != 0
  {
    if ws[len - 1] == 0 {
      ClearedLower(s, 32 * (len - 1));
      ValTrailingZeros(ws, len - 1);
      ValBound(ws[..len - 1]);
      PowIsPow2(len - 1);
      assert false;
    }
  }

  /** The inner `while (mask != 0)` loop: bits j .. 0 of word i. */
  method GuessWord(data: array<Word>, len: int, i: int, mask0: int, a: BigInteger, ghost s: nat, ghost j0: int, ghost m: nat)
    returns (ok: bool)
    requires Building(data[..], len, i, j0, s, m) && 0 <= i && 0 <= j0 && mask0 == Pow2(j0)
    requires Canonical(a) && Value(a) >= 0 && IsRoot(Value(a), s)
    modifies data
    ensures ok ==> Building(data[..], len, i - 1, 31, s, m)
    ensures 2 * m <= 32 * W - 2 ==> ok
  {
    var mask := mask0;
    ghost var j := j0;
    while mask != 0
      invariant Building(data[..], len, i, j, s, m) && mask == (if j >= 0 then Pow2(j) else 0)
      decreases j
    {
      ok := Guess(data, len, i, mask, a, s, j, m);
      if !ok {
        return;
      }
      mask := mask / 2;
      j := j - 1;
    }
    WordDone(data[..], len, i, s, m);
    ok := true;
  }

  /** One guess: `data[i] ^= mask`, undone when the square exceeds a. */
  method Guess(data: array<Word>, len: int, i: int, mask: int, a: BigInteger, ghost s: nat, ghost j: nat, ghost m: nat)
    returns (ok: bool)
    requires Building(data[..], len, i, j, s, m) && 0 <= i && mask == Pow2(j)
    requires Canonical(a) && Value(a) >= 0 && IsRoot(Value(a), s)
    modifies data
    ensures ok ==> Building(data[..], len, i, j - 1, s, m)
    ensures 2 * m <= 32 * W - 2 ==> ok
  {
    ghost var before := data[..];
    ghost var g := Guessed(before, len, i, j, s, m);
    Toggle(data, i, mask, before);
    var gt := Exceeds(BigInteger(data[..], len), a, s, 32 * i + j, m);
    if gt.Err? {
      return false;
    }
    if gt.value {
      Toggle(data, i, mask, g);
      Undone(before, g, len, i, j, s, m);
    } else {
      Kept(before, g, len, i, j, s, m);
    }
    ok := true;
  }

  /** `data[i] ^= mask` on one word of the buffer. */
  method Toggle(data: array<Word>, i: int, mask: Word, ghost ws: seq<Word>)
    requires 0 <= i < data.Length && data[..] == ws
    modifies data
    ensures data[..] == ws[i := Bitwise.Combine(Bitwise.XorOp, ws[i], mask)]
  {
    data[i] := Bitwise.Combine(Bitwise.XorOp, data[i], mask);
  }

  /** A candidate buffer: bit p set on top of the root cleared above p, trimmed to len words. */
  ghost predicate IsGuess(g: seq<Word>, len: int, p: nat, s: nat, m: nat)
  {
    && |g| == W && 1 <= len <= W && ZerosFrom(g, len)
    && p / 32 < len && g[p / 32] != 0 && (p / 32 < len - 1 ==> g[len - 1] != 0)
    && s < Pow2(m) && p <= m <= 32 * W - 2
    && Val(g) == Cleared(s, p + 1) + Pow2(p)
  }

  /** `data[i] ^= mask` with mask = 2^j sets the clear bit j: the result is a guess for bit 32 * i + j. */
  lemma {:induction false} Guessed(ws: seq<Word>, len: int, i: nat, j: nat, s: nat, m: nat) returns (g: seq<Word>)
    requires Building(ws, len, i, j, s, m)
    ensures Pow2(j) < BASE && g == ws[i := Bitwise.Combine(Bitwise.XorOp, ws[i], Pow2(j))]
    ensures IsGuess(g, len, 32 * i + j, s, m)
  {
    g := Raised(ws, i, j, s);
    Raise(ws, len, i, j, s, m);
  }

  /** The word-level `^=` with 2^j adds 2^j to word i. */
  lemma {:induction false} Raised(ws: seq<Word>, i: nat, j: nat, s: nat) returns (g: seq<Word>)
    requires i < |ws| && j < 32 && Val(ws) == Cleared(s, 32 * i + j + 1)
    ensures Pow2(j) < BASE && ws[i] + Pow2(j) < BASE
    ensures g == ws[i := Bitwise.Combine(Bitwise.XorOp, ws[i], Pow2(j))] && g == ws[i := ws[i] + Pow2(j)]
  {
    Flip(ws, i, j, s);
    g := ws[i := ws[i] + Pow2(j)];
  }

  /** Setting bit j of word i gives a guess for bit 32 * i + j. */
  lemma {:induction false} Raise(ws: seq<Word>, len: int, i: nat, j: nat, s: nat, m: nat)
    requires Building(ws, len, i, j, s, m) && ws[i] + Pow2(j) < BASE
    ensures IsGuess(ws[i := ws[i] + Pow2(j)], len, 32 * i + j, s, m)
  {
    assert (32 * i + j) / 32 == i;
    SetBit(ws, i, j, ws[i] + Pow2(j));
  }

  /** A guess above the root is withdrawn by a second `^=`, and the buffer holds the root cleared below the bit. */
  lemma {:induction false} Undone(ws: seq<Word>, g: seq<Word>, len: int, i: nat, j: nat, s: nat, m: nat)
    requires Building(ws, len, i, j, s, m) && Pow2(j) < BASE && g == ws[i := Bitwise.Combine(Bitwise.XorOp, ws[i], Pow2(j))]
    requires Cleared(s, 32 * i + j + 1) + Pow2(32 * i + j) > s
    ensures Building(g[i := Bitwise.Combine(Bitwise.XorOp, g[i], Pow2(j))], len, i, j - 1, s, m)
  {
    Restored(ws, g, i, j, s);
    Withdrawn(ws, len, i, j, s, m);
  }

  /** The second `^=` gives back the buffer from before the guess. */
  lemma {:induction false} Restored(ws: seq<Word>, g: seq<Word>, i: nat, j: nat, s: nat)
    requires i < |ws| && j < 32 && Val(ws) == Cleared(s, 32 * i + j + 1)
    requires Pow2(j) < BASE && g == ws[i := Bitwise.Combine(Bitwise.XorOp, ws[i], Pow2(j))]
    ensures g[i := Bitwise.Combine(Bitwise.XorOp, g[i], Pow2(j))] == ws
  {
    Flip(ws, i, j, s);
  }

  /** Bit 32 * i + j of the root is clear when the guess exceeds it. */
  lemma {:induction false} Withdrawn(ws: seq<Word>, len: int, i: nat, j: nat, s: nat, m: nat)
    requires Building(ws, len, i, j, s, m)
    requires Cleared(s, 32 * i + j + 1) + Pow2(32 * i + j) > s
    ensures Building(ws, len, i, j - 1, s, m)
  {
    ClearedStep(s, 32 * i + j);
  }

  /** A guess at most the root stays: the buffer keeps bit j of word i. */
  lemma {:induction false} Kept(ws: seq<Word>, g: seq<Word>, len: int, i: nat, j: nat, s: nat, m: nat)
    requires Building(ws, len, i, j, s, m) && Pow2(j) < BASE && g == ws[i := Bitwise.Combine(Bitwise.XorOp, ws[i], Pow2(j))]
    requires Cleared(s, 32 * i + j + 1) + Pow2(32 * i + j) <= s
    ensures Building(g, len, i, j - 1, s, m)
  {
    var g' := Raised(ws, i, j, s);
    Accepted(ws, g, len, i, j, s, m);
  }

  /** Bit 32 * i + j of the root is set when the guess does not exceed it. */
  lemma {:induction false} Accepted(ws: seq<Word>, g: seq<Word>, len: int, i: nat, j: nat, s: nat, m: nat)
    requires Building(ws, len, i, j, s, m) && ws[i] + Pow2(j) < BASE && g == ws[i := ws[i] + Pow2(j)]
    requires Cleared(s, 32 * i + j + 1) + Pow2(32 * i + j) <= s
    ensures Building(g, len, i, j - 1, s, m)
  {
    KeptValue(ws, i, j, s);
  }

  lemma {:induction false} KeptValue(ws: seq<Word>, i: nat, j: nat, s: nat)
    requires i < |ws| && j < 32 && ws[i] + Pow2(j) < BASE
    requires Val(ws) == Cleared(s, 32 * i + j + 1)
    requires Cleared(s, 32 * i + j + 1) + Pow2(32 * i + j) <= s
    ensures Val(ws[i := ws[i] + Pow2(j)]) == Cleared(s, 32 * i + j)
  {
    calc {
      Val(ws[i := ws[i] + Pow2(j)]);
    == { SetBit(ws, i, j, ws[i] + Pow2(j)); }
      Cleared(s, 32 * i + j + 1) + Pow2(32 * i + j);
    == { ClearedStep(s, 32 * i + j); }
      Cleared(s, 32 * i + j);
    }
  }

  /**
   * `(result * result) > this` for the guess g = Cleared(s, p + 1) + 2^p:
   * true exactly when the guess is above the root; `*` throws only when the
   * square leaves the range.
   */
  method Exceeds(guess: BigInteger, a: BigInteger, ghost s: nat, ghost p: nat, ghost m: nat) returns (r: Result<bool>)
    requires IsGuess(guess.data, guess.dataLength, p, s, m)
    requires Canonical(a)
    requires Value(a) >= 0
    requires IsRoot(Value(a), s)
    ensures r.Ok? ==> (r.value <==> Cleared(s, p + 1) + Pow2(p) > s)
    ensures 2 * m <= 32 * W - 2 ==> r.Ok?
  {
    GuessValue(guess, s, p, m);
    if 2 * m <= 32 * W - 2 {
      GuessFits(s, p, m);
    }
    var square := Multiply.Multiply(guess, guess);
    if square.Err? {
      return Err(square.error);
    }
    var gt := Greater(square.value, a);
    RootLargest(Value(a), s, Value(guess));
    r := Ok(gt);
  }

  /** Setting bit j of word i adds 2^(32 * i + j) to the value. */
  lemma {:induction false} SetBit(ws: seq<Word>, i: nat, j: nat, w: Word)
    requires i < |ws| && w == ws[i] + Pow2(j)
    ensures Val(ws[i := w]) == Val(ws) + Pow2(32 * i + j)
  {
    ValUpdate(ws, i, w);
    ScaleAdd(ws[i], Pow2(j), i);
    ScalePow2(j, i);
  }

  /** The guessed bit is clear in its word, and setting it stays within the word. */
  lemma {:induction false} Flip(ws: seq<Word>, i: nat, j: nat, s: nat)
    requires i < |ws| && j < 32 && Val(ws) == Cleared(s, 32 * i + j + 1)
    ensures Xor(ws[i], Pow2(j)) == ws[i] + Pow2(j) < BASE
    ensures Xor(ws[i] + Pow2(j), Pow2(j)) == ws[i]
  {
    GuessBitClear(ws, i, j, s);
    XorFlip(ws[i], j);
    MaskFits(ws[i], j);
  }

  /** Bit j of word i is below the bits decided so far, so it is clear. */
  lemma {:induction false} GuessBitClear(ws: seq<Word>, i: nat, j: nat, s: nat)
    requires i < |ws| && j < 32 && Val(ws) == Cleared(s, 32 * i + j + 1)
    ensures !Bit(ws[i], j)
  {
    ValBit(ws, i, j);
    ClearedIsMul(s, 32 * i + j + 1);
    MultipleBit(s / Pow2(32 * i + j + 1), 32 * i + j);
  }

  /** `w ^ mask` stays a word. */
  lemma {:induction false} MaskFits(w: Word, j: nat)
    requires j < 32
    ensures Xor(w, Pow2(j)) < BASE
  {
    Pow2Of32();
    Pow2Monotone(j + 1, 32);
    BitwiseBound(w, Pow2(j), 32);
  }

  /** The guess is a canonical BigInteger holding g = Cleared(s, p + 1) + 2^p. */
  lemma {:induction false} GuessValue(guess: BigInteger, s: nat, p: nat, m: nat)
    requires IsGuess(guess.data, guess.dataLength, p, s, m)
    ensures Canonical(guess) && Value(guess) == Cleared(s, p + 1) + Pow2(p)
  {
    GuessBound(s, p, m);
    Pow2Monotone(m, 32 * W - 2);
    Pow2Monotone(32 * W - 2, 32 * W - 1);
    HalfIsPow2();
    SignedView(guess);
  }

  /** The square of a guess fits when 2^(2m) is below 2^2239. */
  lemma {:induction false} GuessFits(s: nat, p: nat, m: nat)
    requires s < Pow2(m) && p <= m && 2 * m <= 32 * W - 2
    ensures InRange((Cleared(s, p + 1) + Pow2(p)) * (Cleared(s, p + 1) + Pow2(p)))
  {
    var g := Cleared(s, p + 1) + Pow2(p);
    GuessBound(s, p, m);
    SquareLe(g, Pow2(m));
    SquareLe(0, g);
    Pow2Add(m, m);
    Pow2Monotone(2 * m, 32 * W - 2);
    HalfIsPow2();
  }
}
