/**
 * Base-2^32 digit sequences: the storage substrate of the integer engine.
 * A word sequence is read little-endian (index 0 is the least significant
 * word), as the `uint[] data` buffer of BigInteger.cs is.
 *
 * Weights are written `Scale(x, k)` (x times BASE^k) rather than as a
 * product with a power, so that every fact about positions is linear.
 */
module Words {

  const BASE: int := 0x1_0000_0000

  /** A 32-bit unsigned word (C# `uint`). */
  type Word = x: int | 0 <= x < 0x1_0000_0000

  /** 0xFFFFFFFF, the all-ones word. */
  const ONES: Word := 0xFFFF_FFFF

  /** An 8-bit unsigned byte (C# `byte`). */
  type Byte = x: int | 0 <= x < 0x100

  /** x shifted up by k words: x * BASE^k. */
  ghost function Scale(x: int, k: nat): int
  {
    if k == 0 then x else BASE * Scale(x, k - 1)
  }

  /** BASE^k */
  ghost function Pow(k: nat): (p: nat)
    ensures p > 0
  {
    ScalePositive(1, k);
    Scale(1, k)
  }

  /** 2^k */
  function Pow2(k: nat): (p: nat)
    ensures p > 0
  {
    if k == 0 then 1 else 2 * Pow2(k - 1)
  }

  /** The unsigned value of a little-endian word sequence. */
  ghost function Val(ws: seq<Word>): nat
  {
    if |ws| == 0 then 0 else ws[0] + BASE * Val(ws[1..])
  }

  /** True when every word from index k on is zero. */
  ghost predicate ZerosFrom(ws: seq<Word>, k: int)
  {
    forall i :: 0 <= k <= i < |ws| ==> ws[i] == 0
  }

  // ---------------------------------------------------------------------
  // Word weights
  // ---------------------------------------------------------------------

  lemma {:induction false} ScaleAdd(x: int, y: int, k: nat)
    ensures Scale(x + y, k) == Scale(x, k) + Scale(y, k)
  {
    if k > 0 {
      ScaleAdd(x, y, k - 1);
    }
  }

  lemma {:induction false} ScaleNeg(x: int, k: nat)
    ensures Scale(-x, k) == -Scale(x, k)
  {
    if k > 0 {
      ScaleNeg(x, k - 1);
    }
  }

  lemma {:induction false} ScaleZero(k: nat)
    ensures Scale(0, k) == 0
  {
    if k > 0 {
      ScaleZero(k - 1);
    }
  }

  /** One more word of shift is one factor of BASE on the shifted value. */
  lemma {:induction false} ScaleStep(x: int, k: nat)
    ensures Scale(x, k + 1) == Scale(BASE * x, k)
  {
    if k > 0 {
      ScaleStep(x, k - 1);
    }
  }

  /** Shifting by j words and then by k words is shifting by j + k words. */
  lemma {:induction false} ScaleScale(x: int, j: nat, k: nat)
    ensures Scale(Scale(x, j), k) == Scale(x, j + k)
  {
    if k > 0 {
      ScaleScale(x, j, k - 1);
    }
  }

  lemma {:induction false} ScaleMonotone(x: int, y: int, k: nat)
    requires x <= y
    ensures Scale(x, k) <= Scale(y, k)
  {
    if k > 0 {
      ScaleMonotone(x, y, k - 1);
    }
  }

  lemma {:induction false} ScalePositive(x: int, k: nat)
    requires x > 0
    ensures Scale(x, k) >= x
  {
    if k > 0 {
      ScalePositive(x, k - 1);
    }
  }

  /** The weight written as a product, for the places that multiply. */
  lemma {:induction false} ScaleIsMul(x: int, k: nat)
    ensures Scale(x, k) == x * Pow(k)
  {
    if k > 0 {
      ScaleIsMul(x, k - 1);
      MulAssoc(BASE, x, Pow(k - 1));
    }
  }

  /** A weight times a factor is the weight of the product. */
  lemma {:induction false} ScaleMul(x: int, y: int, k: nat)
    ensures Scale(x, k) * y == Scale(x * y, k)
  {
    if k > 0 {
      ScaleMul(x, y, k - 1);
      MulAssoc(y, BASE, Scale(x, k - 1));
    }
  }

  lemma {:induction false} PowAdd(a: nat, b: nat)
    ensures Pow(a) * Pow(b) == Pow(a + b)
  {
    ScaleMul(1, Pow(b), a);
    ScaleScale(1, b, a);
  }

  lemma {:induction false} PowMonotone(a: nat, b: nat)
    requires a <= b
    ensures 0 < Pow(a) <= Pow(b)
  {
    if a < b {
      PowMonotone(a, b - 1);
    } else {
      ScalePositive(1, a);
    }
  }

  lemma {:induction false} Pow2Add(a: nat, b: nat)
    ensures Pow2(a + b) == Pow2(a) * Pow2(b)
  {
    if b > 0 {
      Pow2Add(a, b - 1);
      MulAssoc(2, Pow2(a), Pow2(b - 1));
    }
  }

  lemma {:induction false} Pow2Monotone(a: nat, b: nat)
    requires a <= b
    ensures Pow2(a) <= Pow2(b)
  {
    if a < b {
      Pow2Monotone(a, b - 1);
    }
  }

  lemma {:induction false} Pow2Of32()
    ensures Pow2(32) == BASE
  {
    assert Pow2(8) == 256;
    Pow2Add(8, 8);
    Pow2Add(16, 16);
  }

  /** One word is 32 bits. */
  lemma {:induction false} PowIsPow2(k: nat)
    ensures Pow(k) == Pow2(32 * k)
  {
    if k > 0 {
      PowIsPow2(k - 1);
      Pow2Of32();
      Pow2Add(32, 32 * (k - 1));
    }
  }

  // ---------------------------------------------------------------------
  // Multiplication facts kept out of the solver's way
  // ---------------------------------------------------------------------

  /** The magnitude of an integer. */
  ghost function Abs(x: int): nat
  {
    if x < 0 then -x else x
  }

  lemma {:induction false} MulComm(x: int, y: int)
    ensures x * y == y * x
  {}

  lemma {:induction false} MulAssoc(x: int, y: int, z: int)
    ensures x * (y * z) == y * (x * z)
  {}

  lemma {:induction false} MulLe(x: int, y: int, p: int)
    requires x <= y && p >= 0
    ensures x * p <= y * p
  {}

  /** A value below q * d has a quotient by d below q. */
  lemma {:induction false} DivBelow(x: int, d: int, q: int)
    requires d > 0 && 0 <= x < q * d
    ensures 0 <= x / d < q
  {
    if x / d >= q {
      MulLe(q, x / d, d);
    }
  }

  /** Quotient and remainder are unique. */
  lemma {:induction false} DivModUnique(x: int, d: int, q: int, r: int)
    requires d > 0 && 0 <= r < d && x == q * d + r
    ensures x / d == q && x % d == r
  {
    var q', r' := x / d, x % d;
    assert x == q' * d + r';
    if q' > q {
      MulLe(q + 1, q', d);
    } else if q' < q {
      MulLe(q' + 1, q, d);
    }
  }

  // ---------------------------------------------------------------------
  // One column of a carry or borrow chain
  // ---------------------------------------------------------------------

  /** The low word stays at position i and the carry moves to position i + 1. */
  lemma {:induction false} Column(x: int, lo: int, hi: int, i: nat)
    requires lo + BASE * hi == x
    ensures Scale(lo, i) + Scale(hi, i + 1) == Scale(x, i)
  {
    ScaleStep(hi, i);
    ScaleAdd(lo, BASE * hi, i);
  }

  /** A column sum below 2 * BASE: `sum & 0xFFFFFFFF` and `sum >> 32`. */
  lemma {:induction false} SplitCarry(s: int)
    requires 0 <= s < 2 * BASE
    ensures s % BASE == (if s >= BASE then s - BASE else s)
    ensures s / BASE == (if s >= BASE then 1 else 0)
  {
    if s >= BASE {
      DivModUnique(s, BASE, 1, s - BASE);
    } else {
      DivModUnique(s, BASE, 0, s);
    }
  }

  /** A column difference above -BASE: `diff & 0xFFFFFFFF` on a 64-bit value. */
  lemma {:induction false} SplitBorrow(d: int)
    requires -BASE <= d < BASE
    ensures d % BASE == (if d < 0 then d + BASE else d)
  {
    if d < 0 {
      DivModUnique(d, BASE, -1, d + BASE);
    } else {
      DivModUnique(d, BASE, 0, d);
    }
  }

  // ---------------------------------------------------------------------
  // Values of word sequences
  // ---------------------------------------------------------------------

  lemma {:induction false} ValConcat(a: seq<Word>, b: seq<Word>)
    ensures Val(a + b) == Val(a) + Scale(Val(b), |a|)
  {
    if |a| == 0 {
      assert a + b == b;
    } else {
      assert (a + b)[1..] == a[1..] + b;
      ValConcat(a[1..], b);
    }
  }

  lemma {:induction false} ValSingle(w: Word)
    ensures Val([w]) == w
  {
    assert [w][1..] == [];
  }

  /** The value of a prefix one word longer. */
  lemma {:induction false} ValPrefix(ws: seq<Word>, k: nat)
    requires k < |ws|
    ensures Val(ws[..k + 1]) == Val(ws[..k]) + Scale(ws[k], k)
  {
    assert ws[..k + 1] == ws[..k] + [ws[k]];
    ValConcat(ws[..k], [ws[k]]);
    ValSingle(ws[k]);
  }

  /** A prefix and the suffix above it. */
  lemma {:induction false} ValSplit(ws: seq<Word>, k: nat)
    requires k <= |ws|
    ensures Val(ws) == Val(ws[..k]) + Scale(Val(ws[k..]), k)
  {
    assert ws == ws[..k] + ws[k..];
    ValConcat(ws[..k], ws[k..]);
  }

  /** A sequence lies between the value of its words from e up, weighed at e, and one unit more. */
  lemma {:induction false} ValAbove(ws: seq<Word>, e: nat)
    requires e <= |ws|
    ensures Scale(Val(ws[e..]), e) <= Val(ws)
    ensures Val(ws) < Scale(Val(ws[e..]) + 1, e)
  {
    ValSplit(ws, e);
    ValBelow(ws, e);
  }

  lemma {:induction false} ValBelow(ws: seq<Word>, e: nat)
    requires e <= |ws|
    ensures Val(ws) < Scale(Val(ws[e..]) + 1, e)
  {
    if e > 0 {
      var t := ws[1..];
      ValBelow(t, e - 1);
      assert t[e - 1..] == ws[e..];
      var x := Scale(Val(ws[e..]) + 1, e - 1);
      assert Val(t) + 1 <= x;
      assert Val(ws) == ws[0] + BASE * Val(t);
      MulLe(Val(t) + 1, x, BASE);
    }
  }

  /** The top word times its weight plus the value of the rest. */
  lemma {:induction false} ValLast(ws: seq<Word>)
    requires |ws| > 0
    ensures Val(ws) == Val(ws[..|ws| - 1]) + Scale(ws[|ws| - 1], |ws| - 1)
  {
    ValPrefix(ws, |ws| - 1);
    assert ws[..|ws|] == ws;
  }

  lemma {:induction false} ValBound(ws: seq<Word>)
    ensures Val(ws) < Pow(|ws|)
  {
    if |ws| > 0 {
      ValBound(ws[1..]);
    }
  }

  /** A sequence whose top word is non-zero needs all its words. */
  lemma {:induction false} ValTopNonZero(ws: seq<Word>)
    requires |ws| > 0 && ws[|ws| - 1] != 0
    ensures Val(ws) >= Pow(|ws| - 1)
  {
    ValLast(ws);
    ScaleMonotone(1, ws[|ws| - 1], |ws| - 1);
  }

  lemma {:induction false} ValZeros(ws: seq<Word>)
    requires ZerosFrom(ws, 0)
    ensures Val(ws) == 0
  {
    if |ws| > 0 {
      ValZeros(ws[1..]);
    }
  }

  /** Zero words above index k do not change the value. */
  lemma {:induction false} ValTrailingZeros(ws: seq<Word>, k: nat)
    requires k <= |ws| && ZerosFrom(ws, k)
    ensures Val(ws) == Val(ws[..k])
  {
    ValSplit(ws, k);
    ValZeros(ws[k..]);
    ScaleZero(k);
  }

  /** A prefix is worth no more than the whole sequence. */
  lemma {:induction false} ValPrefixLe(ws: seq<Word>, k: nat)
    requires k <= |ws|
    ensures Val(ws[..k]) <= Val(ws)
  {
    ValSplit(ws, k);
    ScaleMonotone(0, Val(ws[k..]), k);
    ScaleZero(k);
  }

  /** A non-zero word at position i makes the value at least BASE^i. */
  lemma {:induction false} ValAtLeast(ws: seq<Word>, i: nat)
    requires i < |ws| && ws[i] != 0
    ensures Val(ws) >= Pow(i)
  {
    ValPrefixLe(ws, i + 1);
    ValPrefix(ws, i);
    ScaleMonotone(1, ws[i], i);
  }

  /** The one's complement of a word sequence. */
  lemma {:induction false} ValComplement(ws: seq<Word>, cs: seq<Word>)
    requires |ws| == |cs| && forall k :: 0 <= k < |ws| ==> cs[k] == BASE - 1 - ws[k]
    ensures Val(cs) + Val(ws) + 1 == Pow(|ws|)
  {
    if |ws| > 0 {
      ValComplement(ws[1..], cs[1..]);
    }
  }

  /** Two sequences of one length with one value are equal. */
  lemma {:induction false} ValInjective(a: seq<Word>, b: seq<Word>)
    requires |a| == |b| && Val(a) == Val(b)
    ensures a == b
  {
    if |a| > 0 {
      DivModUnique(Val(a), BASE, Val(a[1..]), a[0]);
      DivModUnique(Val(b), BASE, Val(b[1..]), b[0]);
      ValInjective(a[1..], b[1..]);
      assert a == [a[0]] + a[1..] && b == [b[0]] + b[1..];
    }
  }

  /** Replacing one word changes the value by the difference at that position. */
  lemma {:induction false} ValUpdate(ws: seq<Word>, i: nat, w: Word)
    requires i < |ws|
    ensures Val(ws[i := w]) + Scale(ws[i], i) == Val(ws) + Scale(w, i)
  {
    var vs := ws[i := w];
    var rest := Val(ws[i + 1..]);
    assert ws == ws[..i] + ([ws[i]] + ws[i + 1..]);
    assert vs == ws[..i] + ([w] + ws[i + 1..]);
    ValConcat(ws[..i], [ws[i]] + ws[i + 1..]);
    ValConcat(ws[..i], [w] + ws[i + 1..]);
    assert ([ws[i]] + ws[i + 1..])[1..] == ws[i + 1..];
    assert ([w] + ws[i + 1..])[1..] == ws[i + 1..];
    ScaleAdd(ws[i], BASE * rest, i);
    ScaleAdd(w, BASE * rest, i);
  }

  /** Writing w into a zero word adds w at that position. */
  lemma {:induction false} ValUpdateZero(ws: seq<Word>, i: nat, w: Word)
    requires i < |ws| && ws[i] == 0
    ensures Val(ws[i := w]) == Val(ws) + Scale(w, i)
  {
    ValUpdate(ws, i, w);
    ScaleZero(i);
  }

  /** A lower digit cannot make up for a smaller digit above it. */
  lemma {:induction false} DigitOrder(ra: int, rb: int, da: int, db: int, k: nat)
    requires 0 <= ra < Pow(k) && 0 <= rb && da < db
    ensures ra + Scale(da, k) < rb + Scale(db, k)
  {
    ScaleMonotone(da + 1, db, k);
    ScaleAdd(da, 1, k);
  }

  /** Sequences that agree above position p are ordered by their words at p. */
  lemma {:induction false} ValCompareAt(a: seq<Word>, b: seq<Word>, p: nat)
    requires |a| == |b| && p < |a|
    requires a[p + 1..] == b[p + 1..] && a[p] < b[p]
    ensures Val(a) < Val(b)
  {
    ValSplit(a, p + 1);
    ValSplit(b, p + 1);
    ValPrefix(a, p);
    ValPrefix(b, p);
    ValBound(a[..p]);
    DigitOrder(Val(a[..p]), Val(b[..p]), a[p], b[p], p);
  }
}
