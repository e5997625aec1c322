/**
 * Bitwise operations on non-negative integers, defined bit by bit from the
 * least significant end, and the facts that the mask and shift loops of
 * BigInteger.cs rely on. A C# `uint` operation `x & y` is `And(x, y)` on
 * two words, and so on.
 */
module Bits {
  import opened Words

  /** Bit k of x. */
  ghost function Bit(x: nat, k: nat): bool
  {
    if k == 0 then x % 2 == 1 else Bit(x / 2, k - 1)
  }

  /** x & y */
  function And(x: nat, y: nat): nat
  {
    if x == 0 || y == 0 then 0
    else 2 * And(x / 2, y / 2) + (if x % 2 == 1 && y % 2 == 1 then 1 else 0)
  }

  /** x | y */
  function Or(x: nat, y: nat): nat
  {
    if x == 0 then y
    else if y == 0 then x
    else 2 * Or(x / 2, y / 2) + (if x % 2 == 1 || y % 2 == 1 then 1 else 0)
  }

  /** x ^ y */
  function Xor(x: nat, y: nat): nat
  {
    if x == 0 then y
    else if y == 0 then x
    else 2 * Xor(x / 2, y / 2) + (if x % 2 != y % 2 then 1 else 0)
  }

  // ---------------------------------------------------------------------
  // Each operation, bit by bit
  // ---------------------------------------------------------------------

  lemma {:induction false} ZeroBit(k: nat)
    ensures !Bit(0, k)
  {
    if k > 0 {
      ZeroBit(k - 1);
    }
  }

  lemma {:induction false} AndBit(x: nat, y: nat, k: nat)
    ensures Bit(And(x, y), k) == (Bit(x, k) && Bit(y, k))
  {
    if x == 0 || y == 0 {
      ZeroBit(k);
    } else if k > 0 {
      AndBit(x / 2, y / 2, k - 1);
    }
  }

  lemma {:induction false} OrBit(x: nat, y: nat, k: nat)
    ensures Bit(Or(x, y), k) == (Bit(x, k) || Bit(y, k))
  {
    if x == 0 || y == 0 {
      ZeroBit(k);
    } else if k > 0 {
      OrBit(x / 2, y / 2, k - 1);
    }
  }

  lemma {:induction false} XorBit(x: nat, y: nat, k: nat)
    ensures Bit(Xor(x, y), k) == (Bit(x, k) != Bit(y, k))
  {
    if x == 0 || y == 0 {
      ZeroBit(k);
    } else if k > 0 {
      XorBit(x / 2, y / 2, k - 1);
    }
  }

  // ---------------------------------------------------------------------
  // Widths
  // ---------------------------------------------------------------------

  /** No operation sets a bit at or above the width of both operands. */
  lemma {:induction false} BitwiseBound(x: nat, y: nat, n: nat)
    requires x < Pow2(n) && y < Pow2(n)
    ensures And(x, y) < Pow2(n) && Or(x, y) < Pow2(n) && Xor(x, y) < Pow2(n)
  {
    if n > 0 && x > 0 && y > 0 {
      BitwiseBound(x / 2, y / 2, n - 1);
    }
  }

  /** The bits of x at and above its width are clear. */
  lemma {:induction false} BitAboveWidth(x: nat, n: nat, k: nat)
    requires x < Pow2(n) && k >= n
    ensures !Bit(x, k)
  {
    if k == 0 {
    } else if n == 0 {
      ZeroBit(k - 1);
    } else {
      BitAboveWidth(x / 2, n - 1, k - 1);
    }
  }

  /** Below 2^(k+1), bit k is set exactly from 2^k on. */
  lemma {:induction false} TopBit(x: nat, k: nat)
    requires x < Pow2(k + 1)
    ensures Bit(x, k) <==> x >= Pow2(k)
  {
    if k > 0 {
      TopBit(x / 2, k - 1);
    }
  }

  /** The number of significant bits of x; 0 for 0. */
  ghost function BitLength(x: nat): nat
  {
    if x == 0 then 0 else 1 + BitLength(x / 2)
  }

  lemma {:induction false} BitLengthBounds(x: nat)
    ensures x < Pow2(BitLength(x)) && (x > 0 ==> Pow2(BitLength(x) - 1) <= x)
  {
    if x > 0 {
      BitLengthBounds(x / 2);
    }
  }

  /** Those bounds determine the bit length. */
  lemma {:induction false} BitLengthUnique(x: nat, b: nat)
    requires x < Pow2(b) && (b > 0 ==> Pow2(b - 1) <= x)
    ensures BitLength(x) == b
  {
    if b > 0 {
      BitLengthUnique(x / 2, b - 1);
    }
  }

  /** 2^b shifted up by m words is 2^(b + 32m). */
  lemma {:induction false} ScalePow2(b: nat, m: nat)
    ensures Scale(Pow2(b), m) == Pow2(b + 32 * m) && Scale(1, m) == Pow2(32 * m)
  {
    ScaleIsMul(Pow2(b), m);
    PowIsPow2(m);
    Pow2Add(b, 32 * m);
  }

  // ---------------------------------------------------------------------
  // Single-bit masks
  // ---------------------------------------------------------------------

  /** `(x & mask) != 0` with mask = 2^k tests bit k. */
  lemma {:induction false} MaskTest(x: nat, k: nat)
    ensures And(x, Pow2(k)) != 0 <==> Bit(x, k)
  {
    if x == 0 {
      ZeroBit(k);
    } else if k > 0 {
      MaskTest(x / 2, k - 1);
    }
  }

  lemma {:induction false} OrZero(x: nat)
    ensures Or(x, 0) == x
  {
  }

  /** `x ^= mask` with mask = 2^k on a clear bit k adds 2^k, and a second `^=` takes it away again. */
  lemma {:induction false} XorFlip(x: nat, k: nat)
    requires !Bit(x, k)
    ensures Xor(x, Pow2(k)) == x + Pow2(k) && Xor(x + Pow2(k), Pow2(k)) == x
  {
    XorSet(x, k);
    XorClear(x, k);
  }

  lemma {:induction false} XorSet(x: nat, k: nat)
    requires !Bit(x, k)
    ensures Xor(x, Pow2(k)) == x + Pow2(k)
  {
    if k > 0 && x > 0 {
      XorSet(x / 2, k - 1);
      assert Pow2(k) == 2 * Pow2(k - 1);
    }
  }

  lemma {:induction false} XorClear(x: nat, k: nat)
    requires !Bit(x, k)
    ensures Xor(x + Pow2(k), Pow2(k)) == x
  {
    if k > 0 {
      XorClear(x / 2, k - 1);
      var p := Pow2(k - 1);
      assert Pow2(k) == 2 * p;
      assert (x + 2 * p) / 2 == x / 2 + p && (x + 2 * p) % 2 == x % 2;
    }
  }

  /** `x |= mask` with mask = 2^k on a clear bit k adds 2^k. */
  lemma {:induction false} MaskSet(x: nat, k: nat)
    requires !Bit(x, k)
    ensures Or(x, Pow2(k)) == x + Pow2(k)
  {
    if x > 0 && k > 0 {
      MaskSet(x / 2, k - 1);
    }
  }

  /** Or of x shifted up by s bits and a value below 2^s is their sum. */
  lemma {:induction false} OrDisjoint(x: nat, y: nat, s: nat)
    requires y < Pow2(s)
    ensures Or(x * Pow2(s), y) == x * Pow2(s) + y
  {
    if s > 0 && x > 0 && y > 0 {
      var z := x * Pow2(s - 1);
      assert x * Pow2(s) == 2 * z;
      assert (2 * z) / 2 == z && (2 * z) % 2 == 0;
      OrDisjoint(x, y / 2, s - 1);
    }
  }

  lemma {:induction false} OrComm(x: nat, y: nat)
    ensures Or(x, y) == Or(y, x)
  {
    if x > 0 && y > 0 {
      OrComm(x / 2, y / 2);
    }
  }

  // ---------------------------------------------------------------------
  // Bits of word sequences
  // ---------------------------------------------------------------------

  /** Bits below n do not see a multiple of 2^n added on top. */
  lemma {:induction false} BitLow(x: nat, y: nat, n: nat, j: nat)
    requires j < n
    ensures Bit(x + Pow2(n) * y, j) == Bit(x, j)
  {
    var z := Pow2(n - 1) * y;
    assert Pow2(n) * y == 2 * z;
    HalveSum(x, z);
    if j > 0 {
      BitLow(x / 2, y, n - 1, j - 1);
    }
  }

  /** x / 2^n, the unsigned shift right by n bits. */
  function Shr(x: nat, n: nat): nat
  {
    DivNonNegative(x, Pow2(n));
    x / Pow2(n)
  }

  lemma {:induction false} DivNonNegative(x: nat, d: int)
    requires d > 0
    ensures x / d >= 0
  {
  }

  lemma {:induction false} HalveSum(x: nat, z: nat)
    ensures (x + 2 * z) / 2 == x / 2 + z && (x + 2 * z) % 2 == x % 2
  {
  }

  /** Bits from n up are the bits of x / 2^n. */
  lemma {:induction false} BitHigh(x: nat, k: nat, n: nat)
    ensures Bit(x, k + n) == Bit(Shr(x, n), k)
  {
    if n > 0 {
      var p := Pow2(n - 1);
      assert Bit(x, k + n) == Bit(x / 2, k + (n - 1));
      BitHigh(x / 2, k, n - 1);
      DivDiv(x, 2, p);
      assert x / 2 / p == Shr(x, n);
    }
  }

  lemma {:induction false} DivDiv(x: nat, a: nat, b: nat)
    requires a > 0 && b > 0
    ensures x / a / b == x / (a * b)
  {
    var q1, r1 := x / a, x % a;
    var q2, r2 := q1 / b, q1 % b;
    assert x == (a * b) * q2 + (a * r2 + r1);
    MulLe(r2, b - 1, a);
    MulComm(r2, a);
    DivModUnique(x, a * b, q2, a * r2 + r1);
  }

  /** Bit 32 * i + j of a word sequence is bit j of word i. */
  lemma {:induction false} ValBit(ws: seq<Word>, i: nat, j: nat)
    requires i < |ws| && j < 32
    ensures Bit(Val(ws), 32 * i + j) == Bit(ws[i], j)
  {
    Pow2Of32();
    if i == 0 {
      BitLow(ws[0], Val(ws[1..]), 32, j);
    } else {
      ValBit(ws[1..], i - 1, j);
      BitHigh(Val(ws), 32 * (i - 1) + j, 32);
      DivModUnique(Val(ws), BASE, Val(ws[1..]), ws[0]);
    }
  }

  /** Bit k of a word sequence, read in its word. */
  lemma {:induction false} ValBitAt(ws: seq<Word>, k: nat)
    requires k < 32 * |ws|
    ensures Bit(Val(ws), k) == Bit(ws[k / 32], k % 32)
  {
    ValBit(ws, k / 32, k % 32);
  }
}
