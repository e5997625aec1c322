/**
 * The bitwise operators `&`, `|`, `^` and `bitCount()` of BigInteger.cs.
 * The operators combine the words below the longer dataLength one by one
 * into a fresh buffer and trim; on the 2240-bit two's-complement patterns
 * that is the operation bit by bit.
 */
module Bitwise {
  import opened Words
  import opened Bits
  import opened BigInt

  datatype Op = AndOp | OrOp | XorOp

  /** One word of the result. */
  function Combine(op: Op, x: Word, y: Word): (z: Word)
    ensures x == 0 && y == 0 ==> z == 0
  {
    Pow2Of32();
    BitwiseBound(x, y, 32);
    match op
    case AndOp => And(x, y)
    case OrOp => Or(x, y)
    case XorOp => Xor(x, y)
  }

  /** What each operation does to one bit. */
  ghost function CombineBit(op: Op, p: bool, q: bool): bool
  {
    match op
    case AndOp => p && q
    case OrOp => p || q
    case XorOp => p != q
  }

  /** The loop shared by the three operators. */
  method Wordwise(a: BigInteger, b: BigInteger, op: Op) returns (r: BigInteger)
    requires WellFormed(a) && WellFormed(b)
    ensures Canonical(r)
    ensures forall i :: 0 <= i < W ==> r.data[i] == Combine(op, a.data[i], b.data[i])
  {
    var data := new Word[W](_ => 0);
    var len := if a.dataLength > b.dataLength then a.dataLength else b.dataLength;
    for i := 0 to len
      invariant forall k :: 0 <= k < i ==> data[k] == Combine(op, a.data[k], b.data[k])
      invariant ZerosFrom(data[..], i)
    {
      data[i] := Combine(op, a.data[i], b.data[i]);
    }
    var n := TrimLength(data, W);
    r := BigInteger(data[..], n);
  }

  /** Every bit of the result is op applied to the operands' bits. */
  lemma {:induction false} WordwiseBits(a: BigInteger, b: BigInteger, r: BigInteger, op: Op)
    requires |a.data| == W && |b.data| == W && |r.data| == W
    requires forall i :: 0 <= i < W ==> r.data[i] == Combine(op, a.data[i], b.data[i])
    ensures forall k :: 0 <= k < 32 * W ==>
      Bit(Val(r.data), k) == CombineBit(op, Bit(Val(a.data), k), Bit(Val(b.data), k))
  {
    forall k | 0 <= k < 32 * W
      ensures Bit(Val(r.data), k) == CombineBit(op, Bit(Val(a.data), k), Bit(Val(b.data), k))
    {
      ValBitAt(r.data, k);
      ValBitAt(a.data, k);
      ValBitAt(b.data, k);
      var x, y := a.data[k / 32], b.data[k / 32];
      match op
      case AndOp => AndBit(x, y, k % 32);
      case OrOp => OrBit(x, y, k % 32);
      case XorOp => XorBit(x, y, k % 32);
    }
  }

  /** `operator &`: bit k of the result is set when bit k is set in both operands. */
  method BitAnd(a: BigInteger, b: BigInteger) returns (r: BigInteger)
    requires WellFormed(a) && WellFormed(b)
    ensures Canonical(r)
    ensures forall k :: 0 <= k < 32 * W ==>
      (Bit(Val(r.data), k) <==> Bit(Val(a.data), k) && Bit(Val(b.data), k))
  {
    r := Wordwise(a, b, AndOp);
    WordwiseBits(a, b, r, AndOp);
  }

  /** `operator |`: bit k of the result is set when bit k is set in either operand. */
  method BitOr(a: BigInteger, b: BigInteger) returns (r: BigInteger)
    requires WellFormed(a) && WellFormed(b)
    ensures Canonical(r)
    ensures forall k :: 0 <= k < 32 * W ==>
      (Bit(Val(r.data), k) <==> Bit(Val(a.data), k) || Bit(Val(b.data), k))
  {
    r := Wordwise(a, b, OrOp);
    WordwiseBits(a, b, r, OrOp);
  }

  /** `operator ^`: bit k of the result is set when bit k differs between the operands. */
  method BitXor(a: BigInteger, b: BigInteger) returns (r: BigInteger)
    requires WellFormed(a) && WellFormed(b)
    ensures Canonical(r)
    ensures forall k :: 0 <= k < 32 * W ==>
      (Bit(Val(r.data), k) <==> Bit(Val(a.data), k) != Bit(Val(b.data), k))
  {
    r := Wordwise(a, b, XorOp);
    WordwiseBits(a, b, r, XorOp);
  }

  /**
   * `bitCount()`: the position of the highest set bit of the 2240-bit
   * pattern plus one, and 1 for zero. The C# method also trims the
   * object's dataLength in place; that object is returned as `trimmed`.
   */
  method BitCount(a: BigInteger) returns (bits: int, trimmed: BigInteger)
    requires WellFormed(a)
    ensures Canonical(trimmed) && trimmed.data == a.data && Value(trimmed) == Value(a)
    ensures 1 <= bits <= 32 * W
    ensures Val(a.data) < Pow2(bits) && (bits == 1 || Pow2(bits - 1) <= Val(a.data))
  {
    var n := a.dataLength;
    while n > 1 && a.data[n - 1] == 0
      invariant 1 <= n <= a.dataLength && ZerosFrom(a.data, n)
    {
      n := n - 1;
    }
    trimmed := BigInteger(a.data, n);
    var b := TopBitCount(a.data[n - 1]);
    bits := b + (n - 1) * 32;
    if bits == 0 {
      bits := 1;
    }
    TopWordBits(a.data, n, b, bits);
  }

  /** The mask loop of `bitCount()`: the number of significant bits of one word. */
  method TopBitCount(value: Word) returns (b: int)
    ensures 0 <= b <= 32 && value < Pow2(b) && (b == 0 || value >= Pow2(b - 1))
  {
    var mask := SIGN;
    b := 32;
    Pow2Of32();
    while b > 0 && And(value, mask) == 0
      invariant 0 <= b <= 32 && value < Pow2(b)
      invariant b > 0 ==> mask == Pow2(b - 1)
    {
      MaskTest(value, b - 1);
      TopBit(value, b - 1);
      b := b - 1;
      mask := mask / 2;
    }
    if b > 0 {
      MaskTest(value, b - 1);
      TopBit(value, b - 1);
    }
  }

  /**
   * The significant bits of a trimmed word sequence: those of its top word
   * plus 32 for every word below it.
   */
  lemma {:induction false} TopWordBits(ws: seq<Word>, n: nat, b: nat, bits: int)
    requires |ws| == W && 1 <= n <= W && ZerosFrom(ws, n) && (n == 1 || ws[n - 1] != 0)
    requires b <= 32 && ws[n - 1] < Pow2(b) && (b == 0 || ws[n - 1] >= Pow2(b - 1))
    requires bits == if b + (n - 1) * 32 == 0 then 1 else b + (n - 1) * 32
    ensures 1 <= bits <= 32 * W
    ensures Val(ws) < Pow2(bits) && (bits == 1 || Pow2(bits - 1) <= Val(ws))
  {
    var m := n - 1;
    ValTrailingZeros(ws, n);
    ValLast(ws[..n]);
    assert ws[..n][..m] == ws[..m];
    ValBound(ws[..m]);
    BitsOfTop(Val(ws), Val(ws[..m]), ws[m], m, b, bits);
  }

  /** TopWordBits on the values: v is the top word t at word m over a lower part. */
  lemma {:induction false} BitsOfTop(v: int, low: int, t: Word, m: nat, b: nat, bits: int)
    requires v == low + Scale(t, m) && 0 <= low < Scale(1, m) && (m == 0 || t != 0)
    requires b <= 32 && t < Pow2(b) && (b == 0 || t >= Pow2(b - 1))
    requires bits == if b + m * 32 == 0 then 1 else b + m * 32
    ensures v < Pow2(bits) && (bits == 1 || Pow2(bits - 1) <= v)
  {
    ScaleMonotone(t as int + 1, Pow2(b), m);
    ScaleAdd(t, 1, m);
    ScalePow2(b, m);
    if b > 0 {
      ScaleMonotone(Pow2(b - 1), t, m);
      ScalePow2(b - 1, m);
    } else if m > 0 {
      assert false;
    }
  }

}
