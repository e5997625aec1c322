/**
 * What the ElGamal classes of ElGamalCipher.cs, ElGamalEncrypt.cs and
 * ElGamalDecrypt.cs share: the key, the block sizes derived from the bit
 * count of P, `Array.Copy`, and what a ciphertext block means.
 */
module Blocks {
  import opened Words
  import opened BigInt
  import opened Bytes
  import Bits
  import Numbers
  import Divide
  import ModPow
  import Multiply

  /** ElGamalKeyStruct: the prime P, the generator G, the public Y and the private X. */
  datatype Key = Key(P: BigInteger, G: BigInteger, Y: BigInteger, X: BigInteger)

  /**
   * The keys the block layer is modelled for: canonical parts, a modulus
   * 1 < P < 2^1056 and non-negative G, Y and X.
   */
  ghost predicate KeyRange(key: Key)
  {
    Canonical(key.P) && Canonical(key.G) && Canonical(key.Y) && Canonical(key.X)
    && 1 < Value(key.P) < Pow(33) && 0 <= Value(key.G) && 0 <= Value(key.Y) && 0 <= Value(key.X)
  }

  // ---------------------------------------------------------------------
  // Block sizes
  // ---------------------------------------------------------------------

  /** `bitCount()` of a non-negative value: its bit length, and 1 for zero. */
  ghost function BitCount(x: nat): nat
  {
    if x == 0 then 1 else Bits.BitLength(x)
  }

  /** plaintext_blocksize: the whole bytes below the top bit of P. */
  function PlaintextBlockSize(bits: int): int
  {
    (bits - 1) / 8
  }

  /** ciphertext_blocksize: two halves of ceil(bits / 8) bytes. */
  function CiphertextBlockSize(bits: int): int
  {
    ((bits + 7) / 8) * 2
  }

  /**
   * Every plaintext block is a number below P, P fits in half a ciphertext
   * block, and the ciphertext block size is even.
   */
  lemma {:induction false} BlockSizes(p: nat)
    requires p > 0
    ensures Pow2(8 * PlaintextBlockSize(BitCount(p))) <= p
    ensures p < Pow2(8 * (CiphertextBlockSize(BitCount(p)) / 2))
    ensures CiphertextBlockSize(BitCount(p)) % 2 == 0 && CiphertextBlockSize(BitCount(p)) >= 2
  {
    var bits := Bits.BitLength(p);
    Bits.BitLengthBounds(p);
    Pow2Monotone(8 * PlaintextBlockSize(bits), bits - 1);
    Pow2Monotone(bits, 8 * ((bits + 7) / 8));
  }

  /** The bits `bitCount()` reports are the ghost BitCount. */
  lemma {:induction false} BitCountIs(x: nat, bits: int)
    requires 1 <= bits && x < Pow2(bits) && (bits == 1 || Pow2(bits - 1) <= x)
    ensures BitCount(x) == bits
  {
    if bits > 1 {
      Pow2Monotone(0, bits - 1);
    }
    if x > 0 {
      Bits.BitLengthUnique(x, bits);
    }
  }

  /** Below b^k half a ciphertext block holds at most 4k bytes. */
  lemma {:induction false} HalfWithin(p: nat, k: nat)
    requires 0 < p < Pow(k)
    ensures 1 <= CiphertextBlockSize(BitCount(p)) / 2 && 8 * (CiphertextBlockSize(BitCount(p)) / 2) <= 32 * k
    ensures Pow2(8 * (CiphertextBlockSize(BitCount(p)) / 2)) <= Pow(k)
  {
    var bits := Bits.BitLength(p);
    Bits.BitLengthBounds(p);
    PowIsPow2(k);
    if bits > 32 * k {
      Pow2Monotone(32 * k, bits - 1);
    }
    var h := (bits + 7) / 8;
    assert h <= 4 * k by {
      DivModUnique(32 * k + 7, 8, 4 * k, 7);
    }
    Pow2Monotone(8 * h, 32 * k);
  }

  /** Below 2^1056 half a ciphertext block holds at most 132 bytes. */
  lemma {:induction false} HalfBelow(p: nat)
    requires 0 < p < Pow(33)
    ensures 1 <= CiphertextBlockSize(BitCount(p)) / 2 <= 132
    ensures Pow2(8 * (CiphertextBlockSize(BitCount(p)) / 2)) <= Pow(33)
  {
    HalfWithin(p, 33);
  }

  // ---------------------------------------------------------------------
  // Byte sequences
  // ---------------------------------------------------------------------

  /** n zero bytes: a fresh `new byte[n]`. */
  function Zeros(n: nat): (z: seq<Byte>)
    ensures |z| == n && forall i :: 0 <= i < n ==> z[i] == 0
  {
    seq(n, _ => 0)
  }

  /** The per-block outputs written one after the other into the stream. */
  function Flatten(outs: seq<seq<Byte>>): seq<Byte>
  {
    if |outs| == 0 then [] else Flatten(outs[..|outs| - 1]) + outs[|outs| - 1]
  }

  /** The number of blocks of size bytes n bytes fill: ceil(n / size). */
  function BlockCount(n: nat, size: nat): nat
    requires size > 0
  {
    (n + size - 1) / size
  }

  /** data with zero bytes after it up to a whole number of blocks. */
  function Padded(data: seq<Byte>, size: nat): (pd: seq<Byte>)
    requires size > 0
    ensures |pd| == BlockCount(|data|, size) * size
  {
    var q := |data| / size;
    var pad := if |data| % size == 0 then 0 else size - |data| % size;
    assert |data| + pad == BlockCount(|data|, size) * size by {
      if |data| % size != 0 {
        DivModUnique(|data| + size - 1, size, q + 1, |data| % size - 1);
      } else {
        DivModUnique(|data| + size - 1, size, q, size - 1);
      }
    }
    data + Zeros(pad)
  }

  /** The i-th block of size bytes of s (empty past the end). */
  function BlockAt(s: seq<Byte>, size: nat, i: nat): seq<Byte>
  {
    if (i + 1) * size <= |s| then s[i * size..(i + 1) * size] else []
  }

  /** Each of the k blocks of a stream of k blocks has size bytes. */
  lemma {:induction false} BlockLength(s: seq<Byte>, size: nat, k: nat, i: nat)
    requires i < k && |s| == k * size
    ensures (i + 1) * size <= |s| && |BlockAt(s, size, i)| == size
  {
    MulLe(i + 1, k, size);
    assert (i + 1) * size == i * size + size;
  }

  /** The complete blocks of n bytes end n % size bytes before n. */
  lemma {:induction false} CompleteBlocks(n: nat, size: nat)
    requires size > 0
    ensures 0 <= n / size && (n / size) * size == n - n % size && n % size <= n && n % size < size
  {
  }

  /** A block index below n / size starts and ends inside n bytes. */
  lemma {:induction false} BlockInside(n: nat, size: nat, i: nat)
    requires size > 0 && i < n / size
    ensures (i + 1) * size <= n && i * size + size <= n
  {
    MulLe(i + 1, n / size, size);
  }

  /** The full blocks of data are blocks of its padding. */
  lemma {:induction false} PaddedPrefix(data: seq<Byte>, size: nat, i: nat)
    requires size > 0 && (i + 1) * size <= |data|
    ensures BlockAt(Padded(data, size), size, i) == BlockAt(data, size, i)
  {
    var pd := Padded(data, size);
    assert pd[..|data|] == data;
  }

  /** The last block of the padding of data is its partial block followed by zeros. */
  lemma {:induction false} PaddedLast(data: seq<Byte>, size: nat)
    requires size > 0 && |data| % size != 0
    ensures var q := |data| / size;
      BlockAt(Padded(data, size), size, q) == data[q * size..] + Zeros(size - |data| % size)
      && BlockCount(|data|, size) == q + 1
  {
    var q, rem := |data| / size, |data| % size;
    DivModUnique(|data| + size - 1, size, q + 1, rem - 1);
    var pd := Padded(data, size);
    var lo := q * size;
    assert pd == data + Zeros(size - rem);
    assert (q + 1) * size == lo + size;
    assert |data| == lo + rem;
    assert pd[lo..lo + size] == data[lo..] + Zeros(size - rem);
  }

  /** Without a partial block data is its own padding, with n / size blocks. */
  lemma {:induction false} PaddedWhole(data: seq<Byte>, size: nat)
    requires size > 0 && |data| % size == 0
    ensures Padded(data, size) == data && BlockCount(|data|, size) == |data| / size
  {
    DivModUnique(|data| + size - 1, size, |data| / size, size - 1);
  }

  /** Zero bytes in front do not change a big-endian value. */
  lemma {:induction false} LeadingZeros(n: nat, bs: seq<Byte>)
    ensures BytesValue(Zeros(n) + bs) == BytesValue(bs)
  {
    BytesConcat(Zeros(n), bs);
    ZerosValue(n);
  }

  lemma {:induction false} ZerosValue(n: nat)
    ensures BytesValue(Zeros(n)) == 0
  {
    if n > 0 {
      assert Zeros(n)[..n - 1] == Zeros(n - 1);
      ZerosValue(n - 1);
    }
  }

  /** Byte sequences of one length are equal when their values are. */
  lemma {:induction false} BytesInjective(a: seq<Byte>, b: seq<Byte>)
    requires |a| == |b| && BytesValue(a) == BytesValue(b)
    ensures a == b
  {
    if |a| > 0 {
      var n := |a| - 1;
      var x, y := BytesValue(a[..n]), BytesValue(b[..n]);
      DivModUnique(BytesValue(a), 256, x, a[n]);
      DivModUnique(BytesValue(a), 256, y, b[n]);
      BytesInjective(a[..n], b[..n]);
      assert a == a[..n] + [a[n]] && b == b[..n] + [b[n]];
    }
  }

  /** The length `getBytes()` gives a non-negative value: its minimal bytes, one for zero. */
  ghost function ByteLength(x: nat): nat
  {
    if x == 0 then 1 else MinBytes(x)
  }

  /** A value below 2^(8n) with n >= 1 takes at most n bytes. */
  lemma {:induction false} ByteLengthBelow(x: nat, n: nat)
    requires n >= 1 && x < Pow2(8 * n)
    ensures ByteLength(x) <= n
  {
    if x > 0 && MinBytes(x) > n {
      MinBytesBounds(x);
      Pow2Monotone(8 * n, 8 * (MinBytes(x) - 1));
    }
  }

  /** A non-negative BigInteger is worth its unsigned word value, which getBytes writes out. */
  lemma {:induction false} NonNegativeVal(x: BigInteger)
    requires |x.data| == W && 0 <= Value(x)
    ensures Val(x.data) == Value(x)
  {
    ValueIsSigned(x);
  }

  /** A block of at most 132 bytes reads as a non-negative value below 2^1056. */
  lemma {:induction false} ShortBlock(bs: seq<Byte>, h: nat)
    requires |bs| <= h && Pow2(8 * h) <= Pow(33)
    ensures BytesValue(bs) < Pow(33) && Signed(BytesValue(bs)) == BytesValue(bs)
  {
    BytesBound(bs);
    Pow2Monotone(8 * |bs|, 8 * h);
    ModPow.PowBelowHalf(33);
  }

  /** Two values below 2^1056 multiply without leaving the range. */
  lemma {:induction false} ProductInRange(x: int, y: int)
    requires 0 <= x < Pow(33) && 0 <= y < Pow(33)
    ensures 0 <= x * y && InRange(x * y)
  {
    PowAdd(33, 33);
    MulLe(x, Pow(33), y);
    MulLe(y, Pow(33), Pow(33));
    ModPow.PowBelowHalf(66);
  }

  /** What `modPow` returns for a non-negative base and a modulus p > 1 is base^e mod p. */
  lemma {:induction false} ModPowValue(b: nat, e: nat, p: nat, v: int)
    requires p > 1 && (e == 0 ==> v == 1) && (e > 0 ==> v == Divide.Rem(Numbers.Power(b, e), p))
    ensures v == Numbers.Power(b, e) % p && 0 <= v < p
  {
    Numbers.PowerNonNegative(b, e);
    if e > 0 {
      ModPow.RemainderOfMagnitude(Numbers.Power(b, e), p);
    }
  }

  /** The truncating `%` of a non-negative x by p > 0 is x mod p. */
  lemma {:induction false} RemValue(x: nat, p: nat)
    requires p > 0
    ensures Divide.Rem(x, p) == x % p
  {
    ModPow.RemainderOfMagnitude(x, p);
  }

  /** The two halves of a block written as zeros, a, zeros, b. */
  lemma {:induction false} Halves(za: seq<Byte>, a: seq<Byte>, zb: seq<Byte>, b: seq<Byte>, h: nat)
    requires |za| + |a| == h && |zb| + |b| == h
    ensures (za + a + zb + b)[..h] == za + a && (za + a + zb + b)[h..] == zb + b
  {
    assert za + a + zb + b == (za + a) + (zb + b);
  }

  /** The block Place writes: each half reads as the value right-aligned in it. */
  lemma {:induction false} PlacedHalves(a: seq<Byte>, b: seq<Byte>, h: nat)
    requires |a| <= h && |b| <= h
    ensures var c := Zeros(h - |a|) + a + Zeros(h - |b|) + b;
      |c| == 2 * h && BytesValue(c[..h]) == BytesValue(a) && BytesValue(c[h..]) == BytesValue(b)
  {
    Halves(Zeros(h - |a|), a, Zeros(h - |b|), b, h);
    LeadingZeros(h - |a|, a);
    LeadingZeros(h - |b|, b);
  }

  // ---------------------------------------------------------------------
  // The arithmetic of a block
  // ---------------------------------------------------------------------

  /** `x.modPow(e, P)` for the key's ranges: x^e mod P, which cannot fail there. */
  method PowMod(x: BigInteger, e: BigInteger, p: BigInteger) returns (r: BigInteger)
    requires Canonical(x) && Canonical(e) && Canonical(p)
    requires 0 <= Value(x) && 0 <= Value(e) && 1 < Value(p) < Pow(33)
    ensures Canonical(r) && Value(r) == Numbers.Power(Value(x), Value(e)) % Value(p)
  {
    var v := ModPow.ModPow(x, e, p);
    assert v.Ok?;
    ModPowValue(Value(x), Value(e), Value(p), Value(v.value));
    r := v.value;
  }

  /** `(x * y) % P` for factors below 2^1056: the product mod P, which cannot fail there. */
  method ProductMod(x: BigInteger, y: BigInteger, p: BigInteger) returns (r: BigInteger)
    requires Canonical(x) && Canonical(y) && Canonical(p)
    requires 0 <= Value(x) < Pow(33) && 0 <= Value(y) < Pow(33) && 1 < Value(p) < Pow(33)
    ensures Canonical(r) && Value(r) == (Value(x) * Value(y)) % Value(p)
  {
    ProductInRange(Value(x), Value(y));
    var prod := Multiply.Multiply(x, y);
    PowMonotone(33, W - 2);
    var rem := Divide.Remainder(prod.value, p);
    RemValue(Value(prod.value), Value(p));
    r := rem.value;
  }

  // ---------------------------------------------------------------------
  // Array.Copy
  // ---------------------------------------------------------------------

  /**
   * `Array.Copy(src, srcIndex, dst, dstIndex, length)`: it throws unless both
   * ranges lie inside their arrays; otherwise it overwrites exactly the
   * destination range with the source range.
   */
  method ArrayCopy(src: seq<Byte>, srcIndex: int, dst: array<Byte>, dstIndex: int, length: int) returns (ok: bool)
    modifies dst
    ensures ok <==> (0 <= srcIndex && 0 <= dstIndex && 0 <= length
                     && srcIndex + length <= |src| && dstIndex + length <= dst.Length)
    ensures ok ==> dst[..] == old(dst[..dstIndex]) + src[srcIndex..srcIndex + length] + old(dst[dstIndex + length..])
    ensures !ok ==> dst[..] == old(dst[..])
  {
    if srcIndex < 0 || dstIndex < 0 || length < 0 || srcIndex + length > |src| || dstIndex + length > dst.Length {
      return false;
    }
    var i := 0;
    while i < length
      invariant 0 <= i <= length
      invariant forall j :: 0 <= j < dst.Length ==>
        dst[j] == if dstIndex <= j < dstIndex + i then src[srcIndex + j - dstIndex] else old(dst[j])
    {
      dst[dstIndex + i] := src[srcIndex + i];
      i := i + 1;
    }
    assert dst[..] == old(dst[..dstIndex]) + src[srcIndex..srcIndex + length] + old(dst[dstIndex + length..]);
    return true;
  }

  // ---------------------------------------------------------------------
  // What a ciphertext block means
  // ---------------------------------------------------------------------

  /**
   * c encrypts the block m with the random K (Algorithm 8.18 of the Handbook
   * of Applied Cryptography): its first half reads A = G^K mod P and its
   * second half B = (Y^K mod P) * M mod P, M being m read big-endian.
   */
  ghost predicate Encrypts(p: nat, g: int, y: int, K: nat, m: seq<Byte>, c: seq<Byte>)
    requires p > 0
  {
    var half := |c| / 2;
    |c| % 2 == 0
    && BytesValue(c[..half]) == Numbers.Power(g, K) % p
    && BytesValue(c[half..]) == (Numbers.Power(y, K) % p * BytesValue(m)) % p
  }

  /** inv is an inverse of s modulo p. */
  ghost predicate Inverse(s: int, inv: int, p: nat)
    requires p > 0
  {
    (s * inv) % p == 1 % p
  }

  /**
   * m is what the ciphertext block c decrypts to: with A and B its halves,
   * M = B * (A^X mod P)^-1 mod P, written as getBytes(M) left-padded with
   * zeros to the plaintext block size.
   */
  ghost predicate DecryptsTo(p: nat, x: nat, size: nat, c: seq<Byte>, m: seq<Byte>)
    requires p > 0
  {
    var half := |c| / 2;
    var s := Numbers.Power(BytesValue(c[..half]), x) % p;
    var M := BytesValue(m);
    |c| % 2 == 0 && M < p
    && (exists inv :: Inverse(s, inv, p) && M == (BytesValue(c[half..]) * inv) % p)
    && |m| == if ByteLength(M) < size then size else ByteLength(M)
  }

  /**
   * The shared secret s = A^X mod P of the ciphertext block c, A its first
   * half, is one `modInverse` inverts: s > 1 and gcd(s, P) = 1.
   */
  ghost predicate Invertible(p: nat, x: nat, c: seq<Byte>)
    requires p > 0
  {
    var s := Numbers.Power(BytesValue(c[..|c| / 2]), x) % p;
    Numbers.Gcd(s, p) == 1 && s > 1
  }

  /** Some complete block of ct bytes of the stream c has a secret `modInverse` refuses. */
  ghost predicate SomeUninvertible(key: Key, ct: nat, c: seq<Byte>)
    requires KeyRange(key)
  {
    ct > 0 && exists j :: 0 <= j < |c| / ct && !Invertible(Value(key.P), Value(key.X), BlockAt(c, ct, j))
  }

  /**
   * The secret a decryption with the key computes from a block encrypted
   * with K, (G^K mod P)^X mod P, is one `modInverse` inverts.
   */
  ghost predicate SecretInvertible(key: Key, K: nat)
    requires KeyRange(key)
  {
    var P := Value(key.P);
    var s := Numbers.Power(Numbers.Power(Value(key.G), K) % P, Value(key.X)) % P;
    Numbers.Gcd(s, P) == 1 && s > 1
  }

  /** The steps of ProcessDataBlock in ElGamalDecrypt.cs establish DecryptsTo. */
  lemma {:induction false} DecryptsFrom(p: nat, x: nat, size: nat, a: seq<Byte>, b: seq<Byte>, M: nat, out: seq<Byte>)
    requires p > 0 && |a| == |b| && M < p
    requires exists inv :: Inverse(Numbers.Power(BytesValue(a), x) % p, inv, p) && M == (BytesValue(b) * inv) % p
    requires BytesValue(out) == M && |out| == if ByteLength(M) < size then size else ByteLength(M)
    ensures DecryptsTo(p, x, size, a + b, out)
  {
    assert (a + b)[..|a + b| / 2] == a && (a + b)[|a + b| / 2..] == b;
  }

  /**
   * A whole encryption: outs[i], ct bytes long, encrypts with the key ks[i]
   * the i-th block of data zero-padded to whole blocks of pbs bytes.
   */
  ghost predicate EncryptedBlocks(key: Key, pbs: nat, ct: nat, data: seq<Byte>, outs: seq<seq<Byte>>, ks: seq<nat>)
    requires KeyRange(key)
  {
    pbs > 0 && |outs| == BlockCount(|data|, pbs) && |ks| == |outs|
    && forall i :: 0 <= i < |outs| ==>
         |outs[i]| == ct
         && Encrypts(Value(key.P), Value(key.G), Value(key.Y), ks[i], BlockAt(Padded(data, pbs), pbs, i), outs[i])
  }

  /** A whole decryption: c is |outs| blocks of ct bytes and outs[i] decrypts the i-th. */
  ghost predicate DecryptedBlocks(key: Key, pbs: nat, ct: nat, c: seq<Byte>, outs: seq<seq<Byte>>)
    requires KeyRange(key)
  {
    ct > 0 && |c| == |outs| * ct
    && forall i :: 0 <= i < |outs| ==> DecryptsTo(Value(key.P), Value(key.X), pbs, BlockAt(c, ct, i), outs[i])
  }

  /** One more output is written after the others. */
  lemma {:induction false} FlattenSnoc(outs: seq<seq<Byte>>, out: seq<Byte>)
    ensures Flatten(outs + [out]) == Flatten(outs) + out
  {
    assert (outs + [out])[..|outs|] == outs;
  }

  /** Outputs of n bytes each make a stream of |outs| * n bytes. */
  lemma {:induction false} FlattenLength(outs: seq<seq<Byte>>, n: nat)
    requires forall i :: 0 <= i < |outs| ==> |outs[i]| == n
    ensures |Flatten(outs)| == |outs| * n
  {
    if |outs| > 0 {
      FlattenLength(outs[..|outs| - 1], n);
    }
  }

  /** The i-th block of n bytes of a stream of outputs of n bytes each is the i-th output. */
  lemma {:induction false} FlattenBlock(outs: seq<seq<Byte>>, n: nat, i: nat)
    requires i < |outs| && forall j :: 0 <= j < |outs| ==> |outs[j]| == n
    ensures BlockAt(Flatten(outs), n, i) == outs[i]
    decreases |outs|
  {
    var init := outs[..|outs| - 1];
    FlattenLength(init, n);
    FlattenLength(outs, n);
    var front := Flatten(init);
    if i < |init| {
      FlattenBlock(init, n, i);
      MulLe(i + 1, |init|, n);
      assert (front + outs[|init|])[i * n..(i + 1) * n] == front[i * n..(i + 1) * n];
    } else {
      assert (i + 1) * n == |front| + n;
    }
  }

  /** A stream whose i-th block of size bytes is outs[i], for every i, is the outputs one after the other. */
  lemma {:induction false} FlattenBlocks(s: seq<Byte>, size: nat, outs: seq<seq<Byte>>)
    requires |s| == |outs| * size
    requires forall i :: 0 <= i < |outs| ==> outs[i] == BlockAt(s, size, i)
    ensures Flatten(outs) == s
    decreases |outs|
  {
    if |outs| > 0 {
      var k := |outs| - 1;
      var lo := k * size;
      assert |outs| * size == lo + size;
      var front := s[..lo];
      forall i | 0 <= i < k
        ensures outs[i] == BlockAt(front, size, i)
      {
        MulLe(i + 1, k, size);
        MulLe(i + 1, |outs|, size);
        assert outs[i] == s[i * size..(i + 1) * size];
        assert front[i * size..(i + 1) * size] == s[i * size..(i + 1) * size];
      }
      FlattenBlocks(front, size, outs[..k]);
      assert outs[k] == s[lo..];
      assert s == front + s[lo..];
    }
  }
}
