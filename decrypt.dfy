/**
 * ElGamalDecrypt.cs: a ciphertext block is split into the halves A and B,
 * M = B * (A^X mod P)^-1 mod P is recovered, and its bytes are left-padded
 * with zeros to the plaintext block size.
 */
module Decryption {
  import opened Words
  import opened BigInt
  import opened Bytes
  import opened Blocks
  import Numbers
  import Euclid

  /**
   * The two `Array.Copy`s into `a_bytes` and `b_bytes`, each h bytes long:
   * the first h bytes of the block and the h bytes after them. A block
   * shorter than 2h bytes makes one of them throw.
   */
  method SplitHalves(c: seq<Byte>, h: nat) returns (ok: bool, a: seq<Byte>, b: seq<Byte>)
    ensures ok <==> |c| >= 2 * h
    ensures ok ==> a == c[..h] && b == c[h..2 * h]
  {
    var aBytes := new Byte[h](_ => 0);
    ok := ArrayCopy(c, 0, aBytes, 0, h);
    if !ok {
      return false, [], [];
    }
    var bBytes := new Byte[h](_ => 0);
    ok := ArrayCopy(c, h, bBytes, 0, h);
    if !ok {
      return false, [], [];
    }
    a, b := aBytes[..], bBytes[..];
  }

  /**
   * `M = (B * A.modPow(X, P).modInverse(P)) % P` with A and B read from the
   * byte halves a and b: modInverse fails ("No inverse!") unless the shared
   * secret s = A^X mod P has an inverse, and for s <= 1 it always fails.
   * Below 2^1056 nothing else can fail.
   */
  method Recover(key: Key, a: seq<Byte>, b: seq<Byte>, h: nat) returns (r: Result<BigInteger>)
    requires KeyRange(key) && |a| == h && |b| == h && h <= 132 && Pow2(8 * h) <= Pow(33)
    ensures var s := Numbers.Power(BytesValue(a), Value(key.X)) % Value(key.P);
      r.Ok? ==> (Canonical(r.value) && 0 <= Value(r.value) < Value(key.P)
                 && exists inv :: Inverse(s, inv, Value(key.P)) && Value(r.value) == (BytesValue(b) * inv) % Value(key.P))
    ensures var s := Numbers.Power(BytesValue(a), Value(key.X)) % Value(key.P);
      r.Err? <==> Numbers.Gcd(s, Value(key.P)) != 1 || s <= 1
    ensures r.Err? ==> r.error == NoInverse
  {
    ghost var P := Value(key.P);
    PowMonotone(33, W - 2);
    var A := FromBytes(a, -1, 0);
    assert Window(a, 0, |a|) == a;
    ShortBlock(a, h);
    var B := FromBytes(b, -1, 0);
    assert Window(b, 0, |b|) == b;
    ShortBlock(b, h);
    var s := PowMod(A.value, key.X, key.P);
    var inv := Euclid.ModInverse(s, key.P);
    if inv.Err? {
      return Err(inv.error);
    }
    var M := ProductMod(B.value, inv.value, key.P);
    assert Inverse(Value(s), Value(inv.value), P);
    r := Ok(M);
  }

  /**
   * The left padding of ProcessDataBlock: bytes shorter than the block size
   * are copied to the end of a zeroed block of that size.
   */
  method LeftPad(bs: seq<Byte>, size: int) returns (out: seq<Byte>)
    ensures out == if |bs| < size then Zeros(size - |bs|) + bs else bs
  {
    if |bs| < size {
      var full := new Byte[size](_ => 0);
      var ok := ArrayCopy(bs, 0, full, size - |bs|, |bs|);
      assert bs[0..0 + |bs|] == bs;
      return full[..];
    }
    return bs;
  }

  /** `M.getBytes()` left-padded with zeros to the block size: M's bytes, at least size of them. */
  method PlainBytes(M: BigInteger, size: int) returns (out: seq<Byte>)
    requires Canonical(M) && 0 <= Value(M)
    ensures BytesValue(out) == Value(M)
    ensures |out| == if ByteLength(Value(M)) < size then size else ByteLength(Value(M))
  {
    var mBytes := GetBytes(M);
    NonNegativeVal(M);
    out := LeftPad(mBytes, size);
    if |mBytes| < size {
      LeadingZeros(size - |mBytes|, mBytes);
    }
  }

  /**
   * ProcessDataBlock of ElGamalDecrypt.cs: split, recover M, and write
   * getBytes(M) left-padded to the plaintext block size.
   */
  method DecryptBlock(key: Key, pbs: int, ct: int, c: seq<Byte>) returns (r: Result<seq<Byte>>)
    requires KeyRange(key) && pbs == PlaintextBlockSize(BitCount(Value(key.P)))
    requires ct == CiphertextBlockSize(BitCount(Value(key.P)))
    ensures |c| < ct ==> r == Err(IndexOutOfRange)
    ensures |c| >= ct ==> (r.Err? ==> r.error == NoInverse)
    ensures r.Ok? ==> |c| >= ct && DecryptsTo(Value(key.P), Value(key.X), pbs, c[..ct], r.value)
    ensures |c| >= ct ==> (r.Err? <==> !Invertible(Value(key.P), Value(key.X), c[..ct]))
  {
    ghost var P := Value(key.P);
    HalfBelow(P);
    BlockSizes(P);
    var h := ct / 2;
    var ok, a, b := SplitHalves(c, h);
    if !ok {
      return Err(IndexOutOfRange);
    }
    assert c[..ct][..|c[..ct]| / 2] == a;
    var M := Recover(key, a, b, h);
    if M.Err? {
      return Err(M.error);
    }
    var out := PlainBytes(M.value, pbs);
    DecryptsFrom(P, Value(key.X), pbs, a, b, Value(M.value), out);
    assert c[..ct] == a + b;
    r := Ok(out);
  }
}
