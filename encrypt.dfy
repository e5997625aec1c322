/**
 * ElGamalEncrypt.cs: the choice of the random K, the computation of
 * A = G^K mod P and B = (Y^K mod P) * M mod P, their right-aligned layout in
 * a ciphertext block, and the zero padding of the final block.
 */
module Encryption {
  import opened Words
  import opened BigInt
  import opened Bytes
  import opened Blocks
  import Numbers
  import Divide
  import Additive
  import Construct
  import Multiply
  import ModPow
  import Euclid

  /**
   * A result of `genRandomBits(n)` for n >= 1: n random bits, the top one
   * forced to 1 when n > 1.
   */
  ghost predicate Draw(k: BigInteger, n: int)
  {
    n >= 1 && Canonical(k) && 0 <= Value(k) < Pow2(n) && (n > 1 ==> Pow2(n - 1) <= Value(k))
  }

  /** K ends the retry loop: `K.gcd(P - 1) == 1`. */
  ghost predicate Coprime(k: BigInteger, p: int)
  {
    |k.data| == W && Numbers.Gcd(Abs(Value(k)), Abs(p - 1)) == 1
  }

  /** The values of the draws the retry loop accepts, in the order drawn. */
  ghost function Accepted(draws: seq<BigInteger>, p: int): seq<int>
  {
    if |draws| == 0 then []
    else
      var k := draws[|draws| - 1];
      Accepted(draws[..|draws| - 1], p) + if Coprime(k, p) then [Value(k)] else []
  }

  /** Draws taken in two runs are accepted as in one. */
  lemma {:induction false} AcceptedConcat(a: seq<BigInteger>, b: seq<BigInteger>, p: int)
    ensures Accepted(a + b, p) == Accepted(a, p) + Accepted(b, p)
    decreases |b|
  {
    if |b| > 0 {
      var n := |b| - 1;
      assert (a + b)[..|a + b| - 1] == a + b[..n];
      AcceptedConcat(a, b[..n], p);
    } else {
      assert a + b == a;
    }
  }

  /** rest is what is left of draws once some have been taken from its front. */
  ghost predicate Remains(rest: seq<BigInteger>, draws: seq<BigInteger>)
  {
    |rest| <= |draws| && rest == draws[|draws| - |rest|..]
  }

  /** The draws taken from the front of draws, leaving rest. */
  ghost function Taken(draws: seq<BigInteger>, rest: seq<BigInteger>): seq<BigInteger>
    requires |rest| <= |draws|
  {
    draws[..|draws| - |rest|]
  }

  /**
   * Taking draws in two runs, the first accepting the values ks and the
   * second accepting only K, accepts ks + [K] from the draws taken overall.
   */
  lemma {:induction false} AcceptedStep(draws: seq<BigInteger>, mid: seq<BigInteger>, rest: seq<BigInteger>,
                                        ks: seq<int>, K: int, p: int)
    requires Remains(mid, draws) && Remains(rest, mid)
    requires ks == Accepted(Taken(draws, mid), p) && Accepted(Taken(mid, rest), p) == [K]
    ensures Remains(rest, draws) && ks + [K] == Accepted(Taken(draws, rest), p)
  {
    assert Taken(draws, rest) == Taken(draws, mid) + Taken(mid, rest);
    AcceptedConcat(Taken(draws, mid), Taken(mid, rest), p);
  }

  /**
   * The do-while of ProcessDataBlock: draw K with `bitCount(P) - 1` random
   * bits until gcd(K, P - 1) == 1. The successive draws are the list
   * `draws`; the model fails with RandomExhausted when it runs out. `used`
   * is the number of draws taken.
   */
  method SelectK(p: BigInteger, draws: seq<BigInteger>) returns (r: Result<BigInteger>, used: nat)
    requires Canonical(p) && 1 < Value(p) < Pow(33)
    requires forall i :: 0 <= i < |draws| ==> Draw(draws[i], BitCount(Value(p)) - 1)
    ensures used <= |draws|
    ensures r.Ok? ==> (0 < used && r.value == draws[used - 1] && Coprime(r.value, Value(p))
                       && Accepted(draws[..used], Value(p)) == [Value(r.value)])
    ensures r.Err? ==> r == Err(RandomExhausted) && used == |draws| && Accepted(draws, Value(p)) == []
  {
    ghost var P := Value(p);
    ghost var bits := BitCount(P);
    Bits.BitLengthBounds(P);
    PowMonotone(33, W - 2);
    var one := Construct.FromLong(1);
    var pSub1 := Additive.Subtract(p, one);
    ModPow.PowBelowHalf(33);
    assert pSub1.Ok?;
    used := 0;
    while used < |draws|
      invariant used <= |draws|
      invariant Accepted(draws[..used], P) == []
    {
      var k := draws[used];
      assert Draw(k, bits - 1);
      assert Divide.ShortDivisor(Value(k));
      var g := Euclid.Gcd(k, pSub1.value);
      assert draws[..used + 1][..used] == draws[..used];
      used := used + 1;
      var isOne := Equals(g.value, one);
      if isOne {
        return Ok(k), used;
      }
    }
    assert draws[..used] == draws;
    return Err(RandomExhausted), used;
  }

  /**
   * The body of ProcessDataBlock after the choice of K: A = G^K mod P and
   * B = (Y^K mod P) * M mod P, each written right-aligned into its half of a
   * zeroed block of ciphertext_blocksize bytes.
   */
  method EncryptBlock(key: Key, ct: int, block: seq<Byte>, K: BigInteger) returns (c: seq<Byte>)
    requires KeyRange(key) && ct == CiphertextBlockSize(BitCount(Value(key.P)))
    requires Canonical(K) && 0 <= Value(K) && |block| <= ct / 2
    ensures |c| == ct && Encrypts(Value(key.P), Value(key.G), Value(key.Y), Value(K), block, c)
  {
    HalfBelow(Value(key.P));
    BlockSizes(Value(key.P));
    var a, b := Exponentiate(key, ct / 2, block, K);
    c := Layout(a, b, ct);
  }

  /** A = G^K mod P and B = (Y^K mod P) * M mod P, M the block read big-endian. */
  method Exponentiate(key: Key, h: nat, block: seq<Byte>, K: BigInteger) returns (a: BigInteger, b: BigInteger)
    requires KeyRange(key) && Canonical(K) && 0 <= Value(K)
    requires |block| <= h <= 132 && Pow2(8 * h) <= Pow(33)
    ensures Canonical(a) && Value(a) == Numbers.Power(Value(key.G), Value(K)) % Value(key.P)
    ensures Canonical(b)
      && Value(b) == (Numbers.Power(Value(key.Y), Value(K)) % Value(key.P) * BytesValue(block)) % Value(key.P)
  {
    a := PowMod(key.G, K, key.P);
    var yk := PowMod(key.Y, K, key.P);
    var m := FromBytes(block, -1, 0);
    assert Window(block, 0, |block|) == block;
    ShortBlock(block, h);
    assert m.Ok? && Value(m.value) == BytesValue(block);
    b := ProductMod(yk, m.value, key.P);
  }

  /**
   * `cipher_result`: a zeroed block of ct bytes, A's bytes copied to end at
   * ct / 2 and B's bytes copied to end at ct.
   */
  method Layout(a: BigInteger, b: BigInteger, ct: int) returns (c: seq<Byte>)
    requires Canonical(a) && Canonical(b) && ct >= 2 && ct % 2 == 0
    requires 0 <= Value(a) < Pow2(8 * (ct / 2)) && 0 <= Value(b) < Pow2(8 * (ct / 2))
    ensures |c| == ct && BytesValue(c[..ct / 2]) == Value(a) && BytesValue(c[ct / 2..]) == Value(b)
  {
    var h := ct / 2;
    var aBytes := GetBytes(a);
    var bBytes := GetBytes(b);
    NonNegativeVal(a);
    NonNegativeVal(b);
    ByteLengthBelow(Value(a), h);
    ByteLengthBelow(Value(b), h);
    c := Place(aBytes, bBytes, h);
    PlacedHalves(aBytes, bBytes, h);
  }

  /** The copies into `cipher_result`: a zeroed block with a ending at h and b ending at 2h. */
  method Place(a: seq<Byte>, b: seq<Byte>, h: nat) returns (c: seq<Byte>)
    requires |a| <= h && |b| <= h
    ensures c == Zeros(h - |a|) + a + Zeros(h - |b|) + b
  {
    var cipher := new Byte[2 * h](_ => 0);
    ghost var z := cipher[..];
    assert z == Zeros(2 * h);
    var ok := ArrayCopy(a, 0, cipher, h - |a|, |a|);
    assert a[0..0 + |a|] == a;
    assert cipher[..] == Zeros(h - |a|) + a + Zeros(h);
    ok := ArrayCopy(b, 0, cipher, 2 * h - |b|, |b|);
    assert b[0..0 + |b|] == b;
    c := cipher[..];
  }

  /**
   * The final block before ProcessDataBlock: one shorter than the block
   * size is copied into a zeroed block of the full size, so that the
   * plaintext is followed by zero bytes; a longer one is passed unchanged.
   */
  method Pad(last: seq<Byte>, size: int) returns (block: seq<Byte>)
    ensures block == if |last| < size then last + Zeros(size - |last|) else last
  {
    if |last| < size {
      var padded := new Byte[size](_ => 0);
      var ok := ArrayCopy(last, 0, padded, 0, |last|);
      return padded[..];
    }
    return last;
  }
}
