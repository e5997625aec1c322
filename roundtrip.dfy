/**
 * Why decrypting what ElGamalEncrypt.cs writes gives back the plaintext
 * (Algorithm 8.18 of the Handbook of Applied Cryptography): the shared
 * secret (G^K)^X that decryption computes from A is the mask (G^X)^K that
 * encryption multiplied into B, and multiplying B by its inverse leaves M.
 */
module RoundTrip {
  import opened Words
  import opened Bytes
  import opened Blocks
  import opened Numbers
  import opened BigInt

  /** What decryption computes from A = G^K mod P is G^(K * X) modulo P. */
  lemma {:induction false} SharedSecret(p: nat, g: int, x: nat, K: nat, A: int)
    requires p > 0 && A == Power(g, K) % p
    ensures Congruent(Power(A, x) % p, Power(g, K * x), p)
  {
    ModCongruent(Power(g, K), p);
    CongruentPower(A, Power(g, K), x, p);
    PowerMul(g, K, x);
    ModCongruent(Power(A, x), p);
    CongruentTrans(Power(A, x) % p, Power(A, x), Power(g, K * x), p);
  }

  /** What encryption multiplies into B, (G^X mod P)^K mod P, is also G^(K * X) modulo P. */
  lemma {:induction false} Mask(p: nat, g: int, x: nat, K: nat)
    requires p > 0
    ensures Congruent(Power(Power(g, x) % p, K) % p, Power(g, K * x), p)
  {
    var y := Power(g, x) % p;
    ModCongruent(Power(g, x), p);
    CongruentPower(y, Power(g, x), K, p);
    PowerMul(g, x, K);
    assert x * K == K * x;
    ModCongruent(Power(y, K), p);
    CongruentTrans(Power(y, K) % p, Power(y, K), Power(g, K * x), p);
  }

  /**
   * B = t * M mod P with t the mask, multiplied by an inverse of a secret s
   * congruent to the mask, is congruent to M.
   */
  lemma {:induction false} Unmask(p: nat, S: int, s: int, t: int, inv: int, M: int, B: int)
    requires p > 0 && Congruent(s, S, p) && Congruent(t, S, p)
    requires B == (t * M) % p && Inverse(s, inv, p)
    ensures Congruent(B * inv, M, p)
  {
    // B * inv == (t * M) * inv, modulo p
    ModCongruent(t * M, p);
    CongruentRefl(inv, p);
    CongruentMul(B, t * M, inv, inv, p);
    // (t * M) * inv == (s * inv) * M, modulo p
    CongruentSym(s, S, p);
    CongruentTrans(t, S, s, p);
    CongruentRefl(M * inv, p);
    CongruentMul(t, s, M * inv, M * inv, p);
    assert (t * M) * inv == t * (M * inv) && s * (M * inv) == (s * inv) * M;
    // (s * inv) * M == 1 * M, modulo p
    ModCongruent(s * inv, p);
    ModCongruent(1, p);
    CongruentSym((s * inv) % p, s * inv, p);
    CongruentTrans(s * inv, (s * inv) % p, 1, p);
    CongruentRefl(M, p);
    CongruentMul(s * inv, 1, M, M, p);
    CongruentTrans(B * inv, (t * M) * inv, (s * inv) * M, p);
    CongruentTrans(B * inv, (s * inv) * M, M, p);
  }

  /**
   * One block: with the public key Y = G^X mod P, decrypting an encryption
   * of a plaintext block of size bytes (size >= 1, its value below P) gives
   * back exactly that block.
   */
  lemma {:induction false} BlockRoundTrip(p: nat, g: int, x: nat, K: nat, size: nat, m: seq<Byte>, c: seq<Byte>, out: seq<Byte>)
    requires p > 1 && size >= 1 && |m| == size && BytesValue(m) < p
    requires Encrypts(p, g, Power(g, x) % p, K, m, c)
    requires DecryptsTo(p, x, size, c, out)
    ensures out == m
  {
    var h := |c| / 2;
    var M, M' := BytesValue(m), BytesValue(out);
    var A, B := BytesValue(c[..h]), BytesValue(c[h..]);
    var s, t := Power(A, x) % p, Power(Power(g, x) % p, K) % p;
    var S := Power(g, K * x);
    var inv :| Inverse(s, inv, p) && M' == (B * inv) % p;
    SharedSecret(p, g, x, K, A);
    Mask(p, g, x, K);
    Unmask(p, S, s, t, inv, M, B);
    ModCongruent(B * inv, p);
    CongruentTrans(M', B * inv, M, p);
    CongruentSym(M', M, p);
    CongruentReduced(M', M, p);
    DivModUnique(M, p, 0, M);
    BytesBound(m);
    ByteLengthBelow(M, size);
    BytesInjective(out, m);
  }

  /** A key pair as CreateKeyPair makes it: the public Y is G^X mod P. */
  ghost predicate KeyPair(key: Key)
  {
    KeyRange(key) && Value(key.Y) == Power(Value(key.G), Value(key.X)) % Value(key.P)
  }

  /**
   * Whole data: decrypting, block by block, the stream an encryption with a
   * key pair wrote gives back the plaintext followed by the zero bytes that
   * padded its last block.
   */
  lemma {:induction false} DataRoundTrip(key: Key, pbs: nat, ct: nat, data: seq<Byte>,
                                         encOuts: seq<seq<Byte>>, ks: seq<nat>, decOuts: seq<seq<Byte>>)
    requires KeyPair(key) && pbs == PlaintextBlockSize(BitCount(Value(key.P)))
    requires EncryptedBlocks(key, pbs, ct, data, encOuts, ks)
    requires DecryptedBlocks(key, pbs, ct, Flatten(encOuts), decOuts)
    ensures Flatten(decOuts) == Padded(data, pbs)
  {
    var padded := Padded(data, pbs);
    var n := |encOuts|;
    FlattenLength(encOuts, ct);
    SameCount(n, |decOuts|, ct);
    forall i | 0 <= i < |decOuts|
      ensures decOuts[i] == BlockAt(padded, pbs, i)
    {
      StreamBlock(key, pbs, ct, data, encOuts, ks, decOuts, i);
    }
    FlattenBlocks(padded, pbs, decOuts);
  }

  /** DataRoundTrip for the i-th block. */
  lemma {:induction false} StreamBlock(key: Key, pbs: nat, ct: nat, data: seq<Byte>,
                                       encOuts: seq<seq<Byte>>, ks: seq<nat>, decOuts: seq<seq<Byte>>, i: nat)
    requires KeyPair(key) && pbs == PlaintextBlockSize(BitCount(Value(key.P)))
    requires EncryptedBlocks(key, pbs, ct, data, encOuts, ks)
    requires DecryptedBlocks(key, pbs, ct, Flatten(encOuts), decOuts)
    requires |decOuts| == |encOuts| && i < |encOuts|
    ensures decOuts[i] == BlockAt(Padded(data, pbs), pbs, i)
  {
    var m := BlockAt(Padded(data, pbs), pbs, i);
    assert DecryptsTo(Value(key.P), Value(key.X), pbs, encOuts[i], decOuts[i]) by {
      FlattenBlock(encOuts, ct, i);
    }
    assert |m| == pbs by {
      BlockLength(Padded(data, pbs), pbs, |encOuts|, i);
    }
    assert Encrypts(Value(key.P), Value(key.G), Value(key.Y), ks[i], m, encOuts[i]);
    KeyBlockRoundTrip(key, pbs, ks[i], m, encOuts[i], decOuts[i]);
  }

  /** BlockRoundTrip for a key pair and its plaintext block size. */
  lemma {:induction false} KeyBlockRoundTrip(key: Key, pbs: nat, K: nat, m: seq<Byte>, c: seq<Byte>, out: seq<Byte>)
    requires KeyPair(key) && pbs == PlaintextBlockSize(BitCount(Value(key.P))) && pbs > 0 && |m| == pbs
    requires Encrypts(Value(key.P), Value(key.G), Value(key.Y), K, m, c)
    requires DecryptsTo(Value(key.P), Value(key.X), pbs, c, out)
    ensures out == m
  {
    BlockSizes(Value(key.P));
    BytesBound(m);
    BlockRoundTrip(Value(key.P), Value(key.G), Value(key.X), K, pbs, m, c, out);
  }

  /** A stream of ciphertext blocks is a whole number of them. */
  lemma {:induction false} WholeBlocks(key: Key, pbs: nat, ct: nat, data: seq<Byte>,
                                       outs: seq<seq<Byte>>, ks: seq<nat>)
    requires KeyRange(key) && EncryptedBlocks(key, pbs, ct, data, outs, ks) && ct > 0
    ensures |Flatten(outs)| % ct == 0 && |Flatten(outs)| / ct == |outs|
  {
    FlattenLength(outs, ct);
    DivModUnique(|outs| * ct, ct, |outs|, 0);
  }

  /**
   * A block of an encryption's stream whose secret modInverse refuses was
   * encrypted with an accepted K whose shared secret it refuses.
   */
  lemma {:induction false} UninvertibleSecret(key: Key, pbs: nat, ct: nat, data: seq<Byte>,
                                              outs: seq<seq<Byte>>, ks: seq<nat>)
    requires KeyRange(key) && EncryptedBlocks(key, pbs, ct, data, outs, ks)
    requires SomeUninvertible(key, ct, Flatten(outs))
    ensures exists j :: 0 <= j < |ks| && !SecretInvertible(key, ks[j])
  {
    var j :| 0 <= j < |Flatten(outs)| / ct && !Invertible(Value(key.P), Value(key.X), BlockAt(Flatten(outs), ct, j));
    WholeBlocks(key, pbs, ct, data, outs, ks);
    FlattenBlock(outs, ct, j);
    assert Encrypts(Value(key.P), Value(key.G), Value(key.Y), ks[j], BlockAt(Padded(data, pbs), pbs, j), outs[j]);
    assert !SecretInvertible(key, ks[j]);
  }

  /** Equal products with the same positive factor have equal other factors. */
  lemma {:induction false} SameCount(n: nat, m: nat, ct: nat)
    requires ct > 0 && n * ct == m * ct
    ensures n == m
  {
    if m < n {
      MulLe(m + 1, n, ct);
    } else if n < m {
      MulLe(n + 1, m, ct);
    }
  }
}
