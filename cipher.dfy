/**
 * ElGamalCipher.cs with its two subclasses ElGamalEncrypt.cs and
 * ElGamalDecrypt.cs: a cipher object holding a key and its block sizes cuts
 * data into blocks of block_size bytes, transforms each one, and writes the
 * results one after the other.
 */
module ElGamal {
  import opened Words
  import opened BigInt
  import opened Bytes
  import opened Blocks
  import Bitwise
  import Encryption
  import Decryption
  import RoundTrip

  /** Every value the random source will produce is a draw of bitCount(P) - 1 bits. */
  ghost predicate Draws(random: seq<BigInteger>, key: Key)
    requires KeyRange(key)
  {
    forall i :: 0 <= i < |random| ==> Encryption.Draw(random[i], BitCount(Value(key.P)) - 1)
  }

  /**
   * An ElGamalEncrypt object (encrypting) or an ElGamalDecrypt object. The
   * random source of the encrypting side is the list of values it will
   * still produce.
   */
  class Cipher {
    const key: Key
    const plaintextBlockSize: nat
    const ciphertextBlockSize: nat
    const blockSize: nat
    const encrypting: bool
    var random: seq<BigInteger>

    /** The block sizes are those of the key's modulus, and block_size the one of the input. */
    ghost predicate Valid()
      reads this
    {
      KeyRange(key)
      && plaintextBlockSize == PlaintextBlockSize(BitCount(Value(key.P)))
      && ciphertextBlockSize == CiphertextBlockSize(BitCount(Value(key.P)))
      && blockSize == (if encrypting then plaintextBlockSize else ciphertextBlockSize)
      && (encrypting ==> Draws(random, key))
    }

    /** The ElGamalEncrypt constructor: block_size is the plaintext block size. */
    constructor Encryptor(k: Key, draws: seq<BigInteger>)
      requires KeyRange(k) && Draws(draws, k)
      ensures Valid() && key == k && encrypting && random == draws
    {
      key := k;
      var bits, _ := Bitwise.BitCount(k.P);
      NonNegativeVal(k.P);
      BitCountIs(Value(k.P), bits);
      plaintextBlockSize := (bits - 1) / 8;
      ciphertextBlockSize := ((bits + 7) / 8) * 2;
      blockSize := (bits - 1) / 8;
      encrypting := true;
      random := draws;
    }

    /** The ElGamalDecrypt constructor: block_size is the ciphertext block size. */
    constructor Decryptor(k: Key)
      requires KeyRange(k)
      ensures Valid() && key == k && !encrypting && random == []
    {
      key := k;
      var bits, _ := Bitwise.BitCount(k.P);
      NonNegativeVal(k.P);
      BitCountIs(Value(k.P), bits);
      plaintextBlockSize := (bits - 1) / 8;
      ciphertextBlockSize := ((bits + 7) / 8) * 2;
      blockSize := ((bits + 7) / 8) * 2;
      encrypting := false;
      random := [];
    }

    /**
     * What one call of ProcessDataBlock does, the random source going from
     * before to after. Encrypting: the draws taken accept exactly K (or run
     * out), and the result is a ciphertext block encrypting block with K.
     * Decrypting: a block shorter than a ciphertext block is refused; a
     * longer one fails exactly when the shared secret of its first
     * ciphertext_blocksize bytes is not invertible, and otherwise the result
     * decrypts those bytes.
     */
    ghost predicate Step(before: seq<BigInteger>, after: seq<BigInteger>, block: seq<Byte>, r: Result<seq<Byte>>, K: nat)
      requires KeyRange(key)
    {
      if encrypting then
        Encryption.Remains(after, before)
        && (r.Ok? ==> |r.value| == ciphertextBlockSize
                      && Encrypts(Value(key.P), Value(key.G), Value(key.Y), K, block, r.value)
                      && Encryption.Accepted(Encryption.Taken(before, after), Value(key.P)) == [K])
        && (r.Err? ==> r == Err(RandomExhausted) && after == [] && Encryption.Accepted(before, Value(key.P)) == [])
      else
        after == before
        && (|block| < ciphertextBlockSize ==> r == Err(IndexOutOfRange))
        && (|block| >= ciphertextBlockSize ==>
              (r.Err? <==> !Invertible(Value(key.P), Value(key.X), block[..ciphertextBlockSize]))
              && (r.Err? ==> r.error == NoInverse))
        && (r.Ok? ==> |block| >= ciphertextBlockSize
                      && DecryptsTo(Value(key.P), Value(key.X), plaintextBlockSize, block[..ciphertextBlockSize], r.value))
    }

    /**
     * ProcessDataBlock of either subclass. Encrypting, K is drawn until it
     * is coprime to P - 1 (the model fails when the draws run out) and the
     * block, at most a plaintext block long, is encrypted with it.
     */
    method ProcessDataBlock(block: seq<Byte>) returns (r: Result<seq<Byte>>, ghost K: nat)
      requires Valid() && (encrypting ==> |block| <= plaintextBlockSize)
      modifies this
      ensures Valid() && Step(old(random), random, block, r, K)
    {
      if encrypting {
        assert plaintextBlockSize <= ciphertextBlockSize / 2;
        var k, used := Encryption.SelectK(key.P, random);
        ghost var before := random;
        random := random[used..];
        assert Encryption.Taken(before, random) == before[..used];
        if k.Err? {
          return Err(k.error), 0;
        }
        assert Encryption.Draw(k.value, BitCount(Value(key.P)) - 1);
        K := Value(k.value);
        var c := Encryption.EncryptBlock(key, ciphertextBlockSize, block, k.value);
        r := Ok(c);
      } else {
        r := Decryption.DecryptBlock(key, plaintextBlockSize, ciphertextBlockSize, block);
        K := 0;
      }
    }

    /**
     * ProcessFinalDataBlock of either subclass: an empty final block gives
     * no bytes; encrypting, a shorter one is zero-padded to a full block.
     */
    method ProcessFinalDataBlock(last: seq<Byte>) returns (r: Result<seq<Byte>>, ghost K: nat)
      requires Valid() && (encrypting ==> |last| <= plaintextBlockSize)
      modifies this
      ensures Valid()
      ensures |last| == 0 ==> r == Ok([]) && random == old(random)
      ensures |last| > 0 ==>
        Step(old(random), random, if encrypting then last + Zeros(blockSize - |last|) else last, r, K)
    {
      if |last| > 0 {
        if encrypting {
          var block := Encryption.Pad(last, blockSize);
          assert block == last + Zeros(blockSize - |last|);
          r, K := ProcessDataBlock(block);
        } else {
          r, K := ProcessDataBlock(last);
        }
      } else {
        r, K := Ok([]), 0;
      }
    }

    /**
     * outs[j] is what ProcessDataBlock made of the j-th block of data, ks[j]
     * the K it drew: encrypting, of the block of the zero-padded data;
     * decrypting, of a block of ciphertext_blocksize bytes.
     */
    ghost predicate Processed(data: seq<Byte>, outs: seq<seq<Byte>>, ks: seq<nat>)
      requires KeyRange(key) && blockSize > 0
    {
      |ks| == |outs|
      && forall j :: 0 <= j < |outs| ==>
           if encrypting then
             |outs[j]| == ciphertextBlockSize
             && Encrypts(Value(key.P), Value(key.G), Value(key.Y), ks[j], BlockAt(Padded(data, blockSize), blockSize, j), outs[j])
           else
             DecryptsTo(Value(key.P), Value(key.X), plaintextBlockSize, BlockAt(data, blockSize, j), outs[j])
    }

    /**
     * ProcessData: the complete blocks of data one by one, then the final
     * partial (possibly empty) block, the results written one after the
     * other. Encrypting, the result encrypts data zero-padded to whole
     * plaintext blocks, one ciphertext block per plaintext block, with the
     * values of K the draws taken accept; decrypting, data must be whole
     * ciphertext blocks and each is decrypted. A zero block size fails
     * first; then encrypting fails only when the draws run out, and
     * decrypting only on a partial final block or on a block whose shared
     * secret has no inverse.
     */
    method ProcessData(data: array<Byte>) returns (r: Result<seq<Byte>>, ghost outs: seq<seq<Byte>>, ghost ks: seq<nat>)
      requires Valid()
      modifies this
      ensures Valid()
      ensures encrypting ==> Encryption.Remains(random, old(random))
      ensures !encrypting ==> random == old(random)
      ensures r == Err(DivideByZero) <==> blockSize == 0
      ensures encrypting && r.Err? ==> r.error in {DivideByZero, RandomExhausted}
      ensures !encrypting && r.Err? && blockSize > 0 ==>
        (r.error == IndexOutOfRange && data.Length % blockSize != 0)
        || (r.error == NoInverse && SomeUninvertible(key, blockSize, data[..]))
      ensures r.Ok? ==> r.value == Flatten(outs)
      ensures encrypting && r.Ok? ==>
        EncryptedBlocks(key, plaintextBlockSize, ciphertextBlockSize, data[..], outs, ks)
        && ks == Encryption.Accepted(Encryption.Taken(old(random), random), Value(key.P))
      ensures !encrypting && r.Ok? ==> DecryptedBlocks(key, plaintextBlockSize, ciphertextBlockSize, data[..], outs)
    {
      if blockSize == 0 {
        return Err(DivideByZero), [], [];
      }
      var front;
      front, outs, ks := ProcessBlocks(data);
      if front.Err? {
        return Err(front.error), outs, ks;
      }
      var fin;
      fin, outs, ks := ProcessLast(data, old(random), outs, ks);
      if fin.Err? {
        return Err(fin.error), outs, ks;
      }
      r := Ok(front.value + fin.value);
    }

    /**
     * The loop of ProcessData over the complete blocks of data, each read
     * into a buffer of blockSize bytes and processed in turn; the first
     * failure ends it.
     */
    method ProcessBlocks(data: array<Byte>) returns (r: Result<seq<Byte>>, ghost outs: seq<seq<Byte>>, ghost ks: seq<nat>)
      requires Valid() && blockSize > 0
      modifies this
      ensures Valid()
      ensures encrypting ==> Encryption.Remains(random, old(random))
      ensures !encrypting ==> random == old(random)
      ensures r.Err? ==> (encrypting && r.error == RandomExhausted)
                         || (!encrypting && r.error == NoInverse && SomeUninvertible(key, blockSize, data[..]))
      ensures r.Ok? ==> r.value == Flatten(outs) && |outs| == data.Length / blockSize
      ensures r.Ok? ==> Processed(data[..], outs, ks) && Drawn(old(random), random, ks)
    {
      ghost var d := data[..];
      var completeBlocks := data.Length / blockSize;
      CompleteBlocks(data.Length, blockSize);
      var hold := new Byte[blockSize](_ => 0);
      var stream: seq<Byte> := [];
      outs, ks := [], [];
      var i := 0;
      while i < completeBlocks
        invariant 0 <= i <= completeBlocks && Valid() && |outs| == i
        invariant stream == Flatten(outs) && Processed(d, outs, ks)
        invariant Drawn(old(random), random, ks)
      {
        var block := ReadBlock(data, blockSize, i, hold);
        ghost var before := random;
        var res, K := ProcessDataBlock(block);
        if res.Err? {
          if !encrypting {
            FailedBlock(d, i, block, before, random, res, K);
          }
          return Err(res.error), outs, ks;
        }
        ProcessedNext(d, outs, ks, block, res.value, K, before, random);
        DrawnNext(old(random), before, random, ks, block, res.value, K);
        FlattenSnoc(outs, res.value);
        stream := stream + res.value;
        outs, ks := outs + [res.value], ks + [K];
        i := i + 1;
      }
      r := Ok(stream);
    }

    /**
     * The end of ProcessData: `last_block`, the bytes after the complete
     * blocks, given to ProcessFinalDataBlock; outs and ks are extended by
     * its result when it is not empty.
     */
    method ProcessLast(data: array<Byte>, ghost orig: seq<BigInteger>, ghost outs: seq<seq<Byte>>, ghost ks: seq<nat>)
      returns (r: Result<seq<Byte>>, ghost outs': seq<seq<Byte>>, ghost ks': seq<nat>)
      requires Valid() && blockSize > 0
      requires Processed(data[..], outs, ks) && |outs| == data.Length / blockSize && Drawn(orig, random, ks)
      modifies this
      ensures Valid()
      ensures encrypting ==> Encryption.Remains(random, orig)
      ensures !encrypting ==> random == old(random)
      ensures r.Err? ==> (encrypting && r.error == RandomExhausted)
                         || (!encrypting && r.error == IndexOutOfRange && data.Length % blockSize != 0)
      ensures r.Ok? ==> Flatten(outs') == Flatten(outs) + r.value && Drawn(orig, random, ks')
      ensures r.Ok? && encrypting ==> EncryptedBlocks(key, plaintextBlockSize, ciphertextBlockSize, data[..], outs', ks')
      ensures r.Ok? && !encrypting ==> DecryptedBlocks(key, plaintextBlockSize, ciphertextBlockSize, data[..], outs')
    {
      ghost var d := data[..];
      CompleteBlocks(data.Length, blockSize);
      var last := ReadLast(data, blockSize);
      ghost var before := random;
      ghost var K: nat;
      r, K := ProcessFinalDataBlock(last);
      outs', ks' := outs, ks;
      if r.Ok? {
        if |last| > 0 {
          ProcessedLast(d, outs, ks, last, r.value, K, before, random);
          DrawnNext(orig, before, random, ks, last + Zeros(blockSize - |last|), r.value, K);
          FlattenSnoc(outs, r.value);
          outs', ks' := outs + [r.value], ks + [K];
        } else {
          ProcessedWhole(d, outs, ks);
        }
      }
    }

    /** Encrypting, the draws taken from orig, leaving rest, accepted exactly ks. */
    ghost predicate Drawn(orig: seq<BigInteger>, rest: seq<BigInteger>, ks: seq<nat>)
      requires KeyRange(key)
    {
      if encrypting then
        Encryption.Remains(rest, orig) && ks == Encryption.Accepted(Encryption.Taken(orig, rest), Value(key.P))
      else
        rest == orig
    }

    /** One more complete block processed. */
    lemma {:induction false} ProcessedNext(d: seq<Byte>, outs: seq<seq<Byte>>, ks: seq<nat>, block: seq<Byte>,
                                           out: seq<Byte>, K: nat, before: seq<BigInteger>, after: seq<BigInteger>)
      requires KeyRange(key) && blockSize > 0
      requires blockSize == (if encrypting then plaintextBlockSize else ciphertextBlockSize)
      requires Processed(d, outs, ks) && |outs| < |d| / blockSize
      requires block == BlockAt(d, blockSize, |outs|) && |block| == blockSize
      requires Step(before, after, block, Ok(out), K)
      ensures Processed(d, outs + [out], ks + [K])
    {
      var i := |outs|;
      if encrypting {
        BlockInside(|d|, blockSize, i);
        PaddedPrefix(d, blockSize, i);
      } else {
        assert block[..ciphertextBlockSize] == block;
      }
    }

    /** One more K accepted from the draws. */
    lemma {:induction false} DrawnNext(orig: seq<BigInteger>, before: seq<BigInteger>, after: seq<BigInteger>,
                                       ks: seq<nat>, block: seq<Byte>, out: seq<Byte>, K: nat)
      requires KeyRange(key) && Drawn(orig, before, ks) && Step(before, after, block, Ok(out), K)
      ensures Drawn(orig, after, ks + [K])
    {
      if encrypting {
        Encryption.AcceptedStep(orig, before, after, ks, K, Value(key.P));
      }
    }

    /** Decrypting, a complete block that fails has a secret with no inverse. */
    lemma {:induction false} FailedBlock(d: seq<Byte>, i: nat, block: seq<Byte>, before: seq<BigInteger>,
                                         after: seq<BigInteger>, r: Result<seq<Byte>>, K: nat)
      requires KeyRange(key) && !encrypting && blockSize == ciphertextBlockSize > 0
      requires i < |d| / blockSize && block == BlockAt(d, blockSize, i) && |block| == blockSize
      requires Step(before, after, block, r, K) && r.Err?
      ensures r.error == NoInverse && SomeUninvertible(key, blockSize, d)
    {
      assert block[..ciphertextBlockSize] == block;
      assert !Invertible(Value(key.P), Value(key.X), BlockAt(d, blockSize, i));
    }

    /** The final block, not empty, processed: encrypting, the last block of the padded data. */
    lemma {:induction false} ProcessedLast(d: seq<Byte>, outs: seq<seq<Byte>>, ks: seq<nat>, last: seq<Byte>,
                                           out: seq<Byte>, K: nat, before: seq<BigInteger>, after: seq<BigInteger>)
      requires KeyRange(key) && blockSize > 0
      requires blockSize == (if encrypting then plaintextBlockSize else ciphertextBlockSize)
      requires Processed(d, outs, ks) && |outs| == |d| / blockSize
      requires |d| == |outs| * blockSize + |last| && last == d[|outs| * blockSize..] && |last| > 0
      requires Step(before, after, if encrypting then last + Zeros(blockSize - |last|) else last, Ok(out), K)
      ensures encrypting
      ensures EncryptedBlocks(key, plaintextBlockSize, ciphertextBlockSize, d, outs + [out], ks + [K])
    {
      CompleteBlocks(|d|, blockSize);
      PaddedLast(d, blockSize);
    }

    /** No final block: the complete blocks were all of data. */
    lemma {:induction false} ProcessedWhole(d: seq<Byte>, outs: seq<seq<Byte>>, ks: seq<nat>)
      requires KeyRange(key) && blockSize > 0
      requires blockSize == (if encrypting then plaintextBlockSize else ciphertextBlockSize)
      requires Processed(d, outs, ks) && |outs| == |d| / blockSize && |d| % blockSize == 0
      ensures encrypting ==> EncryptedBlocks(key, plaintextBlockSize, ciphertextBlockSize, d, outs, ks)
      ensures !encrypting ==> DecryptedBlocks(key, plaintextBlockSize, ciphertextBlockSize, d, outs)
    {
      PaddedWhole(d, blockSize);
    }
  }

  /** `Array.Copy(data, i * size, hold, 0, size)`: the i-th complete block of data, through hold. */
  method ReadBlock(data: array<Byte>, size: nat, i: nat, hold: array<Byte>) returns (block: seq<Byte>)
    requires size > 0 && i < data.Length / size && hold.Length == size && hold != data
    modifies hold
    ensures block == BlockAt(data[..], size, i) && |block| == size
  {
    BlockInside(data.Length, size, i);
    var ok := ArrayCopy(data[..], i * size, hold, 0, size);
    block := hold[..];
  }

  /** `last_block`: the bytes of data after its complete blocks of size bytes. */
  method ReadLast(data: array<Byte>, size: nat) returns (last: seq<Byte>)
    requires size > 0
    ensures last == data[..][data.Length - data.Length % size..]
  {
    var complete := data.Length / size;
    CompleteBlocks(data.Length, size);
    var lastBlock := new Byte[data.Length - complete * size](_ => 0);
    var ok := ArrayCopy(data[..], complete * size, lastBlock, 0, lastBlock.Length);
    last := lastBlock[..];
  }

  /** n plaintext bytes encrypt to ceil(n / plaintext_blocksize) ciphertext blocks. */
  lemma {:induction false} CiphertextLength(key: Key, pbs: nat, ct: nat, data: seq<Byte>, outs: seq<seq<Byte>>, ks: seq<nat>)
    requires KeyRange(key) && EncryptedBlocks(key, pbs, ct, data, outs, ks)
    ensures |Flatten(outs)| == BlockCount(|data|, pbs) * ct
  {
    FlattenLength(outs, ct);
  }

  /** EncryptData with a key already present: a fresh ElGamalEncrypt object processes data. */
  method EncryptData(key: Key, draws: seq<BigInteger>, data: array<Byte>)
    returns (r: Result<seq<Byte>>, ghost outs: seq<seq<Byte>>, ghost ks: seq<nat>)
    requires KeyRange(key) && Draws(draws, key)
    ensures r.Err? ==> r.error in {DivideByZero, RandomExhausted}
    ensures r == Err(DivideByZero) <==> PlaintextBlockSize(BitCount(Value(key.P))) == 0
    ensures r.Ok? ==> exists n :: 0 <= n <= |draws| && ks == Encryption.Accepted(draws[..n], Value(key.P))
    ensures r.Ok? ==> (r.value == Flatten(outs)
                       && EncryptedBlocks(key, PlaintextBlockSize(BitCount(Value(key.P))),
                                          CiphertextBlockSize(BitCount(Value(key.P))), data[..], outs, ks))
  {
    var encryptor := new Cipher.Encryptor(key, draws);
    r, outs, ks := encryptor.ProcessData(data);
    if r.Ok? {
      assert Encryption.Taken(draws, encryptor.random) == draws[..|draws| - |encryptor.random|];
    }
  }

  /** DecryptData with a key already present: a fresh ElGamalDecrypt object processes data. */
  method DecryptData(key: Key, data: array<Byte>) returns (r: Result<seq<Byte>>, ghost outs: seq<seq<Byte>>)
    requires KeyRange(key)
    ensures r.Err? ==> r.error in {IndexOutOfRange, NoInverse}
    ensures r == Err(IndexOutOfRange) ==> data.Length % CiphertextBlockSize(BitCount(Value(key.P))) != 0
    ensures r == Err(NoInverse) ==> SomeUninvertible(key, CiphertextBlockSize(BitCount(Value(key.P))), data[..])
    ensures r.Ok? ==> (r.value == Flatten(outs)
                       && DecryptedBlocks(key, PlaintextBlockSize(BitCount(Value(key.P))),
                                          CiphertextBlockSize(BitCount(Value(key.P))), data[..], outs))
  {
    BlockSizes(Value(key.P));
    var decryptor := new Cipher.Decryptor(key);
    ghost var ks;
    r, outs, ks := decryptor.ProcessData(data);
  }

  /**
   * The round trip Program.Main performs: data encrypted with a key pair,
   * then decrypted with it, is data followed by the zeros that padded its
   * last block. ks are the values of K the encryption accepted from the
   * draws. The round trip fails only on a zero plaintext block size, on
   * draws that run out, or on an accepted K whose shared secret
   * `modInverse` refuses.
   */
  method EncryptThenDecrypt(key: Key, draws: seq<BigInteger>, data: array<Byte>)
    returns (r: Result<seq<Byte>>, ghost ks: seq<nat>)
    requires RoundTrip.KeyPair(key) && Draws(draws, key)
    ensures r.Ok? ==> PlaintextBlockSize(BitCount(Value(key.P))) > 0
                      && r.value == Padded(data[..], PlaintextBlockSize(BitCount(Value(key.P))))
    ensures r.Ok? ==> |data[..]| <= |r.value| && r.value[..data.Length] == data[..]
    ensures r.Err? ==> r.error in {DivideByZero, RandomExhausted, NoInverse}
    ensures r == Err(DivideByZero) <==> PlaintextBlockSize(BitCount(Value(key.P))) == 0
    ensures r.Ok? || r == Err(NoInverse) ==>
      exists n :: 0 <= n <= |draws| && ks == Encryption.Accepted(draws[..n], Value(key.P))
    ensures r == Err(NoInverse) ==> exists j :: 0 <= j < |ks| && !SecretInvertible(key, ks[j])
  {
    var c;
    ghost var encOuts;
    c, encOuts, ks := EncryptData(key, draws, data);
    if c.Err? {
      return Err(c.error), ks;
    }
    ghost var pbs := PlaintextBlockSize(BitCount(Value(key.P)));
    ghost var ct := CiphertextBlockSize(BitCount(Value(key.P)));
    var ciphertext := new Byte[|c.value|](i requires 0 <= i < |c.value| => c.value[i]);
    assert ciphertext[..] == c.value;
    var m, decOuts := DecryptData(key, ciphertext);
    if m.Err? {
      RoundTrip.WholeBlocks(key, pbs, ct, data[..], encOuts, ks);
      if m.error == NoInverse {
        RoundTrip.UninvertibleSecret(key, pbs, ct, data[..], encOuts, ks);
      }
      return Err(m.error), ks;
    }
    RoundTrip.DataRoundTrip(key, pbs, ct, data[..], encOuts, ks, decOuts);
    assert Padded(data[..], pbs)[..data.Length] == data[..];
    r := m;
  }
}
