# ElGamal over a fixed-width BigInteger, in Dafny

This project models two parts of a C# ElGamal implementation and proves
properties of them.

The first part is `BigInteger.cs`. It is a 2240-bit two's-complement
integer stored in 70 little-endian 32-bit words (`data`). `dataLength`
counts the significant words; every word above it is zero. The bit at
31 of word 69 is the sign. Every operator fills a fresh 70-word buffer
in loops with carries or borrows. It then trims `dataLength` and
detects overflow after the fact by comparing sign bits.

The second part is the ElGamal block layer of Algorithm 8.18 of the
Handbook of Applied Cryptography:

- `ElGamalCipher.cs` derives the block sizes from the bit count of the
  modulus P. It cuts the input into blocks and concatenates the
  per-block outputs.
- `ElGamalEncrypt.cs` picks a random K with gcd(K, P - 1) = 1. It writes
  A = G^K mod P and B = (Y^K mod P) * M mod P right-aligned into the two
  halves of a ciphertext block, and zero-pads the final block.
- `ElGamalDecrypt.cs` splits a ciphertext block into A and B. It
  recovers M = B * (A^X mod P)^-1 mod P and left-pads M's bytes to the
  plaintext block size.

How the model is built:

- A BigInteger is a value, `BigInt.BigInteger(data: seq<Word>,
  dataLength: int)`, because no C# operator changes its operands.
- Each operator is a method that works on a fresh `array<Word>` with the
  source's loops.
- Its meaning is the ghost `Value`: the words read as a signed 2240-bit
  number. `Canonical` is the representation invariant: 70 words, zeros
  above `dataLength`, and `dataLength` trimmed.
- Exceptions become `Result` errors:
  - `Overflow`: the `ArithmeticException`s on the sign checks and
    "Multiplication overflow.";
  - `CapacityExceeded`: "Byte overflow in constructor.";
  - `InvalidFormat`: "Invalid string in constructor.";
  - `DivideByZero`;
  - `NoInverse`: "No inverse!";
  - `InvalidExponent`: "Positive exponents only.";
  - `IndexOutOfRange`: array bounds failures;
  - `InvalidRadix`.
- The ElGamal cipher is a class, `ElGamal.Cipher`. Its block sizes and
  key are constant fields. Its random source is a field holding the
  sequence of draws still to come.
- `ProcessData` keeps the source's block loop, the `hold_data_block`
  buffer and the stream, which is a sequence the loop appends to.

Some source behaviour is kept as written, because the model follows the
code:

- `modInverse` of 1 throws "No inverse!": its remainder register is only
  filled from the second round on (`Euclid.ModInverse`).
- `modPow(x, 0, n)` returns 1 even for n = 1, because nothing reduces the
  initial 1 (`ModPow.Ladder`).
- `getBytes` of a negative value returns the 280-byte two's-complement
  pattern (`Bytes.GetBytes`).
- `<<` can return an untrimmed value, for example the most negative value
  shifted by one (`Shift.ShiftLeft`).
- A 70-word divisor always fails in `multiByteDivide`. Its 71-word window
  is refused by the `uint[]` constructor (`LongDivision.MultiByteDivide`).
- `"-0"` and `"-"` are rejected by the string constructor
  (`Radix.FromString`). The most negative value written in binary by
  `ToString(2)` is rejected when read back (`Radix.MinBinaryRejected`).
- Decrypting a final fragment shorter than a ciphertext block fails in
  `Array.Copy` (`Decryption.DecryptBlock`).
- The demo's `CompareArrays` only compares the plaintext's length worth
  of bytes. The decryption is the plaintext followed by the zero bytes
  that padded its last block (`ElGamal.EncryptThenDecrypt`).

## Model

| member | source | states |
|---|---|---|
| BigInt.Zero | BigInteger.cs:45-49 | the default constructor builds the canonical zero with dataLength 1 |
| BigInt.Copy | BigInteger.cs:110-118 | the copy constructor copies the used words and dataLength and zeroes the rest; for a well-formed value the copy equals it |
| BigInt.ValueIsSigned | BigInteger.cs:292-293 | the value of a canonical integer is its words read as a signed 2240-bit number, and the sign bit is set exactly when the value is negative |
| BigInt.CanonicalUnique | BigInteger.cs:703-716 | two canonical integers are equal as objects exactly when their values are equal |
| BigInt.Equals | BigInteger.cs:687-716 | `==` and `Equals` answer true exactly when dataLength and the used words agree, which for canonical integers is equality of values |
| BigInt.Greater | BigInteger.cs:721-744 | `>` answers exactly Value(a) > Value(b), comparing sign bits and then the words from the top |
| BigInt.Less | BigInteger.cs:749-772 | `<` answers exactly Value(a) < Value(b) |
| BigInt.GreaterOrEqual | BigInteger.cs:777-780 | `>=` is `==` or `>`, which for canonical integers is Value(a) >= Value(b) |
| BigInt.LessOrEqual | BigInteger.cs:785-788 | `<=` is `==` or `<`, which for canonical integers is Value(a) <= Value(b) |
| BigInt.TrimLength | BigInteger.cs:287-288 | the trimming loop leaves a length between 1 and the start whose top word is non-zero unless it is 1, giving a canonical integer |
| Construct.FromLong | BigInteger.cs:55-83 | `BigInteger(long)` (and the implicit int and long conversions) builds the canonical integer whose value is the long |
| Construct.FromULong | BigInteger.cs:87-106 | `BigInteger(ulong)` (and the implicit uint and ulong conversions) builds the canonical integer whose value is the ulong |
| Construct.FromWordsAsWritten | BigInteger.cs:219-233 | `BigInteger(uint[])` as written: more than 70 words throws; otherwise the words are read most significant first, and an empty array leaves dataLength 0, which is not well formed |
| Construct.FromWords | BigInteger.cs:219-233 | the corrected `uint[]` constructor: more than 70 words is exactly the error case; otherwise a canonical integer with the signed value of the words |
| Construct.ReverseWords | BigInteger.cs:228-232 | the reversing copy and trimming loop: the buffer's value is the words read most significant first, with a trimmed length that is 0 only for no words |
| Bytes.FromBytesAsWritten | BigInteger.cs:180-215 | the byte constructor as written: "Byte overflow" exactly when the window needs more than 70 words or runs past the list; a non-negative window gives the signed big-endian value of its bytes; a negative window length that is a multiple of 4 builds an object with a negative dataLength |
| Bytes.FromBytes | BigInteger.cs:180-215 | the corrected byte constructor: the same "Byte overflow" condition, success exactly for a window inside the list, and the canonical integer whose value is the window read big-endian as a signed number |
| Bytes.PackBytes | BigInteger.cs:196-214 | packing four bytes to a word from the end and trimming gives a canonical integer whose unsigned value is the bytes read big-endian |
| Bytes.GetBytes | BigInteger.cs:1813-1859 | `getBytes` returns between 1 and 280 bytes whose big-endian value is the unsigned word value, without a leading zero byte, and exactly as many as the value needs (1 for zero) |
| Bytes.BytesRoundTrip | BigInteger.cs:180-215 | for every non-negative canonical v, the byte constructor applied to `v.getBytes()` returns v |
| Additive.Add | BigInteger.cs:266-299 | `+` succeeds exactly when the sum is in range, and then returns the canonical sum; otherwise it throws |
| Additive.AddSigns | BigInteger.cs:290-296 | the overflow test (operand signs agree, result sign differs) holds exactly when the true sum is out of range, and otherwise the wrapped sum is the true sum |
| Additive.Subtract | BigInteger.cs:347-389 | binary `-` succeeds exactly when the difference is in range, and then returns the canonical difference |
| Additive.SubSigns | BigInteger.cs:381-386 | the overflow test (operand signs differ, result sign differs from the minuend's) holds exactly when the true difference is out of range |
| Additive.FillOnes | BigInteger.cs:368-374 | a borrow out of the used words fills every word from dataLength up with 0xFFFFFFFF and leaves the lower words, so the buffer gains 2^2240 - b^dataLength, which completes the difference modulo 2^2240 |
| Additive.Increment | BigInteger.cs:304-342 | `++` succeeds exactly when a + 1 is in range, and then returns the canonical a + 1 |
| Additive.IncrementSigns | BigInteger.cs:336-339 | the `++` overflow test holds exactly when a is non-negative and a + 1 is out of range |
| Additive.Decrement | BigInteger.cs:394-434 | `--` succeeds exactly when a - 1 is in range, and then returns the canonical a - 1 |
| Additive.DecrementSigns | BigInteger.cs:428-431 | the `--` overflow test holds exactly when a is negative and a - 1 is out of range |
| Additive.Complement | BigInteger.cs:656-657 | the one's complement of all 70 words: each word is 0xFFFFFFFF minus the input word, so value plus complement plus 1 is 2^2240 |
| Additive.Negate | BigInteger.cs:645-682 | unary `-` succeeds exactly when -a is in range, except that an untrimmed zero (one that misses the zero test) throws; a success is the canonical -a |
| Additive.NegSigns | BigInteger.cs:660-675 | the negation overflow test (same sign bit before and after) holds exactly for zero or an out-of-range -a, and otherwise the complement plus one is -a |
| Multiply.Multiply | BigInteger.cs:439-525 | `*` returns only the canonical product; for a canonical second operand it succeeds exactly when the product is in range |
| Multiply.Schoolbook | BigInteger.cs:458-485 | the word-by-word product into index i + j with a 64-bit carry: when nothing is written past word 69 the buffer holds the product of the magnitudes; a write past it means the product is at least 2^2240 |
| Multiply.MulSigns | BigInteger.cs:494-524 | the sign handling: a set result sign bit is in range exactly for the most negative product of operands with different signs; otherwise the product is the magnitude product, negated when the signs differ |
| Multiply.PutSign | BigInteger.cs:487-524 | trimming, the overflow test and the final negation succeed exactly when the signed product is in range, and return it |
| Shift.ShiftLeft | BigInteger.cs:531-574 | `<<` by a non-negative count gives (words times 2^count) modulo 2^2240, well formed and trimmed below 70 words; a non-positive count leaves the value; when nothing is shifted out the result is trimmed with the exact product |
| Shift.ShiftLeftValue | BigInteger.cs:531-537 | when the shifted value fits, the signed value is multiplied by 2^n |
| Shift.ShiftRight | BigInteger.cs:580-640 | `>>` by a non-negative count is floor division of the signed value by 2^count (sign-extending negative values); a non-positive count leaves the words; the result is canonical |
| Bitwise.Wordwise | BigInteger.cs:1036-1102 | the shared loop of AND, OR and XOR combines every one of the 70 word pairs and trims |
| Bitwise.BitAnd | BigInteger.cs:1036-1054 | bit k of `a & b` is set exactly when bit k is set in both, for every k below 2240 |
| Bitwise.BitOr | BigInteger.cs:1060-1078 | bit k of `a OR b` is set exactly when it is set in either |
| Bitwise.BitXor | BigInteger.cs:1084-1102 | bit k of `a ^ b` is set exactly when it is set in exactly one |
| Bitwise.BitCount | BigInteger.cs:1445-1462 | `bitCount` trims dataLength without changing the value and returns the bit length of the unsigned value: it is below 2^bits and at least 2^(bits-1), and 1 for zero |
| Bitwise.TopBitCount | BigInteger.cs:1450-1458 | the scan of the top word from bit 31 downwards finds its bit length |
| ShortDivision.SingleByteDivide | BigInteger.cs:895-947 | division by a one-word divisor fails exactly for a zero divisor; otherwise the quotient and remainder are canonical, a = q * d + r and r < d |
| ShortDivision.ShortDivide | BigInteger.cs:906-930 | the digit loop: for a non-zero divisor it leaves the remainder below the divisor in word 0, the quotient digits most significant first, and preserves dividend = remainder + divisor * quotient |
| LongDivision.MultiByteDivide | BigInteger.cs:794-889 | normalised long division (Knuth's Algorithm D): a 70-word divisor always throws; for divisors up to 68 words it succeeds with canonical q and r, a = q * d + r and r < d |
| LongDivision.Estimate | BigInteger.cs:827-846 | q_hat, estimated from the top two window words and lowered while the three-word test fails, is below 2^33 and, for divisors up to 68 words and a reduced window, never below the true quotient digit |
| LongDivision.Correct | BigInteger.cs:848-859 | the `while (ss > kk)` loop lowers q_hat (as a ulong) once per subtraction of the divisor from ss, stops with ss at most the window, and cannot fail for a non-negative window |
| Divide.QuotRem | BigInteger.cs:954-1030 | the truncating quotient and remainder: x = y * Quot + Rem, abs(Rem) < abs(y), Rem takes the sign of x, and abs(Quot) <= abs(x) |
| Divide.QuotUnique | BigInteger.cs:954-1030 | any q, r with x = y * q + r, abs(r) < abs(y) and r taking the sign of x are the truncating quotient and remainder |
| Divide.DivideMagnitudes | BigInteger.cs:973-984 | dividing magnitudes fails with DivideByZero exactly for zero; for divisors below 2^2176 it succeeds with the exact unsigned quotient and remainder |
| Divide.Divide | BigInteger.cs:954-990 | `/`: the most negative operand overflows, a zero divisor reaches DivideByZero, abs(a) < abs(b) gives zero, and for divisors up to 68 words the result is the truncating quotient |
| Divide.Remainder | BigInteger.cs:997-1030 | `%`: the same error cases, abs(a) < abs(b) returns a itself, and for divisors up to 68 words the result is the truncating remainder with the dividend's sign |
| Radix.FromString | BigInteger.cs:124-176 | the string constructor succeeds exactly when the upper-cased (a-z, and the dotless i and long s to I and S), trimmed string parses in the radix within range, and then returns its value; an empty string, a bad digit and an overflow are the error cases |
| Radix.Accumulate | BigInteger.cs:134-158 | the right-to-left digit loop either reaches the first character with the value of the digits read, or stops with the error the first bad digit or overflow raises |
| Radix.ToString | BigInteger.cs:1116-1161 | `ToString(radix)` on any well-formed object, untrimmed ones included, fails exactly for a radix outside 2..36, and otherwise returns the sign and digits of the value |
| Radix.Digits | BigInteger.cs:1141-1158 | the repeated single-word division writes the digits of the magnitude most significant first; an untrimmed zero, which enters the loop once, gives "0" |
| Radix.RoundTrip | BigInteger.cs:124-176 | reading back the numeral `ToString` writes for a non-negative v gives v |
| Radix.SignedRoundTrip | BigInteger.cs:1116-1161 | reading back the numeral of any v strictly inside the range gives v |
| Radix.ZeroRoundTrip | BigInteger.cs:1116-1161 | zero is written "0", which reads back as zero |
| Radix.MinBinaryRejected | BigInteger.cs:160-168 | the binary numeral of the most negative value does not parse: the string constructor reports overflow for it |
| ModPow.ModPow | BigInteger.cs:1167-1229 | a negative exponent is exactly the InvalidExponent error; a zero modulus gives DivideByZero; a modulus below 2^1056 always succeeds; a success with e > 0 is the truncating remainder of base^e by n, and with e = 0 it is 1 |
| ModPow.BaseResidue | BigInteger.cs:1176-1182 | the starting residue is the magnitude of the base modulo n, with the error cases of `%` |
| ModPow.BarrettSetup | BigInteger.cs:1187-1194 | the Barrett constant is floor(b^(2k) / n) for a k-word modulus, and the index store fails exactly when 2k reaches 70 |
| ModPow.Reduce | BigInteger.cs:1238-1314 | `BarrettReduction` of x below b^(2k) returns exactly x mod n, and cannot fail for a modulus of up to 33 words |
| ModPow.Ladder | BigInteger.cs:1195-1228 | the right-to-left square-and-multiply loop with its early exit returns base^e mod n for e > 0 and 1 for e = 0 |
| Euclid.Gcd | BigInteger.cs:1319-1344 | `gcd` returns the greatest common divisor of the magnitudes, and fails only when the second operand is the most negative value |
| Euclid.ModInverse | BigInteger.cs:1762-1808 | a result r satisfies 0 <= r < m and x * r mod m = 1 mod m; it fails with "No inverse!" when gcd(x, m) is not 1 and always for x <= 1; for m below 2^1056 "No inverse!" is its only failure, so it succeeds whenever x >= 2 and gcd(x, m) = 1 |
| Primality.Screen | BigInteger.cs:1480-1490 | the screen decides exactly values below 4 and even values, and accepts exactly 2 and 3 |
| Primality.TrialDivision | BigInteger.cs:1580-1591 | the trial division by the primes below 2000 finds a factor exactly when one of them below the value divides it |
| Primality.TrialFactorComposite | BigInteger.cs:1580-1591 | a value with such a factor is not prime |
| Primality.SplitTwos | BigInteger.cs:1493-1513 | n - 1 is split into 2^s * t with t odd |
| Primality.StrongTest | BigInteger.cs:1545-1564 | one round answers exactly whether n is a strong probable prime to base a (HAC Algorithm 4.24), and cannot fail below 2^1056 |
| Primality.RabinMillerTest | BigInteger.cs:1472-1567 | `RabinMillerTest` with the given bases answers exactly the Rabin-Miller predicate on abs(x), and never rejects a prime |
| Primality.IsProbablePrimeWith | BigInteger.cs:1572-1597 | `isProbablePrime(confidence)` is trial division followed by Rabin-Miller with the given bases, and never rejects a prime |
| Primality.IsProbablePrime | BigInteger.cs:1608-1687 | `isProbablePrime()` answers exactly the screen, trial division and base-2 strong test, and never rejects a prime |
| Primality.PrimePassesRabinMiller | BigInteger.cs:1519-1566 | every prime passes every round of the strong test, whatever the bases |
| Primality.PrimeIsBaseTwoProbablePrime | BigInteger.cs:1667-1686 | every prime passes the base-2 test of `isProbablePrime()` |
| Root.Sqrt | BigInteger.cs:1865-1905 | `sqrt` returns the largest s with s * s <= a, and succeeds for every a below 2^2238 |
| Root.RootLargest | BigInteger.cs:1862-1905 | for the root s, x * x <= n holds exactly when x <= s |
| Blocks.BlockSizes | ElGamalCipher.cs:30-31 | a plaintext block, (bitCount(P) - 1) / 8 bytes, is always below P; P fits in half a ciphertext block; the ciphertext block size is even and at least 2 |
| Blocks.ArrayCopy | ElGamalCipher.cs:54 | `Array.Copy` fails exactly when a range leaves its array, and otherwise overwrites exactly the destination range |
| Blocks.PowMod | ElGamalEncrypt.cs:31 | `modPow` with the key's ranges cannot fail and gives x^e mod P |
| Blocks.ProductMod | ElGamalEncrypt.cs:32 | `(x * y) % P` for factors below 2^1056 cannot fail and gives the product mod P |
| Blocks.PaddedLast | ElGamalEncrypt.cs:53-59 | when the length is not a multiple of the block size, the last padded block is the tail of the data followed by zeros, and there is one more block than complete ones |
| Blocks.PaddedWhole | ElGamalCipher.cs:44-67 | when the length is a multiple of the block size, padding changes nothing |
| Blocks.FlattenBlock | ElGamalCipher.cs:58-73 | the i-th ct-byte block of the concatenated outputs is the i-th output |
| Blocks.FlattenBlocks | ElGamalCipher.cs:51-73 | data whose every block equals the matching output is the concatenation of the outputs |
| Encryption.SelectK | ElGamalEncrypt.cs:23-27 | the do-while takes draws until one is coprime to P - 1: the accepted K is the last draw taken and the only accepted one; when the draws run out, none was accepted |
| Encryption.AcceptedConcat | ElGamalEncrypt.cs:23-27 | the draws accepted over two runs are those accepted in each |
| Encryption.EncryptBlock | ElGamalEncrypt.cs:29-45 | the ciphertext block has exactly ciphertext_blocksize bytes and encrypts the block: its halves read A = G^K mod P and B = (Y^K mod P) * M mod P |
| Encryption.Exponentiate | ElGamalEncrypt.cs:31-32 | A = G^K mod P and B = (Y^K mod P) * M mod P with M the block read big-endian |
| Encryption.Layout | ElGamalEncrypt.cs:35-45 | the first half of the block reads A and the second half reads B |
| Encryption.Place | ElGamalEncrypt.cs:35-42 | the block is zeros, A's bytes ending at the middle, zeros, and B's bytes ending at the last index |
| Encryption.Pad | ElGamalEncrypt.cs:53-64 | a final block shorter than block_size is followed by zeros up to block_size; a full one is unchanged |
| Decryption.SplitHalves | ElGamalDecrypt.cs:19-23 | the copies succeed exactly when the block holds two halves, and then return its first and second half |
| Decryption.Recover | ElGamalDecrypt.cs:26-29 | M is below P and is B times an inverse of s = A^X mod P, modulo P; it fails exactly when gcd(s, P) is not 1 or s <= 1, and then only with "No inverse!" |
| Decryption.LeftPad | ElGamalDecrypt.cs:34-40 | bytes shorter than the block size are preceded by zeros up to it; longer ones are unchanged |
| Decryption.PlainBytes | ElGamalDecrypt.cs:32-41 | the output reads M big-endian and has max(plaintext_blocksize, bytes of M) bytes |
| Decryption.DecryptBlock | ElGamalDecrypt.cs:16-42 | a block shorter than ciphertext_blocksize fails in `Array.Copy`; a longer one fails exactly when the shared secret of its first ciphertext_blocksize bytes is not invertible, and then with "No inverse!"; a success decrypts those bytes |
| RoundTrip.SharedSecret | ElGamalDecrypt.cs:29 | A^X mod P is congruent to G^(K * X) |
| RoundTrip.Mask | ElGamalEncrypt.cs:32 | (G^X mod P)^K mod P is congruent to G^(K * X) |
| RoundTrip.Unmask | ElGamalDecrypt.cs:29 | B times an inverse of the shared secret is congruent to M |
| RoundTrip.BlockRoundTrip | ElGamalDecrypt.cs:16-42 | with Y = G^X mod P, decrypting the encryption of a block whose value is below P gives back exactly that block |
| RoundTrip.DataRoundTrip | Program.cs:35-50 | decrypting, block by block, the whole stream an encryption wrote gives back the data followed by the zeros that padded its last block |
| RoundTrip.UninvertibleSecret | ElGamalDecrypt.cs:26-29 | a block of an encryption whose shared secret `modInverse` refuses was written with an accepted K whose secret (G^K mod P)^X mod P is at most 1 or not coprime to P |
| ElGamal.Cipher.Encryptor | ElGamalCipher.cs:20-35 | the encryptor's block sizes are (bitCount(P) - 1) / 8 and 2 * ((bitCount(P) + 7) / 8), and its block_size is the plaintext one |
| ElGamal.Cipher.Decryptor | ElGamalDecrypt.cs:10-14 | the decryptor has the same block sizes and its block_size is the ciphertext one |
| ElGamal.Cipher.ProcessDataBlock | ElGamalEncrypt.cs:18-46 | one block: encrypting takes draws up to the accepted K and writes a ciphertext block that encrypts it (or fails when the draws run out); decrypting is DecryptBlock |
| ElGamal.Cipher.ProcessFinalDataBlock | ElGamalEncrypt.cs:49-70 | an empty final block gives empty output and takes no draw; otherwise the block, zero-padded when encrypting and unchanged when decrypting (ElGamalDecrypt.cs:44-54), is processed as a full block |
| ElGamal.Cipher.ProcessData | ElGamalCipher.cs:37-74 | a zero block size fails with DivideByZero, and only it does; a success is the concatenation of the block outputs; encrypting, output i encrypts block i of the zero-padded data with the i-th accepted K, taken in order from the draws, and only running out of draws fails; decrypting, output i decrypts the i-th ciphertext block, and it fails only on a partial final block or with "No inverse!" on a block whose shared secret has no inverse; the input array is only read |
| ElGamal.Cipher.ProcessBlocks | ElGamalCipher.cs:43-59 | the loop over the complete blocks: a success has one output per complete block, each the result of its block, and leaves the draws the accepted values of K came from; encrypting it fails only when the draws run out, decrypting only with "No inverse!" on a block whose shared secret has no inverse |
| ElGamal.Cipher.ProcessLast | ElGamalCipher.cs:61-73 | the final block completes the stream: the outputs then cover every block of the padded data; it fails only when the draws run out (encrypting) or on a non-empty partial block (decrypting) |
| ElGamal.ReadBlock | ElGamalCipher.cs:51-54 | the i-th copy into the hold buffer is bytes [i * size, (i + 1) * size) of the data |
| ElGamal.ReadLast | ElGamalCipher.cs:62-64 | the final block is the last data.Length mod block_size bytes |
| ElGamal.CiphertextLength | ElGamalEncrypt.cs:49-69 | the ciphertext of n bytes has ceil(n / plaintext_blocksize) * ciphertext_blocksize bytes |
| ElGamal.EncryptData | ImplementationClass.cs:134-144 | `EncryptData` with an existing key: it fails only for a zero plaintext block size or when the draws run out; a success encrypts the zero-padded data block by block with the values of K that a prefix of the draws accepts |
| ElGamal.DecryptData | ImplementationClass.cs:146-156 | `DecryptData` with an existing key: it fails only on data that is not whole ciphertext blocks, or with "No inverse!" when some block has a shared secret with no inverse; a success decrypts every block |
| ElGamal.EncryptThenDecrypt | Program.cs:35-50 | for a key pair with Y = G^X mod P, a successful decryption of the encryption is the plaintext zero-padded to whole plaintext blocks, so its first data.Length bytes are the plaintext; the round trip fails only for a zero plaintext block size, when the draws run out, or with "No inverse!" when some accepted K gives a shared secret (G^K mod P)^X mod P that is at most 1 or not coprime to P |

## Left out

- Random sources: both `genRandomBits` overloads (BigInteger.cs:1349-1434) draw from `Random` and `RNGCryptoServiceProvider`. The model takes the values of the draws as an input sequence (`Encryption.Draw` describes one). Running out of that sequence is the model-only `RandomExhausted` error, standing for the source's unbounded retry.
- `RabinMillerTest` picks its bases with `rand.NextDouble()` and `genRandomBits`. The bases are a parameter, and the probabilistic guarantee of "probably prime" is not stated.
- `genPseudoPrime` (BigInteger.cs:1721-1756) loops over random candidates with no bound, so it is not modelled. The Lucas test named in the `isProbablePrime()` comment is not implemented in the source.
- `IntValue` and `LongValue` (BigInteger.cs:1691-1714) are not modelled as operations. The trial division's `IntValue() == 0` is written as a test on the low word of a small remainder.
- `Equals(object)` with an argument that is not a BigInteger, `GetHashCode` and `ToString()`, which is `ToString(10)`, are not modelled separately.
- `ImplementationClass.cs` key management (`CreateKeyPair`, `NeedToGenerateKey`, import and export of parameters), `ElGamalParameters.cs`, `MethodsUsed.cs` and the console and XML I/O of `Program.cs` are not part of this model. `ElGamal.EncryptData` and `ElGamal.DecryptData` start from an existing key.
- The `MemoryStream` of `ProcessData` is a byte sequence, and the byte arrays returned by the blocks are sequences.
- `Blocks.KeyRange`: the block layer is modelled for a canonical modulus 1 < P < 2^1056 (33 words) and non-negative G, Y and X. The legal key sizes of `ImplementationClass.cs` run from 384 to 1088 bits, so keys of 1064 to 1088 bits are outside the model. For them the products `(Y^K mod P) * M` stay in range, but the `q1 * constant` of `modPow`'s Barrett reduction (BigInteger.cs:1254) can overflow for a 34-word modulus, and the model makes no claim there.
- ElGamal.Cipher.ProcessDataBlock: it requires that an encrypted block is at most plaintext_blocksize bytes. `ProcessData` only ever passes such blocks.
- LongDivision.MultiByteDivide: no claim is made for 69-word divisors. Their window and products can reach the sign word; the result is exact up to 68 words and an error at 70.
- Divide.Divide: the exact quotient is stated for divisors below 2^2176 (68 words), for the reason above.
- Divide.Remainder: the exact remainder is stated for divisors below 2^2176, for the same reason.
- ModPow.ModPow: success is promised only for moduli below 2^1056 (33 words), where `BarrettReduction` cannot overflow. Results for larger moduli, when they succeed, are still exact.
- Euclid.Gcd: it requires the first operand to be a divisor below 2^2176, so that every `%` of the loop is exact.
- Euclid.ModInverse: it requires non-negative operands below 2^2176, and rules out an overflow only for moduli below 2^1056, where its coefficients stay below 2^2113.
- Primality.RabinMillerTest: it requires every base to be non-negative and below 2^2176, which every base the source draws is for values in range.
- Primality.IsProbablePrimeWith: it requires the same of its bases.
- Primality.IsProbablePrime: it requires a canonical operand, like the other entry points below.
- Root.Sqrt: it requires a non-negative operand. What the source's bit-by-bit search returns for a negative one is not modelled.

- Untrimmed operands: Divide.Divide, Divide.Remainder, ModPow.ModPow, Euclid.Gcd, Euclid.ModInverse, Root.Sqrt, Primality.RabinMillerTest, Primality.IsProbablePrimeWith and Primality.IsProbablePrime require canonical operands. The source accepts any object, including the untrimmed values `<<` can return. For those, `/` and `%` choose their routine by `dataLength`, so an untrimmed zero divisor fails in `multiByteDivide` instead of with DivideByZero. These cases are not modelled; `Radix.ToString` and the arithmetic, shift and bitwise operators do take untrimmed operands.
- Bytes.GetBytes: `getBytes` calls `bitCount`, which trims the receiver's `dataLength` in place. The model returns the bytes and leaves its operand as it was; `Bitwise.BitCount` does return the trimmed object.
- Radix.FromString: `ToUpper` is modelled by the culture-independent mappings that can produce a digit: a-z, the dotless i (U+0131) to I and the long s (U+017F) to S. Culture-specific casing is not modelled; under the Turkish culture `ToUpper` maps i to a dotted capital I, so the source rejects "i", which the model reads as the digit 18 in a radix above 18. Characters are Unicode scalar values, not UTF-16 code units.

## Findings

| source | as written | input that shows it | evidently intended | confidence | as-written member | corrected member |
|---|---|---|---|---|---|---|
| BigInteger.cs:219-233 | `BigInteger(uint[])` sets dataLength to the array length and only trims while it is above 1 | an empty `uint[]`: dataLength stays 0, so the object breaks the invariant that dataLength is at least 1 | an empty array reads as zero with dataLength 1, like the default constructor | medium, not executed | Construct.FromWordsAsWritten | Construct.FromWords |
| BigInteger.cs:180-215 | the byte constructor checks only the upper bounds of the window length | `length = -4`: both checks pass, no byte is read, and the object gets dataLength -1 | a negative window length is rejected like a window running past the list | medium, not executed | Bytes.FromBytesAsWritten | Bytes.FromBytes |
