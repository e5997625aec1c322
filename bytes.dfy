/**
 * The byte interface of BigInteger.cs: the constructor from a byte list
 * (most significant byte first, packed four bytes to a word) and
 * `getBytes()`, its inverse.
 */
module Bytes {
  import opened Words
  import opened BigInt
  import Bitwise

  /** The value of a byte sequence read most significant byte first. */
  ghost function BytesValue(bs: seq<Byte>): nat
  {
    if |bs| == 0 then 0 else BytesValue(bs[..|bs| - 1]) * 256 + bs[|bs| - 1]
  }

  /** The `inLen` bytes from `offset`, when they lie inside the list. */
  function Window(inData: seq<Byte>, offset: int, inLen: int): seq<Byte>
  {
    if 0 <= offset && 0 <= inLen && offset + inLen <= |inData| then inData[offset..offset + inLen] else []
  }

  /** The number of bytes of x without leading zero bytes (0 for zero). */
  ghost function MinBytes(x: nat): nat
  {
    if x == 0 then 0 else 1 + MinBytes(x / 256)
  }

  // ---------------------------------------------------------------------
  // new BigInteger(IList<byte> inData, int length = -1, int offset = 0)
  // ---------------------------------------------------------------------

  /**
   * The byte constructor as written. The window is `length` bytes from
   * `offset` (by default the rest of the list). A window needing more than
   * 70 words or running past the list throws "Byte overflow"; a negative
   * offset makes the byte reads fail. A negative window length passes both
   * checks: when it is not a multiple of 4 the store to `data[dataLength - 1]`
   * fails, and when it is, the object is built with a negative dataLength.
   */
  method FromBytesAsWritten(inData: seq<Byte>, length: int, offset: int) returns (r: Result<BigInteger>)
    ensures var inLen := if length == -1 then |inData| - offset else length;
      r == Err(CapacityExceeded) <==> inLen > 4 * W || inLen > |inData| - offset
    ensures var inLen := if length == -1 then |inData| - offset else length;
      r.Ok? && 0 <= inLen ==>
        (0 <= offset || inLen == 0) && Canonical(r.value) && Value(r.value) == Signed(BytesValue(Window(inData, offset, inLen)))
    ensures var inLen := if length == -1 then |inData| - offset else length;
      inLen < 0 && inLen % 4 == 0 && inLen <= |inData| - offset ==>
        r.Ok? && r.value.dataLength < 0 && !WellFormed(r.value)
  {
    var inLen := if length == -1 then |inData| - offset else length;
    var dataLength := inLen / 4;    // inLen >> 2
    var leftOver := inLen % 4;      // inLen & 0x3
    if leftOver != 0 {
      dataLength := dataLength + 1;
    }
    if dataLength > W || inLen > |inData| - offset {
      return Err(CapacityExceeded);
    }
    if inLen < 0 {
      // no word is packed; a partial top word is stored at a negative index
      if leftOver != 0 {
        return Err(IndexOutOfRange);
      }
      return Ok(BigInteger(seq(W, _ => 0), dataLength));
    }
    if offset < 0 && inLen > 0 {
      return Err(IndexOutOfRange);
    }
    var a := PackBytes(Window(inData, offset, inLen));
    r := Ok(a);
  }

  /**
   * The byte constructor with a negative window length rejected like a
   * negative offset, so that every object it builds is well formed.
   */
  method FromBytes(inData: seq<Byte>, length: int, offset: int) returns (r: Result<BigInteger>)
    ensures var inLen := if length == -1 then |inData| - offset else length;
      r == Err(CapacityExceeded) <==> inLen > 4 * W || inLen > |inData| - offset
    ensures var inLen := if length == -1 then |inData| - offset else length;
      r.Ok? <==> 0 <= inLen <= 4 * W && inLen <= |inData| - offset && (0 <= offset || inLen == 0)
    ensures var inLen := if length == -1 then |inData| - offset else length;
      r.Ok? ==> Canonical(r.value) && Value(r.value) == Signed(BytesValue(Window(inData, offset, inLen)))
  {
    var inLen := if length == -1 then |inData| - offset else length;
    var dataLength := inLen / 4;
    var leftOver := inLen % 4;
    if leftOver != 0 {
      dataLength := dataLength + 1;
    }
    if dataLength > W || inLen > |inData| - offset {
      return Err(CapacityExceeded);
    }
    if inLen < 0 || (offset < 0 && inLen > 0) {
      return Err(IndexOutOfRange);
    }
    var a := PackBytes(Window(inData, offset, inLen));
    r := Ok(a);
  }

  /**
   * The packing and trimming loops of the byte constructor: four bytes to a
   * word from the end of the window, then the one to three leading bytes as
   * the top word.
   */
  method PackBytes(bs: seq<Byte>) returns (a: BigInteger)
    requires |bs| <= 4 * W
    ensures Canonical(a) && Val(a.data) == BytesValue(bs)
    ensures Value(a) == Signed(BytesValue(bs))
  {
    var inLen := |bs|;
    var dataLength := inLen / 4;
    var leftOver := inLen % 4;
    if leftOver != 0 {
      dataLength := dataLength + 1;
    }
    var data := new Word[W](_ => 0);
    PackWords(bs, data);
    PackLead(bs, data);
    if dataLength == 0 {
      dataLength := 1;
    }
    while dataLength > 1 && data[dataLength - 1] == 0
      invariant 1 <= dataLength <= W && ZerosFrom(data[..], dataLength)
    {
      dataLength := dataLength - 1;
    }
    a := BigInteger(data[..], dataLength);
    SignedView(a);
  }

  /** The word loop: four bytes to a word, from the end of the window. */
  method PackWords(bs: seq<Byte>, data: array<Word>)
    requires |bs| <= 4 * W && data.Length == W && ZerosFrom(data[..], 0)
    modifies data
    ensures ZerosFrom(data[..], |bs| / 4)
    ensures Val(data[..|bs| / 4]) == BytesValue(bs[|bs| % 4..])
  {
    var inLen := |bs|;
    var i, j := inLen - 1, 0;
    while i >= 3
      invariant -1 <= i < inLen && i == inLen - 1 - 4 * j && 0 <= j <= inLen / 4
      invariant ZerosFrom(data[..], j)
      invariant Val(data[..j]) == BytesValue(bs[i + 1..])
    {
      // the int sum of shifted bytes, cast back to uint
      var w: Word := bs[i - 3] as int * 0x100_0000 + bs[i - 2] as int * 0x1_0000 + bs[i - 1] as int * 0x100 + bs[i];
      ghost var d := data[..];
      data[j] := w;
      assert data[..] == d[j := w];
      PackStep(bs, data[..], i, j, w);
      i, j := i - 4, j + 1;
    }
    assert j == inLen / 4 && i + 1 == inLen % 4;
  }

  /** The one to three leading bytes, stored as the top word. */
  method PackLead(bs: seq<Byte>, data: array<Word>)
    requires |bs| <= 4 * W && data.Length == W
    requires ZerosFrom(data[..], |bs| / 4) && Val(data[..|bs| / 4]) == BytesValue(bs[|bs| % 4..])
    modifies data
    ensures Val(data[..]) == BytesValue(bs)
    ensures ZerosFrom(data[..], |bs| / 4 + (if |bs| % 4 == 0 then 0 else 1))
  {
    var j, leftOver := |bs| / 4, |bs| % 4;
    ghost var d := data[..];
    if leftOver == 1 {
      data[j] := bs[0];
    } else if leftOver == 2 {
      data[j] := bs[0] as int * 0x100 + bs[1];
    } else if leftOver == 3 {
      data[j] := bs[0] as int * 0x1_0000 + bs[1] as int * 0x100 + bs[2];
    }
    PackTop(bs, d, data[..], j, leftOver);
  }

  /** One packed word: the four bytes below the already packed ones. */
  lemma {:induction false} PackStep(bs: seq<Byte>, d: seq<Word>, i: int, j: nat, w: Word)
    requires 3 <= i < |bs| && i == |bs| - 1 - 4 * j && j < |d|
    requires w == bs[i - 3] as int * 0x100_0000 + bs[i - 2] as int * 0x1_0000 + bs[i - 1] as int * 0x100 + bs[i]
    requires d[j] == w && Val(d[..j]) == BytesValue(bs[i + 1..])
    ensures Val(d[..j + 1]) == BytesValue(bs[i - 3..])
  {
    ValPrefix(d, j);
    var g := bs[i - 3..i + 1];
    assert bs[i - 3..] == g + bs[i + 1..];
    FourBytes(g, w);
    BytesWords(g, bs[i + 1..], j);
  }

  /** The partial top word completes the value. */
  lemma {:induction false} PackTop(bs: seq<Byte>, d: seq<Word>, e: seq<Word>, j: nat, leftOver: int)
    requires |d| == |e| == W && leftOver == |bs| % 4 && j == |bs| / 4 && ZerosFrom(d, j)
    requires |bs| <= 4 * W && Val(d[..j]) == BytesValue(bs[leftOver..])
    requires leftOver == 0 ==> e == d
    requires leftOver == 1 ==> e == d[j := bs[0]]
    requires leftOver == 2 ==> e == d[j := bs[0] as int * 0x100 + bs[1]]
    requires leftOver == 3 ==> e == d[j := bs[0] as int * 0x1_0000 + bs[1] as int * 0x100 + bs[2]]
    ensures Val(e) == BytesValue(bs)
    ensures ZerosFrom(e, if leftOver == 0 then j else j + 1)
  {
    assert bs == bs[..leftOver] + bs[leftOver..];
    BytesWords(bs[..leftOver], bs[leftOver..], j);
    ValTrailingZeros(d, j);
    if leftOver == 0 {
      assert bs[..0] == [];
      ScaleZero(j);
    } else {
      var t := e[j];
      ShortBytes(bs[..leftOver], t);
      ValUpdateZero(d, j, t);
    }
  }

  /** Four bytes, most significant first, make one word. */
  lemma {:induction false} FourBytes(g: seq<Byte>, w: int)
    requires |g| == 4 && w == g[0] as int * 0x100_0000 + g[1] as int * 0x1_0000 + g[2] as int * 0x100 + g[3]
    ensures BytesValue(g) == w
  {
    LeadBytes(g);
  }

  /** The one to three leading bytes make the top word. */
  lemma {:induction false} ShortBytes(g: seq<Byte>, t: int)
    requires 1 <= |g| <= 3
    requires |g| == 1 ==> t == g[0]
    requires |g| == 2 ==> t == g[0] as int * 0x100 + g[1]
    requires |g| == 3 ==> t == g[0] as int * 0x1_0000 + g[1] as int * 0x100 + g[2]
    ensures BytesValue(g) == t
  {
    LeadBytes(g);
  }

  /** The values of the first one to four bytes of g, spelled out. */
  lemma {:induction false} LeadBytes(g: seq<Byte>)
    requires 1 <= |g|
    ensures BytesValue(g[..1]) == g[0]
    ensures |g| >= 2 ==> BytesValue(g[..2]) == g[0] as int * 0x100 + g[1]
    ensures |g| >= 3 ==> BytesValue(g[..3]) == g[0] as int * 0x1_0000 + g[1] as int * 0x100 + g[2]
    ensures |g| >= 4 ==> BytesValue(g[..4]) == g[0] as int * 0x100_0000 + g[1] as int * 0x1_0000 + g[2] as int * 0x100 + g[3]
    ensures |g| <= 4 ==> g[..|g|] == g
  {
    assert g[..1][..0] == [];
    assert BytesValue(g[..1]) == g[0];
    if |g| >= 2 {
      assert g[..2][..1] == g[..1];
      assert BytesValue(g[..2]) == g[0] as int * 0x100 + g[1];
    }
    if |g| >= 3 {
      assert g[..3][..2] == g[..2];
      assert BytesValue(g[..3]) == (g[0] as int * 0x100 + g[1]) * 0x100 + g[2];
    }
    if |g| >= 4 {
      assert g[..4][..3] == g[..3];
      assert BytesValue(g[..4]) == (g[0] as int * 0x1_0000 + g[1] as int * 0x100 + g[2]) * 0x100 + g[3];
    }
  }

  /** Bytes after x shift it up by 8 bits each. */
  lemma {:induction false} BytesConcat(x: seq<Byte>, y: seq<Byte>)
    ensures BytesValue(x + y) == BytesValue(x) * Pow2(8 * |y|) + BytesValue(y)
  {
    if |y| == 0 {
      assert x + y == x;
    } else {
      var n := |y| - 1;
      var y' := y[..n];
      var xy := x + y;
      assert xy[..|xy| - 1] == x + y' && xy[|xy| - 1] == y[n];
      BytesConcat(x, y');
      var X, Y', P := BytesValue(x), BytesValue(y'), Pow2(8 * n);
      assert BytesValue(xy) == (X * P + Y') * 256 + y[n];
      assert BytesValue(y) == Y' * 256 + y[n];
      Pow2Add(8 * n, 8);
      assert Pow2(8) == 256;
      assert 8 * |y| == 8 * n + 8;
      ShiftByte(X, P, Y', y[n], Pow2(8 * |y|));
    }
  }

  /** One more byte multiplies the high part's weight by 256. */
  lemma {:induction false} ShiftByte(x: int, p: int, y: int, b: int, q: int)
    requires q == p * 256
    ensures (x * p + y) * 256 + b == x * q + (y * 256 + b)
  {
  }

  /** Four bytes per word: bytes after x shift it up by one word per four bytes. */
  lemma {:induction false} BytesWords(x: seq<Byte>, y: seq<Byte>, j: nat)
    requires |y| == 4 * j
    ensures BytesValue(x + y) == Scale(BytesValue(x), j) + BytesValue(y)
  {
    BytesConcat(x, y);
    ScaleIsMul(BytesValue(x), j);
    PowIsPow2(j);
    assert 8 * |y| == 32 * j;
  }

  /** n bytes hold less than 2^(8n). */
  lemma {:induction false} BytesBound(bs: seq<Byte>)
    ensures BytesValue(bs) < Pow2(8 * |bs|)
  {
    if |bs| > 0 {
      var n := |bs| - 1;
      BytesBound(bs[..n]);
      Pow2Add(8 * n, 8);
      assert Pow2(8) == 256;
      MulLe(BytesValue(bs[..n]) + 1, Pow2(8 * n), 256);
    }
  }

  // ---------------------------------------------------------------------
  // getBytes()
  // ---------------------------------------------------------------------

  /**
   * `getBytes()`: ceil(bitCount / 8) bytes, most significant first. The top
   * word contributes its bytes from the first non-zero one; every lower word
   * contributes four. Zero gives the single byte 0, and a negative value its
   * full 280-byte two's-complement pattern.
   */
  method GetBytes(a: BigInteger) returns (result: seq<Byte>)
    requires WellFormed(a)
    ensures 1 <= |result| <= 4 * W && BytesValue(result) == Val(a.data)
    ensures |result| == 1 || result[0] != 0
    ensures |result| == if Val(a.data) == 0 then 1 else MinBytes(Val(a.data))
  {
    var numBits, t := Bitwise.BitCount(a);
    var numBytes := numBits / 8;    // numBits >> 3
    if numBits % 8 != 0 {
      numBytes := numBytes + 1;
    }
    TrimmedBytes(t, t.data[t.dataLength - 1], MinBytes(t.data[t.dataLength - 1]), numBits, numBytes);
    result := FillBytes(t, numBytes);
  }

  /** The fill loops of `getBytes()` into a zeroed buffer of numBytes bytes. */
  method FillBytes(t: BigInteger, numBytes: int) returns (result: seq<Byte>)
    requires Canonical(t) && MinBytes(t.data[t.dataLength - 1]) <= 4
    requires Val(t.data) == 0 ==> numBytes == 1 && MinBytes(t.data[t.dataLength - 1]) == 0 && t.dataLength == 1
    requires Val(t.data) != 0 ==>
      numBytes == MinBytes(t.data[t.dataLength - 1]) + 4 * (t.dataLength - 1) && MinBytes(t.data[t.dataLength - 1]) >= 1
    ensures 1 <= |result| <= 4 * W && BytesValue(result) == Val(t.data)
    ensures |result| == 1 || result[0] != 0
    ensures |result| == if Val(t.data) == 0 then 1 else MinBytes(Val(t.data))
  {
    var pos;
    result, pos := FillBuffer(t, numBytes);
    GetBytesValue(t, result, pos, MinBytes(t.data[t.dataLength - 1]));
  }

  /**
   * The buffer of numBytes bytes after both fill loops: the words' bytes up
   * to pos, zeros after, and no leading zero byte.
   */
  method FillBuffer(t: BigInteger, numBytes: int) returns (result: seq<Byte>, pos: int)
    requires Canonical(t) && MinBytes(t.data[t.dataLength - 1]) <= 4
    requires 0 <= MinBytes(t.data[t.dataLength - 1]) + 4 * (t.dataLength - 1) <= numBytes
    requires MinBytes(t.data[t.dataLength - 1]) == 0 ==> t.dataLength == 1
    ensures |result| == numBytes && pos == MinBytes(t.data[t.dataLength - 1]) + 4 * (t.dataLength - 1)
    ensures BytesValue(result[..pos]) == Val(t.data[0..t.dataLength]) && (pos == 0 || result[0] != 0)
    ensures forall k :: pos <= k < |result| ==> result[k] == 0
  {
    var n := t.dataLength;
    var val := t.data[n - 1];
    var buf := new Byte[numBytes](_ => 0);
    pos := PutTopWord(buf, val);
    assert Val(t.data[n - 1..n]) == val by {
      assert t.data[n - 1..n] == [val];
      ValSingle(val);
    }
    pos := PutLowWords(buf, pos, t.data, n);
    result := buf[..];
  }

  /** The top word's bytes from its first non-zero one: none for a zero word. */
  method PutTopWord(buf: array<Byte>, val: Word) returns (pos: int)
    requires MinBytes(val) <= buf.Length && forall k :: 0 <= k < buf.Length ==> buf[k] == 0
    modifies buf
    ensures pos == MinBytes(val) && BytesValue(buf[..pos]) == val && (pos == 0 || buf[0] != 0)
    ensures forall k :: pos <= k < buf.Length ==> buf[k] == 0
  {
    WordBytes(val);
    assert MinBytes(val / 0x100) <= MinBytes(val);
    assert MinBytes(val / 0x1_0000) <= MinBytes(val / 0x100);
    assert MinBytes(val / 0x100_0000) <= MinBytes(val / 0x1_0000);
    assert MinBytes(val / 0x100_0000 / 256) == 0 && buf[..0] == [];
    pos := 0;
    pos := PutTopByte(buf, pos, (val / 0x100_0000) % 0x100, val / 0x100_0000);
    pos := PutTopByte(buf, pos, (val / 0x1_0000) % 0x100, val / 0x1_0000);
    pos := PutTopByte(buf, pos, (val / 0x100) % 0x100, val / 0x100);
    pos := PutTopByte(buf, pos, val % 0x100, val);
  }

  /** The loop over the lower words, four bytes each, most significant word first. */
  method PutLowWords(buf: array<Byte>, pos0: int, ws: seq<Word>, n: int) returns (pos: int)
    requires 1 <= n <= |ws| && 0 <= pos0 && pos0 + 4 * (n - 1) <= buf.Length && (pos0 == 0 ==> n == 1)
    requires BytesValue(buf[..pos0]) == Val(ws[n - 1..n]) && (pos0 == 0 || buf[0] != 0)
    requires forall k :: pos0 <= k < buf.Length ==> buf[k] == 0
    modifies buf
    ensures pos == pos0 + 4 * (n - 1) && BytesValue(buf[..pos]) == Val(ws[0..n])
    ensures (pos == 0 || buf[0] != 0) && forall k :: pos <= k < buf.Length ==> buf[k] == 0
  {
    pos := pos0;
    var i := n - 2;
    while i >= 0
      invariant -1 <= i <= n - 2 && pos == pos0 + 4 * (n - 2 - i)
      invariant BytesValue(buf[..pos]) == Val(ws[i + 1..n])
      invariant pos == 0 || buf[0] != 0
      invariant forall k :: pos <= k < buf.Length ==> buf[k] == 0
    {
      var w := ws[i];
      ghost var b0 := buf[..];
      PutWord(buf, pos, w);
      WordStepBytes(b0, buf[..], pos, ws, i, n);
      i := i - 1;
      pos := pos + 4;
    }
    assert i + 1 == 0;
  }

  /**
   * One of the four top-word steps: `if ((tempVal = ...) != 0)
   * result[pos++] = (byte)tempVal; else if (pos > 0) pos++;` where x is the
   * part of the top word read so far and tempVal its low byte.
   */
  method PutTopByte(buf: array<Byte>, pos: int, tempVal: int, ghost x: nat) returns (pos': int)
    requires tempVal == x % 256 && pos == MinBytes(x / 256) && MinBytes(x) <= buf.Length
    requires BytesValue(buf[..pos]) == x / 256 && (pos == 0 || buf[0] != 0)
    requires forall k :: pos <= k < buf.Length ==> buf[k] == 0
    modifies buf
    ensures pos' == MinBytes(x) && BytesValue(buf[..pos']) == x && (pos' == 0 || buf[0] != 0)
    ensures forall k :: pos' <= k < buf.Length ==> buf[k] == 0
    ensures forall k :: 0 <= k < pos ==> buf[k] == old(buf[k])
  {
    if tempVal != 0 {
      ghost var b0 := buf[..];
      buf[pos] := tempVal;
      assert buf[..pos + 1] == b0[..pos] + [tempVal];
      pos' := pos + 1;
    } else if pos > 0 {
      assert buf[..pos + 1] == buf[..pos] + [0];
      pos' := pos + 1;
    } else {
      pos' := pos;
    }
  }

  /** The loop body for a lower word: its four bytes, most significant first. */
  method PutWord(buf: array<Byte>, pos: int, w: Word)
    requires 0 <= pos && pos + 4 <= buf.Length
    modifies buf
    ensures buf[..] == old(buf[..])[pos := w / 0x100_0000][pos + 1 := (w / 0x1_0000) % 0x100]
                                   [pos + 2 := (w / 0x100) % 0x100][pos + 3 := w % 0x100]
  {
    var val := w;
    buf[pos + 3] := val % 0x100;    // val & 0xFF
    val := val / 0x100;             // val >>= 8
    buf[pos + 2] := val % 0x100;
    val := val / 0x100;
    buf[pos + 1] := val % 0x100;
    val := val / 0x100;
    buf[pos] := val % 0x100;
  }

  /** The bytes of a word read back give the word, and its top bytes give its prefix values. */
  lemma {:induction false} WordBytes(w: Word)
    ensures w / 0x100_0000 < 256
    ensures (w / 0x1_0000) / 256 == w / 0x100_0000 && (w / 0x100) / 256 == w / 0x1_0000 && w / 256 == w / 0x100
    ensures w == (w / 0x100_0000) * 0x100_0000 + ((w / 0x1_0000) % 0x100) * 0x1_0000
                 + ((w / 0x100) % 0x100) * 0x100 + w % 0x100
  {
  }

  /** A lower word appended after the bytes above it. */
  lemma {:induction false} WordStepBytes(b0: seq<Byte>, b1: seq<Byte>, pos: nat, ws: seq<Word>, i: nat, n: nat)
    requires i < n <= |ws| && pos + 4 <= |b0| == |b1|
    requires BytesValue(b0[..pos]) == Val(ws[i + 1..n])
    requires b1 == b0[pos := ws[i] / 0x100_0000][pos + 1 := (ws[i] / 0x1_0000) % 0x100]
                     [pos + 2 := (ws[i] / 0x100) % 0x100][pos + 3 := ws[i] % 0x100]
    ensures BytesValue(b1[..pos + 4]) == Val(ws[i..n])
    ensures pos > 0 ==> b1[0] == b0[0]
  {
    var w := ws[i];
    WordBytes(w);
    var g: seq<Byte> := [w / 0x100_0000, (w / 0x1_0000) % 0x100, (w / 0x100) % 0x100, w % 0x100];
    assert b1[..pos + 4] == b0[..pos] + g by {
      assert forall k :: 0 <= k < pos ==> b1[k] == b0[k];
    }
    FourBytes(g, w);
    BytesConcat(b0[..pos], g);
    Pow2Of32();
    assert ws[i..n][1..] == ws[i + 1..n];
  }

  /**
   * The byte count of a trimmed value: the top word's significant bytes and
   * four per lower word, which is ceil(bitCount / 8) for a non-zero value.
   */
  lemma {:induction false} TrimmedBytes(t: BigInteger, val: Word, tb: nat, numBits: int, numBytes: int)
    requires Canonical(t) && val == t.data[t.dataLength - 1] && tb == MinBytes(val)
    requires 1 <= numBits && Val(t.data) < Pow2(numBits) && (numBits == 1 || Pow2(numBits - 1) <= Val(t.data))
    requires numBytes == numBits / 8 + (if numBits % 8 != 0 then 1 else 0)
    ensures Val(t.data) == 0 ==> numBytes == 1 && tb == 0 && t.dataLength == 1
    ensures Val(t.data) != 0 ==> numBytes == tb + 4 * (t.dataLength - 1) && tb >= 1
    ensures tb <= 4
  {
    MinBytesWord(val);
    if Val(t.data) == 0 {
      TrimmedZero(t);
    } else {
      TrimmedNonZero(t, val, tb, numBits);
    }
  }

  /** A word has at most four significant bytes. */
  lemma {:induction false} MinBytesWord(w: Word)
    ensures MinBytes(w) <= 4 && (w == 0 <==> MinBytes(w) == 0)
  {
    MinBytesBounds(w);
    Pow2Of32();
    if MinBytes(w) > 4 {
      Pow2Monotone(32, 8 * (MinBytes(w) - 1));
    }
  }

  /** Zero is kept as one zero word. */
  lemma {:induction false} TrimmedZero(t: BigInteger)
    requires Canonical(t) && Val(t.data) == 0
    ensures t.dataLength == 1 && t.data[0] == 0
  {
    WellFormedValue(t);
    ValZeroWords(t.data);
  }

  /** A non-zero trimmed value has tb + 4 (n - 1) significant bytes. */
  lemma {:induction false} TrimmedNonZero(t: BigInteger, val: Word, tb: nat, numBits: int)
    requires Canonical(t) && val == t.data[t.dataLength - 1] && tb == MinBytes(val)
    requires 1 <= numBits && Val(t.data) < Pow2(numBits) && (numBits == 1 || Pow2(numBits - 1) <= Val(t.data))
    requires Val(t.data) != 0
    ensures numBits / 8 + (if numBits % 8 != 0 then 1 else 0) == tb + 4 * (t.dataLength - 1) && tb >= 1
  {
    var n := t.dataLength;
    TopWord(t.data, n);
    assert val != 0;
    MinBytesBounds(val);
    ValueBytes(Val(t.data), Val(t.data[..n - 1]), val, n - 1, tb);
    BytesFromBits(Val(t.data), numBits, tb + 4 * (n - 1));
  }

  /** The value of the words below n is the top word n - 1 scaled over the lower words. */
  lemma {:induction false} TopWord(ws: seq<Word>, n: nat)
    requires 1 <= n <= |ws| && ZerosFrom(ws, n)
    ensures Val(ws) == Val(ws[..n - 1]) + Scale(ws[n - 1], n - 1) && Val(ws[..n - 1]) < Pow(n - 1)
  {
    ValTrailingZeros(ws, n);
    ValLast(ws[..n]);
    assert ws[..n][..n - 1] == ws[..n - 1];
    ValBound(ws[..n - 1]);
  }

  lemma {:induction false} ValZeroWords(ws: seq<Word>)
    requires Val(ws) == 0
    ensures forall k :: 0 <= k < |ws| ==> ws[k] == 0
  {
    forall k | 0 <= k < |ws|
      ensures ws[k] == 0
    {
      if ws[k] != 0 {
        ValAtLeast(ws, k);
      }
    }
  }

  /** The byte length of x brackets it between powers of 256. */
  lemma {:induction false} MinBytesBounds(x: nat)
    ensures x < Pow2(8 * MinBytes(x)) && (x > 0 ==> Pow2(8 * (MinBytes(x) - 1)) <= x)
  {
    if x > 0 {
      var m := MinBytes(x / 256);
      MinBytesBounds(x / 256);
      Pow2Add(8 * m, 8);
      assert Pow2(8) == 256;
      MulLe(x / 256 + 1, Pow2(8 * m), 256);
      if m > 0 {
        Pow2Add(8 * (m - 1), 8);
        MulLe(Pow2(8 * (m - 1)), x / 256, 256);
      }
    }
  }

  /** A top word of tb significant bytes at word position m. */
  lemma {:induction false} ValueBytes(v: nat, low: nat, t: nat, m: nat, tb: nat)
    requires v == low + Scale(t, m) && low < Pow(m) && t > 0
    requires t < Pow2(8 * tb) && Pow2(8 * (tb - 1)) <= t && tb >= 1
    ensures Pow2(8 * (tb + 4 * m - 1)) <= v < Pow2(8 * (tb + 4 * m))
  {
    ScaleMonotone(t + 1, Pow2(8 * tb), m);
    ScaleAdd(t, 1, m);
    ScalePow2Bytes(8 * tb, m);
    ScaleMonotone(Pow2(8 * (tb - 1)), t, m);
    ScalePow2Bytes(8 * (tb - 1), m);
    assert 8 * (tb - 1) + 32 * m == 8 * (tb + 4 * m - 1);
  }

  lemma {:induction false} ScalePow2Bytes(b: nat, m: nat)
    ensures Scale(Pow2(b), m) == Pow2(b + 32 * m) && Scale(1, m) == Pow(m)
  {
    ScaleIsMul(Pow2(b), m);
    PowIsPow2(m);
    Pow2Add(b, 32 * m);
  }

  /** Bit bounds and byte bounds of one value agree: L bytes is ceil(bits / 8). */
  lemma {:induction false} BytesFromBits(v: nat, bits: int, L: nat)
    requires 1 <= bits && v < Pow2(bits) && (bits == 1 || Pow2(bits - 1) <= v)
    requires L >= 1 && Pow2(8 * (L - 1)) <= v < Pow2(8 * L)
    ensures bits / 8 + (if bits % 8 != 0 then 1 else 0) == L
  {
    if bits > 8 * L {
      Pow2Monotone(8 * L, bits - 1);
    }
    if bits <= 8 * (L - 1) {
      Pow2Monotone(bits, 8 * (L - 1));
    }
  }

  /** The filled buffer is the value's minimal big-endian bytes. */
  lemma {:induction false} GetBytesValue(t: BigInteger, result: seq<Byte>, pos: int, tb: nat)
    requires Canonical(t) && pos == tb + 4 * (t.dataLength - 1) && tb <= 4
    requires Val(t.data) == 0 ==> |result| == 1 && tb == 0
    requires Val(t.data) != 0 ==> |result| == pos && tb >= 1
    requires 0 <= pos <= |result| && BytesValue(result[..pos]) == Val(t.data[0..t.dataLength])
    requires forall k :: pos <= k < |result| ==> result[k] == 0
    requires pos == 0 || result[0] != 0
    ensures 1 <= |result| <= 4 * W && BytesValue(result) == Val(t.data)
    ensures |result| == 1 || result[0] != 0
    ensures |result| == if Val(t.data) == 0 then 1 else MinBytes(Val(t.data))
  {
    WellFormedValue(t);
    assert t.data[0..t.dataLength] == t.data[..t.dataLength];
    if Val(t.data) == 0 {
      assert result == [0] && result[..0] == [];
    } else {
      assert result[..pos] == result;
      MinBytesOf(result);
    }
  }

  /** Bytes without a leading zero are the minimal encoding of their value. */
  lemma {:induction false} MinBytesOf(bs: seq<Byte>)
    requires |bs| >= 1 && bs[0] != 0
    ensures MinBytes(BytesValue(bs)) == |bs| && BytesValue(bs) > 0
  {
    var n := |bs| - 1;
    if n > 0 {
      MinBytesOf(bs[..n]);
    } else {
      assert bs[..0] == [];
    }
  }

  // ---------------------------------------------------------------------
  // Round trip
  // ---------------------------------------------------------------------

  /** `new BigInteger(v.getBytes())` rebuilds v, negative values included. */
  method BytesRoundTrip(a: BigInteger) returns (r: Result<BigInteger>)
    requires Canonical(a)
    ensures r == Ok(a)
  {
    var bs := GetBytes(a);
    r := FromBytes(bs, -1, 0);
    assert bs[0..|bs|] == bs;
    SignedView(a);
    CanonicalUnique(r.value, a);
  }
}
