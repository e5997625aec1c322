/**
 * The radix conversions of BigInteger.cs: the constructor from a string of
 * digits, `BigInteger(string value, int radix)`, and `ToString(int radix)`.
 * Both work on whole BigInteger values through the class's own operators,
 * so they are modelled as methods over the operator contracts.
 */
module Radix {
  import opened Words
  import opened BigInt
  import Additive
  import Multiply
  import Construct
  import ShortDivision

  /** The range of a C# `int`, the type of the radix parameter. */
  const INT_MIN: int := -0x8000_0000
  const INT_MAX: int := 0x7FFF_FFFF

  // ---------------------------------------------------------------------
  // Characters
  // ---------------------------------------------------------------------

  /**
   * The digit a character stands for in the constructor: '0'-'9' are 0-9,
   * 'A'-'Z' are 10-35, and any other character is 9999999 ("arbitrary
   * large"), which a radix above it accepts.
   */
  function CharValue(c: char): nat
  {
    if '0' <= c <= '9' then c as int - '0' as int
    else if 'A' <= c <= 'Z' then c as int - 'A' as int + 10
    else 9999999
  }

  /** The characters ToString writes: decimal digits and capital letters. */
  predicate IsDigitChar(c: char)
  {
    '0' <= c <= '9' || 'A' <= c <= 'Z'
  }

  /**
   * The character ToString writes for a digit d: its decimal spelling when
   * d < 10, otherwise `charSet[d - 10]` of "ABCDEFGHIJKLMNOPQRSTUVWXYZ".
   * The constructor reads it back as d.
   */
  function DigitChar(d: nat): (c: char)
    requires d < 36
    ensures IsDigitChar(c) && CharValue(c) == d
  {
    if d < 10 then ('0' as int + d) as char else ('A' as int + d - 10) as char
  }

  /**
   * `Char.IsWhiteSpace`, which `String.Trim` removes: the Unicode space,
   * line and paragraph separators, U+0009 to U+000D and U+0085.
   */
  predicate IsWhiteSpace(c: char)
  {
    c == ' ' || '\t' <= c <= '\r' || c == '\U{85}' || c == '\U{A0}' || c == '\U{1680}'
    || '\U{2000}' <= c <= '\U{200A}' || c == '\U{2028}' || c == '\U{2029}'
    || c == '\U{202F}' || c == '\U{205F}' || c == '\U{3000}'
  }

  /**
   * `ToUpper` on one character, as far as it can produce a digit: the
   * letters a-z, and the dotless i (U+0131) and the long s (U+017F), whose
   * upper cases are I and S. Every other character it maps to a character
   * that is no digit either way.
   */
  function UpperChar(c: char): char
  {
    if 'a' <= c <= 'z' then (c as int - 32) as char
    else if c == '\U{131}' then 'I'
    else if c == '\U{17F}' then 'S'
    else c
  }

  function Upper(s: string): string
  {
    seq(|s|, k requires 0 <= k < |s| => UpperChar(s[k]))
  }

  /** The string without its leading white space. */
  function TrimStart(s: string): (t: string)
    ensures |t| <= |s| && t == s[|s| - |t|..]
    ensures |t| > 0 ==> !IsWhiteSpace(t[0])
    ensures forall k :: 0 <= k < |s| - |t| ==> IsWhiteSpace(s[k])
  {
    if |s| > 0 && IsWhiteSpace(s[0]) then TrimStart(s[1..]) else s
  }

  /** The string without its trailing white space. */
  function TrimEnd(s: string): (t: string)
    ensures |t| <= |s| && t == s[..|t|]
    ensures |t| > 0 ==> !IsWhiteSpace(t[|t| - 1])
    ensures forall k :: |t| <= k < |s| ==> IsWhiteSpace(s[k])
  {
    if |s| > 0 && IsWhiteSpace(s[|s| - 1]) then TrimEnd(s[..|s| - 1]) else s
  }

  /** `(value.ToUpper()).Trim()` */
  function Prepare(value: string): string
  {
    TrimEnd(TrimStart(Upper(value)))
  }

  // ---------------------------------------------------------------------
  // Numerals
  // ---------------------------------------------------------------------

  /** radix^k */
  ghost function Power(radix: int, k: nat): int
  {
    if k == 0 then 1 else radix * Power(radix, k - 1)
  }

  /** The number a digit string spells in the radix, most significant digit first. */
  ghost function DigitsValue(ds: string, radix: int): int
  {
    if |ds| == 0 then 0 else DigitsValue(ds[..|ds| - 1], radix) * radix + CharValue(ds[|ds| - 1])
  }

  /** Every character is a digit below the radix. */
  ghost predicate AllDigits(ds: string, radix: int)
  {
    forall k :: 0 <= k < |ds| ==> CharValue(ds[k]) < radix
  }

  /** The digits of a numeral, after an optional minus sign. */
  function Body(s: string): string
  {
    if |s| > 0 && s[0] == '-' then s[1..] else s
  }

  /**
   * The prepared strings the constructor accepts: digits below the radix
   * after an optional '-'; a multiplier radix^(digits - 1) that fits, since
   * the constructor computes it before the last digit; and a value that
   * fits, where a negative numeral must not be zero ("-0" and "-" fail the
   * final sign test).
   */
  ghost predicate Parses(s: string, radix: int)
  {
    |s| > 0 && AllDigits(Body(s), radix)
    && (|Body(s)| > 0 ==> Power(radix, |Body(s)| - 1) < Half())
    && if s[0] == '-' then 0 < DigitsValue(Body(s), radix) <= Half()
       else DigitsValue(Body(s), radix) < Half()
  }

  /** The signed value of a numeral. */
  ghost function NumeralValue(s: string, radix: int): int
  {
    if |s| > 0 && s[0] == '-' then -DigitsValue(Body(s), radix) else DigitsValue(Body(s), radix)
  }

  /** The digits of n in the radix, most significant first, without leading zeros. */
  ghost function Spelled(n: nat, radix: int): string
    requires 2 <= radix <= 36
    decreases n
  {
    if n == 0 then "" else Spelled(n / radix, radix) + [DigitChar(n % radix)]
  }

  /** The string ToString returns: "0", or the digits of the magnitude after '-' when negative. */
  ghost function Numeral(v: int, radix: int): string
    requires 2 <= radix <= 36
  {
    if v == 0 then "0" else if v < 0 then "-" + Spelled(-v, radix) else Spelled(v, radix)
  }

  // ---------------------------------------------------------------------
  // The constructor
  // ---------------------------------------------------------------------

  /** The value of the digits from index i on, with the numeral's sign. */
  ghost function Partial(s: string, radix: int, i: nat): int
    requires 0 < |s| && i <= |s|
  {
    if s[0] == '-' then -DigitsValue(s[i..], radix) else DigitsValue(s[i..], radix)
  }

  /**
   * `BigInteger(string value, int radix)`: the prepared string is read from
   * its last character back to its first digit, adding digit * multiplier
   * (the digit negated for a negative numeral) and multiplying the
   * multiplier by the radix while digits remain. An empty string fails at
   * `value[0]`; a character at or above the radix is "Invalid string"; an
   * operator overflow or the final sign test is an overflow.
   */
  method FromString(value: string, radix: int) returns (r: Result<BigInteger>)
    requires INT_MIN <= radix <= INT_MAX
    ensures r.Ok? <==> Parses(Prepare(value), radix)
    ensures r.Ok? ==> Canonical(r.value) && Value(r.value) == NumeralValue(Prepare(value), radix)
    ensures Prepare(value) == "" <==> r == Err(IndexOutOfRange)
    ensures r.Err? ==> r.error in {IndexOutOfRange, InvalidFormat, Overflow}
    ensures r.Err? && Prepare(value) != "" && AllDigits(Body(Prepare(value)), radix) ==> r.error == Overflow
  {
    var s := Prepare(value);
    if |s| == 0 {
      return Err(IndexOutOfRange);
    }
    var limit := 0;
    if s[0] == '-' {
      limit := 1;
    }
    assert Body(s) == s[limit..];
    var acc, multiplier := Accumulate(s, radix, limit);
    if acc.Err? {
      return Err(acc.error);
    }
    var result := acc.value;
    ReadingDone(s, radix, limit, result, multiplier);
    ValueIsSigned(result);
    FinalSign(s, radix, limit, Value(result));
    if s[0] == '-' && !IsNegative(result) {
      return Err(Overflow);  // "Negative underflow in constructor."
    }
    // the "Positive overflow" test cannot fire: `+` has already refused the value
    r := Ok(result);
  }

  /**
   * The digit loop of the constructor, from the last character back to
   * index limit, the first digit.
   */
  method Accumulate(s: string, radix: int, limit: int) returns (r: Result<BigInteger>, multiplier: BigInteger)
    requires INT_MIN <= radix <= INT_MAX
    requires |s| > 0 && limit == (if s[0] == '-' then 1 else 0)
    ensures r.Ok? ==> Reading(s, radix, limit, limit - 1, r.value, multiplier)
    ensures r.Err? ==> Refused(s, radix, limit, r.error)
  {
    multiplier := Construct.FromLong(1);
    var result := Zero();
    var i := |s| - 1;
    ReadingStart(s, radix, limit, result, multiplier);
    while i >= limit
      invariant Reading(s, radix, limit, i, result, multiplier)
      decreases i + 1
    {
      var step := Round(result, multiplier, s, radix, i, limit);
      if step.Err? {
        return Err(step.error), multiplier;
      }
      result, multiplier := step.value.0, step.value.1;
      i := i - 1;
    }
    ReadingExit(s, radix, limit, i, result, multiplier);
    r := Ok(result);
  }

  /**
   * The state of the constructor's loop before it reads index i: the
   * characters after i are digits, result holds their signed value, the
   * multiplier is the weight of index i, and the weight of index i + 1 fits.
   */
  ghost predicate Reading(s: string, radix: int, limit: int, i: int, result: BigInteger, multiplier: BigInteger)
  {
    && |s| > 0 && limit == (if s[0] == '-' then 1 else 0) && limit - 1 <= i <= |s| - 1
    && Canonical(result) && Canonical(multiplier)
    && AllDigits(s[i + 1..], radix)
    && Value(result) == Partial(s, radix, i + 1)
    && (i >= limit ==> Value(multiplier) == Power(radix, |s| - 1 - i))
    && (i < |s| - 1 ==> Power(radix, |s| - 2 - i) < Half())
  }

  /**
   * Why the loop gives up: a character that is not a digit of the radix, or
   * a value or multiplier out of range; either way the string does not parse.
   */
  ghost predicate Refused(s: string, radix: int, limit: int, e: Error)
    requires 0 <= limit <= |s|
  {
    && !Parses(s, radix)
    && e in {InvalidFormat, Overflow}
    && (AllDigits(s[limit..], radix) ==> e == Overflow)
  }

  /** The loop's state before any digit is read: result 0, multiplier 1. */
  lemma {:induction false} ReadingStart(s: string, radix: int, limit: int, result: BigInteger, multiplier: BigInteger)
    requires |s| > 0 && limit == (if s[0] == '-' then 1 else 0)
    requires Canonical(result) && Value(result) == 0 && Canonical(multiplier) && Value(multiplier) == 1
    ensures Reading(s, radix, limit, |s| - 1, result, multiplier)
  {
    assert s[|s|..] == [];
    assert DigitsValue(s[|s|..], radix) == 0;
    assert Power(radix, 0) == 1;
  }

  /** The loop stops exactly one index before the first digit. */
  lemma {:induction false} ReadingExit(s: string, radix: int, limit: int, i: int, result: BigInteger, multiplier: BigInteger)
    requires Reading(s, radix, limit, i, result, multiplier) && i < limit
    ensures Reading(s, radix, limit, limit - 1, result, multiplier)
  {
  }

  /** The loop's state once every digit has been read. */
  lemma {:induction false} ReadingDone(s: string, radix: int, limit: int, result: BigInteger, multiplier: BigInteger)
    requires Reading(s, radix, limit, limit - 1, result, multiplier)
    ensures Canonical(result) && Value(result) == Partial(s, radix, limit)
    ensures AllDigits(s[limit..], radix)
    ensures limit < |s| ==> Power(radix, |s| - 1 - limit) < Half()
  {
  }

  /**
   * One round of the constructor's loop at index i: reject a character that
   * is not a digit of the radix, add the digit's weight, and (unless i is the
   * last digit to read) scale the multiplier by the radix.
   */
  method Round(result: BigInteger, multiplier: BigInteger, s: string, radix: int, i: int, limit: int)
    returns (r: Result<(BigInteger, BigInteger)>)
    requires INT_MIN <= radix <= INT_MAX
    requires Reading(s, radix, limit, i, result, multiplier) && i >= limit
    ensures r.Ok? ==> Reading(s, radix, limit, i - 1, r.value.0, r.value.1)
    ensures r.Err? ==> Refused(s, radix, limit, r.error)
  {
    var posVal := CharValue(s[i]);
    if posVal >= radix {
      BadDigit(s, radix, i, limit);
      return Err(InvalidFormat);
    }
    if s[0] == '-' {
      posVal := -posVal;
    }
    var sum := AddDigit(result, multiplier, posVal, s, radix, i, limit);
    if sum.Err? {
      return Err(Overflow);
    }
    AllDigitsStep(s, radix, i);
    ghost var k := |s| - 1 - i;
    if i - 1 >= limit {
      var next := NextMultiplier(multiplier, radix, k, s, limit);
      if next.Err? {
        return Err(Overflow);
      }
      assert |s| - 1 - (i - 1) == k + 1 && |s| - 2 - (i - 1) == k;
      r := Ok((sum.value, next.value));
    } else {
      ValueIsSigned(multiplier);
      r := Ok((sum.value, multiplier));
    }
  }

  /**
   * `result = result + (multiplier * posVal)` for the digit at i: the
   * partial value gains the digit, and neither operator can overflow when
   * the whole string parses.
   */
  method AddDigit(result: BigInteger, multiplier: BigInteger, posVal: int, ghost s: string, ghost radix: int, ghost i: int, ghost limit: int)
    returns (r: Result<BigInteger>)
    requires limit == (if |s| > 0 && s[0] == '-' then 1 else 0) && limit <= i < |s|
    requires Canonical(result) && Value(result) == Partial(s, radix, i + 1)
    requires Canonical(multiplier) && Value(multiplier) == Power(radix, |s| - 1 - i)
    requires CharValue(s[i]) < radix
    requires posVal == (if s[0] == '-' then -(CharValue(s[i]) as int) else CharValue(s[i]) as int)
    ensures r.Ok? ==> Canonical(r.value) && Value(r.value) == Partial(s, radix, i)
    ensures Parses(s, radix) ==> r.Ok?
    ensures r.Err? ==> r.error == Overflow
  {
    DigitStep(s, radix, i, posVal);
    if Parses(s, radix) {
      StepFits(s, radix, i, limit, posVal);
    }
    var pv := Construct.FromLong(posVal);
    var prod := Multiply.Multiply(multiplier, pv);
    if prod.Err? {
      return Err(Overflow);
    }
    var sum := Additive.Add(result, prod.value);
    if sum.Err? {
      return Err(Overflow);
    }
    r := Ok(sum.value);
  }

  /**
   * `multiplier = multiplier * radix` while digits remain: the next power
   * of the radix, which fits when the whole string parses.
   */
  method NextMultiplier(multiplier: BigInteger, radix: int, ghost k: nat, ghost s: string, ghost limit: int)
    returns (r: Result<BigInteger>)
    requires INT_MIN <= radix <= INT_MAX
    requires limit == (if |s| > 0 && s[0] == '-' then 1 else 0) && limit < |s| - 1 - k < |s|
    requires Canonical(multiplier) && Value(multiplier) == Power(radix, k)
    ensures r.Ok? ==> Canonical(r.value) && Value(r.value) == Power(radix, k + 1) && Power(radix, k) < Half()
    ensures Parses(s, radix) ==> r.Ok?
    ensures r.Err? ==> r.error == Overflow
  {
    ValueIsSigned(multiplier);
    if Parses(s, radix) {
      NextFits(s, radix, k, limit);
    }
    var rb := Construct.FromLong(radix);
    PowerNext(radix, k);
    r := Multiply.Multiply(multiplier, rb);
  }

  lemma {:induction false} PowerNext(radix: int, k: nat)
    ensures Power(radix, k + 1) == Power(radix, k) * radix
  {
  }

  /** The constructor's loop invariant AllDigits grows by the digit just checked. */
  lemma {:induction false} AllDigitsStep(s: string, radix: int, i: nat)
    requires i < |s| && AllDigits(s[i + 1..], radix) && CharValue(s[i]) < radix
    ensures AllDigits(s[i..], radix)
  {
    assert forall k :: 0 < k < |s| - i ==> s[i..][k] == s[i + 1..][k - 1];
  }

  /** A character that is not a digit of the radix spoils the whole body. */
  lemma {:induction false} BadDigit(s: string, radix: int, i: int, limit: int)
    requires |s| > 0 && limit == (if s[0] == '-' then 1 else 0) && limit <= i < |s|
    requires CharValue(s[i]) >= radix
    ensures !AllDigits(s[limit..], radix) && !Parses(s, radix)
  {
    assert s[limit..][i - limit] == s[i];
    assert Body(s) == s[limit..];
  }

  /** The end of the constructor's loop: the whole body read, and the sign test against Parses. */
  lemma {:induction false} FinalSign(s: string, radix: int, limit: int, v: int)
    requires 0 < |s| && limit == (if s[0] == '-' then 1 else 0) && limit <= |s|
    requires AllDigits(s[limit..], radix) && v == Partial(s, radix, limit) && InRange(v)
    requires |s| - 1 > limit - 1 ==> Power(radix, |s| - 1 - limit) < Half()
    ensures Parses(s, radix) <==> (s[0] == '-' ==> v < 0)
    ensures NumeralValue(s, radix) == v
  {
    assert Body(s) == s[limit..];
    if s[0] == '-' && v >= 0 && |Body(s)| > 0 {
      assert CharValue(Body(s)[0]) < radix;
      DigitsNonNegative(Body(s), radix);
    }
  }

  /** One digit of the constructor's loop: the partial value gains the digit at its weight. */
  lemma {:induction false} DigitStep(s: string, radix: int, i: nat, posVal: int)
    requires i < |s| && posVal == (if s[0] == '-' then -(CharValue(s[i]) as int) else CharValue(s[i]) as int)
    ensures Partial(s, radix, i) == Partial(s, radix, i + 1) + Power(radix, |s| - 1 - i) * posVal
  {
    DigitSplit(s, radix, i);
    SignedStep(DigitsValue(s[i..], radix), DigitsValue(s[i + 1..], radix), CharValue(s[i]),
      Power(radix, |s| - 1 - i), posVal, s[0] == '-');
  }

  /** The arithmetic of DigitStep: a signed sum gains the signed digit at its weight. */
  lemma {:induction false} SignedStep(d: int, e: int, c: int, p: int, x: int, neg: bool)
    requires d == c * p + e && x == (if neg then -c else c)
    ensures (if neg then -d else d) == (if neg then -e else e) + p * x
  {
    if neg {
      assert p * x == -(c * p);
    } else {
      assert p * x == c * p;
    }
  }

  /** The digits from i on are the digit at i at its weight plus the digits after it. */
  lemma {:induction false} DigitSplit(s: string, radix: int, i: nat)
    requires i < |s|
    ensures DigitsValue(s[i..], radix) == CharValue(s[i]) * Power(radix, |s| - 1 - i) + DigitsValue(s[i + 1..], radix)
  {
    assert s[i..] == [s[i]] + s[i + 1..];
    DigitsConcat([s[i]], s[i + 1..], radix);
    assert [s[i]][..0] == "";
    assert DigitsValue([s[i]], radix) == CharValue(s[i]);
  }

  /**
   * When the whole string parses, every intermediate value of the
   * constructor's loop at digit i fits: the digit's product, the partial
   * sum and the next multiplier.
   */
  lemma {:induction false} StepFits(s: string, radix: int, i: int, limit: int, posVal: int)
    requires Parses(s, radix) && limit == (if s[0] == '-' then 1 else 0) && limit <= i < |s|
    requires posVal == (if s[0] == '-' then -(CharValue(s[i]) as int) else CharValue(s[i]) as int)
    ensures InRange(Power(radix, |s| - 1 - i) * posVal) && InRange(Partial(s, radix, i))
  {
    var b := Body(s);
    var j := i - limit;
    assert b == s[limit..] && b[j..] == s[i..] && b[j] == s[i];
    assert CharValue(b[0]) < radix;
    var k := |s| - 1 - i;
    var c := CharValue(s[i]);
    var P := Power(radix, k);
    var D := DigitsValue(s[i..], radix);
    var T := DigitsValue(b, radix);
    SuffixBound(b, radix, j);
    DigitSplit(s, radix, i);
    DigitsNonNegative(s[i + 1..], radix);
    PowerMonotone(radix, k, |b| - 1);
    MulLe(0, c, P);
    assert 0 <= c * P <= D <= T;
    SignedFits(c * P, D, T, s[0] == '-');
    SignedProduct(P, c, posVal, s[0] == '-');
  }

  /** When the whole string parses, every multiplier the constructor computes fits. */
  lemma {:induction false} NextFits(s: string, radix: int, k: nat, limit: int)
    requires Parses(s, radix) && limit == (if s[0] == '-' then 1 else 0) && limit < |s| - 1 - k
    ensures InRange(Power(radix, k + 1))
  {
    var b := Body(s);
    assert b == s[limit..] && CharValue(b[0]) < radix;
    PowerMonotone(radix, k + 1, |b| - 1);
    HalfOfModulus();
  }

  /** The weighted digit with the numeral's sign. */
  lemma {:induction false} SignedProduct(p: int, c: int, x: int, neg: bool)
    requires x == (if neg then -c else c)
    ensures p * x == (if neg then -(c * p) else c * p)
  {
  }

  /** Magnitudes below the final one fit with the numeral's sign. */
  lemma {:induction false} SignedFits(x: int, d: int, t: int, neg: bool)
    requires 0 <= x <= d <= t && (if neg then t <= Half() else t < Half())
    ensures InRange(if neg then -x else x) && InRange(if neg then -d else d)
  {
    HalfOfModulus();
  }

  /** DigitsValue(p + t) is p's value shifted by |t| digits plus t's. */
  lemma {:induction false} DigitsConcat(p: string, t: string, radix: int)
    ensures DigitsValue(p + t, radix) == DigitsValue(p, radix) * Power(radix, |t|) + DigitsValue(t, radix)
  {
    if |t| == 0 {
      assert p + t == p;
    } else {
      var n := |t| - 1;
      assert (p + t)[..|p + t| - 1] == p + t[..n];
      assert (p + t)[|p + t| - 1] == t[n];
      DigitsConcat(p, t[..n], radix);
      ConcatArith(DigitsValue(p, radix), Power(radix, n), DigitsValue(t[..n], radix), radix, CharValue(t[n]));
    }
  }

  /** The arithmetic of DigitsConcat: one more digit shifts both parts. */
  lemma {:induction false} ConcatArith(x: int, w: int, y: int, radix: int, c: int)
    ensures (x * w + y) * radix + c == x * (radix * w) + (y * radix + c)
  {
  }

  lemma {:induction false} DigitsNonNegative(ds: string, radix: int)
    requires radix >= 0
    ensures DigitsValue(ds, radix) >= 0
  {
    if |ds| > 0 {
      DigitsNonNegative(ds[..|ds| - 1], radix);
    }
  }

  lemma {:induction false} PowerMonotone(radix: int, i: nat, j: nat)
    requires radix >= 1 && i <= j
    ensures 1 <= Power(radix, i) <= Power(radix, j)
  {
    if j > 0 {
      PowerMonotone(radix, if i == j then i - 1 else i, j - 1);
      MulLe(1, radix, Power(radix, j - 1));
    }
  }

  /** A suffix of a digit string is worth no more than the whole string. */
  lemma {:induction false} SuffixBound(ds: string, radix: int, j: nat)
    requires radix >= 1 && j <= |ds|
    ensures 0 <= DigitsValue(ds[j..], radix) <= DigitsValue(ds, radix)
  {
    assert ds == ds[..j] + ds[j..];
    DigitsConcat(ds[..j], ds[j..], radix);
    DigitsNonNegative(ds[..j], radix);
    DigitsNonNegative(ds[j..], radix);
    PowerMonotone(radix, 0, |ds| - j);
  }

  // ---------------------------------------------------------------------
  // ToString
  // ---------------------------------------------------------------------

  /**
   * `ToString(int radix)`: a negative value is negated first (for the most
   * negative value the negation throws, the exception is swallowed and the
   * buffer, read unsigned, is already the magnitude 2^2239); then digits
   * come from repeated `singleByteDivide` by the radix, least significant
   * first, and a '-' goes in front of a negative value's digits. An
   * untrimmed object (only a non-negative one can be) prints its value's
   * numeral too: the first division trims it.
   */
  method ToString(a: BigInteger, radix: int) returns (r: Result<string>)
    requires WellFormed(a)
    ensures r.Err? <==> radix < 2 || radix > 36
    ensures r.Err? ==> r.error == InvalidRadix
    ensures r.Ok? ==> r.value == Numeral(Value(a), radix)
  {
    if radix < 2 || radix > 36 {
      return Err(InvalidRadix);
    }
    var x := a;
    var negative := false;
    ValueIsSigned(a);
    if IsNegative(a) {
      negative := true;
      var n := Additive.Negate(a);
      if n.Ok? {
        x := n.value;
        ValueIsSigned(x);
      } else {
        HalfOfModulus();
      }
    }
    assert Val(x.data) == Abs(Value(a));
    var biRadix := Construct.FromLong(radix);
    ValueIsSigned(biRadix);
    SingleWord(biRadix);
    var result := "";
    WellFormedValue(x);
    if x.dataLength == 1 && x.data[0] == 0 {
      assert x.data[..1] == [0];
      result := "0";
    } else {
      result := Digits(x, biRadix, radix);
      if negative {
        result := "-" + result;
      }
    }
    r := Ok(result);
  }

  /**
   * The digit loop of `ToString(int radix)`: while the magnitude is not zero,
   * `singleByteDivide` by the radix and prepend the remainder's digit. The
   * loop's test passes for a, so its first pass is taken before the loop;
   * for an untrimmed zero that pass writes the single digit 0.
   */
  method Digits(a: BigInteger, biRadix: BigInteger, radix: int) returns (result: string)
    requires 2 <= radix <= 36 && WellFormed(a) && (a.dataLength > 1 || a.data[0] != 0)
    requires Canonical(biRadix) && biRadix.dataLength == 1 && biRadix.data[0] == radix
    ensures result == Numeral(Val(a.data), radix)
  {
    var x, digit := NextDigit(a, biRadix, radix);
    result := [digit];
    while x.dataLength > 1 || (x.dataLength == 1 && x.data[0] != 0)
      invariant Canonical(x)
      invariant Numeral(Val(a.data), radix) == Spelled(Val(x.data), radix) + result
      decreases Val(x.data)
    {
      NonZeroTest(x);
      x, digit := NextDigit(x, biRadix, radix);
      result := [digit] + result;
    }
    NonZeroTest(x);
  }

  /**
   * One pass of the loop: `singleByteDivide(a, biRadix, quotient,
   * remainder)` and the remainder's digit. Zero gives the digit 0.
   */
  method NextDigit(x: BigInteger, biRadix: BigInteger, radix: int) returns (q: BigInteger, digit: char)
    requires 2 <= radix <= 36 && WellFormed(x)
    requires Canonical(biRadix) && biRadix.dataLength == 1 && biRadix.data[0] == radix
    ensures Canonical(q)
    ensures Val(x.data) > 0 ==>
      Val(q.data) < Val(x.data) && Spelled(Val(x.data), radix) == Spelled(Val(q.data), radix) + [digit]
    ensures Val(x.data) == 0 ==> Val(q.data) == 0 && digit == '0'
  {
    var qr := ShortDivision.SingleByteDivide(x, biRadix);
    q := qr.value.quotient;
    var m := qr.value.remainder;
    SingleWord(m);
    digit := DigitChar(m.data[0]);
    if Val(x.data) > 0 {
      SpelledStep(Val(x.data), Val(q.data), m.data[0], radix);
    }
  }

  /** One step of ToString's loop: the last digit of x is x % radix, and x / radix is smaller. */
  lemma {:induction false} SpelledStep(x: int, q: int, d: int, radix: int)
    requires 2 <= radix <= 36 && x > 0 && q >= 0 && 0 <= d < radix && x == q * radix + d
    ensures q < x && Spelled(x, radix) == Spelled(q, radix) + [DigitChar(d)]
  {
    DivModUnique(x, radix, q, d);
    DivMod(x, radix);
  }

  // ---------------------------------------------------------------------
  // Round trip
  // ---------------------------------------------------------------------

  /** The digits ToString writes are digit characters below the radix, and spell their number. */
  lemma {:induction false} SpelledValue(n: nat, radix: int)
    requires 2 <= radix <= 36
    ensures forall k :: 0 <= k < |Spelled(n, radix)| ==> IsDigitChar(Spelled(n, radix)[k])
    ensures AllDigits(Spelled(n, radix), radix) && DigitsValue(Spelled(n, radix), radix) == n
    decreases n
  {
    if n > 0 {
      var q, d := n / radix, n % radix;
      DivMod(n, radix);
      SpelledValue(q, radix);
      var t := Spelled(q, radix);
      var c := DigitChar(d);
      assert Spelled(n, radix) == t + [c];
      assert (t + [c])[..|t|] == t;
      assert DigitsValue(t + [c], radix) == DigitsValue(t, radix) * radix + d;
    }
  }

  /** ToString writes no leading zero: n has |Spelled(n)| digits in the radix. */
  lemma {:induction false} SpelledLength(n: nat, radix: int)
    requires 2 <= radix <= 36 && n > 0
    ensures |Spelled(n, radix)| > 0
    ensures Power(radix, |Spelled(n, radix)| - 1) <= n < Power(radix, |Spelled(n, radix)|)
    decreases n
  {
    var q, d := n / radix, n % radix;
    DivMod(n, radix);
    var t := Spelled(q, radix);
    assert Spelled(n, radix) == t + [DigitChar(d)];
    if q == 0 {
      assert Power(radix, 1) == radix;
    } else {
      SpelledLength(q, radix);
      var L := |t|;
      LengthArith(n, q, d, radix, Power(radix, L - 1), Power(radix, L));
    }
  }

  /** Euclidean division by the radix, and the quotient of a positive n is smaller. */
  lemma {:induction false} DivMod(n: nat, radix: int)
    requires radix >= 2
    ensures n == (n / radix) * radix + n % radix && 0 <= n % radix < radix
    ensures 0 <= n / radix && (n > 0 ==> n / radix < n)
  {
    var q := n / radix;
    if n > 0 && q >= n {
      MulLe(2, radix, q);
    }
  }

  /** The arithmetic of SpelledLength: one more digit multiplies both bounds by the radix. */
  lemma {:induction false} LengthArith(n: int, q: int, d: int, r: int, p1: int, p2: int)
    requires n == q * r + d && 0 <= d < r && 0 <= p1 <= q < p2
    ensures r * p1 <= n < r * p2
  {
    MulLe(p1, q, r);
    MulLe(q + 1, p2, r);
  }

  /**
   * Printing then parsing gives the value back: ToString's numeral is
   * unchanged by the constructor's upper-casing and trimming, is accepted,
   * and denotes the value. The most negative value is excluded (see
   * MinBinaryRejected).
   */
  lemma {:induction false} RoundTrip(v: int, radix: int)
    requires 2 <= radix <= 36 && -(Half() as int) < v < Half()
    ensures Prepare(Numeral(v, radix)) == Numeral(v, radix)
    ensures Parses(Numeral(v, radix), radix) && NumeralValue(Numeral(v, radix), radix) == v
  {
    if v == 0 {
      ZeroRoundTrip(radix);
    } else {
      SignedRoundTrip(v, radix);
    }
  }

  /** "0" is its own prepared form and parses to zero in every radix. */
  lemma {:induction false} ZeroRoundTrip(radix: int)
    requires 2 <= radix <= 36
    ensures Prepare("0") == "0" && Parses("0", radix) && NumeralValue("0", radix) == 0
  {
    var t := "0";
    assert Body(t) == t && t[..0] == "" && CharValue(t[0]) == 0;
    assert DigitsValue(t, radix) == 0;
    assert Power(radix, 0) == 1;
    HalfOfModulus();
    ParsesWith(t, radix, 0);
    PrepareNumeral(t);
  }

  /** A non-zero value strictly inside the range: the sign, then its digits. */
  lemma {:induction false} SignedRoundTrip(v: int, radix: int)
    requires 2 <= radix <= 36 && v != 0 && -(Half() as int) < v < Half()
    ensures Prepare(Numeral(v, radix)) == Numeral(v, radix)
    ensures Parses(Numeral(v, radix), radix) && NumeralValue(Numeral(v, radix), radix) == v
  {
    var t := Numeral(v, radix);
    var n := Abs(v);
    NumeralShape(v, radix);
    SpelledValue(n, radix);
    SpelledLength(n, radix);
    assert Power(radix, |Body(t)| - 1) <= n;
    ParsesWith(t, radix, n);
    PrepareNumeral(t);
  }

  /** A non-zero numeral is a sign, present exactly for negative values, before the magnitude's digits. */
  lemma {:induction false} NumeralBody(v: int, radix: int)
    requires 2 <= radix <= 36 && v != 0
    ensures |Numeral(v, radix)| > 0 && Body(Numeral(v, radix)) == Spelled(Abs(v), radix)
    ensures Numeral(v, radix)[0] == '-' <==> v < 0
  {
    var t := Numeral(v, radix);
    var sp := Spelled(Abs(v), radix);
    SpelledValue(Abs(v), radix);
    SpelledLength(Abs(v), radix);
    assert IsDigitChar(sp[0]);
    if v < 0 {
      assert t == "-" + sp && Body(t) == sp;
    } else {
      assert t == sp && Body(t) == sp;
    }
  }

  /** The characters of a non-zero numeral: an optional '-', then the digits of the magnitude. */
  lemma {:induction false} NumeralShape(v: int, radix: int)
    requires 2 <= radix <= 36 && v != 0
    ensures |Numeral(v, radix)| > 0 && Body(Numeral(v, radix)) == Spelled(Abs(v), radix)
    ensures Numeral(v, radix)[0] == '-' <==> v < 0
    ensures IsDigitChar(Numeral(v, radix)[|Numeral(v, radix)| - 1])
    ensures forall k :: 0 <= k < |Numeral(v, radix)| ==> IsDigitChar(Numeral(v, radix)[k]) || Numeral(v, radix)[k] == '-'
  {
    var t := Numeral(v, radix);
    var sp := Spelled(Abs(v), radix);
    SpelledValue(Abs(v), radix);
    SpelledLength(Abs(v), radix);
    assert IsDigitChar(sp[0]) && IsDigitChar(sp[|sp| - 1]);
    if v < 0 {
      assert t == "-" + sp && Body(t) == sp;
      assert forall k :: 1 <= k < |t| ==> t[k] == sp[k - 1];
    } else {
      assert t == sp && Body(t) == sp;
    }
  }

  /** A numeral whose digits spell n parses to ±n when n and the leading weight fit. */
  lemma {:induction false} ParsesWith(t: string, radix: int, n: int)
    requires |t| > 0 && |Body(t)| > 0 && AllDigits(Body(t), radix)
    requires DigitsValue(Body(t), radix) == n && Power(radix, |Body(t)| - 1) < Half()
    requires 0 <= n < Half() && (t[0] == '-' ==> n > 0)
    ensures Parses(t, radix) && NumeralValue(t, radix) == (if t[0] == '-' then -n else n)
  {
  }

  /** Upper-casing and trimming leave a numeral as ToString writes it unchanged. */
  lemma {:induction false} PrepareNumeral(t: string)
    requires |t| > 0 && IsDigitChar(t[|t| - 1])
    requires forall k :: 0 <= k < |t| ==> IsDigitChar(t[k]) || t[k] == '-'
    ensures Prepare(t) == t
  {
    assert forall k :: 0 <= k < |t| ==> Upper(t)[k] == t[k];
    assert Upper(t) == t;
    assert !IsWhiteSpace(t[0]);
    assert TrimStart(t) == t;
  }

  /**
   * The binary numeral of the most negative value is refused by the
   * constructor: its 2240 digits need the multiplier 2^2239, which is out of
   * range as a positive value.
   */
  lemma {:induction false} MinBinaryRejected()
    ensures !Parses(Numeral(-(Half() as int), 2), 2)
  {
    var h := Half();
    MinBinaryWeight();
    MinBinaryShape(h);
    TooWide(Numeral(-(h as int), 2), 2);
  }

  /** The numeral of -h is '-' followed by the binary digits of h. */
  lemma {:induction false} MinBinaryShape(h: nat)
    requires h > 0
    ensures |Numeral(-(h as int), 2)| > 0 && Body(Numeral(-(h as int), 2)) == Spelled(h, 2)
  {
    NumeralBody(-(h as int), 2);
    assert Abs(-(h as int)) == h;
  }

  /** A numeral whose leading digit weighs at least 2^2239 does not parse. */
  lemma {:induction false} TooWide(s: string, radix: int)
    requires |s| > 0 && |Body(s)| > 0 && Power(radix, |Body(s)| - 1) >= Half()
    ensures !Parses(s, radix)
  {
  }

  /** The leading digit of 2^2239 in binary weighs 2^2239. */
  lemma {:induction false} MinBinaryWeight()
    ensures Half() > 0 && |Spelled(Half(), 2)| > 0 && Power(2, |Spelled(Half(), 2)| - 1) == Half()
  {
    var h := Half();
    HalfOfModulus();
    HalfIsPow2();
    SpelledLength(h, 2);
    var L := |Spelled(h, 2)|;
    PowerIsPow2(L - 1);
    PowerIsPow2(L);
    Pow2Exact(L - 1, 32 * W - 1);
  }

  /** The exponent of a power of two is determined by the power. */
  lemma {:induction false} Pow2Exact(a: nat, e: nat)
    requires Pow2(a) <= Pow2(e) < Pow2(a + 1)
    ensures a == e
  {
    if a > e {
      Pow2Monotone(e + 1, a);
    } else if a < e {
      Pow2Monotone(a + 1, e);
    }
  }

  lemma {:induction false} PowerIsPow2(k: nat)
    ensures Power(2, k) == Pow2(k)
  {
    if k > 0 {
      PowerIsPow2(k - 1);
    }
  }
}
