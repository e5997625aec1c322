/**
 * The deterministic parts of BigInteger.cs's primality tests: the screen for
 * small and even numbers, trial division by the primes below 2000, the split
 * n - 1 = 2^s * t, and the strong-pseudoprime rounds of Miller and Rabin
 * (Algorithm 4.24 of the Handbook of Applied Cryptography) with the bases
 * given as parameters instead of drawn at random.
 */
module Primality {
  import opened Words
  import opened BigInt
  import Numbers
  import Bits
  import Additive
  import Multiply
  import Divide
  import Shift
  import Construct
  import Euclid
  import ModPow
  import Fermat

  // ---------------------------------------------------------------------
  // The table primesBelow2000
  // ---------------------------------------------------------------------

  /** `primesBelow2000`, in rows of sixteen so that its order can be checked row by row. */
  const PRIMES_0: seq<int> := [2, 3, 5, 7, 11, 13, 17, 19, 23, 29, 31, 37, 41, 43, 47, 53]
  const PRIMES_1: seq<int> := [59, 61, 67, 71, 73, 79, 83, 89, 97, 101, 103, 107, 109, 113, 127, 131]
  const PRIMES_2: seq<int> := [137, 139, 149, 151, 157, 163, 167, 173, 179, 181, 191, 193, 197, 199, 211, 223]
  const PRIMES_3: seq<int> := [227, 229, 233, 239, 241, 251, 257, 263, 269, 271, 277, 281, 283, 293, 307, 311]
  const PRIMES_4: seq<int> := [313, 317, 331, 337, 347, 349, 353, 359, 367, 373, 379, 383, 389, 397, 401, 409]
  const PRIMES_5: seq<int> := [419, 421, 431, 433, 439, 443, 449, 457, 461, 463, 467, 479, 487, 491, 499, 503]
  const PRIMES_6: seq<int> := [509, 521, 523, 541, 547, 557, 563, 569, 571, 577, 587, 593, 599, 601, 607, 613]
  const PRIMES_7: seq<int> := [617, 619, 631, 641, 643, 647, 653, 659, 661, 673, 677, 683, 691, 701, 709, 719]
  const PRIMES_8: seq<int> := [727, 733, 739, 743, 751, 757, 761, 769, 773, 787, 797, 809, 811, 821, 823, 827]
  const PRIMES_9: seq<int> := [829, 839, 853, 857, 859, 863, 877, 881, 883, 887, 907, 911, 919, 929, 937, 941]
  const PRIMES_10: seq<int> := [947, 953, 967, 971, 977, 983, 991, 997, 1009, 1013, 1019, 1021, 1031, 1033, 1039, 1049]
  const PRIMES_11: seq<int> := [1051, 1061, 1063, 1069, 1087, 1091, 1093, 1097, 1103, 1109, 1117, 1123, 1129, 1151, 1153, 1163]
  const PRIMES_12: seq<int> := [1171, 1181, 1187, 1193, 1201, 1213, 1217, 1223, 1229, 1231, 1237, 1249, 1259, 1277, 1279, 1283]
  const PRIMES_13: seq<int> := [1289, 1291, 1297, 1301, 1303, 1307, 1319, 1321, 1327, 1361, 1367, 1373, 1381, 1399, 1409, 1423]
  const PRIMES_14: seq<int> := [1427, 1429, 1433, 1439, 1447, 1451, 1453, 1459, 1471, 1481, 1483, 1487, 1489, 1493, 1499, 1511]
  const PRIMES_15: seq<int> := [1523, 1531, 1543, 1549, 1553, 1559, 1567, 1571, 1579, 1583, 1597, 1601, 1607, 1609, 1613, 1619]
  const PRIMES_16: seq<int> := [1621, 1627, 1637, 1657, 1663, 1667, 1669, 1693, 1697, 1699, 1709, 1721, 1723, 1733, 1741, 1747]
  const PRIMES_17: seq<int> := [1753, 1759, 1777, 1783, 1787, 1789, 1801, 1811, 1823, 1831, 1847, 1861, 1867, 1871, 1873, 1877]
  const PRIMES_18: seq<int> := [1879, 1889, 1901, 1907, 1913, 1931, 1933, 1949, 1951, 1973, 1979, 1987, 1993, 1997, 1999]

  const PRIMES_BELOW_2000: seq<int> :=
    PRIMES_0 + PRIMES_1 + PRIMES_2 + PRIMES_3 + PRIMES_4 + PRIMES_5 + PRIMES_6 + PRIMES_7 + PRIMES_8 + PRIMES_9 + PRIMES_10 + PRIMES_11 + PRIMES_12 + PRIMES_13 + PRIMES_14 + PRIMES_15 + PRIMES_16 + PRIMES_17 + PRIMES_18

  /** Every entry of s is below every later entry. */
  ghost predicate Ascending(s: seq<int>)
  {
    forall i, j :: 0 <= i < j < |s| ==> s[i] < s[j]
  }

  /** An ascending table of numbers from 2 to 1999. */
  ghost predicate TableShape(table: seq<int>)
  {
    Ascending(table) && forall i :: 0 <= i < |table| ==> 2 <= table[i] <= 1999
  }

  /** Every entry of s is below the next one. */
  ghost predicate Adjacent(s: seq<int>)
  {
    forall i :: 0 < i < |s| ==> s[i - 1] < s[i]
  }

  lemma {:induction false} Chunk0() ensures Adjacent(PRIMES_0) {}
  lemma {:induction false} Chunk1() ensures Adjacent(PRIMES_1) {}
  lemma {:induction false} Chunk2() ensures Adjacent(PRIMES_2) {}
  lemma {:induction false} Chunk3() ensures Adjacent(PRIMES_3) {}
  lemma {:induction false} Chunk4() ensures Adjacent(PRIMES_4) {}
  lemma {:induction false} Chunk5() ensures Adjacent(PRIMES_5) {}
  lemma {:induction false} Chunk6() ensures Adjacent(PRIMES_6) {}
  lemma {:induction false} Chunk7() ensures Adjacent(PRIMES_7) {}
  lemma {:induction false} Chunk8() ensures Adjacent(PRIMES_8) {}
  lemma {:induction false} Chunk9() ensures Adjacent(PRIMES_9) {}
  lemma {:induction false} Chunk10() ensures Adjacent(PRIMES_10) {}
  lemma {:induction false} Chunk11() ensures Adjacent(PRIMES_11) {}
  lemma {:induction false} Chunk12() ensures Adjacent(PRIMES_12) {}
  lemma {:induction false} Chunk13() ensures Adjacent(PRIMES_13) {}
  lemma {:induction false} Chunk14() ensures Adjacent(PRIMES_14) {}
  lemma {:induction false} Chunk15() ensures Adjacent(PRIMES_15) {}
  lemma {:induction false} Chunk16() ensures Adjacent(PRIMES_16) {}
  lemma {:induction false} Chunk17() ensures Adjacent(PRIMES_17) {}
  lemma {:induction false} Chunk18() ensures Adjacent(PRIMES_18) {}

  lemma {:induction false} AdjacentAscending(s: seq<int>)
    requires Adjacent(s)
    ensures Ascending(s)
    decreases |s|
  {
    if |s| > 1 {
      var u := s[..|s| - 1];
      assert Adjacent(u);
      AdjacentAscending(u);
      forall i, j | 0 <= i < j < |s|
        ensures s[i] < s[j]
      {
        if j < |s| - 1 {
          assert s[i] == u[i] && s[j] == u[j];
        } else if i < j - 1 {
          assert s[i] == u[i] && s[j - 1] == u[j - 1];
        }
      }
    }
  }

  lemma {:induction false} AscendingAppend(a: seq<int>, b: seq<int>)
    requires Ascending(a) && Adjacent(b) && |a| > 0 && |b| > 0 && a[|a| - 1] < b[0]
    ensures Ascending(a + b)
  {
    AdjacentAscending(b);
    forall i, j | 0 <= i < j < |a + b|
      ensures (a + b)[i] < (a + b)[j]
    {
      if j >= |a| && i < |a| {
        assert a[i] <= a[|a| - 1];
        assert b[0] <= b[j - |a|];
      }
    }
  }

  /** The table holds 303 entries, ascending from 2 to 1999. */
  lemma {:induction false} TableFacts()
    ensures |PRIMES_BELOW_2000| == 303 && TableShape(PRIMES_BELOW_2000)
  {
    var p := PRIMES_0;
    Chunk0();
    AdjacentAscending(p);
    Chunk1();
    AscendingAppend(p, PRIMES_1);
    p := p + PRIMES_1;
    Chunk2();
    AscendingAppend(p, PRIMES_2);
    p := p + PRIMES_2;
    Chunk3();
    AscendingAppend(p, PRIMES_3);
    p := p + PRIMES_3;
    Chunk4();
    AscendingAppend(p, PRIMES_4);
    p := p + PRIMES_4;
    Chunk5();
    AscendingAppend(p, PRIMES_5);
    p := p + PRIMES_5;
    Chunk6();
    AscendingAppend(p, PRIMES_6);
    p := p + PRIMES_6;
    Chunk7();
    AscendingAppend(p, PRIMES_7);
    p := p + PRIMES_7;
    Chunk8();
    AscendingAppend(p, PRIMES_8);
    p := p + PRIMES_8;
    Chunk9();
    AscendingAppend(p, PRIMES_9);
    p := p + PRIMES_9;
    Chunk10();
    AscendingAppend(p, PRIMES_10);
    p := p + PRIMES_10;
    Chunk11();
    AscendingAppend(p, PRIMES_11);
    p := p + PRIMES_11;
    Chunk12();
    AscendingAppend(p, PRIMES_12);
    p := p + PRIMES_12;
    Chunk13();
    AscendingAppend(p, PRIMES_13);
    p := p + PRIMES_13;
    Chunk14();
    AscendingAppend(p, PRIMES_14);
    p := p + PRIMES_14;
    Chunk15();
    AscendingAppend(p, PRIMES_15);
    p := p + PRIMES_15;
    Chunk16();
    AscendingAppend(p, PRIMES_16);
    p := p + PRIMES_16;
    Chunk17();
    AscendingAppend(p, PRIMES_17);
    p := p + PRIMES_17;
    Chunk18();
    AscendingAppend(p, PRIMES_18);
    p := p + PRIMES_18;

    assert p == PRIMES_BELOW_2000;
    assert p[0] == 2 && p[|p| - 1] == 1999;
  }

  // ---------------------------------------------------------------------
  // What the tests decide
  // ---------------------------------------------------------------------

  /** Some entry of the table below n divides n. */
  ghost predicate Factor(n: nat, table: seq<int>)
  {
    exists i :: 0 <= i < |table| && 0 < table[i] < n && n % table[i] == 0
  }

  /** Some prime of primesBelow2000 below n divides n: what trial division finds. */
  ghost predicate TrialFactor(n: nat)
  {
    Factor(n, PRIMES_BELOW_2000)
  }

  /** The exponent of 2 in m: the s of m = 2^s * t with t odd. */
  ghost function TwoPower(m: nat): nat
    requires m > 0
  {
    if m % 2 == 1 then 0 else 1 + TwoPower(m / 2)
  }

  /** The odd part of m: the t of m = 2^s * t. */
  ghost function OddPart(m: nat): nat
    requires m > 0
  {
    if m % 2 == 1 then m else OddPart(m / 2)
  }

  /**
   * n is a strong probable prime to base a: with n - 1 = 2^s * t and t odd,
   * a^t is 1 or some a^(2^j * t) with j < s is n - 1, modulo n.
   */
  ghost predicate StrongProbablePrime(n: nat, a: int)
    requires n > 1
  {
    var s, t := TwoPower(n - 1), OddPart(n - 1);
    Numbers.Power(a, t) % n == 1 || exists j :: 0 <= j < s && Numbers.Power(a, Pow2(j) * t) % n == n - 1
  }

  /**
   * The verdict of `isProbablePrime()` on n = |this|: 0 and 1 are not prime,
   * 2 and 3 are, other even numbers are not; then no table prime below n may
   * divide n and n must be a strong probable prime to base 2.
   */
  ghost predicate BaseTwoProbablePrime(n: nat)
  {
    if n < 4 || n % 2 == 0 then n == 2 || n == 3
    else !TrialFactor(n) && StrongProbablePrime(n, 2)
  }

  /** One round of `RabinMillerTest`: no common factor below 2^32 other than 1, and the strong test. */
  ghost predicate RoundPasses(n: nat, a: int)
    requires n > 1
  {
    var g := Numbers.Gcd(Abs(a), n);
    !(g < BASE && g != 1) && StrongProbablePrime(n, a)
  }

  /** The verdict of `RabinMillerTest` on n = |this| with the given bases. */
  ghost predicate RabinMiller(n: nat, bases: seq<int>)
  {
    if n < 4 || n % 2 == 0 then n == 2 || n == 3
    else forall i :: 0 <= i < |bases| ==> RoundPasses(n, bases[i])
  }

  /** The values of a list of bases. */
  ghost function Values(bases: seq<BigInteger>): (vs: seq<int>)
    requires forall i :: 0 <= i < |bases| ==> Canonical(bases[i])
    ensures |vs| == |bases|
    ensures forall i :: 0 <= i < |bases| ==> Canonical(bases[i]) && vs[i] == Value(bases[i])
  {
    seq(|bases|, i requires 0 <= i < |bases| => assert Canonical(bases[i]); Value(bases[i]))
  }

  // ---------------------------------------------------------------------
  // Facts about the specification
  // ---------------------------------------------------------------------

  /** The first set bit of m is bit s exactly when m = 2^s * t with t odd. */
  lemma {:induction false} TwoPowerUnique(m: nat, s: nat)
    requires m % Pow2(s) == 0 && Bits.Bit(m, s)
    ensures m > 0 && s == TwoPower(m)
  {
    if s > 0 {
      var q := m / Pow2(s);
      assert m == 2 * (Pow2(s - 1) * q);
      DivModUnique(m, 2, Pow2(s - 1) * q, 0);
      DivModUnique(m / 2, Pow2(s - 1), q, 0);
      TwoPowerUnique(m / 2, s - 1);
    }
  }

  lemma {:induction false} OddSplit(m: nat)
    requires m > 0
    ensures m == Pow2(TwoPower(m)) * OddPart(m) && OddPart(m) % 2 == 1
  {
    if m % 2 == 0 {
      var s, t := TwoPower(m / 2), OddPart(m / 2);
      OddSplit(m / 2);
      assert TwoPower(m) == s + 1 && OddPart(m) == t;
      assert m == 2 * (Pow2(s) * t);
      MulAssoc(2, Pow2(s), t);
    }
  }

  /** Shifting out the trailing zero bits of m leaves its odd part. */
  lemma {:induction false} OddQuotient(m: nat, s: nat)
    requires m > 0 && s == TwoPower(m)
    ensures m / Pow2(s) == OddPart(m)
  {
    OddSplit(m);
    DivExact(m, Pow2(s), OddPart(m));
  }

  /** A multiple of d divided by d. */
  lemma {:induction false} DivExact(m: int, d: int, q: int)
    requires d > 0 && m == d * q
    ensures m / d == q
  {
    DivModUnique(m, d, q, 0);
  }

  /** A table prime below n that divides n shows that n is composite. */
  lemma {:induction false} TrialFactorComposite(n: nat)
    ensures TrialFactor(n) ==> !Fermat.IsPrime(n)
  {
    if TrialFactor(n) {
      TableFacts();
      var i :| 0 <= i < |PRIMES_BELOW_2000| && 0 < PRIMES_BELOW_2000[i] < n && n % PRIMES_BELOW_2000[i] == 0;
      var d: nat := PRIMES_BELOW_2000[i];
      assert 2 <= d < n && Numbers.Divides(d, n);
    }
  }

  /**
   * Modulo a prime n, once a^(2^j * t) is 1 for some j <= s, walking back
   * by square roots finds a^t == 1 or a^(2^i * t) == n - 1 for some i < j.
   */
  lemma {:induction false} SquareRootChain(n: nat, a: int, j: nat)
    requires Fermat.IsPrime(n) && j <= TwoPower(n - 1)
    requires Numbers.Power(a, Pow2(j) * OddPart(n - 1)) % n == 1
    ensures StrongProbablePrime(n, a)
    decreases j
  {
    if j > 0 {
      var t := OddPart(n - 1);
      var y := Numbers.Power(a, Pow2(j - 1) * t);
      assert Numbers.Power(a, Pow2(j) * t) == y * y by {
        assert Pow2(j) * t == Pow2(j - 1) * t + Pow2(j - 1) * t;
        Numbers.PowerAdd(a, Pow2(j - 1) * t, Pow2(j - 1) * t);
      }
      Fermat.SquareRootOfOne(n, y);
      if y % n == 1 {
        SquareRootChain(n, a, j - 1);
      } else {
        Witness(n, a, j - 1);
      }
    }
  }

  /** A prime is a strong probable prime to every base it does not divide. */
  lemma {:induction false} PrimeIsStrongProbablePrime(n: nat, a: int)
    requires Fermat.IsPrime(n) && a % n != 0
    ensures StrongProbablePrime(n, a)
  {
    OddSplit(n - 1);
    Fermat.LittleTheorem(n, a);
    SquareRootChain(n, a, TwoPower(n - 1));
  }

  /** Every prime is accepted by `isProbablePrime()`. */
  lemma {:induction false} PrimeIsBaseTwoProbablePrime(n: nat)
    requires Fermat.IsPrime(n)
    ensures BaseTwoProbablePrime(n)
  {
    if n >= 4 {
      Fermat.PrimeNoDivisor(n, 2);
      TrialFactorComposite(n);
      PrimeIsStrongProbablePrime(n, 2);
    }
  }

  /** A prime shares no factor other than 1 with a base it does not divide. */
  lemma {:induction false} PrimeRound(n: nat, a: int)
    requires Fermat.IsPrime(n) && a % n != 0
    ensures RoundPasses(n, a)
  {
    var g := Numbers.Gcd(Abs(a), n);
    Numbers.GcdDivides(Abs(a), n);
    Fermat.PrimeDivisor(n, g);
    assert g != n by {
      Numbers.MulDivides(n, 0);
      if Numbers.Divides(n, Abs(a)) {
        Numbers.DividesCombination(n, 0, Abs(a), if a < 0 then 1 else -1);
      }
    }
    PrimeIsStrongProbablePrime(n, a);
  }

  /** Every prime is accepted by `RabinMillerTest` with bases it does not divide. */
  lemma {:induction false} PrimePassesRabinMiller(n: nat, bases: seq<int>)
    requires Fermat.IsPrime(n) && forall i :: 0 <= i < |bases| ==> bases[i] % n != 0
    ensures RabinMiller(n, bases)
  {
    if n >= 4 {
      Fermat.PrimeNoDivisor(n, 2);
      forall i | 0 <= i < |bases|
        ensures RoundPasses(n, bases[i])
      {
        PrimeRound(n, bases[i]);
      }
    }
  }

  // ---------------------------------------------------------------------
  // The steps of the tests
  // ---------------------------------------------------------------------

  /**
   * The screen at the head of `RabinMillerTest` and `isProbablePrime()`:
   * a single word 0 or 1 is not prime, 2 or 3 is, an even number is not.
   */
  method Screen(v: BigInteger) returns (decided: bool, verdict: bool)
    requires Canonical(v) && 0 <= Value(v)
    ensures decided <==> Value(v) < 4 || Value(v) % 2 == 0
    ensures decided ==> (verdict <==> Value(v) == 2 || Value(v) == 3)
  {
    ValueIsSigned(v);
    if v.dataLength == 1 || Val(v.data) < BASE {
      SingleWord(v);
    }
    if v.dataLength == 1 {
      if v.data[0] == 0 || v.data[0] == 1 {
        return true, false;
      } else if v.data[0] == 2 || v.data[0] == 3 {
        return true, true;
      }
    }
    ModPow.ExponentBit(v, 0, 0);
    if Bits.And(v.data[0], 1) == 0 {
      return true, false;
    }
    return false, false;
  }

  /** Trial division of thisVal by primesBelow2000. */
  method TrialDivision(v: BigInteger) returns (found: bool)
    requires Canonical(v) && 0 <= Value(v)
    ensures found <==> TrialFactor(Value(v))
  {
    TableFacts();
    found := DivideByTable(v, PRIMES_BELOW_2000);
  }

  /**
   * The trial division loop: `thisVal % divisor` for each table entry until
   * one is at least thisVal; a zero low word of the remainder means a factor.
   */
  method DivideByTable(v: BigInteger, primes: seq<int>) returns (found: bool)
    requires Canonical(v) && 0 <= Value(v) && TableShape(primes)
    ensures found <==> Factor(Value(v), primes)
  {
    ghost var N := Value(v);
    var p := 0;
    while p < |primes|
      invariant 0 <= p <= |primes|
      invariant forall k :: 0 <= k < p ==> 0 < primes[k] < N && N % primes[k] != 0
    {
      var d := primes[p];
      var stop, divides := TryDivisor(v, d);
      if stop {
        NoFactorAbove(N, primes, p);
        return false;
      }
      if divides {
        return true;
      }
      p := p + 1;
    }
    return false;
  }

  /** Past the first table entry that is at least n, no entry is below n. */
  lemma {:induction false} NoFactorAbove(n: nat, primes: seq<int>, p: int)
    requires Ascending(primes) && 0 <= p < |primes| && primes[p] >= n
    requires forall k :: 0 <= k < p ==> 0 < primes[k] < n && n % primes[k] != 0
    ensures !Factor(n, primes)
  {
    forall i | p < i < |primes|
      ensures primes[i] >= n
    {
      assert primes[p] < primes[i];
    }
  }

  /**
   * One round of the trial division loop: stop when `divisor >= thisVal`,
   * otherwise test the low word of `thisVal % divisor`.
   */
  method TryDivisor(v: BigInteger, d: int) returns (stop: bool, divides: bool)
    requires Canonical(v) && 0 <= Value(v) && 2 <= d <= 1999
    ensures stop <==> d >= Value(v)
    ensures !stop ==> (divides <==> Value(v) % d == 0)
  {
    var divisor := Construct.FromLong(d);
    stop := GreaterOrEqual(divisor, v);
    if stop {
      return stop, false;
    }
    var rem := Divide.Remainder(v, divisor);
    assert Value(rem.value) == Value(v) % d by {
      ShortTableEntry(d);
      ModPow.RemainderOfMagnitude(Value(v), d);
    }
    LowWordZero(rem.value);
    divides := rem.value.data[0] == 0;
  }

  /** A table entry is a single positive word and so a short divisor. */
  lemma {:induction false} ShortTableEntry(d: int)
    requires 2 <= d <= 1999
    ensures Divide.ShortDivisor(d)
  {
    PowMonotone(1, W - 2);
    assert Pow(1) == BASE;
  }

  /** `IntValue() == 0` on a non-negative value below 2^32. */
  lemma {:induction false} LowWordZero(r: BigInteger)
    requires Canonical(r) && 0 <= Value(r) < BASE
    ensures r.data[0] == 0 <==> Value(r) == 0
  {
    ValueIsSigned(r);
    SingleWord(r);
  }

  /**
   * The count of trailing zero bits of `p_sub1`: the nested loops over words
   * and bit masks, leaving both loops at the first set bit.
   */
  method TrailingZeros(m: BigInteger) returns (s: int)
    requires Canonical(m) && 0 <= Value(m)
    ensures 0 < Value(m) ==> s == TwoPower(Value(m))
    ensures Value(m) == 0 ==> s == 32
  {
    s := 0;
    var index := 0;
    var found := false;
    while index < m.dataLength && !found
      invariant 0 <= index <= m.dataLength
      invariant found ==> 0 < Value(m) && s == TwoPower(Value(m))
      invariant !found ==> s == 32 * index && Value(m) % Pow2(s) == 0
    {
      s, found := ScanWord(m, index, s);
      index := index + 1;
    }
    if !found {
      assert Value(m) == 0 by {
        ValueIsSigned(m);
        WellFormedValue(m);
        ValBound(m.data[..m.dataLength]);
        PowIsPow2(m.dataLength);
        DivModUnique(Value(m), Pow2(s), 0, Value(m));
      }
      CanonicalZero(m);
      ValueIsSigned(m);
    }
  }

  /** The inner loop of the scan over the 32 bits of word `index`. */
  method ScanWord(m: BigInteger, index: int, s0: int) returns (s: int, found: bool)
    requires Canonical(m) && 0 <= Value(m) && 0 <= index < m.dataLength
    requires s0 == 32 * index && Value(m) % Pow2(s0) == 0
    ensures found ==> 0 < Value(m) && s == TwoPower(Value(m))
    ensures !found ==> s == s0 + 32 && Value(m) % Pow2(s) == 0
  {
    s, found := s0, false;
    var mask: Word := 1;
    var i := 0;
    while i < 32 && !found
      invariant 0 <= i <= 32 && (i < 32 ==> mask == Pow2(i))
      invariant found ==> 0 < Value(m) && s == TwoPower(Value(m))
      invariant !found ==> s == s0 + i && Value(m) % Pow2(s) == 0
      decreases 32 - i, if found then 0 else 1
    {
      ModPow.ExponentBit(m, index, i);
      if Bits.And(m.data[index], mask) != 0 {
        found := true;
        TwoPowerUnique(Value(m), s);
      } else {
        ModPow.LowBits(Value(m), s);
        ModPow.MaskShift(mask, i);
        mask := (mask * 2) % BASE;
        s := s + 1;
        i := i + 1;
      }
    }
  }

  /** `p_sub1 = thisVal - 1`, its count s of trailing zero bits and `t = p_sub1 >> s`. */
  method SplitTwos(n: BigInteger) returns (pSub1: BigInteger, s: int, t: BigInteger)
    requires Canonical(n) && 2 <= Value(n)
    ensures Canonical(pSub1) && Value(pSub1) == Value(n) - 1
    ensures s == TwoPower(Value(n) - 1)
    ensures Canonical(t) && Value(t) == OddPart(Value(n) - 1)
  {
    var one := Construct.FromLong(1);
    ValueIsSigned(n);
    var d := Additive.Subtract(n, one);
    pSub1 := d.value;
    s := TrailingZeros(pSub1);
    t := Shift.ShiftRight(pSub1, s);
    OddQuotient(Value(pSub1), s);
  }

  /** Squaring a^(2^j * t) modulo n gives a^(2^(j+1) * t) modulo n. */
  lemma {:induction false} SquareStep(a: int, t: nat, j: nat, n: nat, x: int)
    requires n > 0 && x == Numbers.Power(a, Pow2(j) * t) % n
    ensures (x * x) % n == Numbers.Power(a, Pow2(j + 1) * t) % n
  {
    var e := Pow2(j) * t;
    var p := Numbers.Power(a, e);
    assert Pow2(j + 1) * t == e + e;
    Numbers.PowerAdd(a, e, e);
    Numbers.ModCongruent(p, n);
    Numbers.CongruentMul(x, p, x, p, n);
    Numbers.CongruentMod(x * x, p * p, n);
  }

  /** The square of a residue of a modulus below b^33 is in range. */
  lemma {:induction false} SquareFits(x: int, n: int)
    requires 0 <= x < n < Pow(33)
    ensures InRange(x * x) && 0 <= x * x
  {
    var P := Pow(33);
    MulLe(x, P, x);
    MulLe(x, P, P);
    PowAdd(33, 33);
    ModPow.PowBelowHalf(66);
  }

  /**
   * The strong-pseudoprime test of one base: `b = a.modPow(t, thisVal)`,
   * success when b is 1, otherwise up to s rounds that compare b with
   * `p_sub1` and replace b by `(b * b) % thisVal`.
   */
  method StrongTest(n: BigInteger, pSub1: BigInteger, s: int, t: BigInteger, a: BigInteger)
    returns (r: Result<bool>)
    requires Canonical(n) && Canonical(pSub1) && Canonical(t) && Canonical(a)
    requires 2 <= Value(n) && Value(pSub1) == Value(n) - 1 && 0 <= Value(a)
    requires s == TwoPower(Value(n) - 1) && Value(t) == OddPart(Value(n) - 1)
    ensures r.Err? ==> r.error in {Overflow, DivideByZero, CapacityExceeded, IndexOutOfRange}
    ensures Value(n) < Pow(33) ==> r.Ok?
    ensures r.Ok? ==> (r.value <==> StrongProbablePrime(Value(n), Value(a)))
  {
    ghost var N, A, T := Value(n), Value(a), Value(t);
    assert T > 0 by {
      OddSplit(N - 1);
    }
    var b := ModPow.ModPow(a, t, n);
    if b.Err? {
      return Err(b.error);
    }
    var x := b.value;
    assert 0 <= Value(x) < N && Value(x) == Numbers.Power(A, Pow2(0) * T) % N by {
      Numbers.PowerNonNegative(A, T);
      ModPow.RemainderOfMagnitude(Numbers.Power(A, T), N);
    }
    ModPow.IsOne(x);
    var result := x.dataLength == 1 && x.data[0] == 1;
    r := Squarings(n, pSub1, s, x, result, A, T);
  }

  /** No witness among a^t and a^(2^k * t) for k < j, modulo n. */
  ghost predicate NoWitnessBelow(n: nat, a: int, t: nat, j: nat)
    requires n > 0
  {
    Numbers.Power(a, t) % n != 1 && forall k :: 0 <= k < j ==> Numbers.Power(a, Pow2(k) * t) % n != n - 1
  }

  /** The loop `for (j = 0; result == false && j < s; j++)` of the strong test. */
  method Squarings(n: BigInteger, pSub1: BigInteger, s: int, x0: BigInteger, result0: bool, ghost A: int, ghost T: nat)
    returns (r: Result<bool>)
    requires Canonical(n) && Canonical(pSub1) && Canonical(x0) && Divide.ShortDivisor(Value(n))
    requires 2 <= Value(n) && Value(pSub1) == Value(n) - 1
    requires s == TwoPower(Value(n) - 1) && T == OddPart(Value(n) - 1)
    requires 0 <= Value(x0) < Value(n) && Value(x0) == Numbers.Power(A, Pow2(0) * T) % Value(n)
    requires result0 <==> Value(x0) == 1
    ensures r.Err? ==> r.error in {Overflow, DivideByZero, CapacityExceeded, IndexOutOfRange}
    ensures Value(n) < Pow(33) ==> r.Ok?
    ensures r.Ok? ==> (r.value <==> StrongProbablePrime(Value(n), A))
  {
    ghost var N := Value(n);
    var x, result := x0, result0;
    if result {
      assert StrongProbablePrime(N, A);
    }
    var j := 0;
    while !result && j < s
      invariant 0 <= j <= s
      invariant Canonical(x) && 0 <= Value(x) < N && Value(x) == Numbers.Power(A, Pow2(j) * T) % N
      invariant result ==> StrongProbablePrime(N, A)
      invariant !result ==> NoWitnessBelow(N, A, T, j)
      decreases s - j, if result then 0 else 1
    {
      var eq := Equals(x, pSub1);
      if eq {
        result := true;
        Witness(N, A, j);
      } else {
        var y := SquareMod(x, n);
        if y.Err? {
          return Err(y.error);
        }
        SquareStep(A, T, j, N, Value(x));
        NoWitnessNext(N, A, T, j, Value(x));
        x := y.value;
        j := j + 1;
      }
    }
    if !result {
      NoWitness(N, A);
    }
    r := Ok(result);
  }

  /** `(b * b) % thisVal` on a residue b. */
  method SquareMod(x: BigInteger, n: BigInteger) returns (r: Result<BigInteger>)
    requires Canonical(x) && Canonical(n) && 0 <= Value(x) < Value(n) && Divide.ShortDivisor(Value(n))
    ensures r.Err? ==> r.error in {Overflow, DivideByZero, CapacityExceeded, IndexOutOfRange}
    ensures Value(n) < Pow(33) ==> r.Ok?
    ensures r.Ok? ==> Canonical(r.value) && 0 <= Value(r.value) < Value(n)
    ensures r.Ok? ==> Value(r.value) == (Value(x) * Value(x)) % Value(n)
  {
    if Value(n) < Pow(33) {
      SquareFits(Value(x), Value(n));
    }
    var sq := Multiply.Multiply(x, x);
    if sq.Err? {
      return Err(sq.error);
    }
    r := Divide.Remainder(sq.value, n);
    if r.Ok? {
      MulLe(0, Value(x), Value(x));
      ModPow.RemainderOfMagnitude(Value(x) * Value(x), Value(n));
    }
  }

  /** b = n - 1 at round j < s is the witness of the strong test. */
  lemma {:induction false} Witness(n: nat, a: int, j: nat)
    requires n > 1 && j < TwoPower(n - 1)
    requires Numbers.Power(a, Pow2(j) * OddPart(n - 1)) % n == n - 1
    ensures StrongProbablePrime(n, a)
  {
  }

  /** a^(2^j * t) other than n - 1 extends the witness-free range by one. */
  lemma {:induction false} NoWitnessNext(n: nat, a: int, t: nat, j: nat, x: int)
    requires n > 0 && x == Numbers.Power(a, Pow2(j) * t) % n && x != n - 1
    ensures NoWitnessBelow(n, a, t, j) ==> NoWitnessBelow(n, a, t, j + 1)
  {
  }

  /** With no witness below s, the strong test fails. */
  lemma {:induction false} NoWitness(n: nat, a: int)
    requires n > 1 && NoWitnessBelow(n, a, OddPart(n - 1), TwoPower(n - 1))
    ensures !StrongProbablePrime(n, a)
  {
  }

  /** `gcdTest.dataLength == 1 && gcdTest.data[0] != 1` on a non-negative value. */
  lemma {:induction false} SmallFactorTest(g: BigInteger)
    requires Canonical(g) && 0 <= Value(g)
    ensures (g.dataLength == 1 && g.data[0] != 1) <==> (Value(g) < BASE && Value(g) != 1)
  {
    ValueIsSigned(g);
    if g.dataLength == 1 || Val(g.data) < BASE {
      SingleWord(g);
    }
  }

  /**
   * One round of `RabinMillerTest` with base a: a common factor with
   * thisVal that fits one word and is not 1 fails the round, otherwise the
   * strong test decides.
   */
  method Round(v: BigInteger, pSub1: BigInteger, s: int, t: BigInteger, a: BigInteger) returns (r: Result<bool>)
    requires Canonical(v) && Canonical(pSub1) && Canonical(t) && Canonical(a)
    requires 2 <= Value(v) && Value(pSub1) == Value(v) - 1 && 0 <= Value(a) && Divide.ShortDivisor(Value(a))
    requires s == TwoPower(Value(v) - 1) && Value(t) == OddPart(Value(v) - 1)
    ensures r.Err? ==> r.error in {Overflow, DivideByZero, CapacityExceeded, IndexOutOfRange}
    ensures Value(v) < Pow(33) ==> r.Ok?
    ensures r.Ok? ==> (r.value <==> RoundPasses(Value(v), Value(a)))
  {
    ValueIsSigned(v);
    var g := Euclid.Gcd(a, v);
    SmallFactorTest(g.value);
    if g.value.dataLength == 1 && g.value.data[0] != 1 {
      return Ok(false);
    }
    r := StrongTest(v, pSub1, s, t, a);
  }

  /** The rounds of `RabinMillerTest`, one per base, until one fails. */
  method Rounds(v: BigInteger, pSub1: BigInteger, s: int, t: BigInteger, bases: seq<BigInteger>) returns (r: Result<bool>)
    requires Canonical(v) && Canonical(pSub1) && Canonical(t)
    requires 2 <= Value(v) && Value(pSub1) == Value(v) - 1
    requires s == TwoPower(Value(v) - 1) && Value(t) == OddPart(Value(v) - 1)
    requires forall i :: 0 <= i < |bases| ==> Canonical(bases[i]) && 0 <= Value(bases[i]) && Divide.ShortDivisor(Value(bases[i]))
    ensures r.Err? ==> r.error in {Overflow, DivideByZero, CapacityExceeded, IndexOutOfRange}
    ensures Value(v) < Pow(33) ==> r.Ok?
    ensures r.Ok? ==> (r.value <==> forall i :: 0 <= i < |bases| ==> RoundPasses(Value(v), Values(bases)[i]))
  {
    ghost var N, vs := Value(v), Values(bases);
    var round := 0;
    while round < |bases|
      invariant 0 <= round <= |bases|
      invariant forall k :: 0 <= k < round ==> RoundPasses(N, vs[k])
    {
      var passed := Round(v, pSub1, s, t, bases[round]);
      if passed.Err? {
        return Err(passed.error);
      }
      if !passed.value {
        return Ok(false);
      }
      round := round + 1;
    }
    return Ok(true);
  }

  /**
   * `RabinMillerTest(confidence)` with the random bases given as a list:
   * thisVal = |this|, the screen for small and even numbers, the split of
   * thisVal - 1, then one round per base until one fails.
   */
  method RabinMillerTest(x: BigInteger, bases: seq<BigInteger>) returns (r: Result<bool>)
    requires Canonical(x)
    requires forall i :: 0 <= i < |bases| ==> Canonical(bases[i]) && 0 <= Value(bases[i]) && Divide.ShortDivisor(Value(bases[i]))
    ensures Value(x) == Divide.MinValue() ==> r == Err(Overflow)
    ensures r.Err? ==> r.error in {Overflow, DivideByZero, CapacityExceeded, IndexOutOfRange}
    ensures Abs(Value(x)) < Pow(33) ==> r.Ok?
    ensures r.Ok? ==> (r.value <==> RabinMiller(Abs(Value(x)), Values(bases)))
    ensures r.Ok? && Fermat.IsPrime(Abs(Value(x))) && (forall i :: 0 <= i < |bases| ==> Value(bases[i]) % Abs(Value(x)) != 0) ==> r.value
  {
    var mag, _ := Divide.Magnitude(x);
    if mag.Err? {
      ModPow.PowBelowHalf(33);
      return Err(Overflow);
    }
    var v := mag.value;
    if Fermat.IsPrime(Value(v)) && forall i :: 0 <= i < |bases| ==> Value(bases[i]) % Value(v) != 0 {
      PrimePassesRabinMiller(Value(v), Values(bases));
    }
    var decided, verdict := Screen(v);
    if decided {
      return Ok(verdict);
    }
    var pSub1, s, t := SplitTwos(v);
    r := Rounds(v, pSub1, s, t, bases);
  }

  /**
   * `isProbablePrime(confidence)`: thisVal = |this|, trial division by the
   * table, then `RabinMillerTest` with the given bases.
   */
  method IsProbablePrimeWith(x: BigInteger, bases: seq<BigInteger>) returns (r: Result<bool>)
    requires Canonical(x)
    requires forall i :: 0 <= i < |bases| ==> Canonical(bases[i]) && 0 <= Value(bases[i]) && Divide.ShortDivisor(Value(bases[i]))
    ensures Value(x) == Divide.MinValue() ==> r == Err(Overflow)
    ensures r.Err? ==> r.error in {Overflow, DivideByZero, CapacityExceeded, IndexOutOfRange}
    ensures Abs(Value(x)) < Pow(33) ==> r.Ok?
    ensures r.Ok? ==> (r.value <==> !TrialFactor(Abs(Value(x))) && RabinMiller(Abs(Value(x)), Values(bases)))
  {
    var mag, _ := Divide.Magnitude(x);
    if mag.Err? {
      ModPow.PowBelowHalf(33);
      return Err(Overflow);
    }
    var v := mag.value;
    var found := TrialDivision(v);
    if found {
      return Ok(false);
    }
    r := RabinMillerTest(v, bases);
  }

  /**
   * `isProbablePrime()`: thisVal = |this|, the screen for small and even
   * numbers, trial division by the table, then the strong test to base 2.
   */
  method IsProbablePrime(x: BigInteger) returns (r: Result<bool>)
    requires Canonical(x)
    ensures Value(x) == Divide.MinValue() ==> r == Err(Overflow)
    ensures r.Err? ==> r.error in {Overflow, DivideByZero, CapacityExceeded, IndexOutOfRange}
    ensures Abs(Value(x)) < Pow(33) ==> r.Ok?
    ensures r.Ok? ==> (r.value <==> BaseTwoProbablePrime(Abs(Value(x))))
    ensures r.Ok? && Fermat.IsPrime(Abs(Value(x))) ==> r.value
  {
    var mag, _ := Divide.Magnitude(x);
    if mag.Err? {
      ModPow.PowBelowHalf(33);
      return Err(Overflow);
    }
    var v := mag.value;
    if Fermat.IsPrime(Value(v)) {
      PrimeIsBaseTwoProbablePrime(Value(v));
    }
    var decided, verdict := Screen(v);
    if decided {
      return Ok(verdict);
    }
    var found := TrialDivision(v);
    if found {
      return Ok(false);
    }
    var pSub1, s, t := SplitTwos(v);
    var two := Construct.FromLong(2);
    r := StrongTest(v, pSub1, s, t, two);
  }
}
