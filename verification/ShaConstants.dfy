/** Where the constants come from: the roots of the first primes. */
module ShaConstants {
  import opened Bits
  import opened Fips180

  const TWO_TO_96: nat := 0x1_0000_0000_0000_0000_0000_0000

  predicate IsPrime(n: nat) { n >= 2 && forall d :: 2 <= d < n ==> n % d != 0 }

  /** In order, all primes up to the last of them. */
  ghost predicate AreFirstPrimes(primes: seq<nat>) {
    && (forall i, j :: 0 <= i < j < |primes| ==> primes[i] < primes[j])
    && (forall n: nat :: primes != [] && n <= primes[|primes| - 1] ==> (IsPrime(n) <==> n in primes))
  }

  const PRIMES: seq<nat> :=
    [2, 3, 5, 7, 11, 13, 17, 19] +
    [23, 29, 31, 37, 41, 43, 47, 53] +
    [59, 61, 67, 71, 73, 79, 83, 89] +
    [97, 101, 103, 107, 109, 113, 127, 131] +
    [137, 139, 149, 151, 157, 163, 167, 173] +
    [179, 181, 191, 193, 197, 199, 211, 223] +
    [227, 229, 233, 239, 241, 251, 257, 263] +
    [269, 271, 277, 281, 283, 293, 307, 311]

  // The table holds the first primes.  A number below 19 * 19 is prime when no prime up to 17 divides it.

  predicate IsSieved(n: nat) {
    n % 2 != 0 && n % 3 != 0 && n % 5 != 0 && n % 7 != 0 && n % 11 != 0 && n % 13 != 0 && n % 17 != 0
  }

  predicate NoneSieved(low: nat, high: nat)
    decreases high - low
  {
    low >= high || (!IsSieved(low) && NoneSieved(low + 1, high))
  }

  /** Nothing is sieved between `p` and `q`. */
  predicate Follows(p: nat, q: nat) { p < q && IsSieved(q) && NoneSieved(p + 1, q) }

  lemma PrimesRow0()
    ensures forall i :: 7 <= i < 8 ==> Follows(PRIMES[i], PRIMES[i + 1])
  {
    assert Follows(19, 23);
  }

  lemma PrimesRow1()
    ensures forall i :: 8 <= i < 16 ==> Follows(PRIMES[i], PRIMES[i + 1])
  {
    assert Follows(23, 29) && Follows(29, 31) && Follows(31, 37) && Follows(37, 41);
    assert Follows(41, 43) && Follows(43, 47) && Follows(47, 53) && Follows(53, 59);
  }

  lemma PrimesRow2()
    ensures forall i :: 16 <= i < 24 ==> Follows(PRIMES[i], PRIMES[i + 1])
  {
    assert Follows(59, 61) && Follows(61, 67) && Follows(67, 71) && Follows(71, 73);
    assert Follows(73, 79) && Follows(79, 83) && Follows(83, 89) && Follows(89, 97);
  }

  lemma PrimesRow3()
    ensures forall i :: 24 <= i < 32 ==> Follows(PRIMES[i], PRIMES[i + 1])
  {
    assert Follows(97, 101) && Follows(101, 103) && Follows(103, 107) && Follows(107, 109);
    assert Follows(109, 113) && Follows(113, 127) && Follows(127, 131) && Follows(131, 137);
  }

  lemma PrimesRow4()
    ensures forall i :: 32 <= i < 40 ==> Follows(PRIMES[i], PRIMES[i + 1])
  {
    assert Follows(137, 139) && Follows(139, 149) && Follows(149, 151) && Follows(151, 157);
    assert Follows(157, 163) && Follows(163, 167) && Follows(167, 173) && Follows(173, 179);
  }

  lemma PrimesRow5()
    ensures forall i :: 40 <= i < 48 ==> Follows(PRIMES[i], PRIMES[i + 1])
  {
    assert Follows(179, 181) && Follows(181, 191) && Follows(191, 193) && Follows(193, 197);
    assert Follows(197, 199) && Follows(199, 211) && Follows(211, 223) && Follows(223, 227);
  }

  lemma PrimesRow6()
    ensures forall i :: 48 <= i < 56 ==> Follows(PRIMES[i], PRIMES[i + 1])
  {
    assert Follows(227, 229) && Follows(229, 233) && Follows(233, 239) && Follows(239, 241);
    assert Follows(241, 251) && Follows(251, 257) && Follows(257, 263) && Follows(263, 269);
  }

  lemma PrimesRow7()
    ensures forall i :: 56 <= i < 63 ==> Follows(PRIMES[i], PRIMES[i + 1])
  {
    assert Follows(269, 271) && Follows(271, 277) && Follows(277, 281) && Follows(281, 283);
    assert Follows(283, 293) && Follows(293, 307) && Follows(307, 311);
  }

  lemma PrimesFollow(i: nat)
    requires 7 <= i < 63
    ensures Follows(PRIMES[i], PRIMES[i + 1])
  {
    hide Follows;
    PrimesRow0();
    PrimesRow1();
    PrimesRow2();
    PrimesRow3();
    PrimesRow4();
    PrimesRow5();
    PrimesRow6();
    PrimesRow7();
  }

  lemma Multiple(n: nat, q: nat, k: nat)
    requires q > 0 && n == q * k
    ensures n % q == 0
  {
    DivModUnique(n, q, k, 0);
  }

  lemma SmallDivisorSieves(n: nat, d: nat)
    requires 2 <= d < 19 && n % d == 0
    ensures !IsSieved(n)
  {
    var k := n / d;
    DivisionOf(n, d);
    var q := if d % 2 == 0 then 2 else if d % 3 == 0 then 3 else d;
    var e := if d % 2 == 0 then d / 2 else if d % 3 == 0 then d / 3 else 1;
    Regrouped(q, e, k);
    Multiple(n, q, e * k);
  }

  lemma Regrouped(q: nat, e: nat, k: nat)
    ensures q * e * k == q * (e * k)
  {
  }

  lemma LargeFactors(d: nat, k: nat)
    requires d >= 19 && k >= 19
    ensures d * k >= 361
  {
    MulMonotone(d, 19, k);
  }

  lemma DivisorSieves(n: nat, d: nat)
    requires 2 <= d < n < 361 && n % d == 0
    ensures !IsSieved(n)
  {
    hide IsSieved;
    var k := n / d;
    DivisionOf(n, d);
    assert n == d * k == k * d;
    if d < 19 {
      SmallDivisorSieves(n, d);
    } else {
      if k >= 19 {
        LargeFactors(d, k);
      }
      assert k != 0 && k != 1;
      Multiple(n, k, d);
      SmallDivisorSieves(n, k);
    }
  }

  lemma SievedIffPrime(n: nat)
    requires 19 <= n < 361
    ensures IsSieved(n) <==> IsPrime(n)
  {
    if IsSieved(n) {
      forall d | 2 <= d < n
        ensures n % d != 0
      {
        if n % d == 0 {
          DivisorSieves(n, d);
        }
      }
    }
  }

  lemma {:induction false} NoneSievedIn(low: nat, high: nat, n: nat)
    requires NoneSieved(low, high) && low <= n < high
    ensures !IsSieved(n)
    decreases high - low
  {
    if low < n {
      NoneSievedIn(low + 1, high, n);
    }
  }

  lemma SmallPrimes(n: nat)
    requires n <= 19
    ensures IsPrime(n) <==> n in [2, 3, 5, 7, 11, 13, 17, 19]
  {
    assert n in {4, 6, 8, 10, 12, 14, 16, 18} ==> n % 2 == 0;
    assert n in {9, 15} ==> n % 3 == 0;
  }

  /** A table whose start is right and whose later entries follow each other. */
  lemma {:induction false} TableUpTo(table: seq<nat>, i: nat)
    requires 7 <= i < |table| && table[i] < 361
    requires table[..8] == [2, 3, 5, 7, 11, 13, 17, 19]
    requires forall k :: 7 <= k < i ==> Follows(table[k], table[k + 1])
    ensures forall k, j :: 0 <= k < j <= i ==> table[k] < table[j]
    ensures forall n: nat :: n <= table[i] ==> (IsPrime(n) <==> n in table[..i + 1])
  {
    hide IsPrime, IsSieved, NoneSieved;
    if i == 7 {
      assert forall k :: 0 <= k < 8 ==> table[k] == table[..8][k];
      forall n: nat | n <= 19
        ensures IsPrime(n) <==> n in table[..8]
      {
        SmallPrimes(n);
      }
    } else {
      assert Follows(table[i - 1], table[i]);
      TableUpTo(table, i - 1);
      assert table[..i + 1] == table[..i] + [table[i]];
      assert table[7] == table[..8][7] && table[7] <= table[i - 1];
      forall n: nat | table[i - 1] < n <= table[i]
        ensures IsPrime(n) <==> n == table[i]
      {
        InGap(table[i - 1], table[i], n);
      }
      forall n | n in table[..i]
        ensures n <= table[i - 1]
      {
      }
    }
  }

  lemma InGap(p: nat, q: nat, n: nat)
    requires 19 <= p < n <= q < 361 && Follows(p, q)
    ensures IsPrime(n) <==> n == q
  {
    SievedIffPrime(n);
    if n < q {
      NoneSievedIn(p + 1, q, n);
    }
  }

  lemma PrimesAreFirst()
    ensures |PRIMES| == 64 && AreFirstPrimes(PRIMES)
  {
    forall i | 7 <= i < 63
      ensures Follows(PRIMES[i], PRIMES[i + 1])
    {
      PrimesFollow(i);
    }
    assert PRIMES[..8] == [2, 3, 5, 7, 11, 13, 17, 19];
    hide IsPrime, Follows;
    TableUpTo(PRIMES, 63);
    assert PRIMES[..64] == PRIMES;
  }

  // The constants start their roots.

  function Square(x: nat): nat { x * x }

  function Cube(x: nat): nat { x * x * x }

  /** `k` is the first 32 bits of the fractional part of the cube root of `p`, whose integral part is `c`. */
  predicate StartsCubeRoot(p: nat, c: nat, k: nat) {
    Cube(c * TWO_TO_32 + k) <= p * TWO_TO_96 < Cube(c * TWO_TO_32 + k + 1)
  }

  ghost predicate IsThirdRoot(p: nat, k: nat) { exists c: nat :: StartsCubeRoot(p, c, k) }

  predicate StartsSquareRoot(p: nat, c: nat, k: nat) {
    Square(c * TWO_TO_32 + k) <= p * TWO_TO_64 < Square(c * TWO_TO_32 + k + 1)
  }

  ghost predicate IsSecondRoot(p: nat, k: nat) { exists c: nat :: StartsSquareRoot(p, c, k) }

  lemma ConstantsFrom0()
    ensures forall t :: 0 <= t < 4 ==> IsThirdRoot(PRIMES[t], K[t])
  {
    assert StartsCubeRoot(PRIMES[0], 1, K[0]);
    assert StartsCubeRoot(PRIMES[1], 1, K[1]);
    assert StartsCubeRoot(PRIMES[2], 1, K[2]);
    assert StartsCubeRoot(PRIMES[3], 1, K[3]);
  }

  lemma ConstantsFrom4()
    ensures forall t :: 4 <= t < 8 ==> IsThirdRoot(PRIMES[t], K[t])
  {
    assert StartsCubeRoot(PRIMES[4], 2, K[4]);
    assert StartsCubeRoot(PRIMES[5], 2, K[5]);
    assert StartsCubeRoot(PRIMES[6], 2, K[6]);
    assert StartsCubeRoot(PRIMES[7], 2, K[7]);
  }

  lemma ConstantsFrom8()
    ensures forall t :: 8 <= t < 12 ==> IsThirdRoot(PRIMES[t], K[t])
  {
    assert StartsCubeRoot(PRIMES[8], 2, K[8]);
    assert StartsCubeRoot(PRIMES[9], 3, K[9]);
    assert StartsCubeRoot(PRIMES[10], 3, K[10]);
    assert StartsCubeRoot(PRIMES[11], 3, K[11]);
  }

  lemma ConstantsFrom12()
    ensures forall t :: 12 <= t < 16 ==> IsThirdRoot(PRIMES[t], K[t])
  {
    assert StartsCubeRoot(PRIMES[12], 3, K[12]);
    assert StartsCubeRoot(PRIMES[13], 3, K[13]);
    assert StartsCubeRoot(PRIMES[14], 3, K[14]);
    assert StartsCubeRoot(PRIMES[15], 3, K[15]);
  }

  lemma ConstantsFrom16()
    ensures forall t :: 16 <= t < 20 ==> IsThirdRoot(PRIMES[t], K[t])
  {
    assert StartsCubeRoot(PRIMES[16], 3, K[16]);
    assert StartsCubeRoot(PRIMES[17], 3, K[17]);
    assert StartsCubeRoot(PRIMES[18], 4, K[18]);
    assert StartsCubeRoot(PRIMES[19], 4, K[19]);
  }

  lemma ConstantsFrom20()
    ensures forall t :: 20 <= t < 24 ==> IsThirdRoot(PRIMES[t], K[t])
  {
    assert StartsCubeRoot(PRIMES[20], 4, K[20]);
    assert StartsCubeRoot(PRIMES[21], 4, K[21]);
    assert StartsCubeRoot(PRIMES[22], 4, K[22]);
    assert StartsCubeRoot(PRIMES[23], 4, K[23]);
  }

  lemma ConstantsFrom24()
    ensures forall t :: 24 <= t < 28 ==> IsThirdRoot(PRIMES[t], K[t])
  {
    assert StartsCubeRoot(PRIMES[24], 4, K[24]);
    assert StartsCubeRoot(PRIMES[25], 4, K[25]);
    assert StartsCubeRoot(PRIMES[26], 4, K[26]);
    assert StartsCubeRoot(PRIMES[27], 4, K[27]);
  }

  lemma ConstantsFrom28()
    ensures forall t :: 28 <= t < 32 ==> IsThirdRoot(PRIMES[t], K[t])
  {
    assert StartsCubeRoot(PRIMES[28], 4, K[28]);
    assert StartsCubeRoot(PRIMES[29], 4, K[29]);
    assert StartsCubeRoot(PRIMES[30], 5, K[30]);
    assert StartsCubeRoot(PRIMES[31], 5, K[31]);
  }

  lemma ConstantsFrom32()
    ensures forall t :: 32 <= t < 36 ==> IsThirdRoot(PRIMES[t], K[t])
  {
    assert StartsCubeRoot(PRIMES[32], 5, K[32]);
    assert StartsCubeRoot(PRIMES[33], 5, K[33]);
    assert StartsCubeRoot(PRIMES[34], 5, K[34]);
    assert StartsCubeRoot(PRIMES[35], 5, K[35]);
  }

  lemma ConstantsFrom36()
    ensures forall t :: 36 <= t < 40 ==> IsThirdRoot(PRIMES[t], K[t])
  {
    assert StartsCubeRoot(PRIMES[36], 5, K[36]);
    assert StartsCubeRoot(PRIMES[37], 5, K[37]);
    assert StartsCubeRoot(PRIMES[38], 5, K[38]);
    assert StartsCubeRoot(PRIMES[39], 5, K[39]);
  }

  lemma ConstantsFrom40()
    ensures forall t :: 40 <= t < 44 ==> IsThirdRoot(PRIMES[t], K[t])
  {
    assert StartsCubeRoot(PRIMES[40], 5, K[40]);
    assert StartsCubeRoot(PRIMES[41], 5, K[41]);
    assert StartsCubeRoot(PRIMES[42], 5, K[42]);
    assert StartsCubeRoot(PRIMES[43], 5, K[43]);
  }

  lemma ConstantsFrom44()
    ensures forall t :: 44 <= t < 48 ==> IsThirdRoot(PRIMES[t], K[t])
  {
    assert StartsCubeRoot(PRIMES[44], 5, K[44]);
    assert StartsCubeRoot(PRIMES[45], 5, K[45]);
    assert StartsCubeRoot(PRIMES[46], 5, K[46]);
    assert StartsCubeRoot(PRIMES[47], 6, K[47]);
  }

  lemma ConstantsFrom48()
    ensures forall t :: 48 <= t < 52 ==> IsThirdRoot(PRIMES[t], K[t])
  {
    assert StartsCubeRoot(PRIMES[48], 6, K[48]);
    assert StartsCubeRoot(PRIMES[49], 6, K[49]);
    assert StartsCubeRoot(PRIMES[50], 6, K[50]);
    assert StartsCubeRoot(PRIMES[51], 6, K[51]);
  }

  lemma ConstantsFrom52()
    ensures forall t :: 52 <= t < 56 ==> IsThirdRoot(PRIMES[t], K[t])
  {
    assert StartsCubeRoot(PRIMES[52], 6, K[52]);
    assert StartsCubeRoot(PRIMES[53], 6, K[53]);
    assert StartsCubeRoot(PRIMES[54], 6, K[54]);
    assert StartsCubeRoot(PRIMES[55], 6, K[55]);
  }

  lemma ConstantsFrom56()
    ensures forall t :: 56 <= t < 60 ==> IsThirdRoot(PRIMES[t], K[t])
  {
    assert StartsCubeRoot(PRIMES[56], 6, K[56]);
    assert StartsCubeRoot(PRIMES[57], 6, K[57]);
    assert StartsCubeRoot(PRIMES[58], 6, K[58]);
    assert StartsCubeRoot(PRIMES[59], 6, K[59]);
  }

  lemma ConstantsFrom60()
    ensures forall t :: 60 <= t < 64 ==> IsThirdRoot(PRIMES[t], K[t])
  {
    assert StartsCubeRoot(PRIMES[60], 6, K[60]);
    assert StartsCubeRoot(PRIMES[61], 6, K[61]);
    assert StartsCubeRoot(PRIMES[62], 6, K[62]);
    assert StartsCubeRoot(PRIMES[63], 6, K[63]);
  }

  /** Section 4.2.2: the constants are the first 32 bits of the fractional parts of the cube roots of the first 64
      primes. */
  lemma ConstantsAreCubeRoots()
    ensures |K| == |PRIMES| == 64 && AreFirstPrimes(PRIMES)
    ensures forall t :: 0 <= t < 64 ==> K[t] < TWO_TO_32 && IsThirdRoot(PRIMES[t], K[t])
  {
    PrimesAreFirst();
    hide IsThirdRoot, AreFirstPrimes;
    ConstantsFrom0();
    ConstantsFrom4();
    ConstantsFrom8();
    ConstantsFrom12();
    ConstantsFrom16();
    ConstantsFrom20();
    ConstantsFrom24();
    ConstantsFrom28();
    ConstantsFrom32();
    ConstantsFrom36();
    ConstantsFrom40();
    ConstantsFrom44();
    ConstantsFrom48();
    ConstantsFrom52();
    ConstantsFrom56();
    ConstantsFrom60();
  }

  /** Section 5.3.3: the initial hash value is that of the square roots of the first eight primes. */
  lemma InitialHashIsSquareRoots()
    ensures forall t :: 0 <= t < 8 ==> IsSecondRoot(PRIMES[t], Words(INITIAL_HASH)[t])
  {
    var words := Words(INITIAL_HASH);
    assert StartsSquareRoot(PRIMES[0], 1, words[0]);
    assert StartsSquareRoot(PRIMES[1], 1, words[1]);
    assert StartsSquareRoot(PRIMES[2], 2, words[2]);
    assert StartsSquareRoot(PRIMES[3], 2, words[3]);
    assert StartsSquareRoot(PRIMES[4], 3, words[4]);
    assert StartsSquareRoot(PRIMES[5], 3, words[5]);
    assert StartsSquareRoot(PRIMES[6], 4, words[6]);
    assert StartsSquareRoot(PRIMES[7], 4, words[7]);
  }

  lemma CubeMonotone(x: nat, y: nat)
    requires x <= y
    ensures Cube(x) <= Cube(y)
  {
    MulMonotone(x, x, y);
    MulMonotone(y, x, y);
    MulMonotone(x * x, x, y);
    MulMonotone(y, x * x, y * y);
  }

  lemma OneCubeRoot(v: nat, x: nat, y: nat)
    requires Cube(x) <= v < Cube(x + 1) && Cube(y) <= v < Cube(y + 1)
    ensures x == y
  {
    hide Cube;
    if x < y {
      CubeMonotone(x + 1, y);
    } else if y < x {
      CubeMonotone(y + 1, x);
    }
  }

  /** The definition leaves no choice: a prime has one constant. */
  lemma ThirdRootIsUnique(p: nat, k: Word, l: Word)
    requires IsThirdRoot(p, k) && IsThirdRoot(p, l)
    ensures k == l
  {
    hide Cube;
    var c: nat :| StartsCubeRoot(p, c, k);
    var d: nat :| StartsCubeRoot(p, d, l);
    OneCubeRoot(p * TWO_TO_96, c * TWO_TO_32 + k, d * TWO_TO_32 + l);
  }
}
