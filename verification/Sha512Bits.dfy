/** The functions and constants of sections 4.1.3, 4.2.3 and 5.3.5 of FIPS 180-4, said bit by bit and by roots. */
module Sha512Bits {
  import opened Arith
  import opened Bits
  import opened BitLaws
  import opened Sha512

  // ---- the functions, bit by bit ----

  predicate IsWord(x: int) { 0 <= x < M64 }

  /** Ch chooses: where x has a one the bit of y, elsewhere that of z. */
  lemma ChBit(x: int, y: int, z: int, i: nat)
    requires IsWord(x) && i < 64
    ensures Bit(Ch(x, y, z), i) == if Bit(x, i) == 1 then Bit(y, i) else Bit(z, i)
  {
    hide Bit, And, Xor, Pow;
    TwoTo64();
    XorBit(And(x, y), And(M64 - 1 - x, z), i);
    AndBit(x, y, i);
    AndBit(M64 - 1 - x, z, i);
    NotBit(x, 64, i);
  }

  /** Maj has a one where at least two of the three have. */
  lemma MajBit(x: int, y: int, z: int, i: nat)
    ensures Bit(Maj(x, y, z), i) == if Bit(x, i) + Bit(y, i) + Bit(z, i) >= 2 then 1 else 0
  {
    hide Bit, And, Xor;
    XorBit(Xor(And(x, y), And(x, z)), And(y, z), i);
    XorBit(And(x, y), And(x, z), i);
    AndBit(x, y, i);
    AndBit(x, z, i);
    AndBit(y, z, i);
  }

  // Bit i after a rotation to the right by c.
  function Around(x: int, i: nat, c: nat): int { Bit(x, (i + c) % 64) }

  lemma RotrBit(x: int, c: nat, i: nat)
    requires IsWord(x) && c < 64 && i < 64
    ensures Bit(Rotr(x, c), i) == Around(x, i, c)
  {
    hide Bit, Or, Pow;
    TwoTo64();
    RotateBit(x, 64, c, i);
  }

  // Bit i after a shift to the right by c.
  lemma ShrBit(x: int, c: nat, i: nat)
    requires IsWord(x)
    ensures Bit(Shr(x, c), i) == if i + c < 64 then Bit(x, i + c) else 0
  {
    hide Bit, Pow;
    TwoTo64();
    ShiftRightBit(x, c, i);
    if i + c >= 64 {
      HighBit(x, 64, i + c);
    }
  }

  lemma Sigma0Bit(x: int, i: nat)
    requires IsWord(x) && i < 64
    ensures Bit(Sigma0(x), i) == (Around(x, i, 28) + Around(x, i, 34) + Around(x, i, 39)) % 2
  {
    hide Bit, Xor, Rotr, Shr, Around;
    XorBit(Xor(Rotr(x, 28), Rotr(x, 34)), Rotr(x, 39), i);
    XorBit(Rotr(x, 28), Rotr(x, 34), i);
    RotrBit(x, 28, i);
    RotrBit(x, 34, i);
    RotrBit(x, 39, i);
  }

  lemma Sigma1Bit(x: int, i: nat)
    requires IsWord(x) && i < 64
    ensures Bit(Sigma1(x), i) == (Around(x, i, 14) + Around(x, i, 18) + Around(x, i, 41)) % 2
  {
    hide Bit, Xor, Rotr, Shr, Around;
    XorBit(Xor(Rotr(x, 14), Rotr(x, 18)), Rotr(x, 41), i);
    XorBit(Rotr(x, 14), Rotr(x, 18), i);
    RotrBit(x, 14, i);
    RotrBit(x, 18, i);
    RotrBit(x, 41, i);
  }

  lemma LowerSigma0Bit(x: int, i: nat)
    requires IsWord(x) && i < 64
    ensures Bit(LowerSigma0(x), i)
         == (Around(x, i, 1) + Around(x, i, 8) + (if i + 7 < 64 then Bit(x, i + 7) else 0)) % 2
  {
    hide Bit, Xor, Rotr, Shr, Around;
    XorBit(Xor(Rotr(x, 1), Rotr(x, 8)), Shr(x, 7), i);
    XorBit(Rotr(x, 1), Rotr(x, 8), i);
    RotrBit(x, 1, i);
    RotrBit(x, 8, i);
    ShrBit(x, 7, i);
  }

  lemma LowerSigma1Bit(x: int, i: nat)
    requires IsWord(x) && i < 64
    ensures Bit(LowerSigma1(x), i)
         == (Around(x, i, 19) + Around(x, i, 61) + (if i + 6 < 64 then Bit(x, i + 6) else 0)) % 2
  {
    hide Bit, Xor, Rotr, Shr, Around;
    XorBit(Xor(Rotr(x, 19), Rotr(x, 61)), Shr(x, 6), i);
    XorBit(Rotr(x, 19), Rotr(x, 61), i);
    RotrBit(x, 19, i);
    RotrBit(x, 61, i);
    ShrBit(x, 6, i);
  }

  // ---- the constants ----

  // The first eighty primes, four to a row.
  function PrimeRow(i: nat): (s: seq<int>)
    ensures |s| == 4
  {
    match i
    case 0 => [2, 3, 5, 7]
    case 1 => [11, 13, 17, 19]
    case 2 => [23, 29, 31, 37]
    case 3 => [41, 43, 47, 53]
    case 4 => [59, 61, 67, 71]
    case 5 => [73, 79, 83, 89]
    case 6 => [97, 101, 103, 107]
    case 7 => [109, 113, 127, 131]
    case 8 => [137, 139, 149, 151]
    case 9 => [157, 163, 167, 173]
    case 10 => [179, 181, 191, 193]
    case 11 => [197, 199, 211, 223]
    case 12 => [227, 229, 233, 239]
    case 13 => [241, 251, 257, 263]
    case 14 => [269, 271, 277, 281]
    case 15 => [283, 293, 307, 311]
    case 16 => [313, 317, 331, 337]
    case 17 => [347, 349, 353, 359]
    case 18 => [367, 373, 379, 383]
    case _ => [389, 397, 401, 409]
  }

  function PrimeAt(t: nat): int { PrimeRow(t / 4)[t % 4] }

  // w is the first 64 bits of the fractional part of the cube root of p, by bounding the cube of the root's first
  // 64 fractional bits.
  predicate CubeRootBits(p: int, w: int)
  {
    exists q :: 0 <= q < 8 && CubeRootAt(p, w, q)
  }

  // With whole part q.
  predicate CubeRootAt(p: int, w: int, q: int)
  {
    var r := q * M64 + w;
    0 <= w < M64 && r * r * r <= p * (M64 * M64 * M64) < (r + 1) * (r + 1) * (r + 1)
  }

  predicate SquareRootBits(p: int, w: int)
  {
    exists q :: 0 <= q < 8 && SquareRootAt(p, w, q)
  }

  predicate SquareRootAt(p: int, w: int, q: int)
  {
    var r := q * M64 + w;
    0 <= w < M64 && r * r <= p * (M64 * M64) < (r + 1) * (r + 1)
  }

  ghost predicate Prime(n: int) { n >= 2 && forall d :: 2 <= d < n ==> n % d != 0 }

  // No other prime below 23 divides it.
  predicate Sieved(n: int)
  {
    && (n % 2 != 0 || n == 2) && (n % 3 != 0 || n == 3) && (n % 5 != 0 || n == 5) && (n % 7 != 0 || n == 7)
    && (n % 11 != 0 || n == 11) && (n % 13 != 0 || n == 13) && (n % 17 != 0 || n == 17) && (n % 19 != 0 || n == 19)
  }

  lemma SmallFactor(a: int) returns (p: int)
    requires 2 <= a < 23
    ensures p in {2, 3, 5, 7, 11, 13, 17, 19} && a % p == 0 && p <= a
  {
    p := if a % 2 == 0 then 2 else if a % 3 == 0 then 3 else if a % 5 == 0 then 5 else if a % 7 == 0 then 7 else a;
  }

  lemma FactorDivides(n: int, a: int, b: int, p: int)
    requires n == a * b && p > 0 && a % p == 0
    ensures n % p == 0
  {
    var c := a / p;
    assert a == p * c;
    assert p * c * b == c * b * p;
    DivModUnique(n, p, c * b, 0);
  }

  // A composite number below 23 * 23 has a prime factor below 23.
  lemma SievedIsPrime(n: int)
    requires 2 <= n < 529 && Sieved(n)
    ensures Prime(n)
  {
    forall d | 2 <= d < n
      ensures n % d != 0
    {
      if n % d == 0 {
        var e := n / d;
        assert n == d * e;
        assert 2 <= e;
        var a, b := if d <= e then d else e, if d <= e then e else d;
        SmallerFactor(a, b, n);
        var p := SmallFactor(a);
        FactorDivides(n, a, b, p);
      }
    }
  }

  lemma SmallerFactor(a: int, b: int, n: int)
    requires 2 <= a <= b && a * b == n < 529
    ensures a < 23 && a < n
  {
    if a >= 23 {
      MulMono(a, 23, b);
    }
    MulMono(a, 2, b);
  }

  // Place j of row i holds a prime and the bits of its cube root, with whole part q.
  predicate PlaceGood(i: nat, j: nat, q: int)
    requires j < 4
  {
    var p := PrimeRow(i)[j];
    0 <= q < 8 && 2 <= p < 529 && Sieved(p) && CubeRootAt(p, KRow(i)[j], q)
  }

  predicate RowGood(i: nat, a: int, b: int, c: int, d: int)
  {
    PlaceGood(i, 0, a) && PlaceGood(i, 1, b) && PlaceGood(i, 2, c) && PlaceGood(i, 3, d)
  }

  lemma Row0()
    ensures RowGood(0, 1, 1, 1, 1)
  {
  }

  lemma Row1()
    ensures RowGood(1, 2, 2, 2, 2)
  {
  }

  lemma Row2()
    ensures RowGood(2, 2, 3, 3, 3)
  {
  }

  lemma Row3()
    ensures RowGood(3, 3, 3, 3, 3)
  {
  }

  lemma Row4()
    ensures RowGood(4, 3, 3, 4, 4)
  {
  }

  lemma Row5()
    ensures RowGood(5, 4, 4, 4, 4)
  {
  }

  lemma Row6()
    ensures RowGood(6, 4, 4, 4, 4)
  {
  }

  lemma Row7()
    ensures RowGood(7, 4, 4, 5, 5)
  {
  }

  lemma Row8()
    ensures RowGood(8, 5, 5, 5, 5)
  {
  }

  lemma Row9()
    ensures RowGood(9, 5, 5, 5, 5)
  {
  }

  lemma Row10()
    ensures RowGood(10, 5, 5, 5, 5)
  {
  }

  lemma Row11()
    ensures RowGood(11, 5, 5, 5, 6)
  {
  }

  lemma Row12()
    ensures RowGood(12, 6, 6, 6, 6)
  {
  }

  lemma Row13()
    ensures RowGood(13, 6, 6, 6, 6)
  {
  }

  lemma Row14()
    ensures RowGood(14, 6, 6, 6, 6)
  {
  }

  lemma Row15()
    ensures RowGood(15, 6, 6, 6, 6)
  {
  }

  lemma Row16()
    ensures RowGood(16, 6, 6, 6, 6)
  {
  }

  lemma Row17()
    ensures RowGood(17, 7, 7, 7, 7)
  {
  }

  lemma Row18()
    ensures RowGood(18, 7, 7, 7, 7)
  {
  }

  lemma Row19()
    ensures RowGood(19, 7, 7, 7, 7)
  {
  }

  // q is the next prime after p: at most fourteen above, and every odd number between has another prime factor.
  predicate NextPrime(p: int, q: int)
  {
    && p < q <= p + 14 && (q == p + 1 || p % 2 == 1)
    && (p + 2 >= q || !Sieved(p + 2)) && (p + 4 >= q || !Sieved(p + 4)) && (p + 6 >= q || !Sieved(p + 6))
    && (p + 8 >= q || !Sieved(p + 8)) && (p + 10 >= q || !Sieved(p + 10)) && (p + 12 >= q || !Sieved(p + 12))
  }

  predicate GapsGood(i: nat)
  {
    && NextPrime(PrimeRow(i)[0], PrimeRow(i)[1]) && NextPrime(PrimeRow(i)[1], PrimeRow(i)[2])
    && NextPrime(PrimeRow(i)[2], PrimeRow(i)[3]) && (i < 19 ==> NextPrime(PrimeRow(i)[3], PrimeRow(i + 1)[0]))
  }

  lemma Gaps0()
    ensures GapsGood(0) && GapsGood(1)
  {
  }

  lemma Gaps2()
    ensures GapsGood(2) && GapsGood(3)
  {
  }

  lemma Gaps4()
    ensures GapsGood(4) && GapsGood(5)
  {
  }

  lemma Gaps6()
    ensures GapsGood(6) && GapsGood(7)
  {
  }

  lemma Gaps8()
    ensures GapsGood(8) && GapsGood(9)
  {
  }

  lemma Gaps10()
    ensures GapsGood(10) && GapsGood(11)
  {
  }

  lemma Gaps12()
    ensures GapsGood(12) && GapsGood(13)
  {
  }

  lemma Gaps14()
    ensures GapsGood(14) && GapsGood(15)
  {
  }

  lemma Gaps16()
    ensures GapsGood(16) && GapsGood(17)
  {
  }

  lemma Gaps18()
    ensures GapsGood(18) && GapsGood(19)
  {
  }

  lemma NotSievedNotPrime(n: int)
    requires n >= 2 && !Sieved(n)
    ensures !Prime(n)
  {
    var d := if n % 2 == 0 && n != 2 then 2 else if n % 3 == 0 && n != 3 then 3 else if n % 5 == 0 && n != 5 then 5
      else if n % 7 == 0 && n != 7 then 7 else if n % 11 == 0 && n != 11 then 11
      else if n % 13 == 0 && n != 13 then 13 else if n % 17 == 0 && n != 17 then 17 else 19;
    assert n % d == 0 && d != n;
    if d > n {
      ModSmall(n, d);
    }
  }

  lemma NoPrimeBetween(p: int, q: int, n: int)
    requires 2 <= p < n < q && NextPrime(p, q)
    ensures !Prime(n)
  {
    hide Sieved, Prime;
    if n % 2 == 0 {
      EvenNotPrime(n);
    } else {
      assert n == p + 2 || n == p + 4 || n == p + 6 || n == p + 8 || n == p + 10 || n == p + 12;
      NotSievedNotPrime(n);
    }
  }

  lemma EvenNotPrime(n: int)
    requires n > 2 && n % 2 == 0
    ensures !Prime(n)
  {
  }

  ghost predicate Good(i: nat) { GapsGood(i) && exists a, b, c, d :: RowGood(i, a, b, c, d) }

  lemma AllGood(i: nat)
    requires i < 20
    ensures Good(i)
  {
    hide RowGood, GapsGood;
    Row0();
    Row1();
    Gaps0();
    Row2();
    Row3();
    Gaps2();
    Row4();
    Row5();
    Gaps4();
    Row6();
    Row7();
    Gaps6();
    Row8();
    Row9();
    Gaps8();
    Row10();
    Row11();
    Gaps10();
    Row12();
    Row13();
    Gaps12();
    Row14();
    Row15();
    Gaps14();
    Row16();
    Row17();
    Gaps16();
    Row18();
    Row19();
    Gaps18();
  }

  lemma PlaceOf(t: nat)
    requires t < 80
    ensures |K| == 80 && CubeRootBits(PrimeAt(t), K[t]) && 2 <= PrimeAt(t) < 529 && Sieved(PrimeAt(t))
    ensures t < 79 ==> NextPrime(PrimeAt(t), PrimeAt(t + 1))
  {
    hide PrimeRow, KRow, CubeRootAt, Sieved, NextPrime;
    AllGood(t / 4);
    KRowsAt(20, t);
  }

  /** The constants are the cube roots of the first eighty primes: PrimeAt counts the primes from 2 on without
      leaving one out, and K[t] is the first 64 bits of the fractional part of the root of the t-th. */
  lemma KIsCubeRoots(t: nat)
    requires t < 80
    ensures |K| == 80 && PrimeAt(0) == 2 && Prime(PrimeAt(t)) && CubeRootBits(PrimeAt(t), K[t])
    ensures t < 79 ==> PrimeAt(t) < PrimeAt(t + 1) && forall n :: PrimeAt(t) < n < PrimeAt(t + 1) ==> !Prime(n)
  {
    hide CubeRootBits, Sieved, NextPrime, Prime, PrimeRow, K;
    PlaceOf(t);
    SievedIsPrime(PrimeAt(t));
    FirstPrime();
    if t < 79 {
      Ascending(PrimeAt(t), PrimeAt(t + 1));
      forall n | PrimeAt(t) < n < PrimeAt(t + 1)
        ensures !Prime(n)
      {
        NoPrimeBetween(PrimeAt(t), PrimeAt(t + 1), n);
      }
    }
  }

  lemma FirstPrime()
    ensures PrimeAt(0) == 2
  {
  }

  lemma Ascending(p: int, q: int)
    requires NextPrime(p, q)
    ensures p < q
  {
  }

  /** The initial words are the square roots of the first eight. */
  lemma H0IsSquareRoots(t: nat)
    requires t < 8
    ensures |H0| == 8 && SquareRootBits(PrimeAt(t), H0[t])
  {
    assert SquareRootAt(2, H0[0], 1);
    assert SquareRootAt(3, H0[1], 1);
    assert SquareRootAt(5, H0[2], 2);
    assert SquareRootAt(7, H0[3], 2);
    assert SquareRootAt(11, H0[4], 3);
    assert SquareRootAt(13, H0[5], 3);
    assert SquareRootAt(17, H0[6], 4);
    assert SquareRootAt(19, H0[7], 4);
  }
}
