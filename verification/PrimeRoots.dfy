/**
 Where the constants of FIPS 180-4 come from: section 4.2.2 takes the fractional
 parts of the cube roots of the first sixty-four primes, section 5.3.3 those of
 the square roots of the first eight.
 */
module PrimeRoots {
  import opened Fips180

  ghost predicate Prime(n: nat) { n >= 2 && forall d :: 2 <= d < n ==> n % d != 0 }

  ghost function PrimesBelow(n: nat): nat {
    if n == 0 then 0 else PrimesBelow(n - 1) + if Prime(n - 1) then 1 else 0
  }

  /** `p` is the prime that comes after `t` others. */
  ghost predicate NthPrime(t: nat, p: nat) { Prime(p) && PrimesBelow(p) == t }

  /** `k` is the first 32 bits of the fractional part of the cube root of `p`. */
  ghost predicate CubeRootBits(k: nat, p: nat) {
    k < 0x1_0000_0000 &&
    exists whole: nat :: CubeRootOf(whole * 0x1_0000_0000 + k, p)
  }

  /** `r` is the whole part of the cube root of `p`, shifted left by 32 bits. */
  predicate CubeRootOf(r: nat, p: nat) {
    r * r * r <= p * 0x1_0000_0000_0000_0000_0000_0000 < (r + 1) * (r + 1) * (r + 1)
  }

  /** The same for the square root. */
  ghost predicate SquareRootBits(h: nat, p: nat) {
    h < 0x1_0000_0000 &&
    exists whole: nat :: SquareRootOf(whole * 0x1_0000_0000 + h, p)
  }

  predicate SquareRootOf(r: nat, p: nat) {
    r * r <= p * 0x1_0000_0000_0000_0000 < (r + 1) * (r + 1)
  }

  // ---- The first sixty-four primes ----------------------------------------

  /** Divisible by one of the first seven primes. */
  predicate Sieved(n: nat) {
    n % 2 == 0 || n % 3 == 0 || n % 5 == 0 || n % 7 == 0 || n % 11 == 0 || n % 13 == 0 || n % 17 == 0
  }

  lemma MultipleOf2(n: nat, h: nat)
    requires n == 2 * h
    ensures Sieved(n)
  {
    assert n % 2 == 0;
  }

  lemma MultipleOf3(n: nat, h: nat)
    requires n == 3 * h
    ensures Sieved(n)
  {
    assert n % 3 == 0;
  }

  lemma MultipleOf5(n: nat, h: nat)
    requires n == 5 * h
    ensures Sieved(n)
  {
    assert n % 5 == 0;
  }

  lemma MultipleOf7(n: nat, h: nat)
    requires n == 7 * h
    ensures Sieved(n)
  {
    assert n % 7 == 0;
  }

  lemma MultipleOf11(n: nat, h: nat)
    requires n == 11 * h
    ensures Sieved(n)
  {
    assert n % 11 == 0;
  }

  lemma MultipleOf13(n: nat, h: nat)
    requires n == 13 * h
    ensures Sieved(n)
  {
    assert n % 13 == 0;
  }

  lemma MultipleOf17(n: nat, h: nat)
    requires n == 17 * h
    ensures Sieved(n)
  {
    assert n % 17 == 0;
  }

  /** A multiple of a number up to 18 is a multiple of a prime up to 17. */
  lemma SmallMultiple(n: nat, f: nat, g: nat)
    requires 2 <= f <= 18 && n == f * g
    ensures Sieved(n)
  {
    hide Sieved;
    match f
    case 2 => MultipleOf2(n, g);
    case 3 => MultipleOf3(n, g);
    case 4 => MultipleOf2(n, 2 * g);
    case 5 => MultipleOf5(n, g);
    case 6 => MultipleOf2(n, 3 * g);
    case 7 => MultipleOf7(n, g);
    case 8 => MultipleOf2(n, 4 * g);
    case 9 => MultipleOf3(n, 3 * g);
    case 10 => MultipleOf2(n, 5 * g);
    case 11 => MultipleOf11(n, g);
    case 12 => MultipleOf2(n, 6 * g);
    case 13 => MultipleOf13(n, g);
    case 14 => MultipleOf2(n, 7 * g);
    case 15 => MultipleOf3(n, 5 * g);
    case 16 => MultipleOf2(n, 8 * g);
    case 17 => MultipleOf17(n, g);
    case _ => MultipleOf2(n, 9 * g);
  }

  lemma ProductAtLeast(d: nat, e: nat, low: nat)
    requires d >= low && e >= low
    ensures d * e >= low * low
  {
    assert d * e == (d - low) * e + low * (e - low) + low * low;
    assert (d - low) * e >= 0 && low * (e - low) >= 0;
  }

  lemma Quotient(n: nat, d: nat)
    requires d > 0 && n % d == 0
    ensures n == d * (n / d)
  {
  }

  /** Between 18 and 19 squared, the sieve leaves exactly the primes. */
  lemma PrimeIfNotSieved(n: nat)
    requires 17 < n < 361
    ensures Prime(n) <==> !Sieved(n)
  {
    if !Prime(n) {
      var d :| 2 <= d < n && n % d == 0;
      var e := n / d;
      Quotient(n, d);
      if d <= 18 {
        SmallMultiple(n, d, e);
      } else {
        if e >= 19 {
          ProductAtLeast(d, e, 19);
          assert false;
        }
        assert e != 0 && e != 1;
        SmallMultiple(n, e, d);
      }
    }
  }

  predicate AllSieved(n: nat, end: nat)
    decreases if n < end then end - n else 0
  {
    n >= end || (Sieved(n) && AllSieved(n + 1, end))
  }

  lemma {:induction false} NoneCounted(n: nat, end: nat)
    requires 17 < n <= end < 361 && AllSieved(n, end)
    ensures PrimesBelow(end) == PrimesBelow(n)
    decreases end - n
  {
    if n < end {
      PrimeIfNotSieved(n);
      NoneCounted(n + 1, end);
    }
  }

  /** From one prime to the next. */
  lemma NextPrime(t: nat, p: nat, q: nat)
    requires NthPrime(t, p) && 17 <= p < q < 361 && AllSieved(p + 1, q) && !Sieved(q)
    ensures NthPrime(t + 1, q)
  {
    PrimeIfNotSieved(q);
    NoneCounted(p + 1, q);
  }

  lemma FirstPrimes()
    ensures NthPrime(0, 2) && NthPrime(1, 3) && NthPrime(2, 5) && NthPrime(3, 7)
    ensures NthPrime(4, 11) && NthPrime(5, 13) && NthPrime(6, 17)
  {
    hide PrimesBelow;
    NotPrime();
    Counted(0);
    Counted(1);
    Counted(2);
    Counted(3);
    Counted(4);
    Counted(5);
    Counted(6);
    Counted(7);
    Counted(8);
    Counted(9);
    Counted(10);
    Counted(11);
    Counted(12);
    Counted(13);
    Counted(14);
    Counted(15);
    Counted(16);
    NoneBelowZero();
    assert Prime(2) && Prime(3) && Prime(5) && Prime(7);
    assert Prime(11) && Prime(13) && Prime(17);
  }

  lemma NotPrime()
    ensures !Prime(0) && !Prime(1) && !Prime(4) && !Prime(6) && !Prime(8) && !Prime(9)
    ensures !Prime(10) && !Prime(12) && !Prime(14) && !Prime(15) && !Prime(16)
  {
    assert 4 % 2 == 0 && 6 % 2 == 0 && 8 % 2 == 0 && 9 % 3 == 0 && 10 % 2 == 0;
    assert 12 % 2 == 0 && 14 % 2 == 0 && 15 % 3 == 0 && 16 % 2 == 0;
  }

  lemma Counted(n: nat)
    ensures PrimesBelow(n + 1) == PrimesBelow(n) + if Prime(n) then 1 else 0
  {
  }

  lemma NoneBelowZero()
    ensures PrimesBelow(0) == 0
  {
  }

  lemma Primes0()
    ensures NthPrime(0, 2) && NthPrime(1, 3) && NthPrime(2, 5) && NthPrime(3, 7)
    ensures NthPrime(4, 11) && NthPrime(5, 13) && NthPrime(6, 17) && NthPrime(7, 19)
  {
    hide Prime, PrimesBelow, NthPrime;
    FirstPrimes();
    assert AllSieved(18, 19);
    NextPrime(6, 17, 19);
  }

  lemma Primes1()
    requires NthPrime(7, 19)
    ensures NthPrime(8, 23) && NthPrime(9, 29) && NthPrime(10, 31) && NthPrime(11, 37)
    ensures NthPrime(12, 41) && NthPrime(13, 43) && NthPrime(14, 47) && NthPrime(15, 53)
  {
    hide Prime, PrimesBelow, NthPrime;
    assert AllSieved(20, 23);
    NextPrime(7, 19, 23);
    assert AllSieved(24, 29);
    NextPrime(8, 23, 29);
    assert AllSieved(30, 31);
    NextPrime(9, 29, 31);
    assert AllSieved(32, 37);
    NextPrime(10, 31, 37);
    assert AllSieved(38, 41);
    NextPrime(11, 37, 41);
    assert AllSieved(42, 43);
    NextPrime(12, 41, 43);
    assert AllSieved(44, 47);
    NextPrime(13, 43, 47);
    assert AllSieved(48, 53);
    NextPrime(14, 47, 53);
  }

  lemma Primes2()
    requires NthPrime(15, 53)
    ensures NthPrime(16, 59) && NthPrime(17, 61) && NthPrime(18, 67) && NthPrime(19, 71)
    ensures NthPrime(20, 73) && NthPrime(21, 79) && NthPrime(22, 83) && NthPrime(23, 89)
  {
    hide Prime, PrimesBelow, NthPrime;
    assert AllSieved(54, 59);
    NextPrime(15, 53, 59);
    assert AllSieved(60, 61);
    NextPrime(16, 59, 61);
    assert AllSieved(62, 67);
    NextPrime(17, 61, 67);
    assert AllSieved(68, 71);
    NextPrime(18, 67, 71);
    assert AllSieved(72, 73);
    NextPrime(19, 71, 73);
    assert AllSieved(74, 79);
    NextPrime(20, 73, 79);
    assert AllSieved(80, 83);
    NextPrime(21, 79, 83);
    assert AllSieved(84, 89);
    NextPrime(22, 83, 89);
  }

  lemma Primes3()
    requires NthPrime(23, 89)
    ensures NthPrime(24, 97) && NthPrime(25, 101) && NthPrime(26, 103) && NthPrime(27, 107)
    ensures NthPrime(28, 109) && NthPrime(29, 113) && NthPrime(30, 127) && NthPrime(31, 131)
  {
    hide Prime, PrimesBelow, NthPrime;
    assert AllSieved(90, 97);
    NextPrime(23, 89, 97);
    assert AllSieved(98, 101);
    NextPrime(24, 97, 101);
    assert AllSieved(102, 103);
    NextPrime(25, 101, 103);
    assert AllSieved(104, 107);
    NextPrime(26, 103, 107);
    assert AllSieved(108, 109);
    NextPrime(27, 107, 109);
    assert AllSieved(110, 113);
    NextPrime(28, 109, 113);
    assert AllSieved(114, 127);
    NextPrime(29, 113, 127);
    assert AllSieved(128, 131);
    NextPrime(30, 127, 131);
  }

  lemma Primes4()
    requires NthPrime(31, 131)
    ensures NthPrime(32, 137) && NthPrime(33, 139) && NthPrime(34, 149) && NthPrime(35, 151)
    ensures NthPrime(36, 157) && NthPrime(37, 163) && NthPrime(38, 167) && NthPrime(39, 173)
  {
    hide Prime, PrimesBelow, NthPrime;
    assert AllSieved(132, 137);
    NextPrime(31, 131, 137);
    assert AllSieved(138, 139);
    NextPrime(32, 137, 139);
    assert AllSieved(140, 149);
    NextPrime(33, 139, 149);
    assert AllSieved(150, 151);
    NextPrime(34, 149, 151);
    assert AllSieved(152, 157);
    NextPrime(35, 151, 157);
    assert AllSieved(158, 163);
    NextPrime(36, 157, 163);
    assert AllSieved(164, 167);
    NextPrime(37, 163, 167);
    assert AllSieved(168, 173);
    NextPrime(38, 167, 173);
  }

  lemma Primes5()
    requires NthPrime(39, 173)
    ensures NthPrime(40, 179) && NthPrime(41, 181) && NthPrime(42, 191) && NthPrime(43, 193)
    ensures NthPrime(44, 197) && NthPrime(45, 199) && NthPrime(46, 211) && NthPrime(47, 223)
  {
    hide Prime, PrimesBelow, NthPrime;
    assert AllSieved(174, 179);
    NextPrime(39, 173, 179);
    assert AllSieved(180, 181);
    NextPrime(40, 179, 181);
    assert AllSieved(182, 191);
    NextPrime(41, 181, 191);
    assert AllSieved(192, 193);
    NextPrime(42, 191, 193);
    assert AllSieved(194, 197);
    NextPrime(43, 193, 197);
    assert AllSieved(198, 199);
    NextPrime(44, 197, 199);
    assert AllSieved(200, 211);
    NextPrime(45, 199, 211);
    assert AllSieved(212, 223);
    NextPrime(46, 211, 223);
  }

  lemma Primes6()
    requires NthPrime(47, 223)
    ensures NthPrime(48, 227) && NthPrime(49, 229) && NthPrime(50, 233) && NthPrime(51, 239)
    ensures NthPrime(52, 241) && NthPrime(53, 251) && NthPrime(54, 257) && NthPrime(55, 263)
  {
    hide Prime, PrimesBelow, NthPrime;
    assert AllSieved(224, 227);
    NextPrime(47, 223, 227);
    assert AllSieved(228, 229);
    NextPrime(48, 227, 229);
    assert AllSieved(230, 233);
    NextPrime(49, 229, 233);
    assert AllSieved(234, 239);
    NextPrime(50, 233, 239);
    assert AllSieved(240, 241);
    NextPrime(51, 239, 241);
    assert AllSieved(242, 251);
    NextPrime(52, 241, 251);
    assert AllSieved(252, 257);
    NextPrime(53, 251, 257);
    assert AllSieved(258, 263);
    NextPrime(54, 257, 263);
  }

  lemma Primes7()
    requires NthPrime(55, 263)
    ensures NthPrime(56, 269) && NthPrime(57, 271) && NthPrime(58, 277) && NthPrime(59, 281)
    ensures NthPrime(60, 283) && NthPrime(61, 293) && NthPrime(62, 307) && NthPrime(63, 311)
  {
    hide Prime, PrimesBelow, NthPrime;
    assert AllSieved(264, 269);
    NextPrime(55, 263, 269);
    assert AllSieved(270, 271);
    NextPrime(56, 269, 271);
    assert AllSieved(272, 277);
    NextPrime(57, 271, 277);
    assert AllSieved(278, 281);
    NextPrime(58, 277, 281);
    assert AllSieved(282, 283);
    NextPrime(59, 281, 283);
    assert AllSieved(284, 293);
    NextPrime(60, 283, 293);
    assert AllSieved(294, 307);
    NextPrime(61, 293, 307);
    assert AllSieved(308, 311);
    NextPrime(62, 307, 311);
  }

  // ---- The constants ------------------------------------------------------

  /** A row of the constants comes from these primes. */
  ghost predicate RowOf(i: nat, primes: seq<nat>)
    requires i < 8
  {
    |primes| == 8 && forall j :: 0 <= j < 8 ==> NthPrime(8 * i + j, primes[j]) && CubeRootBits(Row(i)[j] as nat, primes[j])
  }

  lemma CubeRootWord(w: Word, whole: nat, p: nat)
    requires CubeRootOf(whole * 0x1_0000_0000 + w as nat, p)
    ensures CubeRootBits(w as nat, p)
  {
  }

  lemma SquareRootWord(w: Word, whole: nat, p: nat)
    requires SquareRootOf(whole * 0x1_0000_0000 + w as nat, p)
    ensures SquareRootBits(w as nat, p)
  {
  }

  lemma Roots0()
    ensures CubeRootBits((0x428a2f98 as Word) as nat, 2)
    ensures CubeRootBits((0x71374491 as Word) as nat, 3)
    ensures CubeRootBits((0xb5c0fbcf as Word) as nat, 5)
    ensures CubeRootBits((0xe9b5dba5 as Word) as nat, 7)
    ensures CubeRootBits((0x3956c25b as Word) as nat, 11)
    ensures CubeRootBits((0x59f111f1 as Word) as nat, 13)
    ensures CubeRootBits((0x923f82a4 as Word) as nat, 17)
    ensures CubeRootBits((0xab1c5ed5 as Word) as nat, 19)
  {
    hide CubeRootBits;
    CubeRootWord(0x428a2f98, 1, 2);
    CubeRootWord(0x71374491, 1, 3);
    CubeRootWord(0xb5c0fbcf, 1, 5);
    CubeRootWord(0xe9b5dba5, 1, 7);
    CubeRootWord(0x3956c25b, 2, 11);
    CubeRootWord(0x59f111f1, 2, 13);
    CubeRootWord(0x923f82a4, 2, 17);
    CubeRootWord(0xab1c5ed5, 2, 19);
  }

  lemma Roots1()
    ensures CubeRootBits((0xd807aa98 as Word) as nat, 23)
    ensures CubeRootBits((0x12835b01 as Word) as nat, 29)
    ensures CubeRootBits((0x243185be as Word) as nat, 31)
    ensures CubeRootBits((0x550c7dc3 as Word) as nat, 37)
    ensures CubeRootBits((0x72be5d74 as Word) as nat, 41)
    ensures CubeRootBits((0x80deb1fe as Word) as nat, 43)
    ensures CubeRootBits((0x9bdc06a7 as Word) as nat, 47)
    ensures CubeRootBits((0xc19bf174 as Word) as nat, 53)
  {
    hide CubeRootBits;
    CubeRootWord(0xd807aa98, 2, 23);
    CubeRootWord(0x12835b01, 3, 29);
    CubeRootWord(0x243185be, 3, 31);
    CubeRootWord(0x550c7dc3, 3, 37);
    CubeRootWord(0x72be5d74, 3, 41);
    CubeRootWord(0x80deb1fe, 3, 43);
    CubeRootWord(0x9bdc06a7, 3, 47);
    CubeRootWord(0xc19bf174, 3, 53);
  }

  lemma Roots2()
    ensures CubeRootBits((0xe49b69c1 as Word) as nat, 59)
    ensures CubeRootBits((0xefbe4786 as Word) as nat, 61)
    ensures CubeRootBits((0x0fc19dc6 as Word) as nat, 67)
    ensures CubeRootBits((0x240ca1cc as Word) as nat, 71)
    ensures CubeRootBits((0x2de92c6f as Word) as nat, 73)
    ensures CubeRootBits((0x4a7484aa as Word) as nat, 79)
    ensures CubeRootBits((0x5cb0a9dc as Word) as nat, 83)
    ensures CubeRootBits((0x76f988da as Word) as nat, 89)
  {
    hide CubeRootBits;
    CubeRootWord(0xe49b69c1, 3, 59);
    CubeRootWord(0xefbe4786, 3, 61);
    CubeRootWord(0x0fc19dc6, 4, 67);
    CubeRootWord(0x240ca1cc, 4, 71);
    CubeRootWord(0x2de92c6f, 4, 73);
    CubeRootWord(0x4a7484aa, 4, 79);
    CubeRootWord(0x5cb0a9dc, 4, 83);
    CubeRootWord(0x76f988da, 4, 89);
  }

  lemma Roots3()
    ensures CubeRootBits((0x983e5152 as Word) as nat, 97)
    ensures CubeRootBits((0xa831c66d as Word) as nat, 101)
    ensures CubeRootBits((0xb00327c8 as Word) as nat, 103)
    ensures CubeRootBits((0xbf597fc7 as Word) as nat, 107)
    ensures CubeRootBits((0xc6e00bf3 as Word) as nat, 109)
    ensures CubeRootBits((0xd5a79147 as Word) as nat, 113)
    ensures CubeRootBits((0x06ca6351 as Word) as nat, 127)
    ensures CubeRootBits((0x14292967 as Word) as nat, 131)
  {
    hide CubeRootBits;
    CubeRootWord(0x983e5152, 4, 97);
    CubeRootWord(0xa831c66d, 4, 101);
    CubeRootWord(0xb00327c8, 4, 103);
    CubeRootWord(0xbf597fc7, 4, 107);
    CubeRootWord(0xc6e00bf3, 4, 109);
    CubeRootWord(0xd5a79147, 4, 113);
    CubeRootWord(0x06ca6351, 5, 127);
    CubeRootWord(0x14292967, 5, 131);
  }

  lemma Roots4()
    ensures CubeRootBits((0x27b70a85 as Word) as nat, 137)
    ensures CubeRootBits((0x2e1b2138 as Word) as nat, 139)
    ensures CubeRootBits((0x4d2c6dfc as Word) as nat, 149)
    ensures CubeRootBits((0x53380d13 as Word) as nat, 151)
    ensures CubeRootBits((0x650a7354 as Word) as nat, 157)
    ensures CubeRootBits((0x766a0abb as Word) as nat, 163)
    ensures CubeRootBits((0x81c2c92e as Word) as nat, 167)
    ensures CubeRootBits((0x92722c85 as Word) as nat, 173)
  {
    hide CubeRootBits;
    CubeRootWord(0x27b70a85, 5, 137);
    CubeRootWord(0x2e1b2138, 5, 139);
    CubeRootWord(0x4d2c6dfc, 5, 149);
    CubeRootWord(0x53380d13, 5, 151);
    CubeRootWord(0x650a7354, 5, 157);
    CubeRootWord(0x766a0abb, 5, 163);
    CubeRootWord(0x81c2c92e, 5, 167);
    CubeRootWord(0x92722c85, 5, 173);
  }

  lemma Roots5()
    ensures CubeRootBits((0xa2bfe8a1 as Word) as nat, 179)
    ensures CubeRootBits((0xa81a664b as Word) as nat, 181)
    ensures CubeRootBits((0xc24b8b70 as Word) as nat, 191)
    ensures CubeRootBits((0xc76c51a3 as Word) as nat, 193)
    ensures CubeRootBits((0xd192e819 as Word) as nat, 197)
    ensures CubeRootBits((0xd6990624 as Word) as nat, 199)
    ensures CubeRootBits((0xf40e3585 as Word) as nat, 211)
    ensures CubeRootBits((0x106aa070 as Word) as nat, 223)
  {
    hide CubeRootBits;
    CubeRootWord(0xa2bfe8a1, 5, 179);
    CubeRootWord(0xa81a664b, 5, 181);
    CubeRootWord(0xc24b8b70, 5, 191);
    CubeRootWord(0xc76c51a3, 5, 193);
    CubeRootWord(0xd192e819, 5, 197);
    CubeRootWord(0xd6990624, 5, 199);
    CubeRootWord(0xf40e3585, 5, 211);
    CubeRootWord(0x106aa070, 6, 223);
  }

  lemma Roots6()
    ensures CubeRootBits((0x19a4c116 as Word) as nat, 227)
    ensures CubeRootBits((0x1e376c08 as Word) as nat, 229)
    ensures CubeRootBits((0x2748774c as Word) as nat, 233)
    ensures CubeRootBits((0x34b0bcb5 as Word) as nat, 239)
    ensures CubeRootBits((0x391c0cb3 as Word) as nat, 241)
    ensures CubeRootBits((0x4ed8aa4a as Word) as nat, 251)
    ensures CubeRootBits((0x5b9cca4f as Word) as nat, 257)
    ensures CubeRootBits((0x682e6ff3 as Word) as nat, 263)
  {
    hide CubeRootBits;
    CubeRootWord(0x19a4c116, 6, 227);
    CubeRootWord(0x1e376c08, 6, 229);
    CubeRootWord(0x2748774c, 6, 233);
    CubeRootWord(0x34b0bcb5, 6, 239);
    CubeRootWord(0x391c0cb3, 6, 241);
    CubeRootWord(0x4ed8aa4a, 6, 251);
    CubeRootWord(0x5b9cca4f, 6, 257);
    CubeRootWord(0x682e6ff3, 6, 263);
  }

  lemma Roots7()
    ensures CubeRootBits((0x748f82ee as Word) as nat, 269)
    ensures CubeRootBits((0x78a5636f as Word) as nat, 271)
    ensures CubeRootBits((0x84c87814 as Word) as nat, 277)
    ensures CubeRootBits((0x8cc70208 as Word) as nat, 281)
    ensures CubeRootBits((0x90befffa as Word) as nat, 283)
    ensures CubeRootBits((0xa4506ceb as Word) as nat, 293)
    ensures CubeRootBits((0xbef9a3f7 as Word) as nat, 307)
    ensures CubeRootBits((0xc67178f2 as Word) as nat, 311)
  {
    hide CubeRootBits;
    CubeRootWord(0x748f82ee, 6, 269);
    CubeRootWord(0x78a5636f, 6, 271);
    CubeRootWord(0x84c87814, 6, 277);
    CubeRootWord(0x8cc70208, 6, 281);
    CubeRootWord(0x90befffa, 6, 283);
    CubeRootWord(0xa4506ceb, 6, 293);
    CubeRootWord(0xbef9a3f7, 6, 307);
    CubeRootWord(0xc67178f2, 6, 311);
  }

  lemma Row0()
    ensures RowOf(0, [2, 3, 5, 7, 11, 13, 17, 19]) && NthPrime(7, 19)
  {
    hide CubeRootBits, NthPrime;
    Primes0();
    Roots0();
  }

  lemma Row1()
    requires NthPrime(7, 19)
    ensures RowOf(1, [23, 29, 31, 37, 41, 43, 47, 53]) && NthPrime(15, 53)
  {
    hide CubeRootBits, NthPrime;
    Primes1();
    Roots1();
  }

  lemma Row2()
    requires NthPrime(15, 53)
    ensures RowOf(2, [59, 61, 67, 71, 73, 79, 83, 89]) && NthPrime(23, 89)
  {
    hide CubeRootBits, NthPrime;
    Primes2();
    Roots2();
  }

  lemma Row3()
    requires NthPrime(23, 89)
    ensures RowOf(3, [97, 101, 103, 107, 109, 113, 127, 131]) && NthPrime(31, 131)
  {
    hide CubeRootBits, NthPrime;
    Primes3();
    Roots3();
  }

  lemma Row4()
    requires NthPrime(31, 131)
    ensures RowOf(4, [137, 139, 149, 151, 157, 163, 167, 173]) && NthPrime(39, 173)
  {
    hide CubeRootBits, NthPrime;
    Primes4();
    Roots4();
  }

  lemma Row5()
    requires NthPrime(39, 173)
    ensures RowOf(5, [179, 181, 191, 193, 197, 199, 211, 223]) && NthPrime(47, 223)
  {
    hide CubeRootBits, NthPrime;
    Primes5();
    Roots5();
  }

  lemma Row6()
    requires NthPrime(47, 223)
    ensures RowOf(6, [227, 229, 233, 239, 241, 251, 257, 263]) && NthPrime(55, 263)
  {
    hide CubeRootBits, NthPrime;
    Primes6();
    Roots6();
  }

  lemma Row7()
    requires NthPrime(55, 263)
    ensures RowOf(7, [269, 271, 277, 281, 283, 293, 307, 311]) && NthPrime(63, 311)
  {
    hide CubeRootBits, NthPrime;
    Primes7();
    Roots7();
  }

  /** Every round constant is the first 32 bits of the fractional part of the cube root of its prime. */
  lemma ConstantsAreCubeRoots(t: nat) returns (p: nat)
    requires t < 64
    ensures NthPrime(t, p) && CubeRootBits(RoundConstant(t) as nat, p)
  {
    hide CubeRootBits, NthPrime, Row;
    Row0();
    Row1();
    Row2();
    Row3();
    Row4();
    Row5();
    Row6();
    Row7();
    match t / 8
    case 0 => p := [2, 3, 5, 7, 11, 13, 17, 19][t % 8];
    case 1 => p := [23, 29, 31, 37, 41, 43, 47, 53][t % 8];
    case 2 => p := [59, 61, 67, 71, 73, 79, 83, 89][t % 8];
    case 3 => p := [97, 101, 103, 107, 109, 113, 127, 131][t % 8];
    case 4 => p := [137, 139, 149, 151, 157, 163, 167, 173][t % 8];
    case 5 => p := [179, 181, 191, 193, 197, 199, 211, 223][t % 8];
    case 6 => p := [227, 229, 233, 239, 241, 251, 257, 263][t % 8];
    case _ => p := [269, 271, 277, 281, 283, 293, 307, 311][t % 8];
  }

  /** The initial hash value is the same of the square roots of the first eight primes. */
  lemma InitialAreSquareRoots()
    ensures SquareRootBits(INITIAL.a as nat, 2)
    ensures SquareRootBits(INITIAL.b as nat, 3)
    ensures SquareRootBits(INITIAL.c as nat, 5)
    ensures SquareRootBits(INITIAL.d as nat, 7)
    ensures SquareRootBits(INITIAL.e as nat, 11)
    ensures SquareRootBits(INITIAL.f as nat, 13)
    ensures SquareRootBits(INITIAL.g as nat, 17)
    ensures SquareRootBits(INITIAL.h as nat, 19)
    ensures NthPrime(0, 2)
    ensures NthPrime(1, 3)
    ensures NthPrime(2, 5)
    ensures NthPrime(3, 7)
    ensures NthPrime(4, 11)
    ensures NthPrime(5, 13)
    ensures NthPrime(6, 17)
    ensures NthPrime(7, 19)
  {
    hide SquareRootBits, NthPrime;
    Primes0();
    SquareRootWord(INITIAL.a, 1, 2);
    SquareRootWord(INITIAL.b, 1, 3);
    SquareRootWord(INITIAL.c, 2, 5);
    SquareRootWord(INITIAL.d, 2, 7);
    SquareRootWord(INITIAL.e, 3, 11);
    SquareRootWord(INITIAL.f, 3, 13);
    SquareRootWord(INITIAL.g, 4, 17);
    SquareRootWord(INITIAL.h, 4, 19);
  }
}
