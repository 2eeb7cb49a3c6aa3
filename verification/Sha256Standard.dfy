/**
  What the constants and the bit functions of the hash are, from the text of FIPS 180-4: fractional
  parts of roots of the first primes, rotation, choice, majority, and big-endian words.
 */
module Sha256Standard {
  import opened Words
  import opened Sha256
  import opened WordBits

  // ---- primes ----

  ghost predicate IsPrime(n: nat) {
    2 <= n && forall d | 2 <= d < n :: n % d != 0
  }

  /** No prime whose square is at most n divides n; good for n below 19 * 19. */
  predicate Undivided(n: nat) {
    && (4 <= n ==> n % 2 != 0) && (9 <= n ==> n % 3 != 0) && (25 <= n ==> n % 5 != 0) && (49 <= n ==> n % 7 != 0)
    && (121 <= n ==> n % 11 != 0) && (169 <= n ==> n % 13 != 0) && (289 <= n ==> n % 17 != 0)
  }

  lemma DividesThrough(d: nat, p: nat, n: nat)
    requires d > 0 && p > 0 && d % p == 0 && n % d == 0
    ensures n % p == 0
  {
    var a, b := n / d, d / p;
    assert n == (a * b) * p + 0;
    RemainderUnique(n, p, a * b, 0);
  }

  /** Of two factors one is at most the root. */
  lemma SmallFactor(n: nat, d: nat) returns (e: nat)
    requires n < 361 && 2 <= d < n && n % d == 0
    ensures 2 <= e < 19 && e * e <= n && n % e == 0
  {
    var q := n / d;
    assert n == d * q;
    assert q >= 2;
    e := if d <= q then d else q;
    if d <= q {
      MulOrder(d, q, d);
    } else {
      MulOrder(q, d, q);
      RemainderUnique(n, q, d, 0);
    }
    if e >= 19 {
      MulOrder(19, e, 19);
      MulOrder(19, e, e);
    }
  }

  lemma TrialDivision(n: nat)
    requires 2 <= n < 361
    ensures IsPrime(n) <==> Undivided(n)
  {
    if d :| 2 <= d < n && n % d == 0 {
      var e := SmallFactor(n, d);
      var p := if e % 2 == 0 then 2 else if e % 3 == 0 then 3 else e;
      assert e % p == 0 && p in {2, 3, 5, 7, 11, 13, 17};
      DividesThrough(e, p, n);
      MulOrder(p, e, p);
      MulOrder(p, e, e);
      assert !Undivided(n);
    }
  }

  predicate Ascending(ps: seq<nat>) {
    forall i, j | 0 <= i < j < |ps| :: ps[i] < ps[j]
  }

  /** The primes above lo, up to hi, in order. */
  ghost predicate PrimesIn(lo: nat, ps: seq<nat>, hi: nat) {
    && lo <= hi && Ascending(ps)
    && (forall p | p in ps :: lo < p <= hi)
    && (forall n: nat | lo < n <= hi :: IsPrime(n) <==> n in ps)
  }

  lemma MorePrimes(lo: nat, ps: seq<nat>, mid: nat, qs: seq<nat>, hi: nat)
    requires PrimesIn(lo, ps, mid) && PrimesIn(mid, qs, hi)
    ensures PrimesIn(lo, ps + qs, hi)
  {
    hide IsPrime;
    forall i, j | 0 <= i < j < |ps + qs|
      ensures (ps + qs)[i] < (ps + qs)[j]
    {
      assert i < |ps| ==> (ps + qs)[i] in ps;
      assert j >= |ps| ==> (ps + qs)[j] in qs;
    }
    assert forall n :: n in ps + qs <==> n in ps || n in qs;
  }

  // ---- roots ----

  function Square(q: nat): nat {
    q * q
  }

  function Cube(q: nat): nat {
    q * q * q
  }

  /** The first 32 bits of the fractional part of the square root of p. */
  ghost predicate SquareRootWord(p: nat, x: bv32) {
    exists q: nat :: Square(q) <= p * 0x1_0000_0000_0000_0000 < Square(q + 1) && x as int == q % 0x1_0000_0000
  }

  /** The first 32 bits of the fractional part of the cube root of p. */
  ghost predicate CubeRootWord(p: nat, x: bv32) {
    exists q: nat ::
      && Cube(q) <= p * 0x1_0000_0000_0000_0000_0000_0000 < Cube(q + 1)
      && x as int == q % 0x1_0000_0000
  }

  ghost predicate CubeRoots(ps: seq<nat>, ks: seq<bv32>) {
    |ps| == |ks| && forall t | 0 <= t < |ps| :: CubeRootWord(ps[t], ks[t])
  }

  lemma MoreRoots(ps: seq<nat>, ks: seq<bv32>, qs: seq<nat>, ls: seq<bv32>)
    requires CubeRoots(ps, ks) && CubeRoots(qs, ls)
    ensures CubeRoots(ps + qs, ks + ls)
  {
    hide CubeRootWord;
    forall t | 0 <= t < |ps + qs|
      ensures CubeRootWord((ps + qs)[t], (ks + ls)[t])
    {
      if t < |ps| {
        assert CubeRootWord(ps[t], ks[t]);
      } else {
        assert CubeRootWord(qs[t - |ps|], ls[t - |ps|]);
      }
    }
  }

  const P0: seq<nat> := [2, 3, 5, 7, 11, 13, 17, 19]
  const P1: seq<nat> := [23, 29, 31, 37, 41, 43, 47, 53]
  const P2: seq<nat> := [59, 61, 67, 71, 73, 79, 83, 89]
  const P3: seq<nat> := [97, 101, 103, 107, 109, 113, 127, 131]
  const P4: seq<nat> := [137, 139, 149, 151, 157, 163, 167, 173]
  const P5: seq<nat> := [179, 181, 191, 193, 197, 199, 211, 223]
  const P6: seq<nat> := [227, 229, 233, 239, 241, 251, 257, 263]
  const P7: seq<nat> := [269, 271, 277, 281, 283, 293, 307, 311]

  const PRIMES: seq<nat> := P0 + P1 + P2 + P3 + P4 + P5 + P6 + P7

  lemma Primes0()
    ensures PrimesIn(1, P0, 19)
  {
    hide IsPrime, Undivided;
    forall n: nat | 1 < n <= 19
      ensures IsPrime(n) <==> n in P0
    {
      TrialDivision(n);
      Sieve0(n);
    }
  }

  lemma Sieve0(n: nat)
    requires 1 < n <= 19
    ensures Undivided(n) <==> n in P0
  {
  }

  lemma Primes1()
    ensures PrimesIn(19, P1, 53)
  {
    hide IsPrime, Undivided;
    forall n: nat | 19 < n <= 53
      ensures IsPrime(n) <==> n in P1
    {
      TrialDivision(n);
      Sieve1(n);
    }
  }

  lemma Sieve1(n: nat)
    requires 19 < n <= 53
    ensures Undivided(n) <==> n in P1
  {
    if n % 2 != 0 && n % 3 != 0 {
      assert n in {23, 25, 29, 31, 35, 37, 41, 43, 47, 49, 53};
    }
  }

  lemma Primes2()
    ensures PrimesIn(53, P2, 89)
  {
    hide IsPrime, Undivided;
    forall n: nat | 53 < n <= 89
      ensures IsPrime(n) <==> n in P2
    {
      TrialDivision(n);
      Sieve2(n);
    }
  }

  lemma Sieve2(n: nat)
    requires 53 < n <= 89
    ensures Undivided(n) <==> n in P2
  {
    if n % 2 != 0 && n % 3 != 0 {
      assert n in {55, 59, 61, 65, 67, 71, 73, 77, 79, 83, 85, 89};
    }
  }

  lemma Primes3()
    ensures PrimesIn(89, P3, 131)
  {
    hide IsPrime, Undivided;
    forall n: nat | 89 < n <= 131
      ensures IsPrime(n) <==> n in P3
    {
      TrialDivision(n);
      Sieve3(n);
    }
  }

  lemma Sieve3(n: nat)
    requires 89 < n <= 131
    ensures Undivided(n) <==> n in P3
  {
    if n % 2 != 0 && n % 3 != 0 {
      assert n in {91, 95, 97, 101, 103, 107, 109, 113, 115, 119, 121, 125, 127, 131};
    }
  }

  lemma Primes4()
    ensures PrimesIn(131, P4, 173)
  {
    hide IsPrime, Undivided;
    forall n: nat | 131 < n <= 173
      ensures IsPrime(n) <==> n in P4
    {
      TrialDivision(n);
      Sieve4(n);
    }
  }

  lemma Sieve4(n: nat)
    requires 131 < n <= 173
    ensures Undivided(n) <==> n in P4
  {
    if n % 2 != 0 && n % 3 != 0 {
      assert n in {133, 137, 139, 143, 145, 149, 151, 155, 157, 161, 163, 167, 169, 173};
    }
  }

  lemma Primes5()
    ensures PrimesIn(173, P5, 223)
  {
    hide IsPrime, Undivided;
    forall n: nat | 173 < n <= 223
      ensures IsPrime(n) <==> n in P5
    {
      TrialDivision(n);
      Sieve5(n);
    }
  }

  lemma Sieve5(n: nat)
    requires 173 < n <= 223
    ensures Undivided(n) <==> n in P5
  {
    if n % 2 != 0 && n % 3 != 0 {
      assert n in {175, 179, 181, 185, 187, 191, 193, 197, 199, 203, 205, 209, 211, 215, 217, 221, 223};
    }
  }

  lemma Primes6()
    ensures PrimesIn(223, P6, 263)
  {
    hide IsPrime, Undivided;
    forall n: nat | 223 < n <= 263
      ensures IsPrime(n) <==> n in P6
    {
      TrialDivision(n);
      Sieve6(n);
    }
  }

  lemma Sieve6(n: nat)
    requires 223 < n <= 263
    ensures Undivided(n) <==> n in P6
  {
    if n % 2 != 0 && n % 3 != 0 {
      assert n in {227, 229, 233, 235, 239, 241, 245, 247, 251, 253, 257, 259, 263};
    }
  }

  lemma Primes7()
    ensures PrimesIn(263, P7, 311)
  {
    hide IsPrime, Undivided;
    forall n: nat | 263 < n <= 311
      ensures IsPrime(n) <==> n in P7
    {
      TrialDivision(n);
      Sieve7(n);
    }
  }

  lemma Sieve7(n: nat)
    requires 263 < n <= 311
    ensures Undivided(n) <==> n in P7
  {
    if n % 2 != 0 && n % 3 != 0 {
      assert n in {265, 269, 271, 275, 277, 281, 283, 287, 289, 293, 295, 299, 301, 305, 307, 311};
    }
  }

  lemma Roots0()
    ensures CubeRoots(P0, K0)
  {
    hide CubeRootWord;
    CubeRootIs(2, 0x1_428a2f98, 0x428a2f98);
    CubeRootIs(3, 0x1_71374491, 0x71374491);
    CubeRootIs(5, 0x1_b5c0fbcf, 0xb5c0fbcf);
    CubeRootIs(7, 0x1_e9b5dba5, 0xe9b5dba5);
    CubeRootIs(11, 0x2_3956c25b, 0x3956c25b);
    CubeRootIs(13, 0x2_59f111f1, 0x59f111f1);
    CubeRootIs(17, 0x2_923f82a4, 0x923f82a4);
    CubeRootIs(19, 0x2_ab1c5ed5, 0xab1c5ed5);
  }

  lemma Roots1()
    ensures CubeRoots(P1, K1)
  {
    hide CubeRootWord;
    CubeRootIs(23, 0x2_d807aa98, 0xd807aa98);
    CubeRootIs(29, 0x3_12835b01, 0x12835b01);
    CubeRootIs(31, 0x3_243185be, 0x243185be);
    CubeRootIs(37, 0x3_550c7dc3, 0x550c7dc3);
    CubeRootIs(41, 0x3_72be5d74, 0x72be5d74);
    CubeRootIs(43, 0x3_80deb1fe, 0x80deb1fe);
    CubeRootIs(47, 0x3_9bdc06a7, 0x9bdc06a7);
    CubeRootIs(53, 0x3_c19bf174, 0xc19bf174);
  }

  lemma Roots2()
    ensures CubeRoots(P2, K2)
  {
    hide CubeRootWord;
    CubeRootIs(59, 0x3_e49b69c1, 0xe49b69c1);
    CubeRootIs(61, 0x3_efbe4786, 0xefbe4786);
    CubeRootIs(67, 0x4_0fc19dc6, 0x0fc19dc6);
    CubeRootIs(71, 0x4_240ca1cc, 0x240ca1cc);
    CubeRootIs(73, 0x4_2de92c6f, 0x2de92c6f);
    CubeRootIs(79, 0x4_4a7484aa, 0x4a7484aa);
    CubeRootIs(83, 0x4_5cb0a9dc, 0x5cb0a9dc);
    CubeRootIs(89, 0x4_76f988da, 0x76f988da);
  }

  lemma Roots3()
    ensures CubeRoots(P3, K3)
  {
    hide CubeRootWord;
    CubeRootIs(97, 0x4_983e5152, 0x983e5152);
    CubeRootIs(101, 0x4_a831c66d, 0xa831c66d);
    CubeRootIs(103, 0x4_b00327c8, 0xb00327c8);
    CubeRootIs(107, 0x4_bf597fc7, 0xbf597fc7);
    CubeRootIs(109, 0x4_c6e00bf3, 0xc6e00bf3);
    CubeRootIs(113, 0x4_d5a79147, 0xd5a79147);
    CubeRootIs(127, 0x5_06ca6351, 0x06ca6351);
    CubeRootIs(131, 0x5_14292967, 0x14292967);
  }

  lemma Roots4()
    ensures CubeRoots(P4, K4)
  {
    hide CubeRootWord;
    CubeRootIs(137, 0x5_27b70a85, 0x27b70a85);
    CubeRootIs(139, 0x5_2e1b2138, 0x2e1b2138);
    CubeRootIs(149, 0x5_4d2c6dfc, 0x4d2c6dfc);
    CubeRootIs(151, 0x5_53380d13, 0x53380d13);
    CubeRootIs(157, 0x5_650a7354, 0x650a7354);
    CubeRootIs(163, 0x5_766a0abb, 0x766a0abb);
    CubeRootIs(167, 0x5_81c2c92e, 0x81c2c92e);
    CubeRootIs(173, 0x5_92722c85, 0x92722c85);
  }

  lemma Roots5()
    ensures CubeRoots(P5, K5)
  {
    hide CubeRootWord;
    CubeRootIs(179, 0x5_a2bfe8a1, 0xa2bfe8a1);
    CubeRootIs(181, 0x5_a81a664b, 0xa81a664b);
    CubeRootIs(191, 0x5_c24b8b70, 0xc24b8b70);
    CubeRootIs(193, 0x5_c76c51a3, 0xc76c51a3);
    CubeRootIs(197, 0x5_d192e819, 0xd192e819);
    CubeRootIs(199, 0x5_d6990624, 0xd6990624);
    CubeRootIs(211, 0x5_f40e3585, 0xf40e3585);
    CubeRootIs(223, 0x6_106aa070, 0x106aa070);
  }

  lemma Roots6()
    ensures CubeRoots(P6, K6)
  {
    hide CubeRootWord;
    CubeRootIs(227, 0x6_19a4c116, 0x19a4c116);
    CubeRootIs(229, 0x6_1e376c08, 0x1e376c08);
    CubeRootIs(233, 0x6_2748774c, 0x2748774c);
    CubeRootIs(239, 0x6_34b0bcb5, 0x34b0bcb5);
    CubeRootIs(241, 0x6_391c0cb3, 0x391c0cb3);
    CubeRootIs(251, 0x6_4ed8aa4a, 0x4ed8aa4a);
    CubeRootIs(257, 0x6_5b9cca4f, 0x5b9cca4f);
    CubeRootIs(263, 0x6_682e6ff3, 0x682e6ff3);
  }

  lemma Roots7()
    ensures CubeRoots(P7, K7)
  {
    hide CubeRootWord;
    CubeRootIs(269, 0x6_748f82ee, 0x748f82ee);
    CubeRootIs(271, 0x6_78a5636f, 0x78a5636f);
    CubeRootIs(277, 0x6_84c87814, 0x84c87814);
    CubeRootIs(281, 0x6_8cc70208, 0x8cc70208);
    CubeRootIs(283, 0x6_90befffa, 0x90befffa);
    CubeRootIs(293, 0x6_a4506ceb, 0xa4506ceb);
    CubeRootIs(307, 0x6_bef9a3f7, 0xbef9a3f7);
    CubeRootIs(311, 0x6_c67178f2, 0xc67178f2);
  }

  lemma CubeRootIs(p: nat, q: nat, x: bv32)
    requires Cube(q) <= p * 0x1_0000_0000_0000_0000_0000_0000 < Cube(q + 1) && x as int == q % 0x1_0000_0000
    ensures CubeRootWord(p, x)
  {
  }

  lemma SquareRootIs(p: nat, q: nat, x: bv32)
    requires Square(q) <= p * 0x1_0000_0000_0000_0000 < Square(q + 1) && x as int == q % 0x1_0000_0000
    ensures SquareRootWord(p, x)
  {
  }

  /** Section 4.2.2: the round constants come from the cube roots of the first 64 primes. */
  lemma RoundConstantsAreCubeRoots()
    ensures |PRIMES| == |K| == 64 && PrimesIn(1, PRIMES, 311)
    ensures forall t | 0 <= t < 64 :: CubeRootWord(PRIMES[t], K[t])
  {
    hide PrimesIn, CubeRoots;
    Primes0();
    Roots0();
    Primes1();
    Roots1();
    Primes2();
    Roots2();
    Primes3();
    Roots3();
    Primes4();
    Roots4();
    Primes5();
    Roots5();
    Primes6();
    Roots6();
    Primes7();
    Roots7();
    MorePrimes(1, P0, 19, P1, 53);
    MoreRoots(P0, K0, P1, K1);
    MorePrimes(1, P0 + P1, 53, P2, 89);
    MoreRoots(P0 + P1, K0 + K1, P2, K2);
    MorePrimes(1, P0 + P1 + P2, 89, P3, 131);
    MoreRoots(P0 + P1 + P2, K0 + K1 + K2, P3, K3);
    MorePrimes(1, P0 + P1 + P2 + P3, 131, P4, 173);
    MoreRoots(P0 + P1 + P2 + P3, K0 + K1 + K2 + K3, P4, K4);
    MorePrimes(1, P0 + P1 + P2 + P3 + P4, 173, P5, 223);
    MoreRoots(P0 + P1 + P2 + P3 + P4, K0 + K1 + K2 + K3 + K4, P5, K5);
    MorePrimes(1, P0 + P1 + P2 + P3 + P4 + P5, 223, P6, 263);
    MoreRoots(P0 + P1 + P2 + P3 + P4 + P5, K0 + K1 + K2 + K3 + K4 + K5, P6, K6);
    MorePrimes(1, P0 + P1 + P2 + P3 + P4 + P5 + P6, 263, P7, 311);
    MoreRoots(P0 + P1 + P2 + P3 + P4 + P5 + P6, K0 + K1 + K2 + K3 + K4 + K5 + K6, P7, K7);
    AllRoots(PRIMES, K);
  }

  lemma AllRoots(ps: seq<nat>, ks: seq<bv32>)
    requires CubeRoots(ps, ks)
    ensures |ps| == |ks| && forall t | 0 <= t < |ps| :: CubeRootWord(ps[t], ks[t])
  {
  }

  /** Section 5.3.3: the initial hash value comes from the square roots of the first 8. */
  lemma InitialHashIsSquareRoots()
    ensures PrimesIn(1, [2, 3, 5, 7, 11, 13, 17, 19], 19)
    ensures SquareRootWord(2, H0.a) && SquareRootWord(3, H0.b) && SquareRootWord(5, H0.c) && SquareRootWord(7, H0.d)
    ensures SquareRootWord(11, H0.e) && SquareRootWord(13, H0.f) && SquareRootWord(17, H0.g) && SquareRootWord(19, H0.h)
  {
    hide SquareRootWord, PrimesIn;
    Primes0();
    SquareRootIs(2, 0x1_6a09e667, 0x6a09e667);
    SquareRootIs(3, 0x1_bb67ae85, 0xbb67ae85);
    SquareRootIs(5, 0x2_3c6ef372, 0x3c6ef372);
    SquareRootIs(7, 0x2_a54ff53a, 0xa54ff53a);
    SquareRootIs(11, 0x3_510e527f, 0x510e527f);
    SquareRootIs(13, 0x3_9b05688c, 0x9b05688c);
    SquareRootIs(17, 0x4_1f83d9ab, 0x1f83d9ab);
    SquareRootIs(19, 0x4_5be0cd19, 0x5be0cd19);
  }

  // ---- section 4.1.2, bit by bit ----

  lemma RotrBits(x: bv32, n: bv32, i: bv32)
    requires n < 32 && i < 32
    ensures Bit(Rotr(x, n), i) <==> Bit(x, (i + n) & 31)
  {
    RotatedBit(x, n, i);
  }

  /** x chooses between y and z. */
  lemma ChBits(x: bv32, y: bv32, z: bv32, i: bv32)
    requires i < 32
    ensures Bit(Ch(x, y, z), i) <==> if Bit(x, i) then Bit(y, i) else Bit(z, i)
  {
    ChosenBit(x, y, z, i);
  }

  /** Two of three. */
  lemma MajBits(x: bv32, y: bv32, z: bv32, i: bv32)
    requires i < 32
    ensures Bit(Maj(x, y, z), i) <==>
            (Bit(x, i) && Bit(y, i)) || (Bit(x, i) && Bit(z, i)) || (Bit(y, i) && Bit(z, i))
  {
    MajorityBit(x, y, z, i);
  }

  // ---- words as bytes ----

  /** The digits of a number in base 256, most significant first. */
  lemma {:induction false} BigEndianDigits(x: nat, n: nat, i: nat)
    requires i < n
    ensures BigEndian(x, n)[i] == x / Pow256(n - 1 - i) % 256
  {
    if i < n - 1 {
      BigEndianDigits(x / 256, n - 1, i);
      DivTwice(x, 256, Pow256(n - 2 - i));
    }
  }

  lemma SumIs(w: bv32, b0: bv32, b1: bv32, b2: bv32, b3: bv32)
    requires b0 < 256 && b1 < 256 && b2 < 256 && b3 < 256 && w == Sum4(b0 << 24, b1 << 16, b2 << 8, b3)
    ensures w >> 24 == b0 && (w >> 16) & 0xFF == b1 && (w >> 8) & 0xFF == b2 && w & 0xFF == b3
  {
    FourBytes(b0, b1, b2, b3);
  }

  lemma EightBits(b: byte)
    ensures Widen(b) < 256
  {
    ByteBack(b);
  }

  /** The first byte of a word is its highest. */
  lemma WordsAreBigEndian(b0: byte, b1: byte, b2: byte, b3: byte)
    ensures var w := Word(b0, b1, b2, b3);
            && w >> 24 == Widen(b0) && (w >> 16) & 0xFF == Widen(b1)
            && (w >> 8) & 0xFF == Widen(b2) && w & 0xFF == Widen(b3)
  {
    hide Sum4, Widen;
    EightBits(b0);
    EightBits(b1);
    EightBits(b2);
    EightBits(b3);
    SumIs(Word(b0, b1, b2, b3), Widen(b0), Widen(b1), Widen(b2), Widen(b3));
  }

  lemma Below(b: byte)
    ensures Widen(b) < 256 && Widen(b) as int == b
  {
    ByteBack(b);
  }

  /** A word is written as the bytes it was made of. */
  lemma WordBytesBack(b0: byte, b1: byte, b2: byte, b3: byte)
    ensures WordBytes(Word(b0, b1, b2, b3)) == [b0, b1, b2, b3]
  {
    hide Word, WordBytes, Widen;
    Below(b0);
    Below(b1);
    Below(b2);
    Below(b3);
    WordsAreBigEndian(b0, b1, b2, b3);
    BytesAre(Word(b0, b1, b2, b3), Widen(b0), Widen(b1), Widen(b2), Widen(b3));
  }

  lemma BytesAre(w: bv32, b0: bv32, b1: bv32, b2: bv32, b3: bv32)
    requires w >> 24 == b0 && (w >> 16) & 0xFF == b1 && (w >> 8) & 0xFF == b2 && w & 0xFF == b3
    requires b0 < 256
    ensures WordBytes(w) == [b0 as int, b1 as int, b2 as int, b3 as int]
  {
    assert (w >> 24) & 0xFF == b0;
  }
}
