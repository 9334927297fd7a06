/**
 What the words of FIPS 180-4 are: the first 32 bits of the fractional parts of the cube roots of
 the first 64 primes (section 4.2.2) and of the square roots of the first eight (section 5.3.3).
*/
module Sha256Constants {
  import opened Arithmetic
  import opened Sha256Spec

  // ---------- The first 64 primes ----------

  const PRIMES: seq<nat> :=
    (([2, 3, 5, 7, 11, 13, 17, 19] +
      [23, 29, 31, 37, 41, 43, 47, 53]) +
     ([59, 61, 67, 71, 73, 79, 83, 89] +
      [97, 101, 103, 107, 109, 113, 127, 131])) +
    (([137, 139, 149, 151, 157, 163, 167, 173] +
      [179, 181, 191, 193, 197, 199, 211, 223]) +
     ([227, 229, 233, 239, 241, 251, 257, 263] +
      [269, 271, 277, 281, 283, 293, 307, 311]))

  ghost predicate IsPrime(n: nat) {
    n >= 2 && forall d: nat {:trigger n % d} :: 2 <= d < n ==> n % d != 0
  }

  /** Not a proper multiple of a prime below 18. */
  predicate Sieved(n: nat) {
    && n >= 2
    && (n % 2 != 0 || n == 2) && (n % 3 != 0 || n == 3) && (n % 5 != 0 || n == 5) && (n % 7 != 0 || n == 7)
    && (n % 11 != 0 || n == 11) && (n % 13 != 0 || n == 13) && (n % 17 != 0 || n == 17)
  }

  lemma {:induction false} MultipleOfPrime(n: nat, p: nat, q: nat)
    requires p in {2, 3, 5, 7, 11, 13, 17} && n == p * q && n > p
    ensures !Sieved(n)
  {
    SameQuotient(p, q, 0, n / p, n % p);
    assert n % p == 0;
  }

  lemma {:induction false} MultiplesAreSieved(n: nat, d: nat)
    requires 2 <= d <= 17 && d < n && n % d == 0
    ensures !Sieved(n)
  {
    var q := n / d;
    assert n == d * q;
    if d % 2 == 0 {
      MultipleOfPrime(n, 2, d / 2 * q);
    } else if d % 3 == 0 {
      MultipleOfPrime(n, 3, d / 3 * q);
    } else if d % 5 == 0 {
      MultipleOfPrime(n, 5, d / 5 * q);
    } else {
      MultipleOfPrime(n, d, q);
    }
  }

  lemma {:induction false} ProductBound(a: nat, b: nat)
    requires a >= 18 && b >= 18
    ensures a * b >= 324
  {
    assert a * b == 18 * b + (a - 18) * b;
  }

  /** Below 18 * 18 one of two factors is below 18. */
  lemma {:induction false} CofactorIsSmall(n: nat, d: nat, q: nat)
    requires n == d * q && 18 <= d < n < 324
    ensures 2 <= q <= 17 && q < n && n % q == 0
  {
    assert d * 0 == 0 && d * 1 == d;
    if q >= 18 {
      ProductBound(d, q);
    }
    SameQuotient(q, d, 0, n / q, n % q);
  }

  lemma {:induction false} SmallDivisor(n: nat, d: nat) returns (s: nat)
    requires 2 <= d < n < 324 && n % d == 0
    ensures 2 <= s <= 17 && s < n && n % s == 0
  {
    s := d;
    if d >= 18 {
      s := n / d;
      CofactorIsSmall(n, d, s);
    }
  }

  /** Below 18 * 18, what is left by the sieve is prime. */
  lemma {:induction false} PrimeIffSieved(n: nat)
    requires n < 324
    ensures IsPrime(n) <==> Sieved(n)
  {
    if Sieved(n) {
      forall d: nat | 2 <= d < n ensures n % d != 0 {
        if n % d == 0 {
          var s := SmallDivisor(n, d);
          MultiplesAreSieved(n, s);
        }
      }
    }
  }

  lemma {:induction false} SievedTo19(n: nat)
    requires 0 <= n <= 19
    ensures Sieved(n) <==> n in {2, 3, 5, 7, 11, 13, 17, 19}
  {
    assert n % 2 == 0 || n % 3 == 0 || n in {1, 5, 7, 11, 13, 17, 19};
  }

  lemma {:induction false} SievedTo53(n: nat)
    requires 20 <= n <= 53
    ensures Sieved(n) <==> n in {23, 29, 31, 37, 41, 43, 47, 53}
  {
    assert n % 2 == 0 || n % 3 == 0 || n in {23, 25, 29, 31, 35, 37, 41, 43, 47, 49, 53};
  }

  lemma {:induction false} SievedTo89(n: nat)
    requires 54 <= n <= 89
    ensures Sieved(n) <==> n in {59, 61, 67, 71, 73, 79, 83, 89}
  {
    assert n % 2 == 0 || n % 3 == 0 || n in {55, 59, 61, 65, 67, 71, 73, 77, 79, 83, 85, 89};
  }

  lemma {:induction false} SievedTo131(n: nat)
    requires 90 <= n <= 131
    ensures Sieved(n) <==> n in {97, 101, 103, 107, 109, 113, 127, 131}
  {
    assert n % 2 == 0 || n % 3 == 0 || n in {91, 95, 97, 101, 103, 107, 109, 113, 115, 119, 121, 125, 127, 131};
  }

  lemma {:induction false} SievedTo173(n: nat)
    requires 132 <= n <= 173
    ensures Sieved(n) <==> n in {137, 139, 149, 151, 157, 163, 167, 173}
  {
    assert n % 2 == 0 || n % 3 == 0 || n in {133, 137, 139, 143, 145, 149, 151, 155, 157, 161, 163, 167, 169, 173};
  }

  lemma {:induction false} SievedTo223(n: nat)
    requires 174 <= n <= 223
    ensures Sieved(n) <==> n in {179, 181, 191, 193, 197, 199, 211, 223}
  {
    assert n % 2 == 0 || n % 3 == 0 || n in {175, 179, 181, 185, 187, 191, 193, 197, 199} ||
           n in {203, 205, 209, 211, 215, 217, 221, 223};
  }

  lemma {:induction false} SievedTo263(n: nat)
    requires 224 <= n <= 263
    ensures Sieved(n) <==> n in {227, 229, 233, 239, 241, 251, 257, 263}
  {
    assert n % 2 == 0 || n % 3 == 0 || n in {227, 229, 233, 235, 239, 241, 245, 247, 251, 253, 257, 259, 263};
  }

  lemma {:induction false} SievedTo311(n: nat)
    requires 264 <= n <= 311
    ensures Sieved(n) <==> n in {269, 271, 277, 281, 283, 293, 307, 311}
  {
    assert n % 2 == 0 || n % 3 == 0 || n in {265, 269, 271, 275, 277, 281, 283, 287} ||
           n in {289, 293, 295, 299, 301, 305, 307, 311};
  }

  predicate Listed(n: nat) {
    || n in {2, 3, 5, 7, 11, 13, 17, 19}
    || n in {23, 29, 31, 37, 41, 43, 47, 53}
    || n in {59, 61, 67, 71, 73, 79, 83, 89}
    || n in {97, 101, 103, 107, 109, 113, 127, 131}
    || n in {137, 139, 149, 151, 157, 163, 167, 173}
    || n in {179, 181, 191, 193, 197, 199, 211, 223}
    || n in {227, 229, 233, 239, 241, 251, 257, 263}
    || n in {269, 271, 277, 281, 283, 293, 307, 311}
  }

  lemma {:induction false} ListedIffInPrimes(n: nat)
    ensures Listed(n) <==> n in PRIMES
  {
  }

  lemma {:induction false} SievedIffListed(n: nat)
    requires n <= 311
    ensures Sieved(n) <==> Listed(n)
  {
    hide Sieved;
    if n <= 19 {
      SievedTo19(n);
    } else if n <= 53 {
      SievedTo53(n);
    } else if n <= 89 {
      SievedTo89(n);
    } else if n <= 131 {
      SievedTo131(n);
    } else if n <= 173 {
      SievedTo173(n);
    } else if n <= 223 {
      SievedTo223(n);
    } else if n <= 263 {
      SievedTo263(n);
    } else {
      SievedTo311(n);
    }
  }

  lemma {:induction false} PrimeIffListed(n: nat)
    ensures n in PRIMES <==> n <= 311 && IsPrime(n)
  {
    ListedIffInPrimes(n);
    if n <= 311 {
      PrimeIffSieved(n);
      SievedIffListed(n);
    }
  }

  lemma {:induction false} PrimesIncrease(t: nat)
    requires t < 63
    ensures PRIMES[t] < PRIMES[t + 1]
  {
  }

  /** The list is the first 64 primes: in increasing order, all those up to 311 and no others. */
  lemma {:induction false} FirstPrimes()
    ensures |PRIMES| == 64
    ensures forall t :: 0 <= t < 63 ==> PRIMES[t] < PRIMES[t + 1]
    ensures forall n: nat :: n in PRIMES <==> n <= 311 && IsPrime(n)
  {
    hide IsPrime;
    forall t | 0 <= t < 63 ensures PRIMES[t] < PRIMES[t + 1] {
      PrimesIncrease(t);
    }
    forall n: nat ensures n in PRIMES <==> n <= 311 && IsPrime(n) {
      PrimeIffListed(n);
    }
  }

  // ---------- Roots ----------

  function Cube(n: nat): nat {
    n * n * n
  }

  /** `w` is the first 32 bits of the fractional part of the cube root of `p`, whose integer part
      is `c`. */
  predicate CubeRootFraction(p: nat, c: nat, w: bv32) {
    && Cube(c) <= p < Cube(c + 1)
    && Cube(0x1_0000_0000 * c + w as nat) <= p * 0x1_00000000_00000000_00000000
    && p * 0x1_00000000_00000000_00000000 < Cube(0x1_0000_0000 * c + w as nat + 1)
  }

  ghost predicate IsCubeRootFraction(p: nat, w: bv32) {
    exists c :: CubeRootFraction(p, c, w)
  }

  lemma CubeRootIs(p: nat, c: nat, w: bv32)
    requires CubeRootFraction(p, c, w)
    ensures IsCubeRootFraction(p, w)
  {
  }

  /** The same for the square root. */
  predicate SquareRootFraction(p: nat, c: nat, w: bv32) {
    && c * c <= p < (c + 1) * (c + 1)
    && (0x1_0000_0000 * c + w as nat) * (0x1_0000_0000 * c + w as nat) <= p * 0x1_00000000_00000000
    && p * 0x1_00000000_00000000 < (0x1_0000_0000 * c + w as nat + 1) * (0x1_0000_0000 * c + w as nat + 1)
  }

  ghost predicate IsSquareRootFraction(p: nat, w: bv32) {
    exists c :: SquareRootFraction(p, c, w)
  }

  lemma SquareRootIs(p: nat, c: nat, w: bv32)
    requires SquareRootFraction(p, c, w)
    ensures IsSquareRootFraction(p, w)
  {
  }

  lemma {:induction false} Roots0()
    ensures IsCubeRootFraction(2, 0x428a2f98) && IsCubeRootFraction(3, 0x71374491)
    ensures IsCubeRootFraction(5, 0xb5c0fbcf) && IsCubeRootFraction(7, 0xe9b5dba5)
    ensures IsCubeRootFraction(11, 0x3956c25b) && IsCubeRootFraction(13, 0x59f111f1)
    ensures IsCubeRootFraction(17, 0x923f82a4) && IsCubeRootFraction(19, 0xab1c5ed5)
  {
    hide IsCubeRootFraction;
    CubeRootIs(2, 1, 0x428a2f98);
    CubeRootIs(3, 1, 0x71374491);
    CubeRootIs(5, 1, 0xb5c0fbcf);
    CubeRootIs(7, 1, 0xe9b5dba5);
    CubeRootIs(11, 2, 0x3956c25b);
    CubeRootIs(13, 2, 0x59f111f1);
    CubeRootIs(17, 2, 0x923f82a4);
    CubeRootIs(19, 2, 0xab1c5ed5);
  }

  lemma {:induction false} Constants0(t: nat)
    requires 0 <= t < 8
    ensures IsCubeRootFraction(PRIMES[t], K[t])
  {
    hide IsCubeRootFraction;
    Roots0();
  }

  lemma {:induction false} Roots8()
    ensures IsCubeRootFraction(23, 0xd807aa98) && IsCubeRootFraction(29, 0x12835b01)
    ensures IsCubeRootFraction(31, 0x243185be) && IsCubeRootFraction(37, 0x550c7dc3)
    ensures IsCubeRootFraction(41, 0x72be5d74) && IsCubeRootFraction(43, 0x80deb1fe)
    ensures IsCubeRootFraction(47, 0x9bdc06a7) && IsCubeRootFraction(53, 0xc19bf174)
  {
    hide IsCubeRootFraction;
    CubeRootIs(23, 2, 0xd807aa98);
    CubeRootIs(29, 3, 0x12835b01);
    CubeRootIs(31, 3, 0x243185be);
    CubeRootIs(37, 3, 0x550c7dc3);
    CubeRootIs(41, 3, 0x72be5d74);
    CubeRootIs(43, 3, 0x80deb1fe);
    CubeRootIs(47, 3, 0x9bdc06a7);
    CubeRootIs(53, 3, 0xc19bf174);
  }

  lemma {:induction false} Constants8(t: nat)
    requires 8 <= t < 16
    ensures IsCubeRootFraction(PRIMES[t], K[t])
  {
    hide IsCubeRootFraction;
    Roots8();
  }

  lemma {:induction false} Roots16()
    ensures IsCubeRootFraction(59, 0xe49b69c1) && IsCubeRootFraction(61, 0xefbe4786)
    ensures IsCubeRootFraction(67, 0x0fc19dc6) && IsCubeRootFraction(71, 0x240ca1cc)
    ensures IsCubeRootFraction(73, 0x2de92c6f) && IsCubeRootFraction(79, 0x4a7484aa)
    ensures IsCubeRootFraction(83, 0x5cb0a9dc) && IsCubeRootFraction(89, 0x76f988da)
  {
    hide IsCubeRootFraction;
    CubeRootIs(59, 3, 0xe49b69c1);
    CubeRootIs(61, 3, 0xefbe4786);
    CubeRootIs(67, 4, 0x0fc19dc6);
    CubeRootIs(71, 4, 0x240ca1cc);
    CubeRootIs(73, 4, 0x2de92c6f);
    CubeRootIs(79, 4, 0x4a7484aa);
    CubeRootIs(83, 4, 0x5cb0a9dc);
    CubeRootIs(89, 4, 0x76f988da);
  }

  lemma {:induction false} Constants16(t: nat)
    requires 16 <= t < 24
    ensures IsCubeRootFraction(PRIMES[t], K[t])
  {
    hide IsCubeRootFraction;
    Roots16();
  }

  lemma {:induction false} Roots24()
    ensures IsCubeRootFraction(97, 0x983e5152) && IsCubeRootFraction(101, 0xa831c66d)
    ensures IsCubeRootFraction(103, 0xb00327c8) && IsCubeRootFraction(107, 0xbf597fc7)
    ensures IsCubeRootFraction(109, 0xc6e00bf3) && IsCubeRootFraction(113, 0xd5a79147)
    ensures IsCubeRootFraction(127, 0x06ca6351) && IsCubeRootFraction(131, 0x14292967)
  {
    hide IsCubeRootFraction;
    CubeRootIs(97, 4, 0x983e5152);
    CubeRootIs(101, 4, 0xa831c66d);
    CubeRootIs(103, 4, 0xb00327c8);
    CubeRootIs(107, 4, 0xbf597fc7);
    CubeRootIs(109, 4, 0xc6e00bf3);
    CubeRootIs(113, 4, 0xd5a79147);
    CubeRootIs(127, 5, 0x06ca6351);
    CubeRootIs(131, 5, 0x14292967);
  }

  lemma {:induction false} Constants24(t: nat)
    requires 24 <= t < 32
    ensures IsCubeRootFraction(PRIMES[t], K[t])
  {
    hide IsCubeRootFraction;
    Roots24();
  }

  lemma {:induction false} Roots32()
    ensures IsCubeRootFraction(137, 0x27b70a85) && IsCubeRootFraction(139, 0x2e1b2138)
    ensures IsCubeRootFraction(149, 0x4d2c6dfc) && IsCubeRootFraction(151, 0x53380d13)
    ensures IsCubeRootFraction(157, 0x650a7354) && IsCubeRootFraction(163, 0x766a0abb)
    ensures IsCubeRootFraction(167, 0x81c2c92e) && IsCubeRootFraction(173, 0x92722c85)
  {
    hide IsCubeRootFraction;
    CubeRootIs(137, 5, 0x27b70a85);
    CubeRootIs(139, 5, 0x2e1b2138);
    CubeRootIs(149, 5, 0x4d2c6dfc);
    CubeRootIs(151, 5, 0x53380d13);
    CubeRootIs(157, 5, 0x650a7354);
    CubeRootIs(163, 5, 0x766a0abb);
    CubeRootIs(167, 5, 0x81c2c92e);
    CubeRootIs(173, 5, 0x92722c85);
  }

  lemma {:induction false} Constants32(t: nat)
    requires 32 <= t < 40
    ensures IsCubeRootFraction(PRIMES[t], K[t])
  {
    hide IsCubeRootFraction;
    Roots32();
  }

  lemma {:induction false} Roots40()
    ensures IsCubeRootFraction(179, 0xa2bfe8a1) && IsCubeRootFraction(181, 0xa81a664b)
    ensures IsCubeRootFraction(191, 0xc24b8b70) && IsCubeRootFraction(193, 0xc76c51a3)
    ensures IsCubeRootFraction(197, 0xd192e819) && IsCubeRootFraction(199, 0xd6990624)
    ensures IsCubeRootFraction(211, 0xf40e3585) && IsCubeRootFraction(223, 0x106aa070)
  {
    hide IsCubeRootFraction;
    CubeRootIs(179, 5, 0xa2bfe8a1);
    CubeRootIs(181, 5, 0xa81a664b);
    CubeRootIs(191, 5, 0xc24b8b70);
    CubeRootIs(193, 5, 0xc76c51a3);
    CubeRootIs(197, 5, 0xd192e819);
    CubeRootIs(199, 5, 0xd6990624);
    CubeRootIs(211, 5, 0xf40e3585);
    CubeRootIs(223, 6, 0x106aa070);
  }

  lemma {:induction false} Constants40(t: nat)
    requires 40 <= t < 48
    ensures IsCubeRootFraction(PRIMES[t], K[t])
  {
    hide IsCubeRootFraction;
    Roots40();
  }

  lemma {:induction false} Roots48()
    ensures IsCubeRootFraction(227, 0x19a4c116) && IsCubeRootFraction(229, 0x1e376c08)
    ensures IsCubeRootFraction(233, 0x2748774c) && IsCubeRootFraction(239, 0x34b0bcb5)
    ensures IsCubeRootFraction(241, 0x391c0cb3) && IsCubeRootFraction(251, 0x4ed8aa4a)
    ensures IsCubeRootFraction(257, 0x5b9cca4f) && IsCubeRootFraction(263, 0x682e6ff3)
  {
    hide IsCubeRootFraction;
    CubeRootIs(227, 6, 0x19a4c116);
    CubeRootIs(229, 6, 0x1e376c08);
    CubeRootIs(233, 6, 0x2748774c);
    CubeRootIs(239, 6, 0x34b0bcb5);
    CubeRootIs(241, 6, 0x391c0cb3);
    CubeRootIs(251, 6, 0x4ed8aa4a);
    CubeRootIs(257, 6, 0x5b9cca4f);
    CubeRootIs(263, 6, 0x682e6ff3);
  }

  lemma {:induction false} Constants48(t: nat)
    requires 48 <= t < 56
    ensures IsCubeRootFraction(PRIMES[t], K[t])
  {
    hide IsCubeRootFraction;
    Roots48();
  }

  lemma {:induction false} Roots56()
    ensures IsCubeRootFraction(269, 0x748f82ee) && IsCubeRootFraction(271, 0x78a5636f)
    ensures IsCubeRootFraction(277, 0x84c87814) && IsCubeRootFraction(281, 0x8cc70208)
    ensures IsCubeRootFraction(283, 0x90befffa) && IsCubeRootFraction(293, 0xa4506ceb)
    ensures IsCubeRootFraction(307, 0xbef9a3f7) && IsCubeRootFraction(311, 0xc67178f2)
  {
    hide IsCubeRootFraction;
    CubeRootIs(269, 6, 0x748f82ee);
    CubeRootIs(271, 6, 0x78a5636f);
    CubeRootIs(277, 6, 0x84c87814);
    CubeRootIs(281, 6, 0x8cc70208);
    CubeRootIs(283, 6, 0x90befffa);
    CubeRootIs(293, 6, 0xa4506ceb);
    CubeRootIs(307, 6, 0xbef9a3f7);
    CubeRootIs(311, 6, 0xc67178f2);
  }

  lemma {:induction false} Constants56(t: nat)
    requires 56 <= t < 64
    ensures IsCubeRootFraction(PRIMES[t], K[t])
  {
    hide IsCubeRootFraction;
    Roots56();
  }

  /** Section 4.2.2: word `t` is the first 32 bits of the fractional part of the cube root of prime
      number `t + 1`. */
  lemma {:induction false} RoundConstantsAreCubeRoots(t: nat)
    requires t < 64
    ensures |PRIMES| == 64 && IsCubeRootFraction(PRIMES[t], RoundConstant(t))
  {
    hide IsCubeRootFraction;
    if t < 8 {
      Constants0(t);
    } else if t < 16 {
      Constants8(t);
    } else if t < 24 {
      Constants16(t);
    } else if t < 32 {
      Constants24(t);
    } else if t < 40 {
      Constants32(t);
    } else if t < 48 {
      Constants40(t);
    } else if t < 56 {
      Constants48(t);
    } else {
      Constants56(t);
    }
  }

  /** Section 5.3.3: the initial hash value is the same of the square roots of the first eight. */
  lemma {:induction false} InitialWordsAreSquareRoots()
    ensures IsSquareRootFraction(PRIMES[0], INITIAL.a)
    ensures IsSquareRootFraction(PRIMES[1], INITIAL.b)
    ensures IsSquareRootFraction(PRIMES[2], INITIAL.c)
    ensures IsSquareRootFraction(PRIMES[3], INITIAL.d)
    ensures IsSquareRootFraction(PRIMES[4], INITIAL.e)
    ensures IsSquareRootFraction(PRIMES[5], INITIAL.f)
    ensures IsSquareRootFraction(PRIMES[6], INITIAL.g)
    ensures IsSquareRootFraction(PRIMES[7], INITIAL.h)
  {
    hide IsSquareRootFraction;
    SquareRoots();
  }

  lemma {:induction false} SquareRoots()
    ensures IsSquareRootFraction(2, 0x6a09e667) && IsSquareRootFraction(3, 0xbb67ae85)
    ensures IsSquareRootFraction(5, 0x3c6ef372) && IsSquareRootFraction(7, 0xa54ff53a)
    ensures IsSquareRootFraction(11, 0x510e527f) && IsSquareRootFraction(13, 0x9b05688c)
    ensures IsSquareRootFraction(17, 0x1f83d9ab) && IsSquareRootFraction(19, 0x5be0cd19)
  {
    hide IsSquareRootFraction;
    SquareRootIs(2, 1, 0x6a09e667);
    SquareRootIs(3, 1, 0xbb67ae85);
    SquareRootIs(5, 2, 0x3c6ef372);
    SquareRootIs(7, 2, 0xa54ff53a);
    SquareRootIs(11, 3, 0x510e527f);
    SquareRootIs(13, 3, 0x9b05688c);
    SquareRootIs(17, 4, 0x1f83d9ab);
    SquareRootIs(19, 4, 0x5be0cd19);
  }
}
