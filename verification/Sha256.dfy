/**
 SHA-256 as computed in place (crates/rupi-core/src/hash.rs) against the recursive
 definition of FIPS 180-4.
 */
module Sha256 {
  import opened Text

  type Word = bv32

  // ----- Constants -----

  /** The first 32 bits of the fraction of a root of a prime, and the whole part in front. */
  datatype Root = Root(fraction: int, prime: int, whole: int)

  /** The constants of section 4.2.2, sixteen by sixteen. */
  function KRoot(t: nat): (r: Root)
    requires t < 64
    ensures 0 <= r.fraction < 0x1_0000_0000
  {
    if t < 16 then KRoot0(t) else if t < 32 then KRoot1(t) else if t < 48 then KRoot2(t) else KRoot3(t)
  }

  function KRoot0(t: nat): (r: Root)
    requires t < 16
    ensures 0 <= r.fraction < 0x1_0000_0000
  {
    match t
    case 0 => Root(0x428a2f98, 2, 1) case 1 => Root(0x71374491, 3, 1)
    case 2 => Root(0xb5c0fbcf, 5, 1) case 3 => Root(0xe9b5dba5, 7, 1)
    case 4 => Root(0x3956c25b, 11, 2) case 5 => Root(0x59f111f1, 13, 2)
    case 6 => Root(0x923f82a4, 17, 2) case 7 => Root(0xab1c5ed5, 19, 2)
    case 8 => Root(0xd807aa98, 23, 2) case 9 => Root(0x12835b01, 29, 3)
    case 10 => Root(0x243185be, 31, 3) case 11 => Root(0x550c7dc3, 37, 3)
    case 12 => Root(0x72be5d74, 41, 3) case 13 => Root(0x80deb1fe, 43, 3)
    case 14 => Root(0x9bdc06a7, 47, 3) case _ => Root(0xc19bf174, 53, 3)
  }

  function KRoot1(t: nat): (r: Root)
    requires 16 <= t < 32
    ensures 0 <= r.fraction < 0x1_0000_0000
  {
    match t
    case 16 => Root(0xe49b69c1, 59, 3) case 17 => Root(0xefbe4786, 61, 3)
    case 18 => Root(0x0fc19dc6, 67, 4) case 19 => Root(0x240ca1cc, 71, 4)
    case 20 => Root(0x2de92c6f, 73, 4) case 21 => Root(0x4a7484aa, 79, 4)
    case 22 => Root(0x5cb0a9dc, 83, 4) case 23 => Root(0x76f988da, 89, 4)
    case 24 => Root(0x983e5152, 97, 4) case 25 => Root(0xa831c66d, 101, 4)
    case 26 => Root(0xb00327c8, 103, 4) case 27 => Root(0xbf597fc7, 107, 4)
    case 28 => Root(0xc6e00bf3, 109, 4) case 29 => Root(0xd5a79147, 113, 4)
    case 30 => Root(0x06ca6351, 127, 5) case _ => Root(0x14292967, 131, 5)
  }

  function KRoot2(t: nat): (r: Root)
    requires 32 <= t < 48
    ensures 0 <= r.fraction < 0x1_0000_0000
  {
    match t
    case 32 => Root(0x27b70a85, 137, 5) case 33 => Root(0x2e1b2138, 139, 5)
    case 34 => Root(0x4d2c6dfc, 149, 5) case 35 => Root(0x53380d13, 151, 5)
    case 36 => Root(0x650a7354, 157, 5) case 37 => Root(0x766a0abb, 163, 5)
    case 38 => Root(0x81c2c92e, 167, 5) case 39 => Root(0x92722c85, 173, 5)
    case 40 => Root(0xa2bfe8a1, 179, 5) case 41 => Root(0xa81a664b, 181, 5)
    case 42 => Root(0xc24b8b70, 191, 5) case 43 => Root(0xc76c51a3, 193, 5)
    case 44 => Root(0xd192e819, 197, 5) case 45 => Root(0xd6990624, 199, 5)
    case 46 => Root(0xf40e3585, 211, 5) case _ => Root(0x106aa070, 223, 6)
  }

  function KRoot3(t: nat): (r: Root)
    requires 48 <= t < 64
    ensures 0 <= r.fraction < 0x1_0000_0000
  {
    match t
    case 48 => Root(0x19a4c116, 227, 6) case 49 => Root(0x1e376c08, 229, 6)
    case 50 => Root(0x2748774c, 233, 6) case 51 => Root(0x34b0bcb5, 239, 6)
    case 52 => Root(0x391c0cb3, 241, 6) case 53 => Root(0x4ed8aa4a, 251, 6)
    case 54 => Root(0x5b9cca4f, 257, 6) case 55 => Root(0x682e6ff3, 263, 6)
    case 56 => Root(0x748f82ee, 269, 6) case 57 => Root(0x78a5636f, 271, 6)
    case 58 => Root(0x84c87814, 277, 6) case 59 => Root(0x8cc70208, 281, 6)
    case 60 => Root(0x90befffa, 283, 6) case 61 => Root(0xa4506ceb, 293, 6)
    case 62 => Root(0xbef9a3f7, 307, 6) case _ => Root(0xc67178f2, 311, 6)
  }

  function HRoot(i: nat): (r: Root)
    requires i < 8
    ensures 0 <= r.fraction < 0x1_0000_0000
  {
    match i
    case 0 => Root(0x6a09e667, 2, 1) case 1 => Root(0xbb67ae85, 3, 1)
    case 2 => Root(0x3c6ef372, 5, 2) case 3 => Root(0xa54ff53a, 7, 2)
    case 4 => Root(0x510e527f, 11, 3) case 5 => Root(0x9b05688c, 13, 3)
    case 6 => Root(0x1f83d9ab, 17, 4) case _ => Root(0x5be0cd19, 19, 4)
  }

  function K(t: nat): Word
    requires t < 64
  {
    KRoot(t).fraction as Word
  }

  /** Section 4.2.2: the fraction of the cube root of the prime, cut after 32 bits. */
  predicate IsCubeRoot(r: Root) {
    var n := r.whole * 0x1_0000_0000 + r.fraction;
    n * n * n <= r.prime * 0x1_0000_0000_0000_0000_0000_0000 < (n + 1) * (n + 1) * (n + 1)
  }

  /** Section 5.3.3: the same for square roots. */
  predicate IsSquareRoot(r: Root) {
    var n := r.whole * 0x1_0000_0000 + r.fraction;
    n * n <= r.prime * 0x1_0000_0000_0000_0000 < (n + 1) * (n + 1)
  }

  lemma CubeRoots0(t: nat)
    requires 0 <= t < 16
    ensures IsCubeRoot(KRoot(t))
  {
    match t {
      case 0 => case 1 => case 2 => case 3 =>
      case 4 => case 5 => case 6 => case 7 =>
      case 8 => case 9 => case 10 => case 11 =>
      case 12 => case 13 => case 14 => case 15 =>
    }
  }

  lemma CubeRoots1(t: nat)
    requires 16 <= t < 32
    ensures IsCubeRoot(KRoot(t))
  {
    match t {
      case 16 => case 17 => case 18 => case 19 =>
      case 20 => case 21 => case 22 => case 23 =>
      case 24 => case 25 => case 26 => case 27 =>
      case 28 => case 29 => case 30 => case 31 =>
    }
  }

  lemma CubeRoots2(t: nat)
    requires 32 <= t < 48
    ensures IsCubeRoot(KRoot(t))
  {
    match t {
      case 32 => case 33 => case 34 => case 35 =>
      case 36 => case 37 => case 38 => case 39 =>
      case 40 => case 41 => case 42 => case 43 =>
      case 44 => case 45 => case 46 => case 47 =>
    }
  }

  lemma CubeRoots3(t: nat)
    requires 48 <= t < 56
    ensures IsCubeRoot(KRoot(t))
  {
    match t {
      case 48 => case 49 => case 50 => case 51 =>
      case 52 => case 53 => case 54 => case 55 =>
    }
  }

  lemma CubeRoots4(t: nat)
    requires 56 <= t < 64
    ensures IsCubeRoot(KRoot(t))
  {
    match t {
      case 56 => case 57 => case 58 => case 59 =>
      case 60 => case 61 => case 62 => case 63 =>
    }
  }

  /** The tables hold the constants the standard defines. */
  lemma ConstantsAreRoots(t: nat)
    requires t < 64
    ensures IsCubeRoot(KRoot(t))
    ensures t < 8 ==> IsSquareRoot(HRoot(t)) && HRoot(t).prime == KRoot(t).prime
  {
    if t < 8 { SquareRoots(t); }
    hide IsCubeRoot, KRoot, HRoot, IsSquareRoot;
    if t < 16 { CubeRoots0(t); }
    else if t < 32 { CubeRoots1(t); }
    else if t < 48 { CubeRoots2(t); }
    else if t < 56 { CubeRoots3(t); }
    else { CubeRoots4(t); }
  }

  lemma SquareRoots(i: nat)
    requires i < 8
    ensures IsSquareRoot(HRoot(i)) && HRoot(i).prime == KRoot(i).prime
  {
    match i {
      case 0 => case 1 => case 2 => case 3 =>
      case 4 => case 5 => case 6 => case 7 =>
    }
  }

  // ----- The listed primes -----

  predicate IsPrime(n: nat) {
    n >= 2 && forall d :: 2 <= d < n ==> n % d != 0
  }

  predicate Divides(p: nat, n: nat)
    requires p > 0
  {
    n % p == 0 && n > p
  }

  predicate HasSmallDivisor(n: nat) {
    || Divides(2, n) || Divides(3, n) || Divides(5, n) || Divides(7, n)
    || Divides(11, n) || Divides(13, n) || Divides(17, n)
  }

  lemma {:induction false} ProductGrows(p: nat, q: nat, k: nat)
    requires q < k
    ensures p * k >= p * q + p
  {
    assert p * k == p * (k - 1) + p;
    if q < k - 1 { ProductGrows(p, q, k - 1); }
  }

  lemma MultipleIsDivided(p: nat, q: nat)
    requires p > 0
    ensures (p * q) % p == 0
  {
    var n := p * q;
    var k := n / p;
    assert n == p * k + n % p;
    if k > q { ProductGrows(p, q, k); } else if k < q { ProductGrows(p, k, q); }
  }

  lemma DividesThrough(n: nat, m: nat, p: nat, k: nat)
    requires 0 < p && 0 < m && n % m == 0 && m == p * k
    ensures n % p == 0
  {
    var q := n / m;
    assert n == p * k * q == p * (k * q);
    MultipleIsDivided(p, k * q);
  }

  lemma SmallIsDivided(n: nat, m: nat)
    requires 2 <= m < 18 && m < n && n % m == 0
    ensures HasSmallDivisor(n)
  {
    if m % 2 == 0 {
      DividesThrough(n, m, 2, m / 2);
    } else if m % 3 == 0 {
      DividesThrough(n, m, 3, m / 3);
    } else if m % 5 == 0 {
      DividesThrough(n, m, 5, m / 5);
    } else {
      assert m == 7 || m == 11 || m == 13 || m == 17;
    }
  }

  /** Of two factors of a number below the square of 18, one is below 18. */
  lemma CompositeIsDivided(n: nat, d: nat)
    requires 2 <= d < n < 324 && n % d == 0
    ensures HasSmallDivisor(n)
  {
    hide HasSmallDivisor;
    var e := n / d;
    assert n == e * d;
    if d < 18 {
      SmallIsDivided(n, d);
    } else {
      assert 2 <= e < 18 by { FactorIsSmall(n, d, e); }
      MultipleIsDivided(e, d);
      SmallIsDivided(n, e);
    }
  }

  lemma ProductIsLarge(d: nat, e: nat)
    requires d >= 18 && e >= 18
    ensures e * d >= 324
  {
    assert e * d >= 18 * d;
  }

  lemma FactorIsSmall(n: nat, d: nat, e: nat)
    requires n == e * d && 18 <= d < n < 324
    ensures 2 <= e < 18
  {
    if e >= 18 { ProductIsLarge(d, e); }
  }

  lemma PrimeBySmall(n: nat)
    requires n < 324
    ensures IsPrime(n) <==> n >= 2 && !HasSmallDivisor(n)
  {
    if n >= 2 && !HasSmallDivisor(n) {
      forall d | 2 <= d < n ensures n % d != 0 {
        if n % d == 0 { CompositeIsDivided(n, d); }
      }
    }
  }

  predicate AreDivided(from: nat, until: nat)
    decreases until - from
  {
    from < until ==> HasSmallDivisor(from) && AreDivided(from + 1, until)
  }

  lemma {:induction false} DividedIs(from: nat, until: nat, m: nat)
    requires AreDivided(from, until) && from <= m < until
    ensures HasSmallDivisor(m)
    decreases until - from
  {
    if from < m { DividedIs(from + 1, until, m); }
  }

  /** One number has no small divisor, and all between it and the next have. */
  predicate IsStep(p: nat, next: nat) {
    2 <= p < next && !HasSmallDivisor(p) && AreDivided(p + 1, next)
  }

  lemma Steps0(t: nat)
    requires 0 <= t < 9
    ensures IsStep(KRoot(t).prime, KRoot(t + 1).prime)
  {
    match t {
      case 0 => assert IsStep(2, 3); case 1 => assert IsStep(3, 5); case 2 => assert IsStep(5, 7);
      case 3 => assert IsStep(7, 11); case 4 => assert IsStep(11, 13); case 5 => assert IsStep(13, 17);
      case 6 => assert IsStep(17, 19); case 7 => assert IsStep(19, 23); case 8 => assert IsStep(23, 29);
    }
  }

  lemma Steps1(t: nat)
    requires 9 <= t < 18
    ensures IsStep(KRoot(t).prime, KRoot(t + 1).prime)
  {
    match t {
      case 9 => assert IsStep(29, 31); case 10 => assert IsStep(31, 37); case 11 => assert IsStep(37, 41);
      case 12 => assert IsStep(41, 43); case 13 => assert IsStep(43, 47); case 14 => assert IsStep(47, 53);
      case 15 => assert IsStep(53, 59); case 16 => assert IsStep(59, 61); case 17 => assert IsStep(61, 67);
    }
  }

  lemma Steps2(t: nat)
    requires 18 <= t < 27
    ensures IsStep(KRoot(t).prime, KRoot(t + 1).prime)
  {
    match t {
      case 18 => assert IsStep(67, 71); case 19 => assert IsStep(71, 73); case 20 => assert IsStep(73, 79);
      case 21 => assert IsStep(79, 83); case 22 => assert IsStep(83, 89); case 23 => assert IsStep(89, 97);
      case 24 => assert IsStep(97, 101); case 25 => assert IsStep(101, 103); case 26 => assert IsStep(103, 107);
    }
  }

  lemma Steps3(t: nat)
    requires 27 <= t < 36
    ensures IsStep(KRoot(t).prime, KRoot(t + 1).prime)
  {
    match t {
      case 27 => assert IsStep(107, 109); case 28 => assert IsStep(109, 113); case 29 => assert IsStep(113, 127);
      case 30 => assert IsStep(127, 131); case 31 => assert IsStep(131, 137); case 32 => assert IsStep(137, 139);
      case 33 => assert IsStep(139, 149); case 34 => assert IsStep(149, 151); case 35 => assert IsStep(151, 157);
    }
  }

  lemma Steps4(t: nat)
    requires 36 <= t < 45
    ensures IsStep(KRoot(t).prime, KRoot(t + 1).prime)
  {
    match t {
      case 36 => assert IsStep(157, 163); case 37 => assert IsStep(163, 167); case 38 => assert IsStep(167, 173);
      case 39 => assert IsStep(173, 179); case 40 => assert IsStep(179, 181); case 41 => assert IsStep(181, 191);
      case 42 => assert IsStep(191, 193); case 43 => assert IsStep(193, 197); case 44 => assert IsStep(197, 199);
    }
  }

  lemma Steps5(t: nat)
    requires 45 <= t < 54
    ensures IsStep(KRoot(t).prime, KRoot(t + 1).prime)
  {
    match t {
      case 45 => assert IsStep(199, 211); case 46 => assert IsStep(211, 223); case 47 => assert IsStep(223, 227);
      case 48 => assert IsStep(227, 229); case 49 => assert IsStep(229, 233); case 50 => assert IsStep(233, 239);
      case 51 => assert IsStep(239, 241); case 52 => assert IsStep(241, 251); case 53 => assert IsStep(251, 257);
    }
  }

  lemma Steps6(t: nat)
    requires 54 <= t < 63
    ensures IsStep(KRoot(t).prime, KRoot(t + 1).prime)
  {
    match t {
      case 54 => assert IsStep(257, 263); case 55 => assert IsStep(263, 269); case 56 => assert IsStep(269, 271);
      case 57 => assert IsStep(271, 277); case 58 => assert IsStep(277, 281); case 59 => assert IsStep(281, 283);
      case 60 => assert IsStep(283, 293); case 61 => assert IsStep(293, 307); case 62 => assert IsStep(307, 311);
    }
  }

  lemma Steps(t: nat)
    requires t < 63
    ensures IsStep(KRoot(t).prime, KRoot(t + 1).prime)
  {
    hide IsStep, KRoot;
    if t < 9 { Steps0(t); }
    else if t < 18 { Steps1(t); }
    else if t < 27 { Steps2(t); }
    else if t < 36 { Steps3(t); }
    else if t < 45 { Steps4(t); }
    else if t < 54 { Steps5(t); }
    else { Steps6(t); }
  }

  lemma Ends()
    ensures KRoot(0).prime == 2 && KRoot(63).prime == 311 && !HasSmallDivisor(311)
  {
  }

  /** The list rises, and up to its last number it holds the primes and nothing else. */
  lemma ListedAreThePrimes(n: nat)
    requires n <= 311
    ensures IsPrime(n) <==> exists t :: 0 <= t < 64 && KRoot(t).prime == n
    ensures forall t, u :: 0 <= t < u < 64 ==> KRoot(t).prime < KRoot(u).prime
  {
    hide KRoot, IsPrime, IsStep;
    PrimeBySmall(n);
    Ends();
    forall t, u | 0 <= t < u < 64 ensures KRoot(t).prime < KRoot(u).prime { ListRises(t, u); }
    forall t | 0 <= t < 64 && KRoot(t).prime == n ensures n >= 2 && !HasSmallDivisor(n) {
      if t < 63 { StepIs(t, n); }
    }
    if n >= 2 {
      var t := IndexBelow(n, 0);
      if t < 63 { StepIs(t, n); }
    }
  }

  lemma StepIs(t: nat, m: nat)
    requires t < 63
    ensures 2 <= KRoot(t).prime < KRoot(t + 1).prime
    ensures m == KRoot(t).prime ==> !HasSmallDivisor(m)
    ensures KRoot(t).prime < m < KRoot(t + 1).prime ==> HasSmallDivisor(m)
  {
    hide KRoot, HasSmallDivisor, AreDivided;
    Steps(t);
    if KRoot(t).prime < m < KRoot(t + 1).prime { DividedIs(KRoot(t).prime + 1, KRoot(t + 1).prime, m); }
  }

  lemma {:induction false} ListRises(t: nat, u: nat)
    requires t < u < 64
    ensures KRoot(t).prime < KRoot(u).prime
    decreases u
  {
    hide KRoot, HasSmallDivisor;
    StepIs(u - 1, 0);
    if t < u - 1 { ListRises(t, u - 1); }
  }

  /** The last number of the list that does not exceed `n`. */
  lemma {:induction false} IndexBelow(n: nat, from: nat) returns (t: nat)
    requires from < 64 && KRoot(from).prime <= n <= 311
    ensures from <= t < 64 && KRoot(t).prime <= n && (t < 63 ==> n < KRoot(t + 1).prime)
    decreases 64 - from
  {
    hide KRoot;
    t := from;
    if from < 63 && KRoot(from + 1).prime <= n { t := IndexBelow(n, from + 1); }
  }

  // ----- The functions of section 4.1.2 -----

  /** Addition modulo 2^32. */
  function Add(x: Word, y: Word): Word {
    x + y
  }

  function Add4(a: Word, b: Word, c: Word, d: Word): Word {
    a + b + c + d
  }

  function Ch(x: Word, y: Word, z: Word): Word {
    (x & y) ^ (!x & z)
  }

  function Maj(x: Word, y: Word, z: Word): Word {
    (x & y) ^ (x & z) ^ (y & z)
  }

  function BigSigma0(x: Word): Word {
    x.RotateRight(2) ^ x.RotateRight(13) ^ x.RotateRight(22)
  }

  function BigSigma1(x: Word): Word {
    x.RotateRight(6) ^ x.RotateRight(11) ^ x.RotateRight(25)
  }

  function SmallSigma0(x: Word): Word {
    x.RotateRight(7) ^ x.RotateRight(18) ^ (x >> 3)
  }

  function SmallSigma1(x: Word): Word {
    x.RotateRight(17) ^ x.RotateRight(19) ^ (x >> 10)
  }

  // ----- Bytes and words -----

  /** Four bytes, most significant first, as a number. */
  function BigEndian(s: Bytes): (n: int)
    requires |s| == 4
    ensures 0 <= n < 0x1_0000_0000
  {
    s[0] as int * 0x100_0000 + s[1] as int * 0x1_0000 + s[2] as int * 0x100 + s[3] as int
  }

  /** The last `width` base-256 digits of `n`, most significant first. */
  function ToBytes(n: nat, width: nat): (s: Bytes)
    ensures |s| == width
  {
    if width == 0 then [] else ToBytes(n / 256, width - 1) + [(n % 256) as Byte]
  }

  // ----- Padding (section 5.1.1) -----

  /** The least number of zero bytes that leaves room for the length in a whole block. */
  function ZeroCount(length: nat): (k: nat)
    ensures k < 64 && LeavesRoom(length, k)
    ensures forall j: nat :: j < k ==> !LeavesRoom(length, j)
  {
    (119 - length % 64) % 64
  }

  /** Whether the eight length bytes complete a block behind the message, 0x80 and `k` zeros. */
  predicate LeavesRoom(length: nat, k: nat) {
    (length + 1 + k) % 64 == 56
  }

  function Zeros(k: nat): (s: Bytes)
    ensures |s| == k
  {
    seq(k, _ => 0)
  }

  /** The bit length as the program computes it, in 64 bits that wrap around. */
  function BitLength(message: Bytes): nat {
    |message| * 8 % 0x1_0000_0000_0000_0000
  }

  function Pad(message: Bytes): Bytes {
    message + [0x80] + Zeros(ZeroCount(|message|)) + ToBytes(BitLength(message), 8)
  }

  lemma PadLength(message: Bytes)
    ensures |Pad(message)| == |message| + ZeroCount(|message|) + 9
    ensures |Pad(message)| % 64 == 0 && |message| + 9 <= |Pad(message)| < |message| + 73
  {
    hide ZeroCount, ToBytes, BitLength, LeavesRoom;
    var k := ZeroCount(|message|);
    RoomIsBlock(|message|, k);
    assert |Pad(message)| == |message| + k + 9;
  }

  lemma RoomIsBlock(length: nat, k: nat)
    requires LeavesRoom(length, k)
    ensures (length + k + 9) % 64 == 0
  {
  }

  lemma PadParts(message: Bytes)
    ensures |message| + 9 <= |Pad(message)|
    ensures Pad(message)[..|message|] == message && Pad(message)[|message|] == 0x80
    ensures Pad(message)[|Pad(message)| - 8..] == ToBytes(BitLength(message), 8)
  {
    hide ZeroCount, ToBytes, BitLength;
    assert Pad(message) == message + ([0x80] + Zeros(ZeroCount(|message|)) + ToBytes(BitLength(message), 8));
  }

  /**
   Padding loses nothing, whatever the length: the padded length fixes the number of
   message bytes up to a block, and the recorded length fixes it within the block.
   */
  lemma PadIsInjective(a: Bytes, b: Bytes)
    requires Pad(a) == Pad(b)
    ensures a == b
  {
    hide Pad, ToBytes, ZeroCount;
    PadLength(a);
    PadLength(b);
    PadParts(a);
    PadParts(b);
    assert Power256(8) == 0x1_0000_0000_0000_0000;
    ToBytesIsInjective(BitLength(a), BitLength(b), 8);
    SameLength(|a|, |b|);
  }

  lemma SameLength(a: nat, b: nat)
    requires a * 8 % 0x1_0000_0000_0000_0000 == b * 8 % 0x1_0000_0000_0000_0000
    requires -73 < a - b < 73
    ensures a == b
  {
    assert (a * 8 - b * 8) % 0x1_0000_0000_0000_0000 == 0;
  }

  function Power256(width: nat): nat {
    if width == 0 then 1 else 256 * Power256(width - 1)
  }

  lemma {:induction false} ToBytesIsInjective(a: nat, b: nat, width: nat)
    requires ToBytes(a, width) == ToBytes(b, width) && a < Power256(width) && b < Power256(width)
    ensures a == b
  {
    if width > 0 {
      var s, t := ToBytes(a, width), ToBytes(b, width);
      assert s[..width - 1] == ToBytes(a / 256, width - 1) && t[..width - 1] == ToBytes(b / 256, width - 1);
      assert s[width - 1] == (a % 256) as Byte && t[width - 1] == (b % 256) as Byte;
      ToBytesIsInjective(a / 256, b / 256, width - 1);
    }
  }

  // ----- The computation of section 6.2.2 -----

  datatype State = State(a: Word, b: Word, c: Word, d: Word, e: Word, f: Word, g: Word, h: Word)

  function Initial(): State {
    State(H0(0), H0(1), H0(2), H0(3), H0(4), H0(5), H0(6), H0(7))
  }

  function H0(i: nat): Word
    requires i < 8
  {
    HRoot(i).fraction as Word
  }

  /** The message schedule of a block. */
  function W(block: Bytes, t: nat): Word
    requires |block| == 64 && t < 64
  {
    if t < 16 then BigEndian(block[4 * t..4 * t + 4]) as Word
    else
      Add4(SmallSigma1(W(block, t - 2)), W(block, t - 7), SmallSigma0(W(block, t - 15)), W(block, t - 16))
  }

  function Round(s: State, k: Word, w: Word): State {
    var t1 := Add(Add(Add(Add(s.h, BigSigma1(s.e)), Ch(s.e, s.f, s.g)), k), w);
    var t2 := Add(BigSigma0(s.a), Maj(s.a, s.b, s.c));
    State(Add(t1, t2), s.a, s.b, s.c, Add(s.d, t1), s.e, s.f, s.g)
  }

  function Rounds(s: State, block: Bytes, t: nat): State
    requires |block| == 64 && t <= 64
  {
    if t == 0 then s else Round(Rounds(s, block, t - 1), K(t - 1), W(block, t - 1))
  }

  function Sum(s: State, r: State): State {
    State(Add(s.a, r.a), Add(s.b, r.b), Add(s.c, r.c), Add(s.d, r.d),
          Add(s.e, r.e), Add(s.f, r.f), Add(s.g, r.g), Add(s.h, r.h))
  }

  function Compress(s: State, block: Bytes): State
    requires |block| == 64
  {
    Sum(s, Rounds(s, block, 64))
  }

  /** The hash value behind the first `n` blocks. */
  function Hash(message: Bytes, n: nat): State
    requires 64 * n <= |message|
  {
    if n == 0 then Initial() else Compress(Hash(message, n - 1), message[64 * (n - 1)..64 * n])
  }

  function WordBytes(w: Word): Bytes {
    ToBytes(w as nat, 4)
  }

  function StateBytes(s: State): Bytes {
    WordBytes(s.a) + WordBytes(s.b) + WordBytes(s.c) + WordBytes(s.d)
    + WordBytes(s.e) + WordBytes(s.f) + WordBytes(s.g) + WordBytes(s.h)
  }

  function Digest(message: Bytes): Bytes {
    PadLength(message);
    StateBytes(Hash(Pad(message), |Pad(message)| / 64))
  }

  // ----- The program -----

  method PadMessage(input: Bytes) returns (message: Bytes)
    ensures message == Pad(input)
  {
    hide ToBytes, ZeroCount;
    message := input + [0x80];
    ghost var k: nat := 0;
    assert message == input + [0x80] + Zeros(0);
    while |message| % 64 != 56
      invariant k <= ZeroCount(|input|) && message == input + [0x80] + Zeros(k)
      decreases ZeroCount(|input|) - k
    {
      assert !LeavesRoom(|input|, k);
      message := message + [0];
      k := k + 1;
      assert Zeros(k) == Zeros(k - 1) + [0];
    }
    assert LeavesRoom(|input|, k);
    message := message + ToBytes(BitLength(input), 8);
  }

  /** The program adds the four terms of the schedule in another order. */
  lemma ScheduleOrder(a: Word, b: Word, c: Word, d: Word)
    ensures Add4(d, c, b, a) == Add4(a, b, c, d)
  {
    assert d + c + b + a == a + b + c + d;
  }

  lemma ScheduleStep(block: Bytes, t: nat)
    requires |block| == 64 && 16 <= t < 64
    ensures W(block, t) ==
      Add4(W(block, t - 16), SmallSigma0(W(block, t - 15)), W(block, t - 7), SmallSigma1(W(block, t - 2)))
  {
    hide Add4, SmallSigma0, SmallSigma1, BigEndian;
    ScheduleOrder(SmallSigma1(W(block, t - 2)), W(block, t - 7), SmallSigma0(W(block, t - 15)), W(block, t - 16));
  }

  lemma ScheduleStart(block: Bytes, t: nat)
    requires |block| == 64 && t < 16
    ensures W(block, t) == BigEndian(block[4 * t..4 * t + 4]) as Word
  {
  }

  /** The schedule of one block, written into `w` from the front. */
  method ExpandSchedule(w: array<Word>, block: Bytes)
    requires w.Length == 64 && |block| == 64
    modifies w
    ensures forall t :: 0 <= t < 64 ==> w[t] == W(block, t)
  {
    hide SmallSigma0, SmallSigma1, BigEndian, Add4, W;
    for i := 0 to 16
      invariant forall t :: 0 <= t < i ==> w[t] == W(block, t)
    {
      ScheduleStart(block, i);
      w[i] := BigEndian(block[4 * i..4 * i + 4]) as Word;
    }
    for i := 16 to 64
      invariant forall t :: 0 <= t < i ==> w[t] == W(block, t)
    {
      var s0 := SmallSigma0(w[i - 15]);
      var s1 := SmallSigma1(w[i - 2]);
      ScheduleStep(block, i);
      w[i] := Add4(w[i - 16], s0, w[i - 7], s1);
    }
  }

  /** The eight words of an array as a state. */
  ghost function Words(h: array<Word>): State
    requires h.Length == 8
    reads h
  {
    State(h[0], h[1], h[2], h[3], h[4], h[5], h[6], h[7])
  }

  /** The 64 rounds on eight working variables, and the sums into the hash value. */
  method CompressBlock(h: array<Word>, w: array<Word>, block: Bytes)
    requires h.Length == 8 && w.Length == 64 && |block| == 64 && h != w
    requires forall t :: 0 <= t < 64 ==> w[t] == W(block, t)
    modifies h
    ensures Words(h) == Compress(old(Words(h)), block)
  {
    hide BigSigma0, BigSigma1, Ch, Maj, K, W, Add;
    var a, b, c, d := h[0], h[1], h[2], h[3];
    var e, f, g, hh := h[4], h[5], h[6], h[7];
    ghost var start := Words(h);
    for i := 0 to 64
      invariant State(a, b, c, d, e, f, g, hh) == Rounds(start, block, i)
    {
      var temp1 := Add(Add(Add(Add(hh, BigSigma1(e)), Ch(e, f, g)), K(i)), w[i]);
      var temp2 := Add(BigSigma0(a), Maj(a, b, c));
      hh := g;
      g := f;
      f := e;
      e := Add(d, temp1);
      d := c;
      c := b;
      b := a;
      a := Add(temp1, temp2);
    }
    hide Rounds;
    h[0] := Add(h[0], a);
    h[1] := Add(h[1], b);
    h[2] := Add(h[2], c);
    h[3] := Add(h[3], d);
    h[4] := Add(h[4], e);
    h[5] := Add(h[5], f);
    h[6] := Add(h[6], g);
    h[7] := Add(h[7], hh);
  }

  /** The number base-256 digits spell, most significant first. */
  function FromBytes(s: Bytes): (n: nat) {
    if s == [] then 0 else 256 * FromBytes(s[..|s| - 1]) + s[|s| - 1] as int
  }

  lemma {:induction false} FromToBytes(n: nat, width: nat)
    requires n < Power256(width)
    ensures FromBytes(ToBytes(n, width)) == n
  {
    if width > 0 {
      var s := ToBytes(n, width);
      FromToBytes(n / 256, width - 1);
      assert s[..|s| - 1] == ToBytes(n / 256, width - 1);
    }
  }

  lemma BigEndianIs(s: Bytes)
    requires |s| == 4
    ensures BigEndian(s) == FromBytes(s)
  {
    FromBytesStep(s);
    FromBytesStep(s[..3]);
    FromBytesStep(s[..2]);
    FromBytesStep(s[..1]);
    assert s[..3][..2] == s[..2] && s[..2][..1] == s[..1] && s[..1][..0] == [];
  }

  lemma FromBytesStep(s: Bytes)
    requires s != []
    ensures FromBytes(s) == 256 * FromBytes(s[..|s| - 1]) + s[|s| - 1] as int
  {
  }

  /** The four bytes of a word, most significant first, are the word. */
  lemma WordBytesSpell(w: Word)
    ensures |WordBytes(w)| == 4 && BigEndian(WordBytes(w)) == w as int
  {
    hide ToBytes, FromBytes, BigEndian;
    assert Power256(4) == 0x1_0000_0000 by { FourBytes(); }
    FromToBytes(w as nat, 4);
    BigEndianIs(WordBytes(w));
  }

  lemma FourBytes()
    ensures Power256(4) == 0x1_0000_0000
  {
    assert Power256(2) == 0x1_0000;
  }

  /** The four bytes of the word at a place. */
  predicate SpellsWord(out: Bytes, i: nat, w: Word) {
    4 * i + 4 <= |out| && BigEndian(out[4 * i..4 * i + 4]) == w as int
  }

  /** The words one behind the other, each most significant byte first. */
  method OutputBytes(h: array<Word>) returns (out: Bytes)
    requires h.Length == 8
    ensures |out| == 32 && forall i :: 0 <= i < 8 ==> SpellsWord(out, i, h[i])
    ensures out == StateBytes(Words(h))
  {
    hide WordBytes, BigEndian, SpellsWord;
    out := [];
    for i := 0 to 8
      invariant |out| == 4 * i && out == FirstWords(h[..], i)
      invariant forall j :: 0 <= j < i ==> SpellsWord(out, j, h[j])
    {
      WordBytesSpell(h[i]);
      SpelledBehind(out, WordBytes(h[i]), i, h[i]);
      forall j | 0 <= j < i ensures SpellsWord(out + WordBytes(h[i]), j, h[j]) {
        SpelledBefore(out, WordBytes(h[i]), j, h[j]);
      }
      out := out + WordBytes(h[i]);
    }
    AllWords(h[..]);
  }

  lemma SpelledBehind(out: Bytes, four: Bytes, i: nat, w: Word)
    requires |four| == 4 && |out| == 4 * i && BigEndian(four) == w as int
    ensures SpellsWord(out + four, i, w)
  {
    hide BigEndian;
    assert (out + four)[|out|..|out| + 4] == four;
  }

  lemma SpelledBefore(out: Bytes, more: Bytes, i: nat, w: Word)
    requires SpellsWord(out, i, w)
    ensures SpellsWord(out + more, i, w)
  {
    assert (out + more)[4 * i..4 * i + 4] == out[4 * i..4 * i + 4];
  }

  function FirstWords(words: seq<Word>, n: nat): Bytes
    requires n <= |words|
  {
    if n == 0 then [] else FirstWords(words, n - 1) + WordBytes(words[n - 1])
  }

  lemma AllWords(words: seq<Word>)
    requires |words| == 8
    ensures FirstWords(words, 8) ==
            StateBytes(State(words[0], words[1], words[2], words[3], words[4], words[5], words[6], words[7]))
  {
    hide WordBytes;
    assert FirstWords(words, 1) == WordBytes(words[0]);
    assert FirstWords(words, 3) == WordBytes(words[0]) + WordBytes(words[1]) + WordBytes(words[2]);
    assert FirstWords(words, 5) == FirstWords(words, 3) + WordBytes(words[3]) + WordBytes(words[4]);
    assert FirstWords(words, 7) == FirstWords(words, 5) + WordBytes(words[5]) + WordBytes(words[6]);
  }

  method InitialWords() returns (h: array<Word>)
    ensures fresh(h) && h.Length == 8 && Words(h) == Initial()
  {
    hide H0;
    h := new Word[8];
    h[0], h[1], h[2], h[3] := H0(0), H0(1), H0(2), H0(3);
    h[4], h[5], h[6], h[7] := H0(4), H0(5), H0(6), H0(7);
  }

  /** The whole program: its eight hash words and its schedule are overwritten block by block. */
  method Sha256(input: Bytes) returns (out: Bytes)
    ensures out == Digest(input)
  {
    hide Compress, Pad, W, StateBytes, Words, Initial, SpellsWord;
    var h := InitialWords();
    var message := PadMessage(input);
    PadLength(input);
    var w := new Word[64];
    var count := |message| / 64;
    for n := 0 to count
      invariant Words(h) == Hash(message, n)
    {
      var block := message[64 * n..64 * (n + 1)];
      ExpandSchedule(w, block);
      CompressBlock(h, w, block);
    }
    out := OutputBytes(h);
  }
}
