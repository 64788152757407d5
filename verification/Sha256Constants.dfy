/** The constants of the hash function by what they are (sections 4.2.2 and 5.3.3 of FIPS 180-4), and
    its words and bytes by the numbers that they stand for (section 3.1). */
module Sha256Constants {
  import opened Arith
  import opened Bytes
  import opened Sha256Spec

  // ----- The first 64 primes ---------------------------------------------------------------------

  ghost predicate IsPrime(n: nat) {
    n >= 2 && forall d | 2 <= d < n :: n % d != 0
  }

  const PRIMES: seq<nat> :=
    [2, 3, 5, 7, 11, 13, 17, 19, 23, 29, 31, 37, 41, 43, 47, 53] +
    [59, 61, 67, 71, 73, 79, 83, 89, 97, 101, 103, 107, 109, 113, 127, 131] +
    [137, 139, 149, 151, 157, 163, 167, 173, 179, 181, 191, 193, 197, 199, 211, 223] +
    [227, 229, 233, 239, 241, 251, 257, 263, 269, 271, 277, 281, 283, 293, 307, 311]

  /** The number has a prime of at most 17 as a divisor, other than itself. */
  predicate Smooth(n: nat) {
    || (n > 2 && n % 2 == 0) || (n > 3 && n % 3 == 0) || (n > 5 && n % 5 == 0) || (n > 7 && n % 7 == 0)
    || (n > 11 && n % 11 == 0) || (n > 13 && n % 13 == 0) || (n > 17 && n % 17 == 0)
  }

  /** All numbers strictly between the two are smooth. */
  predicate AllSmooth(a: nat, b: nat)
    decreases b
  {
    b <= a + 1 || (Smooth(b - 1) && AllSmooth(a, b - 1))
  }

  lemma SmoothIsNoPrime(n: nat)
    requires Smooth(n)
    ensures !IsPrime(n)
  {
  }

  lemma {:induction false} NoPrimeBetween(a: nat, b: nat, n: nat)
    requires AllSmooth(a, b) && a < n < b
    ensures !IsPrime(n)
    decreases b
  {
    if n == b - 1 {
      SmoothIsNoPrime(n);
    } else {
      NoPrimeBetween(a, b - 1, n);
    }
  }

  /** A number of at most 17 other than 1 has one of these primes as a divisor. */
  lemma SmallDivisor(d: nat) returns (p: nat)
    requires 2 <= d <= 17
    ensures p in {2, 3, 5, 7, 11, 13, 17} && p <= d && d % p == 0
  {
    p := if d % 2 == 0 then 2 else if d % 3 == 0 then 3 else if d % 5 == 0 then 5 else d;
  }

  lemma DividesOn(n: nat, d: nat, p: nat)
    requires d > 0 && p > 0 && n % d == 0 && d % p == 0
    ensures n % p == 0
  {
    var a, b := n / d, d / p;
    assert n == d * a && d == p * b;
    assert n == p * (b * a);
    DivModUnique(n, p, b * a, 0);
  }

  lemma SmallOfPair(n: nat, d: nat)
    requires 2 <= d < n < 324 && n % d == 0
    ensures d <= 17 || (2 <= n / d <= 17 && n % (n / d) == 0)
  {
    var e := n / d;
    assert n == d * e;
    assert e >= 2 by {
      Times(d, e, 1);
    }
    assert d <= 17 || e <= 17 by {
      Times(d, 18, e);
      Times(18, 18, d);
    }
    DivModUnique(n, e, d, 0);
  }

  lemma Times(a: nat, b: nat, c: nat)
    ensures b <= c ==> a * b <= a * c
  {
    if b <= c {
      assert a * (c - b) >= 0;
    }
  }

  lemma RoughIsPrime(n: nat)
    requires 2 <= n < 324 && !Smooth(n)
    ensures IsPrime(n)
  {
    forall d | 2 <= d < n ensures n % d != 0 {
      if n % d == 0 {
        SmallOfPair(n, d);
        var small := if d <= 17 then d else n / d;
        var p := SmallDivisor(small);
        DividesOn(n, small, p);
      }
    }
  }

  /** From place `a` to place `b` the list goes from prime to next prime, as far as small divisors tell. */
  predicate Goes(a: nat, b: nat)
    requires b <= 63
    decreases b
  {
    b <= a || (Goes(a, b - 1) && 2 <= PRIMES[b - 1] < 324 && !Smooth(PRIMES[b - 1])
     && PRIMES[b - 1] < PRIMES[b] && AllSmooth(PRIMES[b - 1], PRIMES[b]))
  }

  lemma Goes0() ensures Goes(0, 4) {}
  lemma Goes4() ensures Goes(4, 8) {}
  lemma Goes8() ensures Goes(8, 12) {}
  lemma Goes12() ensures Goes(12, 16) {}
  lemma Goes16() ensures Goes(16, 20) {}
  lemma Goes20() ensures Goes(20, 24) {}
  lemma Goes24() ensures Goes(24, 28) {}
  lemma Goes28() ensures Goes(28, 32) { assert AllSmooth(113, 127); }
  lemma Goes32() ensures Goes(32, 36) {}
  lemma Goes36() ensures Goes(36, 40) {}
  lemma Goes40() ensures Goes(40, 44) {}
  lemma Goes44() ensures Goes(44, 48) {}
  lemma Goes48() ensures Goes(48, 52) {}
  lemma Goes52() ensures Goes(52, 56) {}
  lemma Goes56() ensures Goes(56, 60) {}
  lemma Goes60() ensures Goes(60, 63) { assert AllSmooth(293, 307); }

  lemma {:induction false} GoesAt(a: nat, b: nat, i: nat)
    requires a <= i < b <= 63 && Goes(a, b)
    ensures 2 <= PRIMES[i] < 324 && !Smooth(PRIMES[i])
    ensures PRIMES[i] < PRIMES[i + 1] && AllSmooth(PRIMES[i], PRIMES[i + 1])
    decreases b
  {
    hide Smooth, AllSmooth;
    if i < b - 1 {
      GoesAt(a, b - 1, i);
    }
  }

  lemma ListGoes(i: nat)
    requires i < 63
    ensures 2 <= PRIMES[i] < 324 && !Smooth(PRIMES[i])
    ensures PRIMES[i] < PRIMES[i + 1] && AllSmooth(PRIMES[i], PRIMES[i + 1])
  {
    hide Smooth, AllSmooth, Goes, PRIMES;
    Goes0(); Goes4(); Goes8(); Goes12(); Goes16(); Goes20(); Goes24(); Goes28();
    Goes32(); Goes36(); Goes40(); Goes44(); Goes48(); Goes52(); Goes56(); Goes60();
    GoesAt(i / 4 * 4, if i < 60 then i / 4 * 4 + 4 else 63, i);
  }

  /** They are the first 64 primes: each is one, and none is left out. */
  lemma FirstPrimes(i: nat)
    requires i < 64
    ensures IsPrime(PRIMES[i])
    ensures i == 0 ==> PRIMES[i] == 2
    ensures i < 63 ==> PRIMES[i] < PRIMES[i + 1] && forall n | PRIMES[i] < n < PRIMES[i + 1] :: !IsPrime(n)
  {
    if i < 63 {
      ListGoes(i);
      assert PRIMES[0] == 2;
      hide PRIMES;
      forall n | PRIMES[i] < n < PRIMES[i + 1] ensures !IsPrime(n) {
        NoPrimeBetween(PRIMES[i], PRIMES[i + 1], n);
      }
    } else {
      assert PRIMES[63] == 311 && !Smooth(311);
    }
    hide Smooth, IsPrime;
    RoughIsPrime(PRIMES[i]);
  }

  // ----- The constants ---------------------------------------------------------------------------

  function Square(x: nat): nat {
    x * x
  }

  function Cube(x: nat): nat {
    x * x * x
  }

  const TWO32 := 0x1_0000_0000

  /** `k` is the first 32 bits of the fraction of the square root of `p`. */
  ghost predicate IsRootFraction(p: nat, k: nat) {
    k < TWO32 && exists c: nat :: RootFits(p, k, c)
  }

  predicate RootFits(p: nat, k: nat, c: nat) {
    Square(c * TWO32 + k) <= p * Square(TWO32) < Square(c * TWO32 + k + 1)
  }

  /** `k` is the first 32 bits of the fraction of the cube root of `p`. */
  ghost predicate IsCubeRootFraction(p: nat, k: nat) {
    k < TWO32 && exists c: nat :: CubeFits(p, k, c)
  }

  predicate CubeFits(p: nat, k: nat, c: nat) {
    Cube(c * TWO32 + k) <= p * Cube(TWO32) < Cube(c * TWO32 + k + 1)
  }

  function WholeCubeRoot(p: nat): nat {
    if p < 8 then 1 else if p < 27 then 2 else if p < 64 then 3 else if p < 125 then 4 else if p < 216 then 5 else 6
  }

  predicate CubeRoots(a: nat, b: nat)
    requires b <= 64
    decreases b
  {
    b <= a ||
    (CubeRoots(a, b - 1) && CubeFits(PRIMES[b - 1], K[b - 1] as nat, WholeCubeRoot(PRIMES[b - 1])))
  }

  lemma CubeRoots0() ensures CubeRoots(0, 4) {}
  lemma CubeRoots4() ensures CubeRoots(4, 8) {}
  lemma CubeRoots8() ensures CubeRoots(8, 12) {}
  lemma CubeRoots12() ensures CubeRoots(12, 16) {}
  lemma CubeRoots16() ensures CubeRoots(16, 20) {}
  lemma CubeRoots20() ensures CubeRoots(20, 24) {}
  lemma CubeRoots24() ensures CubeRoots(24, 28) {}
  lemma CubeRoots28() ensures CubeRoots(28, 32) {}
  lemma CubeRoots32() ensures CubeRoots(32, 36) {}
  lemma CubeRoots36() ensures CubeRoots(36, 40) {}
  lemma CubeRoots40() ensures CubeRoots(40, 44) {}
  lemma CubeRoots44() ensures CubeRoots(44, 48) {}
  lemma CubeRoots48() ensures CubeRoots(48, 52) {}
  lemma CubeRoots52() ensures CubeRoots(52, 56) {}
  lemma CubeRoots56() ensures CubeRoots(56, 60) {}
  lemma CubeRoots60() ensures CubeRoots(60, 64) {}

  lemma {:induction false} CubeRootAt(a: nat, b: nat, i: nat)
    requires a <= i < b <= 64 && CubeRoots(a, b)
    ensures IsCubeRootFraction(PRIMES[i], K[i] as nat)
    decreases b
  {
    assert |PRIMES| == |K| == 64;
    hide CubeFits, WholeCubeRoot, PRIMES, K, IsCubeRootFraction;
    if i < b - 1 {
      CubeRootAt(a, b - 1, i);
    } else {
      WordBound(K[i]);
      HasCubeRoot(PRIMES[i], K[i] as nat, WholeCubeRoot(PRIMES[i]));
    }
  }

  lemma WordBound(x: Word)
    ensures x as nat < TWO32
  {
  }

  lemma HasCubeRoot(p: nat, k: nat, c: nat)
    requires k < TWO32 && CubeFits(p, k, c)
    ensures IsCubeRootFraction(p, k)
  {
    hide CubeFits;
  }

  lemma HasRoot(p: nat, k: nat, c: nat)
    requires k < TWO32 && RootFits(p, k, c)
    ensures IsRootFraction(p, k)
  {
    hide RootFits;
  }

  /** The constants of the rounds are the fractions of the cube roots of the first 64 primes. */
  lemma ConstantsAreCubeRoots(i: nat)
    requires i < 64
    ensures IsCubeRootFraction(PRIMES[i], K[i] as nat)
  {
    hide CubeRoots, IsCubeRootFraction, PRIMES, K;
    CubeRoots0(); CubeRoots4(); CubeRoots8(); CubeRoots12(); CubeRoots16(); CubeRoots20(); CubeRoots24(); CubeRoots28();
    CubeRoots32(); CubeRoots36(); CubeRoots40(); CubeRoots44(); CubeRoots48(); CubeRoots52(); CubeRoots56(); CubeRoots60();
    CubeRootAt(i / 4 * 4, i / 4 * 4 + 4, i);
  }

  /** The hash starts with the fractions of the square roots of the first eight. */
  lemma InitialIsSquareRoots(i: nat)
    requires i < 8
    ensures IsRootFraction(PRIMES[i], HashWord(INITIAL, i) as nat)
  {
    hide IsRootFraction;
    match i
    case 0 => HasRoot(2, 0x6a09e667, 1);
    case 1 => HasRoot(3, 0xbb67ae85, 1);
    case 2 => HasRoot(5, 0x3c6ef372, 2);
    case 3 => HasRoot(7, 0xa54ff53a, 2);
    case 4 => HasRoot(11, 0x510e527f, 3);
    case 5 => HasRoot(13, 0x9b05688c, 3);
    case 6 => HasRoot(17, 0x1f83d9ab, 4);
    case _ => HasRoot(19, 0x5be0cd19, 4);
  }

  // ----- Words and bytes -------------------------------------------------------------------------

  function HashWord(v: Hash, i: nat): Word
    requires i < 8
  {
    [v.a, v.b, v.c, v.d, v.e, v.f, v.g, v.h][i]
  }

  function Value(x: Word): nat {
    x as nat
  }

  lemma JoinBytes(a: bv8, b: bv8, c: bv8, d: bv8)
    ensures Value(((a as Word) << 24) | ((b as Word) << 16) | ((c as Word) << 8) | (d as Word)) ==
      a as nat * 0x1000000 + b as nat * 0x10000 + c as nat * 0x100 + d as nat
  {
  }

  lemma JoinedValue(a: bv8, b: bv8, c: bv8, d: bv8)
    ensures Value(Joined(a, b, c, d)) == a as nat * 0x1000000 + b as nat * 0x10000 + c as nat * 0x100 + d as nat
  {
    JoinBytes(a, b, c, d);
    hide Value;
  }

  lemma SplitWord(x: Word)
    ensures x == Joined(Byte0(x), Byte1(x), Byte2(x), Byte3(x))
  {
  }

  lemma NextByte(s: seq<byte>, x: byte)
    ensures FromBigEndian(s + [x]) == 256 * FromBigEndian(s) + x
  {
    assert (s + [x])[..|s|] == s;
  }

  lemma FourBytes(a: byte, b: byte, c: byte, d: byte)
    ensures FromBigEndian([a, b, c, d]) == a * 0x1000000 + b * 0x10000 + c * 0x100 + d
  {
    NextByte([], a);
    NextByte([a], b);
    NextByte([a, b], c);
    NextByte([a, b, c], d);
    assert [] + [a] == [a] && [a] + [b] == [a, b] && [a, b] + [c] == [a, b, c] && [a, b, c] + [d] == [a, b, c, d];
  }

  /** The bytes of a word are its value, most significant first. */
  lemma WordBytesValue(x: Word)
    ensures FromBigEndian(WordBytes(x)) == x as nat
  {
    assert Value(x) == x as nat;
    hide Joined, Byte0, Byte1, Byte2, Byte3, FromBigEndian, Value;
    SplitWord(x);
    JoinedValue(Byte0(x), Byte1(x), Byte2(x), Byte3(x));
    FourBytes(Byte0(x) as int, Byte1(x) as int, Byte2(x) as int, Byte3(x) as int);
  }

  /** The word read from four bytes has their value, most significant first. */
  lemma WordAtValue(block: seq<byte>, at: nat)
    requires at + 4 <= |block|
    ensures WordAt(block, at) as nat == FromBigEndian(block[at..at + 4])
  {
    assert Value(WordAt(block, at)) == WordAt(block, at) as nat;
    hide Joined, FromBigEndian, Value;
    var a, b, c, d := block[at], block[at + 1], block[at + 2], block[at + 3];
    ByteOfBits(a);
    ByteOfBits(b);
    ByteOfBits(c);
    ByteOfBits(d);
    JoinedValue(a as bv8, b as bv8, c as bv8, d as bv8);
    FourBytes(a, b, c, d);
    assert block[at..at + 4] == [a, b, c, d];
  }

  lemma {:induction false} WordsBytesAt(words: seq<Word>, i: nat)
    requires i < |words|
    ensures |WordsBytes(words)| == 4 * |words| && WordsBytes(words)[4 * i..4 * i + 4] == WordBytes(words[i])
  {
    hide WordBytes;
    var front := words[..|words| - 1];
    if i < |words| - 1 {
      WordsBytesAt(front, i);
      assert WordsBytes(words)[4 * i..4 * i + 4] == WordsBytes(front)[4 * i..4 * i + 4];
    } else if front != [] {
      WordsBytesAt(front, 0);
    }
  }

  /** Bytes 4i to 4i+3 of a digest are the value of word i of the hash of the padded message. */
  lemma DigestWord(msg: seq<byte>, i: nat)
    requires i < 8
    ensures |Digest(msg)| == 32
    ensures FromBigEndian(Digest(msg)[4 * i..4 * i + 4]) == HashWord(Fold(Pad(msg)), i) as nat
  {
    hide Fold, Pad, WordBytes, WordsBytes, FromBigEndian;
    var v := Fold(Pad(msg));
    WordsBytesAt([v.a, v.b, v.c, v.d, v.e, v.f, v.g, v.h], i);
    WordBytesValue(HashWord(v, i));
  }
}
