/** The hash function of FIPS 180-4: sections 4.1.2, 4.2.2, 5.1.1, 5.3.3 and 6.2. */
module Sha256Spec {
  import opened Arith
  import opened Bytes

  type Word = bv32

  // ----- Functions and constants (4.1.2, 4.2.2, 5.3.3) -------------------------------------------

  /** Addition of words, modulo 2^32. */
  function Plus(a: Word, b: Word): Word { a + b }

  function Xor3(a: Word, b: Word, c: Word): Word { a ^ b ^ c }

  function Ch(x: Word, y: Word, z: Word): Word { (x & y) ^ (!x & z) }
  function Maj(x: Word, y: Word, z: Word): Word { (x & y) ^ (x & z) ^ (y & z) }
  function Sigma0(x: Word): Word { Xor3(x.RotateRight(2), x.RotateRight(13), x.RotateRight(22)) }
  function Sigma1(x: Word): Word { Xor3(x.RotateRight(6), x.RotateRight(11), x.RotateRight(25)) }
  function Gamma0(x: Word): Word { Xor3(x.RotateRight(7), x.RotateRight(18), x >> 3) }
  function Gamma1(x: Word): Word { Xor3(x.RotateRight(17), x.RotateRight(19), x >> 10) }

  const K0: seq<Word> :=
    [0x428a2f98, 0x71374491, 0xb5c0fbcf, 0xe9b5dba5, 0x3956c25b, 0x59f111f1, 0x923f82a4, 0xab1c5ed5,
     0xd807aa98, 0x12835b01, 0x243185be, 0x550c7dc3, 0x72be5d74, 0x80deb1fe, 0x9bdc06a7, 0xc19bf174]
  const K1: seq<Word> :=
    [0xe49b69c1, 0xefbe4786, 0x0fc19dc6, 0x240ca1cc, 0x2de92c6f, 0x4a7484aa, 0x5cb0a9dc, 0x76f988da,
     0x983e5152, 0xa831c66d, 0xb00327c8, 0xbf597fc7, 0xc6e00bf3, 0xd5a79147, 0x06ca6351, 0x14292967]
  const K2: seq<Word> :=
    [0x27b70a85, 0x2e1b2138, 0x4d2c6dfc, 0x53380d13, 0x650a7354, 0x766a0abb, 0x81c2c92e, 0x92722c85,
     0xa2bfe8a1, 0xa81a664b, 0xc24b8b70, 0xc76c51a3, 0xd192e819, 0xd6990624, 0xf40e3585, 0x106aa070]
  const K3: seq<Word> :=
    [0x19a4c116, 0x1e376c08, 0x2748774c, 0x34b0bcb5, 0x391c0cb3, 0x4ed8aa4a, 0x5b9cca4f, 0x682e6ff3,
     0x748f82ee, 0x78a5636f, 0x84c87814, 0x8cc70208, 0x90befffa, 0xa4506ceb, 0xbef9a3f7, 0xc67178f2]

  const K := K0 + K1 + K2 + K3

  datatype Hash = Hash(a: Word, b: Word, c: Word, d: Word, e: Word, f: Word, g: Word, h: Word)

  const INITIAL := Hash(0x6a09e667, 0xbb67ae85, 0x3c6ef372, 0xa54ff53a, 0x510e527f, 0x9b05688c, 0x1f83d9ab, 0x5be0cd19)

  // ----- The compression of one block (6.2.2) ----------------------------------------------------

  /** Big-endian reading of the word at byte offset `at`. */
  function WordAt(block: seq<byte>, at: nat): Word
    requires at + 4 <= |block|
  {
    Joined(block[at] as bv8, block[at + 1] as bv8, block[at + 2] as bv8, block[at + 3] as bv8)
  }

  function Joined(a: bv8, b: bv8, c: bv8, d: bv8): Word {
    ((a as Word) << 24) | ((b as Word) << 16) | ((c as Word) << 8) | (d as Word)
  }

  function Schedule(block: seq<byte>, t: nat): Word
    requires |block| == 64
  {
    if t < 16 then WordAt(block, 4 * t)
    else
      Plus(Plus(Plus(Gamma1(Schedule(block, t - 2)), Schedule(block, t - 7)), Gamma0(Schedule(block, t - 15))), Schedule(block, t - 16))
  }

  function Round(v: Hash, k: Word, w: Word): Hash {
    var t1 := Plus(Plus(Plus(Plus(v.h, Sigma1(v.e)), Ch(v.e, v.f, v.g)), k), w);
    var t2 := Plus(Sigma0(v.a), Maj(v.a, v.b, v.c));
    Hash(Plus(t1, t2), v.a, v.b, v.c, Plus(v.d, t1), v.e, v.f, v.g)
  }

  function Rounds(v: Hash, block: seq<byte>, t: nat): Hash
    requires |block| == 64 && t <= 64
  {
    if t == 0 then v else Round(Rounds(v, block, t - 1), K[t - 1], Schedule(block, t - 1))
  }

  function Add(u: Hash, v: Hash): Hash {
    Hash(Plus(u.a, v.a), Plus(u.b, v.b), Plus(u.c, v.c), Plus(u.d, v.d),
         Plus(u.e, v.e), Plus(u.f, v.f), Plus(u.g, v.g), Plus(u.h, v.h))
  }

  function Compress(v: Hash, block: seq<byte>): Hash
    requires |block| == 64
  {
    Add(v, Rounds(v, block, 64))
  }

  /** The hash after all blocks of `bytes`. */
  function Fold(bytes: seq<byte>): Hash
    requires |bytes| % 64 == 0
  {
    if bytes == [] then INITIAL else Compress(Fold(bytes[..|bytes| - 64]), bytes[|bytes| - 64..])
  }

  // ----- Padding (5.1.1) and the digest ----------------------------------------------------------

  /** The smallest number of zero bytes that, with the end mark, leaves 8 bytes of the last block. */
  function ZeroCount(n: nat): (k: nat)
    ensures (n + 1 + k) % 64 == 56
  {
    (119 - n % 64) % 64
  }

  lemma ZeroCountIsLeast(n: nat, j: nat)
    requires (n + 1 + j) % 64 == 56
    ensures ZeroCount(n) <= j
  {
  }

  lemma WholeBlocks(n: nat)
    requires n % 64 == 56
    ensures (n + 8) % 64 == 0
  {
  }

  function Zeros(n: nat): (s: seq<byte>)
    ensures |s| == n
  {
    seq(n, _ => 0)
  }

  /** The last `n` base-256 digits of `x`, most significant first. */
  function BigEndian(x: nat, n: nat): (s: seq<byte>)
    ensures |s| == n
  {
    if n == 0 then [] else BigEndian(x / 256, n - 1) + [x % 256]
  }

  /** What follows the message: the end mark, zeros, and the number of bits. */
  function Padding(n: nat): (r: seq<byte>)
    ensures (n + |r|) % 64 == 0
  {
    WholeBlocks(n + 1 + ZeroCount(n));
    var r := [0x80] + Zeros(ZeroCount(n)) + BigEndian(8 * n, 8);
    assert |r| == 1 + ZeroCount(n) + 8;
    r
  }

  function Pad(msg: seq<byte>): (r: seq<byte>)
    ensures |r| % 64 == 0
  {
    msg + Padding(|msg|)
  }

  function WordBytes(x: Word): (s: seq<byte>)
    ensures |s| == 4
  {
    [Byte0(x) as int, Byte1(x) as int, Byte2(x) as int, Byte3(x) as int]
  }

  function Byte0(x: Word): bv8 { ((x >> 24) & 255) as bv8 }
  function Byte1(x: Word): bv8 { ((x >> 16) & 255) as bv8 }
  function Byte2(x: Word): bv8 { ((x >> 8) & 255) as bv8 }
  function Byte3(x: Word): bv8 { (x & 255) as bv8 }

  function WordsBytes(words: seq<Word>): seq<byte> {
    if words == [] then [] else WordsBytes(words[..|words| - 1]) + WordBytes(words[|words| - 1])
  }

  function HashBytes(v: Hash): seq<byte> {
    WordsBytes([v.a, v.b, v.c, v.d, v.e, v.f, v.g, v.h])
  }

  function Digest(msg: seq<byte>): seq<byte> {
    HashBytes(Fold(Pad(msg)))
  }

  // ----- The length field holds the length -------------------------------------------------------

  function FromBigEndian(s: seq<byte>): nat {
    if s == [] then 0 else 256 * FromBigEndian(s[..|s| - 1]) + s[|s| - 1]
  }

  function Pow256(n: nat): (p: nat)
    ensures p > 0
  {
    if n == 0 then 1 else 256 * Pow256(n - 1)
  }

  lemma {:induction false} BigEndianValue(x: nat, n: nat)
    requires x < Pow256(n)
    ensures FromBigEndian(BigEndian(x, n)) == x
  {
    if n > 0 {
      BigEndianValue(x / 256, n - 1);
      assert BigEndian(x, n)[..n - 1] == BigEndian(x / 256, n - 1);
    }
  }

  /** Between the message and the last 8 bytes stand one byte 0x80 and then only zeros, and all in all
      there are whole blocks. */
  lemma PadIs(msg: seq<byte>)
    ensures |Pad(msg)| % 64 == 0 && |msg| + 9 <= |Pad(msg)| <= |msg| + 72 && Pad(msg)[..|msg|] == msg
    ensures Pad(msg)[|msg|] == 0x80
    ensures forall i | |msg| < i < |Pad(msg)| - 8 :: Pad(msg)[i] == 0
  {
    hide BigEndian;
    assert |Padding(|msg|)| == ZeroCount(|msg|) + 9;
  }

  /** The padded message is whole blocks; for a message of less than 2^64 bits its last 8 bytes
      are the number of bits. */
  lemma PadEndsWithLength(msg: seq<byte>)
    requires 8 * |msg| < 0x1_0000_0000_0000_0000
    ensures |Pad(msg)| >= |msg| + 9 && msg < Pad(msg)
    ensures FromBigEndian(Pad(msg)[|Pad(msg)| - 8..]) == 8 * |msg|
  {
    Pow256Of8();
    BigEndianValue(8 * |msg|, 8);
    assert Pad(msg)[|Pad(msg)| - 8..] == BigEndian(8 * |msg|, 8);
  }

  // ----- Arithmetic of base-256 digits -------------------------------------------------------------

  /** Dividing in two steps, and the remainder that the last digit does not see. */
  lemma DigitSplit(x: nat, p: nat)
    requires p > 0
    ensures x / (256 * p) == (x / 256) / p
    ensures (x % (256 * p)) / 256 == (x / 256) % p && (x % (256 * p)) % 256 == x % 256
  {
    var q := x / 256;
    var a, b := q / p, q % p;
    assert q == a * p + b;
    assert x == 256 * q + x % 256;
    assert x == a * (256 * p) + (256 * b + x % 256) by {
      assert 256 * (a * p) == a * (256 * p);
    }
    DivModUnique(x, 256 * p, a, 256 * b + x % 256);
  }

  lemma {:induction false} BigEndianModulo(x: nat, n: nat)
    ensures BigEndian(x % Pow256(n), n) == BigEndian(x, n)
  {
    if n > 0 {
      DigitSplit(x, Pow256(n - 1));
      BigEndianModulo(x / 256, n - 1);
    }
  }

  lemma {:induction false} BigEndianAt(x: nat, n: nat, i: nat)
    requires i < n
    ensures BigEndian(x, n)[i] == (x / Pow256(n - 1 - i)) % 256
  {
    if i < n - 1 {
      BigEndianAt(x / 256, n - 1, i);
      DigitSplit(x, Pow256(n - 2 - i));
    } else {
      assert x / 1 == x;
    }
  }

  lemma Pow256Of8()
    ensures Pow256(8) == 0x1_0000_0000_0000_0000
  {
    assert Pow256(2) == 0x1_0000;
    assert Pow256(4) == 0x1_0000_0000;
    assert Pow256(6) == 0x1_0000_0000_0000;
  }
}
