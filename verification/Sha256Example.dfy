/** The example of src/test/hash.cpp, worked through with the definitions of section 6.2 of
    FIPS 180-4: the digest of the empty message. */
module Sha256Example {
  import opened Bytes
  import opened Sha256Spec

  /** The only block of the empty message: the end mark, and zeros. */
  const BLOCK: seq<byte> := [0x80] + Zeros(63)

  lemma BlockIsPadding()
    ensures Pad([]) == BLOCK
  {
    assert ZeroCount(0) == 55;
    ZeroBytes(8);
    assert Zeros(55) + Zeros(8) == Zeros(63);
  }

  lemma {:induction false} ZeroBytes(n: nat)
    ensures BigEndian(0, n) == Zeros(n)
  {
    if n > 0 {
      ZeroBytes(n - 1);
    }
  }

  lemma FirstWords(t: nat)
    requires t < 16
    ensures Schedule(BLOCK, t) == if t == 0 then 0x80000000 else 0
  {
  }

  // ----- The words of the schedule, the constants, and the 64 rounds -----------------------------

  lemma Words16()
    ensures Schedule(BLOCK, 16) == 0x80000000 && Schedule(BLOCK, 17) == 0x00000000
    ensures Schedule(BLOCK, 18) == 0x00205000 && Schedule(BLOCK, 19) == 0x00000000
    ensures Schedule(BLOCK, 20) == 0x22000800 && Schedule(BLOCK, 21) == 0x00000000
    ensures Schedule(BLOCK, 22) == 0x05089542 && Schedule(BLOCK, 23) == 0x80000000
    ensures Schedule(BLOCK, 24) == 0x58080000 && Schedule(BLOCK, 25) == 0x0040a000
    ensures Schedule(BLOCK, 26) == 0x00162505 && Schedule(BLOCK, 27) == 0x66001800
    ensures Schedule(BLOCK, 28) == 0xd6222580 && Schedule(BLOCK, 29) == 0x14225508
    ensures Schedule(BLOCK, 30) == 0xd645f95c && Schedule(BLOCK, 31) == 0xc9282000
  {
    forall t | 0 <= t < 16 ensures Schedule(BLOCK, t) == if t == 0 then 0x80000000 else 0 {
      FirstWords(t);
    }
    hide WordAt;
  }

  lemma Words32()
    ensures Schedule(BLOCK, 32) == 0xc3f10094 && Schedule(BLOCK, 33) == 0x284ca766
    ensures Schedule(BLOCK, 34) == 0x06886dc6 && Schedule(BLOCK, 35) == 0xa37bf116
    ensures Schedule(BLOCK, 36) == 0x717cbe96 && Schedule(BLOCK, 37) == 0xfec2d74a
    ensures Schedule(BLOCK, 38) == 0xa7b67f00 && Schedule(BLOCK, 39) == 0x811596a2
    ensures Schedule(BLOCK, 40) == 0x98a6e768 && Schedule(BLOCK, 41) == 0x03b20c82
    ensures Schedule(BLOCK, 42) == 0x5d1da7c9 && Schedule(BLOCK, 43) == 0xb156b935
    ensures Schedule(BLOCK, 44) == 0xc3ddca11 && Schedule(BLOCK, 45) == 0x249c107f
    ensures Schedule(BLOCK, 46) == 0xc48d24ef && Schedule(BLOCK, 47) == 0x5de54c30
  {
    Words16();
    hide WordAt;
  }

  lemma Words48()
    ensures Schedule(BLOCK, 48) == 0xdefece65 && Schedule(BLOCK, 49) == 0x2ca1480d
    ensures Schedule(BLOCK, 50) == 0x3c15332c && Schedule(BLOCK, 51) == 0x01cec9ad
    ensures Schedule(BLOCK, 52) == 0x160cccd0 && Schedule(BLOCK, 53) == 0x0bacda98
    ensures Schedule(BLOCK, 54) == 0x361b8fe0 && Schedule(BLOCK, 55) == 0xd2320ba6
    ensures Schedule(BLOCK, 56) == 0x029b7007 && Schedule(BLOCK, 57) == 0x7546587c
    ensures Schedule(BLOCK, 58) == 0x07f54f39 && Schedule(BLOCK, 59) == 0xf808ddc3
    ensures Schedule(BLOCK, 60) == 0xdcca7608 && Schedule(BLOCK, 61) == 0x5e427188
    ensures Schedule(BLOCK, 62) == 0x44bcec5d && Schedule(BLOCK, 63) == 0x3b5ec49b
  {
    Words32();
    Words16();
    hide WordAt;
  }

  function Constant(t: nat): Word
    requires t < 64
  {
    if t < 16 then K0[t] else if t < 32 then K1[t - 16] else if t < 48 then K2[t - 32] else K3[t - 48]
  }

  lemma ConstantIs(t: nat)
    requires t < 64
    ensures Constant(t) == K[t]
  {
  }

  lemma Next(t: nat, v: Hash, k: Word, w: Word) returns (v': Hash)
    requires t < 64 && Rounds(INITIAL, BLOCK, t) == v && Constant(t) == k && Schedule(BLOCK, t) == w
    ensures Rounds(INITIAL, BLOCK, t + 1) == v' == Round(v, k, w)
  {
    ConstantIs(t);
    hide K, Constant, Round, Schedule;
    v' := Round(v, k, w);
  }

  lemma Constants0()
    ensures Constant(0) == 0x428a2f98 && Constant(1) == 0x71374491
    ensures Constant(2) == 0xb5c0fbcf && Constant(3) == 0xe9b5dba5
    ensures Constant(4) == 0x3956c25b && Constant(5) == 0x59f111f1
    ensures Constant(6) == 0x923f82a4 && Constant(7) == 0xab1c5ed5
    ensures Constant(8) == 0xd807aa98 && Constant(9) == 0x12835b01
    ensures Constant(10) == 0x243185be && Constant(11) == 0x550c7dc3
    ensures Constant(12) == 0x72be5d74 && Constant(13) == 0x80deb1fe
    ensures Constant(14) == 0x9bdc06a7 && Constant(15) == 0xc19bf174
  {
    hide K, K1, K2, K3;
  }

  lemma Constants16()
    ensures Constant(16) == 0xe49b69c1 && Constant(17) == 0xefbe4786
    ensures Constant(18) == 0x0fc19dc6 && Constant(19) == 0x240ca1cc
    ensures Constant(20) == 0x2de92c6f && Constant(21) == 0x4a7484aa
    ensures Constant(22) == 0x5cb0a9dc && Constant(23) == 0x76f988da
    ensures Constant(24) == 0x983e5152 && Constant(25) == 0xa831c66d
    ensures Constant(26) == 0xb00327c8 && Constant(27) == 0xbf597fc7
    ensures Constant(28) == 0xc6e00bf3 && Constant(29) == 0xd5a79147
    ensures Constant(30) == 0x06ca6351 && Constant(31) == 0x14292967
  {
    hide K, K0, K2, K3;
  }

  lemma Constants32()
    ensures Constant(32) == 0x27b70a85 && Constant(33) == 0x2e1b2138
    ensures Constant(34) == 0x4d2c6dfc && Constant(35) == 0x53380d13
    ensures Constant(36) == 0x650a7354 && Constant(37) == 0x766a0abb
    ensures Constant(38) == 0x81c2c92e && Constant(39) == 0x92722c85
    ensures Constant(40) == 0xa2bfe8a1 && Constant(41) == 0xa81a664b
    ensures Constant(42) == 0xc24b8b70 && Constant(43) == 0xc76c51a3
    ensures Constant(44) == 0xd192e819 && Constant(45) == 0xd6990624
    ensures Constant(46) == 0xf40e3585 && Constant(47) == 0x106aa070
  {
    hide K, K0, K1, K3;
  }

  lemma Constants48()
    ensures Constant(48) == 0x19a4c116 && Constant(49) == 0x1e376c08
    ensures Constant(50) == 0x2748774c && Constant(51) == 0x34b0bcb5
    ensures Constant(52) == 0x391c0cb3 && Constant(53) == 0x4ed8aa4a
    ensures Constant(54) == 0x5b9cca4f && Constant(55) == 0x682e6ff3
    ensures Constant(56) == 0x748f82ee && Constant(57) == 0x78a5636f
    ensures Constant(58) == 0x84c87814 && Constant(59) == 0x8cc70208
    ensures Constant(60) == 0x90befffa && Constant(61) == 0xa4506ceb
    ensures Constant(62) == 0xbef9a3f7 && Constant(63) == 0xc67178f2
  {
    hide K, K0, K1, K2;
  }

  lemma Rounds8()
    ensures Rounds(INITIAL, BLOCK, 8) ==
      Hash(0x7ad5b1b6, 0xf0205590, 0x292e3b42, 0x4366f730, 0x53f94dcb, 0x82ede06f, 0x4f6540fa, 0xe7d0641e)
  {
    hide K, Constant, Schedule;
    Constants0();
    forall t | 0 <= t < 16 ensures Schedule(BLOCK, t) == if t == 0 then 0x80000000 else 0 {
      FirstWords(t);
    }
    var v := Hash(0x6a09e667, 0xbb67ae85, 0x3c6ef372, 0xa54ff53a, 0x510e527f, 0x9b05688c, 0x1f83d9ab, 0x5be0cd19);
    v := Next(0, v, 0x428a2f98, 0x80000000);
    v := Next(1, v, 0x71374491, 0x00000000);
    v := Next(2, v, 0xb5c0fbcf, 0x00000000);
    v := Next(3, v, 0xe9b5dba5, 0x00000000);
    v := Next(4, v, 0x3956c25b, 0x00000000);
    v := Next(5, v, 0x59f111f1, 0x00000000);
    v := Next(6, v, 0x923f82a4, 0x00000000);
    v := Next(7, v, 0xab1c5ed5, 0x00000000);
  }

  lemma Rounds16()
    ensures Rounds(INITIAL, BLOCK, 16) ==
      Hash(0xb40085b5, 0xb88afddb, 0x45c013a7, 0x2102d2cd, 0x5cb8e863, 0x1ccfac39, 0x2b427296, 0xcdfdfe52)
  {
    hide K, Constant, Schedule, Rounds;
    Rounds8();
    Constants0();
    forall t | 0 <= t < 16 ensures Schedule(BLOCK, t) == if t == 0 then 0x80000000 else 0 {
      FirstWords(t);
    }
    var v := Hash(0x7ad5b1b6, 0xf0205590, 0x292e3b42, 0x4366f730, 0x53f94dcb, 0x82ede06f, 0x4f6540fa, 0xe7d0641e);
    v := Next(8, v, 0xd807aa98, 0x00000000);
    v := Next(9, v, 0x12835b01, 0x00000000);
    v := Next(10, v, 0x243185be, 0x00000000);
    v := Next(11, v, 0x550c7dc3, 0x00000000);
    v := Next(12, v, 0x72be5d74, 0x00000000);
    v := Next(13, v, 0x80deb1fe, 0x00000000);
    v := Next(14, v, 0x9bdc06a7, 0x00000000);
    v := Next(15, v, 0xc19bf174, 0x00000000);
  }

  lemma Rounds24()
    ensures Rounds(INITIAL, BLOCK, 24) ==
      Hash(0x985bed55, 0x404d8054, 0x99a6cb19, 0x75c7f0d8, 0x2c2c028d, 0xb1653710, 0xc287981e, 0x39953ccd)
  {
    hide K, Constant, Schedule, Rounds;
    Rounds16();
    Constants16();
    Words16();
    var v := Hash(0xb40085b5, 0xb88afddb, 0x45c013a7, 0x2102d2cd, 0x5cb8e863, 0x1ccfac39, 0x2b427296, 0xcdfdfe52);
    v := Next(16, v, 0xe49b69c1, 0x80000000);
    v := Next(17, v, 0xefbe4786, 0x00000000);
    v := Next(18, v, 0x0fc19dc6, 0x00205000);
    v := Next(19, v, 0x240ca1cc, 0x00000000);
    v := Next(20, v, 0x2de92c6f, 0x22000800);
    v := Next(21, v, 0x4a7484aa, 0x00000000);
    v := Next(22, v, 0x5cb0a9dc, 0x05089542);
    v := Next(23, v, 0x76f988da, 0x80000000);
  }

  lemma Rounds32()
    ensures Rounds(INITIAL, BLOCK, 32) ==
      Hash(0x11e7025f, 0xa0bb0cdf, 0x72d3a00d, 0x64bc9e1c, 0xbbd7846c, 0x564a6626, 0xb04ab22d, 0x95696b75)
  {
    hide K, Constant, Schedule, Rounds;
    Rounds24();
    Constants16();
    Words16();
    var v := Hash(0x985bed55, 0x404d8054, 0x99a6cb19, 0x75c7f0d8, 0x2c2c028d, 0xb1653710, 0xc287981e, 0x39953ccd);
    v := Next(24, v, 0x983e5152, 0x58080000);
    v := Next(25, v, 0xa831c66d, 0x0040a000);
    v := Next(26, v, 0xb00327c8, 0x00162505);
    v := Next(27, v, 0xbf597fc7, 0x66001800);
    v := Next(28, v, 0xc6e00bf3, 0xd6222580);
    v := Next(29, v, 0xd5a79147, 0x14225508);
    v := Next(30, v, 0x06ca6351, 0xd645f95c);
    v := Next(31, v, 0x14292967, 0xc9282000);
  }

  lemma Rounds40()
    ensures Rounds(INITIAL, BLOCK, 40) ==
      Hash(0x499911b1, 0x9e58e42f, 0x56e3dc4e, 0xa096535d, 0x716bb025, 0x85a71424, 0xe807ea7f, 0xfac06aed)
  {
    hide K, Constant, Schedule, Rounds;
    Rounds32();
    Constants32();
    Words32();
    var v := Hash(0x11e7025f, 0xa0bb0cdf, 0x72d3a00d, 0x64bc9e1c, 0xbbd7846c, 0x564a6626, 0xb04ab22d, 0x95696b75);
    v := Next(32, v, 0x27b70a85, 0xc3f10094);
    v := Next(33, v, 0x2e1b2138, 0x284ca766);
    v := Next(34, v, 0x4d2c6dfc, 0x06886dc6);
    v := Next(35, v, 0x53380d13, 0xa37bf116);
    v := Next(36, v, 0x650a7354, 0x717cbe96);
    v := Next(37, v, 0x766a0abb, 0xfec2d74a);
    v := Next(38, v, 0x81c2c92e, 0xa7b67f00);
    v := Next(39, v, 0x92722c85, 0x811596a2);
  }

  lemma Rounds48()
    ensures Rounds(INITIAL, BLOCK, 48) ==
      Hash(0x365a34cd, 0x54982d6c, 0x32fa442b, 0xa40972d4, 0xcbb3f8eb, 0x8a6a82b2, 0xd285c679, 0xaa2c1810)
  {
    hide K, Constant, Schedule, Rounds;
    Rounds40();
    Constants32();
    Words32();
    var v := Hash(0x499911b1, 0x9e58e42f, 0x56e3dc4e, 0xa096535d, 0x716bb025, 0x85a71424, 0xe807ea7f, 0xfac06aed);
    v := Next(40, v, 0xa2bfe8a1, 0x98a6e768);
    v := Next(41, v, 0xa81a664b, 0x03b20c82);
    v := Next(42, v, 0xc24b8b70, 0x5d1da7c9);
    v := Next(43, v, 0xc76c51a3, 0xb156b935);
    v := Next(44, v, 0xd192e819, 0xc3ddca11);
    v := Next(45, v, 0xd6990624, 0x249c107f);
    v := Next(46, v, 0xf40e3585, 0xc48d24ef);
    v := Next(47, v, 0x106aa070, 0x5de54c30);
  }

  lemma Rounds56()
    ensures Rounds(INITIAL, BLOCK, 56) ==
      Hash(0x01638014, 0x2caf58ca, 0x3a0e9477, 0xb1b29c90, 0xadf94e0a, 0xe588e598, 0xfd99936e, 0x43a5def8)
  {
    hide K, Constant, Schedule, Rounds;
    Rounds48();
    Constants48();
    Words48();
    var v := Hash(0x365a34cd, 0x54982d6c, 0x32fa442b, 0xa40972d4, 0xcbb3f8eb, 0x8a6a82b2, 0xd285c679, 0xaa2c1810);
    v := Next(48, v, 0x19a4c116, 0xdefece65);
    v := Next(49, v, 0x1e376c08, 0x2ca1480d);
    v := Next(50, v, 0x2748774c, 0x3c15332c);
    v := Next(51, v, 0x34b0bcb5, 0x01cec9ad);
    v := Next(52, v, 0x391c0cb3, 0x160cccd0);
    v := Next(53, v, 0x4ed8aa4a, 0x0bacda98);
    v := Next(54, v, 0x5b9cca4f, 0x361b8fe0);
    v := Next(55, v, 0x682e6ff3, 0xd2320ba6);
  }

  lemma Rounds64()
    ensures Rounds(INITIAL, BLOCK, 64) ==
      Hash(0x79a6dddb, 0xdd946d8f, 0x5e8d0156, 0xf41fc3ea, 0xd69fef65, 0xc9962ac0, 0x8511bf70, 0x1c71eb3c)
  {
    hide K, Constant, Schedule, Rounds;
    Rounds56();
    Constants48();
    Words48();
    var v := Hash(0x01638014, 0x2caf58ca, 0x3a0e9477, 0xb1b29c90, 0xadf94e0a, 0xe588e598, 0xfd99936e, 0x43a5def8);
    v := Next(56, v, 0x748f82ee, 0x029b7007);
    v := Next(57, v, 0x78a5636f, 0x7546587c);
    v := Next(58, v, 0x84c87814, 0x07f54f39);
    v := Next(59, v, 0x8cc70208, 0xf808ddc3);
    v := Next(60, v, 0x90befffa, 0xdcca7608);
    v := Next(61, v, 0xa4506ceb, 0x5e427188);
    v := Next(62, v, 0xbef9a3f7, 0x44bcec5d);
    v := Next(63, v, 0xc67178f2, 0x3b5ec49b);
  }

  // ----- The digest ------------------------------------------------------------------------------

  lemma FoldOfEmpty()
    ensures Fold(Pad([])) ==
      Hash(0xe3b0c442, 0x98fc1c14, 0x9afbf4c8, 0x996fb924, 0x27ae41e4, 0x649b934c, 0xa495991b, 0x7852b855)
  {
    BlockIsPadding();
    Rounds64();
    hide Pad, Rounds;
    assert BLOCK[..0] == [] && BLOCK[0..] == BLOCK && |BLOCK| == 64;
    assert Fold(BLOCK) == Compress(Fold([]), BLOCK);
    assert Fold([]) == INITIAL;
  }

  lemma OneMore(words: seq<Word>, w: Word)
    ensures WordsBytes(words + [w]) == WordsBytes(words) + WordBytes(w)
  {
  }

  lemma TwoWords(a: Word, b: Word)
    ensures WordsBytes([a, b]) == WordBytes(a) + WordBytes(b)
  {
    hide WordBytes;
    OneMore([], a);
    OneMore([a], b);
    assert [a] + [b] == [a, b] && [] + [a] == [a];
  }

  lemma TwoMore(words: seq<Word>, a: Word, b: Word)
    ensures WordsBytes(words + [a, b]) == WordsBytes(words) + (WordBytes(a) + WordBytes(b))
  {
    OneMore(words, a);
    OneMore(words + [a], b);
    hide WordsBytes, WordBytes;
    assert words + [a, b] == words + [a] + [b];
  }

  lemma HashBytesAre(v: Hash)
    ensures HashBytes(v) == WordBytes(v.a) + WordBytes(v.b) + (WordBytes(v.c) + WordBytes(v.d))
      + (WordBytes(v.e) + WordBytes(v.f)) + (WordBytes(v.g) + WordBytes(v.h))
  {
    TwoWords(v.a, v.b);
    TwoMore([v.a, v.b], v.c, v.d);
    TwoMore([v.a, v.b] + [v.c, v.d], v.e, v.f);
    TwoMore([v.a, v.b] + [v.c, v.d] + [v.e, v.f], v.g, v.h);
    hide WordsBytes, WordBytes;
    assert [v.a, v.b, v.c, v.d, v.e, v.f, v.g, v.h] == [v.a, v.b] + [v.c, v.d] + [v.e, v.f] + [v.g, v.h];
  }

  lemma BytesOfWords()
    ensures WordBytes(0xe3b0c442) == [0xe3, 0xb0, 0xc4, 0x42]
    ensures WordBytes(0x98fc1c14) == [0x98, 0xfc, 0x1c, 0x14]
    ensures WordBytes(0x9afbf4c8) == [0x9a, 0xfb, 0xf4, 0xc8]
    ensures WordBytes(0x996fb924) == [0x99, 0x6f, 0xb9, 0x24]
    ensures WordBytes(0x27ae41e4) == [0x27, 0xae, 0x41, 0xe4]
    ensures WordBytes(0x649b934c) == [0x64, 0x9b, 0x93, 0x4c]
    ensures WordBytes(0xa495991b) == [0xa4, 0x95, 0x99, 0x1b]
    ensures WordBytes(0x7852b855) == [0x78, 0x52, 0xb8, 0x55]
  {
  }

  /** The digest of the empty message, as the test of the repository has it. */
  lemma DigestOfEmpty()
    ensures Digest([]) ==
      [0xe3, 0xb0, 0xc4, 0x42, 0x98, 0xfc, 0x1c, 0x14, 0x9a, 0xfb, 0xf4, 0xc8, 0x99, 0x6f, 0xb9, 0x24]
      + [0x27, 0xae, 0x41, 0xe4, 0x64, 0x9b, 0x93, 0x4c, 0xa4, 0x95, 0x99, 0x1b, 0x78, 0x52, 0xb8, 0x55]
  {
    FoldOfEmpty();
    BytesOfWords();
    hide Fold, Pad, WordBytes, HashBytes;
    HashBytesAre(Fold(Pad([])));
  }
}
