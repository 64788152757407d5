/** Facts about the bits of words, each for the solver alone. */
module WordBits {
  lemma Choice(x: bv32, y: bv32, z: bv32)
    ensures z ^ (x & (y ^ z)) == (x & y) ^ (!x & z)
  {
  }

  lemma Majority(x: bv32, y: bv32, z: bv32)
    ensures ((x | y) & z) | (x & y) == (x & y) ^ (x & z) ^ (y & z)
  {
  }
}

/** The streaming SHA-256 of src/base/hash_libtomcrypt.cpp. */
module Sha256 {
  import opened Bytes
  import opened Sha256Spec
  import opened WordBits

  // ----- The bit functions as the program writes them --------------------------------------------

  function ChBits(x: Word, y: Word, z: Word): Word { z ^ (x & (y ^ z)) }
  function MajBits(x: Word, y: Word, z: Word): Word { ((x | y) & z) | (x & y) }
  function Rot(x: Word, n: Word): Word { (x >> (n & 31)) | (x << (32 - (n & 31))) }
  function Sigma0Bits(x: Word): Word { Xor3(Rot(x, 2), Rot(x, 13), Rot(x, 22)) }
  function Sigma1Bits(x: Word): Word { Xor3(Rot(x, 6), Rot(x, 11), Rot(x, 25)) }
  function Gamma0Bits(x: Word): Word { Xor3(Rot(x, 7), Rot(x, 18), x >> 3) }
  function Gamma1Bits(x: Word): Word { Xor3(Rot(x, 17), Rot(x, 19), x >> 10) }

  lemma ChAgrees(x: Word, y: Word, z: Word)
    ensures ChBits(x, y, z) == Ch(x, y, z)
  {
    Choice(x, y, z);
  }

  lemma MajAgrees(x: Word, y: Word, z: Word)
    ensures MajBits(x, y, z) == Maj(x, y, z)
  {
    Majority(x, y, z);
  }

  lemma Sigma0Agrees(x: Word)
    ensures Sigma0Bits(x) == Sigma0(x)
  {
    Rot2(x);
    Rot13(x);
    Rot22(x);
  }

  lemma Sigma1Agrees(x: Word)
    ensures Sigma1Bits(x) == Sigma1(x)
  {
    Rot6(x);
    Rot11(x);
    Rot25(x);
  }

  lemma Gamma0Agrees(x: Word)
    ensures Gamma0Bits(x) == Gamma0(x)
  {
    Rot7(x);
    Rot18(x);
  }

  lemma Gamma1Agrees(x: Word)
    ensures Gamma1Bits(x) == Gamma1(x)
  {
    Rot17(x);
    Rot19(x);
  }

  lemma Rot2(x: Word) ensures Rot(x, 2) == x.RotateRight(2) {}
  lemma Rot6(x: Word) ensures Rot(x, 6) == x.RotateRight(6) {}
  lemma Rot7(x: Word) ensures Rot(x, 7) == x.RotateRight(7) {}
  lemma Rot11(x: Word) ensures Rot(x, 11) == x.RotateRight(11) {}
  lemma Rot13(x: Word) ensures Rot(x, 13) == x.RotateRight(13) {}
  lemma Rot17(x: Word) ensures Rot(x, 17) == x.RotateRight(17) {}
  lemma Rot18(x: Word) ensures Rot(x, 18) == x.RotateRight(18) {}
  lemma Rot19(x: Word) ensures Rot(x, 19) == x.RotateRight(19) {}
  lemma Rot22(x: Word) ensures Rot(x, 22) == x.RotateRight(22) {}
  lemma Rot25(x: Word) ensures Rot(x, 25) == x.RotateRight(25) {}

  /** The eight registers as the hash value of the standard. */
  function ToHash(s: seq<Word>): Hash
    requires |s| == 8
  {
    Hash(s[0], s[1], s[2], s[3], s[4], s[5], s[6], s[7])
  }

  lemma AddAt(u: seq<Word>, v: seq<Word>, r: seq<Word>)
    requires |u| == |v| == |r| == 8
    requires forall j | 0 <= j < 8 :: r[j] == Plus(u[j], v[j])
    ensures ToHash(r) == Add(ToHash(u), ToHash(v))
  {
    hide Plus;
  }

  // ----- Absorbing a message -----------------------------------------------------------------------

  const U32 := 0x1_0000_0000
  const U64 := 0x1_0000_0000_0000_0000

  /** `hash`, `tail` and `length` stand for the message: the hash of its whole blocks, the rest, and
      the number of bits in the blocks, as far as 64 bits hold it. */
  ghost predicate Absorbed(msg: seq<byte>, hash: Hash, tail: seq<byte>, length: nat) {
    Chained(msg, hash, tail) && length == 8 * (|msg| - |tail|) % U64
  }

  ghost predicate Chained(msg: seq<byte>, hash: Hash, tail: seq<byte>) {
    && |tail| == |msg| % 64
    && (var n := |msg| - |tail|; n % 64 == 0 && tail == msg[n..] && hash == Fold(msg[..n]))
  }

  lemma FoldBlock(bytes: seq<byte>, block: seq<byte>)
    requires |bytes| % 64 == 0 && |block| == 64
    ensures |bytes + block| % 64 == 0 && Fold(bytes + block) == Sha256Spec.Compress(Fold(bytes), block)
  {
    hide Sha256Spec.Compress;
    assert (bytes + block)[..|bytes + block| - 64] == bytes;
    assert (bytes + block)[|bytes + block| - 64..] == block;
  }

  lemma FoldTwoBlocks(bytes: seq<byte>, first: seq<byte>, second: seq<byte>)
    requires |bytes| % 64 == 0 && |first| == |second| == 64
    ensures |bytes + first + second| % 64 == 0
    ensures Fold(bytes + first + second) == Sha256Spec.Compress(Sha256Spec.Compress(Fold(bytes), first), second)
  {
    hide Fold;
    hide Sha256Spec.Compress;
    FoldBlock(bytes, first);
    FoldBlock(bytes + first, second);
  }

  lemma NextLength(n: nat, a: nat, b: nat)
    requires n % 64 == a && a + b <= 64
    ensures (n + b) % 64 == if a + b < 64 then a + b else 0
    ensures (n - a) % 64 == 0 && (n - a + 64) % 64 == 0
  {
  }

  lemma ChainPart(msg: seq<byte>, hash: Hash, tail: seq<byte>, chunk: seq<byte>)
    requires Chained(msg, hash, tail) && |tail| + |chunk| < 64
    ensures Chained(msg + chunk, hash, tail + chunk)
  {
    hide Fold;
    var n := |msg| - |tail|;
    NextLength(|msg|, |tail|, |chunk|);
    assert (msg + chunk)[..n] == msg[..n];
    assert (msg + chunk)[n..] == msg[n..] + chunk;
  }

  lemma ChainBlock(msg: seq<byte>, hash: Hash, tail: seq<byte>, chunk: seq<byte>)
    requires Chained(msg, hash, tail) && |tail| + |chunk| == 64
    ensures Chained(msg + chunk, Sha256Spec.Compress(hash, tail + chunk), [])
  {
    hide Fold;
    hide Sha256Spec.Compress;
    var n := |msg| - |tail|;
    NextLength(|msg|, |tail|, |chunk|);
    FoldBlock(msg[..n], tail + chunk);
    assert msg + chunk == msg[..n] + (tail + chunk);
    assert (msg + chunk)[..n + 64] == msg + chunk;
  }

  lemma AbsorbPart(msg: seq<byte>, hash: Hash, tail: seq<byte>, length: nat, chunk: seq<byte>)
    requires Absorbed(msg, hash, tail, length) && |tail| + |chunk| < 64
    ensures Absorbed(msg + chunk, hash, tail + chunk, length)
  {
    ChainPart(msg, hash, tail, chunk);
    hide Chained;
    assert |msg + chunk| - |tail + chunk| == |msg| - |tail|;
  }

  lemma AbsorbBlock(msg: seq<byte>, hash: Hash, tail: seq<byte>, length: nat, chunk: seq<byte>)
    requires Absorbed(msg, hash, tail, length) && |tail| + |chunk| == 64
    ensures Absorbed(msg + chunk, Sha256Spec.Compress(hash, tail + chunk), [], (length + 512) % U64)
  {
    ChainBlock(msg, hash, tail, chunk);
    hide Chained, Sha256Spec.Compress;
    ModAdd(8 * (|msg| - |tail|), 512);
    assert 8 * (|msg + chunk| - 0) == 8 * (|msg| - |tail|) + 512;
  }

  /** What stands for a message does not stand for one that is too long by a multiple of 2^32 bytes,
      since its number of bits tells them apart. */
  lemma TooLong(msg: seq<byte>, data: seq<byte>, hash: Hash, tail: seq<byte>, length: nat)
    requires U32 <= |data| < U64 / 8 && Absorbed(msg + data[..|data| % U32], hash, tail, length)
    ensures !Absorbed(msg + data, hash, tail, length)
  {
    hide Chained;
    var whole, rest := |msg| + |data| % U32 - |tail|, |data| - |data| % U32;
    assert |msg + data| - |tail| == whole + rest && 0 < 8 * rest < U64;
    NotCongruent(8 * whole, 8 * rest);
  }

  lemma NotCongruent(a: int, b: int)
    requires 0 < b < U64
    ensures (a + b) % U64 != a % U64
  {
  }

  lemma ShortPadding(n: nat)
    requires n % 64 <= 55
    ensures Padding(n) == [0x80] + Zeros(55 - n % 64) + BigEndian(8 * n, 8)
  {
    hide BigEndian;
    hide Zeros;
    assert ZeroCount(n) == 55 - n % 64;
  }

  lemma LongPadding(n: nat)
    requires n % 64 > 55
    ensures Padding(n) == [0x80] + Zeros(63 - n % 64) + (Zeros(56) + BigEndian(8 * n, 8))
  {
    hide BigEndian;
    assert ZeroCount(n) == 119 - n % 64;
    assert Zeros(63 - n % 64) + Zeros(56) == Zeros(119 - n % 64);
  }

  /** Whole blocks, the rest and what follows the message are the padded message. */
  lemma PadSplit(msg: seq<byte>, tail: seq<byte>)
    requires |tail| <= |msg| && tail == msg[|msg| - |tail|..]
    ensures Pad(msg) == msg[..|msg| - |tail|] + (tail + Padding(|msg|))
  {
    hide Padding;
    assert msg == msg[..|msg| - |tail|] + tail;
  }

  lemma OneBlock(msg: seq<byte>, tail: seq<byte>, block: seq<byte>)
    requires |tail| <= |msg| && tail == msg[|msg| - |tail|..] && |tail| == |msg| % 64 <= 55
    requires block == tail + [0x80] + Zeros(55 - |tail|) + BigEndian(8 * |msg|, 8)
    ensures Pad(msg) == msg[..|msg| - |tail|] + block
  {
    hide BigEndian;
    hide Zeros;
    hide Padding;
    hide Pad;
    ShortPadding(|msg|);
    PadSplit(msg, tail);
    assert block == tail + ([0x80] + Zeros(55 - |tail|) + BigEndian(8 * |msg|, 8));
  }

  lemma OneBlockLength(tail: seq<byte>, block: seq<byte>, n: nat)
    requires |tail| <= 55 && block == tail + [0x80] + Zeros(55 - |tail|) + BigEndian(n, 8)
    ensures |block| == 64
  {
    hide Zeros, BigEndian;
  }

  lemma FinishOneBlock(msg: seq<byte>, hash: Hash, tail: seq<byte>, block: seq<byte>)
    requires Chained(msg, hash, tail) && |tail| <= 55
    requires block == tail + [0x80] + Zeros(55 - |tail|) + BigEndian(8 * |msg|, 8)
    ensures |block| == 64 && Sha256Spec.Compress(hash, block) == Fold(Pad(msg))
  {
    hide Fold, Pad, Sha256Spec.Compress, BigEndian, Zeros;
    OneBlockLength(tail, block, 8 * |msg|);
    OneBlock(msg, tail, block);
    FoldBlock(msg[..|msg| - |tail|], block);
  }

  lemma TwoBlocks(msg: seq<byte>, tail: seq<byte>, first: seq<byte>, second: seq<byte>)
    requires |tail| <= |msg| && tail == msg[|msg| - |tail|..] && |tail| == |msg| % 64 > 55
    requires first == tail + [0x80] + Zeros(63 - |tail|)
    requires second == Zeros(56) + BigEndian(8 * |msg|, 8)
    ensures Pad(msg) == msg[..|msg| - |tail|] + first + second
  {
    hide BigEndian;
    hide Zeros;
    hide Padding;
    hide Pad;
    LongPadding(|msg|);
    PadSplit(msg, tail);
    var z, p := [0x80] + Zeros(63 - |tail|), msg[..|msg| - |tail|];
    assert first == tail + z;
    assert p + (tail + (z + second)) == p + (tail + z) + second;
  }

  lemma TwoBlocksLength(tail: seq<byte>, first: seq<byte>, second: seq<byte>, n: nat)
    requires |tail| <= 63 && first == tail + [0x80] + Zeros(63 - |tail|) && second == Zeros(56) + BigEndian(n, 8)
    ensures |first| == 64 && |second| == 64
  {
    hide Zeros, BigEndian;
  }

  lemma FinishTwoBlocks(msg: seq<byte>, hash: Hash, tail: seq<byte>, first: seq<byte>, second: seq<byte>)
    requires Chained(msg, hash, tail) && |tail| > 55
    requires first == tail + [0x80] + Zeros(63 - |tail|)
    requires second == Zeros(56) + BigEndian(8 * |msg|, 8)
    ensures |first| == 64 && |second| == 64
    ensures Sha256Spec.Compress(Sha256Spec.Compress(hash, first), second) == Fold(Pad(msg))
  {
    hide Fold, Pad, Sha256Spec.Compress, BigEndian, Zeros;
    TwoBlocksLength(tail, first, second, 8 * |msg|);
    TwoBlocks(msg, tail, first, second);
    FoldTwoBlocks(msg[..|msg| - |tail|], first, second);
  }

  lemma ModAdd(a: nat, b: nat)
    ensures (a % U64 + b) % U64 == (a + b) % U64
  {
  }

  lemma LengthField(msg: seq<byte>, hash: Hash, tail: seq<byte>, length: nat)
    requires Absorbed(msg, hash, tail, length)
    ensures Chained(msg, hash, tail)
    ensures BigEndian((length + 8 * |tail|) % U64, 8) == BigEndian(8 * |msg|, 8)
  {
    hide Fold;
    hide BigEndian;
    assert BigEndian(8 * |msg| % U64, 8) == BigEndian(8 * |msg|, 8) by {
      Pow256Of8();
      BigEndianModulo(8 * |msg|, 8);
    }
    ModAdd(8 * (|msg| - |tail|), 8 * |tail|);
  }

  // ----- The streaming state ---------------------------------------------------------------------

  class Context {
    var state: array<Word>
    var buf: array<byte>
    var curlen: nat
    var length: nat

    ghost predicate Shape()
      reads this
    {
      state.Length == 8 && buf.Length == 64 && curlen <= 64
    }

    ghost function AsHash(): Hash
      reads this, state
      requires Shape()
    {
      ToHash(state[..])
    }

    /** Replaces the state by its compression with one block. */
    method Compress(block: seq<byte>)
      requires Shape() && |block| == 64
      modifies state
      ensures AsHash() == Sha256Spec.Compress(old(AsHash()), block)
    {
      hide Plus;
      hide Add;
      hide ToHash;
      hide Rounds;
      hide Schedule;
      var w := Expand(block);
      var s := RunRounds(block, w);
      ghost var before, rounds := state[..], s[..];
      for i := 0 to 8
        invariant s[..] == rounds
        invariant forall j | 0 <= j < i :: state[j] == Plus(before[j], rounds[j])
        invariant forall j | i <= j < 8 :: state[j] == before[j]
      {
        state[i] := Plus(state[i], s[i]);
      }
      AddAt(before, rounds, state[..]);
    }

    static method Expand(block: seq<byte>) returns (w: array<Word>)
      requires |block| == 64
      ensures fresh(w) && w.Length == 64 && forall j | 0 <= j < 64 :: w[j] == Schedule(block, j)
    {
      hide Plus;
      hide Xor3;
      hide WordAt;
      w := new Word[64];
      for i := 0 to 16
        invariant forall j | 0 <= j < i :: w[j] == Schedule(block, j)
      {
        w[i] := WordAt(block, 4 * i);
      }
      for i := 16 to 64
        invariant forall j | 0 <= j < i :: w[j] == Schedule(block, j)
      {
        Gamma0Agrees(w[i - 15]);
        Gamma1Agrees(w[i - 2]);
        w[i] := Plus(Plus(Plus(Gamma1Bits(w[i - 2]), w[i - 7]), Gamma0Bits(w[i - 15])), w[i - 16]);
      }
    }

    method RunRounds(block: seq<byte>, w: array<Word>) returns (s: array<Word>)
      requires Shape() && |block| == 64 && w.Length == 64
      requires forall j | 0 <= j < 64 :: w[j] == Schedule(block, j)
      ensures fresh(s) && s.Length == 8 && ToHash(s[..]) == Rounds(AsHash(), block, 64)
    {
      hide Round;
      hide Schedule;
      s := new Word[8];
      for i := 0 to 8
        invariant forall j | 0 <= j < i :: s[j] == state[j]
      {
        s[i] := state[i];
      }
      assert s[..] == state[..];
      for i := 0 to 64
        invariant ToHash(s[..]) == Rounds(AsHash(), block, i)
      {
        RunRound(s, K[i], w[i]);
      }
    }

    /** One round, with the registers moved along by one. */
    static method RunRound(s: array<Word>, k: Word, w: Word)
      requires s.Length == 8
      modifies s
      ensures ToHash(s[..]) == Round(old(ToHash(s[..])), k, w)
    {
      hide Plus;
      hide Ch;
      hide Maj;
      hide ChBits;
      hide MajBits;
      hide Sigma0;
      hide Sigma1;
      hide Sigma0Bits;
      hide Sigma1Bits;
      Sigma1Agrees(s[4]);
      ChAgrees(s[4], s[5], s[6]);
      Sigma0Agrees(s[0]);
      MajAgrees(s[0], s[1], s[2]);
      var t0 := Plus(Plus(Plus(Plus(s[7], Sigma1Bits(s[4])), ChBits(s[4], s[5], s[6])), k), w);
      var t1 := Plus(Sigma0Bits(s[0]), MajBits(s[0], s[1], s[2]));
      s[3] := Plus(s[3], t0);
      s[7] := Plus(t0, t1);
      var t := s[7];
      s[7] := s[6];
      s[6] := s[5];
      s[5] := s[4];
      s[4] := s[3];
      s[3] := s[2];
      s[2] := s[1];
      s[1] := s[0];
      s[0] := t;
    }

    // ----- The streaming operations ----------------------------------------------------------------

    /** The state stands for `msg`. */
    ghost predicate Holds(msg: seq<byte>)
      reads this, state, buf
    {
      Shape() && curlen < 64 && Absorbed(msg, AsHash(), buf[..curlen], length)
    }

    constructor ()
      ensures Holds([]) && fresh(state) && fresh(buf)
    {
      state := new Word[8] [0x6A09E667, 0xBB67AE85, 0x3C6EF372, 0xA54FF53A, 0x510E527F, 0x9B05688C, 0x1F83D9AB, 0x5BE0CD19];
      buf := new byte[64];
      curlen := 0;
      length := 0;
    }

    /** Takes `data` whose length fits 32 bits. */
    method Process(data: seq<byte>, ghost msg: seq<byte>)
      requires Holds(msg) && |data| < U32
      modifies this`curlen, this`length, state, buf
      ensures Holds(msg + data)
    {
      hide Absorbed;
      hide AsHash;
      var at := 0;
      assert msg + data[..at] == msg;
      while at < |data|
        invariant at <= |data| && Holds(msg + data[..at])
      {
        ghost var m := msg + data[..at];
        if curlen == 0 && |data| - at >= 64 {
          ProcessBlock(data[at..at + 64], m);
          assert msg + data[..at + 64] == m + data[at..at + 64];
          at := at + 64;
        } else {
          var n := if |data| - at < 64 - curlen then |data| - at else 64 - curlen;
          ProcessPart(data[at..at + n], m);
          assert msg + data[..at + n] == m + data[at..at + n];
          at := at + n;
        }
      }
      assert data[..|data|] == data;
    }

    /** A whole block, past the empty buffer. */
    method ProcessBlock(chunk: seq<byte>, ghost msg: seq<byte>)
      requires Holds(msg) && curlen == 0 && |chunk| == 64
      modifies this`length, state
      ensures Holds(msg + chunk)
    {
      hide Absorbed;
      hide Sha256Spec.Compress;
      ghost var hash, tail := AsHash(), buf[..curlen];
      AbsorbBlock(msg, hash, tail, length, chunk);
      assert tail + chunk == chunk && tail == [];
      Compress(chunk);
      length := (length + 512) % U64;
    }

    /** A part that fits the buffer, which is compressed if that fills it. */
    method ProcessPart(chunk: seq<byte>, ghost msg: seq<byte>)
      requires Holds(msg) && curlen + |chunk| <= 64
      modifies this`curlen, this`length, state, buf
      ensures Holds(msg + chunk)
    {
      hide Absorbed;
      hide Sha256Spec.Compress;
      ghost var hash, tail := AsHash(), buf[..curlen];
      Fill(chunk);
      if curlen == 64 {
        AbsorbBlock(msg, hash, tail, length, chunk);
        assert buf[..] == tail + chunk;
        Compress(buf[..]);
        length := (length + 512) % U64;
        curlen := 0;
        assert buf[..curlen] == [];
      } else {
        AbsorbPart(msg, hash, tail, length, chunk);
      }
    }

    /** Appends `chunk` to the buffer. */
    method Fill(chunk: seq<byte>)
      requires Shape() && curlen + |chunk| <= 64
      modifies this`curlen, buf
      ensures Shape() && curlen == old(curlen) + |chunk| && buf[..curlen] == old(buf[..curlen]) + chunk
    {
      for i := 0 to |chunk|
        invariant Shape() && curlen == old(curlen)
        invariant buf[..curlen] == old(buf[..curlen])
        invariant forall j | 0 <= j < i :: buf[curlen + j] == chunk[j]
      {
        buf[curlen + i] := chunk[i];
      }
      curlen := curlen + |chunk|;
    }

    /** Takes `data`, of whose length only the low 32 bits arrive. */
    method Update(data: seq<byte>, ghost msg: seq<byte>)
      requires Holds(msg)
      modifies this`curlen, this`length, state, buf
      ensures Holds(msg + data[..|data| % U32])
      ensures |data| < U64 / 8 ==> (Holds(msg + data) <==> |data| < U32)
    {
      hide Holds;
      ghost var arrived := data[..|data| % U32];
      Process(data[..|data| % U32], msg);
      if |data| < U32 {
        assert arrived == data;
      } else if |data| < U64 / 8 {
        NotBoth(data, msg);
      }
    }

    lemma NotBoth(data: seq<byte>, msg: seq<byte>)
      requires U32 <= |data| < U64 / 8 && Holds(msg + data[..|data| % U32])
      ensures !Holds(msg + data)
    {
      hide Absorbed;
      if Holds(msg + data) {
        TooLong(msg, data, AsHash(), buf[..curlen], length);
      }
    }

    /** Fills the buffer with zeros up to `end`. */
    method ZeroFill(end: nat)
      requires Shape() && curlen <= end <= 64
      modifies this`curlen, buf
      ensures Shape() && curlen == end && buf[..end] == old(buf[..curlen]) + Zeros(end - old(curlen))
    {
      ghost var start, before := curlen, buf[..curlen];
      while curlen < end
        invariant Shape() && start <= curlen <= end
        invariant buf[..curlen] == before + Zeros(curlen - start)
      {
        buf[curlen] := 0;
        curlen := curlen + 1;
      }
    }

    /** Stores the number of bits behind the first 56 bytes. */
    method Store64(x: nat)
      requires Shape()
      modifies buf
      ensures buf[..] == old(buf[..56]) + BigEndian(x, 8)
    {
      for i := 0 to 8
        invariant buf[..56] == old(buf[..56])
        invariant forall j | 0 <= j < i :: buf[56 + j] == BigEndian(x, 8)[j]
      {
        BigEndianAt(x, 8, i);
        buf[56 + i] := (x / Pow256(7 - i)) % 256;
      }
    }

    /** Ends a message whose end mark leaves room for the length. */
    method LastBlock(ghost msg: seq<byte>, ghost tail: seq<byte>)
      requires Shape() && curlen == |tail| + 1 <= 56 && buf[..curlen] == tail + [0x80]
      requires Chained(msg, AsHash(), tail) && BigEndian(length, 8) == BigEndian(8 * |msg|, 8)
      modifies this`curlen, state, buf
      ensures Shape() && AsHash() == Fold(Pad(msg))
    {
      hide Chained;
      hide Sha256Spec.Compress;
      hide Fold;
      hide BigEndian;
      ghost var hash := AsHash();
      ZeroFill(56);
      Store64(length);
      FinishOneBlock(msg, hash, tail, buf[..]);
      Compress(buf[..]);
    }

    /** Ends a message whose length needs a block of its own. */
    method LastTwoBlocks(ghost msg: seq<byte>, ghost tail: seq<byte>)
      requires Shape() && 56 < curlen == |tail| + 1 && buf[..curlen] == tail + [0x80]
      requires Chained(msg, AsHash(), tail) && BigEndian(length, 8) == BigEndian(8 * |msg|, 8)
      modifies this`curlen, state, buf
      ensures Shape() && AsHash() == Fold(Pad(msg))
    {
      hide Chained;
      hide Sha256Spec.Compress;
      hide Fold;
      hide BigEndian;
      ghost var hash := AsHash();
      ZeroFill(64);
      ghost var first := buf[..];
      Compress(buf[..]);
      curlen := 0;
      ZeroFill(56);
      Store64(length);
      FinishTwoBlocks(msg, hash, tail, first, buf[..]);
      Compress(buf[..]);
    }

    /** The digest of the message. */
    method Done(ghost msg: seq<byte>) returns (digest: seq<byte>)
      requires Holds(msg)
      modifies this`curlen, this`length, state, buf
      ensures digest == Digest(msg)
    {
      hide Absorbed;
      hide Chained;
      hide Fold;
      hide HashBytes;
      hide BigEndian;
      ghost var tail := buf[..curlen];
      LengthField(msg, AsHash(), tail, length);
      length := (length + curlen * 8) % U64;
      Fill([0x80]);
      if curlen > 56 {
        LastTwoBlocks(msg, tail);
      } else {
        LastBlock(msg, tail);
      }
      digest := Output();
    }

    method Output() returns (digest: seq<byte>)
      requires Shape()
      ensures digest == HashBytes(AsHash())
    {
      hide WordBytes;
      digest := [];
      for i := 0 to 8
        invariant digest == WordsBytes(state[..i])
      {
        digest := digest + WordBytes(state[i]);
        assert state[..i + 1][..i] == state[..i];
      }
      ghost var h := AsHash();
      assert state[..8] == [h.a, h.b, h.c, h.d, h.e, h.f, h.g, h.h];
    }
  }

  /** What arrives of the chunks of a message: of each, the bytes that a 32-bit length counts. */
  function Arrived(chunks: seq<seq<byte>>): seq<byte> {
    if chunks == [] then []
    else Arrived(chunks[..|chunks| - 1]) + Last(chunks)[..|Last(chunks)| % U32]
  }

  function Last(chunks: seq<seq<byte>>): seq<byte>
    requires chunks != []
  {
    chunks[|chunks| - 1]
  }

  function Flatten(chunks: seq<seq<byte>>): seq<byte> {
    if chunks == [] then [] else Flatten(chunks[..|chunks| - 1]) + Last(chunks)
  }

  lemma {:induction false} AllArrives(chunks: seq<seq<byte>>)
    requires forall c | c in chunks :: |c| < U32
    ensures Arrived(chunks) == Flatten(chunks)
  {
    if chunks != [] {
      var front, last := chunks[..|chunks| - 1], Last(chunks);
      assert last in chunks && forall c | c in front :: c in chunks;
      AllArrives(front);
      assert last[..|last| % U32] == last;
    }
  }

  /** However a message is split into updates, the digest is that of the whole message. */
  method DigestOfUpdates(chunks: seq<seq<byte>>) returns (digest: seq<byte>)
    ensures digest == Digest(Arrived(chunks))
    ensures (forall c | c in chunks :: |c| < U32) ==> digest == Digest(Flatten(chunks))
  {
    hide Digest;
    var context := new Context();
    for i := 0 to |chunks|
      invariant context.Holds(Arrived(chunks[..i])) && fresh(context) && fresh(context.state) && fresh(context.buf)
    {
      context.Update(chunks[i], Arrived(chunks[..i]));
      assert chunks[..i + 1][..i] == chunks[..i];
    }
    assert chunks[..|chunks|] == chunks;
    digest := context.Done(Arrived(chunks));
    if forall c | c in chunks :: |c| < U32 {
      AllArrives(chunks);
    }
  }
}
