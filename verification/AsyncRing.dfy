/** The growing ring buffer of the asynchronous writer (`ASYNCIO` in src/base/system.cpp). */
module AsyncRing {

  import opened Arith
  import opened Bytes

  /** The ring as a value: what the lock protects. */
  datatype Ring = Ring(bytes: seq<byte>, readPos: nat, writePos: nat) {
    predicate Valid() {
      readPos < |bytes| && writePos < |bytes|
    }

    /** The bytes that wait in the ring, oldest first. Equal positions mean that none do. */
    function Contents(): seq<byte>
      requires Valid()
    {
      if readPos <= writePos then bytes[readPos..writePos] else bytes[readPos..] + bytes[..writePos]
    }
  }

  /** `r'` is `r` with `data` appended: in the same memory if a byte stays free, else in memory
      that is doubled until one does. */
  ghost predicate Appends(r: Ring, data: seq<byte>, r': Ring) {
    && r.Valid() && r'.Valid()
    && r'.Contents() == r.Contents() + data
    && (if |r.Contents()| + |data| < |r.bytes| then
          |r'.bytes| == |r.bytes| && r'.readPos == r.readPos
        else
          && Doubled(|r.bytes|, |r'.bytes|)
          && |r.Contents()| + |data| < |r'.bytes|
          && |r'.bytes| < 2 * (|r.Contents()| + |data| + 1)
          && r'.readPos == 0)
  }

  /** `local` is what the worker takes out of `r` when it has room for `cap` bytes. */
  ghost predicate Drains(r: Ring, cap: nat, local: seq<byte>, r': Ring) {
    && r.Valid() && r'.Valid()
    && r'.bytes == r.bytes && r'.writePos == r.writePos
    && local + r'.Contents() == r.Contents()
    && |local| == if |r.Contents()| <= cap then |r.Contents()| else cap
  }

  ghost predicate Doubled(n: nat, m: nat)
    decreases m
  {
    n == m || (m > 0 && m % 2 == 0 && Doubled(n, m / 2))
  }

  lemma {:induction false} DoubledOnce(n: nat, m: nat)
    requires Doubled(n, m) && n > 0
    ensures Doubled(n, 2 * m)
  {
    assert 2 * m / 2 == m;
  }

  /** The index `i` steps behind index `from` in a ring of `n` bytes. */
  function Slot(n: nat, from: nat, i: nat): nat
    requires from < n && i < n
  {
    if from + i < n then from + i else from + i - n
  }

  lemma ContentsAt(r: Ring)
    requires r.Valid()
    ensures |r.Contents()| == if r.readPos <= r.writePos then r.writePos - r.readPos else |r.bytes| + r.writePos - r.readPos
    ensures |r.Contents()| < |r.bytes|
    ensures forall i | 0 <= i < |r.Contents()| :: r.Contents()[i] == r.bytes[Slot(|r.bytes|, r.readPos, i)]
  {
  }

  /** `bytes` are the bytes of `r` with `data` behind the contents, around the end if need be. */
  ghost predicate Put(r: Ring, data: seq<byte>, bytes: seq<byte>)
    requires r.Valid() && |r.Contents()| + |data| < |r.bytes|
  {
    var n := |r.bytes|;
    && |bytes| == n
    && (forall k | 0 <= k < |data| :: bytes[Slot(n, r.writePos, k)] == data[k])
    && (forall i | 0 <= i < n - |data| ::
          var j := Slot(n, Slot(n, r.writePos, |data|), i);
          bytes[j] == r.bytes[j])
  }

  lemma PutStraight(r: Ring, data: seq<byte>, bytes: seq<byte>)
    requires r.Valid() && |r.Contents()| + |data| < |r.bytes| == |bytes|
    requires |data| <= |bytes| - r.writePos
    requires forall k | 0 <= k < |data| :: bytes[r.writePos + k] == data[k]
    requires forall j | 0 <= j < |bytes| && !(r.writePos <= j < r.writePos + |data|) :: bytes[j] == r.bytes[j]
    ensures Put(r, data, bytes)
  {
  }

  lemma PutAround(r: Ring, data: seq<byte>, bytes: seq<byte>)
    requires r.Valid() && |r.Contents()| + |data| < |r.bytes| == |bytes|
    requires |data| > |bytes| - r.writePos
    requires forall k | 0 <= k < |bytes| - r.writePos :: bytes[r.writePos + k] == data[k]
    requires forall j | 0 <= j < |data| - (|bytes| - r.writePos) :: bytes[j] == data[|bytes| - r.writePos..][j]
    requires forall j | |data| - (|bytes| - r.writePos) <= j < r.writePos :: bytes[j] == r.bytes[j]
    ensures Put(r, data, bytes)
  {
  }

  lemma PutContents(r: Ring, data: seq<byte>, r': Ring)
    requires r.Valid() && r'.Valid() && |r.Contents()| + |data| < |r.bytes|
    requires Put(r, data, r'.bytes) && r'.readPos == r.readPos
    requires r'.writePos == Slot(|r.bytes|, r.writePos, |data|)
    ensures r'.Contents() == r.Contents() + data
  {
    ContentsAt(r);
    ContentsAt(r');
    var n, used := |r.bytes|, |r.Contents()|;
    forall i | 0 <= i < used + |data| ensures r'.Contents()[i] == (r.Contents() + data)[i] {
      if i >= used {
        assert Slot(n, r.readPos, i) == Slot(n, r.writePos, i - used);
      } else {
        assert Slot(n, r.readPos, i) == Slot(n, Slot(n, r.writePos, |data|), n - used - |data| + i);
      }
    }
  }

  /** Moving the read position forward over `k` bytes drops them from the contents. */
  lemma TakeContents(r: Ring, k: nat, r': Ring)
    requires r.Valid() && r'.Valid() && r'.bytes == r.bytes && r'.writePos == r.writePos
    requires k <= |r.Contents()| && r'.readPos == Slot(|r.bytes|, r.readPos, k)
    ensures r'.Contents() == r.Contents()[k..]
  {
    ContentsAt(r);
    ContentsAt(r');
    forall i | 0 <= i < |r.Contents()| - k ensures r'.Contents()[i] == r.Contents()[k..][i] {
      assert Slot(|r.bytes|, r'.readPos, i) == Slot(|r.bytes|, r.readPos, k + i);
    }
  }

  lemma Clip(a: seq<byte>, b: seq<byte>, m: nat, n: nat)
    requires m <= |a| && n <= |b| && (m == |a| || n == 0)
    ensures a[..m] + b[..n] == (a + b)[..m + n]
  {
  }

  lemma Grown(r: Ring, data: seq<byte>, r': Ring)
    requires r.Valid() && r'.Valid() && |r.Contents()| + |data| >= |r.bytes|
    requires r'.readPos == 0 && r'.bytes[..r'.writePos] == r.Contents() + data
    requires Doubled(|r.bytes|, |r'.bytes|) && |r'.bytes| < 2 * (|r.Contents()| + |data| + 1)
    ensures Appends(r, data, r')
  {
    assert r'.Contents() == r'.bytes[..r'.writePos];
  }

  lemma Taken(r: Ring, cap: nat, local: seq<byte>, r': Ring)
    requires r.Valid() && r'.Valid() && r'.bytes == r.bytes && r'.writePos == r.writePos
    requires |local| == if |r.Contents()| <= cap then |r.Contents()| else cap
    requires |local| < |r.bytes| && r'.readPos == Slot(|r.bytes|, r.readPos, |local|)
    requires local == r.Contents()[..|local|]
    ensures Drains(r, cap, local, r')
  {
    TakeContents(r, |local|, r');
  }

  lemma SlotIsRemainder(n: nat, from: nat, i: nat)
    requires from < n && i < n
    ensures (from + i) % n == Slot(n, from, i)
  {
    DivModUnique(from + i, n, if from + i < n then 0 else 1, Slot(n, from, i));
  }

  /** Copies `src` over the bytes of `dst` from `at`. */
  method MemCopy(dst: array<byte>, at: nat, src: seq<byte>)
    requires at + |src| <= dst.Length
    modifies dst
    ensures forall k | 0 <= k < |src| :: dst[at + k] == src[k]
    ensures forall k | 0 <= k < dst.Length && !(at <= k < at + |src|) :: dst[k] == old(dst[k])
    ensures dst[..at + |src|] == old(dst[..at]) + src
  {
    for i := 0 to |src|
      invariant forall k | 0 <= k < i :: dst[at + k] == src[k]
      invariant forall k | 0 <= k < dst.Length && !(at <= k < at + i) :: dst[k] == old(dst[k])
    {
      dst[at + i] := src[i];
    }
  }

  class AsyncIo {
    var buffer: array<byte>
    var bufferSize: nat
    var readPos: nat
    var writePos: nat

    ghost predicate Valid()
      reads this
    {
      bufferSize == buffer.Length && readPos < bufferSize && writePos < bufferSize
    }

    ghost function AsRing(): (r: Ring)
      reads this, buffer
      requires Valid()
      ensures r.Valid()
    {
      Ring(buffer[..], readPos, writePos)
    }

    constructor (size: nat)
      requires size > 0
      ensures Valid() && fresh(buffer) && AsRing().Contents() == [] && bufferSize == size
    {
      buffer := new byte[size];
      bufferSize := size;
      readPos, writePos := 0, 0;
    }

    /** The at most two stretches of memory that hold the contents; an absent one has length 0. */
    method BufferPtrs() returns (buf1: nat, len1: nat, buf2: nat, len2: nat)
      requires Valid()
      ensures buf1 + len1 <= bufferSize && buf2 + len2 <= bufferSize
      ensures AsRing().Contents() == buffer[buf1..buf1 + len1] + buffer[buf2..buf2 + len2]
      ensures buf1 == readPos || len1 == len2 == 0
      ensures len1 == 0 ==> len2 == 0
    {
      buf1, len1, buf2, len2 := 0, 0, 0, 0;
      if readPos < writePos {
        buf1, len1 := readPos, writePos - readPos;
      } else if readPos > writePos {
        buf1, len1 := readPos, bufferSize - readPos;
        buf2, len2 := 0, writePos;
      }
    }

    method BufferLen() returns (n: nat)
      requires Valid()
      ensures n == |AsRing().Contents()| && n < bufferSize
    {
      if writePos >= readPos {
        n := writePos - readPos;
      } else {
        n := bufferSize + writePos - readPos;
      }
    }

    /** The size doubled until it is enough. */
    static method NextBufferSize(curSize: nat, needSize: nat) returns (n: nat)
      requires curSize > 0
      ensures n >= needSize && Doubled(curSize, n)
      ensures n > curSize ==> n < 2 * needSize
    {
      n := curSize;
      while n < needSize
        invariant Doubled(curSize, n) && n >= curSize
        invariant n > curSize ==> n < 2 * needSize
        decreases needSize - n
      {
        DoubledOnce(curSize, n);
        n := n * 2;
      }
    }

    /** Queues `data`. */
    method WriteUnlocked(data: seq<byte>)
      requires Valid()
      modifies this, buffer
      ensures Valid() && (buffer == old(buffer) || fresh(buffer))
      ensures Appends(old(AsRing()), data, AsRing())
    {
      var used := BufferLen();
      var remaining := bufferSize - used;
      if |data| < remaining {
        WriteInPlace(data);
      } else {
        WriteGrowing(data);
      }
    }

    method WriteInPlace(data: seq<byte>)
      requires Valid() && |AsRing().Contents()| + |data| < bufferSize
      modifies this`writePos, buffer
      ensures Valid() && readPos == old(readPos)
      ensures AsRing().Contents() == old(AsRing().Contents()) + data
    {
      hide Ring.Contents, Put;
      ghost var before := AsRing();
      var size := CopyIn(data);
      writePos := (writePos + size) % bufferSize;
      PutContents(before, data, AsRing());
    }

    /** Copies the data behind the contents, around the end if need be; `size` is what is left to go
        on from the write position. */
    method CopyIn(data: seq<byte>) returns (size: nat)
      requires Valid() && |AsRing().Contents()| + |data| < bufferSize
      modifies this`writePos, buffer
      ensures Put(old(AsRing()), data, buffer[..])
      ensures (writePos + size) % bufferSize == Slot(bufferSize, old(writePos), |data|)
    {
      hide Ring.Contents, Put;
      ghost var before := AsRing();
      ContentsAt(before);
      size := |data|;
      SlotIsRemainder(bufferSize, writePos, size);
      var rest := data;
      var contiguous := bufferSize - writePos;
      if size > contiguous {
        MemCopy(buffer, writePos, data[..contiguous]);
        size := size - contiguous;
        rest := data[contiguous..];
        writePos := 0;
        SlotIsRemainder(bufferSize, 0, size);
      }
      MemCopy(buffer, writePos, rest);
      if |data| > contiguous {
        PutAround(before, data, buffer[..]);
      } else {
        PutStraight(before, data, buffer[..]);
      }
    }

    /** Copies the contents to the front of other memory. */
    method Gather(nextBuffer: array<byte>) returns (nextLen: nat)
      requires Valid() && nextBuffer != buffer && nextBuffer.Length >= |AsRing().Contents()|
      modifies nextBuffer
      ensures nextLen == |AsRing().Contents()| && nextBuffer[..nextLen] == AsRing().Contents()
    {
      hide Ring.Contents;
      nextLen := 0;
      var buf1, len1, buf2, len2 := BufferPtrs();
      ghost var contents := AsRing().Contents();
      ghost var part1, part2 := buffer[buf1..buf1 + len1], buffer[buf2..buf2 + len2];
      assert contents == part1 + part2;
      MemCopy(nextBuffer, nextLen, buffer[buf1..buf1 + len1]);
      nextLen := nextLen + len1;
      assert nextBuffer[..nextLen] == part1;
      MemCopy(nextBuffer, nextLen, buffer[buf2..buf2 + len2]);
      nextLen := nextLen + len2;
      assert AsRing().Contents() == contents;
    }

    method WriteGrowing(data: seq<byte>)
      requires Valid() && |AsRing().Contents()| + |data| >= bufferSize
      modifies this
      ensures Valid() && fresh(buffer)
      ensures Appends(old(AsRing()), data, AsRing())
    {
      ghost var before := AsRing();
      var used := BufferLen();
      // One more byte, so that the new memory is not filled completely.
      var newWritten := used + |data| + 1;
      var nextSize := NextBufferSize(bufferSize, newWritten);
      var nextBuffer := new byte[nextSize];
      var nextLen := Gather(nextBuffer);
      MemCopy(nextBuffer, nextLen, data);
      nextLen := nextLen + |data|;
      buffer := nextBuffer;
      bufferSize := nextSize;
      readPos := 0;
      writePos := nextLen;
      Grown(before, data, AsRing());
    }

    /** Copies the oldest bytes, as far as there is room for them. */
    method CopyOut(cap: nat) returns (local: seq<byte>)
      requires Valid()
      ensures |local| == if |AsRing().Contents()| <= cap then |AsRing().Contents()| else cap
      ensures local == AsRing().Contents()[..|local|]
    {
      var buf1, len1, buf2, len2 := BufferPtrs();
      var stretch1, stretch2 := buffer[buf1..buf1 + len1], buffer[buf2..buf2 + len2];
      if len1 > cap {
        len1 := cap;
      }
      local := stretch1[..len1];
      if len2 > cap - |local| {
        len2 := cap - |local|;
      }
      local := local + stretch2[..len2];
      Clip(stretch1, stretch2, len1, len2);
    }

    /** The worker's turn with the lock: it moves as much as fits into its own buffer. */
    method Drain(cap: nat) returns (local: seq<byte>)
      requires Valid()
      modifies this`readPos
      ensures Valid() && Drains(old(AsRing()), cap, local, AsRing())
    {
      hide Ring.Contents, Drains;
      ghost var before := AsRing();
      ContentsAt(before);
      local := CopyOut(cap);
      SlotIsRemainder(bufferSize, readPos, |local|);
      readPos := (readPos + |local|) % bufferSize;
      Taken(before, cap, local, AsRing());
    }
  }
}
