/** Strings that are cut to fit (`str_copy`, `str_append`, `str_utf8_truncate` and
    `str_utf8_fix_truncation` in src/base/system.cpp): of a valid text they keep the longest
    beginning of whole code points that fits. */
module Utf8Truncate {
  import opened Bytes
  import opened Utf8

  // ----- Texts -----------------------------------------------------------------------------------

  type Points = seq<int>

  /** Code points that a terminated string can hold. */
  predicate IsText(cps: Points) {
    forall c | c in cps :: IsScalar(c) && c != 0
  }

  /** The bytes of a text. */
  function Encoded(cps: Points): seq<byte> {
    if cps == [] then [] else Encoded(cps[..|cps| - 1]) + Encoding(cps[|cps| - 1])
  }

  /** How many code points of the text fit into `n` bytes. */
  function FitCount(cps: Points, n: nat): (k: nat)
    ensures k <= |cps|
  {
    if |Encoded(cps)| <= n then |cps| else FitCount(cps[..|cps| - 1], n)
  }

  lemma {:induction false} EncodedPrefix(cps: Points, k: nat)
    requires k <= |cps|
    ensures Encoded(cps[..k]) <= Encoded(cps)
  {
    if k < |cps| {
      EncodedPrefix(cps[..|cps| - 1], k);
      assert cps[..|cps| - 1][..k] == cps[..k];
    } else {
      assert cps[..k] == cps;
    }
  }

  /** It is the most that fits: exactly the beginnings up to that count do. */
  lemma {:induction false} FitIsLongest(cps: Points, n: nat, j: nat)
    requires j <= |cps|
    ensures |Encoded(cps[..j])| <= n <==> j <= FitCount(cps, n)
  {
    if |Encoded(cps)| <= n {
      EncodedPrefix(cps, j);
    } else if j == |cps| {
      assert cps[..j] == cps;
    } else {
      FitIsLongest(cps[..|cps| - 1], n, j);
      assert cps[..|cps| - 1][..j] == cps[..j];
    }
  }

  lemma {:induction false} NoZeros(cps: Points)
    requires IsText(cps)
    ensures 0 !in Encoded(cps)
  {
    hide Encoding;
    if cps != [] {
      NoZeros(cps[..|cps| - 1]);
      assert cps[|cps| - 1] in cps;
      EncodingNoZero(cps[|cps| - 1]);
    }
  }

  lemma EncodingNoZero(c: int)
    requires IsScalar(c) && c != 0
    ensures 0 !in Encoding(c)
  {
  }

  // ----- Finding the last code point -------------------------------------------------------------

  predicate IsStart(b: byte) {
    b / 64 != 2
  }

  /** The last start of a code point before `cursor`; 0 if there is none. */
  function Rewind(s: seq<byte>, cursor: nat): (i: nat)
    requires cursor <= |s|
    ensures i <= cursor && (cursor > 0 ==> i < cursor)
  {
    if cursor == 0 then 0
    else if IsStart(s[cursor - 1]) then cursor - 1
    else Rewind(s, cursor - 1)
  }

  /** How much of a string that may end within a code point is kept. */
  function FixedLength(s: seq<byte>): (n: nat)
    ensures n <= |s|
  {
    if s == [] then 0
    else
      var i := Rewind(s, |s|);
      if Decoding(s, i).0 == -1 then i else |s|
  }

  lemma EncodingShape(c: int)
    requires IsScalar(c)
    ensures |Encoding(c)| >= 1 && IsStart(Encoding(c)[0])
    ensures forall i | 1 <= i < |Encoding(c)| :: !IsStart(Encoding(c)[i])
  {
  }

  lemma {:induction false} RewindTo(s: seq<byte>, from: nat, cursor: nat)
    requires from < cursor <= |s| && IsStart(s[from])
    requires forall i | from < i < cursor :: !IsStart(s[i])
    ensures Rewind(s, cursor) == from
  {
    if cursor - 1 > from {
      RewindTo(s, from, cursor - 1);
    }
  }

  /** A code point that is cut off is an error. */
  lemma PartialFails(s: seq<byte>, at: nat, c: int)
    requires IsScalar(c) && at < |s| < at + |Encoding(c)|
    requires s[at..] == Encoding(c)[..|s| - at]
    ensures Decoding(s, at).0 == -1
  {
    EncodingIs(c);
    hide Decoding, Encoding;
    assert s[at] == Encoding(c)[0];
    if c <= 0x7FF {
      Decoding2(s, at);
    } else if c <= 0xFFFF {
      Decoding3(s, at);
    } else {
      Decoding4(s, at);
    }
  }

  /** The end of a cut text that ends in all or part of code point `c`. */
  lemma FixedEnd(s: seq<byte>, from: nat, c: int)
    requires IsScalar(c) && c != 0 && from < |s| <= from + |Encoding(c)| && s[from..] == Encoding(c)[..|s| - from]
    ensures FixedLength(s) == if |s| == from + |Encoding(c)| then |s| else from
  {
    hide Decoding;
    hide Encoding;
    EncodingShape(c);
    assert forall i | from <= i < |s| :: s[i] == s[from..][i - from];
    RewindTo(s, from, |s|);
    if |s| == from + |Encoding(c)| {
      DecodesEncoding(s, from, c);
    } else {
      PartialFails(s, from, c);
    }
  }

  /** Cutting a text anywhere and fixing the end keeps the code points that are whole. */
  lemma {:induction false} FixedPrefix(cps: Points, n: nat)
    requires IsText(cps) && n <= |Encoded(cps)|
    ensures Encoded(cps)[..n][..FixedLength(Encoded(cps)[..n])] == Encoded(cps[..FitCount(cps, n)])
  {
    hide FixedLength;
    hide FitCount;
    hide Encoding;
    var s := Encoded(cps)[..n];
    if cps == [] {
      EmptyFixed();
    } else {
      var init, c := cps[..|cps| - 1], cps[|cps| - 1];
      assert c in cps;
      var from := |Encoded(init)|;
      if n <= from {
        FixedPrefix(init, n);
        assert s == Encoded(init)[..n];
        FitOfPrefix(cps, n);
      } else {
        assert s[from..] == Encoding(c)[..n - from];
        FixedEnd(s, from, c);
        EncodedPrefix(cps, |cps| - 1);
        if n == |Encoded(cps)| {
          FitAll(cps, n);
        } else {
          FitAt(cps, n);
        }
      }
    }
  }

  lemma EmptyFixed()
    ensures FixedLength([]) == 0
  {
  }

  lemma FitOfPrefix(cps: Points, n: nat)
    requires cps != [] && IsText(cps) && n <= |Encoded(cps[..|cps| - 1])|
    ensures cps[..FitCount(cps, n)] == cps[..|cps| - 1][..FitCount(cps[..|cps| - 1], n)]
  {
    assert cps[|cps| - 1] in cps;
    EncodingShape(cps[|cps| - 1]);
  }

  lemma FitAll(cps: Points, n: nat)
    requires |Encoded(cps)| <= n
    ensures FitCount(cps, n) == |cps| && cps[..|cps|] == cps
  {
  }

  lemma FitAt(cps: Points, n: nat)
    requires cps != [] && |Encoded(cps[..|cps| - 1])| <= n < |Encoded(cps)|
    ensures FitCount(cps, n) == |cps| - 1
  {
  }

  // ----- Terminated strings in memory ------------------------------------------------------------

  /** The memory holds string `s`: its bytes, none of them zero, and a zero. */
  predicate Holds(memory: seq<byte>, s: seq<byte>) {
    |s| < |memory| && s == memory[..|s|] && memory[|s|] == 0 && 0 !in s
  }

  method StrLength(str: array<byte>, ghost s: seq<byte>) returns (n: nat)
    requires Holds(str[..], s)
    ensures n == |s|
  {
    n := 0;
    assert forall i | 0 <= i < |s| :: str[i] == s[i] && s[i] in s;
    while str[n] != 0
      invariant n <= |s|
      decreases |s| - n
    {
      n := n + 1;
    }
  }

  /** Cuts off a code point that is not whole. */
  method FixTruncation(str: array<byte>, ghost s: seq<byte>) returns (n: nat)
    requires Holds(str[..], s)
    modifies str
    ensures n == FixedLength(s) && Holds(str[..], s[..n])
    ensures forall i | |s| <= i < str.Length :: str[i] == old(str[i])
  {
    var len := StrLength(str, s);
    if len > 0 {
      var cursor := len;
      while cursor != 0
        invariant cursor <= len && (cursor != 0 ==> Rewind(s, len) == Rewind(s, cursor))
        invariant cursor == 0 ==> Rewind(s, len) == 0
      {
        cursor := cursor - 1;
        if IsStart(str[cursor]) {
          break;
        }
      }
      assert cursor == Rewind(s, len);
      var code, next := Decode(str[..len], cursor);
      if code == -1 {
        str[cursor] := 0;
        return cursor;
      }
    }
    return len;
  }

  // ----- Copying, appending, truncating ----------------------------------------------------------

  /** What `size` bytes of memory keep of string `s`, the terminator included. */
  function Kept(s: seq<byte>, size: nat): seq<byte>
    requires size > 0
  {
    var cut := if |s| < size then s else s[..size - 1];
    cut[..FixedLength(cut)]
  }

  /** Of a text they keep the longest beginning of whole code points that fits. */
  lemma KeptOfText(cps: Points, size: nat)
    requires IsText(cps) && size > 0
    ensures Kept(Encoded(cps), size) == Encoded(cps[..FitCount(cps, size - 1)])
  {
    hide FixedLength;
    var s := Encoded(cps);
    if |s| < size {
      FixedPrefix(cps, |s|);
      assert s[..|s|] == s;
      assert FitCount(cps, |s|) == |cps| == FitCount(cps, size - 1);
    } else {
      FixedPrefix(cps, size - 1);
    }
  }

  /** Copies as much as fits; of a text the longest beginning of whole code points that does. */
  method StrCopy(dst: array<byte>, src: seq<byte>, size: nat)
    requires 0 < size <= dst.Length && 0 !in src
    modifies dst
    ensures Holds(dst[..], Kept(src, size))
    ensures forall cps | IsText(cps) && src == Encoded(cps) :: Holds(dst[..], Encoded(cps[..FitCount(cps, size - 1)]))
    ensures forall i | size <= i < dst.Length :: dst[i] == old(dst[i])
  {
    hide FixedLength, IsText, Encoded, FitCount;
    var n := if |src| < size then |src| else size - 1;
    for i := 0 to n
      invariant dst[..i] == src[..i]
      invariant forall j | size <= j < dst.Length :: dst[j] == old(dst[j])
    {
      dst[i] := src[i];
    }
    dst[n] := 0;
    ghost var cut := if |src| < size then src else src[..size - 1];
    assert cut == src[..n] == dst[..n];
    var kept := FixTruncation(dst, cut);
    forall cps | IsText(cps) && src == Encoded(cps)
      ensures Kept(src, size) == Encoded(cps[..FitCount(cps, size - 1)])
    {
      KeptOfText(cps, size);
    }
  }

  /** Puts a string behind the one in memory, cut to the buffer after any byte. */
  method AppendBytes(dst: array<byte>, src: seq<byte>, size: nat, ghost d: seq<byte>)
    requires 0 < size <= dst.Length && 0 !in src && Holds(dst[..], d)
    modifies dst
    ensures var whole := d + src; Holds(dst[..], if |whole| < size then whole else whole[..size - 1])
    ensures forall i | size <= i < dst.Length :: dst[i] == old(dst[i])
  {
    var s := StrLength(dst, d);
    var i := 0;
    ghost var whole := d + src;
    while s < size
      invariant 0 <= i <= |src| && s == |d| + i && (i > 0 ==> s <= size)
      invariant s <= dst.Length && dst[..s] == whole[..s]
      invariant i == 0 ==> Holds(dst[..], d)
      invariant forall j | size <= j < dst.Length :: dst[j] == old(dst[j])
    {
      dst[s] := ByteAt(src, i);
      if ByteAt(src, i) == 0 {
        break;
      }
      s := s + 1;
      i := i + 1;
    }
    assert s < size ==> s == |whole| && dst[s] == 0;
    dst[size - 1] := 0;
  }

  /** Appends as much as fits: to a text, of a text, the longest beginning of whole code points. */
  method StrAppend(dst: array<byte>, src: seq<byte>, size: nat, ghost d: seq<byte>)
    requires 0 < size <= dst.Length && 0 !in src && Holds(dst[..], d)
    modifies dst
    ensures Holds(dst[..], Kept(d + src, size))
    ensures forall a, b | IsText(a) && IsText(b) && d == Encoded(a) && src == Encoded(b) ::
              Holds(dst[..], Encoded((a + b)[..FitCount(a + b, size - 1)]))
    ensures forall a, b | IsText(a) && IsText(b) && d == Encoded(a) && src == Encoded(b) && |d| < size ::
              Holds(dst[..], d + Encoded(b[..FitCount(b, size - 1 - |d|)]))
    ensures forall i | size <= i < dst.Length :: dst[i] == old(dst[i])
  {
    hide FixedLength, IsText, Encoded, FitCount, Holds;
    AppendBytes(dst, src, size, d);
    var kept := FixTruncation(dst, if |d + src| < size then d + src else (d + src)[..size - 1]);
    forall a, b | IsText(a) && IsText(b) && d == Encoded(a) && src == Encoded(b)
      ensures Kept(d + src, size) == Encoded((a + b)[..FitCount(a + b, size - 1)])
      ensures |d| < size ==> Kept(d + src, size) == d + Encoded(b[..FitCount(b, size - 1 - |d|)])
    {
      AppendedAny(a, b, size);
      if |d| < size {
        AppendedText(a, b, size);
      }
    }
  }

  lemma AppendedAny(a: Points, b: Points, size: nat)
    requires IsText(a) && IsText(b) && size > 0
    ensures Kept(Encoded(a) + Encoded(b), size) == Encoded((a + b)[..FitCount(a + b, size - 1)])
  {
    hide Kept, FitCount, Encoded, IsText;
    TextsJoin(a, b);
    EncodedJoins(a, b);
    KeptOfText(a + b, size);
  }

  lemma {:induction false} EncodedJoins(a: Points, b: Points)
    ensures Encoded(a + b) == Encoded(a) + Encoded(b)
  {
    hide Encoding;
    if b == [] {
      assert a + b == a;
    } else {
      var front := b[..|b| - 1];
      assert (a + b)[..|a + b| - 1] == a + front && (a + b)[|a + b| - 1] == b[|b| - 1];
      EncodedJoins(a, front);
    }
  }

  lemma {:induction false} FitBehind(a: Points, b: Points, n: nat)
    requires |Encoded(a)| <= n
    ensures FitCount(a + b, n) == |a| + FitCount(b, n - |Encoded(a)|)
  {
    hide Encoded;
    EncodedJoins(a, b);
    if b == [] {
      assert a + b == a;
    } else if |Encoded(a + b)| > n {
      FitBehind(a, b[..|b| - 1], n);
      assert (a + b)[..|a + b| - 1] == a + b[..|b| - 1];
    }
  }

  lemma TextsJoin(a: Points, b: Points)
    requires IsText(a) && IsText(b)
    ensures IsText(a + b)
  {
  }

  lemma PrefixJoins(a: Points, b: Points, k: nat)
    requires k <= |b|
    ensures (a + b)[..|a| + k] == a + b[..k]
  {
  }

  /** Appending to a text that fits keeps all of it, and of the other the longest beginning of
      whole code points for which there is room. */
  lemma AppendedText(a: Points, b: Points, size: nat)
    requires IsText(a) && IsText(b) && |Encoded(a)| < size
    ensures
      Kept(Encoded(a) + Encoded(b), size) == Encoded(a) + Encoded(b[..FitCount(b, size - 1 - |Encoded(a)|)])
  {
    hide Kept, FitCount, Encoded, IsText;
    var k := FitCount(b, size - 1 - |Encoded(a)|);
    TextsJoin(a, b);
    EncodedJoins(a, b);
    EncodedJoins(a, b[..k]);
    FitBehind(a, b, size - 1);
    PrefixJoins(a, b, k);
    KeptOfText(a + b, size);
  }

  /** How many code points a truncation keeps. */
  function CutCount(cps: Points, size: nat, count: nat): (k: nat)
    requires size > 0
    ensures k <= |cps|
  {
    if count < FitCount(cps, size - 1) then count else FitCount(cps, size - 1)
  }

  lemma CutIs(cps: Points, size: nat, count: nat, k: nat)
    requires size > 0 && k <= |cps| && k <= count && |Encoded(cps[..k])| < size
    requires k == count || k == |cps| || |Encoded(cps[..k + 1])| >= size
    ensures CutCount(cps, size, count) == k
  {
    hide Encoded, FitCount;
    FitIsLongest(cps, size - 1, k);
    if k < |cps| {
      FitIsLongest(cps, size - 1, k + 1);
    }
  }

  /** Where the decoder stands in a string, valid or not, after `k` code points or errors. */
  function Bound(src: seq<byte>, k: nat): (b: nat)
    ensures b <= |src|
  {
    if k == 0 then 0
    else
      var b := Bound(src, k - 1);
      if b == |src| then b else Decoding(src, b).1
  }

  /** After `k` of them a truncation must stop, and not before. */
  predicate IsCut(src: seq<byte>, size: nat, count: nat, k: nat) {
    && k <= count && Bound(src, k) < size
    && (k == count || Bound(src, k) == |src| || Bound(src, k + 1) >= size)
  }

  lemma {:induction false} BoundOfText(cps: Points, k: nat)
    requires IsText(cps) && k <= |cps|
    ensures Bound(Encoded(cps), k) == |Encoded(cps[..k])|
  {
    hide Decoding;
    hide Encoded;
    if k > 0 {
      BoundOfText(cps, k - 1);
      DecodesNext(cps, k - 1);
    } else {
      assert cps[..0] == [] && Encoded([]) == [] by { EncodedEmpty(); }
    }
  }

  lemma EncodedEmpty()
    ensures Encoded([]) == []
  {
  }

  /** The length, in bytes, of what a truncation leaves to be copied. */
  method CutLength(src: seq<byte>, size: nat, count: nat) returns (length: int, ghost k: nat)
    requires size > 0 && 0 !in src
    ensures IsCut(src, size, count, k) && length == Bound(src, k)
  {
    hide Decoding;
    length := -1;
    var cursor := 0;
    var pos := 0;
    while pos <= count && cursor < size && length != cursor
      invariant 0 <= pos <= count + 1 && cursor == Bound(src, pos)
      invariant if pos == 0 then length == -1 else length == Bound(src, pos - 1) < size && length < cursor
      decreases |src| - cursor
    {
      length := cursor;
      var code, next := Decode(src, cursor);
      ZeroAtEndOnly(src, cursor);
      if code == 0 {
        return length, pos;
      }
      cursor := next;
      pos := pos + 1;
    }
    k := pos - 1;
  }

  /** Of a text, the cut is after the most code points that both limits allow. */
  lemma CutOfText(cps: Points, size: nat, count: nat, k: nat)
    requires IsText(cps) && size > 0 && IsCut(Encoded(cps), size, count, k)
    ensures Bound(Encoded(cps), k) == |Encoded(cps[..CutCount(cps, size, count)])|
  {
    hide Encoded, CutCount, Bound;
    assert cps[..|cps|] == cps;
    if k <= |cps| {
      BoundOfText(cps, k);
      if k < |cps| {
        BoundOfText(cps, k + 1);
        DecodesNext(cps, k);
      }
      CutIs(cps, size, count, k);
    } else {
      BoundOfText(cps, |cps|);
      BoundGrows(Encoded(cps), |cps|, k);
      CutIs(cps, size, count, |cps|);
    }
  }

  lemma {:induction false} BoundGrows(src: seq<byte>, j: nat, k: nat)
    requires j <= k
    ensures Bound(src, j) <= Bound(src, k)
  {
    if j < k {
      BoundGrows(src, j, k - 1);
    }
  }

  lemma KeptWhole(cps: Points, k: nat)
    requires IsText(cps) && k <= |cps|
    ensures Kept(Encoded(cps), |Encoded(cps[..k])| + 1) == Encoded(cps[..k])
  {
    hide Kept;
    hide Decoding;
    hide FitCount;
    hide Encoded;
    KeptOfText(cps, |Encoded(cps[..k])| + 1);
    FitIsLongest(cps, |Encoded(cps[..k])|, k);
    if k < |cps| {
      DecodesNext(cps, k);
      FitIsLongest(cps, |Encoded(cps[..k])|, k + 1);
    }
  }

  /** Truncates to at most `count` code points in at most `size` bytes, the terminator included. */
  method Truncate(dst: array<byte>, size: nat, src: seq<byte>, count: nat) returns (ghost k: nat)
    requires 0 < size <= dst.Length && 0 !in src
    modifies dst
    ensures IsCut(src, size, count, k) && Holds(dst[..], Kept(src, Bound(src, k) + 1))
    ensures forall cps | IsText(cps) && src == Encoded(cps) ::
              Holds(dst[..], Encoded(cps[..CutCount(cps, size, count)]))
    ensures forall i | size <= i < dst.Length :: dst[i] == old(dst[i])
  {
    hide Kept, IsCut, IsText, Holds, Encoded, CutCount, Bound;
    var length;
    length, k := CutLength(src, size, count);
    CutFits(src, size, count, k);
    StrCopy(dst, src, length + 1);
    forall cps | IsText(cps) && src == Encoded(cps)
      ensures Holds(dst[..], Encoded(cps[..CutCount(cps, size, count)]))
    {
      KeptCut(cps, size, count, k);
    }
  }

  lemma KeptCut(cps: Points, size: nat, count: nat, k: nat)
    requires IsText(cps) && size > 0 && IsCut(Encoded(cps), size, count, k)
    ensures Kept(Encoded(cps), Bound(Encoded(cps), k) + 1) == Encoded(cps[..CutCount(cps, size, count)])
  {
    hide Kept, IsCut, IsText, Encoded, CutCount, Bound;
    CutOfText(cps, size, count, k);
    KeptWhole(cps, CutCount(cps, size, count));
  }

  lemma CutFits(src: seq<byte>, size: nat, count: nat, k: nat)
    requires IsCut(src, size, count, k)
    ensures Bound(src, k) < size
  {
  }

  lemma DecodesNext(cps: Points, k: nat)
    requires IsText(cps) && k < |cps|
    ensures |Encoded(cps[..k])| < |Encoded(cps[..k + 1])| <= |Encoded(cps)|
    ensures Decoding(Encoded(cps), |Encoded(cps[..k])|) == (cps[k], |Encoded(cps[..k + 1])|) && cps[k] != 0
  {
    hide Decoding;
    hide Encoding;
    assert cps[k] in cps;
    assert cps[..k + 1][..k] == cps[..k];
    EncodingShape(cps[k]);
    EncodedPrefix(cps, k + 1);
    var from, e := |Encoded(cps[..k])|, Encoding(cps[k]);
    assert Encoded(cps[..k + 1]) == Encoded(cps[..k]) + e;
    assert Encoded(cps)[..from + |e|] == Encoded(cps[..k]) + e;
    forall i | 0 <= i < |e| ensures ByteAt(Encoded(cps), from + i) == e[i] {
      assert Encoded(cps)[..from + |e|][from + i] == e[i];
    }
    DecodesEncoding(Encoded(cps), from, cps[k]);
  }
}
