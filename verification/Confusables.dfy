/** Strings that look alike (src/base/unicode/confusables.cpp): the lookup in the packed tables, the
    cursor over the skeleton of a string, and the comparison of two skeletons in lock step. */
module Confusables {
  import opened Bytes
  import opened ConfusablesData
  import opened Utf8
  import Utf8Truncate

  // ----- Skeletons -------------------------------------------------------------------------------

  /** What stands for one decoded code point, or for a decoding error. */
  function Replacement(d: Dictionary, c: int): seq<int> {
    if c in d then d[c] else [c]
  }

  /** Every element replaced (`apply` of the generator). */
  function Apply(cs: seq<int>, d: Dictionary): seq<int> {
    if cs == [] then [] else Replacement(d, cs[0]) + Apply(cs[1..], d)
  }

  /** The skeleton of the string from `at` on. */
  function SkeletonFrom(d: Dictionary, s: seq<byte>, at: nat): seq<int>
    requires at <= |s| + 1
    decreases |s| + 1 - at
  {
    if at >= |s| then [] else Replacement(d, Decoding(s, at).0) + SkeletonFrom(d, s, Decoding(s, at).1)
  }

  function Skeleton(d: Dictionary, s: seq<byte>): seq<int> {
    SkeletonFrom(d, s, 0)
  }

  /** A string has no byte 0, and no entry of the dictionary has an element 0. */
  ghost predicate Usable(d: Dictionary, s: seq<byte>) {
    0 !in s && forall c | c in d :: 0 !in d[c]
  }

  // ----- Skeletons of texts ----------------------------------------------------------------------

  lemma {:induction false} ContinueBehind(e: seq<byte>, s: seq<byte>, at: nat,
      needed: nat, code: int, lower: int, upper: int)
    requires at <= |s| && 1 <= needed <= 3 && lower > 0
    ensures var (c, next) := Continue(s, at, needed, code, lower, upper);
            Continue(e + s, |e| + at, needed, code, lower, upper) == (c, |e| + next)
    decreases needed
  {
    var b := ByteAt(s, at);
    assert ByteAt(e + s, |e| + at) == b;
    if lower <= b <= upper && needed > 1 {
      ContinueBehind(e, s, at + 1, needed - 1, code + (b - 0x80) * Pow64(needed - 1), 0x80, 0xBF);
    }
  }

  /** What stands in front of a place does not matter to decoding there. */
  lemma DecodingBehind(e: seq<byte>, s: seq<byte>, at: nat)
    requires at <= |s|
    ensures var (c, next) := Decoding(s, at); Decoding(e + s, |e| + at) == (c, |e| + next)
  {
    hide Continue;
    var b: int := ByteAt(s, at);
    assert ByteAt(e + s, |e| + at) == b;
    if 0xC2 <= b <= 0xDF {
      ContinueBehind(e, s, at + 1, 1, (b - 0xC0) * 64, 0x80, 0xBF);
    } else if 0xE0 <= b <= 0xEF {
      var lower, upper := if b == 0xE0 then 0xA0 else 0x80, if b == 0xED then 0x9F else 0xBF;
      ContinueBehind(e, s, at + 1, 2, (b - 0xE0) * 4096, lower, upper);
    } else if 0xF0 <= b <= 0xF4 {
      var lower, upper := if b == 0xF0 then 0x90 else 0x80, if b == 0xF4 then 0x8F else 0xBF;
      ContinueBehind(e, s, at + 1, 3, (b - 0xF0) * 262144, lower, upper);
    }
  }

  lemma {:induction false} SkeletonBehind(d: Dictionary, e: seq<byte>, s: seq<byte>, at: nat)
    requires at <= |s| + 1
    ensures SkeletonFrom(d, e + s, |e| + at) == SkeletonFrom(d, s, at)
    decreases |s| + 1 - at
  {
    hide Decoding, Replacement;
    if at < |s| {
      DecodingBehind(e, s, at);
      SkeletonBehind(d, e, s, Decoding(s, at).1);
    }
  }

  lemma SkeletonOfNext(d: Dictionary, c: int, s: seq<byte>)
    requires IsScalar(c)
    ensures Skeleton(d, Encoding(c) + s) == Replacement(d, c) + Skeleton(d, s)
  {
    hide Decoding, Replacement;
    var e := Encoding(c);
    assert HasAt(e + s, 0, e);
    DecodesEncoding(e + s, 0, c);
    SkeletonBehind(d, e, s, 0);
  }

  lemma {:induction false} EncodedFirst(cps: seq<int>)
    requires cps != []
    ensures Utf8Truncate.Encoded(cps) == Encoding(cps[0]) + Utf8Truncate.Encoded(cps[1..])
  {
    hide Encoding;
    if |cps| > 1 {
      var front := cps[..|cps| - 1];
      EncodedFirst(front);
      assert cps[1..][..|cps| - 2] == front[1..];
    }
  }

  /** The skeleton of a text is its code points replaced one by one; what follows the text keeps
      the skeleton that it has alone. */
  lemma {:induction false} SkeletonOfText(d: Dictionary, cps: seq<int>, s: seq<byte>)
    requires Utf8Truncate.IsText(cps)
    ensures Skeleton(d, Utf8Truncate.Encoded(cps) + s) == Apply(cps, d) + Skeleton(d, s)
  {
    hide Encoding, Replacement, Skeleton;
    if cps == [] {
      assert Utf8Truncate.Encoded(cps) + s == s;
    } else {
      assert cps[0] in cps;
      SkeletonOfText(d, cps[1..], s);
      EncodedFirst(cps);
      var rest := Utf8Truncate.Encoded(cps[1..]) + s;
      assert Utf8Truncate.Encoded(cps) + s == Encoding(cps[0]) + rest;
      SkeletonOfNext(d, cps[0], rest);
    }
  }

  /** A text without entries in the dictionary is its own skeleton, and of one code point with an entry
      the skeleton is that entry. */
  lemma {:induction false} PlainSkeleton(d: Dictionary, cps: seq<int>)
    requires Utf8Truncate.IsText(cps)
    ensures (forall c | c in cps :: c !in d) ==> Skeleton(d, Utf8Truncate.Encoded(cps)) == cps
    ensures |cps| == 1 && cps[0] in d ==> Skeleton(d, Utf8Truncate.Encoded(cps)) == d[cps[0]]
  {
    SkeletonOfText(d, cps, []);
    assert Utf8Truncate.Encoded(cps) + [] == Utf8Truncate.Encoded(cps);
    assert Skeleton(d, []) == [];
    hide Skeleton, Utf8Truncate.Encoded, Utf8Truncate.IsText;
    if forall c | c in cps :: c !in d {
      AppliedToNone(d, cps);
    }
    if |cps| == 1 {
      assert cps[1..] == [] && Apply(cps, d) == Replacement(d, cps[0]) + [];
    }
  }

  lemma {:induction false} AppliedToNone(d: Dictionary, cps: seq<int>)
    requires forall c | c in cps :: c !in d
    ensures Apply(cps, d) == cps
  {
    if cps != [] {
      AppliedToNone(d, cps[1..]);
    }
  }

  /** A decoding error stands for itself, as -1, and what follows the skipped bytes keeps its skeleton. */
  lemma ErrorInSkeleton(d: Dictionary, s: seq<byte>)
    requires s != [] && Decoding(s, 0).0 == -1 && -1 !in d
    ensures Skeleton(d, s) == [-1] + Skeleton(d, s[Decoding(s, 0).1..])
  {
    hide Decoding;
    var n := Decoding(s, 0).1;
    assert s == s[..n] + s[n..];
    SkeletonBehind(d, s[..n], s[n..], 0);
  }

  ghost predicate Confusable(d: Dictionary, a: seq<byte>, b: seq<byte>) {
    Skeleton(d, a) == Skeleton(d, b)
  }

  /** Texts that look alike, followed by strings that look alike, look alike. */
  lemma ConfusableJoins(d: Dictionary, a: seq<int>, b: seq<int>, s: seq<byte>, t: seq<byte>)
    requires Utf8Truncate.IsText(a) && Utf8Truncate.IsText(b)
    requires Confusable(d, Utf8Truncate.Encoded(a), Utf8Truncate.Encoded(b)) && Confusable(d, s, t)
    ensures Confusable(d, Utf8Truncate.Encoded(a) + s, Utf8Truncate.Encoded(b) + t)
  {
    assert Skeleton(d, []) == [];
    hide Skeleton, Apply, Utf8Truncate.Encoded, Utf8Truncate.IsText;
    SkeletonOfText(d, a, s);
    SkeletonOfText(d, b, t);
    SkeletonOfText(d, a, []);
    SkeletonOfText(d, b, []);
    assert Utf8Truncate.Encoded(a) + [] == Utf8Truncate.Encoded(a);
    assert Utf8Truncate.Encoded(b) + [] == Utf8Truncate.Encoded(b);
    assert Apply(a, d) + [] == Apply(a, d) && Apply(b, d) + [] == Apply(b, d);
  }

  // ----- The lookup ------------------------------------------------------------------------------

  datatype Pointer = Null | At(index: nat)

  /** The answer for a code point: where its entry stands, or that it stands for itself. */
  ghost predicate Answers(t: Tables, d: Dictionary, ch: int, p: Pointer, len: nat) {
    if ch in d then p.At? && p.index + len <= |t.data| && t.data[p.index..][..len] == d[ch]
    else p == Null && len == 1
  }

  method Lookup(t: Tables, ch: int, ghost d: Dictionary) returns (found: bool, skeleton: Pointer, len: nat)
    requires Represents(t, d)
    ensures found == (ch in d)
    ensures Answers(t, d, ch, skeleton, len)
  {
    hide Ascending, HoldsEntry;
    for i := 0 to |t.chars|
      invariant forall j | 0 <= j < i :: t.chars[j] < ch
    {
      if ch == t.chars[i] {
        EntryAt(t, d, i);
        var offset := t.slices[i].offset;
        var length := t.lengths[t.slices[i].length];
        return true, At(offset), length;
      } else if ch < t.chars[i] {
        NotBetween(t, d, ch, i);
        return false, Null, 1;
      }
    }
    NotBetween(t, d, ch, |t.chars|);
    return false, Null, 1;
  }

  lemma EntryAt(t: Tables, d: Dictionary, i: nat)
    requires Represents(t, d) && i < |t.chars|
    ensures t.chars[i] in d && t.slices[i].length < |t.lengths|
    ensures Answers(t, d, t.chars[i], At(t.slices[i].offset), t.lengths[t.slices[i].length])
  {
    var c := t.chars[i];
    assert c in t.chars;
    assert HoldsEntry(t, t.slices[i], d[c]);
  }

  lemma Increasing(cs: seq<int>, i: nat, k: nat)
    requires Ascending(cs, IntLess) && i < k < |cs|
    ensures cs[i] < cs[k]
  {
  }

  lemma NotBetween(t: Tables, d: Dictionary, ch: int, i: nat)
    requires Represents(t, d) && i <= |t.chars|
    requires forall j | 0 <= j < i :: t.chars[j] < ch
    requires i < |t.chars| ==> ch < t.chars[i]
    ensures ch !in d
  {
    forall k | i < k < |t.chars| ensures t.chars[i] < t.chars[k] {
      Increasing(t.chars, i, k);
    }
    assert ch !in t.chars;
  }

  // ----- The cursor ------------------------------------------------------------------------------

  class Cursor {
    const t: Tables
    const s: seq<byte>
    var skeleton: Pointer
    var len: nat
    var at: nat

    constructor (t: Tables, s: seq<byte>)
      ensures this.t == t && this.s == s && Valid()
      ensures forall d :: Remaining(d) == Skeleton(d, s)
    {
      this.t, this.s := t, s;
      skeleton, len, at := Null, 0, 0;
    }

    ghost predicate Valid()
      reads this
    {
      && at <= |s|
      && (if skeleton.At? then skeleton.index + len <= |t.data| else len == 0)
    }

    /** The part of the skeleton that the cursor has still to give. */
    ghost function Remaining(d: Dictionary): seq<int>
      requires Valid()
      reads this
    {
      Held(t, skeleton, len, 0) + SkeletonFrom(d, s, at)
    }

    /** The next element; 0 once there is none. */
    method Next(ghost d: Dictionary) returns (ch: int)
      requires Valid() && Represents(t, d) && 0 !in s && 0 !in Remaining(d)
      modifies this
      ensures old(Remaining(d)) == [] ==> ch == 0
      ensures old(Remaining(d)) != [] ==>
                ch != 0 && Valid() && old(Remaining(d)) == [ch] + Remaining(d) && 0 !in Remaining(d)
    {
      hide Represents, Answers, SkeletonFrom, Decoding, Held;
      ghost var rest := Remaining(d);
      ch := 0;
      while len == 0
        invariant at <= |s| && Stocked(t, skeleton, len)
        invariant rest == Held(t, skeleton, len, ch) + SkeletonFrom(d, s, at)
        decreases |s| - at, len == 0
      {
        HeldNothing(t, skeleton, len);
        assert rest == SkeletonFrom(d, s, at);
        var next: nat;
        ZeroAtEndOnly(s, at);
        ch, next := Decode(s, at);
        if ch == 0 {
          Ended(d, s, at);
          at := next;
          return 0;
        }
        ghost var was := at;
        at := next;
        var found: bool;
        found, skeleton, len := Lookup(t, ch, d);
        Refilled(t, d, s, was, skeleton, len);
      }
      HeldFirst(t, skeleton, len, ch);
      len := len - 1;
      if skeleton != Null {
        ch := t.data[skeleton.index];
        skeleton := At(skeleton.index + 1);
      }
      assert rest == [ch] + Remaining(d);
      assert rest[0] == ch;
    }
  }

  predicate Stocked(t: Tables, p: Pointer, len: nat) {
    if p.At? then p.index + len <= |t.data| else len <= 1
  }

  /** The elements that a cursor has looked up already; `ch` where the code point stands for itself. */
  function Held(t: Tables, p: Pointer, len: nat, ch: int): seq<int>
    requires Stocked(t, p, len)
  {
    if p.At? then t.data[p.index..][..len] else if len == 0 then [] else [ch]
  }

  lemma HeldFirst(t: Tables, p: Pointer, len: nat, ch: int)
    requires Stocked(t, p, len) && len > 0
    ensures if p.At? then Held(t, p, len, ch) == [t.data[p.index]] + Held(t, At(p.index + 1), len - 1, 0)
            else Held(t, p, len, ch) == [ch] && Held(t, p, 0, 0) == []
  {
  }

  lemma HeldNothing(t: Tables, p: Pointer, len: nat)
    requires Stocked(t, p, len)
    ensures len == 0 ==> forall ch :: Held(t, p, len, ch) == []
  {
  }

  lemma Refilled(t: Tables, d: Dictionary, s: seq<byte>, at: nat, p: Pointer, len: nat)
    requires at < |s| && Answers(t, d, Decoding(s, at).0, p, len)
    ensures Stocked(t, p, len)
    ensures SkeletonFrom(d, s, at) == Held(t, p, len, Decoding(s, at).0) + SkeletonFrom(d, s, Decoding(s, at).1)
  {
  }

  lemma Ended(d: Dictionary, s: seq<byte>, at: nat)
    requires |s| <= at <= |s| + 1
    ensures SkeletonFrom(d, s, at) == []
  {
  }

  lemma {:induction false} NoZero(d: Dictionary, s: seq<byte>, at: nat)
    requires at <= |s| + 1 && Usable(d, s)
    ensures 0 !in SkeletonFrom(d, s, at)
    decreases |s| + 1 - at
  {
    if at < |s| {
      ZeroAtEndOnly(s, at);
      NoZero(d, s, Decoding(s, at).1);
    }
  }

  // ----- The comparison --------------------------------------------------------------------------

  /** 0 exactly for two strings with the same skeleton. */
  method CompConfusable(t: Tables, str1: seq<byte>, str2: seq<byte>, ghost d: Dictionary) returns (r: int)
    requires Represents(t, d) && Usable(d, str1) && Usable(d, str2)
    ensures r == if Confusable(d, str1, str2) then 0 else 1
  {
    NoZero(d, str1, 0);
    NoZero(d, str2, 0);
    var skel1 := new Cursor(t, str1);
    var skel2 := new Cursor(t, str2);
    ghost var same := Confusable(d, str1, str2);
    assert same == (skel1.Remaining(d) == skel2.Remaining(d));
    hide Skeleton, SkeletonFrom, Confusable, Represents, Held, Cursor.Remaining;
    while true
      invariant skel1.Valid() && skel2.Valid() && 0 !in skel1.Remaining(d) && 0 !in skel2.Remaining(d)
      invariant same == (skel1.Remaining(d) == skel2.Remaining(d))
      decreases |skel1.Remaining(d)|
    {
      ghost var rest1, rest2 := skel1.Remaining(d), skel2.Remaining(d);
      var ch1 := skel1.Next(d);
      var ch2 := skel2.Next(d);
      if ch1 == 0 || ch2 == 0 {
        return if ch1 != ch2 then 1 else 0;
      }
      SameNext(ch1, skel1.Remaining(d), ch2, skel2.Remaining(d));
      if ch1 != ch2 {
        return 1;
      }
    }
  }

  lemma SameNext(a: int, r: seq<int>, b: int, s: seq<int>)
    ensures [a] + r == [b] + s <==> a == b && r == s
  {
    if [a] + r == [b] + s {
      assert ([a] + r)[0] == a && ([b] + s)[0] == b;
      assert ([a] + r)[1..] == r && ([b] + s)[1..] == s;
    }
  }

  /** Writes the skeleton, or as much of it as there is room for. */
  method ToSkeleton(t: Tables, str: seq<byte>, buf: array<int>, ghost d: Dictionary) returns (n: nat)
    requires Represents(t, d) && Usable(d, str)
    modifies buf
    ensures n == if |Skeleton(d, str)| <= buf.Length then |Skeleton(d, str)| else buf.Length
    ensures buf[..n] == Skeleton(d, str)[..n]
    ensures forall j | n <= j < buf.Length :: buf[j] == old(buf[j])
  {
    hide SkeletonFrom, Represents, Held;
    NoZero(d, str, 0);
    var skel := new Cursor(t, str);
    n := 0;
    while n < buf.Length
      invariant n <= buf.Length && skel.Valid()
      invariant Skeleton(d, str) == buf[..n] + skel.Remaining(d)
      invariant forall j | n <= j < buf.Length :: buf[j] == old(buf[j])
    {
      var ch := skel.Next(d);
      if ch == 0 {
        break;
      }
      buf[n] := ch;
      n := n + 1;
    }
  }
}
