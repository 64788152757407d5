/** UTF-8 of src/base/system.cpp: code points to bytes and back (section 3 and 4 of RFC 3629).
    A string is the bytes before its terminator; reading at the terminator gives 0. */
module Utf8 {
  import opened Bytes

  /** The code points that UTF-8 is for. */
  predicate IsScalar(c: int) {
    0 <= c <= 0x10FFFF && !(0xD800 <= c <= 0xDFFF)
  }

  /** The bytes the encoder writes; none beyond the last code point. */
  function Encoding(chr: int): (r: seq<byte>)
    ensures |r| <= 4
  {
    if chr <= 0x7F then [chr % 256]
    else if chr <= 0x7FF then [0xC0 + chr / 64 % 32, 0x80 + chr % 64]
    else if chr <= 0xFFFF then [0xE0 + chr / 4096 % 16, 0x80 + chr / 64 % 64, 0x80 + chr % 64]
    else if chr <= 0x10FFFF then
      [0xF0 + chr / 262144 % 8, 0x80 + chr / 4096 % 64, 0x80 + chr / 64 % 64, 0x80 + chr % 64]
    else []
  }

  /** The bytes one by one, as the encoder writes them. */
  lemma EncodingIs(chr: int)
    ensures chr <= 0x7F ==> Encoding(chr) == [chr % 256]
    ensures 0x7F < chr <= 0x7FF ==> Encoding(chr) == [0xC0 + chr / 64 % 32, 0x80 + chr % 64]
    ensures 0x7FF < chr <= 0xFFFF ==> Encoding(chr) == [0xE0 + chr / 4096 % 16, 0x80 + chr / 64 % 64, 0x80 + chr % 64]
    ensures 0xFFFF < chr <= 0x10FFFF ==>
      Encoding(chr) == [0xF0 + chr / 262144 % 8, 0x80 + chr / 4096 % 64, 0x80 + chr / 64 % 64, 0x80 + chr % 64]
    ensures chr > 0x10FFFF ==> Encoding(chr) == []
  {
  }

  /** Writes the encoding of `chr` at `at` and returns its length. */
  method Encode(ptr: array<byte>, at: nat, chr: int) returns (n: nat)
    requires at + |Encoding(chr)| <= ptr.Length
    modifies ptr
    ensures n == |Encoding(chr)| && ptr[..] == old(ptr[..at]) + Encoding(chr) + old(ptr[at + n..])
  {
    hide Encoding;
    EncodingIs(chr);
    if chr <= 0x7F {
      ptr[at] := chr % 256;
      return 1;
    } else if chr <= 0x7FF {
      ptr[at] := 0xC0 + chr / 64 % 32;
      ptr[at + 1] := 0x80 + chr % 64;
      return 2;
    } else if chr <= 0xFFFF {
      ptr[at] := 0xE0 + chr / 4096 % 16;
      ptr[at + 1] := 0x80 + chr / 64 % 64;
      ptr[at + 2] := 0x80 + chr % 64;
      return 3;
    } else if chr <= 0x10FFFF {
      ptr[at] := 0xF0 + chr / 262144 % 8;
      ptr[at + 1] := 0x80 + chr / 4096 % 64;
      ptr[at + 2] := 0x80 + chr / 64 % 64;
      ptr[at + 3] := 0x80 + chr % 64;
      return 4;
    }
    return 0;
  }

  function ByteAt(s: seq<byte>, i: nat): byte
    requires i <= |s|
  {
    if i < |s| then s[i] else 0
  }

  function Pow64(n: nat): nat {
    if n == 0 then 1 else if n == 1 then 64 else if n == 2 then 4096 else 262144
  }

  /** Reads `needed` more bytes, the first of them between `lower` and `upper`. */
  function Continue(s: seq<byte>, at: nat, needed: nat, code: int, lower: int, upper: int): (r: (int, nat))
    requires at <= |s| && 1 <= needed <= 3 && lower > 0
    ensures at <= r.1 <= |s|
    decreases needed
  {
    var b := ByteAt(s, at);
    if !(lower <= b <= upper) then (-1, at)
    else
      var code' := code + (b - 0x80) * Pow64(needed - 1);
      if needed == 1 then (code', at + 1) else Continue(s, at + 1, needed - 1, code', 0x80, 0xBF)
  }

  /** The code point at `at`, -1 if there is none, and where the next one starts. */
  function Decoding(s: seq<byte>, at: nat): (r: (int, nat))
    requires at <= |s|
    ensures at < r.1 <= |s| + 1
    ensures at < |s| ==> r.1 <= |s|
  {
    var b := ByteAt(s, at);
    if b <= 0x7F then (b, at + 1)
    else if 0xC2 <= b <= 0xDF then Continue(s, at + 1, 1, (b - 0xC0) * 64, 0x80, 0xBF)
    else if 0xE0 <= b <= 0xEF then
      Continue(s, at + 1, 2, (b - 0xE0) * 4096, if b == 0xE0 then 0xA0 else 0x80, if b == 0xED then 0x9F else 0xBF)
    else if 0xF0 <= b <= 0xF4 then
      Continue(s, at + 1, 3, (b - 0xF0) * 262144, if b == 0xF0 then 0x90 else 0x80, if b == 0xF4 then 0x8F else 0xBF)
    else (-1, at + 1)
  }

  /** The decoder: it consumes at least one byte and reads none behind the terminator. */
  method Decode(s: seq<byte>, at: nat) returns (code: int, next: nat)
    requires at <= |s|
    ensures (code, next) == Decoding(s, at)
  {
    var lower, upper := 0x80, 0xBF;
    var seen, needed := 0, 0;
    code, next := 0, at;
    while true
      invariant needed == 0 ==> seen == 0 && next == at && lower == 0x80 && upper == 0xBF
      invariant needed > 0 ==>
        && 0 <= seen < needed <= 3 && at < next <= |s| && lower > 0
        && Decoding(s, at) == Continue(s, next, needed - seen, code, lower, upper)
      decreases if needed == 0 then 4 else needed - seen
    {
      var b := ByteAt(s, next);
      next := next + 1;
      if needed == 0 {
        if b <= 0x7F {
          return b, next;
        } else if 0xC2 <= b <= 0xDF {
          needed := 1;
          code := b - 0xC0;
        } else if 0xE0 <= b <= 0xEF {
          if b == 0xE0 {
            lower := 0xA0;
          }
          if b == 0xED {
            upper := 0x9F;
          }
          needed := 2;
          code := b - 0xE0;
        } else if 0xF0 <= b <= 0xF4 {
          if b == 0xF0 {
            lower := 0x90;
          }
          if b == 0xF4 {
            upper := 0x8F;
          }
          needed := 3;
          code := b - 0xF0;
        } else {
          return -1, next;
        }
        code := code * Pow64(needed);
        continue;
      }
      if !(lower <= b <= upper) {
        return -1, next - 1;
      }
      lower, upper := 0x80, 0xBF;
      seen := seen + 1;
      code := code + (b - 0x80) * Pow64(needed - seen);
      if seen != needed {
        continue;
      }
      return code, next;
    }
  }

  // ----- Both ways -------------------------------------------------------------------------------

  /** The terminated string has the bytes `e` at `at`. */
  predicate HasAt(s: seq<byte>, at: nat, e: seq<byte>) {
    at + |e| <= |s| + 1 && forall i | 0 <= i < |e| :: ByteAt(s, at + i) == e[i]
  }

  lemma Decoding2(s: seq<byte>, at: nat)
    requires at < |s| && 0xC2 <= s[at] <= 0xDF
    ensures
      var b1 := ByteAt(s, at + 1);
      Decoding(s, at) == if 0x80 <= b1 <= 0xBF then ((s[at] - 0xC0) * 64 + (b1 - 0x80), at + 2) else (-1, at + 1)
  {
  }

  lemma Decoding3(s: seq<byte>, at: nat)
    requires at < |s| && 0xE0 <= s[at] <= 0xEF
    ensures
      var b1 := ByteAt(s, at + 1);
      if (if s[at] == 0xE0 then 0xA0 else 0x80) <= b1 <= (if s[at] == 0xED then 0x9F else 0xBF) then
        at + 2 <= |s| &&
        var b2 := ByteAt(s, at + 2);
        Decoding(s, at) == if 0x80 <= b2 <= 0xBF
          then ((s[at] - 0xE0) * 4096 + (b1 - 0x80) * 64 + (b2 - 0x80), at + 3) else (-1, at + 2)
      else Decoding(s, at) == (-1, at + 1)
  {
  }

  lemma Decoding4(s: seq<byte>, at: nat)
    requires at < |s| && 0xF0 <= s[at] <= 0xF4
    ensures
      var b1 := ByteAt(s, at + 1);
      if (if s[at] == 0xF0 then 0x90 else 0x80) <= b1 <= (if s[at] == 0xF4 then 0x8F else 0xBF) then
        at + 2 <= |s| &&
        var b2 := ByteAt(s, at + 2);
        if 0x80 <= b2 <= 0xBF then
          at + 3 <= |s| &&
          var b3 := ByteAt(s, at + 3);
          Decoding(s, at) == if 0x80 <= b3 <= 0xBF
            then ((s[at] - 0xF0) * 262144 + (b1 - 0x80) * 4096 + (b2 - 0x80) * 64 + (b3 - 0x80), at + 4) else (-1, at + 3)
        else Decoding(s, at) == (-1, at + 2)
      else Decoding(s, at) == (-1, at + 1)
  {
  }

  lemma Digits(c: nat)
    ensures c / 4096 == c / 64 / 64 && c / 262144 == c / 64 / 64 / 64
    ensures c == c / 64 * 64 + c % 64
    ensures c / 64 == c / 4096 * 64 + c / 64 % 64
    ensures c / 4096 == c / 262144 * 64 + c / 4096 % 64
  {
  }

  lemma LastDigit(h: nat, x: nat)
    requires x < 64
    ensures (h * 64 + x) / 64 == h && (h * 64 + x) % 64 == x
  {
  }

  lemma Joined(x3: nat, x2: nat, x1: nat, x0: nat)
    requires x3 < 8 && x2 < 64 && x1 < 64 && x0 < 64
    ensures
      var c := x3 * 262144 + x2 * 4096 + x1 * 64 + x0;
      c / 262144 % 8 == x3 && c / 4096 % 16 == x2 % 16 && c / 4096 % 64 == x2 && c / 64 % 64 == x1 && c % 64 == x0
  {
    var e := x3 * 64 + x2;
    var d := e * 64 + x1;
    var c := d * 64 + x0;
    LastDigit(d, x0);
    LastDigit(e, x1);
    LastDigit(x3, x2);
    assert c / 64 == d && c / 4096 == e && c / 262144 == x3 by {
      Digits(c);
    }
  }

  /** Where the encoding of a scalar value stands, the decoder returns it and consumes just that. */
  lemma DecodesEncoding(s: seq<byte>, at: nat, c: int)
    requires IsScalar(c) && at <= |s| && HasAt(s, at, Encoding(c))
    ensures Decoding(s, at) == (c, at + |Encoding(c)|)
  {
    if c <= 0x7F {
      DecodesEncoding1(s, at, c);
    } else if c <= 0x7FF {
      DecodesEncoding2(s, at, c);
    } else if c <= 0xFFFF {
      DecodesEncoding3(s, at, c);
    } else {
      DecodesEncoding4(s, at, c);
    }
  }

  lemma DecodesEncoding1(s: seq<byte>, at: nat, c: int)
    requires 0 <= c <= 0x7F && at <= |s| && HasAt(s, at, Encoding(c))
    ensures Decoding(s, at) == (c, at + 1)
  {
    assert ByteAt(s, at + 0) == Encoding(c)[0];
  }

  lemma DecodesEncoding2(s: seq<byte>, at: nat, c: int)
    requires 0x7F < c <= 0x7FF && at <= |s| && HasAt(s, at, Encoding(c))
    ensures Decoding(s, at) == (c, at + 2)
  {
    hide Decoding;
    var e := Encoding(c);
    assert ByteAt(s, at + 0) == e[0] && ByteAt(s, at + 1) == e[1];
    Digits(c);
    Decoding2(s, at);
  }

  lemma DecodesEncoding3(s: seq<byte>, at: nat, c: int)
    requires 0x7FF < c <= 0xFFFF && IsScalar(c) && at <= |s| && HasAt(s, at, Encoding(c))
    ensures Decoding(s, at) == (c, at + 3)
  {
    hide Decoding;
    var e := Encoding(c);
    assert ByteAt(s, at + 0) == e[0] && ByteAt(s, at + 1) == e[1] && ByteAt(s, at + 2) == e[2];
    Digits(c);
    Decoding3(s, at);
  }

  lemma DecodesEncoding4(s: seq<byte>, at: nat, c: int)
    requires 0xFFFF < c <= 0x10FFFF && at <= |s| && HasAt(s, at, Encoding(c))
    ensures Decoding(s, at) == (c, at + 4)
  {
    hide Decoding;
    var e := Encoding(c);
    assert ByteAt(s, at + 0) == e[0] && ByteAt(s, at + 1) == e[1];
    assert ByteAt(s, at + 2) == e[2] && ByteAt(s, at + 3) == e[3];
    Digits(c);
    Decoding4(s, at);
  }

  /** What the decoder returns without error is a scalar value whose encoding it consumed. */
  lemma EncodesDecoding(s: seq<byte>, at: nat)
    requires at <= |s| && Decoding(s, at).0 != -1
    ensures
      var (c, next) := Decoding(s, at);
      IsScalar(c) && next == at + |Encoding(c)| && HasAt(s, at, Encoding(c))
  {
    var b := ByteAt(s, at);
    if b <= 0x7F {
    } else if b <= 0xDF {
      EncodesDecoding2(s, at);
    } else if b <= 0xEF {
      EncodesDecoding3(s, at);
    } else {
      EncodesDecoding4(s, at);
    }
  }

  lemma EncodesDecoding2(s: seq<byte>, at: nat)
    requires at < |s| && 0xC2 <= s[at] <= 0xDF && Decoding(s, at).0 != -1
    ensures
      var (c, next) := Decoding(s, at);
      IsScalar(c) && next == at + |Encoding(c)| && HasAt(s, at, Encoding(c))
  {
    hide Decoding;
    Decoding2(s, at);
    var x1, x0 := s[at] - 0xC0, ByteAt(s, at + 1) - 0x80;
    Joined(0, 0, x1, x0);
    assert Encoding(Decoding(s, at).0) == [0xC0 + x1, 0x80 + x0];
  }

  lemma EncodesDecoding3(s: seq<byte>, at: nat)
    requires at < |s| && 0xE0 <= s[at] <= 0xEF && Decoding(s, at).0 != -1
    ensures
      var (c, next) := Decoding(s, at);
      IsScalar(c) && next == at + |Encoding(c)| && HasAt(s, at, Encoding(c))
  {
    hide Decoding;
    Decoding3(s, at);
    var x2, x1, x0 := s[at] - 0xE0, ByteAt(s, at + 1) - 0x80, ByteAt(s, at + 2) - 0x80;
    var c := Decoding(s, at).0;
    Joined(0, x2, x1, x0);
    assert Encoding(c) == [0xE0 + x2, 0x80 + x1, 0x80 + x0];
  }

  lemma EncodesDecoding4(s: seq<byte>, at: nat)
    requires at < |s| && 0xF0 <= s[at] <= 0xF4 && Decoding(s, at).0 != -1
    ensures
      var (c, next) := Decoding(s, at);
      IsScalar(c) && next == at + |Encoding(c)| && HasAt(s, at, Encoding(c))
  {
    hide Decoding;
    Decoding4(s, at);
    var x3, x2, x1, x0 := s[at] - 0xF0, ByteAt(s, at + 1) - 0x80, ByteAt(s, at + 2) - 0x80, ByteAt(s, at + 3) - 0x80;
    var c := Decoding(s, at).0;
    Joined(x3, x2, x1, x0);
    assert Encoding(c) == [0xF0 + x3, 0x80 + x2, 0x80 + x1, 0x80 + x0];
  }

  /** The decoder gives 0 at the terminator only. */
  lemma ZeroAtEndOnly(s: seq<byte>, at: nat)
    requires at <= |s| && 0 !in s
    ensures Decoding(s, at).0 == 0 <==> at == |s|
  {
    if at < |s| && Decoding(s, at).0 == 0 {
      EncodesDecoding(s, at);
    }
  }

  /** The decoder fails exactly where no encoding of a scalar value stands. */
  lemma FailsExactly(s: seq<byte>, at: nat)
    requires at <= |s|
    ensures Decoding(s, at).0 == -1 <==> forall c | IsScalar(c) :: !HasAt(s, at, Encoding(c))
  {
    if Decoding(s, at).0 != -1 {
      EncodesDecoding(s, at);
    } else {
      forall c | IsScalar(c) && HasAt(s, at, Encoding(c)) ensures false {
        DecodesEncoding(s, at, c);
      }
    }
  }

  /** Surrogates are encoded, but what is written for them is not decoded. */
  lemma SurrogatesFail(s: seq<byte>, at: nat, c: int)
    requires 0xD800 <= c <= 0xDFFF && at <= |s| && HasAt(s, at, Encoding(c))
    ensures Decoding(s, at).0 == -1
  {
    assert ByteAt(s, at) == Encoding(c)[0] && ByteAt(s, at + 1) == Encoding(c)[1];
  }

  /** Of all code points that are encoded exactly the scalar values come back. */
  lemma DecodesScalarsOnly(s: seq<byte>, at: nat, c: int)
    requires 0 <= c <= 0x10FFFF && at <= |s| && HasAt(s, at, Encoding(c))
    ensures Decoding(s, at) == (c, at + |Encoding(c)|) <==> IsScalar(c)
    ensures Decoding(s, at).0 == -1 <==> !IsScalar(c)
  {
    hide Decoding, Encoding;
    if IsScalar(c) {
      DecodesEncoding(s, at, c);
    } else {
      SurrogatesFail(s, at, c);
    }
  }

  // ----- The bits of an encoding, and what is skipped on an error --------------------------------

  predicate IsTail(b: byte) {
    0x80 <= b <= 0xBF
  }

  /** The six bits of a byte behind the first. */
  function Six(b: byte): int {
    b as int - 0x80
  }

  /** The code point in the bits of its bytes (section 3 of RFC 3629): the length follows from the size
      of the code point, the first byte tells the length, and all others give six bits each. */
  lemma EncodingBits(c: int)
    requires 0 <= c <= 0x10FFFF
    ensures
      var e := Encoding(c);
      && |e| == (if c < 0x80 then 1 else if c < 0x800 then 2 else if c < 0x10000 then 3 else 4)
      && (forall i | 1 <= i < |e| :: IsTail(e[i]))
      && match |e|
         case 1 => c == e[0]
         case 2 => 0xC0 <= e[0] < 0xE0 && c == (e[0] as int - 0xC0) * 64 + Six(e[1])
         case 3 => 0xE0 <= e[0] < 0xF0 && c == (e[0] as int - 0xE0) * 4096 + Six(e[1]) * 64 + Six(e[2])
         case _ => 0xF0 <= e[0] < 0xF8 &&
                   c == (e[0] as int - 0xF0) * 262144 + Six(e[1]) * 4096 + Six(e[2]) * 64 + Six(e[3])
  {
    EncodingIs(c);
    Digits(c);
    hide Encoding;
    if c > 0x7F {
      SmallModulo(c / 64, 32);
      SmallModulo(c / 4096, 16);
      SmallModulo(c / 262144, 8);
      Quotients(c);
      Sums(c, c / 64, c / 4096, c / 262144, c / 4096 % 64, c / 64 % 64, c % 64);
    }
  }

  lemma SmallModulo(x: nat, n: nat)
    requires n > 0
    ensures x < n ==> x % n == x
  {
  }

  lemma Quotients(c: nat)
    ensures c < 0x800 ==> c / 64 < 32
    ensures c < 0x10000 ==> c / 4096 < 16
    ensures c < 0x200000 ==> c / 262144 < 8
  {
  }

  lemma Sums(c: nat, h: nat, q: nat, t: nat, x2: nat, x1: nat, x0: nat)
    requires c == h * 64 + x0 && h == q * 64 + x1 && q == t * 64 + x2
    ensures c == q * 4096 + x1 * 64 + x0 == t * 262144 + x2 * 4096 + x1 * 64 + x0
  {
  }

  /** The bytes from `at` on begin like those of `e`, as far as the first `n`. */
  predicate Begins(s: seq<byte>, at: nat, e: seq<byte>, n: nat) {
    n <= |e| && at + n <= |s| + 1 && forall i | 0 <= i < n :: ByteAt(s, at + i) == e[i]
  }

  /** Any bytes that an encoding begins with decode like it as far as they go. */
  lemma SameDecoding(s: seq<byte>, at: nat, c: int)
    requires at < |s| && IsScalar(c) && Decoding(s, at).0 == -1
    ensures !Begins(s, at, Encoding(c), Decoding(s, at).1 - at + 1)
  {
    var e, n := Encoding(c), Decoding(s, at).1 - at;
    assert HasAt(e, 0, e);
    DecodesEncoding(e, 0, c);
    if Begins(s, at, e, n + 1) {
      LeadDecides(s, at, e);
    }
  }

  /** Two strings with the same bytes up to the one at which the first fails: the second fails too. */
  lemma LeadDecides(s: seq<byte>, at: nat, e: seq<byte>)
    requires at < |s| && Decoding(s, at).0 == -1
    requires Begins(s, at, e, Decoding(s, at).1 - at + 1)
    ensures Decoding(e, 0).0 == -1
  {
    hide Continue;
    var b := s[at];
    assert ByteAt(s, at) == e[0] == ByteAt(e, 0);
    if 0xC2 <= b <= 0xDF {
      hide Decoding;
      Decoding2(s, at);
      Decoding2(e, 0);
      assert ByteAt(s, at + 1) == e[1];
    } else if 0xE0 <= b <= 0xEF {
      hide Decoding;
      Decoding3(s, at);
      Decoding3(e, 0);
      assert ByteAt(s, at + 1) == e[1];
    } else if 0xF0 <= b <= 0xF4 {
      hide Decoding;
      Decoding4(s, at);
      Decoding4(e, 0);
      assert ByteAt(s, at + 1) == e[1];
    }
  }

  /** On an error the decoder skips the longest beginning that some code point has in its encoding, or
      one byte if that begins none: what it skips goes no further, and if it is more than one byte it
      does begin an encoding. */
  lemma ErrorSkips(s: seq<byte>, at: nat)
    requires at < |s| && Decoding(s, at).0 == -1
    ensures
      var n := Decoding(s, at).1 - at;
      && 1 <= n <= 3
      && (forall c | IsScalar(c) :: !Begins(s, at, Encoding(c), n + 1))
      && (n > 1 ==> exists c :: IsScalar(c) && n < |Encoding(c)| && Begins(s, at, Encoding(c), n))
  {
    forall c | IsScalar(c) ensures !Begins(s, at, Encoding(c), Decoding(s, at).1 - at + 1) {
      SameDecoding(s, at, c);
    }
    SkipLength(s, at);
    if Decoding(s, at).1 - at > 1 {
      var c := Completed(s, at);
    }
  }

  lemma SkipLength(s: seq<byte>, at: nat)
    requires at < |s| && Decoding(s, at).0 == -1
    ensures 1 <= Decoding(s, at).1 - at <= 3
    ensures Decoding(s, at).1 - at > 1 ==> 0xE0 <= s[at] <= 0xF4
  {
    hide Continue;
    var b := s[at];
    if 0xC2 <= b <= 0xDF {
      Decoding2(s, at);
    } else if 0xE0 <= b <= 0xEF {
      Decoding3(s, at);
    } else if 0xF0 <= b <= 0xF4 {
      Decoding4(s, at);
    }
  }

  lemma WholeIsEncoding(e: seq<byte>) returns (c: int)
    requires e != [] && Decoding(e, 0).0 != -1 && Decoding(e, 0).1 == |e|
    ensures IsScalar(c) && Encoding(c) == e
  {
    hide Decoding, Encoding;
    c := Decoding(e, 0).0;
    EncodesDecoding(e, 0);
    assert forall i | 0 <= i < |e| :: ByteAt(e, 0 + i) == Encoding(c)[i];
  }

  lemma CompletedOf3(s: seq<byte>, at: nat) returns (e: seq<byte>)
    requires at < |s| && 0xE0 <= s[at] <= 0xEF && Decoding(s, at) == (-1, at + 2)
    ensures |e| == 3 && Begins(s, at, e, 2) && Decoding(e, 0).0 != -1 && Decoding(e, 0).1 == |e|
  {
    hide Decoding;
    Decoding3(s, at);
    e := [s[at], ByteAt(s, at + 1), 0x80];
    Decoding3(e, 0);
  }

  lemma CompletedOf4(s: seq<byte>, at: nat, n: nat) returns (e: seq<byte>)
    requires at < |s| && 0xF0 <= s[at] <= 0xF4 && 2 <= n <= 3 && Decoding(s, at) == (-1, at + n)
    ensures |e| == 4 && Begins(s, at, e, n) && Decoding(e, 0).0 != -1 && Decoding(e, 0).1 == |e|
  {
    hide Decoding;
    Decoding4(s, at);
    e := [s[at], ByteAt(s, at + 1), if n == 2 then 0x80 else ByteAt(s, at + 2), 0x80];
    Decoding4(e, 0);
  }

  /** What was skipped, with the least bytes that are still needed, is an encoding. */
  lemma Completed(s: seq<byte>, at: nat) returns (c: int)
    requires at < |s| && Decoding(s, at).0 == -1 && Decoding(s, at).1 - at > 1
    ensures IsScalar(c) && Decoding(s, at).1 - at < |Encoding(c)| && Begins(s, at, Encoding(c), Decoding(s, at).1 - at)
  {
    SkipLength(s, at);
    var n := Decoding(s, at).1 - at;
    var e: seq<byte>;
    if s[at] <= 0xEF {
      ThreeSkipTwo(s, at);
      e := CompletedOf3(s, at);
    } else {
      e := CompletedOf4(s, at, n);
    }
    hide Decoding, Encoding, Begins;
    c := WholeIsEncoding(e);
  }

  lemma ThreeSkipTwo(s: seq<byte>, at: nat)
    requires at < |s| && 0xE0 <= s[at] <= 0xEF && Decoding(s, at).0 == -1 && Decoding(s, at).1 - at > 1
    ensures Decoding(s, at) == (-1, at + 2)
  {
    hide Decoding;
    Decoding3(s, at);
  }
}
