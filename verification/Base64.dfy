/** The base64 encoder and its strict decoder of src/base/system.cpp (sections 3.5 and 4 of
    RFC 4648). */
module Base64 {
  import opened Arith
  import opened Bytes

  // ----- Digits ----------------------------------------------------------------------------------

  type Sextet = x: int | 0 <= x < 64

  function Digit(v: Sextet): char {
    if v < 26 then (65 + v) as char
    else if v < 52 then (97 + v - 26) as char
    else if v < 62 then (48 + v - 52) as char
    else if v == 62 then '+'
    else '/'
  }

  /** The value of a digit; -1 for what is none. */
  function DigitValue(c: char): (v: int)
    ensures -1 <= v < 64
  {
    if 'A' <= c <= 'Z' then c as int - 65
    else if 'a' <= c <= 'z' then c as int - 97 + 26
    else if '0' <= c <= '9' then c as int - 48 + 52
    else if c == '+' then 62
    else if c == '/' then 63
    else -1
  }

  lemma DigitsAreInverse(v: Sextet, c: char)
    ensures DigitValue(Digit(v)) == v && Digit(v) != '='
    ensures DigitValue(c) != -1 ==> Digit(DigitValue(c)) == c
  {
  }

  const ALPHABET := "ABCDEFGHIJKLMNOPQRSTUVWXYZ" + "abcdefghijklmnopqrstuvwxyz" + "0123456789" + "+/"

  /** The digits are those of table 1 of RFC 4648, in its order, and no other character is one. */
  lemma DigitsAreTheAlphabet(v: Sextet, c: char)
    ensures |ALPHABET| == 64 && ALPHABET[v] == Digit(v)
    ensures DigitValue(c) != -1 <==> c in ALPHABET
    ensures DigitValue(c) != -1 ==> ALPHABET[DigitValue(c)] == c
  {
    assert |ALPHABET| == 64;
    assert ALPHABET[v] == Digit(v);
    hide Digit, DigitValue, ALPHABET;
    DigitsAreInverse(v, c);
    if DigitValue(c) != -1 {
      DigitInAlphabet(DigitValue(c));
    }
    forall i | 0 <= i < 64 ensures ALPHABET[i] == Digit(i) && DigitValue(ALPHABET[i]) != -1 {
      DigitInAlphabet(i);
      DigitsAreInverse(i, c);
    }
  }

  lemma DigitInAlphabet(v: Sextet)
    ensures |ALPHABET| == 64 && ALPHABET[v] == Digit(v)
  {
  }

  // ----- The encoding ----------------------------------------------------------------------------

  /** The four characters for up to three bytes, padded. */
  function Group(d: seq<byte>): (r: string)
    requires 1 <= |d| <= 3
    ensures |r| == 4
  {
    if |d| == 3 then
      [Digit(d[0] / 4), Digit(d[0] % 4 * 16 + d[1] / 16), Digit(d[1] % 16 * 4 + d[2] / 64), Digit(d[2] % 64)]
    else if |d| == 2 then
      [Digit(d[0] / 4), Digit(d[0] % 4 * 16 + d[1] / 16), Digit(d[1] % 16 * 4), '=']
    else
      [Digit(d[0] / 4), Digit(d[0] % 4 * 16), '=', '=']
  }

  function Encoded(d: seq<byte>): (r: string)
    ensures |r| == (|d| + 2) / 3 * 4
  {
    if d == [] then ""
    else if |d| <= 3 then Group(d)
    else Group(d[..3]) + Encoded(d[3..])
  }

  // ----- The decoding ----------------------------------------------------------------------------

  datatype Decoding = Data(bytes: seq<byte>) | Failed(code: int)

  /** The number of characters of a quadruple that are padding; only the last may have any. */
  function Padding(q: string, last: bool): nat
    requires |q| == 4
  {
    if last && q[3] == '=' then (if q[2] == '=' then 2 else 1) else 0
  }

  function DecodedQuad(q: string, last: bool): (r: Decoding)
    requires |q| == 4
    ensures match r
            case Failed(code) => code < 0
            case Data(b) => 1 <= |b| <= 3
  {
    var padding := Padding(q, last);
    var d0, d1 := DigitValue(q[0]), DigitValue(q[1]);
    var d2 := DigitValue(if padding == 2 then 'A' else q[2]);
    var d3 := DigitValue(if padding >= 1 then 'A' else q[3]);
    if d0 == -1 || d1 == -1 || d2 == -1 || d3 == -1 then Failed(-1)
    else
      var value := d0 * 262144 + d1 * 4096 + d2 * 64 + d3;
      var b: seq<byte> := [value / 65536 % 256, value / 256 % 256, value % 256];
      if (padding == 2 && b[1] != 0) || (padding >= 1 && b[2] != 0) then Failed(-2)
      else Data(b[..3 - padding])
  }

  function DecodedQuads(s: string): Decoding
    requires |s| % 4 == 0
  {
    if s == [] then Data([])
    else
      match DecodedQuad(s[..4], |s| == 4)
      case Failed(code) => Failed(code)
      case Data(b) =>
        match DecodedQuads(s[4..])
        case Failed(code) => Failed(code)
        case Data(rest) => Data(b + rest)
  }

  function Decoded(s: string): Decoding {
    if |s| % 4 != 0 then Failed(-3) else DecodedQuads(s)
  }

  // ----- What the digits of a group mean ---------------------------------------------------------

  /** Digits read as a number to base 64. */
  function Number(q: string): int {
    if q == [] then 0 else 64 * Number(q[..|q| - 1]) + DigitValue(q[|q| - 1])
  }

  lemma NumberIs(q: string)
    requires |q| == 4
    ensures Number(q[..2]) == 64 * DigitValue(q[0]) + DigitValue(q[1])
    ensures Number(q[..3]) == 4096 * DigitValue(q[0]) + 64 * DigitValue(q[1]) + DigitValue(q[2])
    ensures Number(q) == 262144 * DigitValue(q[0]) + 4096 * DigitValue(q[1]) + 64 * DigitValue(q[2]) + DigitValue(q[3])
  {
    hide DigitValue;
    assert q[..3][..2] == q[..2] && q[..2][..1] == q[..1] && q[..1][..0] == [];
    assert Number(q[..1]) == DigitValue(q[0]);
    assert Number(q[..2]) == 64 * Number(q[..1]) + DigitValue(q[1]);
    assert Number(q[..3]) == 64 * Number(q[..2]) + DigitValue(q[2]);
    assert Number(q) == 64 * Number(q[..3]) + DigitValue(q[3]);
  }

  /** The digits are the bytes read as one number, base 64 instead of base 256, with zero bits behind. */
  lemma GroupValue(d: seq<byte>)
    requires 1 <= |d| <= 3
    ensures
      var q := Group(d);
      match |d|
      case 1 => q[2] == '=' && q[3] == '=' && Number(q[..2]) == 16 * (d[0] as int)
      case 2 => q[3] == '=' && Number(q[..3]) == 4 * (256 * (d[0] as int) + d[1])
      case _ => Number(q) == 65536 * (d[0] as int) + 256 * (d[1] as int) + d[2]
  {
    NumberIs(Group(d));
    GroupDigits(d, true, d[0], if |d| >= 2 then d[1] else 0, if |d| == 3 then d[2] else 0);
    hide DigitValue, Digit;
  }

  /** A group is refused with -1 exactly for characters that are no digits, padding at the end of the
      last group aside, and with -2 exactly for others that encode no bytes. */
  lemma RefusedExactly(q: string, last: bool)
    requires |q| == 4
    ensures DecodedQuad(q, last) == Failed(-1) <==>
      || q[0] !in ALPHABET || q[1] !in ALPHABET
      || (q[2] !in ALPHABET && !(last && q[2] == '=' && q[3] == '='))
      || (q[3] !in ALPHABET && !(last && q[3] == '='))
    ensures DecodedQuad(q, last) == Failed(-2) <==>
      DecodedQuad(q, last) != Failed(-1) && forall d: seq<byte> | 1 <= |d| <= 3 && (|d| < 3 ==> last) :: Group(d) != q
  {
    DigitsAreTheAlphabet(0, q[0]);
    DigitsAreTheAlphabet(0, q[1]);
    DigitsAreTheAlphabet(0, q[2]);
    DigitsAreTheAlphabet(0, q[3]);
    ValueOfA();
    RefusedCodes(q, last);
    PadIsNoDigit();
    hide DigitValue, Digit, ALPHABET, DecodedQuad, Group;
    if DecodedQuad(q, last).Data? {
      QuadEncodes(q, last);
    }
    forall d: seq<byte> | 1 <= |d| <= 3 && (|d| < 3 ==> last) && Group(d) == q ensures DecodedQuad(q, last).Data? {
      GroupDecodes(d, last);
    }
  }

  lemma PadIsNoDigit()
    ensures '=' !in ALPHABET
  {
    DigitsAreTheAlphabet(0, '=');
  }

  lemma RefusedCodes(q: string, last: bool)
    requires |q| == 4
    ensures DecodedQuad(q, last).Data? || DecodedQuad(q, last) == Failed(-1) || DecodedQuad(q, last) == Failed(-2)
    ensures
      var padding := Padding(q, last);
      DecodedQuad(q, last) == Failed(-1) <==>
        || DigitValue(q[0]) == -1 || DigitValue(q[1]) == -1
        || (padding < 2 && DigitValue(q[2]) == -1) || (padding < 1 && DigitValue(q[3]) == -1)
  {
    ValueOfA();
    hide DigitValue;
  }

  // ----- Both ways -------------------------------------------------------------------------------

  lemma GroupDecodes(d: seq<byte>, last: bool)
    requires 1 <= |d| <= 3 && (|d| < 3 ==> last)
    ensures DecodedQuad(Group(d), last) == Data(d)
  {
    hide Digit;
    hide DigitValue;
    var a, b, c := d[0], if |d| >= 2 then d[1] else 0, if |d| == 3 then d[2] else 0;
    GroupDigits(d, last, a, b, c);
    hide Group;
    SplitThree(a, b, c);
  }

  /** The digits that the decoder reads from a group. */
  lemma GroupDigits(d: seq<byte>, last: bool, a: byte, b: byte, c: byte)
    requires 1 <= |d| <= 3 && (|d| < 3 ==> last)
    requires a == d[0] && b == (if |d| >= 2 then d[1] else 0) && c == (if |d| == 3 then d[2] else 0)
    ensures
      var q := Group(d);
      && Padding(q, last) == 3 - |d|
      && DigitValue(q[0]) == a / 4 && DigitValue(q[1]) == a % 4 * 16 + b / 16
      && DigitValue(if |d| == 1 then 'A' else q[2]) == b % 16 * 4 + c / 64
      && DigitValue(if |d| < 3 then 'A' else q[3]) == c % 64
  {
    hide Digit;
    hide DigitValue;
    DigitsAreInverse(a / 4, 'A');
    DigitsAreInverse(a % 4 * 16 + b / 16, 'A');
    DigitsAreInverse(b % 16 * 4 + c / 64, 'A');
    DigitsAreInverse(c % 64, 'A');
    ValueOfA();
  }

  lemma ValueOfA()
    ensures DigitValue('A') == 0
  {
  }

  lemma LastByte(h: nat, x: byte)
    ensures (h * 256 + x) / 256 == h && (h * 256 + x) % 256 == x
  {
  }

  lemma ThreeBytes(a: byte, b: byte, c: byte)
    ensures
      var value := a * 65536 + b * 256 + c;
      value / 65536 % 256 == a && value / 256 % 256 == b && value % 256 == c
  {
    LastByte(a * 256 + b, c);
    LastByte(a, b);
    var value := (a * 256 + b) * 256 + c;
    assert value / 65536 == value / 256 / 256;
  }

  lemma SplitThree(a: byte, b: byte, c: byte)
    ensures
      var value := a / 4 * 262144 + (a % 4 * 16 + b / 16) * 4096 + (b % 16 * 4 + c / 64) * 64 + c % 64;
      value / 65536 % 256 == a && value / 256 % 256 == b && value % 256 == c
  {
    ThreeBytes(a, b, c);
    assert a == a / 4 * 4 + a % 4 && b == b / 16 * 16 + b % 16 && c == c / 64 * 64 + c % 64;
  }

  lemma QuadEncodes(q: string, last: bool)
    requires |q| == 4 && DecodedQuad(q, last).Data?
    ensures
      var d := DecodedQuad(q, last).bytes;
      1 <= |d| <= 3 && Group(d) == q && (|d| < 3 ==> last)
  {
    hide Digit;
    hide DigitValue;
    var padding := Padding(q, last);
    var d0, d1 := DigitValue(q[0]), DigitValue(q[1]);
    var d2 := DigitValue(if padding == 2 then 'A' else q[2]);
    var d3 := DigitValue(if padding >= 1 then 'A' else q[3]);
    ValueOfA();
    DigitsAreInverse(0, q[0]);
    DigitsAreInverse(0, q[1]);
    DigitsAreInverse(0, q[2]);
    DigitsAreInverse(0, q[3]);
    SplitFour(d0, d1, d2, d3);
  }

  lemma SplitFour(d0: Sextet, d1: Sextet, d2: Sextet, d3: Sextet)
    ensures
      var value := d0 * 262144 + d1 * 4096 + d2 * 64 + d3;
      var a, b, c := value / 65536 % 256, value / 256 % 256, value % 256;
      d0 == a / 4 && d1 == a % 4 * 16 + b / 16 && d2 == b % 16 * 4 + c / 64 && d3 == c % 64
  {
    ThreeBytes(d0 * 4 + d1 / 16, d1 % 16 * 16 + d2 / 4, d2 % 4 * 64 + d3);
    assert d1 == d1 / 16 * 16 + d1 % 16 && d2 == d2 / 4 * 4 + d2 % 4;
  }

  lemma QuadsStep(s: string, b: seq<byte>, rest: seq<byte>)
    requires |s| % 4 == 0 && |s| >= 4
    requires DecodedQuad(s[..4], |s| == 4) == Data(b) && DecodedQuads(s[4..]) == Data(rest)
    ensures DecodedQuads(s) == Data(b + rest)
  {
    hide DecodedQuad;
  }

  /** Decoding undoes encoding. */
  lemma {:induction false} EncodedDecodes(d: seq<byte>)
    ensures Decoded(Encoded(d)) == Data(d)
  {
    hide DecodedQuad;
    hide Group;
    var s := Encoded(d);
    if d == [] {
    } else if |d| <= 3 {
      GroupDecodes(d, true);
      assert s[..4] == Group(d) && s[4..] == [] && d + [] == d;
      QuadsStep(s, d, []);
    } else {
      GroupDecodes(d[..3], false);
      EncodedDecodes(d[3..]);
      hide DecodedQuads;
      assert s[..4] == Group(d[..3]) && s[4..] == Encoded(d[3..]) && d == d[..3] + d[3..];
      QuadsStep(s, d[..3], d[3..]);
    }
  }

  /** Every string that is accepted is the encoding of what it decodes to. */
  lemma {:induction false} DecodedEncodes(s: string)
    requires Decoded(s).Data?
    ensures Encoded(Decoded(s).bytes) == s
  {
    if s != [] {
      hide DecodedQuad;
      hide Group;
      QuadEncodes(s[..4], |s| == 4);
      DecodedEncodes(s[4..]);
      var b, rest := DecodedQuad(s[..4], |s| == 4).bytes, DecodedQuads(s[4..]).bytes;
      assert s == s[..4] + s[4..];
      if |s| > 4 {
        assert |b| == 3 && (b + rest)[..3] == b && (b + rest)[3..] == rest;
        assert rest != [] by {
          assert |Encoded(rest)| > 0;
        }
      } else {
        assert rest == [] && b + rest == b;
      }
    }
  }

  /** The decoder accepts exactly the encodings. */
  lemma AcceptsExactly(s: string)
    ensures Decoded(s).Data? <==> exists d :: Encoded(d) == s
  {
    if Decoded(s).Data? {
      DecodedEncodes(s);
    }
    forall d | Encoded(d) == s ensures Decoded(s).Data? {
      EncodedDecodes(d);
    }
  }

  // ----- The decoder as a program ----------------------------------------------------------------

  /** Decodes four characters to `dst[o..]`; `code` is 0 or the error. */
  method DecodeQuad(dst: array<byte>, o: nat, q: string, last: bool) returns (code: int, o': nat)
    requires |q| == 4 && o + 3 <= dst.Length
    modifies dst
    ensures match DecodedQuad(q, last)
            case Failed(c) => code == c
            case Data(b) => code == 0 && o' == o + |b| <= o + 3 && dst[..o'] == old(dst[..o]) + b
  {
    hide DigitValue;
    var copy := q;
    var numOutputBytes := 3;
    if last && copy[3] == '=' {
      copy := copy[3 := 'A'];
      numOutputBytes := 2;
      if copy[2] == '=' {
        copy := copy[2 := 'A'];
        numOutputBytes := 1;
      }
    }
    o' := o;
    var d0, d1, d2, d3 := DigitValue(copy[0]), DigitValue(copy[1]), DigitValue(copy[2]), DigitValue(copy[3]);
    if d0 == -1 || d1 == -1 || d2 == -1 || d3 == -1 {
      return -1, o';
    }
    var value := d0 * 262144 + d1 * 4096 + d2 * 64 + d3;
    var bytes: seq<byte> := [value / 65536 % 256, value / 256 % 256, value % 256];
    assert Padding(q, last) == 3 - numOutputBytes;
    for b := 0 to 3
      invariant o' == o + (if b < numOutputBytes then b else numOutputBytes)
      invariant dst[..o] == old(dst[..o]) && dst[o..o'] == bytes[..o' - o]
      invariant forall k | numOutputBytes <= k < b :: bytes[k] == 0
    {
      if b < numOutputBytes {
        dst[o'] := bytes[b];
        o' := o' + 1;
      } else if bytes[b] != 0 {
        return -2, o';
      }
    }
    assert dst[..o'] == dst[..o] + dst[o..o'];
    code := 0;
  }

  /** What is decoded so far, followed by what the rest decodes to. */
  function Prepended(b: seq<byte>, rest: Decoding): Decoding {
    match rest
    case Failed(code) => rest
    case Data(r) => Data(b + r)
  }

  lemma QuadsUnfold(s: string, b: seq<byte>)
    requires |s| % 4 == 0 && |s| >= 4
    ensures match DecodedQuad(s[..4], |s| == 4)
            case Failed(c) => Prepended(b, DecodedQuads(s)) == Failed(c)
            case Data(q) => Prepended(b, DecodedQuads(s)) == Prepended(b + q, DecodedQuads(s[4..]))
  {
    hide DecodedQuad;
    match DecodedQuad(s[..4], |s| == 4)
    case Failed(c) =>
    case Data(q) =>
      if DecodedQuads(s[4..]).Data? {
        assert b + (q + DecodedQuads(s[4..]).bytes) == b + q + DecodedQuads(s[4..]).bytes;
      }
  }

  /** Decodes a string into memory; the number of bytes, or a negative error. */
  method Decode(dst: array<byte>, size: nat, data: string) returns (r: int)
    requires size <= dst.Length
    modifies dst
    ensures |data| % 4 != 0 ==> r == -3
    ensures |data| % 4 == 0 && |data| / 4 * 3 > size ==> r == -2
    ensures |data| % 4 == 0 && |data| / 4 * 3 <= size ==>
      match Decoded(data)
      case Failed(c) => r == c
      case Data(b) => r == |b| && r <= size && dst[..r] == b
  {
    hide DecodedQuad;
    var o := 0;
    if |data| % 4 != 0 {
      return -3;
    }
    if |data| / 4 * 3 > size {
      return -2;
    }
    var i := 0;
    assert data[0..] == data && dst[..0] == [];
    PrependNone(DecodedQuads(data));
    while i < |data|
      invariant 0 <= i <= |data| && i % 4 == 0 && 0 <= o <= i / 4 * 3
      invariant DecodedQuads(data) == Prepended(dst[..o], DecodedQuads(data[i..]))
    {
      QuadsUnfold(data[i..], dst[..o]);
      assert data[i..][..4] == data[i..i + 4] && data[i..][4..] == data[i + 4..];
      var code;
      code, o := DecodeQuad(dst, o, data[i..i + 4], i == |data| - 4);
      if code != 0 {
        return code;
      }
      i := i + 4;
    }
    assert data[i..] == [] && dst[..o] + [] == dst[..o];
    r := o;
  }

  lemma PrependNone(d: Decoding)
    ensures Prepended([], d) == d
  {
    if d.Data? {
      assert [] + d.bytes == d.bytes;
    }
  }

  // ----- The encoder as a program ----------------------------------------------------------------

  const U32 := 0x1_0000_0000

  lemma {:induction false} EncodedAt(d: seq<byte>, g: nat)
    requires 3 * g < |d|
    ensures 4 * g + 4 <= |Encoded(d)|
    ensures Encoded(d)[4 * g..4 * g + 4] == Group(d[3 * g..if 3 * g + 3 < |d| then 3 * g + 3 else |d|])
  {
    hide Group;
    if |d| <= 3 {
      assert d[0..|d|] == d && Encoded(d)[0..4] == Group(d);
    } else if g == 0 {
      assert Encoded(d)[0..4] == Group(d[..3]);
    } else {
      EncodedAt(d[3..], g - 1);
      var e := Encoded(d[3..]);
      assert Encoded(d)[4 * g..4 * g + 4] == e[4 * (g - 1)..4 * (g - 1) + 4];
      assert d[3..][3 * (g - 1)..if 3 * g + 3 < |d| then 3 * g else |d| - 3] == d[3 * g..if 3 * g + 3 < |d| then 3 * g + 3 else |d|];
    }
  }

  function Pow4(r: nat): nat {
    if r == 0 then 1 else if r == 1 then 4 else if r == 2 then 16 else 64
  }

  /** The state between two digits: `o` characters are written, `i` bytes are read, and the last
      `bits` bits of `value` are left. */
  predicate Digits(d: seq<byte>, value: nat, bits: int, i: nat, o: nat) {
    var g, r := o / 4, o % 4;
    && i == 3 * g + r && i <= |d| && bits == 2 * r
    && (r > 0 ==> value % Pow4(r) == d[i - 1] % Pow4(r))
  }

  /** The state when only padding is left to write. */
  predicate Pads(d: seq<byte>, bits: int, i: nat, o: nat) {
    && i == |d| && |d| % 3 != 0 && bits < 0
    && 4 * (|d| / 3) + |d| % 3 < o <= |Encoded(d)|
  }

  function Pow2(n: nat): (p: nat)
    ensures p > 0
  {
    if n == 0 then 1 else 2 * Pow2(n - 1)
  }

  /** The digit of the program for its state: the value shifted right to the next six bits, or left
      if fewer are left. */
  function NextDigit(value: nat, bits: int): Sextet
    requires bits > 0
  {
    (if bits >= 6 then value / Pow2(bits - 6) else value * Pow2(6 - bits)) % 64
  }

  lemma NextDigitIs(value: nat)
    ensures NextDigit(value, 8) == value / 4 % 64
    ensures NextDigit(value, 10) == value / 16 % 64
    ensures NextDigit(value, 12) == value / 64 % 64
    ensures NextDigit(value, 6) == value % 64
    ensures NextDigit(value, 2) == value * 16 % 64
    ensures NextDigit(value, 4) == value * 4 % 64
  {
    assert Pow2(0) == 1 && Pow2(2) == 4 && Pow2(4) == 16 && Pow2(6) == 64;
  }

  /** The digit at `o` is one of the group that starts with byte `3 * (o / 4)`. */
  lemma CharAt(d: seq<byte>, o: nat) returns (group: seq<byte>)
    requires 3 * (o / 4) < |d|
    ensures 1 <= |group| <= 3 && o < |Encoded(d)| && Encoded(d)[o] == Group(group)[o % 4]
    ensures |group| == (if 3 * (o / 4) + 3 < |d| then 3 else |d| - 3 * (o / 4))
    ensures forall k | 0 <= k < |group| :: group[k] == d[3 * (o / 4) + k]
  {
    hide Group;
    hide Encoded;
    var g := o / 4;
    EncodedAt(d, g);
    group := d[3 * g..if 3 * g + 3 < |d| then 3 * g + 3 else |d|];
    assert Encoded(d)[o] == Encoded(d)[4 * g..4 * g + 4][o - 4 * g];
  }

  /** The six bits that follow the last `2 * r` bits of one byte with the next byte. */
  function SixBits(prev: byte, b: byte, r: nat): Sextet
    requires r < 3
  {
    if r == 0 then b / 4 else if r == 1 then prev % 4 * 16 + b / 16 else prev % 16 * 4 + b / 64
  }

  lemma Low256(w: nat, q: int, m: nat)
    requires w == 256 * q + m && m < 256
    ensures w / 4 % 64 == m / 4 && w % 4 == m % 4
  {
    DivModUnique(w, 4, 64 * q + m / 4, m % 4);
    DivModUnique(64 * q + m / 4, 64, q, m / 4);
  }

  lemma Low1024(w: nat, q: int, m: nat)
    requires w == 1024 * q + m && m < 1024
    ensures w / 16 % 64 == m / 16 && w % 16 == m % 16
  {
    DivModUnique(w, 16, 64 * q + m / 16, m % 16);
    DivModUnique(64 * q + m / 16, 64, q, m / 16);
  }

  lemma Low4096(w: nat, q: int, m: nat)
    requires w == 4096 * q + m && m < 4096
    ensures w / 64 % 64 == m / 64 && w % 64 == m % 64
  {
    DivModUnique(w, 64, 64 * q + m / 64, m % 64);
    DivModUnique(64 * q + m / 64, 64, q, m / 64);
  }

  lemma Loaded0(value: nat, b: byte)
    ensures (value * 256 + b) % U32 / 4 % 64 == b / 4 && (value * 256 + b) % U32 % 4 == b % 4
  {
    var x := value * 256 + b;
    Low256(x % U32, value - 16777216 * (x / U32), b);
  }

  lemma Loaded1(value: nat, prev: byte, b: byte)
    requires value % 4 == prev % 4
    ensures (value * 256 + b) % U32 / 16 % 64 == prev % 4 * 16 + b / 16 && (value * 256 + b) % U32 % 16 == b % 16
  {
    var x, v := value * 256 + b, value % 4;
    Low1024(x % U32, value / 4 - 4194304 * (x / U32), 256 * v + b);
  }

  lemma Loaded2(value: nat, prev: byte, b: byte)
    requires value % 16 == prev % 16
    ensures (value * 256 + b) % U32 / 64 % 64 == prev % 16 * 4 + b / 64 && (value * 256 + b) % U32 % 64 == b % 64
  {
    var x, v := value * 256 + b, value % 16;
    Low4096(x % U32, value / 16 - 1048576 * (x / U32), 256 * v + b);
  }

  lemma LoadedDigit(value: nat, prev: byte, b: byte, r: nat)
    requires r < 3 && (r > 0 ==> value % Pow4(r) == prev % Pow4(r))
    ensures
      var value' := (value * 256 + b) % U32;
      NextDigit(value', 2 * r + 8) == SixBits(prev, b, r) && value' % Pow4(r + 1) == b % Pow4(r + 1)
  {
    NextDigitIs((value * 256 + b) % U32);
    hide NextDigit;
    if r == 0 {
      Loaded0(value, b);
    } else if r == 1 {
      Loaded1(value, prev, b);
    } else {
      Loaded2(value, prev, b);
    }
  }

  /** With a byte more in `value`, the next digit is the next character, and the state goes on. */
  lemma FullDigit(d: seq<byte>, value: nat, i: nat, o: nat)
    requires Digits(d, value, 2 * (o % 4), i, o) && i < |d| && o % 4 < 3
    ensures
      var value' := (value * 256 + d[i]) % U32;
      var bits := 2 * (o % 4) + 8;
      && o < |Encoded(d)| && Encoded(d)[o] == Digit(NextDigit(value', bits))
      && Digits(d, value', bits - 6, i + 1, o + 1)
  {
    hide Digit;
    hide Encoded;
    hide NextDigit;
    var r := o % 4;
    var group := CharAt(d, o);
    LoadedDigit(value, if r > 0 then d[i - 1] else 0, d[i], r);
    assert Group(group)[r] == Digit(SixBits(if r > 0 then d[i - 1] else 0, d[i], r)) by {
      GroupDigit(group, r);
    }
    assert (o + 1) % 4 == r + 1 && (o + 1) / 4 == o / 4;
  }

  lemma GroupDigit(group: seq<byte>, r: nat)
    requires 1 <= |group| <= 3 && r < |group|
    ensures Group(group)[r] == Digit(SixBits(if r > 0 then group[r - 1] else 0, group[r], r))
  {
    hide Digit;
  }

  lemma LastDigit(d: seq<byte>, value: nat, i: nat, o: nat)
    requires Digits(d, value, 6, i, o) && o % 4 == 3
    ensures o < |Encoded(d)| && Encoded(d)[o] == Digit(NextDigit(value, 6)) && Digits(d, value, 0, i, o + 1)
  {
    hide Digit;
    hide Encoded;
    hide NextDigit;
    NextDigitIs(value);
    var group := CharAt(d, o);
    assert group[2] == d[i - 1];
    assert (o + 1) % 4 == 0 && (o + 1) / 4 == o / 4 + 1;
  }

  lemma PartValue(value: nat, prev: byte, r: nat)
    requires 0 < r < 3 && value % Pow4(r) == prev % Pow4(r)
    ensures NextDigit(value, 2 * r) == if r == 1 then prev % 4 * 16 else prev % 16 * 4
  {
    NextDigitIs(value);
    hide NextDigit;
    if r == 1 {
      DivModUnique(value * 16, 64, value / 4, value % 4 * 16);
    } else {
      DivModUnique(value * 4, 64, value / 16, value % 16 * 4);
    }
  }

  /** Without more bytes, the rest of the bits is a digit, and padding follows. */
  lemma PartDigit(d: seq<byte>, value: nat, o: nat)
    requires Digits(d, value, 2 * (o % 4), |d|, o) && 0 < o % 4 < 3
    ensures o < |Encoded(d)| && Encoded(d)[o] == Digit(NextDigit(value, 2 * (o % 4)))
    ensures Pads(d, 2 * (o % 4) - 6, |d|, o + 1)
  {
    hide Digit;
    hide Encoded;
    hide NextDigit;
    var r := o % 4;
    var group := CharAt(d, o);
    assert |group| == r && group[r - 1] == d[|d| - 1];
    PartValue(value, group[r - 1], r);
    DivModUnique(|d|, 3, o / 4, r);
    assert |Encoded(d)| == 4 * (o / 4) + 4;
    hide Pow4;
  }

  lemma PadDigit(d: seq<byte>, bits: int, o: nat)
    requires Pads(d, bits, |d|, o)
    ensures o % 4 == 0 <==> o == |Encoded(d)|
    ensures o % 4 != 0 ==> o < |Encoded(d)| && Encoded(d)[o] == '=' && Pads(d, bits, |d|, o + 1)
  {
    hide Digit;
    hide Encoded;
    var g := |d| / 3;
    assert |Encoded(d)| == 4 * g + 4;
    if o % 4 != 0 {
      assert o / 4 == g;
      var group := CharAt(d, o);
      assert |group| == |d| % 3;
    }
  }

  /** Encodes bytes into memory, as much of the encoding as fits before the terminator. */
  method Encode(dst: array<char>, size: nat, data: seq<byte>) returns (ghost written: nat)
    requires 0 < size <= dst.Length
    modifies dst
    ensures written == (if |Encoded(data)| < size then |Encoded(data)| else size - 1)
    ensures dst[..written] == Encoded(data)[..written] && dst[written] == 0 as char
  {
    hide Encoded;
    hide Digit;
    hide NextDigit;
    hide Digits;
    hide Pads;
    var value: nat, bits, i, o := 0, 0, 0, 0;
    var end := size - 1;
    dst[end] := 0 as char;
    StartDigits(data);
    while true
      invariant o <= end && o <= |Encoded(data)| && dst[..o] == Encoded(data)[..o] && dst[end] == 0 as char
      invariant Digits(data, value, bits, i, o) || Pads(data, bits, i, o)
      invariant value < U32
      decreases end - o
    {
      ghost var i0, value0, bits0 := i, value, bits;
      StateBits(data, value, bits, i, o);
      if bits < 6 && i < |data| {
        value := (value * 256 + data[i]) % U32;
        bits := bits + 8;
        FullDigit(data, value0, i, o);
        i := i + 1;
      } else if bits == 6 {
        LastDigit(data, value, i, o);
      } else if bits > 0 {
        PartDigit(data, value, o);
      }
      if o == end {
        return o;
      }
      if bits > 0 {
        dst[o] := Digit(NextDigit(value, bits));
        bits := bits - 6;
        o := o + 1;
      } else if o % 4 != 0 {
        PadDigit(data, bits, o);
        dst[o] := '=';
        o := o + 1;
      } else {
        EndOfGroups(data, value, bits, i, o);
        dst[o] := 0 as char;
        return o;
      }
    }
  }

  lemma StartDigits(d: seq<byte>)
    ensures Digits(d, 0, 0, 0, 0)
  {
  }

  lemma StateBits(d: seq<byte>, value: nat, bits: int, i: nat, o: nat)
    requires Digits(d, value, bits, i, o) || Pads(d, bits, i, o)
    ensures i <= |d| && bits <= 6
    ensures Digits(d, value, bits, i, o) ==> bits == 2 * (o % 4)
    ensures Pads(d, bits, i, o) ==> bits < 0 && i == |d|
  {
  }

  lemma EndOfGroups(d: seq<byte>, value: nat, bits: int, i: nat, o: nat)
    requires Digits(d, value, bits, i, o) || Pads(d, bits, i, o)
    requires o % 4 == 0 && i == |d|
    ensures o == |Encoded(d)|
  {
    hide Encoded;
    if Pads(d, bits, i, o) {
      PadDigit(d, bits, o);
    }
  }
}
