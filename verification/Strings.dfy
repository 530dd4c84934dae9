/** Texts as sequences of code points: whitespace as Python's str.strip() sees it, and UTF-8 (RFC 3629). */
module Strings {

  type Byte = b: int | 0 <= b < 256

  // ---------------------------------------------------------------- str.strip()

  predicate IsSpace(c: char) {
    var p := c as int;
    || 0x09 <= p <= 0x0D || 0x1C <= p <= 0x20 || p == 0x85 || p == 0xA0 || p == 0x1680
    || 0x2000 <= p <= 0x200A || p == 0x2028 || p == 0x2029 || p == 0x202F || p == 0x205F || p == 0x3000
  }

  function StripLeft(s: string): (r: string)
    ensures |r| <= |s|
  {
    if s != "" && IsSpace(s[0]) then StripLeft(s[1..]) else s
  }

  function StripRight(s: string): (r: string)
    ensures |r| <= |s|
  {
    if s != "" && IsSpace(s[|s| - 1]) then StripRight(s[..|s| - 1]) else s
  }

  function Strip(s: string): string {
    StripRight(StripLeft(s))
  }

  /** Stripping leaves exactly the texts that begin and end without whitespace, and the empty one. */
  lemma StripKeepsIff(s: string)
    ensures Strip(s) == s <==> s == "" || (!IsSpace(s[0]) && !IsSpace(s[|s| - 1]))
  {
    hide IsSpace;
  }

  // ---------------------------------------------------------------- UTF-8

  predicate IsScalar(p: int) {
    0 <= p < 0xD800 || 0xE000 <= p < 0x11_0000
  }

  function CharBytes(c: char): (b: seq<Byte>)
    ensures b != []
  {
    var p := c as int;
    if p < 0x80 then [p]
    else if p < 0x800 then [0xC0 + p / 0x40, 0x80 + p % 0x40]
    else if p < 0x1_0000 then [0xE0 + p / 0x1000, 0x80 + p / 0x40 % 0x40, 0x80 + p % 0x40]
    else [0xF0 + p / 0x4_0000, 0x80 + p / 0x1000 % 0x40, 0x80 + p / 0x40 % 0x40, 0x80 + p % 0x40]
  }

  /** str.encode("utf-8") */
  function Utf8(s: string): seq<Byte> {
    if s == "" then [] else CharBytes(s[0]) + Utf8(s[1..])
  }

  predicate Continues(b: Byte) {
    0x80 <= b < 0xC0
  }

  datatype Decoded = Char(c: char, size: nat) | Malformed

  /** The code point, if it is one and needs the bytes that it has. */
  function Scalar(p: int, least: int, size: nat): Decoded {
    if least <= p && IsScalar(p) then Char(p as char, size) else Malformed
  }

  /** The first character of well-formed bytes, with the number of bytes it takes. */
  function FirstChar(b: seq<Byte>): (d: Decoded)
    requires b != []
    ensures d.Char? ==> 1 <= d.size <= |b|
  {
    if b[0] < 0x80 then Char(b[0] as char, 1)
    else if 0xC0 <= b[0] < 0xE0 && |b| >= 2 && Continues(b[1]) then
      Scalar((b[0] as int - 0xC0) * 0x40 + (b[1] as int - 0x80), 0x80, 2)
    else if 0xE0 <= b[0] < 0xF0 && |b| >= 3 && Continues(b[1]) && Continues(b[2]) then
      Scalar((b[0] as int - 0xE0) * 0x1000 + (b[1] as int - 0x80) * 0x40 + (b[2] as int - 0x80), 0x800, 3)
    else if 0xF0 <= b[0] < 0xF8 && |b| >= 4 && Continues(b[1]) && Continues(b[2]) && Continues(b[3]) then
      Scalar((b[0] as int - 0xF0) * 0x4_0000 + (b[1] as int - 0x80) * 0x1000
             + (b[2] as int - 0x80) * 0x40 + (b[3] as int - 0x80), 0x1_0000, 4)
    else Malformed
  }

  datatype Text = Text(s: string) | NotUtf8

  /** bytes.decode("utf-8"), which refuses surrogates and longer forms than needed. */
  function FromUtf8(b: seq<Byte>): Text {
    if b == [] then Text("")
    else match FirstChar(b)
      case Malformed => NotUtf8
      case Char(c, size) =>
        match FromUtf8(b[size..])
        case NotUtf8 => NotUtf8
        case Text(s) => Text([c] + s)
  }

  lemma SixBits(p: nat)
    ensures p / 0x40 == p / 0x1000 * 0x40 + p / 0x40 % 0x40
  {
  }

  lemma TwelveBits(p: nat)
    ensures p / 0x1000 == p / 0x4_0000 * 0x40 + p / 0x1000 % 0x40
  {
  }

  lemma FirstOfChar(c: char, rest: seq<Byte>)
    ensures FirstChar(CharBytes(c) + rest) == Char(c, |CharBytes(c)|)
  {
    var p := c as int;
    var b := CharBytes(c) + rest;
    SixBits(p);
    TwelveBits(p);
    if p < 0x80 {
      assert b[0] == p;
    } else if p < 0x800 {
      assert b[0] == 0xC0 + p / 0x40 && b[1] == 0x80 + p % 0x40;
    } else if p < 0x1_0000 {
      assert b[0] == 0xE0 + p / 0x1000 && b[1] == 0x80 + p / 0x40 % 0x40 && b[2] == 0x80 + p % 0x40;
    } else {
      assert b[0] == 0xF0 + p / 0x4_0000 && b[1] == 0x80 + p / 0x1000 % 0x40;
      assert b[2] == 0x80 + p / 0x40 % 0x40 && b[3] == 0x80 + p % 0x40;
    }
  }

  /** Decoding undoes encoding, for every text. */
  lemma {:induction false} FromUtf8OfUtf8(s: string)
    ensures FromUtf8(Utf8(s)) == Text(s)
  {
    hide CharBytes, FirstChar;
    if s != "" {
      FirstOfChar(s[0], Utf8(s[1..]));
      var b := Utf8(s);
      assert b[|CharBytes(s[0])|..] == Utf8(s[1..]);
      FromUtf8OfUtf8(s[1..]);
      assert [s[0]] + s[1..] == s;
    }
  }
}
