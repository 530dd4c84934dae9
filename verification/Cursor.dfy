/**
 The opaque cursor (`encode_cursor`, `decode_cursor`): timestamp text and scope key joined by a bar, as UTF-8 in
 base64url without padding (section 5 of RFC 4648).
 */
module Cursor {
  import opened Strings

  type Sextet = b: int | 0 <= b < 64

  // ---------------------------------------------------------------- base64url

  /** Groups of three bytes become four sextets; one or two remaining bytes become two or three. */
  function Sextets(bytes: seq<Byte>): (s: seq<Sextet>)
    ensures |s| % 4 != 1
    ensures bytes != [] ==> s != []
  {
    if bytes == [] then []
    else if |bytes| == 1 then [bytes[0] / 4, (bytes[0] % 4) * 16]
    else if |bytes| == 2 then [bytes[0] / 4, (bytes[0] % 4) * 16 + bytes[1] / 16, (bytes[1] % 16) * 4]
    else [bytes[0] / 4, (bytes[0] % 4) * 16 + bytes[1] / 16, (bytes[1] % 16) * 4 + bytes[2] / 64, bytes[2] % 64]
         + Sextets(bytes[3..])
  }

  function Byte0(a: Sextet, b: Sextet): Byte { (a as int) * 4 + (b as int) / 16 }
  function Byte1(b: Sextet, c: Sextet): Byte { ((b as int) % 16) * 16 + (c as int) / 4 }
  function Byte2(c: Sextet, d: Sextet): Byte { ((c as int) % 4) * 64 + (d as int) }

  /** A length of one more than a multiple of four is the decoder's error case; it never reaches this function. */
  function Bytes(s: seq<Sextet>): seq<Byte>
    requires |s| % 4 != 1
  {
    if s == [] then []
    else if |s| == 2 then [Byte0(s[0], s[1])]
    else if |s| == 3 then [Byte0(s[0], s[1]), Byte1(s[1], s[2])]
    else
      assert |s[4..]| % 4 == |s| % 4;
      [Byte0(s[0], s[1]), Byte1(s[1], s[2]), Byte2(s[2], s[3])] + Bytes(s[4..])
  }

  lemma {:induction false} BytesOfSextets(bytes: seq<Byte>)
    ensures Bytes(Sextets(bytes)) == bytes
  {
    hide Byte0, Byte1, Byte2;
    if |bytes| == 1 {
      ThreeBytes(bytes[0], 0, 0);
    } else if |bytes| == 2 {
      ThreeBytes(bytes[0], bytes[1], 0);
    } else if |bytes| >= 3 {
      BytesOfSextets(bytes[3..]);
      var s := Sextets(bytes);
      assert s[4..] == Sextets(bytes[3..]);
      ThreeBytes(bytes[0], bytes[1], bytes[2]);
      assert bytes == [bytes[0], bytes[1], bytes[2]] + bytes[3..];
    }
  }

  lemma ThreeBytes(a: Byte, b: Byte, c: Byte)
    ensures Byte0(a / 4, (a % 4) * 16 + b / 16) == a
    ensures Byte1((a % 4) * 16 + b / 16, (b % 16) * 4 + c / 64) == b
    ensures Byte2((b % 16) * 4 + c / 64, c % 64) == c
    ensures Byte0(a / 4, (a % 4) * 16) == a && Byte1((a % 4) * 16 + b / 16, (b % 16) * 4) == b
  {
  }

  function CharOf(v: Sextet): char {
    if v < 26 then 'A' + v as char
    else if v < 52 then 'a' + (v - 26) as char
    else if v < 62 then '0' + (v - 52) as char
    else if v == 62 then '-' else '_'
  }

  predicate InAlphabet(c: char) {
    'A' <= c <= 'Z' || 'a' <= c <= 'z' || '0' <= c <= '9' || c == '-' || c == '_'
  }

  function SextetOf(c: char): Sextet
    requires InAlphabet(c)
  {
    if 'A' <= c <= 'Z' then c as int - 'A' as int
    else if 'a' <= c <= 'z' then c as int - 'a' as int + 26
    else if '0' <= c <= '9' then c as int - '0' as int + 52
    else if c == '-' then 62 else 63
  }

  lemma SextetOfChar(v: Sextet)
    ensures InAlphabet(CharOf(v)) && SextetOf(CharOf(v)) == v
  {
  }

  // ---------------------------------------------------------------- the cursor

  const BAR: char := '|'

  /** base64url without padding. */
  function Base64(bytes: seq<Byte>): string {
    var s := Sextets(bytes);
    seq(|s|, i requires 0 <= i < |s| => CharOf(s[i]))
  }

  function Encode(ts: string, key: string): string {
    Base64(Utf8(ts + [BAR] + Strip(key)))
  }

  datatype Decoded = NoCursor | Invalid | At(ts: string, key: string)

  /** raw.split("|", 1): the texts before and after the first bar; Invalid without a bar or with an empty key. */
  function SplitAtBar(raw: string): Decoded {
    if raw == "" then Invalid
    else if raw[0] == BAR then (if raw[1..] == "" then Invalid else At("", raw[1..]))
    else match SplitAtBar(raw[1..])
      case At(ts, key) => At([raw[0]] + ts, key)
      case _ => Invalid
  }

  function Decode(cursor: string): Decoded {
    if cursor == "" then NoCursor
    else if |cursor| % 4 == 1 || !(forall c :: c in cursor ==> InAlphabet(c)) then Invalid
    else match FromUtf8(Bytes(seq(|cursor|, i requires 0 <= i < |cursor| => SextetOf(cursor[i]))))
      case NotUtf8 => Invalid
      case Text(raw) => SplitAtBar(raw)
  }

  lemma {:induction false} SplitOfJoin(ts: string, key: string)
    requires BAR !in ts
    ensures SplitAtBar(ts + [BAR] + key) == if key == "" then Invalid else At(ts, key)
  {
    var raw := ts + [BAR] + key;
    if ts == "" {
      assert raw[1..] == key;
    } else {
      assert raw[1..] == ts[1..] + [BAR] + key;
      SplitOfJoin(ts[1..], key);
      assert [ts[0]] + ts[1..] == ts;
    }
  }

  /** Decoding a cursor gives back the timestamp and the stripped key; a key that strips to nothing is rejected. */
  lemma DecodeOfEncode(ts: string, key: string)
    requires BAR !in ts
    ensures Decode(Encode(ts, key)) == if Strip(key) == "" then Invalid else At(ts, Strip(key))
  {
    hide Bytes, Sextets, CharOf, SextetOf, Strip, SplitAtBar, InAlphabet, Utf8, FromUtf8;
    var raw := ts + [BAR] + Strip(key);
    var s := Sextets(Utf8(raw));
    var cursor := Encode(ts, key);
    FromUtf8OfUtf8(raw);
    Utf8Empty(raw);
    forall i | 0 <= i < |s| ensures InAlphabet(cursor[i]) && SextetOf(cursor[i]) == s[i] { SextetOfChar(s[i]); }
    forall c | c in cursor ensures InAlphabet(c) {
      var i :| 0 <= i < |cursor| && cursor[i] == c;
    }
    assert seq(|cursor|, i requires 0 <= i < |cursor| => SextetOf(cursor[i])) == s;
    BytesOfSextets(Utf8(raw));
    SplitOfJoin(ts, Strip(key));
  }

  lemma Utf8Empty(s: string)
    ensures s != "" ==> Utf8(s) != []
  {
  }

  /** The round trip is exact iff the key is not empty and has no surrounding whitespace. */
  lemma RoundTripIff(ts: string, key: string)
    requires BAR !in ts
    ensures Decode(Encode(ts, key)) == At(ts, key) <==> key != "" && !IsSpace(key[0]) && !IsSpace(key[|key| - 1])
  {
    hide Decode, Encode, Strip, IsSpace;
    DecodeOfEncode(ts, key);
    StripKeepsIff(key);
  }

  /** Test vectors of section 10 of RFC 4648, and the two letters that base64url changes. */
  lemma TestVectors()
    ensures Base64([102]) == "Zg" && Base64([102, 111]) == "Zm8" && Base64([102, 111, 111]) == "Zm9v"
    ensures Base64([102, 111, 111, 98, 97, 114]) == "Zm9vYmFy" && Base64([251, 255]) == "-_8"
  {
    var foobar: seq<Byte> := [102, 111, 111, 98, 97, 114];
    assert foobar[3..] == [98, 97, 114] && [98, 97, 114][3..] == [] && foobar[..3][3..] == [];
    assert Sextets([98, 97, 114]) == [24, 38, 5, 50];
    assert Sextets([102, 111, 111]) == [25, 38, 61, 47] by { assert [102, 111, 111][3..] == []; }
    assert Sextets(foobar) == [25, 38, 61, 47, 24, 38, 5, 50];
    assert Sextets([251, 255]) == [62, 63, 60];
  }
}
