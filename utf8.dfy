/** UTF-8 as defined by section 4 of RFC 3629: which byte strings encode one
    character, which byte strings `std::str::from_utf8` accepts, and the
    encoding and decoding of a single character. */
module Utf8 {
  import opened Io

  /** Length of the encoding that a lead byte announces; 0 for a byte that
      cannot start a character (a continuation byte, 0xC0, 0xC1, 0xF5..0xFF). */
  function Width(lead: u8): nat {
    if lead < 0x80 then 1
    else if 0xC2 <= lead <= 0xDF then 2
    else if 0xE0 <= lead <= 0xEF then 3
    else if 0xF0 <= lead <= 0xF4 then 4
    else 0
  }

  /** A continuation byte 10xxxxxx. */
  predicate IsTail(b: u8) {
    0x80 <= b <= 0xBF
  }

  /** `bs` is the encoding of exactly one character: the UTF8-char rule of
      RFC 3629 section 4, which excludes overlong forms, surrogates and
      values above U+10FFFF. */
  predicate IsCharEncoding(bs: seq<u8>) {
    if |bs| == 1 then
      bs[0] < 0x80
    else if |bs| == 2 then
      0xC2 <= bs[0] <= 0xDF && IsTail(bs[1])
    else if |bs| == 3 then
      ((bs[0] == 0xE0 && 0xA0 <= bs[1] <= 0xBF) ||
       (0xE1 <= bs[0] <= 0xEC && IsTail(bs[1])) ||
       (bs[0] == 0xED && 0x80 <= bs[1] <= 0x9F) ||
       (0xEE <= bs[0] <= 0xEF && IsTail(bs[1]))) &&
      IsTail(bs[2])
    else if |bs| == 4 then
      ((bs[0] == 0xF0 && 0x90 <= bs[1] <= 0xBF) ||
       (0xF1 <= bs[0] <= 0xF3 && IsTail(bs[1])) ||
       (bs[0] == 0xF4 && 0x80 <= bs[1] <= 0x8F)) &&
      IsTail(bs[2]) && IsTail(bs[3])
    else
      false
  }

  /** What `std::str::from_utf8` accepts: a concatenation of character
      encodings (the UTF8-octets rule). */
  predicate IsValid(bs: seq<u8>)
    ensures IsValid(bs) && bs != [] ==> bs[0] < 0x80 || 0xC2 <= bs[0] <= 0xF4
    ensures IsValid(bs) && bs != [] ==> bs[|bs| - 1] < 0x80 || IsTail(bs[|bs| - 1])
    decreases |bs|
  {
    bs == [] ||
    (var w := Width(bs[0]);
     0 < w <= |bs| && IsCharEncoding(bs[..w]) && IsValid(bs[w..]))
  }

  /** The character a one-character encoding stands for. */
  function Decode(bs: seq<u8>): char
    requires IsCharEncoding(bs)
  {
    var cp :=
      if |bs| == 1 then
        bs[0] as int
      else if |bs| == 2 then
        (bs[0] as int - 0xC0) * 0x40 + (bs[1] as int - 0x80)
      else if |bs| == 3 then
        (bs[0] as int - 0xE0) * 0x1000 + (bs[1] as int - 0x80) * 0x40 + (bs[2] as int - 0x80)
      else
        (bs[0] as int - 0xF0) * 0x40000 + (bs[1] as int - 0x80) * 0x1000
        + (bs[2] as int - 0x80) * 0x40 + (bs[3] as int - 0x80);
    cp as char
  }

  /** The UTF-8 encoding of a character; decoding it gives the character back. */
  function Encode(c: char): (bs: seq<u8>)
    ensures IsCharEncoding(bs)
    ensures Decode(bs) == c
    ensures 1 <= |bs| <= 4
  {
    var cp := c as int;
    if cp < 0x80 then
      [cp as u8]
    else if cp < 0x800 then
      [(0xC0 + cp / 0x40) as u8, (0x80 + cp % 0x40) as u8]
    else if cp < 0x1_0000 then
      Split3(cp);
      [(0xE0 + cp / 0x1000) as u8, (0x80 + cp / 0x40 % 0x40) as u8, (0x80 + cp % 0x40) as u8]
    else
      Split4(cp);
      [(0xF0 + cp / 0x40000) as u8, (0x80 + cp / 0x1000 % 0x40) as u8,
       (0x80 + cp / 0x40 % 0x40) as u8, (0x80 + cp % 0x40) as u8]
  }

  /** Every one-character encoding is the encoding of the character it
      decodes to: Encode and Decode are inverse bijections. */
  lemma EncodeDecode(bs: seq<u8>)
    requires IsCharEncoding(bs)
    ensures Encode(Decode(bs)) == bs
  {
    if |bs| == 3 {
      EncodeDecode3(bs);
    } else if |bs| == 4 {
      EncodeDecode4(bs);
    }
  }

  lemma EncodeDecode3(bs: seq<u8>)
    requires IsCharEncoding(bs) && |bs| == 3
    ensures Encode(Decode(bs)) == bs
  {
    var a, m, l := bs[0] as int - 0xE0, bs[1] as int - 0x80, bs[2] as int - 0x80;
    var cp := Decode(bs) as int;
    assert cp == a * 0x1000 + m * 0x40 + l;
    Join3(a, m, l);
    assert 0x800 <= cp < 0x1_0000;
  }

  lemma EncodeDecode4(bs: seq<u8>)
    requires IsCharEncoding(bs) && |bs| == 4
    ensures Encode(Decode(bs)) == bs
  {
    var a, h, m, l := bs[0] as int - 0xF0, bs[1] as int - 0x80, bs[2] as int - 0x80, bs[3] as int - 0x80;
    var cp := Decode(bs) as int;
    assert cp == a * 0x40000 + h * 0x1000 + m * 0x40 + l;
    Join4(a, h, m, l);
    assert 0x1_0000 <= cp;
  }

  /** A code point of three-byte size splits into the 4 + 6 + 6 bits the
      encoding carries; the lead and second byte ranges of RFC 3629 follow. */
  lemma Split3(cp: int)
    requires 0x800 <= cp < 0x1_0000
    ensures cp == (cp / 0x1000) * 0x1000 + (cp / 0x40 % 0x40) * 0x40 + cp % 0x40
    ensures cp / 0x1000 < 0x10 && (cp / 0x1000 == 0 ==> cp / 0x40 % 0x40 >= 0x20)
    ensures cp / 0x1000 == 0xD ==> (cp < 0xD800 <==> cp / 0x40 % 0x40 < 0x20)
  {
    var q := cp / 0x40;
    assert cp == q * 0x40 + cp % 0x40;
    assert q == (q / 0x40) * 0x40 + q % 0x40;
    assert q / 0x40 == cp / 0x1000;
  }

  /** A code point of four-byte size splits into the 3 + 6 + 6 + 6 bits the
      encoding carries. */
  lemma Split4(cp: int)
    requires 0x1_0000 <= cp < 0x11_0000
    ensures cp == (cp / 0x40000) * 0x40000 + (cp / 0x1000 % 0x40) * 0x1000
                  + (cp / 0x40 % 0x40) * 0x40 + cp % 0x40
    ensures cp / 0x40000 <= 4
    ensures cp / 0x40000 == 0 ==> cp / 0x1000 % 0x40 >= 0x10
    ensures cp / 0x40000 == 4 ==> cp / 0x1000 % 0x40 < 0x10
  {
    var q := cp / 0x40;
    assert cp == q * 0x40 + cp % 0x40;
    var q2 := q / 0x40;
    assert q == q2 * 0x40 + q % 0x40;
    assert q2 == cp / 0x1000;
    assert q2 == (q2 / 0x40) * 0x40 + q2 % 0x40;
    assert q2 / 0x40 == cp / 0x40000;
  }

  /** Joining 4 + 6 + 6 bits and splitting them again gives the parts back. */
  lemma Join3(a: int, m: int, l: int)
    requires 0 <= a && 0 <= m < 0x40 && 0 <= l < 0x40
    ensures var cp := a * 0x1000 + m * 0x40 + l;
      cp / 0x1000 == a && cp / 0x40 % 0x40 == m && cp % 0x40 == l
  {
    var cp := a * 0x1000 + m * 0x40 + l;
    assert cp / 0x40 == a * 0x40 + m;
  }

  /** Joining 3 + 6 + 6 + 6 bits and splitting them again gives the parts back. */
  lemma Join4(a: int, h: int, m: int, l: int)
    requires 0 <= a && 0 <= h < 0x40 && 0 <= m < 0x40 && 0 <= l < 0x40
    ensures var cp := a * 0x40000 + h * 0x1000 + m * 0x40 + l;
      cp / 0x40000 == a && cp / 0x1000 % 0x40 == h && cp / 0x40 % 0x40 == m && cp % 0x40 == l
  {
    var cp := a * 0x40000 + h * 0x1000 + m * 0x40 + l;
    assert cp / 0x40 == a * 0x1000 + h * 0x40 + m;
    assert cp / 0x1000 == a * 0x40 + h;
  }

  /** The first character of a string `from_utf8` accepts. */
  function FirstChar(bs: seq<u8>): (c: char)
    requires IsValid(bs) && bs != []
    ensures Encode(c) == bs[..Width(bs[0])]
  {
    EncodeDecode(bs[..Width(bs[0])]);
    Decode(bs[..Width(bs[0])])
  }

  /** A one-character encoding is as long as its lead byte announces. */
  lemma CharEncodingWidth(bs: seq<u8>)
    requires IsCharEncoding(bs)
    ensures Width(bs[0]) == |bs|
  {
  }

  /** A one-character encoding is accepted by `from_utf8` and its first
      character is the one it encodes. */
  lemma CharEncodingIsValid(bs: seq<u8>)
    requires IsCharEncoding(bs)
    ensures IsValid(bs) && FirstChar(bs) == Decode(bs)
  {
    CharEncodingWidth(bs);
    assert bs[..|bs|] == bs;
    assert bs[|bs|..] == [];
  }

  /** No proper prefix of a one-character encoding is accepted. */
  lemma ProperPrefixInvalid(bs: seq<u8>, j: nat)
    requires IsCharEncoding(bs) && 1 <= j < |bs|
    ensures !IsValid(bs[..j])
  {
    CharEncodingWidth(bs);
  }

  /** The shortest non-empty accepted string is a single character: if no
      shorter non-empty prefix is accepted, an accepted string is one
      character's encoding. */
  lemma ShortestValidIsChar(bs: seq<u8>)
    requires bs != [] && IsValid(bs)
    requires forall j :: 1 <= j < |bs| ==> !IsValid(bs[..j])
    ensures IsCharEncoding(bs) && FirstChar(bs) == Decode(bs)
  {
    var w := Width(bs[0]);
    CharEncodingIsValid(bs[..w]);
    assert bs[..w] == bs;
  }
}
