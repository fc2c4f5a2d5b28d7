/**
 * The base64 encoding of section 4 of RFC 4648 (the standard alphabet, with
 * '=' padding), which the asset reader applies to stored image bytes, and
 * `Decode`, its inverse on padded base64 text.
 */
module Base64 {
  import opened Wrappers

  /** An octet, as Go's `byte`. */
  newtype byte = x: int | 0 <= x < 256

  /** The character the alphabet of RFC 4648, section 4, assigns to a 6-bit value. */
  function Alphabet(v: nat): (c: char)
    requires v < 64
  {
    if v < 26 then ('A' as int + v) as char
    else if v < 52 then ('a' as int + (v - 26)) as char
    else if v < 62 then ('0' as int + (v - 52)) as char
    else if v == 62 then '+'
    else '/'
  }

  /** The 6-bit value of an alphabet character, or None for any other character. */
  function SextetOf(c: char): (r: Option<nat>)
    ensures r.Some? ==> r.value < 64 && Alphabet(r.value) == c
    ensures c == '=' ==> r.None?
  {
    if 'A' <= c <= 'Z' then Some(c as int - 'A' as int)
    else if 'a' <= c <= 'z' then Some(c as int - 'a' as int + 26)
    else if '0' <= c <= '9' then Some(c as int - '0' as int + 52)
    else if c == '+' then Some(62)
    else if c == '/' then Some(63)
    else None
  }

  /** Every 6-bit value is recovered from its character: the alphabet is one-to-one. */
  lemma SextetOfAlphabet(v: nat)
    requires v < 64
    ensures SextetOf(Alphabet(v)) == Some(v)
  {
  }

  // The four 6-bit groups of three bytes x, y, z (most significant bits first).

  function Hi6(x: int): (v: nat)
    requires 0 <= x < 256
    ensures v < 64
  {
    x / 4
  }

  function Mid6(x: int, y: int): (v: nat)
    requires 0 <= x < 256 && 0 <= y < 256
    ensures v < 64
  {
    x % 4 * 16 + y / 16
  }

  function Mid6b(y: int, z: int): (v: nat)
    requires 0 <= y < 256 && 0 <= z < 256
    ensures v < 64
  {
    y % 16 * 4 + z / 64
  }

  function Lo6(z: int): (v: nat)
    requires 0 <= z < 256
    ensures v < 64
  {
    z % 64
  }

  /** Four characters for three bytes: the 24 bits cut into four 6-bit groups. */
  function EncodeTriple(a: byte, b: byte, c: byte): string {
    var x, y, z := a as int, b as int, c as int;
    [Alphabet(Hi6(x)), Alphabet(Mid6(x, y)), Alphabet(Mid6b(y, z)), Alphabet(Lo6(z))]
  }

  /** The encoding of a byte string, padded with '=' to a multiple of four characters. */
  function Encode(s: seq<byte>): (r: string)
    ensures |r| == 4 * ((|s| + 2) / 3)
    decreases |s|
  {
    if |s| == 0 then ""
    else if |s| == 1 then
      var x := s[0] as int;
      [Alphabet(Hi6(x)), Alphabet(Mid6(x, 0)), '=', '=']
    else if |s| == 2 then
      var x, y := s[0] as int, s[1] as int;
      [Alphabet(Hi6(x)), Alphabet(Mid6(x, y)), Alphabet(Mid6b(y, 0)), '=']
    else
      assert (|s| + 2) / 3 == (|s[3..]| + 2) / 3 + 1;
      EncodeTriple(s[0], s[1], s[2]) + Encode(s[3..])
  }

  // Reassembling bytes from 6-bit groups.

  function Byte0(p: nat, q: nat): byte
    requires p < 64 && q < 64
  {
    (p * 4 + q / 16) as byte
  }

  function Byte1(q: nat, u: nat): byte
    requires q < 64 && u < 64
  {
    (q % 16 * 16 + u / 4) as byte
  }

  function Byte2(u: nat, v: nat): byte
    requires u < 64 && v < 64
  {
    (u % 4 * 64 + v) as byte
  }

  lemma Join0(x: int, y: int)
    requires 0 <= x < 256 && 0 <= y < 256
    ensures Byte0(Hi6(x), Mid6(x, y)) as int == x
  {
    var l, yh := x % 4, y / 16;
    assert 0 <= yh < 16;
    assert (l * 16 + yh) / 16 == l;
  }

  lemma Join1(x: int, y: int, z: int)
    requires 0 <= x < 256 && 0 <= y < 256 && 0 <= z < 256
    ensures Byte1(Mid6(x, y), Mid6b(y, z)) as int == y
  {
    var l, yh, yl, zh := x % 4, y / 16, y % 16, z / 64;
    assert 0 <= yh < 16 && 0 <= zh < 4 && 0 <= l < 4;
    assert (l * 16 + yh) % 16 == yh;
    assert (yl * 4 + zh) / 4 == yl;
  }

  lemma Join2(y: int, z: int)
    requires 0 <= y < 256 && 0 <= z < 256
    ensures Byte2(Mid6b(y, z), Lo6(z)) as int == z
  {
    var yl, zh := y % 16, z / 64;
    assert 0 <= zh < 4;
    assert (yl * 4 + zh) % 4 == zh;
  }

  /**
   * Decodes one group of four characters; padding is accepted only when the
   * group is the last one (`final`).
   */
  function DecodeQuad(g: string, final: bool): (r: Option<seq<byte>>)
    requires |g| == 4
    ensures r.Some? ==> 1 <= |r.value| <= 3
  {
    var p, q, u, v := SextetOf(g[0]), SextetOf(g[1]), SextetOf(g[2]), SextetOf(g[3]);
    if p.None? || q.None? then None
    else if u.Some? && v.Some? then
      Some([Byte0(p.value, q.value), Byte1(q.value, u.value), Byte2(u.value, v.value)])
    else if final && u.Some? && g[3] == '=' then
      Some([Byte0(p.value, q.value), Byte1(q.value, u.value)])
    else if final && g[2] == '=' && g[3] == '=' then
      Some([Byte0(p.value, q.value)])
    else None
  }

  /** The inverse of Encode: None for a string that is not a padded base64 encoding. */
  function Decode(r: string): (s: Option<seq<byte>>)
    decreases |r|
  {
    if |r| == 0 then Some([])
    else if |r| < 4 then None
    else
      match DecodeQuad(r[..4], |r| == 4)
      case None => None
      case Some(head) =>
        match Decode(r[4..])
        case None => None
        case Some(tail) => Some(head + tail)
  }

  lemma DecodeTriple(a: byte, b: byte, c: byte, final: bool)
    ensures DecodeQuad(EncodeTriple(a, b, c), final) == Some([a, b, c])
  {
    var x, y, z := a as int, b as int, c as int;
    SextetOfAlphabet(Hi6(x));
    SextetOfAlphabet(Mid6(x, y));
    SextetOfAlphabet(Mid6b(y, z));
    SextetOfAlphabet(Lo6(z));
    Join0(x, y);
    Join1(x, y, z);
    Join2(y, z);
  }

  /** Decode takes a string apart one group of four characters at a time. */
  lemma DecodeGroupThen(g: string, rest: string, head: seq<byte>, tail: seq<byte>)
    requires |g| == 4
    requires DecodeQuad(g, rest == "") == Some(head)
    requires Decode(rest) == Some(tail)
    ensures Decode(g + rest) == Some(head + tail)
  {
    var r := g + rest;
    assert r[..4] == g && r[4..] == rest;
  }

  lemma DecodeOne(a: byte)
    ensures Decode(Encode([a])) == Some([a])
  {
    var r, x := Encode([a]), a as int;
    SextetOfAlphabet(Hi6(x));
    SextetOfAlphabet(Mid6(x, 0));
    Join0(x, 0);
    assert DecodeQuad(r, true) == Some([a]);
    DecodeGroupThen(r, "", [a], []);
    assert r + "" == r && [a] + [] == [a];
  }

  lemma DecodeTwo(a: byte, b: byte)
    ensures Decode(Encode([a, b])) == Some([a, b])
  {
    var r, x, y := Encode([a, b]), a as int, b as int;
    SextetOfAlphabet(Hi6(x));
    SextetOfAlphabet(Mid6(x, y));
    SextetOfAlphabet(Mid6b(y, 0));
    Join0(x, y);
    Join1(x, y, 0);
    assert DecodeQuad(r, true) == Some([a, b]);
    DecodeGroupThen(r, "", [a, b], []);
    assert r + "" == r && [a, b] + [] == [a, b];
  }

  /** A string of three or more bytes decodes once what follows its first three does. */
  lemma DecodeEncodeLong(s: seq<byte>)
    requires |s| >= 3
    requires Decode(Encode(s[3..])) == Some(s[3..])
    ensures Decode(Encode(s)) == Some(s)
  {
    var rest := Encode(s[3..]);
    assert Encode(s) == EncodeTriple(s[0], s[1], s[2]) + rest;
    DecodeTriple(s[0], s[1], s[2], rest == "");
    DecodeGroupThen(EncodeTriple(s[0], s[1], s[2]), rest, [s[0], s[1], s[2]], s[3..]);
    SplitThree(s);
  }

  lemma SplitThree(s: seq<byte>)
    requires |s| >= 3
    ensures [s[0], s[1], s[2]] + s[3..] == s
  {
    assert s == s[..3] + s[3..];
  }

  /** Decoding undoes encoding, for every byte string. */
  lemma {:induction false} DecodeEncode(s: seq<byte>)
    ensures Decode(Encode(s)) == Some(s)
    decreases |s|
  {
    if |s| == 1 {
      assert s == [s[0]];
      DecodeOne(s[0]);
    } else if |s| == 2 {
      assert s == [s[0], s[1]];
      DecodeTwo(s[0], s[1]);
    } else if |s| >= 3 {
      DecodeEncode(s[3..]);
      DecodeEncodeLong(s);
    }
  }
}
