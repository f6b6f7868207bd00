/** UTF-8 (RFC 3629): the bytes of a text, read back, and how many they are. */
module Utf8 {
  import opened Outcomes

  newtype Byte = x: int | 0 <= x < 256

  /** The bytes of one scalar. */
  function EncodeChar(c: char): (bytes: seq<Byte>) {
    var n := c as int;
    if n < 0x80 then [n as Byte]
    else if n < 0x800 then [(0xC0 + n / 0x40) as Byte, (0x80 + n % 0x40) as Byte]
    else if n < 0x1_0000 then [(0xE0 + n / 0x1000) as Byte, (0x80 + n / 0x40 % 0x40) as Byte, (0x80 + n % 0x40) as Byte]
    else [(0xF0 + n / 0x4_0000) as Byte, (0x80 + n / 0x1000 % 0x40) as Byte, (0x80 + n / 0x40 % 0x40) as Byte,
          (0x80 + n % 0x40) as Byte]
  }

  function Encode(s: string): seq<Byte> {
    if s == [] then [] else EncodeChar(s[0]) + Encode(s[1..])
  }

  function Utf8Width(c: char): nat {
    if c < '\U{0080}' then 1 else if c < '\U{0800}' then 2 else if c < '\U{10000}' then 3 else 4
  }

  function Utf8Length(s: string): nat {
    if s == [] then 0 else Utf8Width(s[0]) + Utf8Length(s[1..])
  }

  predicate Continues(b: Byte) {
    0x80 <= b < 0xC0
  }

  predicate IsScalar(n: int) {
    0 <= n < 0xD800 || 0xE000 <= n < 0x11_0000
  }

  /** The scalar at the front of the bytes, and the rest. */
  function DecodeChar(bytes: seq<Byte>): Option<(char, seq<Byte>)> {
    if bytes == [] then None
    else
      var lead, length := bytes[0] as int, Length(bytes[0]);
      if length == 0 || |bytes| < length || exists i | 1 <= i < length :: !Continues(bytes[i]) then None
      else
        var n :=
          if length == 1 then lead
          else if length == 2 then (lead - 0xC0) * 0x40 + (bytes[1] as int - 0x80)
          else if length == 3 then (lead - 0xE0) * 0x1000 + (bytes[1] as int - 0x80) * 0x40 + (bytes[2] as int - 0x80)
          else (lead - 0xF0) * 0x4_0000 + (bytes[1] as int - 0x80) * 0x1000 + (bytes[2] as int - 0x80) * 0x40 +
               (bytes[3] as int - 0x80);
        if IsScalar(n) then Some((n as char, bytes[length..])) else None
  }

  /** How many bytes a sequence has, by its first; 0 when none begins so. */
  function Length(lead: Byte): nat {
    if lead < 0x80 then 1
    else if lead < 0xC0 then 0
    else if lead < 0xE0 then 2
    else if lead < 0xF0 then 3
    else if lead < 0xF8 then 4
    else 0
  }

  /** A scalar in digits of six bits. */
  lemma SixBits(n: nat)
    ensures n / 0x40 * 0x40 + n % 0x40 == n
    ensures n / 0x1000 * 0x1000 + n / 0x40 % 0x40 * 0x40 + n % 0x40 == n
    ensures n / 0x4_0000 * 0x4_0000 + n / 0x1000 % 0x40 * 0x1000 + n / 0x40 % 0x40 * 0x40 + n % 0x40 == n
  {
    assert n / 0x40 / 0x40 == n / 0x1000 && n / 0x1000 / 0x40 == n / 0x4_0000;
  }

  lemma OneByteReads(c: char, rest: seq<Byte>)
    requires c < '\U{0080}'
    ensures DecodeChar(EncodeChar(c) + rest) == Some((c, rest))
  {
    var s := EncodeChar(c) + rest;
    assert s[0] as int == c as int && s[1..] == rest;
  }

  lemma TwoBytesRead(c: char, rest: seq<Byte>)
    requires '\U{0080}' <= c < '\U{0800}'
    ensures DecodeChar(EncodeChar(c) + rest) == Some((c, rest))
  {
    var n, s := c as int, EncodeChar(c) + rest;
    SixBits(n);
    assert s[0] as int == 0xC0 + n / 0x40 && s[1] as int == 0x80 + n % 0x40 && s[2..] == rest;
  }

  lemma ThreeBytesRead(c: char, rest: seq<Byte>)
    requires '\U{0800}' <= c < '\U{10000}'
    ensures DecodeChar(EncodeChar(c) + rest) == Some((c, rest))
  {
    var n, s := c as int, EncodeChar(c) + rest;
    SixBits(n);
    assert s[0] as int == 0xE0 + n / 0x1000 && s[1] as int == 0x80 + n / 0x40 % 0x40;
    assert s[2] as int == 0x80 + n % 0x40 && s[3..] == rest;
  }

  lemma FourBytesRead(c: char, rest: seq<Byte>)
    requires c >= '\U{10000}'
    ensures DecodeChar(EncodeChar(c) + rest) == Some((c, rest))
  {
    var n, s := c as int, EncodeChar(c) + rest;
    SixBits(n);
    assert s[0] as int == 0xF0 + n / 0x4_0000 && s[1] as int == 0x80 + n / 0x1000 % 0x40;
    assert s[2] as int == 0x80 + n / 0x40 % 0x40 && s[3] as int == 0x80 + n % 0x40 && s[4..] == rest;
  }

  /** The bytes of a scalar read back to it. */
  lemma CharReads(c: char, rest: seq<Byte>)
    ensures DecodeChar(EncodeChar(c) + rest) == Some((c, rest))
  {
    if c < '\U{0080}' {
      OneByteReads(c, rest);
    } else if c < '\U{0800}' {
      TwoBytesRead(c, rest);
    } else if c < '\U{10000}' {
      ThreeBytesRead(c, rest);
    } else {
      FourBytesRead(c, rest);
    }
  }

  /** The width of a scalar is the number of its bytes, and likewise for texts. */
  lemma {:induction false} LengthIsBytes(s: string)
    ensures |Encode(s)| == Utf8Length(s)
  {
    if s != [] { LengthIsBytes(s[1..]); }
  }
}
