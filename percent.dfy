/**
 * JavaScript's `encodeURIComponent` and `decodeURIComponent`: percent-encoding of a URI
 * component as in section 2.1 of RFC 3986, over the UTF-8 bytes of each escaped character.
 */
module PercentEncoding {
  import opened Wrappers

  /** The characters `encodeURIComponent` leaves as they are. */
  predicate IsUnescaped(c: char) {
    ('A' <= c <= 'Z') || ('a' <= c <= 'z') || ('0' <= c <= '9') ||
    c == '-' || c == '_' || c == '.' || c == '!' || c == '~' || c == '*' || c == '\'' || c == '(' || c == ')'
  }

  predicate IsAscii(c: char) {
    c as int < 0x80
  }

  /** Upper-case hexadecimal digit. */
  function HexDigit(v: nat): (c: char)
    requires v < 16
    ensures IsAscii(c)
  {
    if v < 10 then (v + '0' as int) as char else (v - 10 + 'A' as int) as char
  }

  /** The value of a hexadecimal digit of either case. */
  function HexValue(c: char): (r: Option<nat>)
    ensures r.Some? ==> r.value < 16
  {
    if '0' <= c <= '9' then Some(c as int - '0' as int)
    else if 'A' <= c <= 'F' then Some(c as int - 'A' as int + 10)
    else if 'a' <= c <= 'f' then Some(c as int - 'a' as int + 10)
    else None
  }

  lemma HexRoundTrip(v: nat)
    requires v < 16
    ensures HexValue(HexDigit(v)) == Some(v)
  {
  }

  /** The UTF-8 bytes of a Unicode scalar value. */
  function Utf8(c: char): (bs: seq<nat>)
    ensures 1 <= |bs| <= 4 && forall k | 0 <= k < |bs| :: bs[k] < 256
    ensures IsAscii(c) ==> bs == [c as int]
  {
    var n := c as int;
    if n < 0x80 then [n]
    else if n < 0x800 then [0xC0 + n / 0x40, 0x80 + n % 0x40]
    else if n < 0x10000 then [0xE0 + n / 0x1000, 0x80 + (n / 0x40) % 0x40, 0x80 + n % 0x40]
    else [0xF0 + n / 0x40000, 0x80 + (n / 0x1000) % 0x40, 0x80 + (n / 0x40) % 0x40, 0x80 + n % 0x40]
  }

  /** `%XY` for one byte, with upper-case hexadecimal digits. */
  function EscapeByte(b: nat): string
    requires b < 256
  {
    ['%', HexDigit(b / 16), HexDigit(b % 16)]
  }

  function EscapeBytes(bs: seq<nat>): (s: string)
    requires forall k | 0 <= k < |bs| :: bs[k] < 256
    ensures forall k | 0 <= k < |s| :: IsAscii(s[k])
  {
    if bs == [] then [] else EscapeByte(bs[0]) + EscapeBytes(bs[1..])
  }

  /** `encodeURIComponent` */
  function EncodeURIComponent(s: string): (r: string)
    ensures forall k | 0 <= k < |r| :: IsAscii(r[k])
    ensures (forall k | 0 <= k < |s| :: IsUnescaped(s[k])) ==> r == s
  {
    if s == [] then []
    else (if IsUnescaped(s[0]) then [s[0]] else EscapeBytes(Utf8(s[0]))) + EncodeURIComponent(s[1..])
  }

  function Prepend(c: char, r: Option<string>): Option<string> {
    match r
    case None => None
    case Some(t) => Some([c] + t)
  }

  /** The number of `%` characters in `s`. */
  function Percents(s: string): nat {
    if s == [] then 0 else (if s[0] == '%' then 1 else 0) + Percents(s[1..])
  }

  /**
   * `decodeURIComponent`: every `%XY` becomes the character it encodes; a `%` not followed by
   * two hexadecimal digits is a `URIError`, here `None`. Escapes of bytes from 0x80 up, which
   * begin multi-byte UTF-8 sequences, are not decoded by this model and also give `None`.
   */
  function DecodeURIComponent(s: string): (r: Option<string>)
    // Each escape `%XY` shrinks to one character; everything else is kept.
    ensures r.Some? ==> |s| - |r.value| == 2 * Percents(s)
    decreases |s|
  {
    if s == [] then Some([])
    else if s[0] != '%' then Prepend(s[0], DecodeURIComponent(s[1..]))
    else if |s| < 3 || HexValue(s[1]).None? || HexValue(s[2]).None? then None
    else
      var b := HexValue(s[1]).value * 16 + HexValue(s[2]).value;
      if b >= 0x80 then None
      else
        assert Percents(s) == 1 + Percents(s[3..]) by {
          assert s[1] != '%' && s[2] != '%';
          assert s[1..][0] == s[1] && s[1..][1..] == s[2..];
          assert s[2..][0] == s[2] && s[2..][1..] == s[3..];
          assert Percents(s[1..]) == Percents(s[2..]);
          assert Percents(s[2..]) == Percents(s[3..]);
        }
        Prepend(b as char, DecodeURIComponent(s[3..]))
  }

  /** Text without a `%` decodes to itself. */
  lemma {:induction false} DecodeWithoutPercent(s: string)
    requires forall k | 0 <= k < |s| :: s[k] != '%'
    ensures DecodeURIComponent(s) == Some(s)
    decreases |s|
  {
    if s != [] {
      DecodeWithoutPercent(s[1..]);
      assert [s[0]] + s[1..] == s;
    }
  }

  lemma DecodeEscapedAscii(c: char, rest: string)
    requires IsAscii(c)
    ensures DecodeURIComponent(EscapeByte(c as int) + rest) == Prepend(c, DecodeURIComponent(rest))
  {
    var n := c as int;
    var s := EscapeByte(n) + rest;
    HexRoundTrip(n / 16);
    HexRoundTrip(n % 16);
    assert s[0] == '%' && s[1] == HexDigit(n / 16) && s[2] == HexDigit(n % 16);
    assert s[3..] == rest;
  }

  /** How `encodeURIComponent` writes one ASCII character: itself, or its `%XY` escape. */
  function EncodeAscii(c: char): string
    requires IsAscii(c)
  {
    if IsUnescaped(c) then [c] else EscapeByte(c as int)
  }

  lemma EncodeAsciiHead(s: string)
    requires s != [] && IsAscii(s[0])
    ensures EncodeURIComponent(s) == EncodeAscii(s[0]) + EncodeURIComponent(s[1..])
  {
    if !IsUnescaped(s[0]) {
      assert EscapeBytes(Utf8(s[0])) == EscapeByte(s[0] as int) + [];
    }
  }

  lemma DecodeAsciiHead(c: char, rest: string)
    requires IsAscii(c)
    ensures DecodeURIComponent(EncodeAscii(c) + rest) == Prepend(c, DecodeURIComponent(rest))
  {
    if IsUnescaped(c) {
      assert ([c] + rest)[1..] == rest;
    } else {
      DecodeEscapedAscii(c, rest);
    }
  }

  /** Percent-decoding undoes percent-encoding on ASCII text. */
  lemma {:induction false} ComponentRoundTrip(s: string)
    requires forall k | 0 <= k < |s| :: IsAscii(s[k])
    ensures DecodeURIComponent(EncodeURIComponent(s)) == Some(s)
    decreases |s|
  {
    if s != [] {
      ComponentRoundTrip(s[1..]);
      EncodeAsciiHead(s);
      DecodeAsciiHead(s[0], EncodeURIComponent(s[1..]));
      assert [s[0]] + s[1..] == s;
    }
  }
}
