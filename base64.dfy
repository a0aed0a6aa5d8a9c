/**
 * Base64 with the standard alphabet and `=` padding, as in section 4 of RFC 4648: what
 * Node's `Buffer#toString('base64')` produces, and a decoder for its well-formed output.
 */
module Base64 {
  import opened Wrappers

  type Byte = bv8

  /** The character of a 6-bit value: `A`-`Z`, `a`-`z`, `0`-`9`, `+`, `/`. */
  function EncodeSextet(v: bv6): (c: char)
    ensures IsAlphabetChar(c)
  {
    var i := v as int;
    if i < 26 then (i + 'A' as int) as char
    else if i < 52 then (i - 26 + 'a' as int) as char
    else if i < 62 then (i - 52 + '0' as int) as char
    else if i == 62 then '+'
    else '/'
  }

  predicate IsAlphabetChar(c: char) {
    ('A' <= c <= 'Z') || ('a' <= c <= 'z') || ('0' <= c <= '9') || c == '+' || c == '/'
  }

  /** The 6-bit value of an alphabet character. */
  function DecodeSextet(c: char): (r: Option<bv6>)
    ensures r.Some? <==> IsAlphabetChar(c)
  {
    if 'A' <= c <= 'Z' then Some((c as int - 'A' as int) as bv6)
    else if 'a' <= c <= 'z' then Some((c as int - 'a' as int + 26) as bv6)
    else if '0' <= c <= '9' then Some((c as int - '0' as int + 52) as bv6)
    else if c == '+' then Some(62)
    else if c == '/' then Some(63)
    else None
  }

  /** Every 6-bit value is read back from its character. */
  lemma SextetRoundTrip(v: bv6)
    ensures DecodeSextet(EncodeSextet(v)) == Some(v)
  {
    if v < 26 {
      UpperSextet(v);
    } else if v < 52 {
      LowerSextet(v);
    } else if v < 62 {
      DigitSextet(v);
    }
  }

  lemma UpperSextet(v: bv6)
    requires v < 26
    ensures DecodeSextet(EncodeSextet(v)) == Some(v)
  {
    assert EncodeSextet(v) as int - 'A' as int == v as int;
  }

  lemma LowerSextet(v: bv6)
    requires 26 <= v < 52
    ensures DecodeSextet(EncodeSextet(v)) == Some(v)
  {
    assert EncodeSextet(v) as int - 'a' as int + 26 == v as int;
  }

  lemma DigitSextet(v: bv6)
    requires 52 <= v < 62
    ensures DecodeSextet(EncodeSextet(v)) == Some(v)
  {
    assert EncodeSextet(v) as int - '0' as int + 52 == v as int;
  }

  // ---------------------------------------------------------------- one group of 24 bits

  function Pack(b0: Byte, b1: Byte, b2: Byte): bv24 {
    (b0 as bv24 << 16) | (b1 as bv24 << 8) | (b2 as bv24)
  }

  function Sextet(n: bv24, shift: bv24): bv6
    requires shift <= 18
  {
    ((n >> shift) & 0x3F) as bv6
  }

  function Unpack(s0: bv6, s1: bv6, s2: bv6, s3: bv6): bv24 {
    (s0 as bv24 << 18) | (s1 as bv24 << 12) | (s2 as bv24 << 6) | (s3 as bv24)
  }

  function ByteAt(n: bv24, shift: bv24): Byte
    requires shift <= 16
  {
    ((n >> shift) & 0xFF) as Byte
  }

  /** Splitting 24 bits into four sextets and joining them again changes nothing. */
  lemma RepackGroup(n: bv24)
    ensures Unpack(Sextet(n, 18), Sextet(n, 12), Sextet(n, 6), Sextet(n, 0)) == n
  {
  }

  lemma UnpackBytes(b0: Byte, b1: Byte, b2: Byte)
    ensures var n := Pack(b0, b1, b2); ByteAt(n, 16) == b0 && ByteAt(n, 8) == b1 && ByteAt(n, 0) == b2
  {
  }

  /** Four characters for three bytes. */
  function EncodeGroup(b0: Byte, b1: Byte, b2: Byte): string {
    var n := Pack(b0, b1, b2);
    [EncodeSextet(Sextet(n, 18)), EncodeSextet(Sextet(n, 12)), EncodeSextet(Sextet(n, 6)), EncodeSextet(Sextet(n, 0))]
  }

  // ---------------------------------------------------------------- encoder

  function Base64Encode(b: seq<Byte>): (s: string)
    ensures |s| == 4 * ((|b| + 2) / 3)
    ensures forall k | 0 <= k < |s| :: IsAlphabetChar(s[k]) || s[k] == '='
    decreases |b|
  {
    if |b| == 0 then ""
    else if |b| == 1 then
      var n := Pack(b[0], 0, 0);
      [EncodeSextet(Sextet(n, 18)), EncodeSextet(Sextet(n, 12)), '=', '=']
    else if |b| == 2 then
      var n := Pack(b[0], b[1], 0);
      [EncodeSextet(Sextet(n, 18)), EncodeSextet(Sextet(n, 12)), EncodeSextet(Sextet(n, 6)), '=']
    else
      EncodeGroup(b[0], b[1], b[2]) + Base64Encode(b[3..])
  }

  // ---------------------------------------------------------------- decoder

  /** The bytes of one group of four characters; padding is accepted only in the last group. */
  function DecodeGroup(q: string, last: bool): (r: Option<seq<Byte>>)
    requires |q| == 4
    ensures r.Some? ==> 1 <= |r.value| <= 3 && (!last ==> |r.value| == 3)
  {
    var d0, d1, d2, d3 := DecodeSextet(q[0]), DecodeSextet(q[1]), DecodeSextet(q[2]), DecodeSextet(q[3]);
    if d0.None? || d1.None? then None
    else if last && q[2] == '=' && q[3] == '=' then
      Some([ByteAt(Unpack(d0.value, d1.value, 0, 0), 16)])
    else if d2.None? then None
    else if last && q[3] == '=' then
      var n := Unpack(d0.value, d1.value, d2.value, 0);
      Some([ByteAt(n, 16), ByteAt(n, 8)])
    else if d3.None? then None
    else
      var n := Unpack(d0.value, d1.value, d2.value, d3.value);
      Some([ByteAt(n, 16), ByteAt(n, 8), ByteAt(n, 0)])
  }

  /**
   * Decoding of a well-formed Base64 text; `None` for anything else. Only a text of whole
   * groups decodes, to three bytes per group less at most two for the padding.
   */
  function Base64Decode(s: string): (r: Option<seq<Byte>>)
    ensures r.Some? ==> |s| % 4 == 0 && |s| / 4 * 3 - 2 <= |r.value| <= |s| / 4 * 3
    decreases |s|
  {
    if |s| == 0 then Some([])
    else if |s| < 4 then None
    else match DecodeGroup(s[..4], |s| == 4)
      case None => None
      case Some(head) =>
        if |s| == 4 then Some(head)
        else match Base64Decode(s[4..])
          case None => None
          case Some(tail) => Some(head + tail)
  }

  lemma GroupRoundTrip(b0: Byte, b1: Byte, b2: Byte, last: bool)
    ensures DecodeGroup(EncodeGroup(b0, b1, b2), last) == Some([b0, b1, b2])
  {
    var n := Pack(b0, b1, b2);
    var q := EncodeGroup(b0, b1, b2);
    SextetRoundTrip(Sextet(n, 18));
    SextetRoundTrip(Sextet(n, 12));
    SextetRoundTrip(Sextet(n, 6));
    SextetRoundTrip(Sextet(n, 0));
    RepackGroup(n);
    UnpackBytes(b0, b1, b2);
  }

  lemma PaddedOneBits(b0: Byte)
    ensures var n := Pack(b0, 0, 0); ByteAt(Unpack(Sextet(n, 18), Sextet(n, 12), 0, 0), 16) == b0
  {
  }

  lemma PaddedTwoBits(b0: Byte, b1: Byte)
    ensures var n := Pack(b0, b1, 0);
            var m := Unpack(Sextet(n, 18), Sextet(n, 12), Sextet(n, 6), 0);
            ByteAt(m, 16) == b0 && ByteAt(m, 8) == b1
  {
  }

  lemma OneByteRoundTrip(b0: Byte)
    ensures Base64Decode(Base64Encode([b0])) == Some([b0])
  {
    var n := Pack(b0, 0, 0);
    var q := Base64Encode([b0]);
    assert q == [EncodeSextet(Sextet(n, 18)), EncodeSextet(Sextet(n, 12)), '=', '='];
    SextetRoundTrip(Sextet(n, 18));
    SextetRoundTrip(Sextet(n, 12));
    PaddedOneBits(b0);
    assert DecodeGroup(q, true) == Some([b0]);
    assert q[..4] == q;
  }

  lemma TwoByteRoundTrip(b0: Byte, b1: Byte)
    ensures Base64Decode(Base64Encode([b0, b1])) == Some([b0, b1])
  {
    var n := Pack(b0, b1, 0);
    var q := Base64Encode([b0, b1]);
    assert q == [EncodeSextet(Sextet(n, 18)), EncodeSextet(Sextet(n, 12)), EncodeSextet(Sextet(n, 6)), '='];
    SextetRoundTrip(Sextet(n, 18));
    SextetRoundTrip(Sextet(n, 12));
    SextetRoundTrip(Sextet(n, 6));
    PaddedTwoBits(b0, b1);
    assert EncodeSextet(Sextet(n, 6)) != '=';
    assert DecodeGroup(q, true) == Some([b0, b1]);
    assert q[..4] == q;
  }

  /** Decoding a group followed by more text: the group's bytes, then the rest's. */
  lemma DecodeAfterGroup(b0: Byte, b1: Byte, b2: Byte, rest: string, tail: seq<Byte>)
    requires Base64Decode(rest) == Some(tail)
    requires rest == [] <==> tail == []
    ensures Base64Decode(EncodeGroup(b0, b1, b2) + rest) == Some([b0, b1, b2] + tail)
  {
    var s := EncodeGroup(b0, b1, b2) + rest;
    assert s[..4] == EncodeGroup(b0, b1, b2);
    GroupRoundTrip(b0, b1, b2, |s| == 4);
    if |s| == 4 {
      assert [b0, b1, b2] + tail == [b0, b1, b2];
      assert s[..4] == s;
    } else {
      assert s[4..] == rest;
    }
  }

  /** Three or more bytes: one full group, then the encoding of the rest. */
  lemma EncodeStep(b: seq<Byte>)
    requires |b| >= 3
    ensures Base64Encode(b) == EncodeGroup(b[0], b[1], b[2]) + Base64Encode(b[3..])
    ensures Base64Encode(b[3..]) == [] <==> b[3..] == []
  {
  }

  /** The round trip for a text of fewer than three bytes (the padded or empty cases). */
  lemma ShortRoundTrip(b: seq<Byte>)
    requires |b| < 3
    ensures Base64Decode(Base64Encode(b)) == Some(b)
  {
    if |b| == 1 {
      assert b == [b[0]];
      OneByteRoundTrip(b[0]);
    } else if |b| == 2 {
      assert b == [b[0], b[1]];
      TwoByteRoundTrip(b[0], b[1]);
    }
  }

  /** The round trip for three or more bytes, given the round trip for all but the first three. */
  lemma LongRoundTrip(b: seq<Byte>)
    requires |b| >= 3
    requires Base64Decode(Base64Encode(b[3..])) == Some(b[3..])
    ensures Base64Decode(Base64Encode(b)) == Some(b)
  {
    var rest := b[3..];
    EncodeStep(b);
    DecodeAfterGroup(b[0], b[1], b[2], Base64Encode(rest), rest);
    SplitGroup(b);
  }

  lemma SplitGroup(b: seq<Byte>)
    requires |b| >= 3
    ensures b == [b[0], b[1], b[2]] + b[3..]
  {
  }

  /** Decoding recovers every byte string that was encoded. */
  lemma {:induction false} Base64RoundTrip(b: seq<Byte>)
    ensures Base64Decode(Base64Encode(b)) == Some(b)
    decreases |b|
  {
    if |b| < 3 {
      ShortRoundTrip(b);
    } else {
      Base64RoundTrip(b[3..]);
      LongRoundTrip(b);
    }
  }

  /** Base64 text never holds a `%`, so percent-decoding leaves it alone. */
  lemma NoPercentInBase64(b: seq<Byte>)
    ensures forall k | 0 <= k < |Base64Encode(b)| :: Base64Encode(b)[k] != '%'
  {
  }
}
