/**
 * The base64 encoding with the "URL and Filename safe" alphabet of section 5
 * of RFC 4648, padded with '=' (the encoder Go calls `base64.URLEncoding`),
 * and the decoder that inverts it.
 */
module Base64Url {
  import opened Wrappers

  type byte = x: int | 0 <= x < 256
  type Sextet = x: int | 0 <= x < 64

  /** Table 2 of RFC 4648: value 0..25 is 'A'..'Z', 26..51 is 'a'..'z',
      52..61 is '0'..'9', 62 is '-' and 63 is '_'. */
  function Char(v: Sextet): (c: char)
    ensures SextetOf(c) == Some(v)
  {
    if v < 26 then ('A' as int + v) as char
    else if v < 52 then ('a' as int + (v - 26)) as char
    else if v < 62 then ('0' as int + (v - 52)) as char
    else if v == 62 then '-'
    else '_'
  }

  const Pad: char := '='

  /** The characters of the alphabet, [A-Za-z0-9-_]. */
  predicate InAlphabet(c: char) {
    'A' <= c <= 'Z' || 'a' <= c <= 'z' || '0' <= c <= '9' || c == '-' || c == '_'
  }

  /** The value of one encoding character, or None for a character outside the alphabet. */
  function SextetOf(c: char): (r: Option<Sextet>)
    ensures r.Some? <==> InAlphabet(c)
  {
    if 'A' <= c <= 'Z' then Some(c as int - 'A' as int)
    else if 'a' <= c <= 'z' then Some(c as int - 'a' as int + 26)
    else if '0' <= c <= '9' then Some(c as int - '0' as int + 52)
    else if c == '-' then Some(62)
    else if c == '_' then Some(63)
    else None
  }

  /** One full group: three bytes become four characters. */
  function EncodeGroup(b0: byte, b1: byte, b2: byte): (r: string)
    ensures |r| == 4 && forall c | c in r :: InAlphabet(c)
  {
    [ Char(b0 / 4),
      Char((b0 % 4) * 16 + b1 / 16),
      Char((b1 % 16) * 4 + b2 / 64),
      Char(b2 % 64) ]
  }

  /** The padded encoding: every three input bytes give four characters; a
      final group of one or two bytes is completed with two or one '='. */
  function Encode(b: seq<byte>): (r: string)
    ensures |r| == 4 * ((|b| + 2) / 3)
    decreases |b|
  {
    if |b| == 0 then []
    else if |b| == 1 then
      [Char(b[0] / 4), Char((b[0] % 4) * 16), Pad, Pad]
    else if |b| == 2 then
      [Char(b[0] / 4), Char((b[0] % 4) * 16 + b[1] / 16), Char((b[1] % 16) * 4), Pad]
    else
      EncodeGroup(b[0], b[1], b[2]) + Encode(b[3..])
  }

  /** The three bytes whose bits four sextets carry, high bits first. */
  function Byte0(s0: Sextet, s1: Sextet): byte { s0 * 4 + s1 / 16 }
  function Byte1(s1: Sextet, s2: Sextet): byte { (s1 % 16) * 16 + s2 / 4 }
  function Byte2(s2: Sextet, s3: Sextet): byte { (s2 % 4) * 64 + s3 }

  /** Four characters back to bytes; `last` says whether padding may appear. */
  function DecodeQuad(q: string, last: bool): Option<seq<byte>>
    requires |q| == 4
  {
    var s0, s1, s2, s3 := SextetOf(q[0]), SextetOf(q[1]), SextetOf(q[2]), SextetOf(q[3]);
    if s0.None? || s1.None? then None
    else if q[2] == Pad && q[3] == Pad then
      if last then Some([Byte0(s0.value, s1.value)]) else None
    else if s2.None? then None
    else if q[3] == Pad then
      if last then Some([Byte0(s0.value, s1.value), Byte1(s1.value, s2.value)]) else None
    else if s3.None? then None
    else Some([Byte0(s0.value, s1.value), Byte1(s1.value, s2.value), Byte2(s2.value, s3.value)])
  }

  /** The decoder: a sequence of quads, padding allowed only in the last. */
  function Decode(s: string): Option<seq<byte>>
    decreases |s|
  {
    if |s| == 0 then Some([])
    else if |s| < 4 then None
    else
      var quad := DecodeQuad(s[..4], |s| == 4);
      var rest := Decode(s[4..]);
      if quad.Some? && rest.Some? then Some(quad.value + rest.value) else None
  }

  lemma GroupBytes(b0: byte, b1: byte, b2: byte)
    ensures Byte0(b0 / 4, (b0 % 4) * 16 + b1 / 16) == b0
    ensures Byte1((b0 % 4) * 16 + b1 / 16, (b1 % 16) * 4 + b2 / 64) == b1
    ensures Byte2((b1 % 16) * 4 + b2 / 64, b2 % 64) == b2
  {
    var s1 := (b0 % 4) * 16 + b1 / 16;
    var s2 := (b1 % 16) * 4 + b2 / 64;
    assert s1 / 16 == b0 % 4 && s1 % 16 == b1 / 16;
    assert s2 / 4 == b1 % 16 && s2 % 4 == b2 / 64;
  }

  lemma GroupRoundTrip(b0: byte, b1: byte, b2: byte, last: bool)
    ensures DecodeQuad(EncodeGroup(b0, b1, b2), last) == Some([b0, b1, b2])
  {
    var q := EncodeGroup(b0, b1, b2);
    var s0, s1 := b0 / 4, (b0 % 4) * 16 + b1 / 16;
    var s2, s3 := (b1 % 16) * 4 + b2 / 64, b2 % 64;
    assert SextetOf(q[0]) == Some(s0) && SextetOf(q[1]) == Some(s1);
    assert SextetOf(q[2]) == Some(s2) && SextetOf(q[3]) == Some(s3);
    GroupBytes(b0, b1, b2);
  }

  lemma OneByteRoundTrip(b0: byte)
    ensures Decode(Encode([b0])) == Some([b0])
  {
    var e := Encode([b0]);
    var s0, s1 := b0 / 4, (b0 % 4) * 16;
    assert Byte0(s0, s1) == b0;
    assert SextetOf(e[2]) == None && SextetOf(e[3]) == None;
    assert e[..4] == e && e[4..] == [];
    assert DecodeQuad(e[..4], true) == Some([b0]);
    assert Decode(e[4..]) == Some([]);
    assert [b0] + [] == [b0];
  }

  lemma TwoByteRoundTrip(b0: byte, b1: byte)
    ensures Decode(Encode([b0, b1])) == Some([b0, b1])
  {
    var e := Encode([b0, b1]);
    var s0, s1, s2 := b0 / 4, (b0 % 4) * 16 + b1 / 16, (b1 % 16) * 4;
    assert s1 / 16 == b0 % 4 && s1 % 16 == b1 / 16 && s2 / 4 == b1 % 16;
    assert Byte0(s0, s1) == b0 && Byte1(s1, s2) == b1;
    assert SextetOf(e[3]) == None;
    assert e[..4] == e && e[4..] == [];
    assert DecodeQuad(e[..4], true) == Some([b0, b1]);
    assert Decode(e[4..]) == Some([]);
    assert [b0, b1] + [] == [b0, b1];
  }

  /** Decoding reads the first quad, then the rest. */
  lemma DecodeQuadThen(q: string, t: string)
    requires |q| == 4
    ensures DecodeQuad(q, t == []).Some? && Decode(t).Some? ==>
      Decode(q + t) == Some(DecodeQuad(q, t == []).value + Decode(t).value)
  {
    assert (q + t)[..4] == q && (q + t)[4..] == t;
  }

  lemma SplitGroup(b: seq<byte>)
    requires |b| >= 3
    ensures b == [b[0], b[1], b[2]] + b[3..]
  {
  }

  lemma EncodeStep(b: seq<byte>)
    requires |b| >= 3
    ensures Encode(b) == EncodeGroup(b[0], b[1], b[2]) + Encode(b[3..])
  {
  }

  /** The step of the round trip: a full group in front of a part that
      already round-trips. */
  lemma {:induction false} GroupThenRest(b: seq<byte>)
    requires |b| >= 3
    ensures Decode(Encode(b)) == Some(b)
    decreases |b|, 0
  {
    var tail := b[3..];
    DecodeEncode(tail);
    SplitGroup(b);
    var group, rest := EncodeGroup(b[0], b[1], b[2]), Encode(tail);
    EncodeStep(b);
    GroupRoundTrip(b[0], b[1], b[2], rest == []);
    DecodeQuadThen(group, rest);
  }

  /** Decoding inverts encoding on every byte sequence. */
  lemma {:induction false} DecodeEncode(b: seq<byte>)
    ensures Decode(Encode(b)) == Some(b)
    decreases |b|, 1
  {
    if |b| == 0 {
    } else if |b| == 1 {
      assert b == [b[0]];
      OneByteRoundTrip(b[0]);
    } else if |b| == 2 {
      assert b == [b[0], b[1]];
      TwoByteRoundTrip(b[0], b[1]);
    } else {
      GroupThenRest(b);
    }
  }

  /** Encoding is injective: distinct inputs have distinct encodings. */
  lemma EncodeInjective(x: seq<byte>, y: seq<byte>)
    ensures Encode(x) == Encode(y) <==> x == y
  {
    if Encode(x) == Encode(y) {
      DecodeEncode(x);
      DecodeEncode(y);
    }
  }

  /** Whole groups encode group by group. */
  lemma {:induction false} EncodeAppend(x: seq<byte>, y: seq<byte>)
    requires |x| % 3 == 0
    ensures Encode(x + y) == Encode(x) + Encode(y)
    decreases |x|
  {
    if |x| > 0 {
      assert |x| >= 3 && |x[3..]| % 3 == 0 by {
        var n := |x|;
        assert n % 3 == 0 && n > 0;
        assert (n - 3) % 3 == n % 3;
      }
      var xy := x + y;
      assert xy[0] == x[0] && xy[1] == x[1] && xy[2] == x[2];
      assert xy[3..] == x[3..] + y;
      var group := EncodeGroup(x[0], x[1], x[2]);
      EncodeStep(xy);
      EncodeStep(x);
      EncodeAppend(x[3..], y);
      assert Encode(xy) == group + (Encode(x[3..]) + Encode(y));
    } else {
      assert x + y == y;
    }
  }

  /** Whole groups encode to alphabet characters only: no padding. */
  lemma {:induction false} EncodeWholeGroups(b: seq<byte>)
    requires |b| % 3 == 0
    ensures forall i | 0 <= i < |Encode(b)| :: InAlphabet(Encode(b)[i])
    decreases |b|
  {
    if |b| > 0 {
      EncodeWholeGroups(b[3..]);
      var g := EncodeGroup(b[0], b[1], b[2]);
      assert Encode(b) == g + Encode(b[3..]);
      forall i | 0 <= i < |Encode(b)| ensures InAlphabet(Encode(b)[i]) {
        if i < 4 {
          assert Encode(b)[i] == g[i] && g[i] in g;
        } else {
          assert Encode(b)[i] == Encode(b[3..])[i - 4];
        }
      }
    }
  }
}
