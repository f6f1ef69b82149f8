/** The base64 encoding of section 4 of RFC 4648 (alphabet A-Z a-z 0-9 + /, `=` padding),
    on canonical text: the decoder accepts exactly the strings the encoder produces. */
module Base64 {
  import opened Entities

  type byte = x: int | 0 <= x < 256
  type sextet = x: int | 0 <= x < 64

  predicate IsBase64Char(c: char) {
    'A' <= c <= 'Z' || 'a' <= c <= 'z' || '0' <= c <= '9' || c == '+' || c == '/'
  }

  /** The character of the alphabet with index `v` (Table 1 of the RFC). */
  function CharOf(v: sextet): (c: char)
    ensures IsBase64Char(c)
  {
    if v < 26 then ('A' as int + v) as char
    else if v < 52 then ('a' as int + (v - 26)) as char
    else if v < 62 then ('0' as int + (v - 52)) as char
    else if v == 62 then '+'
    else '/'
  }

  /** The index of an alphabet character. */
  function ValueOf(c: char): sextet
    requires IsBase64Char(c)
  {
    if 'A' <= c <= 'Z' then c as int - 'A' as int
    else if 'a' <= c <= 'z' then c as int - 'a' as int + 26
    else if '0' <= c <= '9' then c as int - '0' as int + 52
    else if c == '+' then 62
    else 63
  }

  lemma ValueOfCharOf(v: sextet)
    ensures ValueOf(CharOf(v)) == v
  {
  }

  lemma CharOfValueOf(c: char)
    requires IsBase64Char(c)
    ensures CharOf(ValueOf(c)) == c
  {
  }

  /** Three bytes as four characters. */
  function EncodeGroup(b0: byte, b1: byte, b2: byte): string {
    [CharOf(b0 / 4), CharOf((b0 % 4) * 16 + b1 / 16), CharOf((b1 % 16) * 4 + b2 / 64), CharOf(b2 % 64)]
  }

  /** The encoding of a byte sequence; a final group of one or two bytes is padded with `=`. */
  function Encode(b: seq<byte>): (s: string)
    ensures |s| % 4 == 0
    ensures |s| == 0 <==> |b| == 0
    decreases |b|
  {
    if |b| == 0 then ""
    else if |b| == 1 then [CharOf(b[0] / 4), CharOf((b[0] % 4) * 16), '=', '=']
    else if |b| == 2 then [CharOf(b[0] / 4), CharOf((b[0] % 4) * 16 + b[1] / 16), CharOf((b[1] % 16) * 4), '=']
    else EncodeGroup(b[0], b[1], b[2]) + Encode(b[3..])
  }

  predicate AllBase64(q: string) {
    forall k :: 0 <= k < |q| ==> IsBase64Char(q[k])
  }

  /** Four alphabet characters as three bytes. */
  function DecodeGroup(q: string): seq<byte>
    requires |q| == 4 && AllBase64(q)
  {
    var v0, v1, v2, v3 := ValueOf(q[0]), ValueOf(q[1]), ValueOf(q[2]), ValueOf(q[3]);
    [v0 * 4 + v1 / 16, (v1 % 16) * 16 + v2 / 4, (v2 % 4) * 64 + v3]
  }

  /** The last quartet: full, or padded with `=` once or twice. Bits that padding leaves
      over must be zero, which makes the accepted text canonical. */
  function DecodeFinal(q: string): Option<seq<byte>>
    requires |q| == 4
  {
    if AllBase64(q) then Some(DecodeGroup(q))
    else if IsBase64Char(q[0]) && IsBase64Char(q[1]) && q[2] == '=' && q[3] == '='
      && ValueOf(q[1]) % 16 == 0
    then Some([ValueOf(q[0]) * 4 + ValueOf(q[1]) / 16])
    else if IsBase64Char(q[0]) && IsBase64Char(q[1]) && IsBase64Char(q[2]) && q[3] == '='
      && ValueOf(q[2]) % 4 == 0
    then Some([ValueOf(q[0]) * 4 + ValueOf(q[1]) / 16, (ValueOf(q[1]) % 16) * 16 + ValueOf(q[2]) / 4])
    else None
  }

  /** Decoding of canonical base64 text; `None` for anything else. */
  function Decode(s: string): (r: Option<seq<byte>>)
    decreases |s|
  {
    if |s| == 0 then Some([])
    else if |s| < 4 then None
    else if |s| == 4 then DecodeFinal(s)
    else if !AllBase64(s[..4]) then None
    else match Decode(s[4..])
      case None => None
      case Some(rest) => Some(DecodeGroup(s[..4]) + rest)
  }

  /** Splitting three bytes into four sextets and joining them again is the identity. */
  lemma SextetsOfBytes(b0: byte, b1: byte, b2: byte)
    ensures var c1, c2 := (b0 % 4) * 16 + b1 / 16, (b1 % 16) * 4 + b2 / 64;
      && (b0 / 4) * 4 + c1 / 16 == b0
      && (c1 % 16) * 16 + c2 / 4 == b1
      && (c2 % 4) * 64 + b2 % 64 == b2
  {
    var c1, c2 := (b0 % 4) * 16 + b1 / 16, (b1 % 16) * 4 + b2 / 64;
    assert c1 / 16 == b0 % 4 && c1 % 16 == b1 / 16;
    assert c2 / 4 == b1 % 16 && c2 % 4 == b2 / 64;
  }

  /** Joining four sextets into three bytes and splitting them again is the identity. */
  lemma BytesOfSextets(v0: sextet, v1: sextet, v2: sextet, v3: sextet)
    ensures var x0, x1, x2 := v0 * 4 + v1 / 16, (v1 % 16) * 16 + v2 / 4, (v2 % 4) * 64 + v3;
      && x0 / 4 == v0
      && (x0 % 4) * 16 + x1 / 16 == v1
      && (x1 % 16) * 4 + x2 / 64 == v2
      && x2 % 64 == v3
  {
    var x0, x1, x2 := v0 * 4 + v1 / 16, (v1 % 16) * 16 + v2 / 4, (v2 % 4) * 64 + v3;
    assert x0 / 4 == v0 && x0 % 4 == v1 / 16;
    assert x1 / 16 == v1 % 16 && x1 % 16 == v2 / 4;
    assert x2 / 64 == v2 % 4 && x2 % 64 == v3;
  }

  lemma GroupRoundTrip(b0: byte, b1: byte, b2: byte)
    ensures AllBase64(EncodeGroup(b0, b1, b2))
    ensures DecodeGroup(EncodeGroup(b0, b1, b2)) == [b0, b1, b2]
  {
    var c0, c1, c2, c3 := b0 / 4, (b0 % 4) * 16 + b1 / 16, (b1 % 16) * 4 + b2 / 64, b2 % 64;
    var q := EncodeGroup(b0, b1, b2);
    assert q == [CharOf(c0), CharOf(c1), CharOf(c2), CharOf(c3)];
    ValueOfCharOf(c0);
    ValueOfCharOf(c1);
    ValueOfCharOf(c2);
    ValueOfCharOf(c3);
    SextetsOfBytes(b0, b1, b2);
  }

  lemma OneByteRoundTrip(b0: byte)
    ensures Decode(Encode([b0])) == Some([b0])
  {
    var c0, c1 := b0 / 4, (b0 % 4) * 16;
    var q := Encode([b0]);
    assert q == [CharOf(c0), CharOf(c1), '=', '='];
    ValueOfCharOf(c0);
    ValueOfCharOf(c1);
    assert !AllBase64(q) by { assert !IsBase64Char(q[3]); }
    assert c0 * 4 + c1 / 16 == b0;
  }

  lemma TwoBytesRoundTrip(b0: byte, b1: byte)
    ensures Decode(Encode([b0, b1])) == Some([b0, b1])
  {
    var c0, c1, c2 := b0 / 4, (b0 % 4) * 16 + b1 / 16, (b1 % 16) * 4;
    var q := Encode([b0, b1]);
    assert q == [CharOf(c0), CharOf(c1), CharOf(c2), '='];
    ValueOfCharOf(c0);
    ValueOfCharOf(c1);
    ValueOfCharOf(c2);
    assert !AllBase64(q) by { assert !IsBase64Char(q[3]); }
    assert c1 / 16 == b0 % 4 && c1 % 16 == b1 / 16;
    assert c0 * 4 + c1 / 16 == b0;
    assert (c1 % 16) * 16 + c2 / 4 == b1;
  }

  lemma OneByteCanonical(q: string)
    requires |q| == 4 && !AllBase64(q) && DecodeFinal(q).Some? && q[2] == '='
    ensures Encode(DecodeFinal(q).value) == q
  {
    var v0: int, v1: int := ValueOf(q[0]), ValueOf(q[1]);
    var x: int := v0 * 4 + v1 / 16;
    assert DecodeFinal(q).value == [x];
    assert x / 4 == v0 && (x % 4) * 16 == v1;
    CharOfValueOf(q[0]);
    CharOfValueOf(q[1]);
  }

  lemma TwoBytesCanonical(q: string)
    requires |q| == 4 && !AllBase64(q) && DecodeFinal(q).Some? && q[2] != '='
    ensures Encode(DecodeFinal(q).value) == q
  {
    var v0: int, v1: int, v2: int := ValueOf(q[0]), ValueOf(q[1]), ValueOf(q[2]);
    var x0: int, x1: int := v0 * 4 + v1 / 16, (v1 % 16) * 16 + v2 / 4;
    assert DecodeFinal(q).value == [x0, x1];
    assert x0 / 4 == v0 && x0 % 4 == v1 / 16;
    assert x1 / 16 == v1 % 16 && x1 % 16 == v2 / 4;
    assert (x0 % 4) * 16 + x1 / 16 == v1;
    assert (x1 % 16) * 4 == v2;
    CharOfValueOf(q[0]);
    CharOfValueOf(q[1]);
    CharOfValueOf(q[2]);
  }

  /** Every byte sequence survives encoding followed by decoding. */
  lemma {:induction false} DecodeEncode(b: seq<byte>)
    ensures Decode(Encode(b)) == Some(b)
    decreases |b|
  {
    if |b| == 1 {
      OneByteRoundTrip(b[0]);
      assert b == [b[0]];
    } else if |b| == 2 {
      TwoBytesRoundTrip(b[0], b[1]);
      assert b == [b[0], b[1]];
    } else if |b| >= 3 {
      var g := EncodeGroup(b[0], b[1], b[2]);
      var s := Encode(b);
      GroupRoundTrip(b[0], b[1], b[2]);
      if |b| == 3 {
        assert s == g;
        assert b == [b[0], b[1], b[2]];
      } else {
        DecodeEncode(b[3..]);
        assert s[..4] == g;
        assert s[4..] == Encode(b[3..]);
        assert b == [b[0], b[1], b[2]] + b[3..];
      }
    }
  }

  lemma GroupCanonical(q: string)
    requires |q| == 4 && AllBase64(q)
    ensures var d := DecodeGroup(q); EncodeGroup(d[0], d[1], d[2]) == q
  {
    var v0, v1, v2, v3 := ValueOf(q[0]), ValueOf(q[1]), ValueOf(q[2]), ValueOf(q[3]);
    var d := DecodeGroup(q);
    BytesOfSextets(v0, v1, v2, v3);
    assert d[0] / 4 == v0;
    assert (d[0] % 4) * 16 + d[1] / 16 == v1;
    assert (d[1] % 16) * 4 + d[2] / 64 == v2;
    assert d[2] % 64 == v3;
    CharOfValueOf(q[0]);
    CharOfValueOf(q[1]);
    CharOfValueOf(q[2]);
    CharOfValueOf(q[3]);
    assert EncodeGroup(d[0], d[1], d[2]) == [CharOf(v0), CharOf(v1), CharOf(v2), CharOf(v3)];
  }

  /** Decoding accepts only canonical text: whatever it accepts is the encoding of its result. */
  lemma {:induction false} EncodeDecode(s: string, b: seq<byte>)
    requires Decode(s) == Some(b)
    ensures Encode(b) == s
    decreases |s|
  {
    if |s| == 4 {
      if AllBase64(s) {
        GroupCanonical(s);
      } else if s[2] == '=' {
        OneByteCanonical(s);
      } else {
        TwoBytesCanonical(s);
      }
    } else if |s| > 4 {
      var rest := Decode(s[4..]).value;
      EncodeDecode(s[4..], rest);
      GroupCanonical(s[..4]);
      assert s == s[..4] + s[4..];
      assert b[3..] == rest;
    }
  }
}
