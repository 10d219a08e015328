/**
  Base 64 encoding with the standard alphabet and `=` padding, as defined in
  section 4 of RFC 4648 and used as the base64 Content-Transfer-Encoding of
  section 6.8 of RFC 2045.  `Encode` is PHP's `base64_encode`; `Decode` is
  the inverse the receiving side applies.
 */
module Base64 {
  import opened Wrappers

  /** An octet: PHP strings are byte strings. */
  newtype byte = x: int | 0 <= x < 256

  /** The 64 characters of the alphabet (Table 1 of RFC 4648). */
  predicate IsAlphabet(c: char)
  {
    ('A' <= c <= 'Z') || ('a' <= c <= 'z') || ('0' <= c <= '9') || c == '+' || c == '/'
  }

  /** The characters an encoding may contain: the alphabet and the pad. */
  predicate IsBase64Char(c: char)
  {
    IsAlphabet(c) || c == '='
  }

  /** The 6-bit value a character of the alphabet stands for. */
  function SextetValue(c: char): (n: int)
    requires IsAlphabet(c)
    ensures 0 <= n < 64
  {
    if 'A' <= c <= 'Z' then c as int - 'A' as int
    else if 'a' <= c <= 'z' then c as int - 'a' as int + 26
    else if '0' <= c <= '9' then c as int - '0' as int + 52
    else if c == '+' then 62
    else 63
  }

  /** The character of the alphabet that stands for the 6-bit value `n`. */
  function Sextet(n: int): (c: char)
    requires 0 <= n < 64
    ensures IsAlphabet(c) && SextetValue(c) == n
  {
    if n < 26 then ('A' as int + n) as char
    else if n < 52 then ('a' as int + n - 26) as char
    else if n < 62 then ('0' as int + n - 52) as char
    else if n == 62 then '+'
    else '/'
  }

  /** Three octets as four characters. */
  function EncodeBlock(b0: byte, b1: byte, b2: byte): string
  {
    [Sextet(b0 as int / 4),
     Sextet((b0 as int % 4) * 16 + b1 as int / 16),
     Sextet((b1 as int % 16) * 4 + b2 as int / 64),
     Sextet(b2 as int % 64)]
  }

  /** A final single octet: two characters and two pads. */
  function EncodeOne(b0: byte): string
  {
    [Sextet(b0 as int / 4), Sextet((b0 as int % 4) * 16), '=', '=']
  }

  /** A final pair of octets: three characters and one pad. */
  function EncodeTwo(b0: byte, b1: byte): string
  {
    [Sextet(b0 as int / 4), Sextet((b0 as int % 4) * 16 + b1 as int / 16), Sextet((b1 as int % 16) * 4), '=']
  }

  /** `base64_encode`: every started group of three octets becomes four characters. */
  function Encode(b: seq<byte>): (r: string)
    ensures |r| == 4 * ((|b| + 2) / 3)
    ensures forall i :: 0 <= i < |r| ==> IsBase64Char(r[i])
  {
    if |b| == 0 then ""
    else if |b| == 1 then EncodeOne(b[0])
    else if |b| == 2 then EncodeTwo(b[0], b[1])
    else EncodeBlock(b[0], b[1], b[2]) + Encode(b[3..])
  }

  /** One group of four characters; pads are accepted only in the final group. */
  function DecodeGroup(g: string, final: bool): Option<seq<byte>>
    requires |g| == 4
  {
    if IsAlphabet(g[0]) && IsAlphabet(g[1]) && IsAlphabet(g[2]) && IsAlphabet(g[3]) then
      var v0, v1, v2, v3 := SextetValue(g[0]), SextetValue(g[1]), SextetValue(g[2]), SextetValue(g[3]);
      Some([(v0 * 4 + v1 / 16) as byte, ((v1 % 16) * 16 + v2 / 4) as byte, ((v2 % 4) * 64 + v3) as byte])
    else if final && IsAlphabet(g[0]) && IsAlphabet(g[1]) && IsAlphabet(g[2]) && g[3] == '=' then
      var v0, v1, v2 := SextetValue(g[0]), SextetValue(g[1]), SextetValue(g[2]);
      Some([(v0 * 4 + v1 / 16) as byte, ((v1 % 16) * 16 + v2 / 4) as byte])
    else if final && IsAlphabet(g[0]) && IsAlphabet(g[1]) && g[2] == '=' && g[3] == '=' then
      var v0, v1 := SextetValue(g[0]), SextetValue(g[1]);
      Some([(v0 * 4 + v1 / 16) as byte])
    else None
  }

  /** Decodes a padded encoding; `None` for a length not a multiple of four or a stray character. */
  function Decode(s: string): Option<seq<byte>>
  {
    if |s| == 0 then Some([])
    else if |s| < 4 then None
    else match DecodeGroup(s[..4], |s| == 4)
      case None => None
      case Some(g) =>
        match Decode(s[4..])
        case None => None
        case Some(rest) => Some(g + rest)
  }

  /** The four sextets of three octets put the octets back together. */
  lemma BlockArithmetic(b0: int, b1: int, b2: int)
    requires 0 <= b0 < 256 && 0 <= b1 < 256 && 0 <= b2 < 256
    ensures (b0 / 4) * 4 + ((b0 % 4) * 16 + b1 / 16) / 16 == b0
    ensures (((b0 % 4) * 16 + b1 / 16) % 16) * 16 + ((b1 % 16) * 4 + b2 / 64) / 4 == b1
    ensures (((b1 % 16) * 4 + b2 / 64) % 4) * 64 + b2 % 64 == b2
  {
  }

  /** Decoding the encoding of one final octet gives it back. */
  lemma OneRoundTrip(b0: byte)
    ensures DecodeGroup(EncodeOne(b0), true) == Some([b0])
  {
    var g := EncodeOne(b0);
    var v0, v1 := SextetValue(g[0]), SextetValue(g[1]);
    assert v0 == b0 as int / 4 && v1 == (b0 as int % 4) * 16;
    BlockArithmetic(b0 as int, 0, 0);
    assert (v0 * 4 + v1 / 16) as byte == b0;
  }

  /** Decoding the encoding of two final octets gives them back. */
  lemma TwoRoundTrip(b0: byte, b1: byte)
    ensures DecodeGroup(EncodeTwo(b0, b1), true) == Some([b0, b1])
  {
    var g := EncodeTwo(b0, b1);
    var v0, v1, v2 := SextetValue(g[0]), SextetValue(g[1]), SextetValue(g[2]);
    assert v0 == b0 as int / 4 && v1 == (b0 as int % 4) * 16 + b1 as int / 16 && v2 == (b1 as int % 16) * 4;
    BlockArithmetic(b0 as int, b1 as int, 0);
    assert (v0 * 4 + v1 / 16) as byte == b0;
    assert ((v1 % 16) * 16 + v2 / 4) as byte == b1;
  }

  /** Decoding the encoding of three octets gives them back, final group or not. */
  lemma BlockRoundTrip(b0: byte, b1: byte, b2: byte, final: bool)
    ensures DecodeGroup(EncodeBlock(b0, b1, b2), final) == Some([b0, b1, b2])
  {
    var g := EncodeBlock(b0, b1, b2);
    var v0, v1, v2, v3 := SextetValue(g[0]), SextetValue(g[1]), SextetValue(g[2]), SextetValue(g[3]);
    assert v0 == b0 as int / 4 && v1 == (b0 as int % 4) * 16 + b1 as int / 16;
    assert v2 == (b1 as int % 16) * 4 + b2 as int / 64 && v3 == b2 as int % 64;
    BlockArithmetic(b0 as int, b1 as int, b2 as int);
    assert (v0 * 4 + v1 / 16) as byte == b0;
    assert ((v1 % 16) * 16 + v2 / 4) as byte == b1;
    assert ((v2 % 4) * 64 + v3) as byte == b2;
  }

  /** Decoding undoes encoding, for every octet string. */
  lemma {:induction false} RoundTrip(b: seq<byte>)
    ensures Decode(Encode(b)) == Some(b)
  {
    if |b| == 0 {
    } else if |b| <= 2 {
      if |b| == 1 {
        OneRoundTrip(b[0]);
        assert [b[0]] == b;
      } else {
        TwoRoundTrip(b[0], b[1]);
        assert [b[0], b[1]] == b;
      }
      var s := Encode(b);
      assert s[..4] == s;
      assert Decode(s[4..]) == Some([]);
      assert b + [] == b;
    } else {
      var s := Encode(b);
      var head := EncodeBlock(b[0], b[1], b[2]);
      assert s[..4] == head;
      assert s[4..] == Encode(b[3..]);
      BlockRoundTrip(b[0], b[1], b[2], |s| == 4);
      assert [b[0], b[1], b[2]] == b[..3];
      RoundTrip(b[3..]);
      assert b == b[..3] + b[3..];
    }
  }
}
