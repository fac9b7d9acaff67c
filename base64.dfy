/** Standard base64 text (RFC 4648 section 4: alphabet A-Z a-z 0-9 + /, `=`
    padding, no line breaks), as `Data.base64EncodedString()` produces it for
    the random bytes of bearer tokens and anti-forgery tokens, and the matching
    decoder, which shows that the encoding loses nothing. */
module Base64 {
  import opened Common

  type sextet = v: nat | v < 64

  /** The decoder's view of one character: its 6-bit value, if it is in the alphabet. */
  function CharSextet(c: char): Option<sextet> {
    if 'A' <= c <= 'Z' then Some(c as int - 'A' as int)
    else if 'a' <= c <= 'z' then Some(c as int - 'a' as int + 26)
    else if '0' <= c <= '9' then Some(c as int - '0' as int + 52)
    else if c == '+' then Some(62)
    else if c == '/' then Some(63)
    else None
  }

  /** The alphabet character for a 6-bit value; the decoder maps it back. */
  function SextetChar(v: sextet): (c: char)
    ensures CharSextet(c) == Some(v)
  {
    if v < 26 then ('A' as int + v) as char
    else if v < 52 then ('a' as int + (v - 26)) as char
    else if v < 62 then ('0' as int + (v - 52)) as char
    else if v == 62 then '+'
    else '/'
  }

  /** Three bytes as four characters. */
  function EncodeGroup(b0: byte, b1: byte, b2: byte): string {
    [SextetChar(b0 / 4), SextetChar((b0 % 4) * 16 + b1 / 16),
     SextetChar((b1 % 16) * 4 + b2 / 64), SextetChar(b2 % 64)]
  }

  /** Base64 text of `data`: four characters per started group of three bytes. */
  function Encode(data: seq<byte>): (s: string)
    ensures |s| == 4 * ((|data| + 2) / 3)
    decreases |data|
  {
    if |data| == 0 then ""
    else if |data| == 1 then
      [SextetChar(data[0] / 4), SextetChar((data[0] % 4) * 16), '=', '=']
    else if |data| == 2 then
      [SextetChar(data[0] / 4), SextetChar((data[0] % 4) * 16 + data[1] / 16),
       SextetChar((data[1] % 16) * 4), '=']
    else EncodeGroup(data[0], data[1], data[2]) + Encode(data[3..])
  }

  /** Decodes padded base64 text; `None` for text that is not of that form. */
  function Decode(s: string): Option<seq<byte>>
    decreases |s|
  {
    if |s| == 0 then Some([])
    else if |s| < 4 then None
    else
      var c0, c1, c2, c3 := CharSextet(s[0]), CharSextet(s[1]), CharSextet(s[2]), CharSextet(s[3]);
      if c0.None? || c1.None? then None
      else if |s| == 4 && s[2] == '=' && s[3] == '=' then
        Some([c0.value * 4 + c1.value / 16])
      else if c2.None? then None
      else if |s| == 4 && s[3] == '=' then
        Some([c0.value * 4 + c1.value / 16, (c1.value % 16) * 16 + c2.value / 4])
      else if c3.None? then None
      else
        match Decode(s[4..])
        case None => None
        case Some(rest) =>
          Some([c0.value * 4 + c1.value / 16, (c1.value % 16) * 16 + c2.value / 4,
                (c2.value % 4) * 64 + c3.value] + rest)
  }

  lemma GroupArithmetic(b0: byte, b1: byte, b2: byte)
    ensures (b0 / 4) * 4 + ((b0 % 4) * 16 + b1 / 16) / 16 == b0
    ensures (((b0 % 4) * 16 + b1 / 16) % 16) * 16 + ((b1 % 16) * 4 + b2 / 64) / 4 == b1
    ensures (((b1 % 16) * 4 + b2 / 64) % 4) * 64 + b2 % 64 == b2
  {
  }

  lemma DecodeOneByte(b0: byte)
    ensures Decode(Encode([b0])) == Some([b0])
  {
    GroupArithmetic(b0, 0, 0);
  }

  lemma DecodeTwoBytes(b0: byte, b1: byte)
    ensures Decode(Encode([b0, b1])) == Some([b0, b1])
  {
    var s := Encode([b0, b1]);
    var c2 := (b1 % 16) * 4;
    assert CharSextet(s[0]) == Some(b0 / 4);
    assert CharSextet(s[1]) == Some((b0 % 4) * 16 + b1 / 16);
    assert CharSextet(s[2]) == Some(c2);
    assert s[2] != '=' && s[3] == '=' && |s| == 4;
    GroupArithmetic(b0, b1, 0);
  }

  lemma DecodeGroup(b0: byte, b1: byte, b2: byte, rest: string, tail: seq<byte>)
    requires Decode(rest) == Some(tail)
    ensures Decode(EncodeGroup(b0, b1, b2) + rest) == Some([b0, b1, b2] + tail)
  {
    var s := EncodeGroup(b0, b1, b2) + rest;
    assert s[4..] == rest;
    assert CharSextet(s[0]) == Some(b0 / 4);
    assert CharSextet(s[1]) == Some((b0 % 4) * 16 + b1 / 16);
    assert CharSextet(s[2]) == Some((b1 % 16) * 4 + b2 / 64);
    assert CharSextet(s[3]) == Some(b2 % 64);
    assert s[3] != '=';
    GroupArithmetic(b0, b1, b2);
  }

  /** Decoding the encoding gives back the bytes. */
  lemma {:induction false} DecodeEncode(data: seq<byte>)
    ensures Decode(Encode(data)) == Some(data)
    decreases |data|
  {
    if |data| == 1 {
      assert data == [data[0]];
      DecodeOneByte(data[0]);
    } else if |data| == 2 {
      assert data == [data[0], data[1]];
      DecodeTwoBytes(data[0], data[1]);
    } else if |data| >= 3 {
      DecodeEncode(data[3..]);
      DecodeGroup(data[0], data[1], data[2], Encode(data[3..]), data[3..]);
      assert data == [data[0], data[1], data[2]] + data[3..];
    }
  }

  /** Different byte strings never give the same text. */
  lemma EncodeInjective(a: seq<byte>, b: seq<byte>)
    requires Encode(a) == Encode(b)
    ensures a == b
  {
    DecodeEncode(a);
    DecodeEncode(b);
  }

  /** A byte string one longer than a multiple of three ends in two padding characters. */
  lemma {:induction false} EncodeEndsInTwoPads(data: seq<byte>)
    requires |data| % 3 == 1
    ensures Encode(data)[|Encode(data)| - 2..] == "=="
    decreases |data|
  {
    if |data| > 1 {
      EncodeEndsInTwoPads(data[3..]);
      var s := Encode(data);
      assert s == EncodeGroup(data[0], data[1], data[2]) + Encode(data[3..]);
      assert s[|s| - 2..] == Encode(data[3..])[|Encode(data[3..])| - 2..];
    }
  }

  /** The text of sixteen random bytes: 24 characters, the last two of them `=`. */
  lemma SixteenByteText(data: seq<byte>)
    requires |data| == 16
    ensures |Encode(data)| == 24 && Encode(data)[22..] == "=="
  {
    EncodeEndsInTwoPads(data);
  }
}
