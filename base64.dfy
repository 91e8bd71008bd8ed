/** The base64 encoding of RFC 4648, section 4 (standard alphabet, '=' padding), as
    PHP's base64_encode() writes it, and a strict decoder for it. */
module Base64 {
  import opened Wrappers

  /** An octet. */
  type byte = x: int | 0 <= x < 256

  /** A 6-bit group: the value of one character of the encoded text. */
  type sextet = x: int | 0 <= x < 64

  /** The value of an alphabet character; None for any other character. */
  function ValueOf(c: char): Option<sextet> {
    if 'A' <= c <= 'Z' then Some(c as int - 'A' as int)
    else if 'a' <= c <= 'z' then Some(c as int - 'a' as int + 26)
    else if '0' <= c <= '9' then Some(c as int - '0' as int + 52)
    else if c == '+' then Some(62)
    else if c == '/' then Some(63)
    else None
  }

  /** Table 1 of RFC 4648: values 0-25 are 'A'-'Z', 26-51 'a'-'z', 52-61 '0'-'9',
      62 is '+' and 63 is '/'. The alphabet is a bijection: decoding the character
      gives the value back. */
  function CharOf(v: sextet): (c: char)
    ensures ValueOf(c) == Some(v)
  {
    if v < 26 then ('A' as int + v) as char
    else if v < 52 then ('a' as int + v - 26) as char
    else if v < 62 then ('0' as int + v - 52) as char
    else if v == 62 then '+'
    else '/'
  }

  /** A character that can appear in encoded text. */
  predicate IsEncodedChar(c: char) {
    ValueOf(c).Some? || c == '='
  }

  /** Encodes a group of three octets as four characters. */
  function EncodeGroup(b0: byte, b1: byte, b2: byte): string {
    [CharOf(b0 / 4), CharOf(b0 % 4 * 16 + b1 / 16), CharOf(b1 % 16 * 4 + b2 / 64), CharOf(b2 % 64)]
  }

  /** base64_encode: each group of three octets becomes four characters; a final
      group of one or two octets is padded with '='. */
  function Encode(bs: seq<byte>): string
    decreases |bs|
  {
    if |bs| == 0 then []
    else if |bs| < 3 then EncodeFinal(bs)
    else EncodeGroup(bs[0], bs[1], bs[2]) + Encode(bs[3..])
  }

  /** The padded last group of one or two octets. */
  function EncodeFinal(bs: seq<byte>): string
    requires 1 <= |bs| <= 2
  {
    if |bs| == 1 then [CharOf(bs[0] / 4), CharOf(bs[0] % 4 * 16), '=', '=']
    else [CharOf(bs[0] / 4), CharOf(bs[0] % 4 * 16 + bs[1] / 16), CharOf(bs[1] % 16 * 4), '=']
  }

  /** The encoding is made of alphabet characters and '=' only. */
  lemma {:induction false} EncodedChars(bs: seq<byte>)
    ensures forall k :: 0 <= k < |Encode(bs)| ==> IsEncodedChar(Encode(bs)[k])
    decreases |bs|
  {
    if |bs| >= 3 {
      EncodedChars(bs[3..]);
      var g, r := EncodeGroup(bs[0], bs[1], bs[2]), Encode(bs[3..]);
      assert Encode(bs) == g + r;
      forall k | 0 <= k < |g + r|
        ensures IsEncodedChar((g + r)[k])
      {
        if k >= |g| {
          assert (g + r)[k] == r[k - |g|];
        }
      }
    }
  }

  /** Octets are never encoded as the empty text. */
  lemma EncodeNonEmpty(bs: seq<byte>)
    requires bs != []
    ensures Encode(bs) != []
  {
  }

  /** Decodes four alphabet characters (no padding) into three octets. */
  function DecodeGroup(q: string): Option<seq<byte>>
    requires |q| == 4
  {
    match (ValueOf(q[0]), ValueOf(q[1]), ValueOf(q[2]), ValueOf(q[3]))
    case (Some(v0), Some(v1), Some(v2), Some(v3)) =>
      var octets: seq<byte> := [(v0 as int) * 4 + (v1 as int) / 16, (v1 as int) % 16 * 16 + (v2 as int) / 4, (v2 as int) % 4 * 64 + (v3 as int)];
      Some(octets)
    case _ => None
  }

  /** Decodes the last four characters, which may end in one or two '='. */
  function DecodeFinalGroup(q: string): Option<seq<byte>>
    requires |q| == 4
  {
    if q[2] == '=' && q[3] == '=' then
      match (ValueOf(q[0]), ValueOf(q[1]))
      case (Some(v0), Some(v1)) =>
        var octets: seq<byte> := [(v0 as int) * 4 + (v1 as int) / 16];
        Some(octets)
      case _ => None
    else if q[3] == '=' then
      match (ValueOf(q[0]), ValueOf(q[1]), ValueOf(q[2]))
      case (Some(v0), Some(v1), Some(v2)) =>
        var octets: seq<byte> := [(v0 as int) * 4 + (v1 as int) / 16, (v1 as int) % 16 * 16 + (v2 as int) / 4];
        Some(octets)
      case _ => None
    else DecodeGroup(q)
  }

  /** Strict base64 decoding: the length is a multiple of four, only the last group
      may carry padding, and every other character is in the alphabet. */
  function Decode(s: string): Option<seq<byte>>
    decreases |s|
  {
    if |s| == 0 then Some([])
    else if |s| < 4 then None
    else if |s| == 4 then DecodeFinalGroup(s)
    else
      match (DecodeGroup(s[..4]), Decode(s[4..]))
      case (Some(head), Some(tail)) => Some(head + tail)
      case _ => None
  }

  /** One group of three octets survives encoding and decoding. */
  lemma GroupRoundTrip(b0: byte, b1: byte, b2: byte)
    ensures DecodeGroup(EncodeGroup(b0, b1, b2)) == Some([b0, b1, b2])
  {
    var q := EncodeGroup(b0, b1, b2);
    assert (b0 % 4 * 16 + b1 / 16) / 16 == b0 % 4;
    assert (b0 % 4 * 16 + b1 / 16) % 16 == b1 / 16;
    assert (b1 % 16 * 4 + b2 / 64) / 4 == b1 % 16;
    assert (b1 % 16 * 4 + b2 / 64) % 4 == b2 / 64;
  }

  /** A final group of one octet survives encoding and decoding. */
  lemma OneOctetRoundTrip(b0: byte)
    ensures DecodeFinalGroup([CharOf(b0 / 4), CharOf(b0 % 4 * 16), '=', '=']) == Some([b0])
  {
    assert b0 % 4 * 16 / 16 == b0 % 4;
  }

  /** A final group of two octets survives encoding and decoding. */
  lemma TwoOctetRoundTrip(b0: byte, b1: byte)
    ensures DecodeFinalGroup([CharOf(b0 / 4), CharOf(b0 % 4 * 16 + b1 / 16), CharOf(b1 % 16 * 4), '='])
         == Some([b0, b1])
  {
    assert (b0 % 4 * 16 + b1 / 16) / 16 == b0 % 4;
    assert (b0 % 4 * 16 + b1 / 16) % 16 == b1 / 16;
    assert b1 % 16 * 4 / 4 == b1 % 16;
  }

  /** Decoding proceeds group by group; a group without '=' decodes the same way
      whether or not it is the last one. */
  lemma DecodeFirstGroup(q: string, rest: string)
    requires |q| == 4 && q[3] != '='
    ensures Decode(q + rest) == match (DecodeGroup(q), Decode(rest))
                                case (Some(head), Some(tail)) => Some(head + tail)
                                case _ => None
  {
    var s := q + rest;
    assert s[..4] == q && s[4..] == rest;
    if rest == [] {
      assert s == q;
      match DecodeGroup(q)
      case Some(head) => assert head + [] == head;
      case None =>
    }
  }

  /** A full group in front of any decodable text decodes to its three octets in front. */
  lemma GroupCons(b0: byte, b1: byte, b2: byte, rest: string, tail: seq<byte>)
    requires Decode(rest) == Some(tail)
    ensures Decode(EncodeGroup(b0, b1, b2) + rest) == Some([b0, b1, b2] + tail)
  {
    GroupRoundTrip(b0, b1, b2);
    DecodeFirstGroup(EncodeGroup(b0, b1, b2), rest);
  }

  /** The padded final group of one or two octets decodes to those octets. */
  lemma FinalRoundTrip(bs: seq<byte>)
    requires 1 <= |bs| <= 2
    ensures Decode(Encode(bs)) == Some(bs)
  {
    var q := EncodeFinal(bs);
    assert Encode(bs) == q;
    FinalGroupRoundTrip(bs);
    DecodeLast(q);
  }

  /** Four characters are decoded as the final group. */
  lemma DecodeLast(q: string)
    requires |q| == 4
    ensures Decode(q) == DecodeFinalGroup(q)
  {
  }

  lemma FinalGroupRoundTrip(bs: seq<byte>)
    requires 1 <= |bs| <= 2
    ensures DecodeFinalGroup(EncodeFinal(bs)) == Some(bs)
  {
    if |bs| == 1 {
      OneOctetRoundTrip(bs[0]);
      Singleton(bs);
    } else {
      TwoOctetRoundTrip(bs[0], bs[1]);
      Pair(bs);
    }
  }

  lemma Singleton(bs: seq<byte>)
    requires |bs| == 1
    ensures bs == [bs[0]]
  {
  }

  lemma Pair(bs: seq<byte>)
    requires |bs| == 2
    ensures bs == [bs[0], bs[1]]
  {
  }

  lemma Group(bs: seq<byte>)
    requires |bs| >= 3
    ensures bs == [bs[0], bs[1], bs[2]] + bs[3..]
  {
  }

  /** Decoding the encoding of any octet string gives the octets back. */
  lemma {:induction false} RoundTrip(bs: seq<byte>)
    ensures Decode(Encode(bs)) == Some(bs)
    decreases |bs|
  {
    if 1 <= |bs| <= 2 {
      FinalRoundTrip(bs);
    } else if |bs| >= 3 {
      RoundTrip(bs[3..]);
      RoundTripStep(bs);
    }
  }

  /** The induction step: one more group in front. */
  lemma RoundTripStep(bs: seq<byte>)
    requires |bs| >= 3 && Decode(Encode(bs[3..])) == Some(bs[3..])
    ensures Decode(Encode(bs)) == Some(bs)
  {
    GroupCons(bs[0], bs[1], bs[2], Encode(bs[3..]), bs[3..]);
    Group(bs);
  }
}
