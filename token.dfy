/** The validation token a form carries in its hidden `form_id` field: the JSON array
    [answer, requiredNames] encoded with base64. The answer is the anti-spam sum as a
    JSON number, or the empty JSON string when the form has no anti-spam question. */
module Token {
  import opened Wrappers
  import opened Text
  import Base64
  import Json

  /** The anti-spam answer stored in the token. PHP keeps either the integer sum of
      the two operands or the empty string. */
  datatype Answer = NoChallenge | Expected(n: nat)

  /** What the token carries: the expected answer and the unprefixed names of the
      required fields, in form order. */
  datatype Payload = Payload(answer: Answer, required: seq<string>)

  // ---------------------------------------------------------------------------
  // JSON layer
  // ---------------------------------------------------------------------------

  /** json_encode() of the answer: a number, or "" for no question. */
  function AnswerJson(a: Answer): string {
    match a
    case NoChallenge => Json.Quote("")
    case Expected(n) => NatToString(n)
  }

  /** json_encode([answer, names]). */
  function ToJson(p: Payload): string {
    ['['] + AnswerJson(p.answer) + [','] + Json.EncodeStringArray(p.required) + [']']
  }

  /** Reads the answer at the start of `s`: the empty string or a number. */
  function ParseAnswer(s: string): Option<(Answer, string)> {
    if |s| >= 2 && s[0] == '"' && s[1] == '"' then Some((NoChallenge, s[2..]))
    else match Json.ParseNat(s)
      case None => None
      case Some((n, rest)) => Some((Expected(n), rest))
  }

  /** json_decode() restricted to the shape json_encode() gives a payload: a
      two-element array of an answer and a list of strings, no whitespace, and
      nothing after it. */
  function FromJson(s: string): Option<Payload> {
    if s == [] || s[0] != '[' then None
    else match ParseAnswer(s[1..])
      case None => None
      case Some((a, rest)) =>
        if rest == [] || rest[0] != ',' then None
        else match Json.ParseStringArray(rest[1..])
          case None => None
          case Some((names, after)) =>
            if after == [']'] then Some(Payload(a, names)) else None
  }

  /** The JSON text of a payload is ASCII, so its UTF-8 bytes are its code points. */
  lemma ToJsonAscii(p: Payload)
    ensures Json.IsAscii(ToJson(p))
  {
    var a, arr := AnswerJson(p.answer), Json.EncodeStringArray(p.required);
    Json.StringArrayAscii(p.required);
    assert Json.IsAscii(a) by {
      if p.answer.NoChallenge? {
        assert a == ['"', '"'];
      }
    }
    Json.AsciiConcat(['['], a);
    Json.AsciiConcat(['['] + a, [',']);
    Json.AsciiConcat(['['] + a + [','], arr);
    Json.AsciiConcat(['['] + a + [','] + arr, [']']);
  }

  /** The UTF-8 bytes of ASCII text. */
  function ToBytes(s: string): (bs: seq<Base64.byte>)
    requires Json.IsAscii(s)
    ensures |bs| == |s|
  {
    seq(|s|, k requires 0 <= k < |s| => s[k] as int)
  }

  /** Bytes read back as characters, one per byte. */
  function FromBytes(bs: seq<Base64.byte>): (s: string)
    ensures |s| == |bs|
  {
    seq(|bs|, k requires 0 <= k < |bs| => bs[k] as char)
  }

  lemma BytesRoundTrip(s: string)
    requires Json.IsAscii(s)
    ensures FromBytes(ToBytes(s)) == s
  {
  }

  // ---------------------------------------------------------------------------
  // The token
  // ---------------------------------------------------------------------------

  /** base64_encode(json_encode([answer, names])). */
  function Encode(p: Payload): string {
    ToJsonAscii(p);
    Base64.Encode(ToBytes(ToJson(p)))
  }

  /** json_decode(base64_decode(token)), None for anything that is not a token. */
  function Decode(token: string): Option<Payload> {
    match Base64.Decode(token)
    case None => None
    case Some(bs) => FromJson(FromBytes(bs))
  }

  /** The answer is read back, whatever follows it, as long as it starts with ','. */
  lemma AnswerRoundTrip(a: Answer, rest: string)
    requires rest != [] && rest[0] == ','
    ensures ParseAnswer(AnswerJson(a) + rest) == Some((a, rest))
  {
    match a
    case NoChallenge =>
      assert AnswerJson(a) == ['"', '"'];
      assert (AnswerJson(a) + rest)[2..] == rest;
    case Expected(n) =>
      Json.NatRoundTrip(n, rest);
      assert (AnswerJson(a) + rest)[0] == NatToString(n)[0];
  }

  /** A payload's JSON text is read back as the payload. */
  lemma JsonRoundTrip(p: Payload)
    ensures FromJson(ToJson(p)) == Some(p)
  {
    var a, arr := AnswerJson(p.answer), Json.EncodeStringArray(p.required);
    var afterAnswer := [','] + arr + [']'];
    Bracketed(a, arr);
    AnswerRoundTrip(p.answer, afterAnswer);
    Json.StringArrayRoundTrip(p.required, [']']);
    FromJsonStep(ToJson(p), p.answer, afterAnswer, p.required);
  }

  /** How the text of a payload splits around its answer and its array. */
  lemma Bracketed(a: string, arr: string)
    ensures var s := ['['] + a + [','] + arr + [']'];
      s[0] == '[' && s[1..] == a + ([','] + arr + [']'])
    ensures var after := [','] + arr + [']'];
      after[0] == ',' && after[1..] == arr + [']']
  {
    var s := ['['] + a + [','] + arr + [']'];
    assert s == ['['] + (a + ([','] + arr + [']']));
  }

  /** The JSON reader, stepped over an answer and an array that it reads. */
  lemma FromJsonStep(s: string, a: Answer, rest: string, names: seq<string>)
    requires s != [] && s[0] == '[' && ParseAnswer(s[1..]) == Some((a, rest))
    requires rest != [] && rest[0] == ',' && Json.ParseStringArray(rest[1..]) == Some((names, [']']))
    ensures FromJson(s) == Some(Payload(a, names))
  {
  }

  /** Decoding a token gives back exactly the answer and the required names, in the
      same order, that went into it. */
  lemma RoundTrip(p: Payload)
    ensures Decode(Encode(p)) == Some(p)
  {
    var json := ToJson(p);
    ToJsonAscii(p);
    var bs := ToBytes(json);
    Base64.RoundTrip(bs);
    BytesRoundTrip(json);
    JsonRoundTrip(p);
  }

  /** A token is not empty and has no whitespace at either end, so PHP's trim() of
      the submitted hidden field gives it back unchanged. */
  lemma EncodeTrimmed(p: Payload)
    ensures Encode(p) != [] && Trim(Encode(p)) == Encode(p)
  {
    var t := Encode(p);
    ToJsonAscii(p);
    var bs := ToBytes(ToJson(p));
    Base64.EncodedChars(bs);
    Base64.EncodeNonEmpty(bs);
    assert !IsTrimmable(t[0]) && !IsTrimmable(t[|t| - 1]) by {
      assert Base64.IsEncodedChar(t[0]) && Base64.IsEncodedChar(t[|t| - 1]);
      EncodedNotTrimmable(t[0]);
      EncodedNotTrimmable(t[|t| - 1]);
    }
    TrimNoEdges(t);
  }

  lemma EncodedNotTrimmable(c: char)
    requires Base64.IsEncodedChar(c)
    ensures !IsTrimmable(c)
  {
  }

  /** An empty or absent token decodes to nothing. */
  lemma DecodeEmpty()
    ensures Decode("") == None
  {
    assert Base64.Decode("") == Some([]);
    assert FromBytes([]) == "";
  }
}
