/** Server-side handling of a submitted form (the static Response_* helpers and
    hasResponse of PHP_Forms): reading trimmed fields from the request and checking
    the anti-spam answer and the required fields listed in the validation token. */
module Response {
  import opened Wrappers
  import opened Text
  import opened Elements
  import opened Token
  import Json

  /** $_REQUEST (or $_GET, $_POST): submitted field names, with PREFIX, to raw values. */
  type Request = map<string, string>

  /** hasResponse($submitMethod): whether the superglobal of the given method holds
      any field; an error for an unknown method. */
  function HasResponse(submitMethod: int, get: Request, post: Request): (r: Result<bool, FormError>)
    ensures r.Ok? <==> submitMethod == 0 || submitMethod == 1
    ensures r == Ok(true) <==> (submitMethod == 1 && get != map[]) || (submitMethod == 0 && post != map[])
  {
    if submitMethod == 1 then Ok(|get| > 0)
    else if submitMethod == 0 then Ok(|post| > 0)
    else Err(UnknownSubmitMethod(submitMethod))
  }

  /** Response_getString($name): the trimmed value of the prefixed field, or the empty
      string when the field was not sent. */
  function GetString(req: Request, name: string): string {
    if PREFIX + name in req then Trim(req[PREFIX + name]) else ""
  }

  /** A value read from the request has no trimmable character at either end, and it
      is empty exactly when the field is missing or blank. */
  lemma GetStringTrimmed(req: Request, name: string)
    ensures Trim(GetString(req, name)) == GetString(req, name)
    ensures GetString(req, name) == "" <==> PREFIX + name !in req || IsBlank(req[PREFIX + name])
  {
    if PREFIX + name in req {
      TrimIdempotent(req[PREFIX + name]);
      TrimEmptyIff(req[PREFIX + name]);
    }
  }

  /** The server's notion of a field left empty: nothing but trimmable characters. */
  predicate IsBlank(s: string) {
    forall k :: 0 <= k < |s| ==> IsTrimmable(s[k])
  }

  /** intval() of a string read as an optional sign and the decimal digits that
      follow it, 0 when there are none. Leading whitespace and exponent notation
      ("1e3", which intval() reads as 1000) are not read: such input gives the value
      of its leading digits only. */
  function IntVal(s: string): int {
    if s != [] && (s[0] == '-' || s[0] == '+') then
      var digits := s[1..][..Json.LeadingDigits(s[1..])];
      if s[0] == '-' then -(DigitsValue(digits) as int) else DigitsValue(digits)
    else DigitsValue(s[..Json.LeadingDigits(s)])
  }

  /** intval() reads back a number written in decimal, with or without a minus sign. */
  lemma IntValOfDecimal(n: nat)
    ensures IntVal(NatToString(n)) == n
    ensures IntVal("-" + NatToString(n)) == -(n as int)
  {
    var d := NatToString(n);
    Json.LeadingDigitsOf(d, []);
    assert d + [] == d;
    assert d[..|d|] == d;
    assert ("-" + d)[1..] == d;
    DigitsValueOfNatToString(n);
  }

  /** Response_getInt($name). */
  function GetInt(req: Request, name: string): int {
    IntVal(GetString(req, name))
  }

  // ---------------------------------------------------------------------------
  // Validation
  // ---------------------------------------------------------------------------

  /** The submitted answer equals the integer expected: PHP compares a numeric
      string with an integer by value, so leading zeros do not matter; any other
      string differs. */
  predicate AnswerMatches(s: string, n: nat) {
    s != "" && AllDigits(s) && DigitsValue(s) == n
  }

  /** The answer as the question's sum is written in decimal is accepted. */
  lemma AnswerMatchesDecimal(n: nat)
    ensures AnswerMatches(NatToString(n), n)
    ensures forall m: nat :: m != n ==> !AnswerMatches(NatToString(n), m)
  {
    DigitsValueOfNatToString(n);
  }

  /** The token data PHP works with: the decoded payload, or nothing when the token
      is missing or does not decode. */
  function InternalData(req: Request): Option<Payload> {
    Token.Decode(GetString(req, FORM_ID))
  }

  /** The anti-spam check passes: no answer is expected, or the anti_spam field
      holds it. */
  predicate AnswerOk(data: Option<Payload>, req: Request) {
    match data
    case None => true
    case Some(p) =>
      match p.answer
      case NoChallenge => true
      case Expected(n) => AnswerMatches(GetString(req, ANTI_SPAM), n)
  }

  /** Every listed field was sent and is not blank. */
  predicate AllFilled(req: Request, names: seq<string>) {
    forall i :: 0 <= i < |names| ==> GetString(req, names[i]) != ""
  }

  /** What Response_isValid() decides: a missing or undecodable token counts as a
      form without anti-spam question and without required fields. */
  predicate Accepts(data: Option<Payload>, req: Request) {
    AnswerOk(data, req) && AllFilled(req, if data.Some? then data.value.required else [])
  }

  /** Response_isValid(): checks the anti-spam answer, then each required field in
      token order, and rejects at the first failure. */
  method IsValid(req: Request) returns (valid: bool)
    ensures valid == Accepts(InternalData(req), req)
  {
    var data := Token.Decode(GetString(req, FORM_ID));
    var names := if data.Some? then data.value.required else [];
    if data.Some? && data.value.answer.Expected? {
      if !AnswerMatches(GetString(req, ANTI_SPAM), data.value.answer.n) {
        return false;
      }
    }
    valid := CheckFilled(req, names);
  }

  /** The loop of Response_isValid() over the required fields, in token order, up to
      the first one left empty. */
  method CheckFilled(req: Request, names: seq<string>) returns (filled: bool)
    ensures filled == AllFilled(req, names)
  {
    var i := 0;
    while i < |names|
      invariant 0 <= i <= |names|
      invariant forall k :: 0 <= k < i ==> GetString(req, names[k]) != ""
    {
      if GetString(req, names[i]) == "" {
        return false;
      }
      i := i + 1;
    }
    return true;
  }

  /** With the token a rendered form carries, submitted unchanged, the response is
      valid exactly when the anti-spam answer (if any) matches and every required
      field is filled in. */
  lemma RenderedTokenEnforced(p: Payload, req: Request)
    requires PREFIX + FORM_ID in req && req[PREFIX + FORM_ID] == Token.Encode(p)
    ensures Accepts(InternalData(req), req)
        <==> && (p.answer.Expected? ==> AnswerMatches(GetString(req, ANTI_SPAM), p.answer.n))
             && (forall name :: name in p.required ==> GetString(req, name) != "")
  {
    EncodeTrimmed(p);
    RoundTrip(p);
    assert InternalData(req) == Some(p);
  }

  /** A request without a form_id field passes: neither the anti-spam answer nor any
      required field is checked. */
  lemma MissingTokenAccepted(req: Request)
    requires PREFIX + FORM_ID !in req
    ensures Accepts(InternalData(req), req)
  {
    DecodeEmpty();
  }

  /** In particular a request with no field at all is valid. */
  lemma EmptyRequestAccepted()
    ensures Accepts(InternalData(map[]), map[])
  {
    MissingTokenAccepted(map[]);
  }

  /** The check as evidently intended: a response without a readable token is
      rejected; otherwise it is judged as before. */
  predicate AcceptsStrict(req: Request) {
    InternalData(req).Some? && Accepts(InternalData(req), req)
  }

  /** The corrected Response_isValid(): a request without a readable token is
      rejected; one with a token is checked as before. */
  method IsValidStrict(req: Request) returns (valid: bool)
    ensures valid == AcceptsStrict(req)
  {
    var data := Token.Decode(GetString(req, FORM_ID));
    if data.None? {
      return false;
    }
    valid := IsValid(req);
  }

  /** The strict check rejects a request that lacks the token, and one whose token
      does not decode. */
  lemma StrictRejectsMissingToken(req: Request)
    ensures PREFIX + FORM_ID !in req ==> !AcceptsStrict(req)
    ensures InternalData(req).None? ==> !AcceptsStrict(req)
  {
    if PREFIX + FORM_ID !in req {
      DecodeEmpty();
    }
  }

  /** The strict check accepts exactly the responses that carry a readable token,
      answer its question and fill in its required fields. */
  lemma StrictEnforcesToken(req: Request)
    ensures AcceptsStrict(req) <==>
      exists p :: && InternalData(req) == Some(p)
                  && (p.answer.Expected? ==> AnswerMatches(GetString(req, ANTI_SPAM), p.answer.n))
                  && (forall name :: name in p.required ==> GetString(req, name) != "")
  {
    if InternalData(req).Some? {
      var p := InternalData(req).value;
      assert AllFilled(req, p.required) <==> (forall name :: name in p.required ==> GetString(req, name) != "");
    }
  }
}
