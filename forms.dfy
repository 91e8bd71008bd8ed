/** The form builder (PHP_Forms): sections in order, the optional anti-spam
    question, and the rendering step that stores the validation token in a hidden
    field of the first section. */
module Forms {
  import opened Wrappers
  import opened Text
  import opened Elements
  import opened Sections
  import Token

  /** METHOD_POST and METHOD_GET. */
  const METHOD_POST: int := 0
  const METHOD_GET: int := 1

  // ---------------------------------------------------------------------------
  // Required names of a whole form
  // ---------------------------------------------------------------------------

  /** The element lists of the sections, in order. */
  function ElementLists(ss: seq<Section>): (lists: seq<seq<Element>>)
    reads set s | s in ss
    ensures |lists| == |ss|
    ensures forall k :: 0 <= k < |ss| ==> lists[k] == ss[k].elements
  {
    seq(|ss|, k reads set s | s in ss requires 0 <= k < |ss| => ss[k].elements)
  }

  /** The required names of every section in turn: what the token lists. */
  function RequiredNames(lists: seq<seq<Element>>): seq<string> {
    if lists == [] then []
    else RequiredNames(lists[..|lists| - 1]) + RequiredOf(lists[|lists| - 1])
  }

  /** Read from the front: the first section's names, then the others'. */
  lemma {:induction false} RequiredNamesCons(lists: seq<seq<Element>>)
    requires lists != []
    ensures RequiredNames(lists) == RequiredOf(lists[0]) + RequiredNames(lists[1..])
  {
    if |lists| > 1 {
      var init := lists[..|lists| - 1];
      RequiredNamesCons(init);
      assert init[1..] == lists[1..][..|lists[1..]| - 1];
    } else {
      assert lists[..0] == [];
    }
  }

  /** A name is in the list exactly when a required element of some section has it. */
  lemma {:induction false} RequiredNamesMember(lists: seq<seq<Element>>, x: string)
    ensures x in RequiredNames(lists)
        <==> exists i, e :: 0 <= i < |lists| && e in lists[i] && e.required && e.GetName() == x
  {
    if lists != [] {
      var init, last := lists[..|lists| - 1], lists[|lists| - 1];
      assert RequiredNames(lists) == RequiredNames(init) + RequiredOf(last);
      RequiredNamesMember(init, x);
      RequiredOfMember(last, x);
      if x in RequiredNames(init) {
        var i: int, e: Element :| 0 <= i < |init| && e in init[i] && e.required && e.GetName() == x;
        assert lists[i] == init[i];
      } else if x in RequiredOf(last) {
        var e: Element :| e in last && e.required && e.GetName() == x;
        assert lists[|init|] == last;
      }
      if exists i, e :: 0 <= i < |lists| && e in lists[i] && e.required && e.GetName() == x {
        var i: int, e: Element :| 0 <= i < |lists| && e in lists[i] && e.required && e.GetName() == x;
        if i < |init| {
          assert init[i] == lists[i];
          assert x in RequiredNames(init);
        } else {
          assert x in RequiredOf(last);
        }
      }
    }
  }

  /** `after` is `before` with one hidden form_id field holding `token` appended to
      the first section, and every other section unchanged. */
  ghost predicate FirstGained(before: seq<seq<Element>>, after: seq<seq<Element>>, token: string) {
    && before != [] && |after| == |before|
    && |after[0]| == |before[0]| + 1 && after[0][..|before[0]|] == before[0]
    && Describes(after[0][|before[0]|], PREFIX + FORM_ID, "", false, InputHidden(token))
    && (forall k :: 1 <= k < |before| ==> after[k] == before[k])
  }

  /** Storing the token adds no required field, so the list of names is the same
      afterwards: rendering a form twice gives the same names. */
  lemma RequiredNamesFirstGained(before: seq<seq<Element>>, after: seq<seq<Element>>, token: string)
    requires FirstGained(before, after, token)
    ensures RequiredNames(after) == RequiredNames(before)
  {
    var n := |before[0]|;
    var e := after[0][n];
    assert after[0] == after[0][..n] + [e];
    RequiredOfNotRequired(before[0], e);
    assert RequiredOf(after[0]) == RequiredOf(before[0]);
    assert after[1..] == before[1..];
    RequiredNamesCons(before);
    RequiredNamesCons(after);
  }

  /** An element that is not required adds no name. */
  lemma RequiredOfNotRequired(es: seq<Element>, e: Element)
    requires !e.required
    ensures RequiredOf(es + [e]) == RequiredOf(es)
  {
    assert (es + [e])[..|es|] == es;
  }

  /** getMethod(): METHOD_GET is "get"; METHOD_POST, or a method never set (PHP's
      null == 0), is "post"; anything else is an error. */
  function MethodName(m: Option<int>): (r: Result<string, FormError>)
    ensures r.Ok? <==> m.None? || m.value == METHOD_POST || m.value == METHOD_GET
    ensures r == Ok("get") <==> m == Some(METHOD_GET)
    ensures r == Ok("post") <==> m.None? || m == Some(METHOD_POST)
    ensures r.Err? ==> r.error == UnknownSubmitMethod(m.value)
  {
    match m
    case None => Ok("post")
    case Some(code) =>
      if code == METHOD_GET then Ok("get")
      else if code == METHOD_POST then Ok("post")
      else Err(UnknownSubmitMethod(code))
  }

  // ---------------------------------------------------------------------------
  // The form
  // ---------------------------------------------------------------------------

  class Form {
    /** The message the browser check shows when a required field is empty. */
    const incompleteMessage: string
    /** "n1 + n2 = ?", or "" without anti-spam protection. */
    const spamQuestion: string
    const spamAnswer: Token.Answer
    var sections: seq<Section>
    var header: string
    var footer: string
    /** The method set with setMethod(), None while never set. */
    var submitMethod: Option<int>
    var submitTarget: string

    ghost predicate Valid()
      reads this, set s | s in sections
    {
      && (forall i, j :: 0 <= i < j < |sections| ==> sections[i] != sections[j])
      && (forall s :: s in sections ==> s.Valid())
    }

    /** __construct($incompleteMessage, $antiSpamEnabled); n1 and n2 stand for the
        two mt_rand(1, 15) draws. */
    constructor(incompleteMessage: string, antiSpamEnabled: bool, n1: nat, n2: nat)
      requires antiSpamEnabled ==> 1 <= n1 <= 15 && 1 <= n2 <= 15
      ensures this.incompleteMessage == incompleteMessage
      ensures antiSpamEnabled ==>
        && spamQuestion == NatToString(n1) + " + " + NatToString(n2) + " = ?"
        && spamAnswer == Token.Expected(n1 + n2) && 2 <= n1 + n2 <= 30
      ensures !antiSpamEnabled ==> spamQuestion == "" && spamAnswer == Token.NoChallenge
      ensures antiSpamEnabled <==> spamQuestion != ""
      ensures sections == [] && header == "" && footer == "" && submitMethod == None && submitTarget == ""
      ensures Valid()
    {
      this.incompleteMessage := incompleteMessage;
      if antiSpamEnabled {
        spamQuestion := NatToString(n1) + " + " + NatToString(n2) + " = ?";
        spamAnswer := Token.Expected(n1 + n2);
      } else {
        spamQuestion := "";
        spamAnswer := Token.NoChallenge;
      }
      sections := [];
      header := "";
      footer := "";
      submitMethod := None;
      submitTarget := "";
    }

    /** showAntiSpam($section): adds the required, system-owned text input for the
        answer, titled with the question; an error when the form has no question. */
    method ShowAntiSpam(section: Section) returns (r: Outcome<FormError>)
      requires section.Valid()
      modifies section
      ensures section.Valid()
      ensures spamQuestion == "" ==> r == Fail(AntiSpamDisabled) && section.elements == old(section.elements)
      ensures spamQuestion != "" ==>
        && r == Pass
        && |section.elements| == |old(section.elements)| + 1
        && section.elements[..|old(section.elements)|] == old(section.elements)
        && Describes(section.elements[|old(section.elements)|], PREFIX + ANTI_SPAM, spamQuestion, true, InputText(""))
      ensures RequiredOf(section.elements)
           == RequiredOf(old(section.elements)) + (if spamQuestion != "" then [ANTI_SPAM] else [])
    {
      if spamQuestion == "" {
        return Fail(AntiSpamDisabled);
      }
      var added := section.AddInputTextInternal(ANTI_SPAM, spamQuestion, true, true);
      var e := added.value;
      assert section.elements[..|old(section.elements)|] == old(section.elements);
      RequiredOfAppend(old(section.elements), [e]);
      assert RequiredOf([e]) == [ANTI_SPAM] by {
        assert [e][..0] == [];
        UnprefixPrefixed(ANTI_SPAM);
      }
      return Pass;
    }

    /** setHeader($html). */
    method SetHeader(html: string)
      modifies this
      ensures header == html
      ensures sections == old(sections) && footer == old(footer)
      ensures submitMethod == old(submitMethod) && submitTarget == old(submitTarget)
    {
      header := html;
    }

    /** setFooter($html). */
    method SetFooter(html: string)
      modifies this
      ensures footer == html
      ensures sections == old(sections) && header == old(header)
      ensures submitMethod == old(submitMethod) && submitTarget == old(submitTarget)
    {
      footer := html;
    }

    /** setMethod($method). */
    method SetMethod(code: int)
      modifies this
      ensures submitMethod == Some(code)
      ensures sections == old(sections) && header == old(header) && footer == old(footer)
      ensures submitTarget == old(submitTarget)
    {
      submitMethod := Some(code);
    }

    /** setTarget($url). */
    method SetTarget(url: string)
      modifies this
      ensures submitTarget == url
      ensures sections == old(sections) && header == old(header) && footer == old(footer)
      ensures submitMethod == old(submitMethod)
    {
      submitTarget := url;
    }

    /** addSection($sectionTitle = ''): a new empty section at the end. */
    method AddSection(title: string := "") returns (s: Section)
      requires Valid()
      modifies this
      ensures Valid()
      ensures fresh(s) && s.title == title && s.elements == []
      ensures sections == old(sections) + [s]
      ensures header == old(header) && footer == old(footer)
      ensures submitMethod == old(submitMethod) && submitTarget == old(submitTarget)
    {
      s := new Section(title);
      sections := sections + [s];
    }

    /** getMethod(). */
    function GetMethod(): (r: Result<string, FormError>)
      reads this
      ensures r == MethodName(submitMethod)
    {
      MethodName(submitMethod)
    }

    /** getHTML(), without the markup: collects the required names, checks the submit
        method, then stores the token in a new hidden form_id field of the first
        section, and returns the token. */
    method GetHTML() returns (r: Result<string, FormError>)
      requires Valid()
      modifies set s | s in sections
      ensures Valid()
      ensures sections == old(sections)
      ensures MethodName(submitMethod).Err? ==>
        && r == Err(MethodName(submitMethod).error)
        && ElementLists(sections) == old(ElementLists(sections))
      ensures MethodName(submitMethod).Ok? && sections == [] ==> r == Err(NoSection)
      ensures MethodName(submitMethod).Ok? && sections != [] ==>
        && r == Ok(Token.Encode(Token.Payload(spamAnswer, old(RequiredNames(ElementLists(sections))))))
        && FirstGained(old(ElementLists(sections)), ElementLists(sections), r.value)
      ensures RequiredNames(ElementLists(sections)) == old(RequiredNames(ElementLists(sections)))
    {
      var names := CollectRequiredNames();
      var m := GetMethod();
      if m.Err? {
        return Err(m.error);
      }
      var token := Token.Encode(Token.Payload(spamAnswer, names));
      var stored := StoreToken(token);
      if !stored {
        return Err(NoSection);
      }
      return Ok(token);
    }

    /** The first loop of getHTML(): the required names, section by section. */
    method CollectRequiredNames() returns (names: seq<string>)
      ensures names == RequiredNames(ElementLists(sections))
    {
      ghost var lists := ElementLists(sections);
      names := [];
      var i := 0;
      while i < |sections|
        invariant 0 <= i <= |sections|
        invariant names == RequiredNames(lists[..i])
      {
        var elements := sections[i].GetElements();
        var j := 0;
        while j < |elements|
          invariant 0 <= j <= |elements|
          invariant names == RequiredNames(lists[..i]) + RequiredOf(elements[..j])
        {
          assert elements[..j + 1][..j] == elements[..j];
          assert RequiredOf(elements[..j + 1]) == RequiredOf(elements[..j])
            + (if elements[j].IsRequired() then [elements[j].GetName()] else []);
          if elements[j].IsRequired() {
            names := names + [elements[j].GetName()];
          }
          j := j + 1;
        }
        assert elements[..j] == elements == lists[i];
        assert lists[..i + 1][..i] == lists[..i];
        assert RequiredNames(lists[..i + 1]) == RequiredNames(lists[..i]) + RequiredOf(lists[i]);
        i := i + 1;
      }
      assert lists[..i] == lists;
    }

    /** The second loop of getHTML(): the token goes into a new hidden form_id field
        of the first section only; `stored` is false when there is no section. */
    method StoreToken(token: string) returns (stored: bool)
      requires Valid()
      modifies set s | s in sections
      ensures Valid()
      ensures stored <==> sections != []
      ensures stored ==> FirstGained(old(ElementLists(sections)), ElementLists(sections), token)
      ensures RequiredNames(ElementLists(sections)) == old(RequiredNames(ElementLists(sections)))
    {
      ghost var before := ElementLists(sections);
      var pending := true;
      var i := 0;
      while i < |sections|
        invariant 0 <= i <= |sections|
        invariant pending <==> i == 0
        invariant forall s :: s in sections ==> s.Valid()
        invariant pending ==> ElementLists(sections) == before
        invariant !pending ==> FirstGained(before, ElementLists(sections), token)
      {
        if pending {
          AddFirst(token);
          pending := false;
        }
        i := i + 1;
      }
      stored := !pending;
      if stored {
        RequiredNamesFirstGained(before, ElementLists(sections), token);
      }
    }

    /** The body of the second loop for the first section. */
    method AddFirst(token: string)
      requires Valid() && sections != []
      modifies sections[0]
      ensures Valid()
      ensures FirstGained(old(ElementLists(sections)), ElementLists(sections), token)
    {
      ghost var before := ElementLists(sections);
      var r := sections[0].AddInputHiddenInternal(FORM_ID, token, true);
      ghost var after := ElementLists(sections);
      assert after[0] == before[0] + [r.value];
      assert after[0][..|before[0]|] == before[0];
      forall k | 1 <= k < |before|
        ensures after[k] == before[k]
      {
        assert sections[k] != sections[0];
      }
    }
  }
}
