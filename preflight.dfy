/** The browser-side check PHP_Forms_isComplete(form, error_message), run when a form
    is submitted: every field whose class list has the word "required" must hold a
    non-blank value, and every required checkbox or radio group must have at least
    one option checked. */
module Preflight {
  import opened Wrappers
  import opened Text

  /** The properties of a form control the check reads. `kind` is the control's
      `type` and `value` its `value`, each None where the control has none. */
  datatype DomElement = DomElement(
    className: string,
    kind: Option<string>,
    name: string,
    value: Option<string>,
    checked: bool)

  /** The control carries the class "required". */
  predicate IsRequiredField(e: DomElement) {
    HasClassWord(e.className, "required")
  }

  /** A checkbox or a radio button: one checked option of the group is enough. */
  predicate IsGroupMember(e: DomElement) {
    e.kind == Some("checkbox") || e.kind == Some("radio")
  }

  /** A required checkbox or radio button. */
  predicate IsRequiredOption(e: DomElement) {
    IsRequiredField(e) && IsGroupMember(e)
  }

  /** A required control outside any group whose value is empty or whitespace. */
  predicate IsBlankField(e: DomElement) {
    IsRequiredField(e) && !IsGroupMember(e) && e.value.Some? && IsJsBlank(e.value.value)
  }

  /** Some required option of group `g` occurs among `es`. */
  ghost predicate GroupListed(es: seq<DomElement>, g: string) {
    exists k :: 0 <= k < |es| && IsRequiredOption(es[k]) && es[k].name == g
  }

  /** Some required option of group `g` is checked. */
  ghost predicate GroupSatisfied(es: seq<DomElement>, g: string) {
    exists k :: 0 <= k < |es| && IsRequiredOption(es[k]) && es[k].name == g && es[k].checked
  }

  /** The number of checked required options of group `g`. */
  function CheckedCount(es: seq<DomElement>, g: string): nat {
    if es == [] then 0
    else
      var e := es[|es| - 1];
      CheckedCount(es[..|es| - 1], g) + (if IsRequiredOption(e) && e.name == g && e.checked then 1 else 0)
  }

  /** A group's count is positive exactly when one of its required options is checked. */
  lemma {:induction false} CheckedCountPositive(es: seq<DomElement>, g: string)
    ensures CheckedCount(es, g) > 0 <==> GroupSatisfied(es, g)
  {
    if es != [] {
      var init := es[..|es| - 1];
      CheckedCountPositive(init, g);
      if GroupSatisfied(init, g) {
        var k :| 0 <= k < |init| && IsRequiredOption(init[k]) && init[k].name == g && init[k].checked;
        assert es[k] == init[k];
      }
      if GroupSatisfied(es, g) {
        var k :| 0 <= k < |es| && IsRequiredOption(es[k]) && es[k].name == g && es[k].checked;
        if k < |init| {
          assert init[k] == es[k];
        }
      }
    }
  }

  /** What the check accepts: no required field is blank, and every required group
      has a checked option. */
  ghost predicate Complete(es: seq<DomElement>) {
    && (forall k :: 0 <= k < |es| ==> !IsBlankField(es[k]))
    && (forall k :: 0 <= k < |es| && IsRequiredOption(es[k]) ==> GroupSatisfied(es, es[k].name))
  }

  /** PHP_Forms_isComplete(form, error_message). `form` and `errorMessage` are None
      when undefined; the elements are the form's controls in document order.
      `alerted` tells whether the message was shown. */
  method IsComplete(form: Option<seq<DomElement>>, errorMessage: Option<string>)
    returns (complete: bool, alerted: bool)
    ensures form.None? || errorMessage.None? ==> complete && !alerted
    ensures form.Some? && errorMessage.Some? ==>
      && complete == Complete(form.value)
      && alerted == (!complete && errorMessage.value != "")
  {
    if form.None? || errorMessage.None? {
      return true, false;
    }
    var es, message := form.value, errorMessage.value;
    var counts: map<string, nat> := map[];
    var groups: seq<string> := [];
    var i := 0;
    while i < |es|
      invariant 0 <= i <= |es|
      invariant forall k :: 0 <= k < i ==> !IsBlankField(es[k])
      invariant Tally(es[..i], counts, groups)
    {
      var blank;
      counts, groups, blank := VisitElement(es, i, counts, groups);
      if blank {
        alerted := message != "";
        BlankIncomplete(es, i);
        return false, alerted;
      }
      i := i + 1;
    }
    assert es[..i] == es;
    var empty := FindEmptyGroup(counts, groups);
    if empty.Some? {
      alerted := message != "";
      IncompleteGroup(es, counts, groups, empty.value);
      return false, alerted;
    }
    AllGroupsSatisfied(es, counts, groups);
    return true, false;
  }

  /** The second loop: the first group, in order, whose count is zero. */
  method FindEmptyGroup(counts: map<string, nat>, groups: seq<string>) returns (empty: Option<string>)
    requires forall g :: g in groups ==> g in counts
    ensures empty.Some? ==> empty.value in groups && counts[empty.value] == 0
    ensures empty.None? ==> forall t :: 0 <= t < |groups| ==> counts[groups[t]] > 0
  {
    var j := 0;
    while j < |groups|
      invariant 0 <= j <= |groups|
      invariant forall t :: 0 <= t < j ==> counts[groups[t]] > 0
    {
      if counts[groups[j]] == 0 {
        return Some(groups[j]);
      }
      j := j + 1;
    }
    return None;
  }

  /** `counts` and `groups` describe the elements `es` seen so far: the groups with a
      required option, in order of first appearance, and how many are checked. */
  ghost predicate Tally(es: seq<DomElement>, counts: map<string, nat>, groups: seq<string>) {
    && (forall g :: g in counts <==> g in groups)
    && (forall g :: g in counts <==> GroupListed(es, g))
    && (forall g :: g in counts ==> counts[g] == CheckedCount(es, g))
  }

  /** What the first loop does with one element. */
  function Visit(counts: map<string, nat>, groups: seq<string>, e: DomElement)
    : (map<string, nat>, seq<string>)
  {
    if !IsRequiredOption(e) then (counts, groups)
    else
      var c := if e.name in counts then counts else counts[e.name := 0];
      var gs := if e.name in counts then groups else groups + [e.name];
      (if e.checked then c[e.name := c[e.name] + 1] else c, gs)
  }

  /** The body of the first loop: a required checkbox or radio button is counted
      for its group; for any other required control with a value, `blank` tells
      whether that value is empty or whitespace. */
  method VisitElement(es: seq<DomElement>, i: nat, counts: map<string, nat>, groups: seq<string>)
    returns (counts': map<string, nat>, groups': seq<string>, blank: bool)
    requires i < |es| && Tally(es[..i], counts, groups)
    ensures blank == IsBlankField(es[i])
    ensures Tally(es[..i + 1], counts', groups')
  {
    var e := es[i];
    TallyStep(es, i, counts, groups);
    counts', groups', blank := counts, groups, false;
    if IsRequiredField(e) {
      if IsGroupMember(e) {
        counts', groups' := CountOption(counts, groups, e);
      } else if e.value.Some? {
        blank := IsJsBlank(e.value.value);
      }
    }
  }

  /** The body of the first loop for a required checkbox or radio button: its group
      is registered with count 0 when first seen, and the count goes up by one when
      the option is checked. */
  method CountOption(counts: map<string, nat>, groups: seq<string>, e: DomElement)
    returns (counts': map<string, nat>, groups': seq<string>)
    requires IsRequiredOption(e)
    ensures counts' == Visit(counts, groups, e).0 && groups' == Visit(counts, groups, e).1
  {
    counts', groups' := counts, groups;
    if e.name !in counts' {
      counts' := counts'[e.name := 0];
      groups' := groups' + [e.name];
    }
    if e.checked {
      counts' := counts'[e.name := counts'[e.name] + 1];
    }
  }

  /** Visiting the next element keeps the tally up to date. */
  lemma TallyStep(es: seq<DomElement>, i: nat, counts: map<string, nat>, groups: seq<string>)
    requires i < |es| && Tally(es[..i], counts, groups)
    ensures Tally(es[..i + 1], Visit(counts, groups, es[i]).0, Visit(counts, groups, es[i]).1)
  {
    var c, gs := Visit(counts, groups, es[i]).0, Visit(counts, groups, es[i]).1;
    forall g
      ensures g in c <==> GroupListed(es[..i + 1], g)
      ensures g in c ==> c[g] == CheckedCount(es[..i + 1], g)
    {
      ListedStep(es, i, g);
      CountStep(es, i, g);
      if g !in counts {
        CheckedCountPositive(es[..i], g);
      }
    }
  }

  /** One more element extends the listed groups by its own group, if it is a
      required option. */
  lemma ListedStep(es: seq<DomElement>, i: nat, g: string)
    requires i < |es|
    ensures GroupListed(es[..i + 1], g)
        <==> (GroupListed(es[..i], g) || (IsRequiredOption(es[i]) && es[i].name == g))
  {
    if GroupListed(es[..i + 1], g) {
      var k :| 0 <= k < i + 1 && IsRequiredOption(es[..i + 1][k]) && es[..i + 1][k].name == g;
      if k < i {
        assert es[..i][k] == es[k];
      }
    }
    if GroupListed(es[..i], g) {
      var k :| 0 <= k < i && IsRequiredOption(es[..i][k]) && es[..i][k].name == g;
      assert es[..i + 1][k] == es[k];
    }
    if IsRequiredOption(es[i]) && es[i].name == g {
      assert es[..i + 1][i] == es[i];
    }
  }

  /** One more element adds one to its group's count when it is a checked required
      option. */
  lemma CountStep(es: seq<DomElement>, i: nat, g: string)
    requires i < |es|
    ensures CheckedCount(es[..i + 1], g)
        == CheckedCount(es[..i], g) + (if IsRequiredOption(es[i]) && es[i].name == g && es[i].checked then 1 else 0)
  {
    assert es[..i + 1][..i] == es[..i];
  }

  /** A required field left blank makes the form incomplete. */
  lemma BlankIncomplete(es: seq<DomElement>, i: nat)
    requires i < |es| && IsBlankField(es[i])
    ensures !Complete(es)
  {
  }

  /** A group the tally lists with a count of zero makes the form incomplete. */
  lemma IncompleteGroup(es: seq<DomElement>, counts: map<string, nat>, groups: seq<string>, g: string)
    requires Tally(es, counts, groups)
    requires g in groups && counts[g] == 0
    ensures !Complete(es)
  {
    assert GroupListed(es, g);
    var k :| 0 <= k < |es| && IsRequiredOption(es[k]) && es[k].name == g;
    CheckedCountPositive(es, g);
  }

  /** When no required field is blank and every group in the tally has a checked
      option, the form is complete. */
  lemma AllGroupsSatisfied(es: seq<DomElement>, counts: map<string, nat>, groups: seq<string>)
    requires forall k :: 0 <= k < |es| ==> !IsBlankField(es[k])
    requires Tally(es, counts, groups)
    requires forall t :: 0 <= t < |groups| ==> counts[groups[t]] > 0
    ensures Complete(es)
  {
    forall k | 0 <= k < |es| && IsRequiredOption(es[k])
      ensures GroupSatisfied(es, es[k].name)
    {
      var g := es[k].name;
      assert GroupListed(es, g);
      var t :| 0 <= t < |groups| && groups[t] == g;
      CheckedCountPositive(es, g);
    }
  }

  /** A control without the class "required" has no influence on the outcome:
      removing it from anywhere in the form changes nothing. */
  lemma NotRequiredIrrelevant(a: seq<DomElement>, e: DomElement, b: seq<DomElement>)
    requires !IsRequiredField(e)
    ensures Complete(a + [e] + b) <==> Complete(a + b)
  {
    if Complete(a + b) {
      CompleteWith(a, e, b);
    }
    if Complete(a + [e] + b) {
      CompleteWithout(a, e, b);
    }
  }

  /** Index `k` of `a + b` is index `k` or `k + 1` of `a + [e] + b`. */
  lemma SkipIndex(a: seq<DomElement>, e: DomElement, b: seq<DomElement>, k: nat)
    requires k < |a| + |b|
    ensures (a + b)[k] == (a + [e] + b)[if k < |a| then k else k + 1]
  {
  }

  /** The control does not change which groups have a checked required option. */
  lemma SatisfiedWithout(a: seq<DomElement>, e: DomElement, b: seq<DomElement>, g: string)
    requires !IsRequiredField(e)
    ensures GroupSatisfied(a + [e] + b, g) <==> GroupSatisfied(a + b, g)
  {
    var full, rest := a + [e] + b, a + b;
    if GroupSatisfied(full, g) {
      var k :| 0 <= k < |full| && IsRequiredOption(full[k]) && full[k].name == g && full[k].checked;
      assert k != |a| by {
        assert full[|a|] == e;
      }
      var k' := if k < |a| then k else k - 1;
      SkipIndex(a, e, b, k');
    }
    if GroupSatisfied(rest, g) {
      var k :| 0 <= k < |rest| && IsRequiredOption(rest[k]) && rest[k].name == g && rest[k].checked;
      SkipIndex(a, e, b, k);
    }
  }

  /** Adding the control to a complete form keeps it complete. */
  lemma CompleteWith(a: seq<DomElement>, e: DomElement, b: seq<DomElement>)
    requires !IsRequiredField(e) && Complete(a + b)
    ensures Complete(a + [e] + b)
  {
    var full, rest := a + [e] + b, a + b;
    forall k | 0 <= k < |full|
      ensures !IsBlankField(full[k])
      ensures IsRequiredOption(full[k]) ==> GroupSatisfied(full, full[k].name)
    {
      if k == |a| {
        assert full[k] == e;
      } else {
        var k' := if k < |a| then k else k - 1;
        SkipIndex(a, e, b, k');
        SatisfiedWithout(a, e, b, full[k].name);
      }
    }
  }

  /** Removing the control from a complete form keeps it complete. */
  lemma CompleteWithout(a: seq<DomElement>, e: DomElement, b: seq<DomElement>)
    requires !IsRequiredField(e) && Complete(a + [e] + b)
    ensures Complete(a + b)
  {
    var full, rest := a + [e] + b, a + b;
    forall k | 0 <= k < |rest|
      ensures !IsBlankField(rest[k])
      ensures IsRequiredOption(rest[k]) ==> GroupSatisfied(rest, rest[k].name)
    {
      SkipIndex(a, e, b, k);
      SatisfiedWithout(a, e, b, rest[k].name);
    }
  }
}
