/** Sections (PHP_Forms_Section): groups of elements in the order they were added,
    and the list of required field names a form collects from them. */
module Sections {
  import opened Wrappers
  import opened Elements

  /** An element as the adders build it: the caller's name behind the prefix, and a
      hidden input or button is never required. */
  ghost predicate WellFormed(e: Element) {
    && |e.name| >= |PREFIX| && e.name[..|PREFIX|] == PREFIX
    && ((e.kind.InputHidden? || e.kind.InputSubmit?) ==> !e.required)
  }

  /** `e` has exactly the given name, title, required flag and kind. */
  ghost predicate Describes(e: Element, name: string, title: string, required: bool, kind: Kind) {
    e.name == name && e.title == title && e.required == required && e.kind == kind
  }

  class Section {
    const title: string
    var elements: seq<Element>

    ghost predicate Valid()
      reads this
    {
      forall e :: e in elements ==> WellFormed(e)
    }

    constructor(title: string)
      ensures this.title == title && elements == []
      ensures Valid()
    {
      this.title := title;
      elements := [];
    }

    /** getElements(). */
    function GetElements(): seq<Element>
      reads this
    {
      elements
    }

    /** Creates the element with the prefixed name and puts it at the end. */
    method Append(name: string, title: string, required: bool, kind: Kind) returns (e: Element)
      requires Valid()
      requires (kind.InputHidden? || kind.InputSubmit?) ==> !required
      modifies this
      ensures Valid()
      ensures fresh(e) && e.Valid() && e.optionNames == []
      ensures Describes(e, PREFIX + name, title, required, kind)
      ensures elements == old(elements) + [e]
    {
      e := new Element(PREFIX + name, title, required, kind);
      elements := elements + [e];
    }

    /** addSelect($name, $title, $is_required = false, $defaultValue = ''). */
    method AddSelect(name: string, title: string, required: bool := false, defaultValue: string := "")
      returns (r: Result<Element, FormError>)
      requires Valid()
      modifies this
      ensures Valid()
      ensures IsReserved(name) ==> r == Err(ReservedName(name)) && elements == old(elements)
      ensures !IsReserved(name) ==>
        && r.Ok? && fresh(r.value) && r.value.Valid() && r.value.optionNames == []
        && Describes(r.value, PREFIX + name, title, required, Select(defaultValue))
        && elements == old(elements) + [r.value]
    {
      if IsReserved(name) {
        return Err(ReservedName(name));
      }
      var e := Append(name, title, required, Select(defaultValue));
      return Ok(e);
    }

    /** addInputCheckboxGroup($name, $title, $is_required = false, $defaultValue = ''). */
    method AddInputCheckboxGroup(name: string, title: string, required: bool := false, defaultValue: string := "")
      returns (r: Result<Element, FormError>)
      requires Valid()
      modifies this
      ensures Valid()
      ensures IsReserved(name) ==> r == Err(ReservedName(name)) && elements == old(elements)
      ensures !IsReserved(name) ==>
        && r.Ok? && fresh(r.value) && r.value.Valid() && r.value.optionNames == []
        && Describes(r.value, PREFIX + name, title, required, CheckboxGroup(defaultValue))
        && elements == old(elements) + [r.value]
    {
      if IsReserved(name) {
        return Err(ReservedName(name));
      }
      var e := Append(name, title, required, CheckboxGroup(defaultValue));
      return Ok(e);
    }

    /** addInputRadioGroup($name, $title, $is_required = false, $defaultValue = ''). */
    method AddInputRadioGroup(name: string, title: string, required: bool := false, defaultValue: string := "")
      returns (r: Result<Element, FormError>)
      requires Valid()
      modifies this
      ensures Valid()
      ensures IsReserved(name) ==> r == Err(ReservedName(name)) && elements == old(elements)
      ensures !IsReserved(name) ==>
        && r.Ok? && fresh(r.value) && r.value.Valid() && r.value.optionNames == []
        && Describes(r.value, PREFIX + name, title, required, RadioGroup(defaultValue))
        && elements == old(elements) + [r.value]
    {
      if IsReserved(name) {
        return Err(ReservedName(name));
      }
      var e := Append(name, title, required, RadioGroup(defaultValue));
      return Ok(e);
    }

    /** addInputTextInternal($name, $title, $is_required, $is_system, $defaultValue = ''):
        the library itself may use the reserved names. */
    method AddInputTextInternal(name: string, title: string, required: bool, isSystem: bool, defaultValue: string := "")
      returns (r: Result<Element, FormError>)
      requires Valid()
      modifies this
      ensures Valid()
      ensures IsReserved(name) && !isSystem ==> r == Err(ReservedName(name)) && elements == old(elements)
      ensures !(IsReserved(name) && !isSystem) ==>
        && r.Ok? && fresh(r.value) && r.value.Valid()
        && Describes(r.value, PREFIX + name, title, required, InputText(defaultValue))
        && elements == old(elements) + [r.value]
    {
      if IsReserved(name) && !isSystem {
        return Err(ReservedName(name));
      }
      var e := Append(name, title, required, InputText(defaultValue));
      return Ok(e);
    }

    /** addInputText($name, $title, $is_required = false, $defaultValue = ''). */
    method AddInputText(name: string, title: string, required: bool := false, defaultValue: string := "")
      returns (r: Result<Element, FormError>)
      requires Valid()
      modifies this
      ensures Valid()
      ensures IsReserved(name) ==> r == Err(ReservedName(name)) && elements == old(elements)
      ensures !IsReserved(name) ==>
        && r.Ok? && fresh(r.value) && r.value.Valid()
        && Describes(r.value, PREFIX + name, title, required, InputText(defaultValue))
        && elements == old(elements) + [r.value]
    {
      r := AddInputTextInternal(name, title, required, false, defaultValue);
    }

    /** addInputHiddenInternal($name, $value, $is_system): never required, no title. */
    method AddInputHiddenInternal(name: string, value: string, isSystem: bool)
      returns (r: Result<Element, FormError>)
      requires Valid()
      modifies this
      ensures Valid()
      ensures IsReserved(name) && !isSystem ==> r == Err(ReservedName(name)) && elements == old(elements)
      ensures !(IsReserved(name) && !isSystem) ==>
        && r.Ok? && fresh(r.value) && r.value.Valid()
        && Describes(r.value, PREFIX + name, "", false, InputHidden(value))
        && elements == old(elements) + [r.value]
    {
      if IsReserved(name) && !isSystem {
        return Err(ReservedName(name));
      }
      var e := Append(name, "", false, InputHidden(value));
      return Ok(e);
    }

    /** addInputHidden($name, $value). */
    method AddInputHidden(name: string, value: string)
      returns (r: Result<Element, FormError>)
      requires Valid()
      modifies this
      ensures Valid()
      ensures IsReserved(name) ==> r == Err(ReservedName(name)) && elements == old(elements)
      ensures !IsReserved(name) ==>
        && r.Ok? && fresh(r.value) && r.value.Valid()
        && Describes(r.value, PREFIX + name, "", false, InputHidden(value))
        && elements == old(elements) + [r.value]
    {
      r := AddInputHiddenInternal(name, value, false);
    }

    /** addTextarea($name, $title, $is_required = false, $size = 0, $defaultValue = ''). */
    method AddTextarea(name: string, title: string, required: bool := false, size: int := 0, defaultValue: string := "")
      returns (r: Result<Element, FormError>)
      requires Valid()
      modifies this
      ensures Valid()
      ensures IsReserved(name) ==> r == Err(ReservedName(name)) && elements == old(elements)
      ensures !IsReserved(name) ==>
        && r.Ok? && fresh(r.value) && r.value.Valid()
        && Describes(r.value, PREFIX + name, title, required, Textarea(size, defaultValue))
        && elements == old(elements) + [r.value]
    {
      if IsReserved(name) {
        return Err(ReservedName(name));
      }
      var e := Append(name, title, required, Textarea(size, defaultValue));
      return Ok(e);
    }

    /** addInputSubmit($title, $name = 'submit_button', $align_left = false): the
        title becomes the button text; the element itself has none and is never
        required. */
    method AddInputSubmit(title: string, name: string := "submit_button", alignLeft: bool := false)
      returns (r: Result<Element, FormError>)
      requires Valid()
      modifies this
      ensures Valid()
      ensures IsReserved(name) ==> r == Err(ReservedName(name)) && elements == old(elements)
      ensures !IsReserved(name) ==>
        && r.Ok? && fresh(r.value) && r.value.Valid()
        && Describes(r.value, PREFIX + name, "", false, InputSubmit(title, alignLeft))
        && elements == old(elements) + [r.value]
    {
      if IsReserved(name) {
        return Err(ReservedName(name));
      }
      var e := Append(name, "", false, InputSubmit(title, alignLeft));
      return Ok(e);
    }
  }

  // ---------------------------------------------------------------------------
  // Required field names
  // ---------------------------------------------------------------------------

  /** The unprefixed names of the required elements of `es`, in order. */
  function RequiredOf(es: seq<Element>): seq<string> {
    if es == [] then []
    else
      var e := es[|es| - 1];
      RequiredOf(es[..|es| - 1]) + (if e.IsRequired() then [e.GetName()] else [])
  }

  /** A name is listed exactly when some required element carries it. */
  lemma {:induction false} RequiredOfMember(es: seq<Element>, x: string)
    ensures x in RequiredOf(es) <==> exists e :: e in es && e.required && e.GetName() == x
  {
    if es != [] {
      var init, e := es[..|es| - 1], es[|es| - 1];
      RequiredOfMember(init, x);
      assert es == init + [e];
      if x in RequiredOf(init) {
        var d :| d in init && d.required && d.GetName() == x;
        assert d in es;
      }
    }
  }

  /** The names of a concatenation are the names of its parts, in order. */
  lemma {:induction false} RequiredOfAppend(es: seq<Element>, fs: seq<Element>)
    ensures RequiredOf(es + fs) == RequiredOf(es) + RequiredOf(fs)
    decreases |fs|
  {
    if fs != [] {
      var init := fs[..|fs| - 1];
      assert (es + fs)[..|es + fs| - 1] == es + init;
      RequiredOfAppend(es, init);
    } else {
      assert es + fs == es;
    }
  }

  /** Elements none of which is required contribute no name. */
  lemma {:induction false} RequiredOfNone(es: seq<Element>)
    requires forall e :: e in es ==> !e.required
    ensures RequiredOf(es) == []
  {
    if es != [] {
      RequiredOfNone(es[..|es| - 1]);
    }
  }

  /** Every listed name belongs to a required element that is neither a hidden
      input nor a button, when the elements were built by the adders. */
  lemma RequiredOfWellFormed(es: seq<Element>, x: string)
    requires forall e :: e in es ==> WellFormed(e)
    requires x in RequiredOf(es)
    ensures exists e :: e in es && e.required && !e.kind.InputHidden? && !e.kind.InputSubmit? && e.GetName() == x
  {
    RequiredOfMember(es, x);
  }
}
