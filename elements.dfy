/** Form elements (PHP_Forms_Element and its subclasses): a prefixed name, a display
    title, a required flag fixed at construction, and, for drop-down lists and
    checkbox and radio groups, an insertion-ordered list of options. */
module Elements {
  import opened Text

  /** The prefix of every field name, against collisions with other components. */
  const PREFIX: string := "PHP_Forms_"

  /** The field holding the validation token. */
  const FORM_ID: string := "form_id"

  /** The field where the visitor types the anti-spam answer. */
  const ANTI_SPAM: string := "anti_spam"

  /** The two names callers may not use for their own elements. */
  predicate IsReserved(name: string) {
    name == ANTI_SPAM || name == FORM_ID
  }

  /** The exceptions the form builder throws. */
  datatype FormError =
    | ReservedName(name: string)
    | AntiSpamDisabled
    | UnknownSubmitMethod(code: int)
    | NoSection

  /** The concrete element classes, with what each stores beyond name, title and
      required flag. */
  datatype Kind =
    | Select(defaultValue: string)
    | CheckboxGroup(defaultValue: string)
    | RadioGroup(defaultValue: string)
    | InputText(defaultValue: string)
    | InputHidden(value: string)
    | Textarea(size: int, defaultValue: string)
    | InputSubmit(buttonText: string, alignLeft: bool)
  {
    /** The classes that have addOption(). */
    predicate HasOptions() {
      Select? || CheckboxGroup? || RadioGroup?
    }
  }

  // ---------------------------------------------------------------------------
  // Names
  // ---------------------------------------------------------------------------

  /** mb_substr($name, mb_strlen(PREFIX)): the name without its first |PREFIX|
      characters, or the empty string when it is not that long. */
  function Unprefix(s: string): (r: string)
    ensures |s| >= |PREFIX| ==> s == s[..|PREFIX|] + r
    ensures |s| < |PREFIX| ==> r == ""
  {
    if |s| >= |PREFIX| then s[|PREFIX|..] else ""
  }

  /** Removing the prefix from a prefixed name gives the name the caller chose. */
  lemma UnprefixPrefixed(name: string)
    ensures Unprefix(PREFIX + name) == name
  {
    assert (PREFIX + name)[|PREFIX|..] == name;
  }

  // ---------------------------------------------------------------------------
  // Options: an insertion-ordered map, like a PHP array with string keys
  // ---------------------------------------------------------------------------

  /** `keys` lists the keys of `titles`, each once, in insertion order. */
  ghost predicate OrderedMap(keys: seq<string>, titles: map<string, string>) {
    && (forall k :: k in titles <==> k in keys)
    && (forall i, j :: 0 <= i < j < |keys| ==> keys[i] != keys[j])
  }

  /** addOption($title, $name = ''): the option name defaults to its title. */
  function OptionKey(title: string, name: string): (key: string)
    ensures name != "" ==> key == name
    ensures name == "" ==> key == title
  {
    if name == "" then title else name
  }

  /** $options[$key] = $title on an ordered map: a new key goes to the end, an
      existing key keeps its place and gets the new title. */
  function PutOption(keys: seq<string>, titles: map<string, string>, key: string, title: string)
    : (r: (seq<string>, map<string, string>))
  {
    (if key in titles then keys else keys + [key], titles[key := title])
  }

  /** Putting an option keeps the key list and the map in step. */
  lemma PutOptionOrdered(keys: seq<string>, titles: map<string, string>, key: string, title: string)
    requires OrderedMap(keys, titles)
    ensures var (keys', titles') := PutOption(keys, titles, key, title); OrderedMap(keys', titles')
  {
  }

  /** After putting an option, its key maps to the new title, every other option is
      unchanged, the earlier keys keep their order at the front, and the key list
      grows by one exactly when the key is new. */
  lemma PutOptionEffect(keys: seq<string>, titles: map<string, string>, key: string, title: string)
    requires OrderedMap(keys, titles)
    ensures var (keys', titles') := PutOption(keys, titles, key, title);
      && key in titles' && titles'[key] == title
      && (forall k :: k != key ==> (k in titles' <==> k in titles))
      && (forall k :: k != key && k in titles ==> titles'[k] == titles[k])
      && keys'[..|keys|] == keys
      && |keys'| == (if key in titles then |keys| else |keys| + 1)
  {
  }

  // ---------------------------------------------------------------------------
  // Elements
  // ---------------------------------------------------------------------------

  class Element {
    /** The full field name, PREFIX included. */
    const name: string
    const title: string
    const required: bool
    const kind: Kind
    /** Option names in insertion order, and the title of each. */
    var optionNames: seq<string>
    var optionTitles: map<string, string>

    ghost predicate Valid()
      reads this
    {
      OrderedMap(optionNames, optionTitles)
    }

    constructor(name: string, title: string, required: bool, kind: Kind)
      ensures this.name == name && this.title == title && this.required == required && this.kind == kind
      ensures optionNames == [] && optionTitles == map[]
      ensures Valid()
    {
      this.name := name;
      this.title := title;
      this.required := required;
      this.kind := kind;
      optionNames := [];
      optionTitles := map[];
    }

    /** getName($includePrefix = false). */
    function GetName(includePrefix: bool := false): (r: string)
      ensures includePrefix ==> r == name
      ensures !includePrefix && |name| >= |PREFIX| ==> name == name[..|PREFIX|] + r
    {
      if includePrefix then name else Unprefix(name)
    }

    /** isRequired(). */
    function IsRequired(): bool {
      required
    }

    /** addOption($title, $name = '') of a drop-down list, checkbox group or radio group. */
    method AddOption(title: string, name: string := "")
      requires Valid() && kind.HasOptions()
      modifies this
      ensures Valid()
      ensures (optionNames, optionTitles)
           == PutOption(old(optionNames), old(optionTitles), OptionKey(title, name), title)
    {
      var key := OptionKey(title, name);
      PutOptionOrdered(optionNames, optionTitles, key, title);
      optionNames, optionTitles := PutOption(optionNames, optionTitles, key, title).0,
                                   PutOption(optionNames, optionTitles, key, title).1;
    }
  }

  // ---------------------------------------------------------------------------
  // The class attribute the markup gives an element
  // ---------------------------------------------------------------------------

  /** PHP_Forms_Textarea::getSizeClass(): SIZE_LARGE (2) is "large", SIZE_MEDIUM (1)
      is "medium", any other size "small". */
  function SizeClass(size: int): (r: string)
    ensures r == "large" <==> size == 2
    ensures r == "medium" <==> size == 1
    ensures r == "small" <==> size != 1 && size != 2
  {
    if size == 2 then "large"
    else if size == 1 then "medium"
    else "small"
  }

  /** The class attribute of an element's input: "required" on required drop-down
      lists, checkboxes, radios and text inputs; the size class, followed by
      " required" when required, on a textarea; none on hidden inputs and buttons. */
  function ClassAttribute(kind: Kind, required: bool): string {
    match kind
    case Textarea(size, _) => SizeClass(size) + (if required then " required" else "")
    case InputHidden(_) => ""
    case InputSubmit(_, _) => ""
    case _ => if required then "required" else ""
  }

  /** The browser check finds the word "required" in an element's class attribute
      exactly when the element is required and is not a hidden input or a button. */
  lemma ClassAttributeRequired(kind: Kind, required: bool)
    ensures HasClassWord(ClassAttribute(kind, required), "required")
        <==> required && !kind.InputHidden? && !kind.InputSubmit?
  {
    var cls := ClassAttribute(kind, required);
    HasClassWordIff(cls, "required");
    if kind.Textarea? {
      var size := SizeClass(kind.size);
      assert |size| <= 6;
      if required {
        assert WordAt(cls, "required", |size| + 1) by {
          assert cls == size + " required";
          assert cls[|size| + 1..|size| + 9] == "required";
        }
      }
    } else if required && !kind.InputHidden? && !kind.InputSubmit? {
      assert WordAt(cls, "required", 0);
    }
  }
}
