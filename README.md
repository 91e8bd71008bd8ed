# PHP_Forms in Dafny

PHP_Forms builds HTML forms out of sections and elements. It checks the submitted
data twice: in the browser before sending, and on the server when the data
arrives. The two checks agree through a *validation token*, a hidden `form_id` field
that `getHTML()` adds to the first section. The token is
`base64_encode(json_encode([answer, requiredNames]))`. It carries:

- the anti-spam answer, which is the sum of two random operands in 1..15, or `''`
  when the form has no anti-spam question;
- the unprefixed names of the required elements, in section-then-element order.

`Response_isValid()` decodes the token from the request. It compares the trimmed
`anti_spam` field with the answer, then rejects the submission at the first
required field that is missing or empty after trimming. `PHP_Forms_isComplete()`
in the browser checks that no required field is blank and that every required
checkbox or radio group has a checked option. `PHP_Forms_Mail` assembles the
arguments of PHP's `mail()`.

The model has one module per concern:

| module | file | models |
|---|---|---|
| `Wrappers` | wrappers.dfy | `Option`, `Result` and `Outcome` (a method that may throw and otherwise returns nothing) |
| `Text` | text.dfy | PHP `trim()`, `implode()`, decimal numbers; the JavaScript `\s` class and the `/(^\|\s)required(\s\|$)/` test |
| `Base64` | base64.dfy | `base64_encode()` (RFC 4648, section 4) and a strict decoder |
| `Json` | json.dfy | `json_encode()` of strings, string arrays and non-negative integers with PHP's default escaping (RFC 8259, sections 6 and 7), and the reader for it |
| `Token` | token.dfy | the token: `[answer, names]` as JSON inside base64 |
| `Elements` | elements.dfy | `PHP_Forms_Element` and its subclasses as one `Element` class; `addOption`, `getName`, `getSizeClass`, the class attribute the markup writes |
| `Sections` | sections.dfy | `PHP_Forms_Section` and its adders; the required names of a section |
| `Forms` | forms.dfy | `PHP_Forms`: the constructor, `showAntiSpam`, the setters, `addSection`, `getMethod`, and `getHTML`'s two loops |
| `Response` | response.dfy | `hasResponse`, `Response_getString`, `Response_getInt`, `Response_isValid` |
| `Preflight` | preflight.dfy | `PHP_Forms_isComplete` from PHP_Forms.js |
| `Mailing` | mail.dfy | `PHP_Forms_Mail` |

Objects that the PHP code changes in place are Dafny classes: `Form`, `Section`,
`Element` and `Mail`. Their methods carry `modifies` clauses and state the whole new
state. Where the source loops, the model loops too, with invariants:

- `getHTML`'s scan over sections and elements is `CollectRequiredNames`;
- its token placement with the "not yet used" sentinel is `StoreToken`;
- `Response_isValid`'s loop over the required names is `CheckFilled`;
- the browser check's two loops are `IsComplete`, `VisitElement` and `FindEmptyGroup`.

Each loop method is proved against a specification function (`RequiredNames`,
`FirstGained`, `Accepts`, `Complete`), and the lemmas state what the source
promises about those functions.

Inputs that the code reads from its environment become parameters:

- `$_REQUEST`, `$_GET` and `$_POST` become `map<string, string>` arguments;
- the two `mt_rand(1, 15)` draws become the constructor's `n1` and `n2`;
- the DOM form becomes a sequence of `DomElement` records;
- `alert()` becomes a returned flag.

Exceptions become `Err`/`Fail` values that name the exception.

Three places where the model follows the code or PHP 8 rather than a simpler reading:

- `getMethod()` compares an unset `submit_method` (`null`) with `METHOD_POST` (0) and
  finds them equal. A form whose method was never set therefore renders as `post`,
  and `MethodName(None)` is `Ok("post")`.
- The answer in the token is a JSON integer. `Response_isValid()` compares it with
  the submitted string using `!=`. Under PHP 8 a string of decimal digits equals the
  integer it denotes, so `"011"` is accepted for 11. `AnswerMatches` states exactly
  that comparison.
- The required names in the token are the names without the prefix (`getName()`),
  and `Response_getString()` adds the prefix again.

## Model

| member | source | states |
|---|---|---|
| Text.TrimLeftSpec | source/PHP_Forms.php:121 | trim() removes only space, tab, LF, CR, NUL and vertical tab from the front, and what is left does not start with one |
| Text.TrimRightSpec | source/PHP_Forms.php:121 | the same at the back: only trimmable characters are removed, and what is left does not end with one |
| Text.TrimEmptyIff | source/PHP_Forms.php:120-122 | a trimmed value is empty exactly when the raw value consists of trimmable characters only |
| Text.TrimIdempotent | source/PHP_Forms.php:120-122 | trimming a trimmed value changes nothing |
| Text.TrimEdges | source/PHP_Forms.php:120-122 | neither end of a trimmed value is trimmable |
| Text.TrimNoEdges | source/PHP_Forms.php:120-122 | a value without a trimmable character at either end survives trim() unchanged |
| Text.WordFromIff | source/PHP_Forms.js:4 | the left-to-right scan succeeds exactly when the word occurs at or after the start index, delimited by whitespace or an end |
| Text.HasClassWordIff | source/PHP_Forms.js:8 | `/(^\|\s)required(\s\|$)/.test(className)` holds exactly when "required" is a whitespace-delimited word of the class list |
| Text.JoinAppend | source/PHP_Forms.php:752-754 | implode() of one more part is the old result, the separator and the part |
| Text.SplitJoin | source/PHP_Forms.php:752-754 | splitting implode()'s result at the separator gives back the parts, when no part contains the separator |
| Text.NatToString | source/PHP_Forms.php:50 | an operand written into the question is a non-empty string of decimal digits, with no leading zero unless it is "0" |
| Text.DigitsValueOfNatToString | source/PHP_Forms.php:50-51 | the decimal text of a number reads back as that number |
| Base64.CharOf | source/PHP_Forms.php:201 | each 6-bit value has an alphabet character that decodes back to it |
| Base64.EncodedChars | source/PHP_Forms.php:201 | base64_encode() writes only alphabet characters and '=' |
| Base64.EncodeNonEmpty | source/PHP_Forms.php:201 | a non-empty input encodes to a non-empty text |
| Base64.RoundTrip | source/PHP_Forms.php:96 | base64_decode(base64_encode(bytes)) gives back the bytes |
| Json.Hex4RoundTrip | source/PHP_Forms.php:96 | a `\uXXXX` escape reads back as the UTF-16 code unit written into it |
| Json.EscapeCharRoundTrip | source/PHP_Forms.php:201 | every character, however json_encode() escapes it, is read back as itself, and the rest of the text is left for the reader |
| Json.StringBodyRoundTrip | source/PHP_Forms.php:201 | the escaped body of any string, followed by the closing quote, reads back as that string |
| Json.StringArrayRoundTrip | source/PHP_Forms.php:201 | json_encode() of a list of names reads back as the same names in the same order |
| Json.StringArrayAscii | source/PHP_Forms.php:201 | json_encode() of a list of names is ASCII: everything outside ASCII is written as `\u` escapes |
| Json.NatRoundTrip | source/PHP_Forms.php:201 | a JSON integer reads back as the number, when a non-digit follows |
| Json.LeadingDigits | source/PHP_Forms.php:128 | the digit prefix a number reader consumes: all digits, and stopping before the first non-digit |
| Token.ToJsonAscii | source/PHP_Forms.php:201 | the JSON text of a token is ASCII, so its UTF-8 bytes are its characters |
| Token.BytesRoundTrip | source/PHP_Forms.php:201 | turning ASCII text into bytes and back gives the text |
| Token.AnswerRoundTrip | source/PHP_Forms.php:186 | the answer, an integer or `""`, reads back from the text json_encode() writes for it |
| Token.JsonRoundTrip | source/PHP_Forms.php:96 | json_decode() of json_encode([answer, names]) gives back the answer and the names |
| Token.RoundTrip | source/PHP_Forms.php:96 | decoding a token gives back exactly the answer and the required names, in order, that went into it |
| Token.EncodeTrimmed | source/PHP_Forms.php:95 | a token is non-empty and survives the trim() of Response_getString unchanged |
| Token.DecodeEmpty | source/PHP_Forms.php:96-99 | the empty string, which is what a missing field reads as, decodes to nothing |
| Elements.Unprefix | source/PHP_Forms.php:386 | mb_substr after PREFIX: the name is its first \|PREFIX\| characters followed by the result, and a shorter name gives "" |
| Elements.UnprefixPrefixed | source/PHP_Forms.php:381-388 | getName() of an element created with PREFIX + name returns name |
| Elements.Element.constructor | source/PHP_Forms.php:361-365 | an element keeps name, title and required flag; its option list starts empty |
| Elements.Element.GetName | source/PHP_Forms.php:381-388 | with the flag, the full name; without it, the name with the prefix's length removed |
| Elements.PutOptionOrdered | source/PHP_Forms.php:416 | `$options[$name] = $title` keeps the option keys distinct and in step with the map |
| Elements.PutOptionEffect | source/PHP_Forms.php:416 | after the assignment the key maps to the title and every other key is unchanged; a new key goes to the end, and an existing key keeps its place |
| Elements.Element.AddOption | source/PHP_Forms.php:412-417 | addOption() updates the ordered options exactly as that assignment does, with the key defaulted to the title |
| Elements.ClassAttributeRequired | source/PHP_Forms.php:422-677 | the browser check finds "required" in the class attribute an element's markup writes exactly when the element is required and is neither hidden nor a button |
| Sections.Section.constructor | source/PHP_Forms.php:229-232 | a new section has its title and no elements |
| Sections.Section.AddSelect | source/PHP_Forms.php:237-244 | a reserved name fails with the section unchanged; otherwise exactly one new drop-down list with PREFIX + name is appended and returned |
| Sections.Section.AddInputCheckboxGroup | source/PHP_Forms.php:249-256 | the same for a checkbox group |
| Sections.Section.AddInputRadioGroup | source/PHP_Forms.php:261-268 | the same for a radio group |
| Sections.Section.AddInputTextInternal | source/PHP_Forms.php:271-278 | a reserved name fails only when it is not a system call; otherwise one text input is appended |
| Sections.Section.AddInputText | source/PHP_Forms.php:283-285 | a reserved name fails with the section unchanged; otherwise one text input is appended |
| Sections.Section.AddInputHiddenInternal | source/PHP_Forms.php:288-295 | a reserved name fails only when it is not a system call; otherwise one hidden input, never required, is appended |
| Sections.Section.AddInputHidden | source/PHP_Forms.php:300-302 | a reserved name fails with the section unchanged; otherwise one hidden input is appended |
| Sections.Section.AddTextarea | source/PHP_Forms.php:307-314 | a reserved name fails with the section unchanged; otherwise one textarea with the given size is appended |
| Sections.Section.AddInputSubmit | source/PHP_Forms.php:319-326 | a reserved name fails with the section unchanged; otherwise one button, never required, with the title as its text is appended |
| Sections.RequiredOfMember | source/PHP_Forms.php:190-193 | a name is in a section's list exactly when some required element of the section has it |
| Sections.RequiredOfAppend | source/PHP_Forms.php:190-193 | the names of two runs of elements are the names of the first run followed by those of the second |
| Sections.RequiredOfNone | source/PHP_Forms.php:190-193 | elements none of which is required contribute no name |
| Sections.RequiredOfWellFormed | source/PHP_Forms.php:185-195 | every listed name belongs to a required element that is neither a hidden input nor a button |
| Forms.RequiredNamesCons | source/PHP_Forms.php:188-195 | the form's names are the first section's names followed by the other sections' names |
| Forms.RequiredNamesMember | source/PHP_Forms.php:185-195 | a name is in the token's list exactly when a required element of some section has it |
| Forms.RequiredNamesFirstGained | source/PHP_Forms.php:199-203 | adding the hidden form_id field to the first section leaves the list of required names unchanged |
| Forms.MethodName | source/PHP_Forms.php:168-178 | METHOD_GET gives "get"; METHOD_POST or an unset method gives "post"; any other code is an error naming that code |
| Forms.Form.constructor | source/PHP_Forms.php:45-57 | with anti-spam, the question is "n1 + n2 = ?" and the answer is n1 + n2, within 2..30; without it, both are empty; the form starts with no section |
| Forms.Form.ShowAntiSpam | source/PHP_Forms.php:62-74 | without a question the call fails and the section is unchanged; otherwise one required anti_spam text input titled with the question is appended, and anti_spam joins the section's required names |
| Forms.Form.SetHeader | source/PHP_Forms.php:134-136 | sets the header; nothing else changes |
| Forms.Form.SetFooter | source/PHP_Forms.php:141-143 | sets the footer; nothing else changes |
| Forms.Form.SetMethod | source/PHP_Forms.php:148-150 | sets the submit method; nothing else changes |
| Forms.Form.SetTarget | source/PHP_Forms.php:155-157 | sets the target URL; nothing else changes |
| Forms.Form.AddSection | source/PHP_Forms.php:162-166 | appends and returns a new empty section with the title |
| Forms.Form.GetMethod | source/PHP_Forms.php:168-178 | the method name of the stored submit method |
| Forms.Form.GetHTML | source/PHP_Forms.php:183-214 | an unknown method fails before any section changes; with no section it fails; otherwise it returns the token of the form's answer and required names, the first section gains one hidden form_id field holding it, the other sections are unchanged, and the required names stay the same, so a second call lists them again |
| Forms.Form.CollectRequiredNames | source/PHP_Forms.php:185-195 | the nested loop collects the unprefixed names of the required elements, section by section and element by element |
| Forms.Form.StoreToken | source/PHP_Forms.php:199-209 | the loop with the "not yet used" sentinel stores the token in the first section only, and reports whether there was one |
| Forms.Form.AddFirst | source/PHP_Forms.php:200-203 | the system form_id field goes into the first section and no other section changes |
| Response.HasResponse | source/PHP_Forms.php:79-89 | GET and POST are the only known methods; a response is present exactly when the superglobal of the method holds a field |
| Response.GetStringTrimmed | source/PHP_Forms.php:120-122 | a value read from the request is already trimmed, and it is empty exactly when the field is missing or blank |
| Response.IntValOfDecimal | source/PHP_Forms.php:127-129 | intval() reads back a number written in decimal, with or without a minus sign |
| Response.AnswerMatchesDecimal | source/PHP_Forms.php:101-102 | the answer typed as the decimal sum matches, and it matches no other number |
| Response.IsValid | source/PHP_Forms.php:94-115 | the result is true exactly when the token's anti-spam answer, if there is one, matches and every listed field is filled in; a missing or undecodable token counts as no question and no fields |
| Response.CheckFilled | source/PHP_Forms.php:108-112 | the loop returns true exactly when every listed name's trimmed value is non-empty |
| Response.RenderedTokenEnforced | source/PHP_Forms.php:94-115 | with the token a rendered form carries, the response is valid exactly when the answer matches and every required name is filled in |
| Response.MissingTokenAccepted | source/PHP_Forms.php:96-99 | a request without the form_id field is accepted whatever else it holds |
| Response.EmptyRequestAccepted | source/PHP_Forms.php:96-99 | a request with no field at all is accepted |
| Response.IsValidStrict | source/PHP_Forms.php:94-115 | the corrected check: false for a request without a readable token, otherwise the same result as Response_isValid() |
| Response.StrictRejectsMissingToken | source/PHP_Forms.php:96-99 | the corrected check rejects a request whose token is missing or does not decode |
| Response.StrictEnforcesToken | source/PHP_Forms.php:94-115 | the corrected check accepts exactly the requests with a readable token whose answer matches and whose required fields are filled in |
| Preflight.IsComplete | source/PHP_Forms.js:1-37 | with form or message undefined the result is true and there is no alert; otherwise the result is true exactly when no required field is blank and every required group has a checked option, and the alert fires exactly when the result is false and the message is not empty |
| Preflight.VisitElement | source/PHP_Forms.js:8-24 | one step of the first loop keeps the group counts up to date, and reports exactly when a required value field is blank |
| Preflight.CountOption | source/PHP_Forms.js:9-16 | a group starts at 0 when first seen, and a checked option adds one |
| Preflight.TallyStep | source/PHP_Forms.js:7-26 | after each element, the groups with a required option are in the map, in order of first appearance, and each count is its number of checked required options |
| Preflight.CheckedCountPositive | source/PHP_Forms.js:13-14 | a group's count is positive exactly when one of its required options is checked |
| Preflight.FindEmptyGroup | source/PHP_Forms.js:27-34 | the second loop finds a group with count 0 when there is one, and otherwise every group has a positive count |
| Preflight.BlankIncomplete | source/PHP_Forms.js:17-23 | a blank required value field makes the form incomplete |
| Preflight.IncompleteGroup | source/PHP_Forms.js:27-33 | a counted group with no checked option makes the form incomplete |
| Preflight.AllGroupsSatisfied | source/PHP_Forms.js:27-36 | no blank field and a positive count for every group means the form is complete |
| Preflight.NotRequiredIrrelevant | source/PHP_Forms.js:8 | a control without the class "required" never changes the outcome: removing it anywhere keeps the result |
| Preflight.SatisfiedWithout | source/PHP_Forms.js:8 | such a control does not change which groups have a checked required option |
| Mailing.HeaderIsLines | source/PHP_Forms.php:738-747 | the header built by concatenation is those lines joined by CRLF, without a line break at the end |
| Mailing.Mail.constructor | source/PHP_Forms.php:697-702 | sender address, sender name and subject are stored trimmed; no recipient and no line yet |
| Mailing.Mail.AddRecipient | source/PHP_Forms.php:707-714 | the address goes to the end of the Bcc list or the To list, as the flag says; nothing else changes |
| Mailing.Mail.AddLine | source/PHP_Forms.php:719-721 | the line goes to the end, and the body gains a line feed and the line (or becomes the line when it was empty) |
| Mailing.Mail.Send | source/PHP_Forms.php:726-750 | fails with no recipient at all, then with an empty sender, then with an empty subject, each exactly in its case; otherwise the arguments of mail() are the To list joined by ", ", the subject, the body and the header |

The getters `Sections.Section.GetElements` (source/PHP_Forms.php:346-348),
`Elements.Element.IsRequired` (source/PHP_Forms.php:372-374) and
`Mailing.Mail.GetText` (source/PHP_Forms.php:759-761) return the stored field, the
stored flag and `GetBody()` respectively; they need no contract of their own.

## Left out

- HTML rendering: every element's `getHTML()`, `PHP_Forms_Section::getHTML()`,
  `getTitle()`, `htmlspecialchars()` escaping and the header and footer strings are
  not modelled. Only the class attribute the markup writes is modelled
  (`ClassAttribute`), because the browser check depends on it.
- Forms.Form.GetHTML: returns the token instead of the form's markup. The markup is
  template text around the same data.
- `mt_rand()`: the two operands are constructor parameters within 1..15.
- Superglobals: `$_REQUEST`, `$_GET` and `$_POST` are passed in as maps. `isset` and
  `is_array` on them always hold here.
- The `mail()` call itself is not modelled. `Send` returns its four arguments.
- `alert()` and DOM access are not modelled. The alert is the returned `alerted`
  flag, and the elements are records.
- Forms.Form.ShowAntiSpam: the `is_a($section, 'PHP_Forms_Section')` check is
  enforced by the parameter's type, so the "not a section" exception cannot occur.
- Forms.Form.SetMethod: takes an integer, so `intval()` of other argument types is
  not modelled.
- Response.IsValid: only a plain string of decimal digits counts as equal to the
  expected integer. PHP 8 also equates forms such as `"+11"`, `"11.0"`, `"1.1e1"` and
  ones with leading form feeds. PHP 7 would also treat an answer of 0 in a forged
  token as "no question"; the model checks it.
- Token.Decode: reads the JSON a token holds: an array whose first element is a
  non-negative integer or the empty string and whose second is an array of strings,
  without whitespace. String escapes are read as `json_decode()` reads them,
  upper-case `\u` hex digits and an unescaped `/` included; raw non-ASCII characters,
  which `json_encode()` never writes, are refused. PHP's
  `json_decode()` also accepts a hand-made token with whitespace, a string answer,
  an object, extra elements or non-string names. Such a token decodes to nothing
  here, so the model skips checks that PHP would run against it. `base64_decode()`'s
  non-strict mode, which skips characters outside the alphabet, is not modelled
  either.
- Names and values are sequences of Unicode code points. Invalid UTF-8, which makes
  `json_encode()` fail, and the byte-level details of `mb_substr()` are not
  modelled.
- Elements.Element.AddOption: PHP turns an integer-like option name such as `"5"`
  into an integer array key. Iteration order is still insertion order, so only the
  key's type differs, and the model keeps names as strings.
- Response.IntValOfDecimal: `intval()` is modelled for an optional sign followed by
  digits. Leading whitespace, exponent notation (since PHP 7.1 `intval("1e3")` is
  1000, while `IntVal` reads 1) and saturation at `PHP_INT_MAX` are not modelled.
- Preflight.IsComplete: the second loop visits groups in order of first appearance.
  JavaScript's `for…in` puts integer-like names first. The result and the single
  alert do not depend on that order.
- Preflight.IsComplete: the group counter is a plain JavaScript object `{}`, so a
  required checkbox or radio group named after an `Object.prototype` property
  (`toString`, `constructor`, `valueOf`, `__proto__`, ...) is never set to 0 and is
  never reported missing; the model counts such a group like any other and reports
  it. Names the library renders always carry the `PHP_Forms_` prefix, so this only
  affects hand-written markup.
- Elements.Element.constructor: `is_required` is stored as the boolean the callers
  pass. A truthy non-boolean value is not modelled.

## Findings

| source | as written | input that shows it | evidently intended | confidence | as-written member | corrected member |
|---|---|---|---|---|---|---|
| source/PHP_Forms.php:96-99 | a missing or undecodable `form_id` token becomes "no anti-spam answer, no required fields", and the response is accepted | a request without the `PHP_Forms_form_id` field, or the empty request: `Response_isValid()` returns true although the form had required fields and an anti-spam question | a response without a readable token is rejected | not executed | Response.MissingTokenAccepted | Response.IsValidStrict |
