/** The fragment of JSON (RFC 8259) that the validation token uses: strings, arrays of
    strings and non-negative integers. Strings are escaped the way PHP's json_encode()
    escapes them with its default flags; the parser accepts what that writes. */
module Json {
  import opened Wrappers
  import opened Text

  /** Every character is 7-bit ASCII: json_encode() output with default flags. */
  predicate IsAscii(s: string) {
    forall k :: 0 <= k < |s| ==> s[k] as int < 0x80
  }

  /** Text made of two ASCII pieces is ASCII. */
  lemma AsciiConcat(x: string, y: string)
    requires IsAscii(x) && IsAscii(y)
    ensures IsAscii(x + y)
  {
    forall k | 0 <= k < |x + y|
      ensures (x + y)[k] as int < 0x80
    {
      if k >= |x| {
        assert (x + y)[k] == y[k - |x|];
      }
    }
  }

  // ---------------------------------------------------------------------------
  // \uXXXX escapes
  // ---------------------------------------------------------------------------

  /** A lower-case hexadecimal digit, as json_encode() writes them. */
  function HexDigit(d: int): (c: char)
    requires 0 <= d < 16
    ensures c as int < 0x80
  {
    if d < 10 then ('0' as int + d) as char else ('a' as int + d - 10) as char
  }

  /** The value of a hexadecimal digit of either case. */
  function HexValue(c: char): (r: Option<int>)
    ensures r.Some? ==> 0 <= r.value < 16
  {
    if '0' <= c <= '9' then Some(c as int - '0' as int)
    else if 'a' <= c <= 'f' then Some(c as int - 'a' as int + 10)
    else if 'A' <= c <= 'F' then Some(c as int - 'A' as int + 10)
    else None
  }

  /** Four hexadecimal digits for a UTF-16 code unit. */
  function Hex4(n: int): (r: string)
    requires 0 <= n < 0x10000
    ensures |r| == 4 && IsAscii(r)
  {
    [HexDigit(n / 0x1000), HexDigit(n / 0x100 % 16), HexDigit(n / 16 % 16), HexDigit(n % 16)]
  }

  /** Reads four hexadecimal digits at the start of `s`. */
  function ParseHex4(s: string): (r: Option<int>)
    requires |s| >= 4
    ensures r.Some? ==> 0 <= r.value < 0x10000
  {
    match (HexValue(s[0]), HexValue(s[1]), HexValue(s[2]), HexValue(s[3]))
    case (Some(d0), Some(d1), Some(d2), Some(d3)) => Some(d0 * 0x1000 + d1 * 0x100 + d2 * 16 + d3)
    case _ => None
  }

  lemma HexDigitValue(d: int)
    requires 0 <= d < 16
    ensures HexValue(HexDigit(d)) == Some(d)
  {
  }

  /** Reading back four hexadecimal digits gives the code unit. */
  lemma Hex4RoundTrip(n: int, rest: string)
    requires 0 <= n < 0x10000
    ensures ParseHex4(Hex4(n) + rest) == Some(n)
  {
    var s := Hex4(n) + rest;
    var d0, d1, d2, d3 := n / 0x1000, n / 0x100 % 16, n / 16 % 16, n % 16;
    assert s[0] == HexDigit(d0) && s[1] == HexDigit(d1) && s[2] == HexDigit(d2) && s[3] == HexDigit(d3);
    HexDigitValue(d0);
    HexDigitValue(d1);
    HexDigitValue(d2);
    HexDigitValue(d3);
    HexExpansion(n);
  }

  /** A code unit is the sum of its four hexadecimal digits times their place values. */
  lemma HexExpansion(n: int)
    requires 0 <= n < 0x10000
    ensures n == n / 0x1000 * 0x1000 + n / 0x100 % 16 * 0x100 + n / 16 % 16 * 16 + n % 16
  {
    assert n / 0x100 == n / 0x1000 * 16 + n / 0x100 % 16;
    assert n / 16 == n / 0x100 * 16 + n / 16 % 16;
    assert n == n / 16 * 16 + n % 16;
  }

  // ---------------------------------------------------------------------------
  // Strings
  // ---------------------------------------------------------------------------

  /** A code point outside the Basic Multilingual Plane. */
  predicate IsAstral(c: char) {
    c as int >= 0x10000
  }

  /** The high surrogate of the UTF-16 pair for `c`. */
  function HighSurrogate(c: char): int
    requires IsAstral(c)
  {
    0xD800 + (c as int - 0x10000) / 0x400
  }

  /** The low surrogate of the UTF-16 pair for `c`. */
  function LowSurrogate(c: char): int
    requires IsAstral(c)
  {
    0xDC00 + (c as int - 0x10000) % 0x400
  }

  /** The two \uXXXX escapes of the surrogate pair for `c`, without the leading "\u". */
  function SurrogatePair(c: char): string
    requires IsAstral(c)
  {
    Hex4(HighSurrogate(c)) + ['\\', 'u'] + Hex4(LowSurrogate(c))
  }

  /** The characters json_encode() writes as a backslash and one letter or sign:
      '"', '\', '/', backspace, form feed, line feed, carriage return and tab. */
  predicate IsShortEscaped(c: char) {
    c == '"' || c == '\\' || c == '/' || c as int == 0x08 || c as int == 0x0C
    || c == '\n' || c == '\r' || c == '\t'
  }

  /** The letter or sign after the backslash of a two-character escape. */
  function ShortEscapeLetter(c: char): char
    requires IsShortEscaped(c)
  {
    if c as int == 0x08 then 'b'
    else if c as int == 0x0C then 'f'
    else if c == '\n' then 'n'
    else if c == '\r' then 'r'
    else if c == '\t' then 't'
    else c
  }

  /** The character that a backslash followed by `e` stands for; None when `e`
      starts no two-character escape. */
  function ShortEscapeValue(e: char): Option<char> {
    if e == '"' || e == '\\' || e == '/' then Some(e)
    else if e == 'b' then Some(8 as char)
    else if e == 'f' then Some(12 as char)
    else if e == 'n' then Some('\n')
    else if e == 'r' then Some('\r')
    else if e == 't' then Some('\t')
    else None
  }

  /** What follows "\u" in the escape of `c`: four hexadecimal digits of the code
      point inside the Basic Multilingual Plane, a surrogate pair beyond it. */
  function UnicodeEscape(c: char): string {
    if IsAstral(c) then SurrogatePair(c) else Hex4(c as int)
  }

  /** What json_encode() writes for one character inside a string: a two-character
      escape for the characters that have one, the character itself for the rest of
      ASCII from space to tilde, and a \u escape (two for an astral character) otherwise. */
  function EscapeChar(c: char): (r: string)
    ensures |r| >= 1 && r[0] != '"'
  {
    if IsShortEscaped(c) then ['\\', ShortEscapeLetter(c)]
    else if 0x20 <= c as int < 0x80 then [c]
    else ['\\', 'u'] + UnicodeEscape(c)
  }

  /** The body of a JSON string literal for `s`. */
  function EscapeString(s: string): string {
    if s == [] then [] else EscapeChar(s[0]) + EscapeString(s[1..])
  }

  /** The JSON string literal for `s`, quotes included. */
  function Quote(s: string): string {
    ['"'] + EscapeString(s) + ['"']
  }

  /** Reads the rest of a \u escape (the text after "\u"): a code unit outside the
      surrogate range stands for itself; a high surrogate must be followed by a
      \u escape of a low surrogate, and the pair stands for one astral code point. */
  function ParseUnicodeEscape(s: string): (r: Option<(char, string)>)
    ensures r.Some? ==> |r.value.1| < |s|
  {
    if |s| < 4 then None
    else match ParseHex4(s)
      case None => None
      case Some(h) =>
        if 0xD800 <= h < 0xDC00 then ParseLowSurrogate(h, s[4..])
        else if 0xDC00 <= h < 0xE000 then None
        else Some((h as char, s[4..]))
  }

  /** The code point of a surrogate pair. */
  function CodePoint(h: int, l: int): (n: int)
    requires 0xD800 <= h < 0xDC00 && 0xDC00 <= l < 0xE000
    ensures 0x10000 <= n < 0x110000
  {
    0x10000 + (h - 0xD800) * 0x400 + (l - 0xDC00)
  }

  /** Reads the "\uXXXX" escape of the low surrogate that must follow the high
      surrogate `h`. */
  function ParseLowSurrogate(h: int, s: string): (r: Option<(char, string)>)
    requires 0xD800 <= h < 0xDC00
    ensures r.Some? ==> |r.value.1| < |s|
  {
    if |s| < 6 || s[0] != '\\' || s[1] != 'u' then None
    else match ParseHex4(s[2..])
      case None => None
      case Some(l) =>
        if 0xDC00 <= l < 0xE000 then Some((CodePoint(h, l) as char, s[6..]))
        else None
  }

  /** Reads one character of a string body, which does not start with the closing
      quote. Raw control characters are refused, as JSON requires, and so is raw
      non-ASCII text, which json_encode() never writes. */
  function ParseChar(s: string): (r: Option<(char, string)>)
    requires |s| > 0 && s[0] != '"'
    ensures r.Some? ==> |r.value.1| < |s|
  {
    if s[0] == '\\' then
      if |s| < 2 then None
      else if s[1] == 'u' then ParseUnicodeEscape(s[2..])
      else match ShortEscapeValue(s[1])
        case None => None
        case Some(c) => Some((c, s[2..]))
    else if s[0] as int < 0x20 || s[0] as int >= 0x80 then None
    else Some((s[0], s[1..]))
  }

  /** Reads a string body up to and including its closing quote; returns the
      decoded string and the text after the quote. */
  function ParseStringBody(s: string): (r: Option<(string, string)>)
    decreases |s|
    ensures r.Some? ==> |r.value.1| < |s|
  {
    if s == [] then None
    else if s[0] == '"' then Some(([], s[1..]))
    else match ParseChar(s)
      case None => None
      case Some((c, rest)) =>
        match ParseStringBody(rest)
        case None => None
        case Some((body, after)) => Some(([c] + body, after))
  }

  /** Every character survives escaping and parsing, whatever follows it. */
  lemma EscapeCharRoundTrip(c: char, rest: string)
    ensures ParseChar(EscapeChar(c) + rest) == Some((c, rest))
  {
    if IsShortEscaped(c) {
      var e := ShortEscapeLetter(c);
      assert EscapeChar(c) == ['\\', e];
      ShortEscapeRoundTrip(c);
      ParseCharShort(e, c, rest);
    } else if 0x20 <= c as int < 0x80 {
      assert EscapeChar(c) == [c];
      ParseCharLiteral(c, rest);
    } else {
      var u := UnicodeEscape(c);
      assert EscapeChar(c) + rest == ['\\', 'u'] + (u + rest) by {
        assert EscapeChar(c) == ['\\', 'u'] + u;
      }
      ParseCharUnicode(u + rest);
      UnicodeEscapeRoundTrip(c, rest);
    }
  }

  /** The two-character escapes are read back as the characters they stand for. */
  lemma ShortEscapeRoundTrip(c: char)
    requires IsShortEscaped(c)
    ensures ShortEscapeLetter(c) != 'u' && ShortEscapeValue(ShortEscapeLetter(c)) == Some(c)
  {
  }

  /** A backslash and a letter other than 'u' are read as a two-character escape. */
  lemma ParseCharShort(e: char, c: char, t: string)
    requires e != 'u' && ShortEscapeValue(e) == Some(c)
    ensures ParseChar(['\\', e] + t) == Some((c, t))
  {
    assert (['\\', e] + t)[2..] == t;
  }

  /** Printable ASCII other than '"' and '\' is read as itself. */
  lemma ParseCharLiteral(c: char, t: string)
    requires 0x20 <= c as int < 0x80 && c != '"' && c != '\\'
    ensures ParseChar([c] + t) == Some((c, t))
  {
    assert ([c] + t)[1..] == t;
  }

  /** A backslash and 'u' start a \u escape. */
  lemma ParseCharUnicode(t: string)
    ensures ParseChar(['\\', 'u'] + t) == ParseUnicodeEscape(t)
  {
    assert (['\\', 'u'] + t)[2..] == t;
  }

  /** The \u escape of any character is read back as that character. */
  lemma UnicodeEscapeRoundTrip(c: char, rest: string)
    ensures ParseUnicodeEscape(UnicodeEscape(c) + rest) == Some((c, rest))
  {
    if IsAstral(c) {
      AstralEscapeRoundTrip(c, rest);
    } else {
      BmpEscapeRoundTrip(c, rest);
    }
  }

  /** A code point of the Basic Multilingual Plane survives a \uXXXX escape; it is
      never a surrogate, since a char is a Unicode scalar value. */
  lemma BmpEscapeRoundTrip(c: char, rest: string)
    requires !IsAstral(c)
    ensures ParseUnicodeEscape(Hex4(c as int) + rest) == Some((c, rest))
  {
    var s := Hex4(c as int) + rest;
    Hex4RoundTrip(c as int, rest);
    assert s[4..] == rest;
    BmpStep(s, c as int);
  }

  /** A code unit outside the surrogate range is read as the character it is. */
  lemma BmpStep(s: string, h: int)
    requires |s| >= 4 && ParseHex4(s) == Some(h) && !(0xD800 <= h < 0xE000)
    ensures ParseUnicodeEscape(s) == Some((h as char, s[4..]))
  {
  }

  /** An astral code point survives its surrogate-pair escape. */
  lemma AstralEscapeRoundTrip(c: char, rest: string)
    requires IsAstral(c)
    ensures ParseUnicodeEscape(SurrogatePair(c) + rest) == Some((c, rest))
  {
    var h, l := HighSurrogate(c), LowSurrogate(c);
    var low := Hex4(l) + rest;
    var s := SurrogatePair(c) + rest;
    assert s == Hex4(h) + (['\\', 'u'] + low);
    Hex4RoundTrip(h, ['\\', 'u'] + low);
    HighSurrogateStep(s, h);
    assert s[4..] == ['\\', 'u'] + low;
    LowSurrogateRoundTrip(c, rest);
  }

  /** After a high surrogate, the \u reader reads the low half. */
  lemma HighSurrogateStep(s: string, h: int)
    requires |s| >= 4 && ParseHex4(s) == Some(h) && 0xD800 <= h < 0xDC00
    ensures ParseUnicodeEscape(s) == ParseLowSurrogate(h, s[4..])
  {
  }

  /** The low half of the surrogate pair of `c` completes the code point. */
  lemma LowSurrogateRoundTrip(c: char, rest: string)
    requires IsAstral(c)
    ensures ParseLowSurrogate(HighSurrogate(c), ['\\', 'u'] + Hex4(LowSurrogate(c)) + rest) == Some((c, rest))
  {
    var h, l := HighSurrogate(c), LowSurrogate(c);
    var s := ['\\', 'u'] + Hex4(l) + rest;
    assert s[2..] == Hex4(l) + rest;
    Hex4RoundTrip(l, rest);
    assert s[6..] == rest;
    var v := c as int - 0x10000;
    assert CodePoint(h, l) == c as int by {
      assert v == v / 0x400 * 0x400 + v % 0x400;
    }
  }

  /** Once one character has been read, the string reader continues after it. */
  lemma ParseStringBodyStep(s: string, c: char, t: string, body: string, after: string)
    requires s != [] && s[0] != '"' && ParseChar(s) == Some((c, t))
    requires ParseStringBody(t) == Some((body, after))
    ensures ParseStringBody(s) == Some(([c] + body, after))
  {
  }

  /** One escaped character in front of a string body the reader accepts. */
  lemma StringBodyCons(c: char, tail: string, body: string, after: string)
    requires ParseStringBody(tail) == Some((body, after))
    ensures ParseStringBody(EscapeChar(c) + tail) == Some(([c] + body, after))
  {
    EscapeCharRoundTrip(c, tail);
    ParseStringBodyStep(EscapeChar(c) + tail, c, tail, body, after);
  }

  /** Every string body survives escaping and parsing, whatever follows the closing quote. */
  lemma {:induction false} StringBodyRoundTrip(x: string, rest: string)
    ensures ParseStringBody(EscapeString(x) + ['"'] + rest) == Some((x, rest))
    decreases |x|
  {
    if x == [] {
      assert EscapeString(x) + ['"'] + rest == ['"'] + rest;
    } else {
      var tail := EscapeString(x[1..]) + ['"'] + rest;
      StringBodyRoundTrip(x[1..], rest);
      StringBodyCons(x[0], tail, x[1..], rest);
      assert EscapeString(x) + ['"'] + rest == EscapeChar(x[0]) + tail;
      HeadTail(x);
    }
  }

  // ---------------------------------------------------------------------------
  // Arrays of strings
  // ---------------------------------------------------------------------------

  /** The items of a JSON array of strings, separated by commas. */
  function EncodeItems(xs: seq<string>): string {
    if xs == [] then []
    else if |xs| == 1 then Quote(xs[0])
    else Quote(xs[0]) + [','] + EncodeItems(xs[1..])
  }

  /** The JSON array of the strings `xs`, as json_encode() writes a PHP list. */
  function EncodeStringArray(xs: seq<string>): string {
    ['['] + EncodeItems(xs) + [']']
  }

  /** Reads one or more comma-separated string items and the closing bracket. */
  function ParseItems(s: string): (r: Option<(seq<string>, string)>)
    decreases |s|
  {
    if s == [] || s[0] != '"' then None
    else match ParseStringBody(s[1..])
      case None => None
      case Some((x, rest)) =>
        if rest == [] then None
        else if rest[0] == ']' then Some(([x], rest[1..]))
        else if rest[0] == ',' then
          match ParseItems(rest[1..])
          case None => None
          case Some((xs, after)) => Some(([x] + xs, after))
        else None
  }

  /** Reads a JSON array of strings; returns the strings and the text after it. */
  function ParseStringArray(s: string): Option<(seq<string>, string)> {
    if |s| < 2 || s[0] != '[' then None
    else if s[1] == ']' then Some(([], s[2..]))
    else ParseItems(s[1..])
  }

  /** After a string item, the item reader continues with what follows it. */
  lemma ParseItemsStep(s: string, x: string, tail: string)
    requires s != [] && s[0] == '"' && ParseStringBody(s[1..]) == Some((x, tail))
    ensures ParseItems(s)
         == if tail == [] then None
            else if tail[0] == ']' then Some(([x], tail[1..]))
            else if tail[0] == ',' then
              match ParseItems(tail[1..])
              case None => None
              case Some((xs, after)) => Some(([x] + xs, after))
            else None
  {
  }

  /** A quoted string is read back by the string reader, whatever follows it. */
  lemma QuotedRoundTrip(x: string, tail: string)
    ensures var s := Quote(x) + tail; s != [] && s[0] == '"' && ParseStringBody(s[1..]) == Some((x, tail))
  {
    var s := Quote(x) + tail;
    assert s[1..] == EscapeString(x) + ['"'] + tail;
    StringBodyRoundTrip(x, tail);
  }

  /** A non-empty list of strings survives encoding and parsing of its items. */
  lemma {:induction false} ItemsRoundTrip(xs: seq<string>, rest: string)
    requires xs != []
    ensures ParseItems(EncodeItems(xs) + [']'] + rest) == Some((xs, rest))
    decreases |xs|
  {
    if |xs| == 1 {
      ItemsSingle(xs, rest);
    } else {
      var x, ys := xs[0], xs[1..];
      var more := EncodeItems(ys) + [']'] + rest;
      ItemsRoundTrip(ys, rest);
      ItemsCons(x, ys, more, rest);
      assert EncodeItems(xs) + [']'] + rest == Quote(x) + [','] + more by {
        assert EncodeItems(xs) == Quote(x) + [','] + EncodeItems(ys);
      }
      HeadTail(xs);
    }
  }

  /** A single item followed by the closing bracket. */
  lemma ItemsSingle(xs: seq<string>, rest: string)
    requires |xs| == 1
    ensures ParseItems(EncodeItems(xs) + [']'] + rest) == Some((xs, rest))
  {
    var x := xs[0];
    var tail := [']'] + rest;
    var s := Quote(x) + tail;
    assert EncodeItems(xs) + [']'] + rest == s;
    QuotedRoundTrip(x, tail);
    ParseItemsStep(s, x, tail);
    assert tail[1..] == rest;
    assert [x] == xs;
  }

  /** One more item in front of a list the reader accepts. */
  lemma ItemsCons(x: string, ys: seq<string>, more: string, rest: string)
    requires ParseItems(more) == Some((ys, rest))
    ensures ParseItems(Quote(x) + [','] + more) == Some(([x] + ys, rest))
  {
    var tail := [','] + more;
    var s := Quote(x) + tail;
    assert Quote(x) + [','] + more == s;
    QuotedRoundTrip(x, tail);
    ParseItemsStep(s, x, tail);
    assert tail[1..] == more;
  }

  /** Every list of strings survives encoding and parsing, in order. */
  lemma StringArrayRoundTrip(xs: seq<string>, rest: string)
    ensures ParseStringArray(EncodeStringArray(xs) + rest) == Some((xs, rest))
  {
    var s := EncodeStringArray(xs) + rest;
    if xs == [] {
      assert s == ['[', ']'] + rest;
    } else {
      var items := EncodeItems(xs) + [']'] + rest;
      assert s == ['['] + items;
      ItemsRoundTrip(xs, rest);
      assert items[0] == '"' by {
        assert EncodeItems(xs)[0] == '"';
      }
      ParseStringArrayItems(s, items);
    }
  }

  /** An array that does not close at once is read item by item. */
  lemma ParseStringArrayItems(s: string, items: string)
    requires s == ['['] + items && items != [] && items[0] != ']'
    ensures ParseStringArray(s) == ParseItems(items)
  {
    assert s[1..] == items;
  }

  /** json_encode() output is 7-bit ASCII: every escape and every literal
      character it writes is. */
  lemma EscapeCharAscii(c: char)
    ensures IsAscii(EscapeChar(c))
  {
  }

  lemma {:induction false} EscapeStringAscii(s: string)
    ensures IsAscii(EscapeString(s))
    decreases |s|
  {
    if s != [] {
      EscapeCharAscii(s[0]);
      EscapeStringAscii(s[1..]);
    }
  }

  lemma {:induction false} ItemsAscii(xs: seq<string>)
    ensures IsAscii(EncodeItems(xs))
    decreases |xs|
  {
    if xs != [] {
      EscapeStringAscii(xs[0]);
      if |xs| > 1 {
        ItemsAscii(xs[1..]);
      }
    }
  }

  lemma StringArrayAscii(xs: seq<string>)
    ensures IsAscii(EncodeStringArray(xs))
  {
    ItemsAscii(xs);
  }

  // ---------------------------------------------------------------------------
  // Non-negative integers
  // ---------------------------------------------------------------------------

  /** The number of decimal digits at the start of `s`. */
  function LeadingDigits(s: string): (k: nat)
    ensures k <= |s| && AllDigits(s[..k])
    ensures k < |s| ==> !IsDigit(s[k])
  {
    if s != [] && IsDigit(s[0]) then
      var k := 1 + LeadingDigits(s[1..]);
      assert s[..k] == [s[0]] + s[1..][..k - 1];
      k
    else 0
  }

  /** Reads a JSON integer without sign, fraction or exponent; a leading zero must
      stand alone, as the JSON grammar requires. */
  function ParseNat(s: string): Option<(nat, string)> {
    var k := LeadingDigits(s);
    if k == 0 || (s[0] == '0' && k > 1) then None
    else Some((DigitsValue(s[..k]), s[k..]))
  }

  /** The digits of any number run up to the first non-digit that follows them. */
  lemma {:induction false} LeadingDigitsOf(d: string, rest: string)
    requires AllDigits(d)
    requires rest == [] || !IsDigit(rest[0])
    ensures LeadingDigits(d + rest) == |d|
    decreases |d|
  {
    if d != [] {
      assert (d + rest)[1..] == d[1..] + rest;
      LeadingDigitsOf(d[1..], rest);
    }
  }

  /** A number written in decimal is read back, whatever non-digit follows it. */
  lemma NatRoundTrip(n: nat, rest: string)
    requires rest == [] || !IsDigit(rest[0])
    ensures ParseNat(NatToString(n) + rest) == Some((n, rest))
  {
    var d := NatToString(n);
    LeadingDigitsOf(d, rest);
    assert (d + rest)[..|d|] == d;
    assert (d + rest)[|d|..] == rest;
    DigitsValueOfNatToString(n);
  }
}
