/** String primitives the library relies on: PHP's trim(), implode() and decimal
    conversion, and the JavaScript regular-expression classes used by the browser check. */
module Text {

  // ---------------------------------------------------------------------------
  // PHP trim()
  // ---------------------------------------------------------------------------

  /** The characters PHP's trim() strips by default: space, tab, line feed,
      carriage return, NUL and vertical tab. */
  predicate IsTrimmable(c: char) {
    c == ' ' || c == '\t' || c == '\n' || c == '\r' || c as int == 0 || c as int == 0x0B
  }

  /** Strips trimmable characters from the front. */
  function TrimLeft(s: string): string {
    if s != [] && IsTrimmable(s[0]) then TrimLeft(s[1..]) else s
  }

  /** TrimLeft gives the longest suffix of `s` that does not start with a trimmable
      character: everything it drops is trimmable. */
  lemma {:induction false} TrimLeftSpec(s: string)
    ensures var r := TrimLeft(s);
      && |r| <= |s| && r == s[|s| - |r|..]
      && (forall k :: 0 <= k < |s| - |r| ==> IsTrimmable(s[k]))
      && (r == [] || !IsTrimmable(r[0]))
  {
    if s != [] && IsTrimmable(s[0]) {
      TrimLeftSpec(s[1..]);
      var r := TrimLeft(s);
      assert r == TrimLeft(s[1..]);
      forall k | 0 <= k < |s| - |r|
        ensures IsTrimmable(s[k])
      {
        if k > 0 {
          assert s[k] == s[1..][k - 1];
        }
      }
    }
  }

  /** Strips trimmable characters from the back. */
  function TrimRight(s: string): string {
    if s != [] && IsTrimmable(s[|s| - 1]) then TrimRight(s[..|s| - 1]) else s
  }

  /** TrimRight gives the longest prefix of `s` that does not end with a trimmable
      character: everything it drops is trimmable. */
  lemma {:induction false} TrimRightSpec(s: string)
    ensures var r := TrimRight(s);
      && |r| <= |s| && r == s[..|r|]
      && (forall k :: |r| <= k < |s| ==> IsTrimmable(s[k]))
      && (r == [] || !IsTrimmable(r[|r| - 1]))
  {
    if s != [] && IsTrimmable(s[|s| - 1]) {
      TrimRightSpec(s[..|s| - 1]);
      var r := TrimRight(s);
      assert r == TrimRight(s[..|s| - 1]);
      forall k | |r| <= k < |s|
        ensures IsTrimmable(s[k])
      {
        if k < |s| - 1 {
          assert s[k] == s[..|s| - 1][k];
        }
      }
    }
  }

  /** PHP trim($s) with the default character list. */
  function Trim(s: string): string {
    TrimRight(TrimLeft(s))
  }

  /** A trimmed value is empty exactly when the raw value consists of trimmable
      characters only (the server's notion of "left empty"). */
  lemma TrimEmptyIff(s: string)
    ensures Trim(s) == [] <==> forall k :: 0 <= k < |s| ==> IsTrimmable(s[k])
  {
    var l := TrimLeft(s);
    TrimLeftSpec(s);
    TrimRightSpec(l);
    if l != [] {
      assert !IsTrimmable(l[0]);
      assert !IsTrimmable(s[|s| - |l|]);
    }
  }

  /** Trimming twice is trimming once. */
  lemma TrimIdempotent(s: string)
    ensures Trim(Trim(s)) == Trim(s)
  {
    var t := Trim(s);
    TrimEdges(s);
    TrimNoEdges(t);
  }

  /** Neither end of a trimmed value is trimmable. */
  lemma TrimEdges(s: string)
    ensures var t := Trim(s); t == [] || (!IsTrimmable(t[0]) && !IsTrimmable(t[|t| - 1]))
  {
    var l := TrimLeft(s);
    var t := TrimRight(l);
    TrimLeftSpec(s);
    TrimRightSpec(l);
    if t != [] {
      assert t[0] == l[0];
    }
  }

  /** A value whose ends are not trimmable is left unchanged by trim(). */
  lemma TrimNoEdges(s: string)
    requires s == [] || (!IsTrimmable(s[0]) && !IsTrimmable(s[|s| - 1]))
    ensures Trim(s) == s
  {
  }

  // ---------------------------------------------------------------------------
  // JavaScript regular-expression classes
  // ---------------------------------------------------------------------------

  /** The JavaScript class `\s`: ECMAScript WhiteSpace and LineTerminator code points. */
  predicate IsJsSpace(c: char) {
    var n := c as int;
    n == 0x09 || n == 0x0A || n == 0x0B || n == 0x0C || n == 0x0D || n == 0x20
    || n == 0xA0 || n == 0x1680 || (0x2000 <= n <= 0x200A) || n == 0x2028
    || n == 0x2029 || n == 0x202F || n == 0x205F || n == 0x3000 || n == 0xFEFF
  }

  /** The test /^\s*$/: the value is empty or whitespace only. */
  predicate IsJsBlank(s: string) {
    forall k :: 0 <= k < |s| ==> IsJsSpace(s[k])
  }

  /** The pattern /(^|\s)w(\s|$)/ matches with `w` starting at index `i`. */
  predicate WordAt(cls: string, w: string, i: int) {
    && 0 <= i && i + |w| <= |cls| && cls[i..i + |w|] == w
    && (i == 0 || IsJsSpace(cls[i - 1]))
    && (i + |w| == |cls| || IsJsSpace(cls[i + |w|]))
  }

  /** Scans the start positions `i`, `i+1`, ... for a match of /(^|\s)w(\s|$)/. */
  function WordFrom(cls: string, w: string, i: nat): bool
    decreases |cls| - i
  {
    if i + |w| > |cls| then false
    else WordAt(cls, w, i) || WordFrom(cls, w, i + 1)
  }

  /** The scan from `i` finds a match exactly when one starts at `i` or later. */
  lemma {:induction false} WordFromIff(cls: string, w: string, i: nat)
    ensures WordFrom(cls, w, i) <==> exists j :: i <= j && WordAt(cls, w, j)
    decreases |cls| - i
  {
    if i + |w| <= |cls| {
      WordFromIff(cls, w, i + 1);
      if exists j :: i <= j && WordAt(cls, w, j) {
        var j :| i <= j && WordAt(cls, w, j);
        assert j == i || (i + 1 <= j && WordAt(cls, w, j));
      }
    }
  }

  /** RegExp.prototype.test for /(^|\s)w(\s|$)/: `w` occurs in the class list
      `cls` as a whole whitespace-delimited word. */
  function HasClassWord(cls: string, w: string): bool {
    WordFrom(cls, w, 0)
  }

  /** The test succeeds exactly when the word occurs at some position, delimited by
      whitespace or the ends of the class list. */
  lemma HasClassWordIff(cls: string, w: string)
    ensures HasClassWord(cls, w) <==> exists j :: WordAt(cls, w, j)
  {
    WordFromIff(cls, w, 0);
  }

  /** A non-empty sequence is its first element followed by the rest. */
  lemma HeadTail<T>(s: seq<T>)
    requires s != []
    ensures s == [s[0]] + s[1..]
  {
  }

  // ---------------------------------------------------------------------------
  // implode() and its inverse
  // ---------------------------------------------------------------------------

  /** PHP implode($sep, $parts). */
  function Join(parts: seq<string>, sep: string): string {
    if |parts| == 0 then ""
    else if |parts| == 1 then parts[0]
    else Join(parts[..|parts| - 1], sep) + sep + parts[|parts| - 1]
  }

  /** Appending one part adds the separator and that part at the end. */
  lemma JoinAppend(parts: seq<string>, sep: string, p: string)
    requires |parts| > 0
    ensures Join(parts + [p], sep) == Join(parts, sep) + sep + p
  {
    assert (parts + [p])[..|parts|] == parts;
  }

  /** The index of the last occurrence of `c` in `s`. */
  function LastIndexOf(s: string, c: char): (k: nat)
    requires c in s
    ensures k < |s| && s[k] == c && c !in s[k + 1..]
  {
    if s[|s| - 1] == c then |s| - 1
    else
      assert c in s[..|s| - 1] by {
        var i :| 0 <= i < |s| && s[i] == c;
        assert s[..|s| - 1][i] == c;
      }
      LastIndexOf(s[..|s| - 1], c)
  }

  /** Splits `s` at every occurrence of `c` (explode). */
  function Split(s: string, c: char): (r: seq<string>)
    decreases |s|
    ensures |r| >= 1
  {
    if c !in s then [s]
    else
      var k := LastIndexOf(s, c);
      Split(s[..k], c) + [s[k + 1..]]
  }

  /** Joining parts free of the separator character and splitting again gives the
      parts back: implode("\n", ...) keeps every line intact. */
  lemma {:induction false} SplitJoin(parts: seq<string>, c: char)
    requires |parts| > 0
    requires forall i :: 0 <= i < |parts| ==> c !in parts[i]
    ensures Split(Join(parts, [c]), c) == parts
  {
    if |parts| > 1 {
      var init, last := parts[..|parts| - 1], parts[|parts| - 1];
      var front := Join(init, [c]);
      var s := Join(parts, [c]);
      assert s == front + [c] + last;
      assert s[|front|] == c;
      var k := LastIndexOf(s, c);
      assert s[..k] == front;
      assert s[k + 1..] == last;
      SplitJoin(init, c);
    }
  }

  // ---------------------------------------------------------------------------
  // Decimal numbers
  // ---------------------------------------------------------------------------

  predicate IsDigit(c: char) {
    '0' <= c <= '9'
  }

  predicate AllDigits(s: string) {
    forall k :: 0 <= k < |s| ==> IsDigit(s[k])
  }

  function DigitChar(d: int): (c: char)
    requires 0 <= d < 10
    ensures IsDigit(c) && c as int - '0' as int == d
  {
    ('0' as int + d) as char
  }

  /** The decimal representation of `n`, as PHP's string conversion of an
      integer writes it: digits only, no leading zero. */
  function NatToString(n: nat): (r: string)
    ensures |r| >= 1 && AllDigits(r)
    ensures r[0] == '0' ==> n == 0 && r == "0"
  {
    if n < 10 then [DigitChar(n)] else NatToString(n / 10) + [DigitChar(n % 10)]
  }

  /** The value of a string of decimal digits. */
  function DigitsValue(s: string): nat
    requires AllDigits(s)
  {
    if s == [] then 0
    else DigitsValue(s[..|s| - 1]) * 10 + (s[|s| - 1] as int - '0' as int)
  }

  /** Reading back the decimal representation gives the number. */
  lemma {:induction false} DigitsValueOfNatToString(n: nat)
    ensures DigitsValue(NatToString(n)) == n
  {
    if n >= 10 {
      var s := NatToString(n);
      assert s[..|s| - 1] == NatToString(n / 10);
      DigitsValueOfNatToString(n / 10);
    }
  }
}
