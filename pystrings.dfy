/**
  The Python `str` built-ins the page-range parser and the input-file parser rely on:
  whitespace splitting (`str.split()` and the emptiness test on `str.strip()`), `str.endswith`,
  the first occurrence of a separator (`in` and `str.split(sep, 1)`), ASCII `str.upper()`
  and `int()` restricted to decimal digits.
*/
module PyStrings {
  import opened Results

  // ---------------------------------------------------------------------------
  // Whitespace and `str.split()`
  // ---------------------------------------------------------------------------

  /** Python's `str.isspace()` for one character. */
  predicate IsSpace(c: char) {
    || '\t' <= c <= '\r'
    || '\U{1C}' <= c <= ' '
    || c == '\U{85}' || c == '\U{A0}' || c == '\U{1680}'
    || '\U{2000}' <= c <= '\U{200A}'
    || c == '\U{2028}' || c == '\U{2029}' || c == '\U{202F}' || c == '\U{205F}' || c == '\U{3000}'
  }

  /** `s.strip()` is empty: every character of `s` is whitespace. */
  predicate IsBlank(s: string) {
    forall i :: 0 <= i < |s| ==> IsSpace(s[i])
  }

  predicate NoSpace(s: string) {
    forall i :: 0 <= i < |s| ==> !IsSpace(s[i])
  }

  /** `s` with its leading whitespace removed. */
  function SkipSpaces(s: string): (r: string)
    ensures |r| <= |s|
    ensures IsBlank(s[..|s| - |r|])
    ensures r == [] || !IsSpace(r[0])
  {
    if s != [] && IsSpace(s[0]) then SkipSpaces(s[1..]) else s
  }

  /** What `SkipSpaces` leaves is a suffix of its argument. */
  lemma {:induction false} SkipSpacesSuffix(s: string)
    ensures SkipSpaces(s) == s[|s| - |SkipSpaces(s)|..]
  {
    if s != [] && IsSpace(s[0]) {
      SkipSpacesSuffix(s[1..]);
    }
  }

  /** The length of the run of non-whitespace characters at the start of `s`. */
  function WordLength(s: string): (n: nat)
    ensures n <= |s|
    ensures NoSpace(s[..n])
    ensures n < |s| ==> IsSpace(s[n])
  {
    if s != [] && !IsSpace(s[0]) then 1 + WordLength(s[1..]) else 0
  }

  /** Python's `s.split()`: the maximal runs of non-whitespace characters, in order. */
  function Words(s: string): (ws: seq<string>)
    ensures forall i :: 0 <= i < |ws| ==> ws[i] != [] && NoSpace(ws[i])
    decreases |s|
  {
    var t := SkipSpaces(s);
    if t == [] then []
    else
      var n := WordLength(t);
      [t[..n]] + Words(t[n..])
  }

  /** The words joined by single spaces: `" ".join(ws)`. */
  function Unwords(ws: seq<string>): string {
    if ws == [] then ""
    else if |ws| == 1 then ws[0]
    else ws[0] + " " + Unwords(ws[1..])
  }

  /** `s.split()` is empty exactly when `s.strip()` is. */
  lemma WordsBlank(s: string)
    ensures Words(s) == [] <==> IsBlank(s)
  {
    var t := SkipSpaces(s);
    SkipSpacesSuffix(s);
    if t == [] {
      assert s[..|s|] == s;
    }
  }

  /** A single whitespace-free word splits into itself. */
  lemma WordsOfWord(w: string)
    requires w != [] && NoSpace(w)
    ensures Words(w) == [w]
  {
    var t := SkipSpaces(w);
    SkipSpacesSuffix(w);
    assert t == w;
    assert w[..|w|] == w && w[|w|..] == [];
  }

  lemma {:induction false} SkipSpacesBlankPrefix(x: string, y: string)
    requires IsBlank(x)
    ensures SkipSpaces(x + y) == SkipSpaces(y)
    decreases |x|
  {
    if x != [] {
      assert (x + y)[1..] == x[1..] + y;
      SkipSpacesBlankPrefix(x[1..], y);
    } else {
      assert x + y == y;
    }
  }

  lemma {:induction false} SkipSpacesNonBlank(x: string, y: string)
    requires !IsBlank(x)
    ensures SkipSpaces(x + y) == SkipSpaces(x) + y
    decreases |x|
  {
    assert x != [];
    assert (x + y)[0] == x[0];
    if IsSpace(x[0]) {
      assert (x + y)[1..] == x[1..] + y;
      assert !IsBlank(x[1..]) by {
        var i :| 0 <= i < |x| && !IsSpace(x[i]);
        assert x[1..][i - 1] == x[i];
      }
      SkipSpacesNonBlank(x[1..], y);
    }
  }

  lemma {:induction false} WordLengthAppend(x: string, y: string)
    requires WordLength(x) < |x| || (y != [] && IsSpace(y[0]))
    ensures WordLength(x + y) == WordLength(x)
    decreases |x|
  {
    if x == [] {
      assert x + y == y;
    } else {
      assert (x + y)[0] == x[0];
      if !IsSpace(x[0]) {
        assert (x + y)[1..] == x[1..] + y;
        WordLengthAppend(x[1..], y);
      }
    }
  }

  lemma SkipSpacesSpace(c: char, b: string)
    requires IsSpace(c)
    ensures SkipSpaces([c] + b) == SkipSpaces(b)
  {
    assert ([c] + b)[1..] == b;
  }

  /** The words of `s` only depend on what is left after its leading whitespace. */
  lemma WordsSkip(s: string)
    ensures Words(s) == Words(SkipSpaces(s))
  {
    var t := SkipSpaces(s);
    assert SkipSpaces(t) == t;
  }

  /** Splitting is a homomorphism across a separating whitespace character: the words of
      `a + [c] + b` are the words of `a` followed by the words of `b`. */
  lemma {:induction false} WordsSplit(a: string, c: char, b: string)
    requires IsSpace(c)
    ensures Words(a + [c] + b) == Words(a) + Words(b)
    decreases |a|, 1
  {
    var s := a + [c] + b;
    WordsSkip(s);
    WordsSkip(a);
    if IsBlank(a) {
      assert IsBlank(a + [c]);
      SkipSpacesBlankPrefix(a + [c], b);
      WordsSkip(b);
      WordsBlank(a);
    } else {
      assert !IsBlank(a + [c]) by {
        var i :| 0 <= i < |a| && !IsSpace(a[i]);
        assert (a + [c])[i] == a[i];
      }
      SkipSpacesNonBlank(a + [c], b);
      SkipSpacesNonBlank(a, [c]);
      var t := SkipSpaces(a);
      assert SkipSpaces(s) == t + [c] + b;
      WordsSplitWord(t, c, b);
    }
  }

  /** `WordsSplit` when the left part starts with a word. */
  lemma {:induction false} WordsSplitWord(t: string, c: char, b: string)
    requires t != [] && !IsSpace(t[0]) && IsSpace(c)
    ensures Words(t + [c] + b) == Words(t) + Words(b)
    decreases |t|, 0
  {
    var t' := t + [c] + b;
    assert SkipSpaces(t) == t;
    assert t'[0] == t[0];
    assert SkipSpaces(t') == t';
    var n := WordLength(t);
    WordLengthAppend(t, [c]);
    assert (t + [c])[|t|] == c;
    WordLengthAppend(t + [c], b);
    assert WordLength(t') == n;
    assert t'[..n] == t[..n];
    if n < |t| {
      assert t'[n..] == t[n..] + [c] + b;
      WordsSplit(t[n..], c, b);
    } else {
      assert t'[n..] == [c] + b;
      assert t[n..] == [];
      SkipSpacesSpace(c, b);
      WordsSkip([c] + b);
      WordsSkip(b);
    }
  }

  /** Joining whitespace-free words with spaces and splitting again gives the words back. */
  lemma {:induction false} WordsUnwords(ws: seq<string>)
    requires forall i :: 0 <= i < |ws| ==> ws[i] != [] && NoSpace(ws[i])
    ensures Words(Unwords(ws)) == ws
  {
    if ws == [] {
      WordsBlank("");
    } else if |ws| == 1 {
      WordsOfWord(ws[0]);
    } else {
      WordsSplit(ws[0], ' ', Unwords(ws[1..]));
      WordsOfWord(ws[0]);
      WordsUnwords(ws[1..]);
    }
  }

  // ---------------------------------------------------------------------------
  // Suffixes and separators
  // ---------------------------------------------------------------------------

  /** Python's `s.endswith(suffix)`. */
  predicate EndsWith(s: string, suffix: string) {
    |suffix| <= |s| && s[|s| - |suffix|..] == suffix
  }

  /** The index of the first `c` in `s`, if any: what `c in s` and `s.split(c, 1)` look for. */
  function Find(s: string, c: char): (r: Option<nat>)
    ensures r.None? <==> c !in s
    ensures r.Some? ==> r.value < |s| && s[r.value] == c && c !in s[..r.value]
  {
    if s == [] then None
    else if s[0] == c then Some(0)
    else match Find(s[1..], c)
      case None => None
      case Some(k) =>
        assert s[..k + 1] == [s[0]] + s[1..][..k];
        Some(k + 1)
  }

  /** When `c` does not occur in `x`, the first `c` of `x + [c] + y` is the one right after `x`. */
  lemma FindAfter(x: string, c: char, y: string)
    requires c !in x
    ensures Find(x + [c] + y, c) == Some(|x|)
  {
    var s := x + [c] + y;
    assert s[|x|] == c;
    var k := Find(s, c).value;
  }

  // ---------------------------------------------------------------------------
  // Case
  // ---------------------------------------------------------------------------

  /** What the handle pattern `[A-Z]` accepts. */
  predicate IsAsciiUpper(c: char) {
    'A' <= c <= 'Z'
  }

  predicate IsAsciiLower(c: char) {
    'a' <= c <= 'z'
  }

  function ToUpper(c: char): (u: char)
    ensures !IsAsciiLower(u)
    ensures IsAsciiLower(c) ==> IsAsciiUpper(u)
    ensures !IsAsciiLower(c) ==> u == c
  {
    if IsAsciiLower(c) then (c as int - 32) as char else c
  }

  /** Python's `s.upper()` on ASCII letters; every other character is left alone. */
  function Upper(s: string): (r: string)
    ensures |r| == |s|
    ensures forall i :: 0 <= i < |s| ==> r[i] == ToUpper(s[i])
  {
    if s == [] then [] else [ToUpper(s[0])] + Upper(s[1..])
  }

  lemma UpperIdempotent(s: string)
    ensures Upper(Upper(s)) == Upper(s)
  {
    var u := Upper(s);
    assert forall i :: 0 <= i < |u| ==> Upper(u)[i] == u[i];
  }

  // ---------------------------------------------------------------------------
  // Decimal integers
  // ---------------------------------------------------------------------------

  predicate IsDigit(c: char) {
    '0' <= c <= '9'
  }

  /** What `int()` accepts here: one or more decimal digits. */
  predicate IsDecimal(s: string) {
    |s| > 0 && forall i :: 0 <= i < |s| ==> IsDigit(s[i])
  }

  function DigitValue(c: char): nat
    requires IsDigit(c)
  {
    c as int - '0' as int
  }

  /** The value of a string of decimal digits, most significant digit first. */
  function DigitsValue(s: string): nat
    requires forall i :: 0 <= i < |s| ==> IsDigit(s[i])
  {
    if s == [] then 0 else DigitsValue(s[..|s| - 1]) * 10 + DigitValue(s[|s| - 1])
  }

  /** Python's `int(s)` on decimal digit strings; anything else raises, modelled as `None`. */
  function Int(s: string): (r: Option<nat>)
    ensures r.Some? <==> IsDecimal(s)
  {
    if IsDecimal(s) then Some(DigitsValue(s)) else None
  }

  function DigitChar(d: nat): (c: char)
    requires d < 10
    ensures IsDigit(c) && DigitValue(c) == d
  {
    ('0' as int + d) as char
  }

  /** Python's `str(n)` for a natural number. */
  function DecimalString(n: nat): (s: string)
    ensures IsDecimal(s)
  {
    if n < 10 then [DigitChar(n)] else DecimalString(n / 10) + [DigitChar(n % 10)]
  }

  /** `int(str(n)) == n`. */
  lemma {:induction false} IntOfDecimalString(n: nat)
    ensures Int(DecimalString(n)) == Some(n)
  {
    var s := DecimalString(n);
    if n < 10 {
      assert s == [DigitChar(n)];
      assert s[..|s| - 1] == [];
      assert DigitsValue(s) == DigitsValue([]) * 10 + DigitValue(s[0]);
    } else {
      IntOfDecimalString(n / 10);
      assert s[..|s| - 1] == DecimalString(n / 10);
      assert s[|s| - 1] == DigitChar(n % 10);
      assert n == (n / 10) * 10 + n % 10;
    }
  }
}
