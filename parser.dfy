/**
  The pdftk page-range language: a range string such as `"A1-10east B5-20odd Bend-1evensouth"`
  becomes an ordered list of page specifications (handle, pages, rotation).

  Each document is represented by its page count only: the parser is given a map from handle to
  page count and, optionally, the page count of a default document.
*/
module Parser {
  import opened Results
  import opened PyStrings

  // ---------------------------------------------------------------------------
  // Data model
  // ---------------------------------------------------------------------------

  /** One selection: pages of the document named by `handle` (or the default document when
      `handle` is `None`), in order, with a rotation in degrees. */
  datatype PageSpec = PageSpec(handle: Option<string>, pages: seq<int>, rotation: int)

  /** The `even` / `odd` qualifier. */
  datatype Parity = Even | Odd

  /** The errors the parser raises; each is a `ValueError` in the Python code. */
  datatype ParseError =
    | UnknownHandle(name: string)           // a bare handle that names no document
    | NoReader(of: Option<string>)          // a page expression whose document is missing
    | InvalidLiteral(text: string)          // `int()` rejecting a page position

  /** The rotation keywords with their degrees, in the order they are tried. */
  const Rotations: seq<(string, int)> := [
    ("north", 0), ("east", 90), ("south", 180), ("west", 270),
    ("left", -90), ("right", 90), ("down", 180)
  ]

  function ParityKeyword(q: Parity): string {
    match q
    case Even => "even"
    case Odd => "odd"
  }

  // ---------------------------------------------------------------------------
  // Page numbers and ranges
  // ---------------------------------------------------------------------------

  /** Resolves one page position against the document's page count: `end` is the last page,
      `rend` the first, `rN` the N-th page from the end and a digit string its own value.
      No bounds check is made: the result may be zero, negative or beyond the last page. */
  function ResolvePageNumber(spec: string, totalPages: nat): (r: Result<int, ParseError>)
    ensures r.Err? ==> r.error.InvalidLiteral?
    ensures spec == "rend" ==> r == Ok(1)
  {
    if spec == "end" then Ok(totalPages)
    else if spec == "rend" then Ok(1)
    else if |spec| > 0 && spec[0] == 'r' then
      match Int(spec[1..])
      case Some(offset) => Ok(totalPages - offset + 1)
      case None => Err(InvalidLiteral(spec[1..]))
    else
      match Int(spec)
      case Some(page) => Ok(page)
      case None => Err(InvalidLiteral(spec))
  }

  /** The positions that resolve: `end`, `rend`, `r` followed by digits, and digits. Anything
      else (a sign, an empty string, a letter) is an invalid literal. */
  lemma ResolveAccepts(spec: string, totalPages: nat)
    ensures ResolvePageNumber(spec, totalPages).Ok? <==>
              spec == "end" || spec == "rend" || (|spec| > 0 && spec[0] == 'r' && IsDecimal(spec[1..])) || IsDecimal(spec)
  {
    if |spec| > 0 && spec[0] == 'r' {
      assert !IsDigit(spec[0]);
    }
  }

  function Distance(a: int, b: int): nat {
    if a <= b then b - a else a - b
  }

  /** The pages from `start` to `stop` inclusive, counting up when `start <= stop` and
      down otherwise: `range(start, stop + 1)` or `range(start, stop - 1, -1)`. */
  function Span(start: int, stop: int): (r: seq<int>)
    ensures |r| == Distance(start, stop) + 1
    ensures forall i :: 0 <= i < |r| ==> r[i] == if start <= stop then start + i else start - i
    decreases Distance(start, stop)
  {
    if start == stop then [start]
    else if start < stop then [start] + Span(start + 1, stop)
    else [start] + Span(start - 1, stop)
  }

  /** Every page of a document with `totalPages` pages: `range(1, totalPages + 1)`. */
  function AllPages(totalPages: nat): (r: seq<int>)
    ensures |r| == totalPages
    ensures forall i :: 0 <= i < |r| ==> r[i] == i + 1
  {
    if totalPages == 0 then [] else Span(1, totalPages)
  }

  function Reversed(s: seq<int>): (r: seq<int>)
    ensures |r| == |s|
  {
    seq(|s|, i requires 0 <= i < |s| => s[|s| - 1 - i])
  }

  /** A descending range is the reverse of the ascending one between the same pages. */
  lemma SpanReversed(start: int, stop: int)
    ensures Span(stop, start) == Reversed(Span(start, stop))
  {
    var down, up := Span(stop, start), Reversed(Span(start, stop));
    forall i | 0 <= i < |down|
      ensures down[i] == up[i]
    {
    }
  }

  /** Consecutive pages of a range differ by one, with the sign of the direction. */
  lemma SpanConsecutive(start: int, stop: int, i: nat)
    requires i + 1 < |Span(start, stop)|
    ensures Span(start, stop)[i + 1] - Span(start, stop)[i] == if start < stop then 1 else -1
  {
  }

  predicate HasParity(page: int, q: Parity) {
    match q
    case Even => page % 2 == 0
    case Odd => page % 2 == 1
  }

  /** Keeps the pages whose absolute number has the parity `q`, in their original order.
      Dafny's `%` agrees with Python's for the divisor 2, negative pages included. */
  function ApplyQualifier(pages: seq<int>, q: Parity): (r: seq<int>)
    ensures |r| <= |pages|
    ensures forall i :: 0 <= i < |r| ==> HasParity(r[i], q)
  {
    if pages == [] then []
    else
      (if HasParity(pages[0], q) then [pages[0]] else []) + ApplyQualifier(pages[1..], q)
  }

  /** Each page with the parity is kept as often as it occurs; no other page is kept. */
  lemma {:induction false} ApplyQualifierCounts(pages: seq<int>, q: Parity, p: int)
    ensures multiset(ApplyQualifier(pages, q))[p] == if HasParity(p, q) then multiset(pages)[p] else 0
  {
    if pages != [] {
      assert pages == [pages[0]] + pages[1..];
      ApplyQualifierCounts(pages[1..], q, p);
    }
  }

  /** Filtering distributes over concatenation, so the kept pages stay in input order. */
  lemma {:induction false} ApplyQualifierConcat(a: seq<int>, b: seq<int>, q: Parity)
    ensures ApplyQualifier(a + b, q) == ApplyQualifier(a, q) + ApplyQualifier(b, q)
  {
    if a != [] {
      assert (a + b)[0] == a[0];
      assert (a + b)[1..] == a[1..] + b;
      ApplyQualifierConcat(a[1..], b, q);
    } else {
      assert a + b == b;
    }
  }

  /** The even and the odd pages together are all the pages. */
  lemma {:induction false} QualifiersPartition(pages: seq<int>)
    ensures |ApplyQualifier(pages, Even)| + |ApplyQualifier(pages, Odd)| == |pages|
  {
    if pages != [] {
      QualifiersPartition(pages[1..]);
    }
  }

  // ---------------------------------------------------------------------------
  // Documents
  // ---------------------------------------------------------------------------

  /** The page count of the document a page expression refers to: the named document when
      there is a handle (a handle is never empty), the default document otherwise. */
  function GetReader(readers: map<string, nat>, defaultReader: Option<nat>, handle: Option<string>): (r: Option<nat>)
    ensures handle.Some? && handle.value != "" ==> (r.Some? <==> handle.value in readers)
    ensures handle.Some? && handle.value != "" && handle.value in readers ==> r == Some(readers[handle.value])
    ensures handle.None? ==> r == defaultReader
  {
    if handle.Some? && handle.value != "" then
      if handle.value in readers then Some(readers[handle.value]) else None
    else defaultReader
  }

  /** A token that is only a handle: every page of that document, unrotated. */
  function HandleOnly(readers: map<string, nat>, handle: string): (r: Result<PageSpec, ParseError>)
    ensures r.Ok? <==> handle in readers
    ensures r.Err? ==> r.error == UnknownHandle(handle)
    ensures r.Ok? ==> r.value.handle == Some(handle) && r.value.rotation == 0 &&
                      |r.value.pages| == readers[handle] && forall i :: 0 <= i < readers[handle] ==> r.value.pages[i] == i + 1
  {
    if handle !in readers then Err(UnknownHandle(handle))
    else Ok(PageSpec(Some(handle), AllPages(readers[handle]), 0))
  }

  /** The pages of a page expression (`1-5`, `10`, `5-end`, `r3-r1`): split at the first `-`,
      resolve both bounds, and enumerate the range. An empty expression yields no pages and
      consults no document. */
  function ParsePageSpec(readers: map<string, nat>, defaultReader: Option<nat>, spec: string, handle: Option<string>): (r: Result<seq<int>, ParseError>)
    ensures r.Ok? ==> (r.value == [] <==> spec == [])
    ensures r.Err? ==> !r.error.UnknownHandle?
  {
    if spec == [] then Ok([])
    else match GetReader(readers, defaultReader, handle)
      case None => Err(NoReader(handle))
      case Some(totalPages) =>
        match Find(spec, '-')
        case Some(k) =>
          var start :- ResolvePageNumber(spec[..k], totalPages);
          var stop :- ResolvePageNumber(spec[k + 1..], totalPages);
          Ok(Span(start, stop))
        case None =>
          var page :- ResolvePageNumber(spec, totalPages);
          Ok([page])
  }

  // ---------------------------------------------------------------------------
  // Tokens
  // ---------------------------------------------------------------------------

  /** The length of the longest prefix of ASCII capitals: what `^([A-Z]+)` matches. */
  function HandleLength(s: string): (n: nat)
    ensures n <= |s|
    ensures forall i :: 0 <= i < n ==> IsAsciiUpper(s[i])
    ensures n < |s| ==> !IsAsciiUpper(s[n])
  {
    if s != [] && IsAsciiUpper(s[0]) then 1 + HandleLength(s[1..]) else 0
  }

  /** Peels the handle off the front of a token. The Python code first asks `part[0].isupper()`
      and then matches `[A-Z]+`; a non-ASCII capital passes the first test and fails the
      second, so only an ASCII capital starts a handle. */
  function SplitHandle(part: string): (r: (Option<string>, string))
    ensures r.0.None? ==> r.1 == part
    ensures r.0.Some? ==> part == r.0.value + r.1 && r.0.value != []
    ensures r.0.Some? ==> forall i :: 0 <= i < |r.0.value| ==> IsAsciiUpper(r.0.value[i])
    ensures r.1 == [] || !IsAsciiUpper(r.1[0])
  {
    var n := HandleLength(part);
    if n == 0 then (None, part) else (Some(part[..n]), part[n..])
  }

  /** Tries the rotation keywords from index `i` on, in table order. */
  function PeelRotationFrom(s: string, i: nat): (r: (int, string))
    requires i <= |Rotations|
    ensures (forall j :: i <= j < |Rotations| ==> !EndsWith(s, Rotations[j].0)) ==> r == (0, s)
    ensures forall k :: i <= k < |Rotations| && EndsWith(s, Rotations[k].0) && (forall j :: i <= j < k ==> !EndsWith(s, Rotations[j].0))
              ==> r == (Rotations[k].1, s[..|s| - |Rotations[k].0|])
    decreases |Rotations| - i
  {
    if i == |Rotations| then (0, s)
    else if EndsWith(s, Rotations[i].0) then (Rotations[i].1, s[..|s| - |Rotations[i].0|])
    else PeelRotationFrom(s, i + 1)
  }

  /** The rotation of a token and what is left of it: the first keyword of the table that
      ends the token is removed; without one the rotation is 0. */
  function PeelRotation(s: string): (r: (int, string)) {
    PeelRotationFrom(s, 0)
  }

  /** The `even` / `odd` qualifier at the end of what the rotation left. */
  function PeelQualifier(s: string): (r: (Option<Parity>, string))
    ensures r.0 == Some(Even) <==> EndsWith(s, "even")
    ensures r.0 == Some(Odd) <==> EndsWith(s, "odd")
    ensures r.0.None? ==> r.1 == s
    ensures r.0.Some? ==> s == r.1 + ParityKeyword(r.0.value)
  {
    EvenNotOdd(s);
    if EndsWith(s, "even") then (Some(Even), s[..|s| - 4])
    else if EndsWith(s, "odd") then (Some(Odd), s[..|s| - 3])
    else (None, s)
  }

  lemma EvenNotOdd(s: string)
    ensures !(EndsWith(s, "even") && EndsWith(s, "odd"))
  {
    if EndsWith(s, "even") {
      assert s[|s| - 1] == s[|s| - 4..][3];
      assert s[|s| - 1] == 'n';
    }
  }

  /** The meaning of one whitespace-free token: the specification of `ParseSingle`. */
  function ParseToken(readers: map<string, nat>, defaultReader: Option<nat>, part: string): (r: Result<PageSpec, ParseError>)
    ensures r.Ok? ==> r.value.handle == SplitHandle(part).0
    ensures r.Err? && r.error.UnknownHandle? ==> SplitHandle(part) == (Some(r.error.name), [])
  {
    var (handle, remaining) := SplitHandle(part);
    if remaining == [] && handle.Some? then HandleOnly(readers, handle.value)
    else
      var (rotation, rest) := PeelRotation(remaining);
      var (qualifier, position) := PeelQualifier(rest);
      var pages :- ParsePageSpec(readers, defaultReader, position, handle);
      Ok(PageSpec(handle, if qualifier.Some? then ApplyQualifier(pages, qualifier.value) else pages, rotation))
  }

  /** Runs `parse` over the tokens in order and collects the results, stopping at the first
      token that raises. */
  function ParseEach<X>(parse: X -> Result<PageSpec, ParseError>, tokens: seq<X>): Result<seq<PageSpec>, ParseError> {
    if tokens == [] then Ok([])
    else
      var init :- ParseEach(parse, tokens[..|tokens| - 1]);
      var last :- parse(tokens[|tokens| - 1]);
      Ok(init + [last])
  }

  function ParseTokens(readers: map<string, nat>, defaultReader: Option<nat>, tokens: seq<string>): Result<seq<PageSpec>, ParseError> {
    ParseEach(part => ParseToken(readers, defaultReader, part), tokens)
  }

  /** The meaning of a whole range string: the specification of `Parse`. */
  function ParseRange(readers: map<string, nat>, defaultReader: Option<nat>, rangeStr: string): (r: Result<seq<PageSpec>, ParseError>)
    ensures r.Ok? ==> |r.value| == |Words(rangeStr)|
  {
    if IsBlank(rangeStr) then WordsBlank(rangeStr); Ok([])
    else
      ParseEachPerToken(part => ParseToken(readers, defaultReader, part), Words(rangeStr));
      ParseTokens(readers, defaultReader, Words(rangeStr))
  }

  // ---------------------------------------------------------------------------
  // The parser object
  // ---------------------------------------------------------------------------

  class PageRangeParser {
    var readers: map<string, nat>
    var defaultReader: Option<nat>

    /** Without a default document, a parser over exactly one document uses that one. */
    constructor (readers: map<string, nat>, defaultReader: Option<nat>)
      ensures this.readers == readers
      ensures defaultReader.Some? || |readers| != 1 ==> this.defaultReader == defaultReader
      ensures defaultReader.None? && |readers| == 1 ==>
                this.defaultReader.Some? && forall h :: h in readers ==> readers[h] == this.defaultReader.value
    {
      this.readers := readers;
      this.defaultReader := defaultReader;
      if defaultReader.None? && |readers| == 1 {
        SingletonMap(readers);
        var h :| h in readers;
        this.defaultReader := Some(readers[h]);
      }
    }

    /** Parses a range string into page specifications, one per whitespace-separated token. */
    method Parse(rangeStr: string) returns (r: Result<seq<PageSpec>, ParseError>)
      ensures r == ParseRange(readers, defaultReader, rangeStr)
    {
      if IsBlank(rangeStr) {
        return Ok([]);
      }
      var parts := Words(rangeStr);
      var specs := [];
      var rs, d := readers, defaultReader;
      ghost var parse := part => ParseToken(rs, d, part);
      for i := 0 to |parts|
        invariant ParseEach(parse, parts[..i]) == Ok(specs)
      {
        ParseEachStep(parse, parts, i);
        var spec := ParseSingle(parts[i]);
        if spec.Err? {
          ErrorPersists(parse, parts, i + 1);
          return Err(spec.error);
        }
        // the Python code appends only truthy results; a `PageSpec` is always truthy
        specs := specs + [spec.value];
      }
      assert parts[..|parts|] == parts;
      return Ok(specs);
    }

    /** Parses one token: handle, then rotation, then qualifier, then the page expression. */
    method ParseSingle(part: string) returns (r: Result<PageSpec, ParseError>)
      ensures r == ParseToken(readers, defaultReader, part)
    {
      var handle: Option<string> := None;
      var remaining := part;
      if |part| > 0 && IsAsciiUpper(part[0]) {
        var n := HandleLength(part);
        handle := Some(part[..n]);
        remaining := part[n..];
      }
      assert (handle, remaining) == SplitHandle(part);
      if remaining == [] && handle.Some? {
        return HandleOnly(readers, handle.value);
      }

      var rotation := 0;
      ghost var unrotated := remaining;
      for i := 0 to |Rotations|
        invariant remaining == unrotated && rotation == 0
        invariant PeelRotationFrom(unrotated, i) == PeelRotation(unrotated)
      {
        var (keyword, degrees) := Rotations[i];
        if EndsWith(remaining, keyword) {
          rotation := degrees;
          remaining := remaining[..|remaining| - |keyword|];
          break;
        }
      }
      assert (rotation, remaining) == PeelRotation(unrotated);

      var qualifier: Option<Parity> := None;
      if EndsWith(remaining, "even") {
        qualifier := Some(Even);
        remaining := remaining[..|remaining| - 4];
      } else if EndsWith(remaining, "odd") {
        qualifier := Some(Odd);
        remaining := remaining[..|remaining| - 3];
      }

      var pages :- ParsePageSpec(readers, defaultReader, remaining, handle);
      if qualifier.Some? {
        pages := ApplyQualifier(pages, qualifier.value);
      }
      return Ok(PageSpec(handle, pages, rotation));
    }
  }

  /** All keys of a one-entry map are the same key. */
  lemma SingletonMap(m: map<string, nat>)
    requires |m| == 1
    ensures exists h :: h in m
    ensures forall h, h' :: h in m && h' in m ==> h == h'
  {
    assert m.Keys != {};
    var h :| h in m.Keys;
    assert |m.Keys - {h}| == 0;
    assert m.Keys - {h} == {};
    forall h' | h' in m
      ensures h' == h
    {
      assert h' !in m.Keys - {h};
    }
  }

  // ---------------------------------------------------------------------------
  // Properties
  // ---------------------------------------------------------------------------

  /** A token that is a bare handle is read as that handle alone. */
  lemma HandleOnlyToken(readers: map<string, nat>, part: string)
    requires SplitHandle(part).0.Some? && SplitHandle(part).1 == []
    ensures forall defaultReader :: ParseToken(readers, defaultReader, part) == HandleOnly(readers, SplitHandle(part).0.value)
  {
  }

  /** The steps of reading a token that is more than a bare handle, given what each step peels off. */
  lemma TokenPieces(readers: map<string, nat>, defaultReader: Option<nat>, part: string,
                    handle: Option<string>, body: string, rotation: int, inner: string,
                    qualifier: Option<Parity>, position: string)
    requires SplitHandle(part) == (handle, body) && !(body == [] && handle.Some?)
    requires PeelRotation(body) == (rotation, inner)
    requires PeelQualifier(inner) == (qualifier, position)
    ensures ParseToken(readers, defaultReader, part) ==
              match ParsePageSpec(readers, defaultReader, position, handle)
              case Err(e) => Err(e)
              case Ok(pages) =>
                Ok(PageSpec(handle, if qualifier.Some? then ApplyQualifier(pages, qualifier.value) else pages, rotation))
  {
  }

  /** One more token: the prefix up to it parses as the shorter prefix, then that token. */
  lemma ParseEachStep<X>(parse: X -> Result<PageSpec, ParseError>, tokens: seq<X>, i: nat)
    requires i < |tokens|
    ensures ParseEach(parse, tokens[..i + 1]) ==
              match ParseEach(parse, tokens[..i])
              case Err(e) => Err(e)
              case Ok(init) => match parse(tokens[i])
                case Err(e) => Err(e)
                case Ok(last) => Ok(init + [last])
  {
    assert tokens[..i + 1][..i] == tokens[..i];
  }

  /** Once a prefix of the tokens raises, the whole list raises the same error. */
  lemma {:induction false} ErrorPersists<X>(parse: X -> Result<PageSpec, ParseError>, tokens: seq<X>, k: nat)
    requires k <= |tokens|
    requires ParseEach(parse, tokens[..k]).Err?
    ensures ParseEach(parse, tokens) == ParseEach(parse, tokens[..k])
    decreases |tokens| - k
  {
    if k < |tokens| {
      var longer := tokens[..k + 1];
      assert longer[..|longer| - 1] == tokens[..k];
      ErrorPersists(parse, tokens, k + 1);
    } else {
      assert tokens[..k] == tokens;
    }
  }

  /** One result per token: the tokens parse exactly when each of them does, and then the
      i-th specification is the i-th token's. */
  lemma {:induction false} ParseEachPerToken<X>(parse: X -> Result<PageSpec, ParseError>, tokens: seq<X>)
    ensures ParseEach(parse, tokens).Ok? <==> forall i :: 0 <= i < |tokens| ==> parse(tokens[i]).Ok?
    ensures ParseEach(parse, tokens).Ok? ==>
              |ParseEach(parse, tokens).value| == |tokens| &&
              forall i :: 0 <= i < |tokens| ==> parse(tokens[i]) == Ok(ParseEach(parse, tokens).value[i])
  {
    if tokens != [] {
      var init := tokens[..|tokens| - 1];
      ParseEachPerToken(parse, init);
      assert forall i :: 0 <= i < |init| ==> init[i] == tokens[i];
    }
  }

  /** Fail-fast: when the tokens raise, the error is that of the first token that raises. */
  lemma {:induction false} ParseEachFirstError<X>(parse: X -> Result<PageSpec, ParseError>, tokens: seq<X>)
    requires ParseEach(parse, tokens).Err?
    ensures exists i :: 0 <= i < |tokens| && parse(tokens[i]) == Err(ParseEach(parse, tokens).error) &&
              forall j :: 0 <= j < i ==> parse(tokens[j]).Ok?
  {
    var init := tokens[..|tokens| - 1];
    var e := ParseEach(parse, tokens).error;
    assert forall i :: 0 <= i < |init| ==> init[i] == tokens[i];
    if ParseEach(parse, init).Err? {
      ParseEachFirstError(parse, init);
      var i :| 0 <= i < |init| && parse(init[i]) == Err(ParseEach(parse, init).error) &&
        forall j :: 0 <= j < i ==> parse(init[j]).Ok?;
      assert parse(tokens[i]) == Err(e);
    } else {
      ParseEachPerToken(parse, init);
      assert parse(tokens[|tokens| - 1]) == Err(e);
    }
  }

  /** Parsing two lists of tokens that parse alike, token by token, gives the same result. */
  lemma {:induction false} ParseEachAlike<X, Y>(f: X -> Result<PageSpec, ParseError>, xs: seq<X>,
                                                g: Y -> Result<PageSpec, ParseError>, ys: seq<Y>)
    requires |xs| == |ys|
    requires forall i :: 0 <= i < |xs| ==> f(xs[i]) == g(ys[i])
    ensures ParseEach(f, xs) == ParseEach(g, ys)
  {
    if xs != [] {
      var xi, yi := xs[..|xs| - 1], ys[..|ys| - 1];
      assert forall i :: 0 <= i < |xi| ==> xi[i] == xs[i] && yi[i] == ys[i];
      ParseEachAlike(f, xi, g, yi);
    }
  }

  /** The blank test in front of the split is redundant: a blank string has no tokens. */
  lemma ParseRangeIsPerToken(readers: map<string, nat>, defaultReader: Option<nat>, rangeStr: string)
    ensures ParseRange(readers, defaultReader, rangeStr) == ParseTokens(readers, defaultReader, Words(rangeStr))
    ensures IsBlank(rangeStr) ==> ParseRange(readers, defaultReader, rangeStr) == Ok([])
  {
    WordsBlank(rangeStr);
  }

  /** The rotation keywords are suffix-free: none ends another. */
  lemma RotationKeywordsSuffixFree(i: nat, j: nat)
    requires i < |Rotations| && j < |Rotations| && i != j
    ensures !EndsWith(Rotations[i].0, Rotations[j].0)
  {
    var a, b := Rotations[i].0, Rotations[j].0;
    if |b| <= |a| {
      assert a[|a| - 1] != b[|b| - 1] || a[|a| - 2] != b[|b| - 2] || a[|a| - 3] != b[|b| - 3];
    }
  }

  /** Hence at most one rotation keyword ends any token, and the table order never decides. */
  lemma AtMostOneRotation(s: string, i: nat, j: nat)
    requires i < |Rotations| && j < |Rotations|
    requires EndsWith(s, Rotations[i].0) && EndsWith(s, Rotations[j].0)
    ensures i == j
  {
    var a, b := Rotations[i].0, Rotations[j].0;
    if i != j {
      if |b| <= |a| {
        assert a[|a| - |b|..] == s[|s| - |b|..];
        RotationKeywordsSuffixFree(i, j);
      } else {
        assert b[|b| - |a|..] == s[|s| - |a|..];
        RotationKeywordsSuffixFree(j, i);
      }
    }
  }

  /** A token ending in the k-th rotation keyword gets that keyword's degrees, and the keyword
      is removed. */
  lemma PeelRotationAppend(body: string, k: nat)
    requires k < |Rotations|
    ensures PeelRotation(body + Rotations[k].0) == (Rotations[k].1, body)
  {
    var s := body + Rotations[k].0;
    assert EndsWith(s, Rotations[k].0);
    forall j | 0 <= j < k
      ensures !EndsWith(s, Rotations[j].0)
    {
      if EndsWith(s, Rotations[j].0) {
        AtMostOneRotation(s, j, k);
      }
    }
    assert s[..|s| - |Rotations[k].0|] == body;
  }

  /** The keyword table, keyword by keyword: `left` stays -90, nothing is normalised. */
  lemma RotationDegrees(body: string)
    ensures PeelRotation(body + "north") == (0, body)
    ensures PeelRotation(body + "east") == (90, body)
    ensures PeelRotation(body + "south") == (180, body)
    ensures PeelRotation(body + "west") == (270, body)
    ensures PeelRotation(body + "left") == (-90, body)
    ensures PeelRotation(body + "right") == (90, body)
    ensures PeelRotation(body + "down") == (180, body)
  {
    PeelRotationAppend(body, 0);
    PeelRotationAppend(body, 1);
    PeelRotationAppend(body, 2);
    PeelRotationAppend(body, 3);
    PeelRotationAppend(body, 4);
    PeelRotationAppend(body, 5);
    PeelRotationAppend(body, 6);
  }
}
