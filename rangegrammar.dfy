/**
  The page-range language from the other side: a small abstract syntax for one token
  (an optional handle, an optional page position or range, an optional `even`/`odd` qualifier,
  an optional rotation keyword), the text each token is written as, and what it means.
  The main lemma says the parser reads every such text back to its meaning, and the whole-string
  lemma does the same for tokens joined by spaces.
*/
module RangeGrammar {
  import opened Results
  import opened PyStrings
  import opened Parser

  // ---------------------------------------------------------------------------
  // Syntax
  // ---------------------------------------------------------------------------

  /** One end of a page expression: `N`, `end`, `rN` or `rend`. */
  datatype Bound = Page(n: nat) | End | FromEnd(n: nat) | ReverseEnd

  /** A single page position, or a range `first-last`. */
  datatype Position = Single(at: Bound) | Range(first: Bound, last: Bound)

  /** One token; `rotation` is an index into the rotation keyword table. */
  datatype Atom = Atom(handle: Option<string>, position: Option<Position>, qualifier: Option<Parity>, rotation: Option<nat>)

  /** What the handle pattern `[A-Z]+` matches as a whole. */
  predicate IsHandle(h: string) {
    h != [] && forall i :: 0 <= i < |h| ==> IsAsciiUpper(h[i])
  }

  predicate ValidAtom(a: Atom) {
    && (a.handle.Some? ==> IsHandle(a.handle.value))
    && (a.rotation.Some? ==> a.rotation.value < |Rotations|)
  }

  // ---------------------------------------------------------------------------
  // Text
  // ---------------------------------------------------------------------------

  function BoundText(b: Bound): string {
    match b
    case Page(n) => DecimalString(n)
    case End => "end"
    case FromEnd(n) => "r" + DecimalString(n)
    case ReverseEnd => "rend"
  }

  function PositionText(p: Position): string {
    match p
    case Single(b) => BoundText(b)
    case Range(first, last) => BoundText(first) + "-" + BoundText(last)
  }

  /** The page expression followed by the qualifier: what is left once the rotation is peeled. */
  function InnerText(a: Atom): string {
    (if a.position.Some? then PositionText(a.position.value) else "")
    + (if a.qualifier.Some? then ParityKeyword(a.qualifier.value) else "")
  }

  /** Everything after the handle. */
  function BodyText(a: Atom): string
    requires ValidAtom(a)
  {
    InnerText(a) + if a.rotation.Some? then Rotations[a.rotation.value].0 else ""
  }

  function AtomText(a: Atom): string
    requires ValidAtom(a)
  {
    (if a.handle.Some? then a.handle.value else "") + BodyText(a)
  }

  /** The tokens joined by single spaces. */
  function RangeText(atoms: seq<Atom>): string
    requires forall i :: 0 <= i < |atoms| ==> ValidAtom(atoms[i])
  {
    Unwords(Texts(atoms))
  }

  function Texts(atoms: seq<Atom>): (ts: seq<string>)
    requires forall i :: 0 <= i < |atoms| ==> ValidAtom(atoms[i])
    ensures |ts| == |atoms|
    ensures forall i :: 0 <= i < |atoms| ==> ts[i] == AtomText(atoms[i])
  {
    seq(|atoms|, i requires 0 <= i < |atoms| => AtomText(atoms[i]))
  }

  // ---------------------------------------------------------------------------
  // Meaning
  // ---------------------------------------------------------------------------

  function BoundValue(b: Bound, totalPages: nat): int {
    match b
    case Page(n) => n
    case End => totalPages
    case FromEnd(n) => totalPages - n + 1
    case ReverseEnd => 1
  }

  function PositionPages(p: Position, totalPages: nat): seq<int> {
    match p
    case Single(b) => [BoundValue(b, totalPages)]
    case Range(first, last) => Span(BoundValue(first, totalPages), BoundValue(last, totalPages))
  }

  function Degrees(a: Atom): int {
    if a.rotation.Some? && a.rotation.value < |Rotations| then Rotations[a.rotation.value].1 else 0
  }

  /** What one token selects:
      - a bare handle: every page of that document, unrotated, or an error when the handle is unknown;
      - no page position: no pages, and no document is consulted;
      - otherwise the position resolved against the named document (or the default one when there
        is no handle), filtered by the qualifier, or an error when that document is missing. */
  function Meaning(readers: map<string, nat>, defaultReader: Option<nat>, a: Atom): Result<PageSpec, ParseError> {
    if a.handle.Some? && a.position.None? && a.qualifier.None? && a.rotation.None? then
      var h := a.handle.value;
      if h in readers then Ok(PageSpec(Some(h), AllPages(readers[h]), 0)) else Err(UnknownHandle(h))
    else if a.position.None? then
      Ok(PageSpec(a.handle, [], Degrees(a)))
    else
      var document := if a.handle.Some? then
                        (if a.handle.value in readers then Some(readers[a.handle.value]) else None)
                      else defaultReader;
      match document
      case None => Err(NoReader(a.handle))
      case Some(totalPages) =>
        var pages := PositionPages(a.position.value, totalPages);
        Ok(PageSpec(a.handle, if a.qualifier.Some? then ApplyQualifier(pages, a.qualifier.value) else pages, Degrees(a)))
  }

  // ---------------------------------------------------------------------------
  // Character classes of the text
  // ---------------------------------------------------------------------------

  /** The characters that follow a handle: digits, lower-case letters and `-`. */
  predicate Plain(c: char) {
    IsDigit(c) || IsAsciiLower(c) || c == '-'
  }

  predicate PlainText(s: string) {
    forall i :: 0 <= i < |s| ==> Plain(s[i])
  }

  lemma PlainAppend(x: string, y: string)
    requires PlainText(x) && PlainText(y)
    ensures PlainText(x + y)
  {
    assert forall i :: |x| <= i < |x + y| ==> (x + y)[i] == y[i - |x|];
  }

  lemma PlainBound(b: Bound)
    ensures PlainText(BoundText(b)) && BoundText(b) != []
    ensures '-' !in BoundText(b)
  {
    match b
    case FromEnd(n) =>
      var d := DecimalString(n);
      assert forall i :: 1 <= i < |"r" + d| ==> ("r" + d)[i] == d[i - 1];
    case _ =>
  }

  lemma PlainPosition(p: Position)
    ensures PlainText(PositionText(p)) && PositionText(p) != []
  {
    match p
    case Single(b) => PlainBound(b);
    case Range(first, last) =>
      PlainBound(first);
      PlainBound(last);
      PlainAppend(BoundText(first), "-");
      PlainAppend(BoundText(first) + "-", BoundText(last));
  }

  /** The body is plain, and it is empty exactly when the token is a bare handle (or nothing). */
  lemma PlainBody(a: Atom)
    requires ValidAtom(a)
    ensures PlainText(BodyText(a))
    ensures BodyText(a) == [] <==> a.position.None? && a.qualifier.None? && a.rotation.None?
  {
    var p := if a.position.Some? then PositionText(a.position.value) else "";
    var q := if a.qualifier.Some? then ParityKeyword(a.qualifier.value) else "";
    var r := if a.rotation.Some? then Rotations[a.rotation.value].0 else "";
    if a.position.Some? {
      PlainPosition(a.position.value);
    }
    assert PlainText(q) && PlainText(r);
    PlainAppend(p, q);
    PlainAppend(p + q, r);
  }

  /** A whole token contains no whitespace, and it is empty only when nothing is present. */
  lemma AtomIsWord(a: Atom)
    requires ValidAtom(a)
    ensures NoSpace(AtomText(a))
    ensures AtomText(a) == [] <==> a == Atom(None, None, None, None)
  {
    PlainBody(a);
    var h := if a.handle.Some? then a.handle.value else "";
    var t := AtomText(a);
    assert t == h + BodyText(a);
    forall i | 0 <= i < |t|
      ensures !IsSpace(t[i])
    {
      if i < |h| {
        assert t[i] == h[i];
      } else {
        assert t[i] == BodyText(a)[i - |h|];
      }
    }
  }

  // ---------------------------------------------------------------------------
  // Reading the text back, piece by piece
  // ---------------------------------------------------------------------------

  lemma {:induction false} HandleLengthOf(h: string, body: string)
    requires forall i :: 0 <= i < |h| ==> IsAsciiUpper(h[i])
    requires body == [] || !IsAsciiUpper(body[0])
    ensures HandleLength(h + body) == |h|
  {
    if h != [] {
      assert (h + body)[1..] == h[1..] + body;
      HandleLengthOf(h[1..], body);
    } else {
      assert h + body == body;
    }
  }

  /** The handle, and only the handle, is peeled off the front. */
  lemma SplitAtom(a: Atom)
    requires ValidAtom(a)
    ensures SplitHandle(AtomText(a)) == (a.handle, BodyText(a))
  {
    var body := BodyText(a);
    PlainBody(a);
    if body != [] {
      assert Plain(body[0]);
    }
    var h := if a.handle.Some? then a.handle.value else "";
    HandleLengthOf(h, body);
    assert AtomText(a) == h + body;
    assert (h + body)[..|h|] == h && (h + body)[|h|..] == body;
  }

  /** How a page expression can end: in a digit or in `end`. */
  predicate PositionTail(s: string) {
    s == [] || IsDigit(s[|s| - 1]) || EndsWith(s, "end")
  }

  lemma BoundTail(b: Bound)
    ensures PositionTail(BoundText(b))
  {
    match b
    case Page(n) =>
    case FromEnd(n) =>
      var d := DecimalString(n);
      assert ("r" + d)[|"r" + d| - 1] == d[|d| - 1];
    case _ =>
  }

  lemma TailAppend(x: string, y: string)
    requires y != [] && PositionTail(y)
    ensures PositionTail(x + y)
  {
    var s := x + y;
    assert s[|s| - 1] == y[|y| - 1];
    if EndsWith(y, "end") {
      assert s[|s| - 3..] == y[|y| - 3..];
    }
  }

  lemma PositionTailOf(p: Position)
    ensures PositionTail(PositionText(p))
  {
    match p
    case Single(b) => BoundTail(b);
    case Range(first, last) =>
      BoundTail(last);
      PlainBound(last);
      TailAppend(BoundText(first) + "-", BoundText(last));
  }

  lemma PeelKeyword(p: string, q: Parity)
    ensures PeelQualifier(p + ParityKeyword(q)) == (Some(q), p)
  {
    var k := ParityKeyword(q);
    var s := p + k;
    assert s[|s| - |k|..] == k;
    var r := PeelQualifier(s);
    assert r.1 + ParityKeyword(r.0.value) == p + k;
  }

  lemma PeelNoKeyword(p: string)
    requires PositionTail(p)
    ensures PeelQualifier(p) == (None, p)
  {
  }

  /** The qualifier, and only the qualifier, is peeled off the inner text. */
  lemma PeelAtomQualifier(a: Atom)
    ensures PeelQualifier(InnerText(a)) ==
              (a.qualifier, if a.position.Some? then PositionText(a.position.value) else "")
  {
    var p := if a.position.Some? then PositionText(a.position.value) else "";
    if a.position.Some? {
      PositionTailOf(a.position.value);
    }
    if a.qualifier.Some? {
      PeelKeyword(p, a.qualifier.value);
    } else {
      assert InnerText(a) == p;
      PeelNoKeyword(p);
    }
  }

  /** How the inner text can end: in a digit, in `d` (`end`, `odd`) or in `even`. */
  predicate InnerTail(s: string) {
    s == [] || IsDigit(s[|s| - 1]) || s[|s| - 1] == 'd' || EndsWith(s, "even")
  }

  lemma InnerTailOf(a: Atom)
    ensures InnerTail(InnerText(a))
  {
    var p := if a.position.Some? then PositionText(a.position.value) else "";
    var s := InnerText(a);
    if a.qualifier.Some? {
      var k := ParityKeyword(a.qualifier.value);
      assert s == p + k;
      assert s[|s| - |k|..] == k;
    } else {
      assert s == p;
      if a.position.Some? {
        PositionTailOf(a.position.value);
      }
    }
  }

  /** No rotation keyword ends an inner text. */
  lemma InnerHasNoRotation(s: string)
    requires InnerTail(s)
    ensures forall j :: 0 <= j < |Rotations| ==> !EndsWith(s, Rotations[j].0)
  {
    forall j | 0 <= j < |Rotations|
      ensures EndsWith(s, Rotations[j].0) ==>
                s[|s| - 1] == Rotations[j].0[|Rotations[j].0| - 1] &&
                s[|s| - 3] == Rotations[j].0[|Rotations[j].0| - 3]
    {
    }
  }

  /** The rotation, and only the rotation, is peeled off the body. */
  lemma PeelAtomRotation(a: Atom)
    requires ValidAtom(a)
    ensures PeelRotation(BodyText(a)) == (Degrees(a), InnerText(a))
  {
    if a.rotation.Some? {
      PeelRotationAppend(InnerText(a), a.rotation.value);
    } else {
      InnerTailOf(a);
      InnerHasNoRotation(InnerText(a));
      assert BodyText(a) == InnerText(a);
    }
  }

  /** Each bound resolves to its value: `rend` is recognised before the `r` prefix. */
  lemma ResolveBound(b: Bound, totalPages: nat)
    ensures ResolvePageNumber(BoundText(b), totalPages) == Ok(BoundValue(b, totalPages))
  {
    match b
    case Page(n) =>
      IntOfDecimalString(n);
      var d := DecimalString(n);
      assert IsDigit(d[0]);
    case FromEnd(n) =>
      IntOfDecimalString(n);
      var d := DecimalString(n);
      var s := "r" + d;
      assert s[1] == d[0] && IsDigit(s[1]);
      assert s[1..] == d;
    case _ =>
  }

  /** A position resolves to its pages. */
  lemma PagesOfPosition(readers: map<string, nat>, defaultReader: Option<nat>, p: Position, handle: Option<string>, totalPages: nat)
    requires GetReader(readers, defaultReader, handle) == Some(totalPages)
    ensures ParsePageSpec(readers, defaultReader, PositionText(p), handle) == Ok(PositionPages(p, totalPages))
  {
    PlainPosition(p);
    match p
    case Single(b) =>
      PlainBound(b);
      ResolveBound(b, totalPages);
    case Range(first, last) =>
      PlainBound(first);
      var x, y := BoundText(first), BoundText(last);
      FindAfter(x, '-', y);
      assert (x + "-" + y)[..|x|] == x;
      assert (x + "-" + y)[|x| + 1..] == y;
      ResolveBound(first, totalPages);
      ResolveBound(last, totalPages);
  }

  // ---------------------------------------------------------------------------
  // Theorems
  // ---------------------------------------------------------------------------

  /** The parser reads every token back to its meaning. */
  lemma TokenMeaning(readers: map<string, nat>, defaultReader: Option<nat>, a: Atom)
    requires ValidAtom(a)
    ensures ParseToken(readers, defaultReader, AtomText(a)) == Meaning(readers, defaultReader, a)
  {
    SplitAtom(a);
    PlainBody(a);
    if a.handle.Some? && BodyText(a) == [] {
      HandleOnlyToken(readers, AtomText(a));
    } else {
      var position := if a.position.Some? then PositionText(a.position.value) else "";
      PeelAtomRotation(a);
      PeelAtomQualifier(a);
      TokenPieces(readers, defaultReader, AtomText(a), a.handle, BodyText(a), Degrees(a), InnerText(a), a.qualifier, position);
      if a.position.None? {
        NoPositionMeaning(readers, defaultReader, a);
      } else {
        PositionMeaning(readers, defaultReader, a);
      }
    }
  }

  lemma NoPositionMeaning(readers: map<string, nat>, defaultReader: Option<nat>, a: Atom)
    requires a.position.None? && !(a.handle.Some? && a.qualifier.None? && a.rotation.None?)
    ensures Meaning(readers, defaultReader, a) ==
              match ParsePageSpec(readers, defaultReader, "", a.handle)
              case Err(e) => Err(e)
              case Ok(pages) =>
                Ok(PageSpec(a.handle, if a.qualifier.Some? then ApplyQualifier(pages, a.qualifier.value) else pages, Degrees(a)))
  {
    if a.qualifier.Some? {
      assert ApplyQualifier([], a.qualifier.value) == [];
    }
  }

  lemma PositionMeaning(readers: map<string, nat>, defaultReader: Option<nat>, a: Atom)
    requires a.position.Some? && (a.handle.Some? ==> IsHandle(a.handle.value))
    ensures Meaning(readers, defaultReader, a) ==
              match ParsePageSpec(readers, defaultReader, PositionText(a.position.value), a.handle)
              case Err(e) => Err(e)
              case Ok(pages) =>
                Ok(PageSpec(a.handle, if a.qualifier.Some? then ApplyQualifier(pages, a.qualifier.value) else pages, Degrees(a)))
  {
    var document := GetReader(readers, defaultReader, a.handle);
    PlainPosition(a.position.value);
    if document.Some? {
      PagesOfPosition(readers, defaultReader, a.position.value, a.handle, document.value);
    }
  }

  /** The parser reads tokens joined by spaces back to their meanings, in order, stopping at the
      first token whose meaning is an error. */
  lemma RangeMeaning(readers: map<string, nat>, defaultReader: Option<nat>, atoms: seq<Atom>)
    requires forall i :: 0 <= i < |atoms| ==> ValidAtom(atoms[i]) && atoms[i] != Atom(None, None, None, None)
    ensures ParseRange(readers, defaultReader, RangeText(atoms)) ==
              ParseEach(a => Meaning(readers, defaultReader, a), atoms)
  {
    var ts := Texts(atoms);
    forall i | 0 <= i < |ts|
      ensures ts[i] != [] && NoSpace(ts[i])
    {
      AtomIsWord(atoms[i]);
    }
    WordsUnwords(ts);
    ParseRangeIsPerToken(readers, defaultReader, RangeText(atoms));
    forall i | 0 <= i < |ts|
      ensures ParseToken(readers, defaultReader, ts[i]) == Meaning(readers, defaultReader, atoms[i])
    {
      TokenMeaning(readers, defaultReader, atoms[i]);
    }
    ParseEachAlike(part => ParseToken(readers, defaultReader, part), ts,
                   a => Meaning(readers, defaultReader, a), atoms);
  }

  // ---------------------------------------------------------------------------
  // Examples
  // ---------------------------------------------------------------------------

  /** A range written out page by page. */
  lemma SpanIs(start: int, stop: int, pages: seq<int>)
    requires |pages| == Distance(start, stop) + 1
    requires forall i :: 0 <= i < |pages| ==> pages[i] == if start <= stop then start + i else start - i
    ensures Span(start, stop) == pages
  {
  }

  /** Reads an example token through the main lemma, once its text and its meaning are known. */
  lemma ReadExample(readers: map<string, nat>, defaultReader: Option<nat>, a: Atom, text: string, expected: Result<PageSpec, ParseError>)
    requires ValidAtom(a) && AtomText(a) == text && Meaning(readers, defaultReader, a) == expected
    ensures ParseToken(readers, defaultReader, text) == expected
  {
    TokenMeaning(readers, defaultReader, a);
  }

  /** Pages are not checked against the page count: `11-15` on a 10-page document is 11 to 15. */
  lemma NoBoundsCheck()
    ensures ParseToken(map[], Some(10), "11-15") == Ok(PageSpec(None, [11, 12, 13, 14, 15], 0))
  {
    var a := Atom(None, Some(Range(Page(11), Page(15))), None, None);
    assert AtomText(a) == "11-15" by {
      assert DecimalString(11) == "11" && DecimalString(15) == "15";
    }
    assert Meaning(map[], Some(10), a) == Ok(PageSpec(None, [11, 12, 13, 14, 15], 0)) by {
      SpanIs(11, 15, [11, 12, 13, 14, 15]);
    }
    ReadExample(map[], Some(10), a, "11-15", Ok(PageSpec(None, [11, 12, 13, 14, 15], 0)));
  }

  /** A descending range filtered to its even pages keeps them in descending order. */
  lemma DescendingEven()
    ensures ParseToken(map[], Some(10), "10-1even") == Ok(PageSpec(None, [10, 8, 6, 4, 2], 0))
  {
    var a := Atom(None, Some(Range(Page(10), Page(1))), Some(Even), None);
    assert AtomText(a) == "10-1even" by {
      assert DecimalString(10) == "10" && DecimalString(1) == "1";
    }
    assert Meaning(map[], Some(10), a) == Ok(PageSpec(None, [10, 8, 6, 4, 2], 0)) by {
      SpanIs(10, 1, [10, 9, 8, 7, 6, 5, 4, 3, 2, 1]);
      EvenPagesDown();
    }
    ReadExample(map[], Some(10), a, "10-1even", Ok(PageSpec(None, [10, 8, 6, 4, 2], 0)));
  }

  lemma EvenPagesDown()
    ensures ApplyQualifier([10, 9, 8, 7, 6, 5, 4, 3, 2, 1], Even) == [10, 8, 6, 4, 2]
  {
    EvenPagesHigh();
    EvenPagesLow();
    ApplyQualifierConcat([10, 9, 8, 7, 6], [5, 4, 3, 2, 1], Even);
    assert [10, 9, 8, 7, 6] + [5, 4, 3, 2, 1] == [10, 9, 8, 7, 6, 5, 4, 3, 2, 1];
  }

  lemma EvenPagesHigh()
    ensures ApplyQualifier([10, 9, 8, 7, 6], Even) == [10, 8, 6]
  {
  }

  lemma EvenPagesLow()
    ensures ApplyQualifier([5, 4, 3, 2, 1], Even) == [4, 2]
  {
    EvenPagesLowest();
    assert [5, 4, 3, 2, 1][1..] == [4, 3, 2, 1];
    assert [4, 3, 2, 1][1..] == [3, 2, 1];
  }

  lemma EvenPagesLowest()
    ensures ApplyQualifier([3, 2, 1], Even) == [2]
  {
  }

  /** A handle followed only by a qualifier selects no pages and needs no document. */
  lemma QualifierOnlyHandle()
    ensures ParseToken(map[], None, "Aeven") == Ok(PageSpec(Some("A"), [], 0))
  {
    var a := Atom(Some("A"), None, Some(Even), None);
    assert AtomText(a) == "Aeven";
    ReadExample(map[], None, a, "Aeven", Ok(PageSpec(Some("A"), [], 0)));
  }

  /** `left` is -90, not 270. */
  lemma LeftIsNegative()
    ensures ParseToken(map["A" := 5], None, "A1-3left") == Ok(PageSpec(Some("A"), [1, 2, 3], -90))
  {
    var a := Atom(Some("A"), Some(Range(Page(1), Page(3))), None, Some(4));
    assert AtomText(a) == "A1-3left" by {
      assert DecimalString(1) == "1" && DecimalString(3) == "3";
    }
    assert Meaning(map["A" := 5], None, a) == Ok(PageSpec(Some("A"), [1, 2, 3], -90)) by {
      SpanIs(1, 3, [1, 2, 3]);
    }
    ReadExample(map["A" := 5], None, a, "A1-3left", Ok(PageSpec(Some("A"), [1, 2, 3], -90)));
  }

}
