# pdftk page ranges, in Dafny

This project models the page-range language of the pdftk clone and its input-file list.

A range string such as `"A1-10east B5-20odd Bend-1evensouth"` is parsed into `PageSpec`s, one per whitespace-separated token, in order. Each `PageSpec` has a handle, an ordered list of pages and a rotation. The parser reads each token in four steps:

- it peels a leading run of capitals `[A-Z]+` as the handle;
- it peels a trailing rotation keyword, trying the keywords in the order of the rotation table;
- it peels a trailing `even` or `odd` qualifier;
- it reads what remains as a page position (`N`, `end`, `rN`, `rend`) or a range of two positions joined by `-`. The range counts up or down inclusively, and the qualifier filters it by absolute parity.

A document is represented only by its page count. The parser gets a map from handle to page count and, optionally, the page count of a default document.

The input-file list turns each `HANDLE=path` into an upper-cased entry of the handle map and a file, and each plain path into a file only.

Files:

- `results.dfy`: `Option` and `Result`. A raised `ValueError` is an `Err`.
- `pystrings.dfy`: the Python string built-ins the code relies on:
  - `str.split()` and the blank test `not s.strip()`, over Python's full whitespace set;
  - `str.endswith`;
  - the first occurrence of a separator, for `in` and `split(sep, 1)`;
  - ASCII `str.upper()`;
  - `int()` on decimal digit strings, and `str()` on naturals.
- `parser.dfy`:
  - the page-range parser as module functions on values (`ResolvePageNumber`, `Span`, `ApplyQualifier`, `GetReader`, `HandleOnly`, `ParsePageSpec`, `ParseToken`, `ParseRange`);
  - the class `PageRangeParser`, whose fields are the readers and the default reader. Its methods `Parse` (the token loop) and `ParseSingle` (the step-by-step peeling, with the `for … break` loop over the rotation table) are proved equal to those functions;
  - the properties.
- `rangegrammar.dfy`:
  - an abstract syntax of tokens (`Atom`), the text each is written as, and an independent statement of what each means;
  - the proof that the parser reads every such text back to its meaning (`TokenMeaning`, `RangeMeaning`);
  - worked examples.
- `utils.dfy`: `parse_input_files` as a loop (`ParseInputFiles`), proved equal to the functions `Handles` and `Files`, and the properties of those functions.

Some behaviour of the code is worth stating outright, because a reader might expect otherwise:

- pages are not checked against the page count (`11-15` on a 10-page document gives 11 to 15);
- `left` stays -90 and no rotation is normalised, although the `PageSpec` docstring (src/pdftk/parser.py:25) lists only 0, 90, 180 and 270;
- a token whose page position is empty (`Aeven`, `east`) gives no pages and consults no document;
- a range that the qualifier filters to nothing is not an error;
- there is no "ambiguous default document" error.

When there is no default and exactly one document, that document becomes the default, but a handle-less `PageSpec` keeps its handle `None`.

## Model

| member | source | states |
|---|---|---|
| Parser.PageRangeParser.constructor | src/pdftk/parser.py:55-70 | keeps the readers; keeps the default when one is given or there is not exactly one reader; otherwise the default is the page count of the sole reader |
| Parser.PageRangeParser.Parse | src/pdftk/parser.py:72-101 | the token loop returns exactly `ParseRange`: blank input gives no specs, otherwise the tokens in order, failing with the first token's error |
| Parser.PageRangeParser.ParseSingle | src/pdftk/parser.py:103-151 | the step-by-step peeling (handle, rotation loop with `break`, qualifier, page expression, filter) returns exactly `ParseToken` |
| Parser.ParseRangeIsPerToken | src/pdftk/parser.py:89-93 | a blank string gives the empty list, and the blank test agrees with splitting into no tokens |
| Parser.ParseEachPerToken | src/pdftk/parser.py:96-101 | the tokens parse exactly when every token parses, and then there is one spec per token, the i-th being the i-th token's |
| Parser.ParseEachFirstError | src/pdftk/parser.py:96-99 | when parsing fails, the error is that of the first token that fails, and every earlier token parses |
| Parser.ErrorPersists | src/pdftk/parser.py:96-99 | once a prefix of the tokens fails, the whole list fails with the same error |
| Parser.ParseEachAlike | src/pdftk/parser.py:96-101 | two token lists whose tokens parse alike, position by position, parse alike as lists |
| Parser.ParseRange | src/pdftk/parser.py:72-101 | a parsed string gives exactly one spec per whitespace-separated token; `ParseRangeIsPerToken` states that it is the token-by-token parse and `RangeMeaning` what it means |
| Parser.ParseEach | src/pdftk/parser.py:96-99 | the token loop for any per-token parse, stopping at the first error; `ParseEachPerToken`, `ParseEachFirstError` and `ErrorPersists` state it |
| Parser.ParseTokens | src/pdftk/parser.py:96-99 | the raising loop over the tokens; `ParseEachPerToken` and `ParseEachFirstError` state its results and its error |
| Parser.ParseToken | src/pdftk/parser.py:103-151 | a parsed token keeps the handle peeled off its front, and an unknown-handle error comes only from a token that is a bare handle; `RangeGrammar.TokenMeaning` states its full meaning and `PageRangeParser.ParseSingle` computes it step by step |
| Parser.ResolvePageNumber | src/pdftk/parser.py:206-225 | every failure is an invalid literal, and `rend` is page 1 although it starts with `r`; `ResolveAccepts` states which positions resolve and `RangeGrammar.ResolveBound` to what |
| Parser.ResolveAccepts | src/pdftk/parser.py:206-225 | a position resolves exactly when it is `end`, `rend`, `r` followed by digits, or digits |
| Parser.Span | src/pdftk/parser.py:195-200 | the range has `abs(start - stop) + 1` pages, the i-th being `start + i` counting up or `start - i` counting down |
| Parser.SpanReversed | src/pdftk/parser.py:195-200 | the range from `stop` to `start` is the reverse of the range from `start` to `stop` |
| Parser.SpanConsecutive | src/pdftk/parser.py:195-200 | consecutive pages of a range differ by +1 counting up and by -1 counting down |
| Parser.AllPages | src/pdftk/parser.py:161-162 | every page of a document: `totalPages` pages, the i-th being `i + 1` |
| Parser.ApplyQualifier | src/pdftk/parser.py:227-242 | the filtered list is no longer than the input and holds only pages of the requested parity |
| Parser.ApplyQualifierCounts | src/pdftk/parser.py:237-240 | each page of the requested parity is kept as often as it occurs in the input; no other page is kept |
| Parser.ApplyQualifierConcat | src/pdftk/parser.py:237-240 | filtering distributes over concatenation, so the kept pages stay in input order |
| Parser.QualifiersPartition | src/pdftk/parser.py:237-240 | the even pages and the odd pages together are as many as the input |
| Parser.ParsePageSpec | src/pdftk/parser.py:165-204 | a successful page expression gives no pages exactly when the expression is empty |
| Parser.GetReader | src/pdftk/parser.py:244-256 | with a handle, a document is found exactly when the handle is known, and it is that handle's own page count, never the default; without a handle the default is used |
| Parser.HandleOnly | src/pdftk/parser.py:153-163 | a bare handle succeeds exactly when it names a document, giving every page 1 to n of it, unrotated, under that handle; otherwise it is an unknown-handle error naming it |
| Parser.HandleLength | src/pdftk/parser.py:116-120 | the longest prefix of ASCII capitals: all before it are capitals and the next character is not |
| Parser.SplitHandle | src/pdftk/parser.py:112-120 | the token is the handle followed by the rest; the handle is non-empty capitals, and the rest does not start with a capital |
| Parser.PeelRotationFrom | src/pdftk/parser.py:127-132 | the first keyword of the table that ends the token decides the rotation and is removed; with none the rotation is 0 and the token is unchanged |
| Parser.PeelRotation | src/pdftk/parser.py:127-132 | the rotation loop from the first keyword of the table; `PeelRotationFrom` and `RotationDegrees` state what it peels |
| Parser.PeelQualifier | src/pdftk/parser.py:134-141 | the qualifier is `even` exactly when the text ends in `even` and `odd` exactly when it ends in `odd`; the text is what is left followed by the keyword |
| Parser.RotationKeywordsSuffixFree | src/pdftk/parser.py:45-53 | no rotation keyword ends another |
| Parser.AtMostOneRotation | src/pdftk/parser.py:127-132 | at most one rotation keyword ends any token, so the table order never changes the outcome |
| Parser.PeelRotationAppend | src/pdftk/parser.py:127-132 | a token ending in a keyword gets that keyword's degrees, and the keyword is removed |
| Parser.RotationDegrees | src/pdftk/parser.py:45-53 | north 0, east 90, south 180, west 270, left -90, right 90, down 180: the degrees of the `Rotations` table |
| RangeGrammar.TokenMeaning | src/pdftk/parser.py:103-204 | every well-formed token is read as its meaning: a bare handle is all its pages or an unknown-handle error; no position gives no pages; otherwise the named document, or the default one when there is no handle, must exist, and the position's pages are filtered by the qualifier and rotated by the keyword |
| RangeGrammar.RangeMeaning | src/pdftk/parser.py:72-204 | well-formed tokens joined by spaces are read as their meanings, in order, failing at the first token whose meaning is an error |
| RangeGrammar.ResolveBound | src/pdftk/parser.py:216-225 | `end` is the page count, `rend` is 1 (recognised before the `r` prefix), `rN` is `total - N + 1`, and `N` is N |
| RangeGrammar.PagesOfPosition | src/pdftk/parser.py:183-204 | a single position gives a one-page list; a range is split at its `-` and gives the inclusive range between its resolved bounds |
| RangeGrammar.SplitAtom | src/pdftk/parser.py:112-124 | the handle of a well-formed token, and nothing after it, is peeled off |
| RangeGrammar.PeelAtomRotation | src/pdftk/parser.py:126-132 | the rotation keyword of a well-formed token, and nothing before it, is peeled off |
| RangeGrammar.PeelAtomQualifier | src/pdftk/parser.py:134-141 | the qualifier of a well-formed token, and nothing of its position, is peeled off |
| RangeGrammar.AtomIsWord | src/pdftk/parser.py:93 | a well-formed token contains no whitespace, and it is empty only when it has no part at all |
| RangeGrammar.NoBoundsCheck | src/pdftk/parser.py:183-200 | `11-15` on a 10-page default document is pages 11 to 15 |
| RangeGrammar.DescendingEven | src/pdftk/parser.py:199-200 | `10-1even` is pages 10, 8, 6, 4, 2 |
| RangeGrammar.QualifierOnlyHandle | src/pdftk/parser.py:175-176 | `Aeven` gives handle A with no pages, although no document A exists |
| RangeGrammar.LeftIsNegative | src/pdftk/parser.py:50 | `A1-3left` is pages 1 to 3 of A rotated by -90 |
| PyStrings.Words | src/pdftk/parser.py:93 | every word of the split is non-empty and free of whitespace |
| PyStrings.IsBlank | src/pdftk/parser.py:89 | the blank test; `WordsBlank` states that a string is blank exactly when it splits into no words |
| PyStrings.WordsBlank | src/pdftk/parser.py:89-93 | a string splits into no words exactly when it is blank |
| PyStrings.WordsUnwords | src/pdftk/parser.py:93 | non-empty words without whitespace, joined by spaces, split back into the same words |
| PyStrings.WordsSplit | src/pdftk/parser.py:93 | splitting two strings joined by any whitespace character gives the words of the first followed by the words of the second |
| PyStrings.Find | src/pdftk/parser.py:186-189 | the separator is absent exactly when none is found; otherwise the index is that of its first occurrence |
| PyStrings.EndsWith | src/pdftk/parser.py:129-139 | Python's `str.endswith`: the suffix is the last characters of the text |
| PyStrings.Int | src/pdftk/parser.py:222-225 | a string is read as a number exactly when it is a non-empty run of ASCII decimal digits; `IntOfDecimalString` states that the decimal text of a number is read back as it |
| PyStrings.IntOfDecimalString | src/pdftk/parser.py:222-225 | the decimal text of a natural number is read back as that number |
| PyStrings.Upper | src/pdftk/utils.py:33 | the upper-cased text has the same length, with each ASCII lower-case letter upper-cased and every other character kept |
| PyStrings.UpperIdempotent | src/pdftk/utils.py:33 | upper-casing twice is upper-casing once |
| Utils.ParseInputFiles | src/pdftk/utils.py:7-40 | the loop returns exactly the handle map `Handles` and the file list `Files` of the specifications |
| Utils.SplitAssignment | src/pdftk/utils.py:29-31 | a specification without `=` is not split; otherwise it is the handle, `=`, and the path, with no `=` in the handle |
| Utils.Handles | src/pdftk/utils.py:25-33 | the handle map; `HandlesKeys` states its keys and `HandlesLastWins` its values |
| Utils.Files | src/pdftk/utils.py:28-40 | one path per specification, in order |
| Utils.NoInputs | src/pdftk/utils.py:25-26 | no specifications give an empty map and an empty list |
| Utils.AssignmentParts | src/pdftk/utils.py:29-33 | a specification with `=` declares its upper-cased handle, and its path is everything after the first `=` |
| Utils.PlainSpec | src/pdftk/utils.py:35-38 | a specification without `=` is its own path and declares no handle |
| Utils.HandlesKeys | src/pdftk/utils.py:28-38 | the keys of the handle map are exactly the handles the specifications declare |
| Utils.HandlesLastWins | src/pdftk/utils.py:33 | each handle maps to the path of the last specification that declares it |
| Utils.HandlesInFiles | src/pdftk/utils.py:32-34 | every path in the handle map is also in the file list |
| Utils.HandlesAreUpper | src/pdftk/utils.py:33 | every key of the handle map is upper-case |
| Utils.AssignKeys | src/pdftk/utils.py:28-34 | the keys of a map built from declarations are exactly the declared handles |
| Utils.AssignLastWins | src/pdftk/utils.py:33 | each key of a map built from declarations holds the path of its last declaration |

## Left out

- `PdfReader` objects are replaced by their page counts. A reader is always truthy in the Python code, so a document with zero pages is still found; the model agrees.
- `PyStrings.Upper`: upper-cases ASCII letters only, because Python's full Unicode case mapping (for example `ß` becoming `SS`) is not modelled.
- `PyStrings.Int`: accepts only one or more ASCII decimal digits. Python's `int()` also accepts a sign, surrounding whitespace, underscores and non-ASCII digits, so `"5--3"` would give a negative end page there; here that input is an invalid literal. From Python 3.11 on, `int()` also raises on a decimal string of more than 4300 digits, where `Int` returns `Some`.
- Paths are plain strings. The `pathlib.Path` normalisation of `Path(filepath)` is not modelled.
- `RangeGrammar.TokenMeaning`: covers only the tokens its syntax can write, with bounds written without leading zeros. Other tokens are described by `ParseToken` alone.
- The `if spec:` test before appending in `parse` is always true for a `PageSpec`, so it is not modelled as a branch.
- `validate_pdf_exists` checks the file system and is not part of this model.
- `src/pdftk/core.py` (PDF reading and writing, and unimplemented operations) and `src/pdftk/cli.py` (argument parsing, printing, exit codes and the default-handle loop) are not part of this model.
- Error messages are not modelled, only their kinds: an unknown bare handle, a missing document, and an invalid literal.
