# Largest number in a document, modelled in Dafny

This project models the core of `extract_largest_number.py`. The program
reads the text of every page of a PDF document and splits each page's text
on whitespace. It cleans each raw token with `preproc` and parses what is
left as a float. The answer is the largest value found, or None when no
value was found anywhere.

The files:

- `option.dfy` (module `Wrappers`): `Option`, standing for Python's `None`.
- `preproc.dfy` (module `Normalizer`): the constants `VALID_START` and
  `VALID_END`, and the token cleaner. `Normalized` is the specification, as a
  chain of small functions. The method `Preproc` follows the source step by
  step: the two parenthesis strips, the two pointer loops, the slice, the
  dropped trailing dot, and the removed commas.
- `split.dfy` (module `TextSplit`): `str.split()` with no argument, as a
  function on strings.
- `decimal.dfy` (module `Decimal`): a decimal numeral parser with exact
  `real` values. It is one choice of the parser that stands in for `float()`.
- `largest.dfy` (module `Largest`): the scan. `DocValues` is the
  specification: every successfully parsed token value of the document, in
  scan order. `MaxOf` is its maximum. The method `FindLargestNumber` follows
  the source's nested loops and running maximum, and is proved equal to
  `MaxOf(DocValues(...))`. The lemmas then say what that value is in terms
  of the document's tokens. The parser is the method's parameter `parse`.
- `scenarios.dfy` (module `Scenarios`): whole documents scanned with
  `Decimal.Parse`.

Two behaviours of the code are worth knowing, and the model keeps both:

- `preproc(".")` returns `""`, not None: the slice "." is non-empty, and
  the trailing-dot strip then empties it (`Normalizer.ExampleLoneDot`). The
  scanner skips that result at line 84.
- `preproc` is not idempotent: "1.." gives "1.", which gives "1"; and "1)."
  gives "1)", which gives "1" (`Normalizer.NormalizedNotIdempotent`).

## Model

| member | source | states |
|---|---|---|
| Normalizer.Normalized | extract_largest_number.py:8-57 | what `preproc` returns; specified by NormalizedNoneIff and NormalizedShape, and computed step by step by Preproc |
| Normalizer.StripParens | extract_largest_number.py:23-29 | the two strips; specified by StripParensShape |
| Normalizer.Candidate | extract_largest_number.py:31-47 | the slice between the two scans; specified by CandidateShape and CandidateBounds |
| Normalizer.DropDot | extract_largest_number.py:49-51 | one trailing '.' goes; specified by DropDotShape, and ExampleDoubleDot and ExampleLoneDot show it |
| Normalizer.DropDotShape | extract_largest_number.py:49-51 | the result is the input, or the input less its last character exactly when that character is '.' |
| Normalizer.Finish | extract_largest_number.py:45-54 | None for an empty slice, otherwise the slice with one trailing '.' dropped and every ',' removed; its results are characterised by NormalizedShape and shown by ExampleLoneDot |
| Normalizer.CharClasses | extract_largest_number.py:5-6 | the character tests used by the scans are exactly membership in VALID_START and VALID_END |
| Normalizer.TrimParens | extract_largest_number.py:23-29 | the two in-place strips compute StripParens of the token |
| Normalizer.StripParensShape | extract_largest_number.py:23-29 | at most one leading '(' and one trailing ')' go; what is left is a contiguous piece of the token; the end loses a character exactly when it is ')' |
| Normalizer.StartFrom | extract_largest_number.py:34-36 | the forward scan stops at the first ValidStart character, or at the end when there is none |
| Normalizer.EndFrom | extract_largest_number.py:38-40 | the backward scan never passes i; it stops at the last ValidEnd character, or at i |
| Normalizer.Preproc | extract_largest_number.py:8-57 | the method's result equals the specification Normalized for every token |
| Normalizer.CandidateShape | extract_largest_number.py:31-47 | the slice is empty exactly when the token holds no ValidStart character; it starts with ValidStart and, when longer than one character, ends with ValidEnd |
| Normalizer.CandidateBounds | extract_largest_number.py:42-43 | the slice is a piece of the token with no ValidStart character before it and no ValidEnd character after it |
| Normalizer.NormalizedNoneIff | extract_largest_number.py:45-47 | preproc returns None exactly when the stripped token holds no ValidStart character |
| Normalizer.NormalizedShape | extract_largest_number.py:49-57 | a returned token has no comma and is no longer than the raw token; it is "" exactly when the slice was "."; otherwise it opens with a ValidStart character |
| Normalizer.RemoveCommas | extract_largest_number.py:53-54 | the result has no comma and is no longer than its input |
| Normalizer.RemoveCommasKeeps | extract_largest_number.py:53-54 | every character other than ',' occurs as often as in the input |
| Normalizer.RemoveCommasAppend | extract_largest_number.py:53-54 | removal works piece by piece, so the kept characters keep their order |
| Normalizer.RemoveCommasNoComma | extract_largest_number.py:53-54 | a string without commas is left unchanged |
| Normalizer.ExampleDocstring | extract_largest_number.py:13 | "(1)" gives "1" |
| Normalizer.ExampleNested | extract_largest_number.py:23-43 | "((1))" gives "1": one pair is stripped and the scans drop the rest |
| Normalizer.ExampleDoubleDot | extract_largest_number.py:49-51 | "1.." gives "1.": only one trailing dot goes |
| Normalizer.ExampleLoneDot | extract_largest_number.py:45-51 | "." gives Some(""), not None |
| Normalizer.ExampleAccounting | extract_largest_number.py:23-54 | "(1,234)" gives "1234": the parentheses carry no sign |
| Normalizer.ExampleCurrency | extract_largest_number.py:34-43 | "$45.67," gives "45.67" |
| Normalizer.ExampleNoNumber | extract_largest_number.py:45-47 | "abc" and "()" give None |
| Normalizer.ExampleSignDot | extract_largest_number.py:38-51 | "-." gives "-": '.' may close a number, so the slice is "-.", and the trailing-dot strip leaves the bare sign |
| Normalizer.NormalizedNotIdempotent | extract_largest_number.py:23-54 | a second pass can remove one more '.' or ')' |
| TextSplit.SpaceClass | extract_largest_number.py:78 | the whitespace test is exactly membership in the whitespace set |
| TextSplit.WordEnd | extract_largest_number.py:78 | the end of a token is the first whitespace character after it, or the end of the text |
| TextSplit.SplitWords | extract_largest_number.py:78 | every token is non-empty and free of whitespace |
| TextSplit.SplitJoin | extract_largest_number.py:78 | splitting words joined by single spaces gives back the words |
| TextSplit.SplitKeepsText | extract_largest_number.py:78 | the tokens put back together are the text's non-whitespace characters in order |
| TextSplit.SplitOfWord | extract_largest_number.py:78 | a whitespace-free, non-empty text is one token |
| TextSplit.SplitAtSpace | extract_largest_number.py:78 | every whitespace character separates: the tokens of a + [c] + b are those of a followed by those of b; with SplitOfWord and Split("") == [] this makes the tokens exactly the maximal whitespace-free runs, in order |
| TextSplit.Split | extract_largest_number.py:78 | `str.split()` with no argument; its properties are stated by SplitWords, SplitOfWord, SplitAtSpace, SplitJoin and SplitKeepsText |
| Decimal.Parse | extract_largest_number.py:91-96 | a stand-in for `float()`; specified by ParseNeedsDigit, ParseShow, ParseRejects and the three concrete parses |
| Decimal.ParseNeedsDigit | extract_largest_number.py:91-96 | a successful parse needs a digit |
| Decimal.ParseShow | extract_largest_number.py:91-92 | the numeral of n, with or without '-', parses to n or -n |
| Decimal.ParseRejects | extract_largest_number.py:91-96 | "", "-", "+", ".", "--1" and "1.2.3" do not parse |
| Decimal.ParseWhole | extract_largest_number.py:91-92 | "1234" parses to 1234 |
| Decimal.ParseFraction | extract_largest_number.py:91-92 | "45.67" parses to 45.67 |
| Decimal.ParseSigned | extract_largest_number.py:91-92 | "-5." parses to -5 and "+.5" to 0.5 |
| Largest.Accept | extract_largest_number.py:83-96 | the two skip tests and the parse; TokenValueSkipsOnlyEmpty shows the second test never rejects |
| Largest.TokenValue | extract_largest_number.py:81-96 | what one raw token yields: Accept of its preproc result; TokenValueSkipsOnlyEmpty states when it is None and what it is otherwise |
| Largest.TokensValues | extract_largest_number.py:78-96 | the values a run of tokens yields, in order; specified by TokensValuesStep, TokensValuesAppend and TokensValuesMembership |
| Largest.PageValues | extract_largest_number.py:75-78 | the values of the tokens of one page's text, split as `text.split()` does; TokensValuesMembership states which they are |
| Largest.Gather | extract_largest_number.py:72 | the values of the pages, page after page; specified by GatherStep, GatherAppend and GatherMembership |
| Largest.DocValues | extract_largest_number.py:72-96 | the values that reach the comparison at line 99, in scan order; specified by DocValuesMembership, and its maximum is what FindLargestNumber returns |
| Largest.MaxOf | extract_largest_number.py:68-103 | the maximum is None exactly for no values; otherwise it is one of them and at least every one of them |
| Largest.MaxOfPush | extract_largest_number.py:98-100 | the strict-greater update of the running maximum yields the maximum of the values seen so far plus one more |
| Largest.TokensValuesStep | extract_largest_number.py:78-96 | one more token appends its value, if it has one |
| Largest.GatherStep | extract_largest_number.py:72-78 | one more page appends its values |
| Largest.FindLargestNumber | extract_largest_number.py:59-103 | the nested loops return MaxOf of the document's values: None exactly when there are none; otherwise a value that occurs and bounds every value |
| Largest.TokenValueSkipsOnlyEmpty | extract_largest_number.py:83-92 | the line 88 test never rejects anything: a token's value is the parse of its preproc result whenever that result is present and non-empty |
| Largest.TokensValuesMembership | extract_largest_number.py:78-96 | a value is among a page's values exactly when one of its tokens yields it |
| Largest.GatherMembership | extract_largest_number.py:72-78 | a value is among the document's values exactly when one page has it |
| Largest.DocValuesMembership | extract_largest_number.py:72-96 | a value is among the document's values exactly when some token of some page yields it |
| Largest.LargestNoneIff | extract_largest_number.py:68-103 | the answer is None exactly when no token on any page has a present, non-empty preproc result that parses; an empty document gives None |
| Largest.LargestIsMaximum | extract_largest_number.py:92-103 | a present answer is at least every token's value and is the value of some token |
| Largest.MaxOfMonotone | extract_largest_number.py:98-100 | the running maximum never decreases as more values come |
| Largest.MaxOfAppend | extract_largest_number.py:98-100 | the maximum of two runs of values is the larger of their maxima |
| Largest.MaxOfSameValues | extract_largest_number.py:98-100 | the maximum depends only on which values occur, not on their order or repetition |
| Largest.TokensValuesAppend | extract_largest_number.py:78-96 | the values of two runs of tokens are the values of each, in order |
| Largest.SkippedToken | extract_largest_number.py:83-96 | a token that yields nothing is skipped without ending the scan, and it does not change the maximum |
| Largest.GatherAppend | extract_largest_number.py:72-78 | the values of two runs of pages are the values of each, in order |
| Largest.PagesMerge | extract_largest_number.py:72-103 | a document's answer is the larger of the answers for its two halves, so pages can be scanned apart |
| Scenarios.TwoPageDocument | extract_largest_number.py:59-103 | pages "Sum (1,234)" and "$45.67, ." give 1234 |
| Scenarios.NothingToFind | extract_largest_number.py:59-103 | a document of the tokens "()", "--" and "." gives None |

## Left out

- Reading the PDF through PyMuPDF is left out: a document is the sequence of its pages' extracted texts.
- The `__main__` block is left out. It covers argument checking, the missing-file error, and printing the result with thousands separators.
- Python's `float()` is not modelled. The parser is the parameter `parse` of `FindLargestNumber`, and the lemmas hold for every parser. `Decimal.Parse` is one concrete parser. It accepts an optional sign, digits and at most one '.'. Among the forms that `float()` accepts and `Decimal.Parse` rejects are exponents, underscores, `inf`, `nan`, surrounding whitespace, and non-ASCII decimal digits (such as "1٢3", which survives `preproc`); the list is not exhaustive.
- Floating point is not modelled: values are exact reals. Rounding, overflow to infinity, and NaN (which no comparison selects) are not modelled.
- Largest.FindLargestNumber: the `-inf` starting value is modelled as None, because reals have no infinity. For a parser that yields finite reals this is the same, so the result is None exactly when no value was found. A token that `float()` reads as negative infinity, such as "-inf.", would leave the source's maximum at `-inf`, and so give None; the model cannot express that value.
- TextSplit.Split: only the ASCII whitespace characters that `str.split()` treats as separators are modelled. Unicode spaces, such as U+0085 and U+00A0, are not.
- The line 88 test in the scanner is kept, as the `IsStart` test in `Largest.Accept` and in the method. `Largest.TokenValueSkipsOnlyEmpty` shows that this test never rejects a token.
