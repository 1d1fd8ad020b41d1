# ScanYP scan core, modelled in Dafny

ScanYP offers `stdx::scan<Ts...>(input, format)`, a typed counterpart of
`sscanf`. The format string holds literal text and `{...}` placeholders,
and each placeholder names a conversion specifier: `%d`, `%u`, `%f`, `%s`,
or nothing. `scan` works in these steps:

- It tokenizes the input against the format (`parse_sources`).
- It requires the two part lists to have equal length.
- It drops placeholders whose specifier is empty.
- It requires one remaining placeholder per destination type.
- It converts every field (`parse_value_with_format`). For numbers this
  means trimming white space, then `parse_int` or `parse_float`.
- It returns either the error of the first conversion that failed, or the
  tuple of values (`scan_result`).

Every error is a `scan_error` that carries one message.

The model has one module per concern:

| module | file | what it holds |
|---|---|---|
| `Types` | types.dfy | `ScanError`, `Result` (the role of `std::expected`), `ScanResult`, the destination-type descriptors `DestType`, converted `Value`s, the library's message strings |
| `Whitespace` | whitespace.dfy | `ltrim`, `rtrim`, `trim` over the six "C"-locale white-space characters |
| `Search` | search.dfy | the two `string_view::find` overloads the tokenizer uses |
| `Numeric` | numeric.dfy | `std::from_chars` for integers in base 10, `parse_int`, `parse_float` |
| `Convert` | convert.dfy | the `conv` enumeration, `parse_conv`, `parse_value_with_format` |
| `FormatShape` | format_shape.dfy | the brace scan of the format: the literals and specifiers it produces, and their round trip with `Join` |
| `Tokenizer` | tokenizer.dfy | `parse_sources`: cutting the input along the literals |
| `Scanner` | scan.dfy | `scan`, the empty-specifier filter, `parse_all_to_tuple`, the first-error fold |
| `RoundTrip` | roundtrip.dfy | end to end: integers rendered between separators scan back to themselves |
| `Examples` | examples.dfy | the failure scenarios of the test suite, as lemmas |

Modelling choices:

- **The destination type pack** becomes a runtime sequence of `DestType`
  descriptors.
  - `SInt(lo, hi)` and `UInt(hi)` stand for every signed and unsigned
    integer type; each carries its range.
  - `Float` stands for the floating-point types.
  - `StrView` is `std::string_view` and `Str` is `std::string`.
  - The tuple of values becomes a sequence of `Value`s, one per type.
- **Floating-point parsing** is a parameter `fromChars: string -> FloatScan<F>`.
  It stands for `std::from_chars` with `chars_format::general`, and `F` is
  the uninterpreted floating-point type. The model keeps what `parse_float`
  itself decides: the empty-text check, and that the parse must cover the
  whole text. One parser and one `F` stand for every floating-point
  destination of a scan. So `float` and `double` destinations in the same
  scan are not told apart: in C++, `"1e300"` is out of range for `float`
  but not for `double`, while the model gives both the same outcome.
- **Integer parsing** is modelled down to the characters. `from_chars`
  reads an optional `-` (only for signed types) and then the longest run of
  decimal digits. It reports no match when there is no digit, and out of
  range when the value does not fit.
- **The tokenizer's loop** interleaves two scans: the brace scan over the
  format and the literal searches in the input. The brace scan never fails
  and never looks at the input.
  - The model runs the brace scan first (`FormatShape.SplitFormat`), then
    cuts the input along the literals it produced (`Tokenizer.Cut`).
  - The cuts happen in the loop's order, so each search in the input, and
    so each error, is the one the loop performs.
- **Characters**: a Dafny `char` stands for one byte of the C++
  `std::string_view`. `find`, `std::isspace` on `unsigned char` and the
  `%s` copy all work byte by byte. Only the six ASCII white-space
  characters are white space, so the model agrees with the source on every
  text whose characters are all below 256.

## Model

| member | source | states |
|---|---|---|
| `Whitespace.LTrim` | include/parse.hpp:14-18 | the result is a suffix of the input; everything removed is white space; the result is empty or starts with a non-space |
| `Whitespace.RTrim` | include/parse.hpp:20-24 | the result is a prefix of the input; everything removed is white space; the result is empty or ends with a non-space |
| `Whitespace.Trim` | include/parse.hpp:26-28 | the result is no longer than the input, and neither starts nor ends with white space |
| `Whitespace.TrimIsSlice` | include/parse.hpp:26-28 | what `trim` keeps is one contiguous slice of the input, with only white space outside it |
| `Whitespace.TrimUnique` | include/parse.hpp:14-28 | characterization: any slice with white space outside it and non-space at both ends is exactly the trimmed text |
| `Whitespace.LTrimUnique` | include/parse.hpp:14-18 | `ltrim` stops exactly at the first non-space character |
| `Whitespace.RTrimUnique` | include/parse.hpp:20-24 | `rtrim` stops exactly at the last non-space character |
| `Whitespace.TrimIdempotent` | include/parse.hpp:26-28 | trimming twice is trimming once |
| `Whitespace.TrimPadded` | include/parse.hpp:26-28 | trimming white-space padding off a text that has none of its own gives the text back; the interior is untouched |
| `Search.FindChar` | include/parse.hpp:129-136 | `find(c, pos)`: a position it reports is at or after `pos`, inside the text, and holds `c` |
| `Search.FindSub` | include/parse.hpp:142-144 | `find(text)`: a position it reports is an occurrence of the text |
| `Search.FindSubLeast` | include/parse.hpp:142 | the substring search finds something exactly when there is an occurrence, and what it finds is the first one |
| `Search.FindCharLeast` | include/parse.hpp:129-133 | the character search finds the least position at or after its start, and finds nothing only when the character is absent |
| `Numeric.FromCharsInt` | include/parse.hpp:44-47 | a parse consumes a numeral that cannot be extended, whose value fits the type; a whole numeral is parsed entirely when it fits and is out of range when it does not |
| `Numeric.ParseInt` | include/parse.hpp:32-51 | empty text, a `-` for an unsigned type, and an invalid integer are the errors, in that order; it succeeds exactly when the text, after one leading `+` is removed, is one complete numeral in range, and then returns its value |
| `Numeric.ParseIntShowInt` | include/parse.hpp:32-51 | round trip: every representable integer, spelled in decimal with or without a leading `+`, parses back to itself |
| `Numeric.ParseFloat` | include/parse.hpp:54-65 | empty text is its own error; otherwise it succeeds exactly when the float parser succeeds and covers the whole text, returning that parser's value; every other failure is an invalid-floating error |
| `Convert.ParseConv` | include/parse.hpp:69-79 | exactly the four tokens `%d %s %u %f` resolve, each to the kind whose token it is; any other text fails with "unknown conversion specifier: " followed by that text |
| `Convert.ParseConvToken` | include/parse.hpp:69-79 | each kind's token resolves back to that kind |
| `Convert.ParseValueWithFormat` | include/parse.hpp:83-119 | check order: an unknown specifier first, then incompatibility with the destination (naming the specifier letter), and only then trimming and parsing; `%s` returns the field verbatim with no trimming; `%d`/`%u`/`%f` succeed, fail and report errors exactly as the integer or float parser does on the trimmed field; every value returned fits its destination type |
| `Convert.ConvertKind` | include/parse.hpp:92-115 | the switch once kind and destination agree: `%s` gives the text itself; a number is parsed from the trimmed text and fits its destination; every error is one of the integer or float parser's own |
| `Convert.ConvertShowInt` | include/parse.hpp:83-119 | round trip through a field: a representable integer in decimal, padded with white space, converts back to itself under the specifier of its signedness |
| `FormatShape.SplitFrom` | include/parse.hpp:128-156 | the brace scan from a position yields one more literal than specifiers |
| `FormatShape.SplitFormat` | include/parse.hpp:127-156 | the brace scan of a whole format yields one more literal than specifiers |
| `FormatShape.SplitJoinRoundTrip` | include/parse.hpp:128-160 | the brace scan's literals and specifiers, written back with braces, give the format again; the scan's output is well formed; splitting a written-out well-formed shape gives that shape back |
| `Tokenizer.Last` | include/parse.hpp:158-169 | the step after the loop: with no trailing text the one field is the whole remaining input; otherwise it succeeds exactly when the text occurs, and the field is the input up to its first occurrence; its one error is the unformatted-text error |
| `Tokenizer.Cut` | include/parse.hpp:138-169 | the loop over the placeholders and the step after it: the only error is the unformatted-text error, and on success the specifiers recorded are exactly the placeholders' |
| `Tokenizer.ParseSources` | include/parse.hpp:122-171 | `parse_sources`: its only error is the unformatted-text error, and on success the specifier list is the format's placeholders, whatever the input |
| `Tokenizer.CutCarved` | include/parse.hpp:138-169 | past the first placeholder, for any literals, empty ones included, the cut succeeds with fields `fs` exactly when `fs` is the cut at the first occurrence of each non-empty literal, an empty literal recording no field |
| `Tokenizer.ParseSourcesCarved` | include/parse.hpp:124-171 | for any format with a placeholder whose leading literal is found (adjacent placeholders allowed), the tokenizer succeeds with fields `fs` if and only if `fs` is that cut of the rest of the input |
| `Tokenizer.ParseSourcesNoPlaceholder` | include/parse.hpp:158-169 | a format without a placeholder succeeds with fields `fs` exactly when `fs` is the one text before the format's first occurrence in the input |
| `Tokenizer.AnchoredCarved` | include/parse.hpp:138-169 | with a non-empty literal before every placeholder, the anchored cut and the carved cut are the same relation |
| `Tokenizer.LengthGuardSubsumed` | include/parse.hpp:143 | the length test before each search is redundant: a literal longer than the remaining input is never found in it |
| `Tokenizer.CutCounts` | include/parse.hpp:128-169 | the loop records every specifier of the format, in order, and pushes one field per non-empty literal after the first placeholder, plus the last field |
| `Tokenizer.ParseSourcesCounts` | include/parse.hpp:124-171 | the specifiers are exactly the format's placeholders, whatever the input; there is one field per non-empty separating literal plus one; the two counts agree exactly when the format has a placeholder and no two adjacent ones |
| `Tokenizer.ParseSourcesAnchored` | include/parse.hpp:124-171 | for an aligned format whose leading literal is found, the tokenizer returns the format's specifiers with the fields `fs` if and only if `fs` is the cut of the rest of the input at the first occurrence of each successive literal |
| `Tokenizer.ParseSourcesOfShape` | include/parse.hpp:124-171 | the tokenizer's result for a format of known shape and an input cut at the first occurrence of each literal |
| `Tokenizer.ParseSourcesUnanchored` | include/parse.hpp:140-145 | a leading literal that does not occur in the input gives the unformatted-text error |
| `Scanner.KeptIndicesIncreasing` | include/scan.hpp:47-53 | the filter keeps indices in increasing order, so the original order is kept and nothing is repeated |
| `Scanner.KeptIndicesComplete` | include/scan.hpp:47-53 | the filter misses no placeholder whose specifier is non-empty |
| `Scanner.DropEmpty` | include/scan.hpp:47-53 | the filter keeps as many specifiers as fields, none of them empty |
| `Scanner.DropEmptyKept` | include/scan.hpp:47-53 | the filter keeps exactly the parts with a non-empty specifier, in order, each field beside its own specifier |
| `Scanner.DropEmptyCount` | include/scan.hpp:47-53 | the filter keeps as many parts as there are non-empty specifiers |
| `Scanner.ConvertAll` | include/scan.hpp:14-30 | `parse_all_to_tuple`: one conversion per destination type, and each successful one fits its type |
| `Scanner.FirstErrorIndex` | include/scan.hpp:64-76 | the fold records the first failed conversion: every earlier one succeeded and the recorded one failed; with no failure it records the pack size |
| `Scanner.Scan` | include/scan.hpp:32-86 | a scan that succeeds had a successful tokenization, and returns one value per destination type, each of which fits its type |
| `Scanner.ScanTokenizerError` | include/scan.hpp:34-37 | a tokenizer error is passed through unchanged, and it is always the unformatted-text error |
| `Scanner.ScanMisaligned` | include/scan.hpp:39-45 | a format with no placeholder, or with two adjacent placeholders, gives the parsing error once tokenizing succeeds |
| `Scanner.ScanArity` | include/scan.hpp:47-60 | with aligned parts, a number of non-empty specifiers different from the pack size is the arity error |
| `Scanner.ScanConversions` | include/scan.hpp:62-85 | once the checks pass, the scan succeeds exactly when every conversion does; value `i` is conversion `i`'s value; otherwise it reports the error of the lowest-numbered failed conversion |
| `Scanner.ScanAllConverted` | include/scan.hpp:32-86 | success: with as many fields as specifiers, none empty, one per type, and every field converting, the scan returns the converted values in order |
| `Scanner.ScanWithoutPlaceholder` | include/scan.hpp:32-45 | a format without a placeholder never scans: its text is either missing from the input (unformatted-text error) or found, leaving one field and no specifier (parsing error) |
| `RoundTrip.RoundTripShape` | include/parse.hpp:128-156 | a format built from plain literals and one integer specifier per type splits back into exactly those parts, and they are aligned |
| `RoundTrip.RenderAnchored` | include/parse.hpp:138-169 | integers rendered between separators that start with neither a digit nor `-` are cut back into their decimal spellings |
| `RoundTrip.RoundTripSources` | include/parse.hpp:124-171 | tokenizing the rendered input against that format yields the format's specifiers and the values' spellings |
| `RoundTrip.ScanRoundTrip` | include/scan.hpp:32-86 | end-to-end round trip: representable integers rendered between such separators scan back to exactly those values, in order, through the format with the same literals and one `%d` or `%u` per value |
| `Examples.NotANumberScenario` | tests/scan_test.cpp:82-88 | the test's scan fails, with the unformatted-text error |
| `Examples.NegativeUnsignedScenario` | tests/scan_test.cpp:90-96 | the test's scan fails, with the unformatted-text error |
| `Examples.InvalidFloatScenario` | tests/scan_test.cpp:98-104 | the test's scan fails, with the unformatted-text error |
| `Examples.UnknownSpecifierScenario` | tests/scan_test.cpp:106-111 | the test's scan fails, with the unformatted-text error |

`scan_error` and `scan_result` (include/types.hpp:9-37) become the
single-constructor datatypes `Types.ScanError` and `Types.ScanResult`.
Their accessors `message()` and `values()` are the datatype fields, so each
returns exactly what the constructor was given. Neither type has a default
value or a mutator, and `scan` has no state, so it is a pure function of
its input, its format and its destination types.

## Left out

- The `std::cout << input` for an empty specifier (include/parse.hpp:84-85)
  is output only, and `scan` never reaches it: empty specifiers are dropped
  before conversion.
- The `default:` branch of the conversion switch (include/parse.hpp:116-117)
  cannot be reached, because the switch covers all four kinds.
- Floating-point numerics: the float parser is a parameter, so which texts
  parse as which `double` is not modelled.
- Destination types other than integers, floating point, `std::string` and
  `std::string_view`: `bool` and `char` are integral in C++, and the model
  has no descriptor for them.
- Locales: white space is the "C" locale's `isspace`.
- Templates, the `std::tuple` and the index sequence of
  `parse_all_to_tuple` (include/scan.hpp:14-30) are replaced by sequences.
- The two-pass tokenizer is argued equivalent to the interleaved loop
  (see the `Tokenizer` module comment), not proved against a second,
  interleaved definition.
- The length guard before each search (include/parse.hpp:143 and 162) is
  not modelled as a separate test. `Tokenizer.LengthGuardSubsumed` shows it
  never changes the outcome.
- Whitespace.Trim: its contract does not carry the slice fact.
  `Whitespace.TrimIsSlice` states it instead, which keeps the existential
  out of every caller's context.
- Search.FindChar: its contract states only soundness. The least-position
  property is `Search.FindCharLeast`.
- Search.FindSub: its contract states only soundness. That it finds the
  first occurrence, and finds one whenever there is one, is
  `Search.FindSubLeast`.
- FormatShape.SplitFrom: its contract states only the count of literals and
  specifiers. Well-formedness is `FormatShape.SplitFromWellFormed`, and the
  inverse with `Join` is `FormatShape.SplitJoinRoundTrip`.
- FormatShape.SplitFormat: the same; `FormatShape.SplitJoinRoundTrip`
  carries its properties.
- Tokenizer.Cut: its contract states the error and the specifiers, not the
  fields. The fields are characterised by `Tokenizer.CutCarved` and
  `Tokenizer.CutCounts`.
- Tokenizer.ParseSources: the same. The fields are characterised by
  `Tokenizer.ParseSourcesCarved`, `Tokenizer.ParseSourcesNoPlaceholder` and
  `Tokenizer.ParseSourcesUnanchored`.
- Convert.ConvertKind: its contract does not tie a numeric result to the
  parser's value. `Convert.ParseValueWithFormat` states that relation.
- Scanner.DropEmpty: its contract says only that the filter keeps pairs
  and that no kept specifier is empty. Which parts it keeps, and in which
  order, is `Scanner.DropEmptyKept`. How many it keeps is
  `Scanner.DropEmptyCount`.
- Scanner.Scan: its contract describes only a successful result. The
  lemmas decide each case:
  - `Scanner.ScanTokenizerError`: a tokenizer failure gives the
    unformatted-text error.
  - `Scanner.ScanMisaligned`: part lists of different lengths give the
    parsing error.
  - `Scanner.ScanArity`: a count of non-empty specifiers other than the
    pack size gives the arity error.
  - `Scanner.ScanConversions`: after those checks, the result is the
    values or the first failed conversion's error.
- Scanner.ConvertAll: its contract does not state which field goes with
  which specifier. `Scanner.ScanConversions` states the conversions the
  scan runs, in terms of the filter's kept positions.
- The test scenario `FailsWhenPlaceholdersCountDiffersFromTypes`
  (tests/scan_test.cpp:74-80) has no lemma of its own. It is an instance of
  `Scanner.ScanWithoutPlaceholder`, and so are the other four failure
  scenarios.
- The success scenarios (tests/scan_test.cpp:11-72) have no lemma: no
  concrete result of them is derived. The general lemmas
  `Scanner.ScanAllConverted` and `Scanner.ScanConversions` apply to them.
  Only the integer-only scenario with plain separators (lines 38-49) fits
  the shape of `RoundTrip.ScanRoundTrip`, and even that one does not fit
  exactly, because its fields are padded and signed with `+`. Computing the
  scenarios on the literal strings is out of the verifier's budget.
- The unit-test framework (gtest) itself.

## Notes

The five failure tests (tests/scan_test.cpp:74-111) write their formats
without braces (`"val=%d"`, `"x=%q"`, ...). So none of them has a
placeholder, and each fails before any specifier, type or number is
examined: the format's whole text must occur in the input, and it does not.
The `Examples` lemmas prove the unformatted-text error for four of them.
The failures the test names describe
(specifier mismatch, negative unsigned, invalid float, unknown specifier)
are not the ones that occur. The library code behaves as written here.
This is an observation about the tests, not a defect in the scanner.
