# whatwg-infra in Dafny

A model of the core of `@nc/whatwg-infra`, a TypeScript implementation of parts of the
WHATWG Infra Standard, with proofs of what its operations promise. The model covers three
modules:

- `src/strings.ts`, the string algorithms of the Infra Standard, section 4.7 (Strings):
  - `stringMatches` and its instances `isStringAscii`, `isStringIsomorphic` and
    `isStringScalarValue`;
  - `collectCodepoints`, `convertStringToScalarValue`, `stripNewlines` and
    `normalizeNewlines`;
  - `stripAsciiWsp` and `stripCollapseAsciiWsp`.
- The code point classifiers of the Infra Standard, section 4.6 (Code points), that the
  string algorithms import and that `src/codePoints_test.ts` exercises.
- `src/num.ts`, the 8- to 128-bit signed and unsigned integer checks of the Infra Standard,
  section 4.3 (Primitive data types).

The project has five files, one module each:

- `wrappers.dfy` (`Wrappers`) holds `Option`.
- `code_points.dfy` (`CodePointClassifier`) holds the classifiers over an integer code point.
- `utf16.dfy` (`Utf16`) holds JavaScript strings as UTF-16 code units. `CodePoints` is the
  walk `for...of` makes. A leading surrogate followed by a trailing one is one code point,
  and any other surrogate stands alone. `EncodeAll` is its inverse, proved both ways.
- `strings.dfy` (`Strings`) holds the string algorithms. Each loop of the source is a
  `method` with the source's own variables. Each is proved equal to a specification
  function, and the properties are lemmas about that function. The functions cover:
  - what `stringMatches` accepts (`Matches`);
  - what `collectCodepoints` collects (`IsRunLength`, `CollectedRun`);
  - what the conversion builds (`ScalarValueString`);
  - what the newline steps return (`NewlinesStripped`, `NewlinesNormalized`);
  - what the whitespace steps return (`Stripped`, `Collapsed`).
- `num.dfy` (`Num`) holds the integer checks. A `number` is a real. `Number.isInteger` is
  "equals its floor". A `bigint` is an unbounded integer. The checks are proved equal to
  the Infra ranges, written as powers of two.

The loops that walk by code point (`for...of`) step through code units with
`CodePointAt` and `CodePointWidth`, as the string iterator does. The loops that walk by
code unit (`s[i]`, `s.length`) index the sequence directly.

Where the code and the Infra Standard differ, the model follows the code:

- `normalizeNewlines` turns only the first remaining CR into LF. The Infra algorithm turns
  every one. This is a finding below.
- `collectCodepoints` advances `newPosition` once per code point, while `position` is a
  code unit index. This is a finding below.
- `stripAsciiWsp` returns a non-empty all-whitespace string unchanged, where the Infra
  algorithm gives the empty string. Its two scans cross, and `substring` swaps the crossed
  bounds. The test at `src/strings_test.ts:131` relies on this: `'    '` strip-collapses to
  `' '`. The model keeps the swap (`Substring`, `StrippedShape`) and reports no finding.

## Model

| member | source | states |
|---|---|---|
| Utf16.CodePoints | src/strings.ts:21-26 | The code points `for...of` yields: never more than the code units, the first one is the code point at index 0, and no surrogate pair is left split |
| Utf16.EncodeDecode | src/strings.ts:96-98 | Appending the code points of a string one by one rebuilds the string exactly |
| Utf16.DecodeEncode | src/strings.ts:96-98 | Any code point sequence a string can decode to comes back from its encoding unchanged |
| Utf16.CodePointsBelow | src/strings.ts:35-45 | For a limit below the surrogates, every code point is at most the limit exactly when every code unit is |
| CodePointClassifier.CodePointBetweenCases | src/codePoints_test.ts:21-33 | The range test includes both ends (0x00 and 0x20 lie in [0x00, 0x20]), excludes 0x7F, and is false for the empty string whatever the range |
| CodePointClassifier.AsciiByteCases | src/codePoints_test.ts:35-47 | 0x00, 0x3F and 0x7F are ASCII bytes; 0x80 is not |
| CodePointClassifier.SurrogateCases | src/codePoints_test.ts:49-59 | 0xD800 and 0xDFFF are surrogates, 0xE000 is not; 0xD7FF and 0xE000 are scalar values; a code point is a scalar value exactly when it is not a surrogate |
| CodePointClassifier.NonCharacterCases | src/codePoints_test.ts:61-69 | Every code point in 0xFDD0..0xFDEF and the last two of every plane (0x4FFFE, …, 0x10FFFE among them) are noncharacters; nothing below 0xFDD0 is; every noncharacter is a scalar value |
| CodePointClassifier.WhitespaceCases | src/codePoints_test.ts:71-98 | ASCII whitespace holds on 0x09, 0x0A, 0x0C, 0x0D and 0x20 and fails on 0x00 and 0x0B; tab-or-newline holds on 0x09, 0x0A and 0x0D and fails on 0x00 |
| CodePointClassifier.WhitespaceFamily | src/codePoints_test.ts:106-111 | Tab-or-newline implies whitespace, whitespace implies C0-control-or-space, and C0-control-or-space is exactly 0x00..0x20 |
| CodePointClassifier.C0Cases | src/codePoints_test.ts:100-111 | Every code point 0x00..0x1F is a C0 control and a C0 control or space; 0x20 is only the latter |
| CodePointClassifier.DigitAndAlphaFamily | src/codePoints_test.ts:113-175 | The digit, upper and lower hex digit, hex digit, upper, lower and all alpha, and alphanumeric ranges; upper and lower hex digits share only the digits; no code point is both upper and lower alpha; all of them are ASCII |
| Strings.StringMatches | src/strings.ts:17-27 | The walk over the code points answers true exactly when every code point satisfies the predicate, and false when one fails |
| Strings.MatchesByMembership | src/strings.ts:17-27 | Matching means that every code point occurring in the string satisfies the predicate, so the empty string always matches |
| Strings.StringAsciiByUnits | src/strings.ts:35-36 | A string is ASCII exactly when each of its code units is at most 0x7F |
| Strings.StringIsomorphicByUnits | src/strings.ts:44-45 | A string is isomorphic exactly when each code unit is at most 0xFF; every ASCII string is isomorphic |
| Strings.StringScalarValueIffNoSurrogate | src/strings.ts:53-54 | A string fails to be a scalar value string exactly when one of its code points is a lone surrogate |
| Strings.MatchesCases | src/strings_test.ts:16-22 | 'bbbb' matches "is b" and 'bbba' does not |
| Strings.StringAsciiCases | src/strings_test.ts:24-29 | '', 'foo', 'bar' and U+0000 U+007F are ASCII strings |
| Strings.StringIsomorphicCases | src/strings_test.ts:31-35 | U+0000 U+00FF is isomorphic; U+0000 U+0100 is not |
| Strings.StringScalarValueCases | src/strings_test.ts:37-42 | '' and U+0000 followed by U+007F, U+00FF, U+D7FF or U+E000 are scalar value strings |
| Strings.LoneSurrogateCases | src/strings_test.ts:44-47 | Any one surrogate on its own (U+D800, U+DBFF, U+DC00 and U+DFFF among them) is not a scalar value string |
| Strings.CollectedRunShape | src/strings.ts:75-82 | The reference run is a prefix of the code points; all of its code points satisfy the predicate and the next one, if any, does not |
| Strings.CollectedRunUnique | src/strings.ts:75-82 | Only one length has that property, so any maximal run is the reference run |
| Strings.CollectCodepoints | src/strings.ts:63-85 | At or past the end, or on '', it gives ('', position). Otherwise `newPosition - position` is the length of the longest run of code points at `position` that satisfy the predicate, and the result is the encoding of that run |
| Strings.CollectedRunEncoding | src/strings.ts:75-82 | The collected string decodes back to the collected code points and is exactly the code units that start at `position` |
| Strings.CollectedRunWithoutSupplementary | src/strings.ts:78 | When no collected code point is supplementary, the collected string has one code unit per code point, so `newPosition` is then a code unit index |
| Strings.CollectCases | src/strings_test.ts:57-62 | 'test1234' from 0 with "is ASCII alpha" collects 'test' and moves 4 |
| Strings.CollectCodepointsUndercounts | src/strings.ts:78 | On U+1F600 'a' with an always-true predicate, 3 code units are collected but the position moves by 2 |
| Strings.CollectCodepointsInCodeUnits | src/strings.ts:63-85 | The corrected walk collects the same maximal run, and its `newPosition` is the code unit index just past it: the result is `s[position..newPosition]` |
| Strings.ConvertStringToScalarValue | src/strings.ts:94-101 | The loop builds the encoding of the input's code points with each surrogate replaced by U+FFFD |
| Strings.ScalarValueStringLength | src/strings.ts:94-101 | The conversion keeps the length in code units |
| Strings.ScalarValueStringCodePoints | src/strings.ts:94-101 | The result has one code point per input code point; surrogates become U+FFFD and the rest are unchanged, so the result is a scalar value string |
| Strings.ScalarValueStringKeepsScalarStrings | src/strings.ts:94-101 | A scalar value string converts to itself |
| Strings.ScalarValueStringIdempotent | src/strings.ts:94-101 | Converting twice is converting once |
| Strings.ScalarValueStringCases | src/strings_test.ts:83-95 | '' gives '', U+D800 and U+DFFF give U+FFFD, and 'test' gives 'test' |
| Strings.StripNewlines | src/strings.ts:109-118 | The loop builds the encoding of the input's code points other than LF and CR, in order |
| Strings.NewlinesStrippedByUnits | src/strings.ts:109-118 | Dropping LF and CR code points is the same as dropping every 0x0A and 0x0D code unit |
| Strings.NewlinesStrippedProperties | src/strings.ts:109-118 | The result has no LF or CR, as code units or code points; stripping twice is stripping once; a string without LF and CR is returned unchanged |
| Strings.NewlinesStrippedCodePoints | src/strings.ts:109-118 | On a scalar value string, the result's code points are the input's code points other than LF and CR, in order |
| Strings.NewlinesStrippedCases | src/strings_test.ts:97-102 | '' gives '', and 'a' followed by any run of LF and CR ('a\n\n', 'a\r\n\r\n', 'a\r\r') gives 'a' |
| Strings.NewlinesStrippedJoins | src/strings_test.ts:103 | A line break between two strings without line breaks is dropped and the two are joined ('apple\nbanana' gives 'applebanana') |
| Strings.NormalizeNewlines | src/strings.ts:127-139 | The loop turns each CR LF pair, read left to right, into LF; then the first remaining CR, and only that one, becomes LF |
| Strings.ReplaceFirstChanges | src/strings.ts:138 | `replace` with a one-unit pattern keeps the length. Without the pattern the string is unchanged; otherwise only the first occurrence is replaced and every other unit is kept |
| Strings.CrLfCollapsedCounts | src/strings.ts:129-136 | Pairing shortens the string by the number of CR LF pairs, leaves exactly the CRs not followed by LF, and keeps every other unit in order |
| Strings.ReplaceFirstCrCounts | src/strings.ts:138 | The final `replace` removes exactly one CR when there is one, and changes nothing but line breaks |
| Strings.NewlinesNormalizedProperties | src/strings.ts:127-139 | The result is shorter than the input by the number of CR LF pairs; it has no CR exactly when the input has at most one CR not followed by LF; it differs from the input only in line breaks |
| Strings.NewlinesNormalizedPairs | src/strings_test.ts:111-115 | '' gives '' and '\r\n\r\n' gives '\n\n' |
| Strings.NewlinesNormalizedSingleCr | src/strings_test.ts:114 | '\r' gives '\n' |
| Strings.NewlinesNormalizedMixed | src/strings_test.ts:116 | 'a\r\ntttt\r' gives 'a\ntttt\n' |
| Strings.NormalizeNewlinesLeavesSecondCr | src/strings.ts:138 | '\r\r' gives '\n\r', which still holds a CR |
| Strings.NewlinesFullyNormalized | src/strings.ts:127-139 | The corrected normalisation leaves no CR, shortens by the number of CR LF pairs, and changes only line breaks |
| Strings.NormalizedVersionsAgree | src/strings.ts:138 | With at most one CR not followed by LF, the code as written and the corrected version agree |
| Strings.LeadingIndex | src/strings.ts:157-160 | The forward scan stops at the first non-whitespace code unit, or at the length; every unit before it is whitespace |
| Strings.TrailingIndex | src/strings.ts:162-165 | The backward scan stops just after the last non-whitespace code unit, or at 0; every unit from it on is whitespace |
| Strings.StripAsciiWsp | src/strings.ts:156-168 | The two scans and `substring`, with its clamping and its swap of crossed bounds, return the stripped string |
| Strings.StrippedShape | src/strings.ts:156-168 | With a non-whitespace unit, the result is the slice from the first to the last non-whitespace unit, with whitespace only outside it; an all-whitespace string ('' among them) is returned unchanged |
| Strings.StrippedIdempotent | src/strings.ts:156-168 | Stripping twice is stripping once |
| Strings.StrippedCases | src/strings_test.ts:124-126 | '' gives '', the case in the test file; also ' ' comes back unchanged because the scans cross, and ' a b\n' gives 'a b' |
| Strings.StrippedOfPadded | src/strings.ts:156-168 | Around a core that starts and ends with non-whitespace, stripping removes exactly the whitespace padding |
| Strings.CollapsedShape | src/strings.ts:181-193 | After collapsing, the only whitespace is U+0020 and no two whitespace units are adjacent |
| Strings.CollapsedKeepsNonWhitespace | src/strings.ts:181-193 | Collapsing keeps every non-whitespace code unit, in order |
| Strings.CollapsedKeepsCollapsed | src/strings.ts:181-193 | A string whose only whitespace is single spaces is left unchanged by collapsing |
| Strings.CollapsedWhitespace | src/strings.ts:183-188 | A non-empty whitespace run collapses to one space |
| Strings.CollapsedAcrossGap | src/strings.ts:181-193 | A whitespace run between a non-whitespace unit and a word becomes one space, and the two sides collapse separately |
| Strings.StripCollapseAsciiWsp | src/strings.ts:177-196 | The loop with its `lastSeenWhitespace` flag collapses each whitespace run to one space, and the result is then stripped |
| Strings.StripCollapseShape | src/strings.ts:177-196 | The result's only whitespace is single spaces and it keeps every non-whitespace unit in order. With a non-whitespace unit it neither starts nor ends with whitespace. A non-empty all-whitespace input gives ' ', and '' gives '' |
| Strings.StripCollapseIdempotent | src/strings.ts:177-196 | Stripping and collapsing twice is doing it once |
| Strings.StripCollapsePadded | src/strings.ts:177-196 | Whitespace around a string that starts and ends with non-whitespace disappears entirely |
| Strings.StripCollapseCases | src/strings_test.ts:128-131 | '' gives '' and '    ' gives ' ' |
| Strings.StripCollapseThreeWords | src/strings_test.ts:132-134 | Three words separated by whitespace runs, with any whitespace before and after, come out separated by single spaces ('cat dog  hamster' padded in the three ways of the test file gives 'cat dog hamster') |
| Num.CheckIntExact | src/num.ts:6-7 | `checkInt` holds exactly on integers within [min, max], both ends included; a non-integer always fails |
| Num.BigCheckNumberAsBigInt | src/num.ts:9-18 | An integral `number` gives the same answer as the `bigint` of equal value; a `bigint` passes exactly within [min, max]; a non-integral `number` fails before any conversion |
| Num.UnsignedSmallExact | src/num.ts:36-72 | `isUint8`, `isUint16` and `isUint32` accept exactly the integers 0 .. 2^k - 1 |
| Num.SignedSmallExact | src/num.ts:133-170 | `isInt8`, `isInt16` and `isInt32` accept exactly the integers -2^(k-1) .. 2^(k-1) - 1 |
| Num.Uint64Exact | src/num.ts:93-94 | `isUint64` accepts exactly the integers 0 .. 2^64 - 1, given as a `number` or a `bigint` |
| Num.Uint128Exact | src/num.ts:114-115 | `isUint128` accepts exactly the integers 0 .. 2^128 - 1 |
| Num.Int64Exact | src/num.ts:191-192 | `isInt64` accepts exactly the integers -2^63 .. 2^63 - 1 |
| Num.Int128Exact | src/num.ts:194-199 | `isInt128` accepts exactly the integers -2^127 .. 2^127 - 1 |
| Num.Widening | src/num.ts:36-199 | Each check implies the next wider one of the same signedness |
| Num.NonIntegersRejected | src/num.ts:6-18 | A `number` that is not an integer, such as 0.5, fails all ten checks |
| Num.UnsignedCases | src/num.ts:29-111 | The doc-comment examples of the unsigned checks: 0 and 2^k - 1 pass, -1 and 2^k fail, and 0.5 fails wherever an example tries it |
| Num.SignedCases | src/num.ts:126-188 | The doc-comment examples of the signed checks: -2^(k-1) and 2^(k-1) - 1 pass, one past either bound fails, and 0.5 fails |

## Left out

- `src/codePoints.ts` is not part of this model. The classifiers follow the ranges of the
  Infra Standard, section 4.6, and agree with every case in `src/codePoints_test.ts`. As
  in the Infra Standard, the upper and lower hex digits include the ASCII digits. The tests
  exercise only their letters.
- The classifiers take one code point as an integer, not a string. A call on a string of
  several code points is not modelled. The empty string is modelled only for
  `isCodePointBetween`, as `None`. An index past the end of the string, which reads
  `undefined` and is not whitespace, is modelled only as an explicit bound check in the
  scans.
- The predicate given to `stringMatches` and `collectCodepoints` is a total function
  `int -> bool`. Predicates with side effects or that throw are not modelled.
- `collectCodepoints` takes `position` as a natural number. `slice` with a negative
  position counts from the end, and this is not modelled.
- `number` is modelled as an exact real. Rounding above 2^53, NaN, the infinities and
  negative zero are not modelled.
- `src/namespaces.ts` is not part of this model. It holds six string constants with no
  behaviour.
- The Deno test runner is not part of this model. Its test cases appear as lemmas.
- Some doc comments in `src/num.ts` have slips, and the model does not use them as
  evidence. The examples at lines 51 and 65 call `isUint8`, and the link at line 101 points
  to the 64-bit anchor.

## Findings

| source | as written | input that shows it | evidently intended | confidence | as-written member | corrected member |
|---|---|---|---|---|---|---|
| src/strings.ts:138 | `normalized.replace('\r', '\n')` replaces only the first remaining CR | '\r\r' gives '\n\r' | Every remaining CR becomes LF, so the result holds no CR (Infra Standard, section 4.7, "normalize newlines") | high; not executed | Strings.NormalizeNewlinesLeavesSecondCr | Strings.NewlinesFullyNormalized |
| src/strings.ts:78 | `newPosition++` counts code points, while `position` indexes code units | U+1F600 'a' (units 0xD83D 0xDE00 0x61) from 0 with an always-true predicate gives `newPosition` 2, but 3 code units were collected | The returned position is the code unit index just past the collected run, as the caller uses `position` | medium; not executed | Strings.CollectCodepointsUndercounts | Strings.CollectCodepointsInCodeUnits |
