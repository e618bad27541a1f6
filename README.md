# StringUtility: identifiers and resource names

A Dafny model of the two string utilities of the CDAV library.

- `uid(prefix?, suffix?)` builds an identifier `[prefix-]SEGMENT[.suffix]`. SEGMENT is a random run of upper-case letters and digits.
- `uri(text, isAvailable)` turns free text into a lower-case, hyphen-delimited resource name. It then asks an availability predicate about `name`, `name-1`, `name-2`, … in that order, and returns the first candidate the predicate accepts.

The implementation file `src/utility/stringUtility.js` is not part of this model. The behaviour modelled is the behaviour the library's test suite `test/unit/utility/stringUtilityTest.js` asserts. Every case of that suite is proved as a lemma in module `StringUtilityTest`.

Files:

- `chars.dfy`, module `Chars`: ASCII character classes and the case mappings of `toLowerCase` / `toUpperCase` on ASCII.
- `decimal.dfy`, module `Decimal`: the plain decimal numeral of a counter (what JavaScript writes for a counter below 10^21 when it is concatenated to a string), and reading it back.
- `string_utility.dfy`, module `StringUtility`:
  - `Uid` and its inverse `SegmentOf`;
  - normalisation (`StripNonAscii`, `Folded`, the hyphen trims, `Normalize`);
  - candidates and their counters (`Candidate`, `CounterOf`);
  - the specification of one `uri` call (`FirstAvailable`, `ProbeLog`, `Resolve`);
  - the method `Uri`, whose loop probes and logs.
- `string_utility_test.dfy`, module `StringUtilityTest`: the suite's cases.

How the injected pieces are modelled:

- The random segment of `uid` is a parameter. `IsSegment` says what the random source is taken to deliver: 16 characters from `[A-Z0-9]`.
- A decoration is `Option<string>`. `null`, a missing argument and `''` are all "not given" (`Given`).
- The availability predicate is modelled as the answers it gives, one per call: `answers[i]` answers call `i`.
  - A Jasmine spy built with `returnValue(true)` is `[true]`.
  - One built with `returnValues(false, true)` is `[false, true]`.
  - `AnswersOf` turns any predicate on names into such a sequence. `ResolveReturnsFirstAccepted` shows that the name returned is then the first candidate that predicate accepts.
- The spy's call record is the `probes` out-parameter of `Uri`: the argument of every call, in order.

Only the random segment of a uid is upper-case; the decorations are left as given. The tests demand that `uid('foobar')` start with the lower-case `foobar-` (line 37) and that `uid(null, 'ics')` end with `.ics` (line 42). `UidKeepsPrefixCase` proves that a prefix with a small letter makes the uid differ from its own upper-case form.

## Model

| member | source | states |
|---|---|---|
| `StringUtility.Uid` | test/unit/utility/stringUtilityTest.js:33-49 | a given prefix makes the identifier start with `prefix + "-"`, and a given suffix makes it end with `"." + suffix`, both as given. Without a decoration the segment itself starts or ends the identifier |
| `StringUtility.UidSegmentRoundTrip` | test/unit/utility/stringUtilityTest.js:26-49 | the random segment can be read back from the identifier between the decorations |
| `StringUtility.IdentifierIffUid` | test/unit/utility/stringUtilityTest.js:26-49 | a string has the format `[PREFIX-]SEGMENT[.SUFFIX]` exactly when it is the uid of a well-formed segment (both directions) |
| `StringUtility.UidBareIsUppercase` | test/unit/utility/stringUtilityTest.js:26-31 | without decorations, a uid built from an `[A-Z0-9]` segment equals its own upper-case form |
| `StringUtility.UidKeepsPrefixCase` | test/unit/utility/stringUtilityTest.js:33-37 | the prefix is not upper-cased: a prefix containing a small letter makes the uid differ from its upper-case form |
| `Chars.UpperFixedIff` | test/unit/utility/stringUtilityTest.js:30 | a string equals its upper-case form exactly when it holds no small ASCII letter |
| `Chars.Lower` | test/unit/utility/stringUtilityTest.js:112-120 | `toLowerCase` on ASCII: the result has the same length, no capital is left, each capital becomes its small letter and every other character stays |
| `Chars.Upper` | test/unit/utility/stringUtilityTest.js:30 | `toUpperCase` on ASCII: the result has the same length, no small letter is left, each small letter becomes its capital and every other character stays |
| `Chars.LowerWithoutCapitals` | test/unit/utility/stringUtilityTest.js:112-120 | lower-casing changes only capitals, so a string without them is unchanged |
| `StringUtility.StripNonAscii` | test/unit/utility/stringUtilityTest.js:122-130 | the result is all ASCII, no longer than the input, and equal to the input when the input is already ASCII |
| `StringUtility.StripKeepsAsciiCharacters` | test/unit/utility/stringUtilityTest.js:122-130 | a character survives stripping exactly when it occurs in the text and is ASCII |
| `StringUtility.StripDistributes` | test/unit/utility/stringUtilityTest.js:122-130 | stripping works piece by piece and keeps order: it distributes over concatenation |
| `StringUtility.LeadingHyphens` | test/unit/utility/stringUtilityTest.js:122-130 | counts the run of hyphens at the front: all of them are hyphens and the next character is not |
| `StringUtility.TrailingHyphens` | test/unit/utility/stringUtilityTest.js:79-87 | counts the run of hyphens at the end: all of them are hyphens and the character before is not |
| `StringUtility.TrimLeadingHyphens` | test/unit/utility/stringUtilityTest.js:122-130 | what is left is a tail of the text that does not start with a hyphen, and everything dropped before it is a hyphen |
| `StringUtility.TrimTrailingHyphens` | test/unit/utility/stringUtilityTest.js:79-87 | what is left is a head of the text that does not end with a hyphen, and everything dropped after it is a hyphen |
| `StringUtility.Folded` | test/unit/utility/stringUtilityTest.js:112-130 | the text with non-ASCII deleted and lower-cased is ASCII without capitals |
| `StringUtility.FoldedFixedIff` | test/unit/utility/stringUtilityTest.js:51-58 | folding leaves a text unchanged exactly when it is already ASCII without capitals (both directions) |
| `StringUtility.Normalize` | test/unit/utility/stringUtilityTest.js:60-130 | the name is never empty, is ASCII without capitals, and is either `"-"` or starts and ends with a non-hyphen |
| `StringUtility.NormalizeIsTrimmedFold` | test/unit/utility/stringUtilityTest.js:60-97 | the name is `"-"` exactly when the folded text is all hyphens (empty included). Otherwise it is a slice of the folded text with only hyphens around it, so inner hyphens are kept |
| `StringUtility.NormalizeFixedPoints` | test/unit/utility/stringUtilityTest.js:51-58 | normalisation leaves a text unchanged exactly when the text is `"-"` or non-empty ASCII without capitals and without a hyphen at either end |
| `StringUtility.NormalizeIdempotent` | test/unit/utility/stringUtilityTest.js:89-97 | normalising a normalised name changes nothing |
| `Decimal.FromNat` | test/unit/utility/stringUtilityTest.js:99-110 | the counter is written as non-empty decimal digits with no leading zero, and a positive counter as a positive numeral |
| `Decimal.ToNatFromNat` | test/unit/utility/stringUtilityTest.js:99-110 | reading the written counter back gives the counter |
| `Decimal.FromNatToNat` | test/unit/utility/stringUtilityTest.js:99-110 | every positive numeral is the rendering of the number it denotes |
| `Decimal.FromNatInjective` | test/unit/utility/stringUtilityTest.js:99-110 | different counters are written differently |
| `StringUtility.Candidate` | test/unit/utility/stringUtilityTest.js:73-108 | candidate 0 is the name itself and only it equals the name; candidate `n > 0` is the name, one hyphen and a positive numeral that reads back as `n` |
| `StringUtility.CounterOfIff` | test/unit/utility/stringUtilityTest.js:69-110 | a string is the `n`-th candidate of a name exactly when its counter reads back as `n` |
| `StringUtility.CounterJoinedByOneHyphen` | test/unit/utility/stringUtilityTest.js:79-97 | after a normalised name other than `"-"`, the counter is joined by exactly one hyphen: the name does not end in one and only digits follow |
| `StringUtility.ProbeLog` | test/unit/utility/stringUtilityTest.js:99-110 | for counters 0 to `k` there are `k + 1` probes, and probe `i` is the name with counter `i` (the bare name for 0) |
| `StringUtility.ProbeCountersIncrease` | test/unit/utility/stringUtilityTest.js:99-110 | probe `i` carries counter `i`, so the counters strictly increase and no candidate is probed twice |
| `StringUtility.FirstAvailable` | test/unit/utility/stringUtilityTest.js:69-110 | the call that gets the first `true`: it is answered true and every earlier call false |
| `StringUtility.Resolve` | test/unit/utility/stringUtilityTest.js:51-130 | the outcome of one call: probe `i` is candidate `i` of the normalised name, every probe but the last is answered false, the last is answered true and is the name returned |
| `StringUtility.Uri` | test/unit/utility/stringUtilityTest.js:51-130 | the loop returns the name with the counter of the first accepted call and logs every probe in order. The first probe is the normalised name, the number of probes is that counter plus one, the last probe is the result, and every earlier probe was rejected |
| `StringUtility.AnswersOf` | test/unit/utility/stringUtilityTest.js:99-110 | the answers a predicate on names gives to the first probes: answer `i` is the predicate applied to candidate `i` |
| `StringUtility.ResolveReturnsFirstAccepted` | test/unit/utility/stringUtilityTest.js:69-110 | for any predicate on names that accepts some candidate, the name returned is accepted, it is the last probe, and every earlier probe was rejected |
| `StringUtilityTest.BareUidIsUppercase` | test/unit/utility/stringUtilityTest.js:26-31 | `uid()` equals `uid().toUpperCase()` |
| `StringUtilityTest.UidWithPrefix` | test/unit/utility/stringUtilityTest.js:34-37 | `uid('foobar')` starts with `foobar-` |
| `StringUtilityTest.UidWithSuffix` | test/unit/utility/stringUtilityTest.js:39-42 | `uid(null, 'ics')` ends with `.ics` |
| `StringUtilityTest.UidWithPrefixAndSuffix` | test/unit/utility/stringUtilityTest.js:44-48 | `uid('foobar', 'ics')` starts with `foobar-` and ends with `.ics` |
| `StringUtilityTest.NormalizeAbc` | test/unit/utility/stringUtilityTest.js:53-56 | `abc` normalises to itself |
| `StringUtilityTest.NormalizeTrailingHyphen` | test/unit/utility/stringUtilityTest.js:81-84 | `abc-` normalises to `abc` |
| `StringUtilityTest.NormalizeInnerHyphen` | test/unit/utility/stringUtilityTest.js:91-94 | `a-bc` normalises to itself |
| `StringUtilityTest.NormalizeCapitals` | test/unit/utility/stringUtilityTest.js:114-117 | `A-BC` normalises to `a-bc` |
| `StringUtilityTest.NormalizeEmoji` | test/unit/utility/stringUtilityTest.js:124-127 | the emoji text `💁🏼-123` normalises to `123` |
| `StringUtilityTest.ReturnsNameIfAvailable` | test/unit/utility/stringUtilityTest.js:51-58 | `uri('abc')` with an always-true spy returns `abc` after the single probe `abc` |
| `StringUtilityTest.NeverReturnsEmptyName` | test/unit/utility/stringUtilityTest.js:60-67 | `uri('')` with an always-true spy returns `-` after the single probe `-` |
| `StringUtilityTest.AppendsOne` | test/unit/utility/stringUtilityTest.js:69-77 | `uri('abc')` with answers false, true returns `abc-1` after probes `abc`, `abc-1` |
| `StringUtilityTest.TrimsTrailingHyphenBeforeProbing` | test/unit/utility/stringUtilityTest.js:79-87 | `uri('abc-')` with answers false, true returns `abc-1` after probes `abc`, `abc-1` |
| `StringUtilityTest.KeepsInnerHyphen` | test/unit/utility/stringUtilityTest.js:89-97 | `uri('a-bc')` with answers false, true returns `a-bc-1` after probes `a-bc`, `a-bc-1` |
| `StringUtilityTest.CountsUpToFirstFreeName` | test/unit/utility/stringUtilityTest.js:99-110 | `uri('a-bc')` with four false answers then true returns `a-bc-4` after the five probes `a-bc` … `a-bc-4` |
| `StringUtilityTest.LowerCasesBeforeProbing` | test/unit/utility/stringUtilityTest.js:112-120 | `uri('A-BC')` with answers false, true returns `a-bc-1` after probes `a-bc`, `a-bc-1` |
| `StringUtilityTest.DeletesEmojiAndTrimsHyphen` | test/unit/utility/stringUtilityTest.js:122-130 | `uri('💁🏼-123')` with answers false, true returns `123-1` after probes `123`, `123-1` |

## Left out

- The random source behind `uid` (a foreign, non-deterministic call): the segment is a parameter, taken to be 16 characters of `[A-Z0-9]`. The tests check only case and decorations.
- The Jasmine spy machinery (`createSpy`, `returnValue(s)`, `calls.argsFor`, `calls.count`): replaced by the answer sequence and the `probes` out-parameter of `Uri`.
- What the predicate does beyond answering, such as side effects or lookups: it is a black box. It is seen only through its answers, one per call.
- Termination when the predicate never accepts a candidate: `Uri` and `Resolve` require that some answer is true, which is the caller's responsibility in the library as well. The loop's measure is the distance to the first true answer.
- Normalisation rules the tests do not pin down:
  - turning runs of other ASCII punctuation or whitespace into one hyphen;
  - collapsing runs of inner hyphens;
  - deleting ASCII control characters.

  The model leaves every ASCII character other than capitals untouched, and trims only hyphen runs at the ends. The claim that a name holds only `[a-z0-9]` and single hyphens is therefore not made.
- Surrogate pairs and the JavaScript regular-expression engine: strings are sequences of Unicode scalar values, and "non-ASCII" means a code point of 0x80 or above.
- `toLowerCase` and `toUpperCase` on non-ASCII letters: the model maps only ASCII letters. Normalisation deletes non-ASCII characters before lower-casing anyway, and the upper-casing in the tests is applied to an `[A-Z0-9]` segment.
- A normalised name that already ends in a hyphen and digits (e.g. `abc-12`): the tests do not say whether the counter is appended (`abc-12-1`) or the trailing number incremented. The model appends, joining the counter with one hyphen.
- Counter range: JavaScript's counter is a double that stops advancing at 2^53 and prints in exponent form (`1e+21`) from 10^21; the model's counter is an unbounded `nat` written in plain decimal.
- A collision on the name `-` (the name of an empty text): the model then probes `--1`, `--2`, …, joining the counter with one more hyphen. The tests do not cover this case.
