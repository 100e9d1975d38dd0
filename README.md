# persian_localizations in Dafny

This project models `persian_localizations`, a small Python library that writes numbers the Persian way. It covers:

- **Persian digits.** `persian_numerals` and `latin_to_persian` write numbers and text with Persian digits. The latter can also convert the decimal point and the question mark.
- **Arabic look-alikes.** `cleanup_arabic_characters` replaces five Arabic characters with their Persian forms.
- **Cardinals.** `persian_numeral_string` spells a whole number of any size in Persian words. It builds the text from:
  - `get_triplets`, which splits a number into base-1000 groups;
  - `get_quadruplets`, which cuts those groups into chunks of four;
  - `triplet_to_string`, which spells one group.
- **Ordinals.** `persian_ordinal_string` and `persian_counting_ordinal_string` make ordinals from the cardinal text.

The model follows the source's form:

- **Loops become methods.** The loops of `get_triplets`, `get_quadruplets`, `triplet_to_string` and `persian_numeral_string` are methods with loop invariants. Each is proved equal to a specification function.
- **Expressions become functions.** The other operations are plain expressions in the source. They are modelled as functions.

Each operation is paired with a partner and a lemma that links the two:

- **Cardinal.** A reader (`Reading.ParseCardinal`) reads spelled numbers back. Reading the text of any integer gives that integer again.
- **Ordinal.** An ordinal reader gives the number back from the ordinal of any integer. This holds both for the ordinal as the source writes it and for the corrected one (see Findings). The counting ordinals read back the same way.
- **Digits.** Reverse digit maps turn the Persian digits back. The decimal rewrite is undone by putting the separator back.
- **Cleanup.** A per-character reference map describes the cleanup. The cleanup is proved idempotent.

Modules, one per file:

| module | file | models |
|---|---|---|
| `Strings` | strings.dfy | the `str` built-ins the source relies on: `join`, `replace`, `endswith`, and lists appended one after another; also `Split`, the reader's own tokenizer, which the source does not use |
| `Grouping` | grouping.dfy | `get_triplets`, `get_quadruplets` |
| `Lexicon` | lexicon.dfy | the word tables and `triplet_to_string` |
| `Cardinal` | cardinal.dfy | `persian_numeral_string` |
| `Phrasing` | phrasing.dfy | the words `persian_numeral_string` writes, and proof that its text is those words separated by spaces |
| `Reading` | reading.dfy | a reader of cardinal texts, and the round trip |
| `Ordinal` | ordinal.dfy | `persian_ordinal_string`, `persian_counting_ordinal_string` |
| `Transliteration` | transliteration.dfy | `latin_to_persian`, `persian_numerals`, `cleanup_arabic_characters` |
| `Samples` | samples.dfy | the cardinals and ordinals of particular numbers, worked out from the definitions |

## Model

| member | source | states |
|---|---|---|
| Grouping.GetTriplets | src/persian_localizations/persian_localizations.py:258-267 | the `while num > 0` loop returns `Triplets(num)`: the base-1000 digits of `num`, most significant first, each in 0..999, none for `num <= 0`, and a non-zero leading group |
| Grouping.TripletsValue | src/persian_localizations/persian_localizations.py:258-267 | the groups of `n >= 0`, read in base 1000, give `n` back |
| Grouping.TripletsOfHorner | src/persian_localizations/persian_localizations.py:258-267 | base-1000 digits with no leading zero are exactly the groups of the number they denote, so `get_triplets` is the only such representation |
| Grouping.GetQuadruplets | src/persian_localizations/persian_localizations.py:269-287 | the pop-and-insert loop returns `Quadruplets(num)`: chunks of four groups cut from the least significant end, every entry a group |
| Grouping.ChunkAt | src/persian_localizations/persian_localizations.py:269-287 | chunk x is the groups x*4 .. x*4+3 after padding the front with zeros |
| Grouping.QuadrupletsConcat | src/persian_localizations/persian_localizations.py:269-287 | the chunks, flattened, are fewer than four padding zeros followed by `get_triplets(n)`; there are no chunks exactly when `n <= 0` |
| Lexicon.TripletText | src/persian_localizations/persian_localizations.py:154-256 | `triplet_to_string` raises `ValueError(num)` exactly when num is outside 1..999, and otherwise gives a non-empty text |
| Lexicon.TripletToString | src/persian_localizations/persian_localizations.py:154-256 | the loop over hundreds, tens and ones digits computes `TripletText(num)`, including the error case |
| Lexicon.DigitsOf | src/persian_localizations/persian_localizations.py:158-162 | the three computed digits are decimal digits that make up `num` |
| Lexicon.TripletParts | src/persian_localizations/persian_localizations.py:164-254 | the words are the hundreds word, then the tens word, then the ones or teen word |
| Lexicon.PartValues | src/persian_localizations/persian_localizations.py:166-254 | each table contributes the value of its digit: a tens digit of 1 moves the ones digit to the teen words, and 0 contributes nothing |
| Lexicon.TripletSpelling | src/persian_localizations/persian_localizations.py:154-256 | for 1..999 there are one to three table words, and their values add up to `num` |
| Lexicon.WordRead | src/persian_localizations/persian_localizations.py:167-254 | every word of the tables is a single space-free token that reads back as itself |
| Cardinal.QuadStrParts | src/persian_localizations/persian_localizations.py:86-101 | the inner loop appends, in slot order, one phrase per non-zero group: its triplet text followed by "میلیارد", "میلیون", "هزار" or nothing |
| Cardinal.SuffixWords | src/persian_localizations/persian_localizations.py:105-107 | the suffix loop builds exactly `k` words "تریلیون" |
| Cardinal.QuadPartEmpty | src/persian_localizations/persian_localizations.py:86-116 | a quadruplet contributes a part exactly when one of its groups is non-zero, so an all-zero quadruplet adds no " و " and no scale word |
| Cardinal.CardinalOfGroup | src/persian_localizations/persian_localizations.py:83-118 | a number in 1..999 is one quadruplet whose last slot holds it, so its cardinal is `triplet_to_string` of it alone, with no scale word and no " و " |
| Cardinal.PersianNumeralString | src/persian_localizations/persian_localizations.py:65-118 | the method (sign, zero, nested loops) computes `NumeralString(num)`: "صفر" for 0, "منفی " before a negative number's magnitude, and the non-empty parts joined with " و " |
| Phrasing.TripletLayout | src/persian_localizations/persian_localizations.py:154-256 | the triplet text is its table words spoken with "و" between them |
| Phrasing.SlotLayout | src/persian_localizations/persian_localizations.py:89-101 | a slot phrase is the triplet words followed by the slot's scale word |
| Phrasing.QuadLayout | src/persian_localizations/persian_localizations.py:103-116 | a quadruplet's part is its words spoken, and it is empty exactly when it has no words |
| Phrasing.TrillionCount | src/persian_localizations/persian_localizations.py:103-113 | a quadruplet with a non-zero group and `k` quadruplets after it ends in exactly `k` words "تریلیون" |
| Phrasing.NumeralLayout | src/persian_localizations/persian_localizations.py:65-118 | the cardinal of `m > 0` is its words separated by single spaces, and that of `-m` is "منفی" and a space before them |
| Reading.TripletGroupRun | src/persian_localizations/persian_localizations.py:154-256 | reading the words of `triplet_to_string(t)` adds `t` to the group being read |
| Reading.SlotRun | src/persian_localizations/persian_localizations.py:89-101 | reading a slot phrase adds the group times 10^9, 10^6 or 10^3, or keeps it as the last group |
| Reading.QuadRun | src/persian_localizations/persian_localizations.py:103-113 | reading a part gives the quadruplet's value, moved up `k` places of 10^12 by its trillion words |
| Reading.NumeralValue | src/persian_localizations/persian_localizations.py:83-118 | the words of a positive number add up to the number again |
| Reading.CardinalRoundTrip | src/persian_localizations/persian_localizations.py:65-118 | reading `persian_numeral_string(n)` gives back `n`, for every integer, including 0 and negative numbers |
| Reading.NumeralStringInjective | src/persian_localizations/persian_localizations.py:65-118 | different numbers have different cardinal texts |
| Samples.CardinalThreeThousandThree | tests/main_test.py:72-75 | 3003 is spelled "سه هزار و سه": the thousands slot takes "هزار" and the two phrases are joined with " و " |
| Samples.CardinalTenMillionTrillionOne | tests/main_test.py:114-117 | 10^19 + 1 is spelled "ده میلیون تریلیون و یک": the front quadruplet ends in one "تریلیون" |
| Samples.CardinalMinusTenMillionTrillionOne | tests/main_test.py:141-144 | -(10^19 + 1) is spelled "منفی ده میلیون تریلیون و یک" |
| Ordinal.Ordinal | src/persian_localizations/persian_localizations.py:130-140 | every ordinal other than that of 1 ends in "م" |
| Ordinal.OrdinalRoundTrip | src/persian_localizations/persian_localizations.py:120-140 | reading the ordinal gives back the number: "صفرم" is 0, "اول" is 1, and a final "سوم" is read as the cardinal ending in "سه" |
| Ordinal.OrdinalInjective | src/persian_localizations/persian_localizations.py:120-140 | different numbers have different ordinals |
| Ordinal.CountingOrdinalRoundTrip | src/persian_localizations/persian_localizations.py:142-152 | reading the counting ordinal gives back the number |
| Ordinal.OrdinalThreeAsWritten | src/persian_localizations/persian_localizations.py:137-152 | as written, the ordinal of 3 is "سهم" and does not end in "سوم", and the counting ordinal is "سهمین"; the corrected ordinal is "سوم" |
| Ordinal.OrdinalThird | src/persian_localizations/persian_localizations.py:137-140 | the corrected ordinal of every number other than 0 and 1 whose cardinal ends in the word "سه" ends in "سوم"; the one as written fails this for 3 |
| Ordinal.OrdinalAsWrittenRoundTrip | src/persian_localizations/persian_localizations.py:120-140 | the ordinal as written, "سهم" included, also reads back as its number |
| Ordinal.CountingOrdinalAsWrittenRoundTrip | src/persian_localizations/persian_localizations.py:142-152 | the counting ordinal as written, the ordinal followed by "ین", reads back as its number |
| Samples.OrdinalThirtyThree | tests/main_test.py:153-156 | the ordinal of 33 is "سی و سوم", as written and corrected, and the counting ordinal as written is "سی و سومین" |
| Ordinal.OrdinalAgrees | src/persian_localizations/persian_localizations.py:130-140 | for every number except 3, the ordinal as written equals the corrected one |
| Transliteration.PersianDigitsMap | src/persian_localizations/persian_localizations.py:43-52 | the ten chained `replace` calls act one character at a time: an ASCII digit becomes the Persian digit of the same value, and anything else is kept |
| Transliteration.PersianDigitsClean | src/persian_localizations/persian_localizations.py:43-52 | no ASCII digit is left, every ASCII digit became a Persian digit, and nothing else changed |
| Transliteration.PersianDigitsRoundTrip | src/persian_localizations/persian_localizations.py:43-52 | mapping the Persian digits back gives the input again when it had no Persian digits |
| Transliteration.LatinToPersianPlain | src/persian_localizations/persian_localizations.py:19-52 | with both flags off, the length is kept and each character goes through the digit map |
| Transliteration.LatinToPersianQuestionMarks | src/persian_localizations/persian_localizations.py:40-52 | with only `question_mark` set (`decimal_point` off), every "?" becomes "؟", none is left, and the length is kept |
| Transliteration.LatinToPersianNoAsciiDigits | src/persian_localizations/persian_localizations.py:35-52 | whatever the flags, the output contains no ASCII digit |
| Transliteration.LatinToPersianRoundTrip | src/persian_localizations/persian_localizations.py:43-52 | with both flags off, the Latin text comes back from the Persian one |
| Transliteration.DecimalPointsChanges | src/persian_localizations/persian_localizations.py:36-38 | with a one-character separator, the length is kept and only separators between two digits change, each into "٫" |
| Transliteration.DecimalPointsRoundTrip | src/persian_localizations/persian_localizations.py:36-38 | for a one-character separator, replacing every "٫" by it undoes the rewrite, when the text had no "٫" of its own |
| Transliteration.DecimalPointsFlanked | src/persian_localizations/persian_localizations.py:36-38 | for a separator of any length, every "٫" of the result stands between two digits, when the text had no "٫" of its own |
| Transliteration.DecimalPointsRestore | src/persian_localizations/persian_localizations.py:36-38 | for a separator of any length, putting it back in place of every "٫" gives the text again, when the text had no "٫" of its own |
| Transliteration.DecimalPointsFires | src/persian_localizations/persian_localizations.py:36-38 | for a separator of any length, a digit, the separator and a digit anywhere in the text leave a "٫" in the result |
| Transliteration.DecimalPointsWhere | src/persian_localizations/persian_localizations.py:36-38 | for a one-character separator that is not a digit, position i of the result is "٫" exactly when a digit, the separator and a digit stand at i - 1, i, i + 1 and position i - 2 of the result is not "٫" (the scan did not use i - 1 in the match before), so with `DecimalPointsChanges` the rewrite is determined |
| Transliteration.DecimalPointsExample | src/persian_localizations/persian_localizations.py:36-38 | "69.420" with "." as the separator becomes "69٫420" |
| Transliteration.PersianNumeralsDigits | src/persian_localizations/persian_localizations.py:8-17 | `persian_numerals` gives Persian digits only, after a leading "-" exactly for negative numbers |
| Transliteration.PersianNumeralsRoundTrip | src/persian_localizations/persian_localizations.py:8-17 | reading the Persian numerals of a number gives the number back |
| Transliteration.PersianNumeralsInjective | src/persian_localizations/persian_localizations.py:8-17 | different numbers have different Persian numerals |
| Transliteration.CleanupMap | src/persian_localizations/persian_localizations.py:54-63 | the five chained `replace` calls act one character at a time, giving each its Persian form |
| Transliteration.CleanupNoArabic | src/persian_localizations/persian_localizations.py:63 | the output contains none of 'ك', 'ي', '٤', '٥', '٦', and every other character is kept |
| Transliteration.CleanupIdempotent | src/persian_localizations/persian_localizations.py:63 | cleaning up twice is the same as cleaning up once |

## Left out

- **Locale lookup.** `locale.localeconv()["decimal_point"]` reads the environment. The separator is a parameter of `Transliteration.LatinToPersian`, and `re.escape` is implicit because the separator is matched literally.
- **Regular expressions.** `re.sub` is a foreign library. Its left-to-right, non-overlapping rewrite of `(\d)sep(\d)` is modelled by hand in `Transliteration.DecimalPoints`.
- Transliteration.IsDecimalDigit: Python's `\d` matches every Unicode decimal digit. The model recognises the ASCII, Arabic-Indic and Persian digits only, so digits of other scripts next to a separator are not rewritten.
- Transliteration.DecimalPointsChanges: the kept length and the position-by-position comparison are proved for a one-character separator only, because a longer separator shortens the text. For any separator, `DecimalPointsFlanked`, `DecimalPointsFires` and `DecimalPointsRestore` state where "٫" may appear, that a match is always rewritten, and that the rewrite is undone.
- Transliteration.DecimalPointsWhere: the exact positions of "٫" are proved for a one-character separator that is not a digit. With a digit as the separator, a match can begin at the separator of the match before, and the positions follow a different rule.
- **`str(num)`.** The built-in formatter is the specification function `Transliteration.DecimalString`.
- Transliteration.PersianNumerals: CPython 3.11 and later limit int-to-str conversion to 4300 digits by default, so `str(num)` raises `ValueError` for larger numbers. The model does not have this limit: `PersianNumerals` and `PersianNumeralsRoundTrip` cover every integer.
- **Exceptions.** The `ValueError` of `triplet_to_string` is the `Outcome.ValueError` value. `persian_numeral_string` only calls it with groups in 1..999, so it never raises there.
- **Other files.** `src/__init__.py`, the packaging files and the unit-test harness are not part of this model. Some of the test cases are worked out as the lemmas of `Samples` and as the "69.420" example, and they are the reason for the ordinal finding.
- **Integer width.** Python integers are unbounded and so are Dafny's. The only size limit in the source's path is the `str(num)` digit limit above.

## Findings

| source | as written | input that shows it | evidently intended | confidence | as-written member | corrected member |
|---|---|---|---|---|---|---|
| src/persian_localizations/persian_localizations.py:137-140 | only a cardinal ending in " سه", with a space, is rewritten to end in "سوم". The cardinal of 3 is "سه" with no space before it, so the fallback gives "سهم", and line 152 makes the counting ordinal "سهمین". | 3 | "سوم" (third) and "سومین", as for 23 and 33, whose cardinals end in " سه" | not executed | Ordinal.OrdinalThreeAsWritten | Ordinal.OrdinalThird |

The corrected ordinal (`Ordinal.Ordinal`) rewrites a cardinal whose last word is "سه", whether or not a space precedes it. `Ordinal.OrdinalAgrees` shows that this changes only the value for 3. The counting ordinal is built on the corrected ordinal. `Ordinal.OrdinalAsWritten` and `Ordinal.CountingOrdinalAsWritten` keep the code as written.
