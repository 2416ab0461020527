# Text coherence layer of the math exercise generator, in Dafny

This project models the part of the exercise generator backend that checks and
cleans the text an AI writes for a math exercise:

- `TextNormalizer` (backend/services/text_normalizer.py) has five operations:
  - `normalize_math_symbols`: six regular-expression rewrites that turn `*`,
    `2x3`, `^2`, `^3`, `~=`/`environ` and `30 deg` into `×`, `²`, `³`, `≈`
    and `°`;
  - `validate_geometry_points`: compares the isolated capitals of a text with
    the points of the figure;
  - `ensure_point_consistency`: turns those checks into warnings;
  - `remove_personal_names`: replaces twelve first names by `[point]`;
  - `clean_latex_symbols`: turns `\frac{a}{b}` into `a/b` and drops `\(` and `\)`.
- The constant tables of backend/constants.py: the symbol map, the eight
  point groups used to label figures, and the level, difficulty and document
  lists.
- The checks and bookkeeping of the massive generator test
  (backend/tests/test_massive_generators.py):
  - the `TestResults` accumulator;
  - the per-draw loop of `test_generator`;
  - `verify_geometry_points`;
  - the Thalès branch of `verify_calculations`.
- The two text extractors of the Thalès solution test
  (backend/tests/test_thales_solution_coherence.py): point letters, and
  `(XY) // (ZW)` parallelisms.

Each regular expression is modelled as a family of "matches here" predicates
and a left-to-right scan that, like `re.sub` and `re.findall`, either handles
a match at the current position and resumes after it, or moves on by one
character. Python's `\d`, `\s`, `\w`/`\b`, `str.isupper` and
`re.IGNORECASE` are character-class predicates over the Latin-1 range
(`text_chars.dfy`).

Where the code is stateful, the model is imperative:

- `TestResults` is a class. Its methods update its counters and lists.
- `test_generator` is a loop over an abstract generator.
- The name scrubbing and the two extractors are loops.

Each of these is proved against a function that specifies it.

Files:

| file | module | models |
|---|---|---|
| text_chars.dfy | `TextChars` | character classes, runs of digits and blanks, `sorted(set(...))` |
| constants.dfy | `Constants` | backend/constants.py |
| normalize_symbols.dfy | `NormalizeSymbols` | `normalize_math_symbols` |
| geometry_points.dfy | `GeometryPoints` | `validate_geometry_points`, `ensure_point_consistency` |
| personal_names.dfy | `PersonalNames` | `remove_personal_names` |
| latex_symbols.dfy | `LatexSymbols` | `clean_latex_symbols` |
| massive_generators.dfy | `MassiveGenerators` | the massive generator test |
| thales_coherence.dfy | `ThalesCoherence` | the Thalès solution extractors |

## Model

| member | source | states |
|---|---|---|
| TextChars.DigitRun | backend/services/text_normalizer.py:28 | `\d+` consumes exactly the longest run of digits: every counted character is a digit and the next one is not |
| TextChars.SpaceRun | backend/services/text_normalizer.py:27 | `\s*` consumes exactly the longest run of whitespace |
| TextChars.DigitRunFrom | backend/services/text_normalizer.py:28 | the digit run counted from a position equals the one counted on the suffix |
| TextChars.SpaceRunFrom | backend/services/text_normalizer.py:27 | the blank run counted from a position equals the one counted on the suffix |
| TextChars.Filter | backend/services/text_normalizer.py:67-73 | the set difference and the comprehension keep exactly the elements satisfying the condition |
| TextChars.InsertSorted | backend/services/text_normalizer.py:77-79 | inserting one letter into a sorted, duplicate-free list keeps it sorted and duplicate-free, with exactly the old letters and the new one |
| TextChars.SortedUnique | backend/services/text_normalizer.py:77-79 | `sorted` of a set: strictly increasing, and holding exactly the letters of the input |
| Constants.MapOf | backend/constants.py:6-17 | the dict literal's keys are exactly the keys listed |
| Constants.MapOfDistinctKeys | backend/constants.py:6-17 | with distinct keys, the dict has one key per entry and maps each key to its own value |
| Constants.MapOfOneToOne | backend/constants.py:6-17 | distinct keys and distinct one-character values give a one-to-one map of that size |
| Constants.MathSymbolKeysDistinct | backend/constants.py:6-17 | the ten keys of `MATH_SYMBOLS` are pairwise distinct |
| Constants.MathSymbolValueCodes | backend/constants.py:6-17 | each value of `MATH_SYMBOLS` is one character, and no two code points are equal |
| Constants.MathSymbolsShape | backend/constants.py:6-17 | `MATH_SYMBOLS` has 10 keys whose values are pairwise distinct single characters |
| Constants.NormalizerGlyphsAreTableSymbols | backend/constants.py:6-17 | the glyphs `normalize_math_symbols` writes (`×`, `²`, `³`, `≈`, `°`) are the table's values under their names |
| Constants.AdjacentIncreasingIsStrict | backend/constants.py:19-29 | a list that increases from each element to the next is strictly increasing |
| Constants.PointSetsSplit | backend/constants.py:20-29 | the eight groups of three are, in order, the letters A–Y without O |
| Constants.PointSetsAlphabetical | backend/constants.py:19-29 | reading the groups and their letters in order, the letters strictly increase, as the comment says |
| Constants.PointSetsShape | backend/constants.py:20-29 | 8 groups, each of exactly three distinct single upper-case letters |
| Constants.PointSetsDisjoint | backend/constants.py:19-29 | no letter is in two groups |
| Constants.PointSetsAvoidOAndZ | backend/constants.py:20-29 | every pooled letter lies in A–Y and is neither O nor Z |
| Constants.LevelListsDistinct | backend/constants.py:31-38 | 4 distinct school levels, 3 distinct difficulties, 4 distinct document types |
| NormalizeSymbols.AsteriskLen | backend/services/text_normalizer.py:27 | a match of `\s*\*\s*` is non-empty and fits in the text |
| NormalizeSymbols.Asterisks | backend/services/text_normalizer.py:27 | no `*` is left, and the only characters added are blanks and `×` |
| NormalizeSymbols.AsteriskFreePrefix | backend/services/text_normalizer.py:27 | text with no `*` that does not end in whitespace is copied, whatever follows it |
| NormalizeSymbols.AsteriskBecomesTimes | backend/services/text_normalizer.py:27 | an asterisk with the whitespace on both sides becomes `" × "`: the text before it is kept and the text after it is rewritten in turn |
| NormalizeSymbols.AsterisksKeepPlainText | backend/services/text_normalizer.py:27 | text without `*` is unchanged |
| NormalizeSymbols.AsterisksIdempotent | backend/services/text_normalizer.py:27 | a second application changes nothing |
| NormalizeSymbols.DigitTimes | backend/services/text_normalizer.py:28 | the rule as written: ProductBecomesTimes gives what a product of any digit runs becomes in context (`12 x 34` becomes `12 × 34`), DigitTimesChars (only blanks and `×` added), TimesFreeIsFixed (no match, no change) and DigitTimesNotIdempotent |
| NormalizeSymbols.TimesSign | backend/services/text_normalizer.py:28 | the `x` of a match comes after the left number |
| NormalizeSymbols.TimesRight | backend/services/text_normalizer.py:28 | the right operand starts after the `x` and its blanks, within the text |
| NormalizeSymbols.TimesEnd | backend/services/text_normalizer.py:28 | the match ends after at least one digit of the right number |
| NormalizeSymbols.DigitTimesChars | backend/services/text_normalizer.py:28 | the product rule adds no characters other than blanks and `×` |
| NormalizeSymbols.DigitTimesChar | backend/services/text_normalizer.py:28 | each character of the output is from the input, a blank or `×` |
| NormalizeSymbols.DigitTimesKeepsPlainText | backend/services/text_normalizer.py:28 | text without `x` is unchanged |
| NormalizeSymbols.TimesFreeIsFixed | backend/services/text_normalizer.py:28 | text with no match anywhere is unchanged |
| NormalizeSymbols.SingleDigitMatch | backend/services/text_normalizer.py:28 | `dxd` not followed by a digit is a match, with the positions of its parts |
| NormalizeSymbols.SingleDigitProduct | backend/services/text_normalizer.py:28 | `axb` becomes `a × b`, and the scan resumes after `b` |
| NormalizeSymbols.TimesFreePrefix | backend/services/text_normalizer.py:28 | a prefix at none of whose positions a match starts is copied unchanged |
| NormalizeSymbols.ProductBecomesTimes | backend/services/text_normalizer.py:28 | digits `l`, blanks, `x`, blanks and digits `r`, after text without `x` that does not end in a digit and before text not starting with a digit, become `l × r`; the text before is kept and the text after is rewritten in turn |
| NormalizeSymbols.PlainTextIsTimesFree | backend/services/text_normalizer.py:28 | text without `x` has no product match anywhere |
| NormalizeSymbols.GlyphAfterDigit | backend/services/text_normalizer.py:28 | `d ×` is not a match (the rewrite's own output is not re-read as a product) |
| NormalizeSymbols.LoneDigit | backend/services/text_normalizer.py:28 | example: a single digit is unchanged by the rule as written and as corrected |
| NormalizeSymbols.FirstPassOnChain | backend/services/text_normalizer.py:28 | on `axbxc` one pass rewrites only the first product |
| NormalizeSymbols.SecondPassOnChain | backend/services/text_normalizer.py:28 | a second pass rewrites the product left over |
| NormalizeSymbols.DigitTimesNotIdempotent | backend/services/text_normalizer.py:28 | `2x3x4` becomes `2 × 3x4`, which a second pass turns into `2 × 3 × 4` |
| NormalizeSymbols.DigitTimesChained | backend/services/text_normalizer.py:28 | the corrected rule; its properties are the lemmas below: ChainedLeavesNoMatch, ChainedIdempotent, ChainedRewritesWholeChain |
| NormalizeSymbols.ChainedChars | backend/services/text_normalizer.py:28 | the corrected rule adds no characters other than blanks and `×` |
| NormalizeSymbols.ChainedHead | backend/services/text_normalizer.py:28 | the corrected rule keeps the first character and maps empty to empty |
| NormalizeSymbols.ChainedAfterSignBack | backend/services/text_normalizer.py:28 | a right operand after the rewrite was already one before it |
| NormalizeSymbols.ChainedBeforeSignBack | backend/services/text_normalizer.py:28 | a blanks-then-`x` part after the rewrite was already one before it |
| NormalizeSymbols.DigitsThenSign | backend/services/text_normalizer.py:28 | digits followed by ` × ` do not continue a match, and put no match in front of match-free text |
| NormalizeSymbols.ChainedAfterLeftBack | backend/services/text_normalizer.py:28 | a match tail after the corrected rule was one before it |
| NormalizeSymbols.MatchInPhases | backend/services/text_normalizer.py:28 | a product match is exactly a digit followed by a match tail, the phase the corrected rule is proved against |
| NormalizeSymbols.ChainedLeavesNoMatch | backend/services/text_normalizer.py:28 | after the corrected rule no product match is left anywhere |
| NormalizeSymbols.TimesFreeIsChainedFixed | backend/services/text_normalizer.py:28 | text with no match is unchanged by the corrected rule |
| NormalizeSymbols.ChainedIdempotent | backend/services/text_normalizer.py:28 | the corrected rule is idempotent, and the rule as written changes nothing after it |
| NormalizeSymbols.SingleDigitProductChained | backend/services/text_normalizer.py:28 | the corrected rule rewrites `axb` to `a × ` and rescans from `b` |
| NormalizeSymbols.ChainedRewritesWholeChain | backend/services/text_normalizer.py:28 | the corrected rule rewrites `axbxc` to `a × b × c` in one pass |
| NormalizeSymbols.Power | backend/services/text_normalizer.py:31-32 | the power rule as written: PowerBecomesGlyph gives what a match becomes in context (one glyph), with PowerChars, PowerLeavesNoMatch and PowerIdempotent |
| NormalizeSymbols.PowerChars | backend/services/text_normalizer.py:31-32 | the power rule adds no character but its glyph |
| NormalizeSymbols.PowerFreeIsFixed | backend/services/text_normalizer.py:31-32 | text without a match of `\^e(?!\d)` is unchanged |
| NormalizeSymbols.PowerHead | backend/services/text_normalizer.py:31-32 | the first output character is the glyph exactly when a match starts the text, and otherwise the first input character |
| NormalizeSymbols.PowerLeavesNoMatch | backend/services/text_normalizer.py:31-32 | no match of the pattern is left afterwards |
| NormalizeSymbols.PowerIdempotent | backend/services/text_normalizer.py:31-32 | `^2 → ²` and `^3 → ³` are idempotent |
| NormalizeSymbols.PowerKeepsPlainText | backend/services/text_normalizer.py:31-32 | text without `^` is unchanged |
| NormalizeSymbols.LongerExponentSurvives | backend/services/text_normalizer.py:31-32 | `^23` is left as it is (the negative lookahead) |
| NormalizeSymbols.PowerBecomesGlyph | backend/services/text_normalizer.py:31-32 | `^e` not followed by a digit, after text without `^`, becomes exactly one glyph; the text before is kept and the text after is rewritten in turn |
| NormalizeSymbols.Squares | backend/services/text_normalizer.py:31 | `^2(?!\d)` becomes `²`: the power rule with exponent `2`; SquareBecomesGlyph gives a match in context, and PowerChars, PowerLeavesNoMatch and PowerIdempotent hold of it |
| NormalizeSymbols.Cubes | backend/services/text_normalizer.py:32 | `^3(?!\d)` becomes `³`: the power rule with exponent `3`; CubeBecomesGlyph gives a match in context, with the same lemmas |
| NormalizeSymbols.SquareBecomesGlyph | backend/services/text_normalizer.py:31 | `^2` not followed by a digit, after text without `^`, becomes one `²` and the rest is rewritten in turn |
| NormalizeSymbols.CubeBecomesGlyph | backend/services/text_normalizer.py:32 | `^3` not followed by a digit, after text without `^`, becomes one `³` and the rest is rewritten in turn |
| NormalizeSymbols.Approximately | backend/services/text_normalizer.py:35 | the approximation rule: ApproxBecomesGlyph gives what `~=` and `environ` become in context (one `≈`), with ApproxChars, ApproxLeavesNoMatch and ApproxIdempotent |
| NormalizeSymbols.ApproxChars | backend/services/text_normalizer.py:35 | it adds no character but `≈` |
| NormalizeSymbols.ApproxFreeIsFixed | backend/services/text_normalizer.py:35 | text with no `~=` or `environ` is unchanged |
| NormalizeSymbols.ApproxPrefixBack | backend/services/text_normalizer.py:35 | a prefix of the output that holds no `≈` is a prefix of the input |
| NormalizeSymbols.ApproxGlyphFree | backend/services/text_normalizer.py:35 | a `≈` in front of match-free text creates no match |
| NormalizeSymbols.ApproxLeavesNoMatch | backend/services/text_normalizer.py:35 | no `~=` or `environ` is left afterwards |
| NormalizeSymbols.ApproxCopyFree | backend/services/text_normalizer.py:35 | copying a character that starts no match creates none |
| NormalizeSymbols.ApproxCopyKeeps | backend/services/text_normalizer.py:35 | a prefix that does not start the input does not start the output |
| NormalizeSymbols.ApproxIdempotent | backend/services/text_normalizer.py:35 | the approximation rule is idempotent |
| NormalizeSymbols.ApproxKeepsPlainText | backend/services/text_normalizer.py:35 | text not containing `~=` or `environ` is unchanged |
| NormalizeSymbols.ApproxBecomesGlyph | backend/services/text_normalizer.py:35 | `~=` or `environ`, after text with neither `~` nor `e`, becomes exactly one `≈`; the text before is kept and the text after is rewritten in turn |
| NormalizeSymbols.DegAfterSpacesShape | backend/services/text_normalizer.py:38 | after the blanks of a match comes `deg` at a word boundary |
| NormalizeSymbols.DegAfterDigitsShape | backend/services/text_normalizer.py:38 | after the digits of a match come the blanks and `deg` |
| NormalizeSymbols.DegMatchShape | backend/services/text_normalizer.py:38 | a match of `(\d+)\s*deg\b` is a non-empty number, blanks, then `deg` at a word boundary |
| NormalizeSymbols.DegWordAt | backend/services/text_normalizer.py:38 | where `deg` starts in a match, after the number |
| NormalizeSymbols.Degrees | backend/services/text_normalizer.py:38 | the degree rule never lengthens the text; DegreeBecomesSign gives what `<digits><blanks>deg` at a word boundary becomes in context (the digits then `°`, the text after rewritten in turn), and DegreesChars, DegreesLeaveNoMatch and DegreesIdempotent its other properties |
| NormalizeSymbols.DegreesAtMatch | backend/services/text_normalizer.py:38 | one-step unfolding used by the proofs: at a match the number is kept, `°` replaces the blanks and `deg`, and the scan resumes after the match |
| NormalizeSymbols.DegreesCopy | backend/services/text_normalizer.py:38 | one-step unfolding used by the proofs: where no match starts, the character is copied |
| NormalizeSymbols.DegreesChars | backend/services/text_normalizer.py:38 | the degree rule adds no character but `°` |
| NormalizeSymbols.DegreesChar | backend/services/text_normalizer.py:38 | each output character is from the input or is `°` |
| NormalizeSymbols.DegFreeIsFixed | backend/services/text_normalizer.py:38 | text with no match is unchanged |
| NormalizeSymbols.DegreesHead | backend/services/text_normalizer.py:38 | the first character is kept, and only empty text gives empty text |
| NormalizeSymbols.DegWordBack | backend/services/text_normalizer.py:38 | `deg` at a word boundary in the output was there in the input |
| NormalizeSymbols.DegreesLettersBack | backend/services/text_normalizer.py:38 | up to the first digit of the output, the input was copied |
| NormalizeSymbols.DegAfterSpacesBack | backend/services/text_normalizer.py:38 | a blanks-then-`deg` tail in the output was one in the input |
| NormalizeSymbols.DigitsThenDegreeSign | backend/services/text_normalizer.py:38 | digits followed by `°` do not continue a match, and put no match in front of match-free text |
| NormalizeSymbols.DegAfterDigitsBack | backend/services/text_normalizer.py:38 | a match tail in the output was one in the input |
| NormalizeSymbols.DegreesLeaveNoMatch | backend/services/text_normalizer.py:38 | no degree match is left afterwards |
| NormalizeSymbols.DegreesIdempotent | backend/services/text_normalizer.py:38 | the degree rule is idempotent |
| NormalizeSymbols.DegNeedsWord | backend/services/text_normalizer.py:38 | a match needs `deg` in the text |
| NormalizeSymbols.DegreesKeepPlainText | backend/services/text_normalizer.py:38 | text without `deg` is unchanged |
| NormalizeSymbols.DegWordThere | backend/services/text_normalizer.py:38 | `deg` followed by the end or a non-word character is at a word boundary |
| NormalizeSymbols.SpacesThenWord | backend/services/text_normalizer.py:38 | a whitespace run then a word-final `deg` is what follows the number of a match, and the run is all the blanks consumed |
| NormalizeSymbols.DigitsThenSpaces | backend/services/text_normalizer.py:38 | digits followed by blanks and a word-final `deg` are the match tail, and the digits are the whole number |
| NormalizeSymbols.DegLayout | backend/services/text_normalizer.py:38 | a non-empty digit run, a whitespace run and a word-final `deg` laid out in turn are a match whose number is the digits and whose `deg` follows the blanks |
| NormalizeSymbols.DegRewritten | backend/services/text_normalizer.py:38 | at the start of a text, digits, blanks and a word-final `deg` become the digits then `°`, and the rest is rewritten in turn |
| NormalizeSymbols.DegPrefixSplit | backend/services/text_normalizer.py:38 | `deg` at the start of a text followed by a number lies within that text |
| NormalizeSymbols.NoDegAfterSpaces | backend/services/text_normalizer.py:38 | text without `deg`, followed by a digit, holds no blanks-then-`deg` tail |
| NormalizeSymbols.NoDegAfterDigits | backend/services/text_normalizer.py:38 | text without `deg` not ending in a digit, followed by a digit, starts no match tail |
| NormalizeSymbols.DegFreeBefore | backend/services/text_normalizer.py:38 | text without `deg` not ending in a digit is copied by the degree rule when a number follows it |
| NormalizeSymbols.DegreeBecomesSign | backend/services/text_normalizer.py:38 | in context: after text `p` without `deg` not ending in a digit, a non-empty number `l`, a whitespace run `w` and `deg` followed by the end or a non-word character become `l°`, and the text after is rewritten in turn |
| NormalizeSymbols.NormalizeMathSymbols | backend/services/text_normalizer.py:26-40 | the six rules in source order; NormalizeChars (only the input's characters and blanks, `×`, `²`, `³`, `≈`, `°`), NormalizeRemovesAsterisks, NormalizeKeepsPlainText, NormalizeProducts and NormalizeNotIdempotent, over the rules pinned by their own context lemmas (DegreeBecomesSign for the degree rule) |
| NormalizeSymbols.NormalizeMathSymbolsChained | backend/services/text_normalizer.py:26-40 | the same chain with the corrected product rule; NormalizeChars, NormalizeRemovesAsterisks, NormalizeKeepsPlainText and NormalizeNotIdempotent state its properties, and every rule in it has its context lemma (DegreeBecomesSign for the degree rule) |
| NormalizeSymbols.NormalizeRemovesAsterisks | backend/services/text_normalizer.py:26-40 | no `*` is left after normalization, with the rule as written or as corrected |
| NormalizeSymbols.NormalizeChars | backend/services/text_normalizer.py:26-40 | every character of the result, with the rule as written or as corrected, is from the input or one of ` `, `×`, `²`, `³`, `≈`, `°` |
| NormalizeSymbols.NormalizeKeepsPlainText | backend/services/text_normalizer.py:26-40 | text with none of `*`, `x`, `^`, `~=`, `environ` and `deg` is returned unchanged, with the rule as written and as corrected |
| NormalizeSymbols.LaterRulesKeepProducts | backend/services/text_normalizer.py:31-38 | the rules after the product rule leave text of digits, blanks, `x` and `×` alone |
| NormalizeSymbols.NormalizeProducts | backend/services/text_normalizer.py:26-40 | on such text, normalization is the product rule alone |
| NormalizeSymbols.NormalizeNotIdempotent | backend/services/text_normalizer.py:26-40 | normalizing `axbxc` twice differs from normalizing it once; the corrected chain rewrites it in one call |
| GeometryPoints.IsolatedFrom | backend/services/text_normalizer.py:64 | `re.findall(r'\b([A-Z])\b')` finds exactly the capitals with no word character on either side |
| GeometryPoints.ValidateGeometryPoints | backend/services/text_normalizer.py:64-80 | found = the isolated capitals; unexpected = found ∖ expected ∖ false positives; missing = expected ∖ found; all three strictly sorted; valid iff nothing is unexpected |
| GeometryPoints.ValidIff | backend/services/text_normalizer.py:64-76 | valid exactly when every isolated capital is expected or a false positive |
| GeometryPoints.ValidMonotone | backend/services/text_normalizer.py:64-76 | declaring more points never turns a valid text into an invalid one |
| GeometryPoints.NoCapitalsPass | backend/services/text_normalizer.py:64-80 | a text without capitals passes, finds nothing, and misses every expected point |
| GeometryPoints.ListItems | backend/services/text_normalizer.py:104 | the inside of `str(list)` has five characters per letter less two, and character `j` is that of the pattern quote, letter `j / 5`, quote, comma, blank |
| GeometryPoints.ListRepr | backend/services/text_normalizer.py:104 | `str(list)` of letters is `[`, then each letter quoted, separated by `", "`, then `]`, character by character |
| GeometryPoints.Warning | backend/services/text_normalizer.py:103-111 | the warning text, a prefix followed by `str(list)` of the unexpected points; EnsurePointConsistency states when each warning is emitted |
| GeometryPoints.EnsurePointConsistency | backend/services/text_normalizer.py:94-114 | the texts come back unchanged; one warning per invalid text, the statement's first, each naming that text's unexpected points |
| PersonalNames.Scrub | backend/services/text_normalizer.py:131 | one pass of `\bname\b` to `[point]`, ignoring case; WordBecomesPlaceholder gives what each whole-word occurrence becomes in context, with ScrubLeavesFree, FreeIsFixed and WholeNameReplaced |
| PersonalNames.NameFreeIff | backend/services/text_normalizer.py:131 | the scan-based "no match" predicate holds exactly when no whole-word, case-insensitive occurrence starts anywhere |
| PersonalNames.FreeIsFixed | backend/services/text_normalizer.py:131 | a pass leaves text without the name unchanged |
| PersonalNames.WordRun | backend/services/text_normalizer.py:131 | the longest run of word characters |
| PersonalNames.MatchNeedsWord | backend/services/text_normalizer.py:131 | a name match starts with a word character |
| PersonalNames.WordCopied | backend/services/text_normalizer.py:131 | inside a word (no `\b` before) characters are copied |
| PersonalNames.ScrubCopies | backend/services/text_normalizer.py:131 | one-step unfolding used by the proofs: after a word character the pass copies one character and continues |
| PersonalNames.MatchHereLocal | backend/services/text_normalizer.py:131 | whether a name matches depends only on the next `|name| + 1` characters |
| PersonalNames.WordPrefixCopied | backend/services/text_normalizer.py:131 | the rest of a word and the character ending it are copied |
| PersonalNames.MatchStopsAtNonWord | backend/services/text_normalizer.py:131 | a name match does not reach past a non-word character |
| PersonalNames.MatchBack | backend/services/text_normalizer.py:131 | a name matching after a pass matched before it |
| PersonalNames.NonWordHead | backend/services/text_normalizer.py:131 | before a non-word character, the `\b` state does not matter |
| PersonalNames.PlaceholderFree | backend/services/text_normalizer.py:131 | `[point]` in front of name-free text creates no name |
| PersonalNames.FreeSuffix | backend/services/text_normalizer.py:131 | every suffix of name-free text is name-free |
| PersonalNames.ScrubLeavesFree | backend/services/text_normalizer.py:131 | after a pass, the name is gone and no other absent name appears |
| PersonalNames.WholeNameReplaced | backend/services/text_normalizer.py:131 | a name alone, in any case, becomes `[point]` |
| PersonalNames.MatchWithinPrefix | backend/services/text_normalizer.py:131 | a name match starting in text that ends with a non-word character lies inside that text |
| PersonalNames.ScrubFreePrefix | backend/services/text_normalizer.py:131 | name-free text ending with a non-word character is copied, whatever follows it, and the scan resumes as at a word boundary |
| PersonalNames.WordBecomesPlaceholder | backend/services/text_normalizer.py:131 | a whole word spelling the name in any case, after name-free text, becomes `[point]`; the text before is kept and the text after is rewritten in turn |
| PersonalNames.CommonNamesAreNames | backend/services/text_normalizer.py:124-127 | the twelve names are words, and none is `point` |
| PersonalNames.ScrubAll | backend/services/text_normalizer.py:129-131 | the passes for the names in order; NameBecomesPlaceholder (each listed name becomes `[point]` in context), ScrubAllRemoves, ScrubAllKeepsPlainText and ScrubAllIdempotent |
| PersonalNames.ScrubAllKeepsFree | backend/services/text_normalizer.py:129-131 | later passes keep an absent name absent |
| PersonalNames.ScrubAllRemoves | backend/services/text_normalizer.py:129-131 | after all passes no listed name occurs as a whole word |
| PersonalNames.ScrubAllKeepsPlainText | backend/services/text_normalizer.py:129-131 | text with none of the names is unchanged |
| PersonalNames.ScrubAllIdempotent | backend/services/text_normalizer.py:129-131 | scrubbing twice equals scrubbing once |
| PersonalNames.SpellsWord | backend/services/text_normalizer.py:131 | a word spelling a name is made of word characters |
| PersonalNames.WordMatchesOnlyItsSpelling | backend/services/text_normalizer.py:131 | a whole word matches a name only when it spells that name |
| PersonalNames.FreeInsideWord | backend/services/text_normalizer.py:131 | inside a word no name starts |
| PersonalNames.FreeAroundWord | backend/services/text_normalizer.py:131 | a word spelling one name, before a word boundary, holds no other name |
| PersonalNames.FreeConcat | backend/services/text_normalizer.py:131 | name-free text ending with a non-word character followed by name-free text is name-free |
| PersonalNames.FreeAroundPlaceholder | backend/services/text_normalizer.py:131 | `[point]` between name-free texts leaves the text name-free |
| PersonalNames.FreeAroundOtherWord | backend/services/text_normalizer.py:131 | a word spelling another name between name-free texts leaves the text free of this name |
| PersonalNames.NameBecomesPlaceholder | backend/services/text_normalizer.py:129-131 | a whole word spelling one of the names, between texts with none of them, becomes `[point]` after all passes, and the rest is kept |
| PersonalNames.ScrubNames | backend/services/text_normalizer.py:129-133 | the loop computes the fold of the passes, and leaves no listed name as a whole word; NameBecomesPlaceholder gives what each name becomes |
| PersonalNames.RemovePersonalNames | backend/services/text_normalizer.py:124-133 | the same, for the twelve common names (CommonNamesAreNames makes NameBecomesPlaceholder apply: each becomes `[point]`) |
| LatexSymbols.BraceFreeFrom | backend/services/text_normalizer.py:140 | `[^}]+` from a position consumes exactly the longest run without `}` |
| LatexSymbols.GroupAt | backend/services/text_normalizer.py:140 | a match of `\s*{([^}]+)}` at a position: its group is non-empty and brace-free and ends with its `}` inside the text; GroupLayout and GroupSound pin it down both ways |
| LatexSymbols.GroupLayout | backend/services/text_normalizer.py:140 | whitespace of any length (possibly none), `{`, a non-empty brace-free group and `}` laid out at a position are matched with that group, ending after the `}` |
| LatexSymbols.GroupSound | backend/services/text_normalizer.py:140 | every group match is a whitespace run, `{`, its group and `}` |
| LatexSymbols.FracAt | backend/services/text_normalizer.py:140 | a match is `\frac` followed by two matches of `\s*{([^}]+)}` (GroupAt); its groups are non-empty, brace-free and fit in the match. FracTextMatches and FracAtSound pin it down both ways: `\frac`, whitespace `w1`, `{a}`, whitespace `w2`, `{b}` matches whole, and every match has that shape |
| LatexSymbols.Fracs | backend/services/text_normalizer.py:140 | the fraction rule never lengthens the text; FracReplaced gives what each `\frac w1{a} w2{b}` becomes in context (`a/b`), FracMissCopied that a backslash starting no match is copied and the scan goes on right after it, FracsKeepPlainText that backslash-free text is copied |
| LatexSymbols.Parens | backend/services/text_normalizer.py:143 | deleting `\(` and `\)` never lengthens the text and adds no character; ParenDeleted gives what `\(` and `\)` become in context, ParenMissCopied that any other backslash is copied |
| LatexSymbols.ParensFreePrefix | backend/services/text_normalizer.py:143 | text without a backslash is copied, whatever follows it |
| LatexSymbols.ParenDeleted | backend/services/text_normalizer.py:143 | `\(` or `\)` after backslash-free text is deleted: the text before it is kept and the text after it is rewritten in turn |
| LatexSymbols.CleanLatexSymbols | backend/services/text_normalizer.py:140-145 | the output is never longer than the input; FracCleaned gives what `\frac w1{a} w2{b}` becomes in context, ParenCleaned that `\(` and `\)` are deleted with the rest cleaned in turn, and CleanMissCopied that any other backslash (as in `\times`) is kept |
| LatexSymbols.FracsKeepPlainText | backend/services/text_normalizer.py:140 | text without a backslash is unchanged by the fraction rule |
| LatexSymbols.ParensKeepPlainText | backend/services/text_normalizer.py:143 | text without a backslash is unchanged by the deletion |
| LatexSymbols.CleanKeepsPlainText | backend/services/text_normalizer.py:140-145 | text without a backslash is unchanged |
| LatexSymbols.FracTextMatches | backend/services/text_normalizer.py:140 | `\frac w1{a} w2{b}`, with `w1`, `w2` any whitespace runs (what `\s*` consumes, possibly empty) and `a`, `b` non-empty and brace-free, matches as a whole with `a` and `b` as its groups, whatever follows it |
| LatexSymbols.FracAtSound | backend/services/text_normalizer.py:140 | the converse: every match is `\frac`, a whitespace run, `{num}`, a whitespace run, `{den}` |
| LatexSymbols.FracAtOfGroups | backend/services/text_normalizer.py:140 | `\frac` followed by two group matches is a fraction match with those groups, ending where the second ends |
| LatexSymbols.FracBecomesSlash | backend/services/text_normalizer.py:140-145 | `\frac w1{a} w2{b}` with whitespace runs `w1`, `w2` and brace- and backslash-free `a`, `b` becomes `a/b` |
| LatexSymbols.FracsAt | backend/services/text_normalizer.py:140 | one-step unfolding used by the proofs: at a match the groups joined by `/` replace it, and the scan resumes after it |
| LatexSymbols.FracsFreePrefix | backend/services/text_normalizer.py:140 | text without a backslash is copied by the fraction rule, whatever follows it |
| LatexSymbols.FracsCopiedUpTo | backend/services/text_normalizer.py:140 | a backslash-free prefix of any length is copied |
| LatexSymbols.MatchReplaced | backend/services/text_normalizer.py:140 | a match after backslash-free text is replaced by its groups joined by `/`, and the rest is rewritten in turn |
| LatexSymbols.FracReplaced | backend/services/text_normalizer.py:140 | `\frac w1{a} w2{b}`, with any whitespace runs `w1`, `w2`, after backslash-free text becomes `a/b`; the text before is kept and the text after is rewritten in turn |
| LatexSymbols.FracCleaned | backend/services/text_normalizer.py:140-145 | the whole cleaning in context: with `p`, `a`, `b` backslash-free and `w1`, `w2` whitespace runs, `p\frac w1{a} w2{b}q` becomes `pa/b` followed by the cleaning of `q` |
| LatexSymbols.BraceFreeUpTo | backend/services/text_normalizer.py:140 | a run without `}` up to a `}` or the end is the one `[^}]+` consumes |
| LatexSymbols.ParensNotIdempotent | backend/services/text_normalizer.py:143 | the deletion is one pass: `\\((` becomes `\(`, which a second pass deletes |
| LatexSymbols.FracsMiss | backend/services/text_normalizer.py:140 | one-step unfolding used by the proofs: where no match starts, the character is copied and the scan resumes after it |
| LatexSymbols.FracsPlainHead | backend/services/text_normalizer.py:140 | a character other than a backslash is copied by the fraction rule |
| LatexSymbols.FracMissCopied | backend/services/text_normalizer.py:140 | a backslash that starts no match, after backslash-free text, is copied, and the text after it is rewritten in turn |
| LatexSymbols.ParenMissCopied | backend/services/text_normalizer.py:143 | a backslash not followed by `(` or `)`, after backslash-free text, is copied, and the text after it is rewritten in turn |
| LatexSymbols.ParenNoFrac | backend/services/text_normalizer.py:140 | `\(` and `\)` start no fraction match |
| LatexSymbols.ParenCleaned | backend/services/text_normalizer.py:140-145 | the whole cleaning deletes `\(` and `\)` after backslash-free text and cleans the text after them in turn |
| LatexSymbols.CleanMissCopied | backend/services/text_normalizer.py:140-145 | a backslash that starts neither a fraction nor `\(`/`\)` and is not followed by another backslash, such as the one of `\times`, is kept by the whole cleaning, after backslash-free text |
| MassiveGenerators.ElemSet | backend/tests/test_massive_generators.py:183 | `set(points)`; ElemSetMembers and ElemSetSize state its properties |
| MassiveGenerators.ElemSetMembers | backend/tests/test_massive_generators.py:183 | `set(points)` holds exactly the labels of the list |
| MassiveGenerators.DistinctSnoc | backend/tests/test_massive_generators.py:183 | a list is duplicate-free exactly when its front is and its last label is new |
| MassiveGenerators.ElemSetSize | backend/tests/test_massive_generators.py:183 | `len(set(points)) <= len(points)`, with equality exactly when the labels are distinct |
| MassiveGenerators.FirstInvalid | backend/tests/test_massive_generators.py:187-189 | the loop over the labels; FirstInvalidSpec states what it finds |
| MassiveGenerators.FirstInvalidSpec | backend/tests/test_massive_generators.py:187-189 | the loop finds nothing exactly when every label is one upper-case letter, and otherwise reports the first bad label |
| MassiveGenerators.IssueText | backend/tests/test_massive_generators.py:184-189 | the two report texts, `Points géométriques dupliqués` and `Point invalide: ` followed by the label; GeometryVerdict and InvalidReportsFirst state when each is produced |
| MassiveGenerators.VerifyGeometryPoints | backend/tests/test_massive_generators.py:175-191 | an error is only reported for a figure with points |
| MassiveGenerators.GeometryVerdict | backend/tests/test_massive_generators.py:179-191 | no error iff the figure is absent or empty, or its labels are distinct single capitals; the duplicate error iff they are not distinct |
| MassiveGenerators.InvalidReportsFirst | backend/tests/test_massive_generators.py:183-189 | with distinct labels, an error names the first malformed label |
| MassiveGenerators.PoolGroupsPass | backend/tests/test_massive_generators.py:179-191 | a figure labelled by any group of `GEOMETRY_POINT_SETS` passes |
| MassiveGenerators.Round4 | backend/tests/test_massive_generators.py:161-162 | `round(x, 4)` is a multiple of 1/10000 within half of 1/10000 of `x`, so a nearest one; on a tie it is the even multiple |
| MassiveGenerators.VerifyCalculations | backend/tests/test_massive_generators.py:120-172 | types other than Thalès report nothing (the circle branch is left out) |
| MassiveGenerators.ThalesSides | backend/tests/test_massive_generators.py:154-164 | the Thalès tests on the six lengths; ThalesVerdict, StringSideIsTypeError and ProportionalSidesPass state its properties |
| MassiveGenerators.ThalesCheck | backend/tests/test_massive_generators.py:147-152 | the six lengths read with `dict.get(k, 0)`; EmptyThalesPasses states the all-missing case |
| MassiveGenerators.ThalesVerdict | backend/tests/test_massive_generators.py:146-164 | on numbers, the AB sum is checked first, then the AC sum; the ratios only when AB > 0 and AC > 0; error iff they differ by more than 0.01 |
| MassiveGenerators.StringSideIsTypeError | backend/tests/test_massive_generators.py:146-172 | a string AB is a wrong sum; a string AD raises in `AD + DB`, which the check catches |
| MassiveGenerators.ProportionalSidesPass | backend/tests/test_massive_generators.py:146-164 | consistent sums with proportional sides pass |
| MassiveGenerators.EmptyThalesPasses | backend/tests/test_massive_generators.py:147-164 | missing lengths default to 0, and then nothing is reported |
| MassiveGenerators.TestResults.SuccessRate | backend/tests/test_massive_generators.py:46-47 | the rate lies in 0..100, and is 100 exactly when something was recorded and nothing failed |
| MassiveGenerators.TestResults.constructor | backend/tests/test_massive_generators.py:17-23 | everything starts at zero or empty, and the counting invariant holds |
| MassiveGenerators.TestResults.AddSuccess | backend/tests/test_massive_generators.py:25-27 | `total` and `success` go up by one, nothing else changes, and the invariant is kept |
| MassiveGenerators.TestResults.AddError | backend/tests/test_massive_generators.py:29-34 | `total` goes up by one and exactly one error is appended, with the spec's parameters when there is a spec |
| MassiveGenerators.TestResults.AddWarning | backend/tests/test_massive_generators.py:36-37 | only `warnings` changes, by one appended message |
| MassiveGenerators.TestResults.AddExample | backend/tests/test_massive_generators.py:39-44 | an example is appended only while fewer than two are kept |
| MassiveGenerators.Truncate100 | backend/tests/test_massive_generators.py:115 | `str(e)[:100]` is the prefix of length `min(len, 100)` |
| MassiveGenerators.Classify | backend/tests/test_massive_generators.py:82-115 | the checks of one iteration in source order; ErrorOf, WarningOf, ExamplesAfter, EveryDrawCounted and RecordDraw state its properties |
| MassiveGenerators.ErrorOf | backend/tests/test_massive_generators.py:81-115 | a failed iteration records exactly one error, a passed one none |
| MassiveGenerators.WarningOf | backend/tests/test_massive_generators.py:105-109 | only a passed iteration can record a warning, and at most one |
| MassiveGenerators.ExamplesAfter | backend/tests/test_massive_generators.py:111-112 | a passing iteration adds an example while fewer than two are kept |
| MassiveGenerators.EveryDrawCounted | backend/tests/test_massive_generators.py:81-117 | every iteration is exactly one success or one error |
| MassiveGenerators.ExamplesBound | backend/tests/test_massive_generators.py:111-112 | the examples are the first two passing specs, or fewer |
| MassiveGenerators.WarningsBound | backend/tests/test_massive_generators.py:105-111 | there are never more warnings than successes |
| MassiveGenerators.RecordDraw | backend/tests/test_massive_generators.py:82-115 | one iteration of the loop body: total +1, success +1 iff the draw passes, one error iff it fails, and the invariant is kept |
| MassiveGenerators.TestGenerator | backend/tests/test_massive_generators.py:76-117 | after `nb_tests` draws `total == nb_tests`, with successes, errors, warnings and examples those of the draws in order |
| ThalesCoherence.MatchItems | backend/tests/test_thales_solution_coherence.py:30-34 | a match of literal text, `([A-Z])` groups and `\s*` fits in the text and is non-empty when anchored |
| ThalesCoherence.MatchCaptures | backend/tests/test_thales_solution_coherence.py:30-34 | a match has one capture per group, each an ASCII capital of the text |
| ThalesCoherence.FindAll | backend/tests/test_thales_solution_coherence.py:39 | `re.findall` gives at most one match per character; FindAllSkips, FindAllStep and FindAllMiss state where matches are found, FindAllSound that every tuple reported is the groups of a match at some position |
| ThalesCoherence.FindAllCaptures | backend/tests/test_thales_solution_coherence.py:39 | each found tuple has one capital of the text per group |
| ThalesCoherence.FindAllSkipsUpTo | backend/tests/test_thales_solution_coherence.py:39 | no match starts at a position not holding the first character of the expression, so those positions are skipped |
| ThalesCoherence.FindAllSkips | backend/tests/test_thales_solution_coherence.py:39 | text without the first character of the expression adds no match, whatever follows it |
| ThalesCoherence.FindAllStep | backend/tests/test_thales_solution_coherence.py:39 | a match at the start is reported with its groups, and the search resumes after it |
| ThalesCoherence.MatchStarts | backend/tests/test_thales_solution_coherence.py:39 | a match starts with the first character of the expression |
| ThalesCoherence.FindAllMiss | backend/tests/test_thales_solution_coherence.py:39 | where no match starts, the search moves on one character |
| ThalesCoherence.FindAllSound | backend/tests/test_thales_solution_coherence.py:39 | soundness: every tuple reported is the groups of a match starting at some position of the text |
| ThalesCoherence.NoCapitalsNoMatch | backend/tests/test_thales_solution_coherence.py:39 | without capitals an expression with a group finds nothing |
| ThalesCoherence.PointPatternsWellFormed | backend/tests/test_thales_solution_coherence.py:29-35 | each of the four expressions after `\b([A-Z])\b` starts with literal text, so none matches the empty string |
| ThalesCoherence.Matches | backend/tests/test_thales_solution_coherence.py:39 | the groups of the matches of one expression; MatchesCaptured, TemplateFound and IsolatedCapitalsAreFound state its properties, and MatchesSound that every letter it reports was captured by an actual match |
| ThalesCoherence.MatchesCaptured | backend/tests/test_thales_solution_coherence.py:39 | every match of every point expression captures capitals of the text |
| ThalesCoherence.MatchesSound | backend/tests/test_thales_solution_coherence.py:29-39 | every letter reported is an isolated capital (for `\b([A-Z])\b`) or a group of a match starting at some position (for the other expressions) |
| ThalesCoherence.TupleLettersAreCapitals | backend/tests/test_thales_solution_coherence.py:40-45 | `points.update`/`add` add exactly the captured capitals |
| ThalesCoherence.LettersOf | backend/tests/test_thales_solution_coherence.py:37-46 | the letters of all expressions; LettersOfAreCapitals and LettersOfContains state its properties |
| ThalesCoherence.LettersOfAreCapitals | backend/tests/test_thales_solution_coherence.py:37-46 | all collected points are single capitals of the text |
| ThalesCoherence.LettersOfContains | backend/tests/test_thales_solution_coherence.py:37-46 | each expression's letters are among the collected points |
| ThalesCoherence.TupleLettersSound | backend/tests/test_thales_solution_coherence.py:40-45 | every letter added comes from some tuple |
| ThalesCoherence.LettersOfSound | backend/tests/test_thales_solution_coherence.py:37-46 | every collected point is a single letter captured by a match of one of the expressions |
| ThalesCoherence.ExclusionRemovesIAndL | backend/tests/test_thales_solution_coherence.py:48-49 | on one-letter strings, removing `mots_exclus` removes only `I` and `L` |
| ThalesCoherence.PointsOf | backend/tests/test_thales_solution_coherence.py:26-51 | the collected letters less `mots_exclus`; PointsAreCapitals, IsolatedCapitalsAreFound, PointWordFound, SegmentFound, TriangleFound, LineFound and NoCapitalsNoPoints state what it finds, PointsSound that it finds nothing else and DoncHasNoPoints that `Donc` gives no point |
| ThalesCoherence.PointsAreCapitals | backend/tests/test_thales_solution_coherence.py:37-51 | the result holds single ASCII capitals of the text, never `I` or `L` |
| ThalesCoherence.IsolatedCapitalsAreFound | backend/tests/test_thales_solution_coherence.py:29-49 | every isolated capital other than `I` and `L` is in the result |
| ThalesCoherence.NoCapitalsNoPoints | backend/tests/test_thales_solution_coherence.py:26-51 | a text without capitals gives an empty set |
| ThalesCoherence.PointsSound | backend/tests/test_thales_solution_coherence.py:26-51 | soundness: every point is a single capital other than `I` and `L` that some point expression captured by a match in the text |
| ThalesCoherence.DoncCapturesNothing | backend/tests/test_thales_solution_coherence.py:29-35 | no point expression captures anything in `Donc` |
| ThalesCoherence.DoncHasNoPoints | backend/tests/test_thales_solution_coherence.py:26-51 | `Donc` gives no point: its `D` is not isolated and starts no template |
| ThalesCoherence.TupleLetterFound | backend/tests/test_thales_solution_coherence.py:37-49 | a letter of any tuple found by a point expression is in the result unless it is `I` or `L` |
| ThalesCoherence.OneLetterKept | backend/tests/test_thales_solution_coherence.py:48-49 | a one-letter string is excluded only when it is `I` or `L` |
| ThalesCoherence.TemplateFound | backend/tests/test_thales_solution_coherence.py:30-49 | a match of a template expression, after text holding none of its first character, puts its letters other than `I` and `L` in the result |
| ThalesCoherence.PointWordFound | backend/tests/test_thales_solution_coherence.py:31 | `point X` in context gives the point X |
| ThalesCoherence.LitPrefix | backend/tests/test_thales_solution_coherence.py:32 | literal text is a prefix of itself followed by anything |
| ThalesCoherence.SegmentMatches | backend/tests/test_thales_solution_coherence.py:32 | `segment [XY]` matches its expression with groups X, Y, whatever follows it |
| ThalesCoherence.SegmentFound | backend/tests/test_thales_solution_coherence.py:32 | `segment [XY]` in context gives the points X and Y |
| ThalesCoherence.TriangleMatches | backend/tests/test_thales_solution_coherence.py:33 | `triangle XYZ` matches its expression with groups X, Y, Z, whatever follows it |
| ThalesCoherence.TriangleFound | backend/tests/test_thales_solution_coherence.py:33 | `triangle XYZ` in context gives the points X, Y and Z |
| ThalesCoherence.LineFound | backend/tests/test_thales_solution_coherence.py:34 | `(XY)` in context gives the points X and Y |
| ThalesCoherence.AddMatchLetters | backend/tests/test_thales_solution_coherence.py:40-45 | the inner loop adds the letters of every match tuple |
| ThalesCoherence.CollectLetters | backend/tests/test_thales_solution_coherence.py:37-46 | the outer loop collects the letters of every expression |
| ThalesCoherence.ExtrairePointsGeometriques | backend/tests/test_thales_solution_coherence.py:26-51 | the method returns the specified point set; each element is a single capital captured by a match of some point expression, and never `I` or `L`; the *Found lemmas give the letters each expression contributes in context |
| ThalesCoherence.CapCountAppend | backend/tests/test_thales_solution_coherence.py:56 | the groups of a concatenated expression add up |
| ThalesCoherence.ParallelItemsShape | backend/tests/test_thales_solution_coherence.py:56 | the parallelism expression has four groups |
| ThalesCoherence.ParallelOf | backend/tests/test_thales_solution_coherence.py:61-66 | `segment1 + segment2` are the four groups, and `points` is the set of those letters, of size 1 to 4 |
| ThalesCoherence.RecordsOf | backend/tests/test_thales_solution_coherence.py:59-66 | one record per match |
| ThalesCoherence.RecordsOfAt | backend/tests/test_thales_solution_coherence.py:59-66 | the k-th record is built from the k-th match, in text order |
| ThalesCoherence.ParallelsOf | backend/tests/test_thales_solution_coherence.py:53-68 | one record per match in text order; ParallelFound (a `(AB) // (CD)` in context gives its record before those of the text after it), ParallelMiss (a `(` starting no match adds none), ParallelsSound (every record comes from a match), RecordsOfAt, ParallelsAreCapitals and ParallelRoundTrip |
| ThalesCoherence.ParallelsAreCapitals | backend/tests/test_thales_solution_coherence.py:56-66 | each record has two-letter lines of capitals of the text, and `points` is exactly their four letters |
| ThalesCoherence.NoCapitalsNoParallels | backend/tests/test_thales_solution_coherence.py:53-68 | a text without capitals gives an empty list |
| ThalesCoherence.LitThen | backend/tests/test_thales_solution_coherence.py:56 | literal text followed by a match extends the match |
| ThalesCoherence.CapThen | backend/tests/test_thales_solution_coherence.py:56 | a capital followed by a match extends the match and its captures |
| ThalesCoherence.SpaceThen | backend/tests/test_thales_solution_coherence.py:56 | one blank before a match is consumed by `\s*` |
| ThalesCoherence.PairMatches | backend/tests/test_thales_solution_coherence.py:34 | `(XY)` matches `\(([A-Z])([A-Z])\)` with groups X, Y, whatever follows it |
| ThalesCoherence.SecondLineMatches | backend/tests/test_thales_solution_coherence.py:56 | ` // (ZW)` matches the second half with groups Z, W, whatever follows it |
| ThalesCoherence.FirstLineMatches | backend/tests/test_thales_solution_coherence.py:56 | `(XY)` followed by a match of the rest extends it |
| ThalesCoherence.FirstLineSteps | backend/tests/test_thales_solution_coherence.py:56 | the same, item by item |
| ThalesCoherence.LineItemsThen | backend/tests/test_thales_solution_coherence.py:56 | the line expression followed by more items, item by item |
| ThalesCoherence.ParallelTextMatches | backend/tests/test_thales_solution_coherence.py:56 | `(AB) // (CD)` matches as a whole with groups A, B, C, D, whatever follows it |
| ThalesCoherence.ParallelRoundTrip | backend/tests/test_thales_solution_coherence.py:53-68 | extracting from `(AB) // (CD)` gives the one record `AB`, `CD`, {A, B, C, D} |
| ThalesCoherence.RecordsOfCons | backend/tests/test_thales_solution_coherence.py:59-66 | the records of a match followed by more matches are its record followed by theirs |
| ThalesCoherence.ParallelFound | backend/tests/test_thales_solution_coherence.py:53-68 | `(AB) // (CD)` after text without `(` gives the record `AB`, `CD`, {A, B, C, D}, followed by the records of the text after it |
| ThalesCoherence.ParallelMiss | backend/tests/test_thales_solution_coherence.py:53-68 | a `(` that starts no match, after text without `(`, adds no record |
| ThalesCoherence.ParallelFromMatch | backend/tests/test_thales_solution_coherence.py:53-68 | the k-th record is built from the four groups of a match starting at some position |
| ThalesCoherence.ParallelsSound | backend/tests/test_thales_solution_coherence.py:53-68 | soundness: every record is built from the four groups of a match in the text |
| ThalesCoherence.ExtraireParallelisme | backend/tests/test_thales_solution_coherence.py:53-68 | the method returns the specified list of records, each built from the four groups of a match in the text; ParallelFound pins them down match by match |

## Left out

- MassiveGenerators.VerifyCalculations: the `cercle` branch (backend/tests/test_massive_generators.py:127-140) compares with `math.pi` under a float tolerance. It is not modelled, so circle specs report nothing in the model.
- MassiveGenerators.Round4: numbers are exact reals, not IEEE doubles. The division `AD / AB` and `round(..., 4)` are exact, halves rounding to even, so the model may differ from the float result near a rounding boundary.
- MassiveGenerators.TestResults.SuccessRate: computed on exact reals rather than floats.
- MassiveGenerators.TestGenerator: the generator, `niveau`, `chapitre` and the difficulty argument become an abstract function from the iteration index to a draw. The generator name is taken as given; the `replace('_gen_', '')` on the function name is not modelled. Only exceptions raised by the generator itself are modelled (the `Raised` draw). Exceptions raised later in the loop body are not: a point label that is not a string makes `point.isupper()` raise inside `verify_geometry_points`, and a spec without a `resultat_final` attribute makes `add_example` raise after `add_success` (while fewer than two examples are kept), which would count that draw once as a success and once more as an error.
- MassiveGenerators.ErrorOf: error messages that format numbers (`f"Somme incorrecte: AB={AB} ..."`, `f"Rapports ..."`) are kept as structured values (`CalcError`), because Python's float formatting is not modelled. The exception branch keeps `str(e)[:100]` as text, but `str(e)` itself is an input.
- MassiveGenerators.StringSideIsTypeError: other exceptions inside `verify_calculations` (missing attributes, non-dict parameters) are not modelled. Only the `TypeError` of mixing strings and numbers is.
- `print_report`, `run_all_tests`, the pytest scaffolding and all printing are left out. They only write to the console.
- The generators, `MathGenerationService`, `MathTextService`, the data models and the routes are not part of this model.
- Character classes cover the Latin-1 range only. `\w`, `\s`, `str.isupper` and `re.IGNORECASE` on characters beyond U+00FF are not modelled.
- ThalesCoherence.FindAll: `re.findall` returns a string for a one-group expression and a tuple otherwise. Both are modelled as a sequence of captured letters, which the extractor treats the same way.
- GeometryPoints.ValidateGeometryPoints: the expected points are single characters. A multi-character entry of `expected_points` (never produced by the pool) is not modelled.
- NormalizeSymbols.NormalizeMathSymbols: the docstring's "`/` by `÷`" is not implemented by the code, so it is not modelled either.
- NormalizeSymbols.Asterisks: `\s*` before `*` is greedy, but it is taken whole: what follows a run of blanks is never a blank, so backtracking never changes a match. The same holds for `\s*` in the other expressions.
- NormalizeSymbols.NormalizeMathSymbolsChained: that no product match is left after the later rules run is not proved. ChainedLeavesNoMatch states it for the corrected product rule alone.

## Findings

| source | as written | input that shows it | evidently intended | confidence | as-written member | corrected member |
|---|---|---|---|---|---|---|
| backend/services/text_normalizer.py:28 | `(\d+)\s*x\s*(\d+)` consumes the right operand, so in a chain of products only every other `x` is rewritten in one pass, and normalizing twice gives a different text | `2x3x4` becomes `2 × 3x4`; normalizing that again gives `2 × 3 × 4` | every product sign in a chain becomes `×` in one call, for example with a lookahead `(\d+)\s*x\s*(?=\d)` | not executed | NormalizeSymbols.DigitTimesNotIdempotent, NormalizeSymbols.NormalizeNotIdempotent | NormalizeSymbols.DigitTimesChained, NormalizeSymbols.ChainedRewritesWholeChain, NormalizeSymbols.ChainedIdempotent, NormalizeSymbols.NormalizeMathSymbolsChained |
