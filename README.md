# Text preprocessing pipelines, modelled in Dafny

This project models the two text-preprocessing pipelines of the
repository:

- `exercise_03/preprocessing.py` prepares movie reviews. `preprocess`
  validates its options, then runs these stages on every review:
  non-printable removal, removal of `<[^>]+>` tags, optional lowercasing,
  tokenization (on whitespace, or into word runs and single punctuation
  marks), optional removal of punctuation-only tokens, and optional
  replacement of numeric tokens by a sentinel. With a frequency threshold
  it then counts tokens over the whole corpus, selects those whose
  relative frequency exceeds the threshold, and removes them from every
  review.
- `exercise_02/preprocessing.py` prepares one document. Its
  `full_preprocess_document` runs these stages:
  - it replaces a table of stray characters by spaces;
  - it removes `<[^>]*>` tags but keeps the heart `<3`, by hiding it behind
    a placeholder;
  - it lowercases the text;
  - it applies a character map that sends punctuation to spaces and quote
    marks to an apostrophe;
  - it keeps only the dashes between two alphanumerics;
  - it splits on whitespace and strips apostrophes from each token's ends;
  - it removes the tokens of an optional deny list;
  - it stems every token.

Modules:

- `Text` holds the character classes and the types `Token`, `Corpus`,
  `Option` and `Result`.
- `TokenLists` holds order-preserving filters, counts, subsequences and
  concatenation.
- `Scanners` models `str.split()`, `str.replace` and the left-to-right scan
  of `re.sub` for both tag patterns.
- `ReviewText`, `CorpusFrequency` and `ReviewPipeline` model
  `exercise_03`.
- `DocumentText` and `DocumentPipeline` model `exercise_02`.

Loops in the source are methods with loop invariants, each proved against
a specification function. The properties are lemmas about those
functions. The examples:

- `ReviewText.ReplaceNumbersIfNeeded` and `DocumentText.KeepOrRemoveDashes`
  are loop methods;
- `CorpusFrequency.UpdateCounts`, `CorpusFrequency.GetCorpusTokenFrequencies`
  and `CorpusFrequency.IdentifyHighFreqTokens` are loop methods;
- `DocumentText.CleanTextFromWeirdChars`,
  `DocumentText.GetRidOfNonAlphanumericCharacters` and
  `DocumentText.TokenizeAndCleanTokens` are loop methods;
- the two pipelines `ReviewPipeline.Preprocess` and
  `DocumentPipeline.FullPreprocessDocument` call the stage methods in the
  source's order.

Where the code and its docstrings disagree, the model follows the code:

- The docstring of `preprocess` lists number replacement before
  tokenization. The code replaces whole tokens after punctuation-token
  removal (exercise_03/preprocessing.py:413-419).
  `ReviewPipeline.NumbersAndPunctuationCommute` proves that, for a
  sentinel that passes validation, the order of those two stages does not
  change the result.
- The docstring says `tokenize_on_punctuation` defaults to False. The
  signature says True, and `ReviewPipeline.DefaultOptions` follows the
  signature.
- The docstring says "sequences of digits" are replaced. The code replaces
  a token only when the whole token matches `^[+-]?(\d+(\.\d*)?|\.\d+)$`.
- A sentinel is refused when it holds a `string.punctuation` character or
  an ASCII space. Other whitespace, such as a tab, is accepted, as in the
  code at exercise_03/preprocessing.py:391-397.
- `clean_html_tags` turns any literal `HEART_SYMBOL_PLACEHOLDER_XYZ` in its
  input into `<3`. `DocumentText.CleanHtmlTags` does the same. The lemmas
  about it that promise plain tag removal exclude such inputs: they ask
  that the text spell out no `HEART_SYMBOL_PLACEHOLDER_XYZ`, before or
  after tag removal as each lemma needs.

## Model

| member | source | states |
|---|---|---|
| Text.LowerChar | exercise_03/preprocessing.py:56 | an ASCII capital becomes its own lowercase letter (the same offset from `a` as from `A`); every other character is kept; letters, digits and whitespace keep their class |
| Text.Lower | exercise_02/preprocessing.py:305 | lowercasing keeps the length and lowers each character on its own, as `LowerChar` states |
| Scanners.SplitWhitespaceTokens | exercise_03/preprocessing.py:141 | every token of `str.split()` is non-empty and free of whitespace, and the tokens concatenate to the input with its whitespace deleted |
| Scanners.SplitJoinRoundTrip | exercise_03/preprocessing.py:141 | splitting the single-space join of non-empty, whitespace-free tokens gives back those tokens |
| Scanners.ReplaceOneChar | exercise_02/preprocessing.py:99 | replacing one character by another with `str.replace` keeps the length and changes exactly the positions holding that character |
| Scanners.ReplaceAroundPattern | exercise_02/preprocessing.py:110 | for a pattern none of whose proper prefixes is also a suffix, `str.replace` on text around one occurrence replaces that occurrence and works on both sides independently |
| Scanners.StripTagsRemovesTag | exercise_03/preprocessing.py:18 | a `<`, then enough characters other than `>`, then a `>` is deleted, and the scan resumes after it |
| Scanners.StripTagsKeepsTrailingText | exercise_03/preprocessing.py:18 | text without `>` appended at the end is never swallowed by a tag |
| Scanners.StripTagsStarLeavesNoTag | exercise_02/preprocessing.py:111 | after removing `<[^>]*>`, no `<` is followed anywhere later by a `>` |
| ReviewText.RemoveHtmlTags | exercise_03/preprocessing.py:18 | the result keeps characters of the input in order and is no longer; text without `<` is unchanged |
| ReviewText.RemoveHtmlTagsOnTags | exercise_03/preprocessing.py:30-41 | a tag with a non-empty inside and no `>` in it is deleted; the empty `<>` stays |
| ReviewText.RemoveNonPrintable | exercise_03/preprocessing.py:22-23 | every kept character is printable; the result is a subsequence; each printable character keeps its number of occurrences |
| ReviewText.RemoveNonPrintableJoins | exercise_03/preprocessing.py:26-27 | a NUL or a tab between printable text is dropped and the two sides are joined |
| ReviewText.ToLowercaseIfNeeded | exercise_03/preprocessing.py:55-57 | length kept; each character is lowered when the flag is set and left as is otherwise |
| ReviewText.LowercaseExamples | exercise_03/preprocessing.py:61-65 | the five inline tests: "Hello World" becomes "hello world" with the flag and stays as is without it, "ALREADY_LOWER" becomes "already_lower", the empty text stays empty, and digits and spaces are kept |
| ReviewText.NumberRecogniserMatchesPattern | exercise_03/preprocessing.py:85-89 | the left-to-right recogniser accepts a token exactly when the token as a whole matches the grammar of `^[+-]?(\d+(\.\d*)?\|\.\d+)$`, in both directions |
| ReviewText.NumberTokenExamples | exercise_03/preprocessing.py:97-117 | "123", "45", "-3.14", "+7." and ".5" are numbers |
| ReviewText.NonNumberTokenExamples | exercise_03/preprocessing.py:118-119 | "", ".", "+" and "12a" are not numbers |
| ReviewText.LeadingOtherIsNotNumber | exercise_03/preprocessing.py:85-89 | a token whose first character is not a sign, a digit or a point is never a number (so "word123word" is not one) |
| ReviewText.SecondPointIsNotNumber | exercise_03/preprocessing.py:85-89 | "1.2.3" is not a number |
| ReviewText.ReplaceNumbersIfNeeded | exercise_03/preprocessing.py:82-93 | without a sentinel the list is returned unchanged; otherwise the length is kept, each numeric token becomes the sentinel and every other token is kept |
| ReviewText.PunctuationTokensShape | exercise_03/preprocessing.py:138 | every token of `\w+\|[^\s\w]` is a run of word characters or one non-space, non-word character, and the tokens concatenate to the input with its whitespace deleted |
| ReviewText.PunctuationTokensMaximal | exercise_03/preprocessing.py:138 | within a whitespace-free stretch no two word runs are adjacent, so every word run is maximal |
| ReviewText.PunctuationTokensRefineSplit | exercise_03/preprocessing.py:136-141 | tokenizing on punctuation equals splitting on whitespace and then tokenizing each piece |
| ReviewText.PunctuationModeNumbersAreDigitRuns | exercise_03/preprocessing.py:138 | after tokenizing on punctuation, a token is numeric exactly when it is a non-empty run of digits |
| ReviewText.TokenizeText | exercise_03/preprocessing.py:136-142 | in both modes every token is non-empty and free of whitespace, and the tokens concatenate to the input with its whitespace deleted |
| ReviewText.TokenizeDropsNothing | exercise_03/preprocessing.py:142 | the final `if token` filter never removes anything in either mode |
| ReviewText.RemovePunctuationTokensIfNeeded | exercise_03/preprocessing.py:175-184 | without the flag the list is unchanged; with it, the result is a subsequence holding no punctuation-only token, and every other token keeps its number of occurrences |
| ReviewText.NumberTokenIsNotPunctuation | exercise_03/preprocessing.py:178-184 | no numeric token is punctuation-only |
| ReviewText.PunctuationFilterExamples | exercise_03/preprocessing.py:198-211 | "a-b", "word." and "" are kept, while "--", "..." and "!" are removed |
| CorpusFrequency.CountedPrefixStep | exercise_03/preprocessing.py:231 | counting one more token of the list keeps the counter equal to the old counter plus the counts of the tokens seen so far, keys included |
| CorpusFrequency.UpdateCounts | exercise_03/preprocessing.py:231 | `Counter.update`: the keys become the old keys plus the new tokens, each count grows by its number of occurrences, and the total grows by the list's length |
| CorpusFrequency.GetCorpusTokenFrequencies | exercise_03/preprocessing.py:228-233 | the total is the sum of the review lengths; a token is counted exactly when it occurs, with its number of occurrences over the corpus; the counts sum to the total |
| CorpusFrequency.CorpusCountsCharacterized | exercise_03/preprocessing.py:228-233 | the counter's keys are exactly the occurring tokens, and its values are their occurrences |
| CorpusFrequency.FrequencyExamples | exercise_03/preprocessing.py:237-288 | the occurrences of a and c and the total of the corpus [[a, b, a], [b, c]], and the selections at thresholds 0.4, 0.25, 0.5 and 0.0 over counts 50, 30, 20 of 100 |
| CorpusFrequency.CorpusCountsExample | exercise_03/preprocessing.py:237-254 | the four inline tests: the whole counters {a: 2, b: 2, c: 1}, {hello: 2, world: 1, python: 1}, the empty counter and {token: 1}, with totals 5, 4, 0 and 1 |
| CorpusFrequency.CorpusCountsOfTwo | exercise_03/preprocessing.py:237-239 | for any distinct x, y, z the counter of [[x, y, x], [y, z]] is exactly {x: 2, y: 2, z: 1} |
| CorpusFrequency.CorpusCountsOfPairs | exercise_03/preprocessing.py:242-245 | for any distinct x, y, z the counter of [[x, y], [x, z]] is exactly {x: 2, y: 1, z: 1} and the total is 4 |
| CorpusFrequency.CorpusCountsOfOne | exercise_03/preprocessing.py:252-255 | the counter of [[x]] is exactly {x: 1} and the total is 1 |
| CorpusFrequency.IdentifyHighFreqTokens | exercise_03/preprocessing.py:273-280 | under the two asserted preconditions, a token is selected exactly when it is counted and its count divided by the total exceeds the threshold |
| CorpusFrequency.HighFreqMonotone | exercise_03/preprocessing.py:278 | a lower threshold selects every token a higher one selects |
| CorpusFrequency.HighFreqAtZero | exercise_03/preprocessing.py:288 | threshold 0.0 selects every token with a positive count |
| CorpusFrequency.HighFreqAtOne | exercise_03/preprocessing.py:267-268 | threshold 1.0 selects nothing when no count exceeds the total |
| CorpusFrequency.HighFreqStrictExamples | exercise_03/preprocessing.py:289-294 | selection is strict: 5 of 10 is not above 0.5, but 6 of 10 is |
| CorpusFrequency.FilterTokensBySet | exercise_03/preprocessing.py:310-313 | one list per review; each is a subsequence of its review; a token in the set occurs zero times and every other token keeps its occurrences; the empty set changes nothing |
| CorpusFrequency.FilterBySupersetIsSubsequence | exercise_03/preprocessing.py:311 | removing a larger set leaves a subsequence of what removing a smaller set leaves |
| CorpusFrequency.FilterTokensBySetExample | exercise_03/preprocessing.py:317-326 | removing {a, d} from [[a, b, c], [b, d, a]] gives [[b, c], [b]], and removing {a} from [[]] gives [[]] |
| ReviewPipeline.OptionsError | exercise_03/preprocessing.py:384-397 | validation passes exactly when the threshold is absent or within [0, 1] and the sentinel is absent or free of punctuation and spaces; the range error is reported first |
| ReviewPipeline.CleanedTextChars | exercise_03/preprocessing.py:402-410 | every character left after the character stages is printable when that stage is on; with lowercasing it is no ASCII capital, and without it, it is a character of the review |
| ReviewPipeline.TokensBeforeNumbersShape | exercise_03/preprocessing.py:402-416 | tokens are non-empty and free of whitespace, are built from such characters, and are no more numerous than the review's characters |
| ReviewPipeline.ReviewTokensGuarantees | exercise_03/preprocessing.py:401-421 | each final token is the sentinel or a clean, whitespace-free token; with a sentinel no numeric token survives; with punctuation removal and a valid sentinel no punctuation-only token survives |
| ReviewPipeline.NumbersAndPunctuationCommute | exercise_03/preprocessing.py:415-419 | with a valid sentinel, removing punctuation tokens and replacing numbers give the same result in either order |
| ReviewPipeline.PreprocessReview | exercise_03/preprocessing.py:401-419 | one pass of the loop yields exactly the per-review token list of the functional model: non-printables, tags, case, tokenizing, punctuation tokens, then numbers |
| ReviewPipeline.Preprocess | exercise_03/preprocessing.py:381-444 | the method returns exactly what the functional model of `preprocess` returns or raises |
| ReviewPipeline.PreprocessedEmpty | exercise_03/preprocessing.py:381-382 | an empty list of reviews gives an empty result before any validation |
| ReviewPipeline.PreprocessedErrors | exercise_03/preprocessing.py:384-397 | for a non-empty list, `preprocess` raises exactly when the options are invalid, and the error depends only on the options |
| ReviewPipeline.PreprocessedShape | exercise_03/preprocessing.py:399-444 | one output list per review, each a subsequence of that review's own tokens |
| ReviewPipeline.PreprocessedWithoutThreshold | exercise_03/preprocessing.py:423-424 | without a threshold each review's output is the output of processing that review alone |
| ReviewPipeline.PreprocessedThresholdFilter | exercise_03/preprocessing.py:426-444 | with a threshold and a non-empty corpus, a token vanishes from every review exactly when it occurs and its corpus frequency exceeds the threshold; otherwise it keeps all its occurrences |
| ReviewPipeline.FrequencyFilterCounts | exercise_03/preprocessing.py:427-442 | the same token-by-token account of counting, selection and filtering, for any corpus |
| ReviewPipeline.PreprocessedThresholdMonotone | exercise_03/preprocessing.py:423-444 | raising the threshold removes no more: each review's output under the lower threshold is a subsequence of its output under the higher |
| ReviewPipeline.PreprocessedThresholdOne | exercise_03/preprocessing.py:423-444 | threshold 1.0 returns the intermediate corpus unchanged |
| ReviewPipeline.FrequencyFilterScenario | exercise_03/preprocessing.py:519-541 | on the token corpus [[w0, w1, w2], [w0, w3, w2], [w0, w4, w5]] of any six distinct words, threshold 0.3 removes w0, and 0.2 also removes w2 |
| ReviewPipeline.PlainReviewTokens | exercise_03/preprocessing.py:401-419 | a review of lowercase words joined by single spaces yields exactly its words under any options |
| ReviewPipeline.PreprocessedThreeReviews | exercise_03/preprocessing.py:519-541 | `preprocess` of the three reviews built from six distinct lowercase words gives, at threshold 0.3, the reviews without w0, and at 0.2 without w0 and w2 |
| ReviewPipeline.PreprocessScenarioFive | exercise_03/preprocessing.py:519-541 | `preprocess(["the cat sat", "the dog sat", "the bird flew"], to_lowercase=True)` returns [[cat, sat], [dog, sat], [bird, flew]] at threshold 0.3 and [[cat], [dog], [bird, flew]] at 0.2 |
| DocumentText.CleanTextFromWeirdChars | exercise_02/preprocessing.py:92-100 | the loop applies `str.replace` once for each listed character, in list order |
| DocumentText.WeirdCharsPointwise | exercise_02/preprocessing.py:98-99 | for single-character entries and a filler not in the table, the text keeps its length and exactly the listed characters become the filler, so the table's order does not matter |
| DocumentText.WeirdCharsDefault | exercise_02/preprocessing.py:9-24 | with the default table and a space, each listed character becomes a space, the rest are kept, and no listed character remains |
| DocumentText.CleanHtmlTagsUnchanged | exercise_02/preprocessing.py:103-114 | text without `<` that does not spell out the heart placeholder is returned unchanged: no heart is protected and no tag removed |
| DocumentText.CleanHtmlTagsWithoutHearts | exercise_02/preprocessing.py:108-114 | without hearts, and without the placeholder after stripping, the function is plain `<[^>]*>` removal |
| DocumentText.CleanHtmlTagsTrailingHeart | exercise_02/preprocessing.py:108-114 | a heart at the end always survives: cleaning `s + "<3"` gives the cleaned `s` followed by `<3` |
| DocumentText.CleanHtmlTagsKeepsHeart | exercise_02/preprocessing.py:108-114 | a heart after text whose tags are all closed survives, and the text on each side is cleaned independently |
| DocumentText.CleanHtmlTagsUnwrapsElement | exercise_02/preprocessing.py:118-147 | an element made of an opening tag, text and a closing tag is reduced to its text |
| DocumentText.StripTagsClosedPrefix | exercise_02/preprocessing.py:111 | tag removal on a prefix whose every `<` has a later `>` is independent of what follows |
| DocumentText.GetRidOfNonAlphanumericCharacters | exercise_02/preprocessing.py:163-167 | the loop applies `str.replace` for each map entry in dict order, skipping the entries whose replacement is None |
| DocumentText.CharMapPointwise | exercise_02/preprocessing.py:163-166 | for single-character keys, the map acts on each character independently and keeps the length |
| DocumentText.WellFormedMapIdempotent | exercise_02/preprocessing.py:163-167 | for a map whose replacements are a space or an apostrophe, applying it twice equals applying it once, and only the apostrophe can remain of its keys |
| DocumentText.CharMapDefaultOk | exercise_02/preprocessing.py:26-87 | every entry of the default map has a one-character, non-alphanumeric key; only `-` is left alone; quote marks map to an apostrophe and everything else to a space |
| DocumentText.CharMapDefaultBehaviour | exercise_02/preprocessing.py:26-87 | the default map keeps the length, keeps alphanumerics, spaces and dashes, sends quote marks to an apostrophe and the rest of its keys to a space, and is idempotent |
| DocumentText.CharMapDefaultReplacesAt | exercise_02/preprocessing.py:174-177 | under the default map an `@` between letters, digits and spaces becomes a space and the text around it is kept |
| DocumentText.CharMapDefaultAtExample | exercise_02/preprocessing.py:174-177 | "Hello @ world" becomes "Hello   world" |
| DocumentText.KeepOrRemoveDashes | exercise_02/preprocessing.py:213-229 | the loop keeps the length and every other character; a dash stays exactly when alphanumerics sit on both sides of it, and otherwise becomes a space |
| DocumentText.DashesResolvedProperties | exercise_02/preprocessing.py:190-194 | every remaining dash sits between alphanumerics in the result, and the dash rule is idempotent |
| DocumentText.DashesExamples | exercise_02/preprocessing.py:202-240 | the four docstring examples and the three inline tests: "a-composed-word" is unchanged, the spaced dashes of "an hyphen in - the - middle - of a word" and the bullet dash of " - this is a bullet list but this-is-a-composed-word" become spaces while the composed word keeps its dashes, and "multiple---consecutive---dashes" becomes "multiple   consecutive   dashes" |
| DocumentText.DashesResolvedAroundRun | exercise_02/preprocessing.py:214-226 | a run of dashes between two texts is kept only when it is a single dash between alphanumerics, and otherwise becomes as many spaces; the texts on either side are resolved on their own |
| DocumentText.DashesAppendAtNonDash | exercise_02/preprocessing.py:214-226 | two texts that meet at characters other than dashes are resolved independently |
| DocumentText.DashesResolvedWithoutDashes | exercise_02/preprocessing.py:225-226 | text without dashes is copied unchanged |
| DocumentText.StripLeadingQuotes | exercise_02/preprocessing.py:252 | the result is a suffix of the token with only apostrophes removed, and it does not start with one |
| DocumentText.StripTrailingQuotes | exercise_02/preprocessing.py:252 | the result is a prefix of the token with only apostrophes removed, and it does not end with one |
| DocumentText.StripQuotesCharacterized | exercise_02/preprocessing.py:252 | `strip("'")` returns a slice of the token with only apostrophes outside it, and the slice neither starts nor ends with one |
| DocumentText.StripQuotesEmptyAndIdempotent | exercise_02/preprocessing.py:252-257 | a token becomes empty exactly when it is all apostrophes, and stripping twice equals stripping once |
| DocumentText.TokenizeAndCleanTokens | exercise_02/preprocessing.py:248-260 | the loop returns the stripped whitespace tokens without the ones that became empty |
| DocumentText.CleanedTokensIsFilter | exercise_02/preprocessing.py:250-258 | the cleaned list is the stripped list filtered by non-emptiness |
| DocumentText.CleanedTokensMembership | exercise_02/preprocessing.py:250-258 | a token is in the result exactly when it is the non-empty stripped form of an input token |
| DocumentText.CleanedTokensGuarantees | exercise_02/preprocessing.py:248-258 | every resulting token is non-empty, free of whitespace, and neither starts nor ends with an apostrophe |
| DocumentPipeline.StemWords | exercise_02/preprocessing.py:269-271 | one stem per word, so the length is kept |
| DocumentPipeline.FullPreprocessDocument | exercise_02/preprocessing.py:300-328 | the method runs the eight stages in the documented order and returns the functional model's result |
| DocumentPipeline.DenyListFacts | exercise_02/preprocessing.py:319-323 | the deny list keeps a subsequence; a listed token occurs zero times and the others keep their occurrences; membership both ways; an absent or empty set removes nothing |
| DocumentPipeline.PreprocessedDocumentShape | exercise_02/preprocessing.py:319-326 | output word i is the stem of token i that reached the stemmer, and those tokens are the deny-list-filtered document tokens |
| DocumentPipeline.TokensToStemGuarantees | exercise_02/preprocessing.py:314-323 | no deny-listed token reaches the stemmer, and every token that does is non-empty, free of whitespace and without an apostrophe at either end |
| DocumentPipeline.DefaultNormalizedTextShape | exercise_02/preprocessing.py:305-309 | with the default map, the tokenizer's input has no ASCII capital, none of the map's keys except the apostrophe, and only dashes between alphanumerics |
| DocumentPipeline.DefaultTokensToStemChars | exercise_02/preprocessing.py:300-323 | with the default tables, no token reaching the stemmer holds an ASCII capital or a map key other than the apostrophe |

## Left out

- The Porter stemmer is an external library. `stem` is a parameter of type `Token -> Token`, so the default `PorterStemmer()` built when `stemmer_instance` is None (exercise_02/preprocessing.py:297-298) is not modelled.
- The `__main__` demonstration of exercise_02 and its printing are not modelled, because they are I/O.
- The character classes are ASCII-only. `str.isalnum`, `str.lower`, `\w` and `\d` are Unicode-aware in Python. `str.isspace`, `\s` and the `str.split()` separators are modelled exactly. `str.isprintable` covers control characters, separators, the soft hyphen, the common format characters and the private-use area of the basic plane, not the unassigned code points.
- The threshold is an exact real, and `count / total` is exact division. Python's float rounding is not modelled.
- The two `assert`s of `_identify_high_freq_tokens` are modelled as preconditions. The AssertionError path is not modelled; `preprocess` always meets both asserts.
- Several inline tests use long literal strings: the tokenizer tests (exercise_03/preprocessing.py:146-159), the `clean_html_tags` tests, the `tokenize_and_clean_tokens` tests (exercise_02/preprocessing.py:263-264), the price example of the character map (exercise_02/preprocessing.py:178-183) and the `preprocess` scenarios 0 to 4, 7 and 8 (exercise_03/preprocessing.py:449-517, 546-597). These are not proved on their literals, because evaluating the recursive scanners on long literals exceeds the verifier's resource limit. The general lemmas in the table state what those tests check.
- DocumentText.CleanHtmlTagsUnwrapsElement: asks for text without `<` and without the placeholder, and tags without `3`, so it covers elements without nested tags. Nested elements follow from StripTagsRemovesTag applied once per tag.
- DocumentPipeline.StemWords: its own contract states only the length. The word-by-word relation to the stemmer is stated in PreprocessedDocumentShape.
