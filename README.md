# CarryOn Summary: extractive summariser and file helpers in Dafny

This project models the back end of CarryOn Summary. The back end condenses
long texts, such as a conversation with a coding agent, into a short
extractive summary. It also lists the files a text mentions.

- **`SummarizerService`** (Python, `services/summarizer_service.py`):
  - It counts the words of the text and sizes the summary automatically when no target is given.
  - A text of up to 2000 words is summarised in one pass.
  - A longer text is cut into chunks of 1800 words. Each chunk is summarised, and the summary of the combined chunk summaries is taken.
  - One pass splits the text into sentences, weights each term by its frequency, and scores each sentence by the weights of its words plus small bonuses for numbers, capitals and list/colon structure.
  - It keeps the best `target` sentences in their original order and groups them four to a paragraph.
- **`utils/file_utils.py`**:
  - filters and sorts path-like matches
  - validates a path
  - classifies a path by extension
  - formats the grouped file list
  - builds the continuation steps for the next agent
- **The `summarize` and `stats` handlers** of `routes/api_routes.py` are modelled as total functions from the decoded JSON body to a response:
  - the shared text guard
  - the target guard
  - the statistics and the recommended target

Modules, one per concern:

| module | file | models |
|---|---|---|
| `Text` | `text.dfy` | character classes, `str.strip`, whitespace collapsing (`re.sub(r"\s+", " ", …)`), `str.lower`, `join`, `str.split(sep)` |
| `Tokenizer` | `tokenizer.dfy` | the word regex `[A-Za-z0-9']+`, the chunk token regex, the sentence split regex and `_to_sentences` |
| `Chunking` | `chunking.dfy` | `_chunk` |
| `Frequency` | `frequency.dfy` | `STOPWORDS`, `_normalize`, `_word_freq` |
| `Scoring` | `scoring.dfy` | `_score_sentence` |
| `Selection` | `selection.dfy` | `_summarize_sentences` |
| `Summarizer` | `summarizer.dfy` | `_auto_target`, `_to_paragraphs`, `summarize_text` |
| `Ordering` | `ordering.dfy` | Python's `<` on strings, `sorted` and `sorted(set(…))` |
| `FileUtils` | `file_utils.dfy` | the five file helpers |
| `ApiRoutes` | `api_routes.dfy` | `summarize()` and `stats()` |

Loops of the source are methods with loop invariants, each proved equal to a specification function:
- `Chunk`
- `WordFreq` / `ScaleCounts`
- `ScoreSentence`
- `SummarizeSentences`
- `ToParagraphs`
- `SummarizeText` / `SummarizeChunks`
- `ExtractFilePaths`
- `GroupByType`
- `SectionLines` / `ListSections` / `FormatFileList`
- `CreateContinuationSteps`

The properties the source promises are lemmas about those functions.

**Square root.** The score `(base + bonus) / sqrt(n)` is not computed. The model ranks by `x * |x| / n` instead, where `x = base + bonus`. This key is the score multiplied by its own absolute value. `RankKeyAgreesWithScore` proves that the key and the score order every pair of sentences alike and tie on exactly the same pairs. `SelectionMatchesSourceScores` then proves that the selection keeps the same positions as a selection by the score itself, `(base + bonus) / r` with `r * r == n` and 0.0 for a sentence without words.

**Quirks of the code that the model follows:**
- `_to_sentences` collapses every whitespace run to one space before it splits. The `\n+` alternative of the split pattern therefore never matches there: "One\nTwo" is one sentence, "One Two" (`SummariserJoinsLines`). In `stats()` the same pattern runs on the uncollapsed stripped text, so there a line break does separate sentences (`StatsSplitAtNewlines`).
- The `stats()` handler counts the non-blank pieces of that split. It does not apply the summariser's "longer than one character" filter.
- Its recommended target repeats the thresholds of `_auto_target`, and `RecommendedTarget` is proved equal to `AutoTarget`.
- `summarize()` reads the target with `data.get`, so an absent key and an explicit `null` both select the automatic size (`AbsentTargetIsNull`).
- `isinstance(x, int)` accepts `true` and `false` as 1 and 0, and the range check then rejects them (`NonIntegerTargetRejected` covers the other non-integers).
- A truthy `text` that is not a string makes `.strip()` raise. The handler's `except` turns this into `INTERNAL_ERROR` (500).
- When the service is called directly, its default target is 16, not "auto" (`SummarizeText`'s default parameter).

## Model

| member | source | states |
|---|---|---|
| Text.LeadingSpaces | summrizer/backend/services/summarizer_service.py:80 | the length of the longest all-whitespace prefix: every counted character is whitespace and the next is not |
| Text.TrailingSpaces | summrizer/backend/services/summarizer_service.py:80 | the length of the longest all-whitespace suffix |
| Text.Strip | summrizer/backend/services/summarizer_service.py:80 | `str.strip()`: the result neither starts nor ends with whitespace, and it is empty exactly when the input is blank |
| Text.StripSlice | summrizer/backend/services/summarizer_service.py:84 | the stripped text is a slice of the input with only whitespace cut on either side |
| Text.StripOfStripped | summrizer/backend/services/summarizer_service.py:84 | stripping a text with no outer whitespace changes nothing |
| Text.Collapse | summrizer/backend/services/summarizer_service.py:80 | `re.sub(r"\s+", " ", s)`: the result has no whitespace but single spaces, is empty only for empty input, and keeps or replaces the first character |
| Text.CollapseKeepsText | summrizer/backend/services/summarizer_service.py:80 | collapsing keeps every non-whitespace character, in order, and leaves exactly as many whitespace runs as the input has |
| Text.SingleSpacedSlice | summrizer/backend/services/summarizer_service.py:83-84 | every slice of a collapsed text is still collapsed |
| Text.Lower | summrizer/backend/services/summarizer_service.py:89 | `str.lower()` character by character on ASCII: same length, no capital left |
| Text.FindFrom | summrizer/backend/routes/api_routes.py:148 | the first occurrence of the separator at or after a position, or -1 when there is none |
| Text.SplitOnJoin | summrizer/backend/routes/api_routes.py:148 | `str.split(sep)` loses nothing: joining the pieces with `sep` gives the text back |
| Text.ConcatAppend | summrizer/backend/services/summarizer_service.py:164 | `"".join` of two lists is the concatenation of their joins |
| Text.WordCharIsNotSpace | summrizer/backend/services/summarizer_service.py:154 | the word class `[A-Za-z0-9']` and `\s` do not overlap |
| Tokenizer.WordRun | summrizer/backend/services/summarizer_service.py:39 | the longest prefix of word characters |
| Tokenizer.WordTokens | summrizer/backend/services/summarizer_service.py:39 | `re.findall(r"[A-Za-z0-9']+", s)`: every token is a non-empty run of word characters |
| Tokenizer.WordTokensAreRuns | summrizer/backend/services/summarizer_service.py:39 | the word tokens concatenate to exactly the word characters of the text, in order, and there is one per maximal run of them |
| Tokenizer.WordTokensSkip | summrizer/backend/services/summarizer_service.py:107 | characters outside the word class contribute no word |
| Tokenizer.TokenStreamLossless | summrizer/backend/services/summarizer_service.py:154 | every character is matched, so the tokens concatenate back to the text |
| Tokenizer.TokenStreamEnd | summrizer/backend/services/summarizer_service.py:154 | the last token of a non-empty text starts a word exactly when the text ends with a word character |
| Tokenizer.StreamWordsAreWordTokens | summrizer/backend/services/summarizer_service.py:154-162 | the tokens that start a word are exactly the words the word regex finds, so `_chunk` counts the same words as `summarize_text` |
| Tokenizer.CollapsedMatch | summrizer/backend/services/summarizer_service.py:80-83 | on collapsed text the pattern matches only a single space between a sentence end and a capital or digit, never `\n+` |
| Tokenizer.SplitFromSingleSpaced | summrizer/backend/services/summarizer_service.py:80-83 | the pieces of a collapsed text are collapsed |
| Tokenizer.SplitFromJoin | summrizer/backend/services/summarizer_service.py:83 | the split of a single-spaced text loses nothing: its pieces rejoined by a space give the text back |
| Tokenizer.ToSentences | summrizer/backend/services/summarizer_service.py:78-85 | a blank text has no sentences, and every sentence is longer than one character (which sentences, in which order, is `ToSentencesSpec`) |
| Tokenizer.KeepSentencesAppend | summrizer/backend/services/summarizer_service.py:84-85 | the comprehension works piece by piece, keeping the order of the pieces |
| Tokenizer.KeepSentencesMembers | summrizer/backend/services/summarizer_service.py:84-85 | a sentence is kept exactly when it is the stripped form, longer than one character, of some piece |
| Tokenizer.ToSentencesSpec | summrizer/backend/services/summarizer_service.py:78-85 | the collapsed, stripped text splits into pieces that rejoin to it; the sentences are, in piece order, those pieces stripped and longer than one character, and every such piece gives one |
| Tokenizer.ToSentencesWellFormed | summrizer/backend/services/summarizer_service.py:78-85 | every sentence is stripped, longer than one character and single-spaced |
| Chunking.Chunk | summrizer/backend/services/summarizer_service.py:152-171 | the loop returns `Chunks`, its specification: exactly the stripped concatenations of the token groups |
| Chunking.GroupsLossless | summrizer/backend/services/summarizer_service.py:159-169 | concatenating the groups gives back the pending tokens followed by the input tokens |
| Chunking.ChunksCoverText | summrizer/backend/services/summarizer_service.py:152-171 | the groups partition the text, and chunk `i` is group `i` stripped |
| Chunking.EmptyChunks | summrizer/backend/services/summarizer_service.py:164-169 | a chunk is empty exactly when its group is all whitespace |
| Chunking.TrailingSpaceChunk | summrizer/backend/services/summarizer_service.py:163-169 | a group holding only whitespace after the last full group still becomes a chunk: "a b " with two words per chunk gives "a b" and "" |
| Chunking.GroupsAreFull | summrizer/backend/services/summarizer_service.py:161-166 | every group but the last holds exactly `max_words` words, the last at most that |
| Chunking.GroupsCount | summrizer/backend/services/summarizer_service.py:159-169 | `(n - 1) * max_words <= words <= n * max_words` for `n` groups |
| Chunking.ChunkCount | summrizer/backend/services/summarizer_service.py:152-171 | for `n` chunks of a text of `W` words, `(n - 1) * max_words <= W <= n * max_words`, so `n` lies between `W / max_words` rounded up and that plus one; every chunk but the last closes after exactly `max_words` words |
| Chunking.TallyIsQuotient | summrizer/backend/services/summarizer_service.py:159-169 | counting a group per `max_words` words, plus one for a remainder or trailing tokens, is `W / max_words` plus that one |
| Chunking.GroupsTally | summrizer/backend/services/summarizer_service.py:159-169 | the flush loop emits one group per `max_words` words, plus one for a remainder or for tokens after the last word |
| Chunking.GroupsExactCount | summrizer/backend/services/summarizer_service.py:159-169 | the exact number of groups: the word count over `max_words`, plus one when there is a remainder or the last token is not a word |
| Chunking.ChunkCountExact | summrizer/backend/services/summarizer_service.py:152-171 | the exact number of chunks: `W / max_words`, plus one when the division leaves a remainder or the text ends with whitespace or punctuation, which forms a last chunk of its own |
| Chunking.LongTextHasSeveralChunks | summrizer/backend/services/summarizer_service.py:47-59 | a text too long for one pass is cut into at least two chunks of 1800 words |
| Frequency.KeepTermChars | summrizer/backend/services/summarizer_service.py:89 | removing everything outside `[a-z0-9]` leaves a term and never lengthens (its content is fixed by `KeepTermCharsIsKeep` and `KeepTermCharsAppend`) |
| Frequency.KeepTermCharsIsKeep | summrizer/backend/services/summarizer_service.py:89 | the filter keeps exactly the characters of `[a-z0-9]`, in order |
| Frequency.KeepTermCharsAppend | summrizer/backend/services/summarizer_service.py:89 | the filter works character by character: filtering a concatenation concatenates the filtered parts |
| Frequency.Normalize | summrizer/backend/services/summarizer_service.py:87-89 | `_normalize` yields only lowercase letters and digits (its content is fixed by `NormalizeChar` and `NormalizeAppend`) |
| Frequency.NormalizeChar | summrizer/backend/services/summarizer_service.py:87-89 | one character normalises to its lowercase form when that is a letter or digit, and to nothing otherwise |
| Frequency.NormalizeAppend | summrizer/backend/services/summarizer_service.py:87-89 | normalising a concatenation concatenates the normalised parts |
| Frequency.KeepTermCharsOfTerm | summrizer/backend/services/summarizer_service.py:89 | filtering a term changes nothing |
| Frequency.NormalizeIdempotent | summrizer/backend/services/summarizer_service.py:87-89 | normalising twice is normalising once |
| Frequency.Surviving | summrizer/backend/services/summarizer_service.py:93-94 | the terms kept are non-empty, normalised and not stopwords |
| Frequency.SurvivingMembers | summrizer/backend/services/summarizer_service.py:93-94 | a term is kept exactly when it is the normalised form of a word whose normalised form is non-empty and not a stopword |
| Frequency.SurvivingAppend | summrizer/backend/services/summarizer_service.py:93-94 | the terms of a concatenation are the terms of the parts, in order |
| Frequency.MaxCount | summrizer/backend/services/summarizer_service.py:100 | `max(freq.values())`: every term's count is at most it, and some term reaches it |
| Frequency.WordFreq | summrizer/backend/services/summarizer_service.py:91-103 | `_word_freq` returns `Weights`, its specification: the counts of the surviving terms scaled by the largest count |
| Frequency.ScaleCounts | summrizer/backend/services/summarizer_service.py:95-103 | the in-place rescaling loop divides every key's count by the maximum exactly once |
| Frequency.ScaledWellFormed | summrizer/backend/services/summarizer_service.py:95-103 | the keys are exactly the terms; every weight lies in (0, 1]; some weight is 1 |
| Frequency.WeightsWellFormed | summrizer/backend/services/summarizer_service.py:91-103 | the table is empty exactly when no term survives, that is when no word normalises to a non-empty non-stopword; its keys are non-stopword terms with weights in (0, 1], one of them 1 |
| Frequency.ScaledFollowsCounts | summrizer/backend/services/summarizer_service.py:100-102 | scaling keeps the order of the counts: one weight is at most another iff its count is |
| Scoring.WordBonus | summrizer/backend/services/summarizer_service.py:116-120 | a word earns 0.05 iff it starts with a digit, 0.03 iff it starts with a capital, otherwise nothing |
| Scoring.ScoreSentence | summrizer/backend/services/summarizer_service.py:105-126 | the bonus loop and sums give the ranking key of the sentence (0 without words) |
| Scoring.BaseScoreBounds | summrizer/backend/services/summarizer_service.py:112 | with weights in [0, 1] the base score lies between 0 and the word count |
| Scoring.WordBonusesBounds | summrizer/backend/services/summarizer_service.py:115-120 | the word bonuses lie between 0 and 0.05 per word |
| Scoring.NumeratorBounds | summrizer/backend/services/summarizer_service.py:111-124 | `base + bonus` is at least 0 and at most 1.05 per word plus 0.06 |
| Scoring.WeightsAreUnit | summrizer/backend/services/summarizer_service.py:91-103 | the frequency table's weights lie in [0, 1] |
| Scoring.RankKeyNonNegative | summrizer/backend/services/summarizer_service.py:105-126 | no sentence scores below 0, and one without words scores 0 |
| Scoring.SignedSquareLess | summrizer/backend/services/summarizer_service.py:126 | `t -> t * \|t\|` is strictly increasing |
| Scoring.SignedSquareOfQuotient | summrizer/backend/services/summarizer_service.py:126 | the signed square of `x / r` is the signed square of `x` over `r * r` |
| Scoring.RankKeyAgreesWithScore | summrizer/backend/services/summarizer_service.py:126 | comparing `x / sqrt(n)` with `y / sqrt(m)` gives the same result, `<` and `==`, as comparing the model's keys |
| Selection.PrecedesTransitive | summrizer/backend/services/summarizer_service.py:145-148 | the stable descending-score order and the index order are transitive |
| Selection.PrecedesTotal | summrizer/backend/services/summarizer_service.py:145-148 | both orders are total on entries with different indices |
| Selection.InsertBySorted | summrizer/backend/services/summarizer_service.py:145-148 | inserting an entry into a sorted list keeps it sorted |
| Selection.SortBy | summrizer/backend/services/summarizer_service.py:145-148 | `sorted` returns a permutation of its input |
| Selection.SortBySorted | summrizer/backend/services/summarizer_service.py:145-148 | `sorted` returns an ordered list |
| Selection.Ranking | summrizer/backend/services/summarizer_service.py:142 | `scored` pairs every position with its sentence's key |
| Selection.BestSpec | summrizer/backend/services/summarizer_service.py:146 | the descending sort holds every `(i, score)` pair once, ordered by score with ties by position |
| Selection.KeptSpec | summrizer/backend/services/summarizer_service.py:146 | `[:target_count]` keeps `min(k, n)` distinct positions of the ranking |
| Selection.TopIndicesShape | summrizer/backend/services/summarizer_service.py:145-148 | `top_idx` has `min(k, n)` positions, all valid and strictly increasing |
| Selection.TopIndicesMembers | summrizer/backend/services/summarizer_service.py:145-148 | `top_idx` holds exactly the positions of the kept entries |
| Selection.TopIndicesOutrank | summrizer/backend/services/summarizer_service.py:145-148 | every kept position outranks every dropped one: a higher score, or an equal score and an earlier position |
| Selection.TopIndicesSpec | summrizer/backend/services/summarizer_service.py:145-148 | size, validity, original order and the outranking property together |
| Selection.Keys | summrizer/backend/services/summarizer_service.py:142 | one key per sentence, the sentence's own score |
| Selection.SortByRelabel | summrizer/backend/services/summarizer_service.py:145-148 | relabelling the keys with keys ordered and tied alike commutes with the sort |
| Selection.TopIndicesSameOrder | summrizer/backend/services/summarizer_service.py:145-148 | two key lists that order and tie every pair alike select the same positions |
| Selection.KeysOrderedLikeScores | summrizer/backend/services/summarizer_service.py:105-126 | the model's keys order and tie every pair of sentences like `(base + bonus) / sqrt(n)`, with 0.0 for a sentence without words |
| Selection.SelectionMatchesSourceScores | summrizer/backend/services/summarizer_service.py:126-148 | the positions kept by the model's keys are those the source's square-root scores keep |
| Selection.Pick | summrizer/backend/services/summarizer_service.py:150 | the sentence at every chosen position, in order |
| Selection.SummarizeSentences | summrizer/backend/services/summarizer_service.py:128-150 | the early returns, the word loop, the scoring and the two sorts compute `Select`, its specification |
| Selection.SelectCount | summrizer/backend/services/summarizer_service.py:130-133 | nothing for a target of 0 or less, every sentence when there are at most `target`, otherwise exactly `target` |
| Selection.SelectKeepsBest | summrizer/backend/services/summarizer_service.py:128-150 | with fewer than `n` wanted: the `k` best sentences by score, in their original order |
| Summarizer.AutoTarget | summrizer/backend/services/summarizer_service.py:173-183 | the automatic size is one of 6, 12, 18, 24, 32 |
| Summarizer.AutoTargetMonotone | summrizer/backend/services/summarizer_service.py:173-183 | the size never shrinks for a longer text, and grows exactly when a threshold 180, 600, 1500 or 3000 lies between the two counts |
| Summarizer.ParagraphTexts | summrizer/backend/services/summarizer_service.py:189 | each paragraph is its sentences joined by single spaces |
| Summarizer.ToParagraphs | summrizer/backend/services/summarizer_service.py:185-190 | the loop over `range(0, n, 4)` builds `Paragraphs`, its specification: the joined paragraphs |
| Summarizer.GroupedSpec | summrizer/backend/services/summarizer_service.py:188-189 | the paragraphs partition the sentences in order into `ceil(n / 4)` groups of four, the last of 1 to 4 |
| Summarizer.ParagraphsOfFew | summrizer/backend/services/summarizer_service.py:185-190 | at most four sentences form one paragraph, and none form the empty string |
| Summarizer.SummarizeText | summrizer/backend/services/summarizer_service.py:27-76 | `summarize_text` returns `Summarize`, its specification: the summary and metadata of the one-chunk and many-chunk paths |
| Summarizer.SummarizeChunks | summrizer/backend/services/summarizer_service.py:59-67 | the chunk loop yields the per-chunk summaries joined by blank lines, and the chunk count |
| Summarizer.SummarizeWithoutWords | summrizer/backend/services/summarizer_service.py:38-42 | a text without words gives an empty summary, 0 words, 0 chunks and `target or 0` |
| Summarizer.SummarizeMeta | summrizer/backend/services/summarizer_service.py:39-76 | `words_total` is the word count; the target is the given one or the automatic one; `chunks` is 1 iff the text has at most 2000 words, otherwise at least 2 and exactly the word count over 1800, plus one when there is a remainder or the text ends outside a word |
| Summarizer.SummaryIsSelection | summrizer/backend/services/summarizer_service.py:44-70 | the summary is the paragraphs of the candidates' best sentences, `min(t, n)` of them, in original order |
| Ordering.LessIrreflexive | summrizer/backend/utils/file_utils.py:25 | no string is smaller than itself |
| Ordering.LessTransitive | summrizer/backend/utils/file_utils.py:25 | string order is transitive |
| Ordering.LessTotal | summrizer/backend/utils/file_utils.py:25 | of two different strings one is smaller |
| Ordering.Sort | summrizer/backend/utils/file_utils.py:130 | `sorted` returns a permutation of its input |
| Ordering.SortSorted | summrizer/backend/utils/file_utils.py:130 | `sorted` returns a non-decreasing list |
| Ordering.Distinct | summrizer/backend/utils/file_utils.py:25 | `set(…)` keeps every element once and nothing else |
| Ordering.SortedSetSpec | summrizer/backend/utils/file_utils.py:25 | `sorted(set(s))` holds exactly the elements of `s`, strictly increasing |
| FileUtils.KeepPaths | summrizer/backend/utils/file_utils.py:28-32 | the filter keeps exactly the matches longer than 3 that start with neither "http" nor "www" |
| FileUtils.ExtractFilePaths | summrizer/backend/utils/file_utils.py:22-34 | the dedupe, sort and filter loop returns the specified path list |
| FileUtils.KeepPathsSorted | summrizer/backend/utils/file_utils.py:28-32 | filtering a strictly sorted list keeps it strictly sorted |
| FileUtils.FilePathsSpec | summrizer/backend/utils/file_utils.py:9-34 | the result is strictly sorted, without duplicates, and holds exactly the path-like matches |
| FileUtils.LastIndexSpec | summrizer/backend/utils/file_utils.py:79-80 | the last occurrence of a character, or -1 |
| FileUtils.SuffixSpec | summrizer/backend/utils/file_utils.py:79-80 | a non-empty `Path.suffix` starts with its only dot, has something after it and ends a name with a non-empty stem |
| FileUtils.ValidateFilePath | summrizer/backend/utils/file_utils.py:37-66 | a valid path has a suffix, a name of 3 or more characters and none of `<>\|"?*` |
| FileUtils.ValidateFilePathCases | summrizer/backend/utils/file_utils.py:50-63 | each of the three checks rejects on its own, and a path passing all three is valid |
| FileUtils.FirstCategorySpec | summrizer/backend/utils/file_utils.py:97-101 | the scan returns a category listing the extension, or `other` when none does |
| FileUtils.ExtensionsDisjoint | summrizer/backend/utils/file_utils.py:83-95 | no extension belongs to two categories |
| FileUtils.CategorySpec | summrizer/backend/utils/file_utils.py:83-101 | the category is the one listing the extension, `other` iff none does, so the dictionary order does not matter |
| FileUtils.GetFileTypeSpec | summrizer/backend/utils/file_utils.py:69-101 | `get_file_type` gives the category listing the lowered suffix, and `other` exactly when no category lists it |
| FileUtils.GetFileTypeIgnoresCase | summrizer/backend/utils/file_utils.py:79-80 | the classification ignores the case of the path |
| FileUtils.SuffixIgnoresCase | summrizer/backend/utils/file_utils.py:79-80 | the suffix of the lowered path is the lowered suffix |
| FileUtils.FirstIndex | summrizer/backend/utils/file_utils.py:119-122 | the position of the first path of a type, if any |
| FileUtils.TypesInOrderSpec | summrizer/backend/utils/file_utils.py:118-123 | the dictionary's keys are exactly the types with files, in order of their first path |
| FileUtils.FilesOfMember | summrizer/backend/utils/file_utils.py:118-123 | every path lands in its own type's list |
| FileUtils.GroupByType | summrizer/backend/utils/file_utils.py:118-123 | the grouping loop builds the key order and each type's paths in input order |
| FileUtils.NameOrderSorted | summrizer/backend/utils/file_utils.py:127 | `sorted(by_type.items())` visits the eleven type names in strictly increasing order |
| FileUtils.HeaderExamples | summrizer/backend/utils/file_utils.py:128-133 | `c_cpp` gives "C_Cpp files:", `javascript` gives "Javascript files:", `other` gives its title-cased name followed by " files:" |
| FileUtils.Bullets | summrizer/backend/utils/file_utils.py:130-135 | one "  - path" line per file, in order |
| FileUtils.Present | summrizer/backend/utils/file_utils.py:127 | only types that have files get a section |
| FileUtils.SectionLines | summrizer/backend/utils/file_utils.py:128-135 | a section is the header followed by the sorted bullets |
| FileUtils.ListSections | summrizer/backend/utils/file_utils.py:126-135 | the output loop produces the sections of the present types |
| FileUtils.FormatFileList | summrizer/backend/utils/file_utils.py:104-137 | `format_file_list` returns the specified listing |
| FileUtils.SectionsHoldPath | summrizer/backend/utils/file_utils.py:126-135 | every grouped path appears as a bullet |
| FileUtils.PresentIndices | summrizer/backend/utils/file_utils.py:127 | the present types are a subsequence of the name order |
| FileUtils.FileListSpec | summrizer/backend/utils/file_utils.py:104-137 | "No files detected" for no paths; otherwise the sections in name order, one per type with files, files sorted, every path listed |
| FileUtils.TypeSteps | summrizer/backend/utils/file_utils.py:164-176 | one step per type in key order, naming that type's files |
| FileUtils.CreateContinuationSteps | summrizer/backend/utils/file_utils.py:140-185 | the step-building loops return the specified steps |
| FileUtils.ContinuationStepsSpec | summrizer/backend/utils/file_utils.py:150-183 | nothing for no paths; otherwise one step per type in first-seen order, then the three general steps |
| FileUtils.GroupOrderSpec | summrizer/backend/utils/file_utils.py:156-161 | every path's type is a key, each key's first path has that type, and keys follow first appearance |
| ApiRoutes.CheckText | summrizer/backend/routes/api_routes.py:37-51 | accepted only for a non-blank string under `text`, and every such body is accepted |
| ApiRoutes.HandleSummarize | summrizer/backend/routes/api_routes.py:33-74 | a summary exactly when the text is accepted and the target is valid, with the text's word count; a 500 exactly when `text` is a truthy non-string; never statistics |
| ApiRoutes.ServiceCountsWords | summrizer/backend/services/summarizer_service.py:39-76 | the service's `words_total` is the word count of its input on both paths |
| ApiRoutes.TextStatistics | summrizer/backend/routes/api_routes.py:145-160 | the word count, the recommended target for it, and the sentence and paragraph counts: exactly the number of non-blank pieces of each split |
| ApiRoutes.HandleStats | summrizer/backend/routes/api_routes.py:126-174 | an error exactly when the text guard rejects, with its code; otherwise statistics whose word count and recommended target are those of the text; never a summary |
| ApiRoutes.CountNonBlank | summrizer/backend/routes/api_routes.py:147-148 | the count of non-blank pieces is 0 iff all are blank |
| ApiRoutes.CountNonBlankIsCount | summrizer/backend/routes/api_routes.py:147-148 | the count is exactly the number of positions holding a non-blank piece |
| ApiRoutes.CountNonBlankAppend | summrizer/backend/routes/api_routes.py:147-148 | counting distributes over concatenation of the piece lists |
| ApiRoutes.RecommendedTarget | summrizer/backend/routes/api_routes.py:151-160 | the statistics' recommended target equals the service's automatic size |
| ApiRoutes.SummarizeGuardOrder | summrizer/backend/routes/api_routes.py:37-68 | missing text, then empty text, then an invalid target are rejected in that order; otherwise the service's result is returned unchanged |
| ApiRoutes.SummarizeStatus | summrizer/backend/routes/api_routes.py:37-74 | status 400 exactly for the three validation errors, 200 for an accepted request |
| ApiRoutes.AbsentTargetIsNull | summrizer/backend/routes/api_routes.py:44-54 | omitting `target_sentences` is the same as sending `null` |
| ApiRoutes.NonIntegerTargetRejected | summrizer/backend/routes/api_routes.py:54-59 | a float, string, array or object target, or a boolean one, is rejected |
| ApiRoutes.SummaryMeta | summrizer/backend/routes/api_routes.py:54-68 | a successful answer reports the word count and a target that is the given one (4 to 80) or the automatic size |
| ApiRoutes.HandlersShareTextGuard | summrizer/backend/routes/api_routes.py:129-141 | `stats` fails exactly when the text guard rejects, with the same error as `summarize` |
| ApiRoutes.StatsAgreeWithService | summrizer/backend/routes/api_routes.py:145-160 | the statistics' word count and recommended target match the service's metadata |
| ApiRoutes.StatsOfNonBlankText | summrizer/backend/routes/api_routes.py:145-148 | a non-blank text has at least one sentence and one paragraph, and no more than there are pieces |
| ApiRoutes.NonBlankTextHasParagraph | summrizer/backend/routes/api_routes.py:148 | a text with something besides whitespace has a non-blank block between blank lines |
| ApiRoutes.StatsSplitAtNewlines | summrizer/backend/routes/api_routes.py:146-147 | "One\nTwo" counts as two sentences in the statistics |
| ApiRoutes.LineBreakSplit | summrizer/backend/routes/api_routes.py:146 | the split pattern cuts "One\nTwo" at the line break |
| ApiRoutes.CollapseOneSpace | summrizer/backend/services/summarizer_service.py:80 | a single whitespace character between two non-space runs becomes one space |
| ApiRoutes.CollapseLineBreak | summrizer/backend/services/summarizer_service.py:80 | "One\nTwo" collapses to "One Two" |
| ApiRoutes.UnbrokenSplit | summrizer/backend/services/summarizer_service.py:83 | "One Two" is not split |
| ApiRoutes.SummariserJoinsLines | summrizer/backend/services/summarizer_service.py:78-85 | the summariser treats "One\nTwo" as the single sentence "One Two" |

## Left out

- Flask itself is not modelled: the blueprint, `request.get_json()`, `jsonify` and HTTP serving. A request is its decoded body, and a response is a datatype with its status given by `HttpStatus`.
- A JSON body that decodes to something other than an object (a list, a string) is not modelled. Neither is a body that fails to parse.
- For an internal error, the exception's own text in the error message is not modelled; only the fixed prefix is. The only internal error modelled is the one a non-string `text` raises.
- Floating point is modelled with exact reals. Frequencies are exact ratios, and bonuses are exact decimals.
- ScoreSentence: does not compute the square root. It returns `x * |x| / n` in place of `x / sqrt(n)`, which orders and ties every pair the same way (`RankKeyAgreesWithScore`).
- Character classes are ASCII only. Python's `\s` is the CPython whitespace set, `str.lower` and `str.title` act on ASCII letters only, and other Unicode case mappings are not modelled.
- `pathlib.Path` is modelled as POSIX paths: components split on `/`, with empty and `.` components dropped. Backslashes are ordinary characters.
- ExtractFilePaths: takes the list of regex matches as its input. The extension pattern with `\b` and `re.IGNORECASE` is not modelled, so the method states only the dedupe, sort and filter that follow the match.
- `_to_paragraphs` is modelled with its default of four sentences per paragraph, the only value the service uses.
- `_chunk`'s default of 1500 words is not modelled. The word limit is a parameter, and the service always passes 1800.
- The module-level service instance and the `summarize_text` wrapper of the service file are not modelled. `web_routes.py`, `main.py`, `run.py`, `app.py`, the front-end and extension scripts and `test_api.py` are not part of this model.
- The `health` and `info` routes of `api_routes.py` return constant data and are not modelled.
