# rename-refactoring-assist: the dataset and metric tooling, in Dafny

This project models the Python tooling of rename-refactoring-assist, a system
that suggests new names for Java identifiers. Its four modelled parts are:

- **Scoring suggestions** (`data/calculate_performance_metrics.py`). Every suggested
  name is scored against the ground-truth name by exact match, normalised
  Levenshtein similarity, and token precision, recall and F1. Tokens come from
  an identifier split at underscores, punctuation, camel-case humps, acronym
  ends and letter/digit changes, then lower-cased. For each result item there
  are two scores:
  - **top-1**: the item's first suggestion, scored strictly;
  - **top-5**: the best of the valid suggestions among its first five, chosen as
    an oracle would.

  Both scores are summed over the batch and averaged.
- **Building the ground-truth dataset** (`data/ground_truth/create_ground_truth_dataset.py`):
  - loading the refactoring tasks from CSV rows: incomplete rows are skipped and
    the rest are sorted stably by commit SHA;
  - resolving a task's file path before and after the commit from the commit's
    file list;
  - locating every occurrence of the old name in the file before the commit and
    of the new name in the file after it;
  - serialising one entry, with its GitHub URLs.
- **Removing exact duplicates** from the dataset (`data/ground_truth/clean_ground_truth_dataset.py`).
  The first entry with each canonical key is kept, and the rest are counted.
- **Selecting "Rename Variable" entries** and turning them into line/column
  targets for the Java tool (`data/ground_truth/filter_rename_variable_targets.py`).

Parts of the source that only compute values are modelled as functions.
Parts that loop or update state are modelled as methods with loop invariants,
each proved against those functions:
- the Levenshtein rows;
- the candidate extraction;
- the batch processor, a class whose accumulator map is updated item by item;
- `find_all`'s nested scan;
- `RefactoringData`, a class whose path and location fields are filled in;
- task loading, deduplication and target selection.

Files:
- `options.dfy`: the Option type.
- `collections.dfy`: `MapSeq`.
- `tokenizer.dfy`, `string_distance.dfy`, `ratios.dfy`, `prediction_metrics.dfy`
  and `batch_results.dfy`: the metric script.
- `identifier_locator.dfy`, `ground_truth_creation.dfy`, `sorting.dfy` and
  `task_loading.dfy`: the dataset builder.
- `dedup.dfy`: the cleaner.
- `var_targets.dfy`: the target filter.

Places where the model differs from the source, each proved or stated:

- **Tokenizer order.** The source splits on whitespace and then lower-cases
  each token. The model lower-cases first and then splits. `LowerThenSplit`
  proves the two give the same list.
- **Regular expressions.** Each regular-expression pass of the tokenizer is
  modelled as the left-to-right, non-overlapping scan that `re.sub` performs.
  For `([A-Z]+)([A-Z][a-z])`, the greedy run's backtracking is worked out by
  hand: a match at `i` exists exactly when an upper-case run of length at
  least two is followed by a lower-case letter.
- **Sorting.** `list.sort` is modelled as a stable insertion sort, with its
  sortedness, permutation and stability proved. String order is Python's
  code-point order.
- **`max` with a key.** It returns the first maximal element. The model
  replaces the running best only on a strictly larger key, and proves that the
  best candidate is the earliest maximum.

## Model

| member | source | states |
|---|---|---|
| IdentifierTokenizer.Tokenize | data/calculate_performance_metrics.py:61-88 | An empty identifier gives no tokens. Every token is non-empty and made only of lower-case letters and digits. The tokens, concatenated, are exactly the identifier's letters and digits, lower-cased and in order: splitting loses no letter or digit and invents none. The tokens begin exactly at the letters and digits that `StartFlags` marks. |
| IdentifierTokenizer.TokenizeShape | data/calculate_performance_metrics.py:72-88 | Splitting the rewritten identifier on whitespace and lower-casing the words gives non-empty lower-case alphanumeric tokens, whose concatenation is the lower-cased alphanumerics of the identifier. |
| IdentifierTokenizer.RewrittenKeepsAlphanumerics | data/calculate_performance_metrics.py:72-85 | After all five rewrite passes the text holds only letters, digits and spaces, and its letters and digits are the identifier's, in order. |
| IdentifierTokenizer.BlankingKeepsAlphanumerics | data/calculate_performance_metrics.py:72-75 | Blanking non-word characters and underscores leaves letters, digits and spaces, and keeps every letter and digit in place. |
| IdentifierTokenizer.SubstituteAllInsertsSpaces | data/calculate_performance_metrics.py:78-85 | Each boundary substitution only inserts spaces: the text stays letters, digits and spaces, and its letters and digits are unchanged. |
| IdentifierTokenizer.SubstituteKeepsAlphanumerics | data/calculate_performance_metrics.py:78-85 | A substitution scan from position `i` emits the same letters and digits as the input from `i` on. |
| IdentifierTokenizer.MatchAt | data/calculate_performance_metrics.py:78-85 | A match of a boundary pattern at `i` has a non-empty first group and a non-empty second group inside the text, so the scan always advances. |
| IdentifierTokenizer.UpperRun | data/calculate_performance_metrics.py:78 | The greedy `[A-Z]+` run from `i` is all upper case, stays inside the text, and is maximal. |
| IdentifierTokenizer.SplitFromWords | data/calculate_performance_metrics.py:88 | `str.split()` of letters, digits and spaces yields only non-empty alphanumeric words. |
| IdentifierTokenizer.SplitFromConcat | data/calculate_performance_metrics.py:88 | The words of `str.split()`, concatenated, are all the non-space characters of the text, in order. |
| IdentifierTokenizer.LowerThenSplit | data/calculate_performance_metrics.py:88 | Lower-casing and then splitting gives the same list as splitting and then lower-casing each token. |
| IdentifierTokenizer.BlankNonWord | data/calculate_performance_metrics.py:71 | The text keeps its length. Every character becomes a word character or a space. A character is kept exactly when it is a word character; every other character, a space included, ends up a space. |
| IdentifierTokenizer.BlankUnderscores | data/calculate_performance_metrics.py:74 | The text keeps its length and has no underscore left. The only change is an underscore becoming a space. |
| IdentifierTokenizer.Blanked | data/calculate_performance_metrics.py:71-74 | Passes 1 and 2 together keep every letter and digit in place and turn every other character into a space. |
| IdentifierTokenizer.Substitute | data/calculate_performance_metrics.py:77-84 | A `re.sub` scan from position `i` never emits less than the text it reads, since it only inserts, and emits nothing exactly at the end of the text. |
| IdentifierTokenizer.SubstituteIsSpaced | data/calculate_performance_metrics.py:77-84 | A `re.sub` scan from a position `i` where the pass's rule does not hold inserts one space exactly before each later position where the rule holds, and changes nothing else. |
| IdentifierTokenizer.PassIsSpaced | data/calculate_performance_metrics.py:77-84 | Each substitution pass inserts one space before exactly the positions its rule marks on the text it is given. |
| IdentifierTokenizer.SpacedCompose | data/calculate_performance_metrics.py:80-84 | Each pass after the acronym pass, run on already spaced text, marks the same places as on the unspaced text, so running the passes one after another inserts spaces where any of their rules holds. |
| IdentifierTokenizer.Rewritten | data/calculate_performance_metrics.py:69-84 | The five rewrite passes never shorten the identifier. |
| IdentifierTokenizer.RewrittenIsSpaced | data/calculate_performance_metrics.py:69-84 | The rewritten identifier is the blanked identifier with one space inserted before every position where the acronym-end, camel-case, digit-then-letter or letter-then-digit rule holds. |
| IdentifierTokenizer.SplitWords | data/calculate_performance_metrics.py:87 | `str.split()` gives only non-empty words, and no word holds a whitespace character. |
| IdentifierTokenizer.SplitSpaced | data/calculate_performance_metrics.py:87 | Splitting the spaced text on whitespace groups its letters and digits into words that begin exactly at the marked positions. |
| IdentifierTokenizer.StartFlags | data/calculate_performance_metrics.py:61-88 | There is one token-start flag per letter or digit of the identifier. |
| IdentifierTokenizer.StartFlagsAt | data/calculate_performance_metrics.py:61-88 | The flag of the letter or digit at position `j` is whether a token starts at `j`: it opens the identifier, follows a non-alphanumeric character, or follows one of the four boundaries. |
| IdentifierTokenizer.SplitStarts | data/calculate_performance_metrics.py:87-88 | The words of the rewritten, lower-cased identifier begin exactly at the flagged letters and digits. |
| IdentifierTokenizer.TokenStartAt | data/calculate_performance_metrics.py:61-88 | Counting among the identifier's letters and digits, a token of `tokenize` begins at the one at position `j` if and only if `StartsToken` holds there. |
| IdentifierTokenizer.CamelHumpStartsToken | data/calculate_performance_metrics.py:79-80 | A token begins at an upper-case letter that follows a lower-case letter or a digit (`myVar`). |
| IdentifierTokenizer.DigitLetterStartsToken | data/calculate_performance_metrics.py:82-84 | A token begins where a digit meets a letter or a letter meets a digit (`file123`). |
| IdentifierTokenizer.AcronymEndStartsToken | data/calculate_performance_metrics.py:76-77 | A token begins at the last capital of an upper-case run that a lower-case letter follows (`XMLParser`). |
| IdentifierTokenizer.SeparatorStartsToken | data/calculate_performance_metrics.py:69-74 | A token begins at a letter or digit that follows an underscore or any other non-alphanumeric character. |
| IdentifierTokenizer.NoOtherTokenStarts | data/calculate_performance_metrics.py:61-88 | Between two adjacent letters or digits that none of the four rules separates, no token begins: there are no other cuts. |
| IdentifierTokenizer.TokenStartsAreOffsets | data/calculate_performance_metrics.py:87-88 | For non-empty words, the start flags mark exactly the offsets `|Concat(ws[..m])|` at which the words begin. |
| IdentifierTokenizer.TokenCuts | data/calculate_performance_metrics.py:61-88 | The set of cut points of the tokens, `{|Concat(tokens[..m])|}`, is exactly the set of positions, counted among letters and digits, where `StartsToken` holds: each such position is a cut, and each cut is such a position. |
| IdentifierTokenizer.WordsDetermined | data/calculate_performance_metrics.py:87-88 | Non-empty words are determined by their concatenation and their start flags, so the two together fix the token list. |
| IdentifierTokenizer.TokenizeAlnumWord | data/calculate_performance_metrics.py:61-88 | For an identifier made only of letters and digits, any list of non-empty words that spells it in lower case and begins exactly where `StartsToken` holds is the token list. |
| IdentifierTokenizer.TokenizeAcronymExample | data/calculate_performance_metrics.py:76-77 | `XMLParser` gives `xml`, `parser`. |
| IdentifierTokenizer.TokenizeCamelCaseExample | data/calculate_performance_metrics.py:79-80 | `myVar` gives `my`, `var`. |
| IdentifierTokenizer.TokenizeDigitsExample | data/calculate_performance_metrics.py:82-84 | `file123` gives `file`, `123`. |
| StringDistance.EditDistanceBounds | data/calculate_performance_metrics.py:94-110 | The distance is at most the longer length and at least the difference of the lengths. |
| StringDistance.EditDistanceSymmetric | data/calculate_performance_metrics.py:96-97 | The distance does not depend on argument order, which justifies the source's swap of the arguments. |
| StringDistance.EditDistanceZeroIff | data/calculate_performance_metrics.py:94-110 | The distance is zero exactly when the strings are equal. |
| StringDistance.NextRow | data/calculate_performance_metrics.py:103-108 | One pass of the outer loop turns the row of distances for the first `i` characters of `s1` into the row for `i + 1`. |
| StringDistance.LevenshteinDistance | data/calculate_performance_metrics.py:94-110 | The two-row dynamic programme returns the edit distance. It returns `len(s1)` when `s2` is empty and `len(s2)` when `s1` is empty. |
| StringDistance.Similarity | data/calculate_performance_metrics.py:113-119 | The similarity lies in [0, 1], and it is 1 exactly when the strings are equal. |
| StringDistance.SimilaritySymmetric | data/calculate_performance_metrics.py:113-119 | Similarity does not depend on argument order. |
| PredictionMetrics.TokenCounts | data/calculate_performance_metrics.py:135-136 | The `Counter` of a name holds as many tokens as `tokenize` returns, each a non-empty lower-case alphanumeric token, and is empty for an empty name. |
| PredictionMetrics.EmptyMetric | data/calculate_performance_metrics.py:24-27 | `MetricResult.empty()`: every metric lies in [0, 1] and is at most the same metric of any bounded result, so it is the lowest score on all five. |
| PredictionMetrics.ExactMatch | data/calculate_performance_metrics.py:153-154 | The result is 1 exactly when the names are equal, and 0 exactly when they differ. |
| PredictionMetrics.TokenPrecision | data/calculate_performance_metrics.py:159-161 | Precision lies in [0, 1] and is 0 for a prediction without tokens. It is 1 exactly when every predicted token, counted with multiplicity, is a ground-truth token. It is 0 exactly when no token is shared. |
| PredictionMetrics.TokenRecall | data/calculate_performance_metrics.py:163-165 | Recall lies in [0, 1] and is 0 for a ground truth without tokens. It is 1 exactly when every ground-truth token is predicted. It is 0 exactly when no token is shared. |
| PredictionMetrics.TokenF1 | data/calculate_performance_metrics.py:167-175 | F1 lies in [0, 1] and is 1 when neither side has a token. Otherwise it is 0 exactly when no token is shared. It is 1 whenever both sides have the same token counts. |
| PredictionMetrics.TokenF1Symmetric | data/calculate_performance_metrics.py:159-175 | Swapping prediction and ground truth swaps precision and recall and leaves F1 unchanged. |
| PredictionMetrics.IntersectionBounded | data/calculate_performance_metrics.py:135-142 | The `Counter` intersection never holds more tokens than either side. |
| PredictionMetrics.Evaluate | data/calculate_performance_metrics.py:128-151 | All five metrics lie in [0, 1]. Exact match is 1, and edit similarity is 1, exactly when the names are equal. |
| PredictionMetrics.EvaluateIdentical | data/calculate_performance_metrics.py:128-175 | A prediction equal to the ground truth scores exact match 1, similarity 1 and F1 1. Precision and recall are 1, or both 0 when the name has no token. |
| BatchResults.IsValidSuggestion | data/calculate_performance_metrics.py:246-255 | A suggestion is valid exactly when it is an object whose "name" key is present and not null. A non-object, a missing key or a null name is not valid. |
| BatchResults.Take | data/calculate_performance_metrics.py:263 | `suggestions[:limit]`: the first `limit` suggestions, or all of them when there are fewer; always a prefix of the list. |
| BatchResults.ValidNames | data/calculate_performance_metrics.py:246-267 | The valid names are never more than the suggestions. A name is among them exactly when some valid suggestion carries it. There are as many names as suggestions exactly when every suggestion is valid. |
| BatchResults.ValidNamesAppend | data/calculate_performance_metrics.py:263-265 | Extraction keeps order: the names of a concatenation are the concatenated names of its parts. |
| BatchResults.ExtractValidCandidates | data/calculate_performance_metrics.py:257-267 | A non-array gives nothing. Otherwise the result is the valid names among the first `limit` suggestions, in order, and there are at most `limit` of them. |
| BatchResults.GroundTruthOf | data/calculate_performance_metrics.py:204-206 | A null or absent new_name reads as the empty string; otherwise the ground truth is the name itself. |
| BatchResults.ItemCandidates | data/calculate_performance_metrics.py:219 | The `limit=5` call: the valid names among the item's first five suggestions, so at most five, and none when the suggestions are not an array. |
| BatchResults.Beats | data/calculate_performance_metrics.py:275-285 | The key order of `max` is strict: nothing beats itself, and a winner's F1 is never below the loser's. |
| BatchResults.MaxFrom | data/calculate_performance_metrics.py:275-285 | The scan from position `i` ends on its starting best or on a later element. Neither the starting best nor any element from `i` on beats the result. |
| BatchResults.MaxFromIsEarliestMaximum | data/calculate_performance_metrics.py:275-285 | The scan that replaces its best only on a strictly larger key ends on an element that nothing beats and that beats every element before it. |
| BatchResults.BestCandidate | data/calculate_performance_metrics.py:269-285 | No candidates give the all-zero metric. Otherwise the result is one of the candidates. No candidate has a larger key (F1, exact match, similarity, precision). It is the earliest candidate with the largest key. |
| BatchResults.ItemTopOne | data/calculate_performance_metrics.py:204-216 | Whatever the item holds, its strict top-1 metric lies in [0, 1]. |
| BatchResults.ItemTopFive | data/calculate_performance_metrics.py:218-227 | Whatever the item holds, its oracle top-5 metric lies in [0, 1]. |
| BatchResults.FirstCandidate | data/calculate_performance_metrics.py:210-218 | When the first suggestion is valid, it is also the first top-5 candidate. |
| BatchResults.OracleDominatesTopOne | data/calculate_performance_metrics.py:204-227 | For every item, the top-5 metric's F1 and exact match are at least the top-1 metric's. |
| BatchResults.Add | data/calculate_performance_metrics.py:287-293 | Adds a metric to an accumulator, field by field, for all five fields. |
| BatchResults.AddAssociative | data/calculate_performance_metrics.py:287-293 | Accumulation is associative, so adding a batch's total equals adding its items one by one. |
| BatchResults.Average | data/calculate_performance_metrics.py:294-310 | An empty batch gives zeros. Otherwise each average, multiplied back by the item count, gives that field's sum. |
| BatchResults.TotalBounded | data/calculate_performance_metrics.py:287-293 | Over `n` items, every accumulated field lies in [0, n]. |
| BatchResults.BatchAveragesBounded | data/calculate_performance_metrics.py:295-310 | Every averaged metric of a batch lies in [0, 1], including the all-zero result for an empty batch. |
| BatchResults.TotalDominated | data/calculate_performance_metrics.py:234-235 | Summed over a batch, the top-5 F1 and exact-match totals are at least the top-1 ones. |
| BatchResults.BatchOracleDominatesTopOne | data/calculate_performance_metrics.py:295-310 | The averaged top-5 F1 and exact-match rate are at least the top-1 ones. |
| BatchResults.ScoreCandidates | data/calculate_performance_metrics.py:221-224 | Every candidate is scored, in order. |
| BatchResults.ScoreItem | data/calculate_performance_metrics.py:204-227 | The loop body computes exactly the item's top-1 and top-5 metrics. |
| BatchResults.BatchResultProcessor.constructor | data/calculate_performance_metrics.py:180-197 | Both accumulators start at the all-zero metric, and the item count is the number of results. |
| BatchResults.BatchResultProcessor.UpdateAccumulator | data/calculate_performance_metrics.py:287-293 | The named accumulator grows field by field by the metric. The other accumulator is unchanged. |
| BatchResults.BatchResultProcessor.CalculateFinalAverages | data/calculate_performance_metrics.py:295-310 | Each accumulator is divided by the item count. An empty batch gives zeros for both. |
| BatchResults.BatchResultProcessor.ProcessItem | data/calculate_performance_metrics.py:203-237 | One item is scored, and both of its metrics are added to the accumulators. |
| BatchResults.BatchResultProcessor.Process | data/calculate_performance_metrics.py:199-244 | The per-item metrics are those of every item, in order. Each accumulator grows by the batch total of its metric. The averages are taken over the item count. |
| BatchResults.ProcessBatch | data/calculate_performance_metrics.py:180-244 | From a fresh processor, the batch gives every item's metrics and both averages of the totals. Both average sets lie in [0, 1], and the top-5 F1 and exact-match averages dominate the top-1 ones. |
| IdentifierLocator.SplitLines | data/ground_truth/create_ground_truth_dataset.py:185 | Empty text has no lines, and non-empty text has at least one. No line contains a line-break character. |
| IdentifierLocator.SplitLinesKeepsText | data/ground_truth/create_ground_truth_dataset.py:185 | The lines, concatenated, are the text with its line breaks removed. |
| IdentifierLocator.LineEnds | data/ground_truth/create_ground_truth_dataset.py:185 | There is exactly one line end per line. |
| IdentifierLocator.SplitLinesRoundTrip | data/ground_truth/create_ground_truth_dataset.py:185 | Every line but possibly the last ends with exactly one break, a single break character or "\r\n", and the last ends with one or none. Joining each line with its end gives back the text. |
| IdentifierLocator.SplitLinesSplitsAs | data/ground_truth/create_ground_truth_dataset.py:185 | `SplitLines` and `LineEnds` read the text as `str.splitlines` does. No line holds a break. Each line but the last ends with one break, and the last ends with one or none. The line-and-break pieces join back to the text. A lone "\r" ending a line is never followed directly by "\n". A last line that ends with no break is not empty. |
| IdentifierLocator.SplitsAsUnique | data/ground_truth/create_ground_truth_dataset.py:185 | Any lines and ends that read the text so are exactly `SplitLines` and `LineEnds`. "\r\n" is therefore never split into two breaks, and a trailing break never opens an empty line. |
| IdentifierLocator.SplitLinesCharacterised | data/ground_truth/create_ground_truth_dataset.py:185 | Lines and ends read the text as `str.splitlines` does if and only if they are `SplitLines` and `LineEnds`. |
| IdentifierLocator.SplitLinesCrLfExample | data/ground_truth/create_ground_truth_dataset.py:185 | "a\r\nb" splits into "a" and "b", with ends "\r\n" and nothing. |
| IdentifierLocator.SplitLinesTrailingBreakExample | data/ground_truth/create_ground_truth_dataset.py:185 | "a\n" splits into the single line "a", ended by "\n". |
| IdentifierLocator.Find | data/ground_truth/create_ground_truth_dataset.py:190 | `str.find`: -1 exactly when no occurrence starts at or after `start`. Otherwise the result is the leftmost occurrence at or after `start`. |
| IdentifierLocator.FindAll | data/ground_truth/create_ground_truth_dataset.py:170-205 | Empty text or an empty identifier gives nothing. Otherwise, every location numbers itself 1, 2, ... and records an occurrence with 1-based line, start column and inclusive end column. The locations run in line and column order without overlapping. Every occurrence in the text is recorded or overlaps a recorded one. |
| GroundTruthCreation.FirstMatch | data/ground_truth/create_ground_truth_dataset.py:265-268 | The first file entry whose name or previous name is the CSV's path, or none when no entry matches. |
| GroundTruthCreation.IsMatch | data/ground_truth/create_ground_truth_dataset.py:266-267 | `is_match`: the entry's filename is the CSV's path, or its previous_filename is present and equal to it. |
| GroundTruthCreation.ResolvePaths | data/ground_truth/create_ground_truth_dataset.py:263-279 | Resolution fails exactly when the first matching entry is marked "renamed" but has no previous name. With no matching entry, both paths are the CSV's path. A first match marked "renamed" gives its previous name before and its name after. Any other first match gives its name twice, even when it matched through its previous name. |
| GroundTruthCreation.ResolvedPathsComeFromMatch | data/ground_truth/create_ground_truth_dataset.py:263-279 | The resolved paths are either the CSV's path twice, or names carried by a matching entry. The two paths differ only for an entry marked "renamed". |
| GroundTruthCreation.UnrenamedFileKeepsItsPath | data/ground_truth/create_ground_truth_dataset.py:263-276 | A file listed under the CSV's path, not renamed and first to match, keeps that path before and after. |
| GroundTruthCreation.RenamedFileTakesBothNames | data/ground_truth/create_ground_truth_dataset.py:263-276 | A renamed entry that is first to mention the CSV's path, under either name, resolves to its previous name before and its new name after. |
| GroundTruthCreation.FileContent | data/ground_truth/create_ground_truth_dataset.py:146-159 | A missing or empty path gives no content. Any content returned is the file at that revision. |
| GroundTruthCreation.UrlBefore | data/ground_truth/create_ground_truth_dataset.py:292-305 | No URL exactly when the before-path is missing or empty. Otherwise the URL is the configured repository's blob link at `<sha>^1` followed by the path. |
| GroundTruthCreation.BaseUrl | data/ground_truth/create_ground_truth_dataset.py:294 | `base_url`: `https://github.com/<owner>/<project>/blob` for the configured repository. |
| GroundTruthCreation.UrlAfter | data/ground_truth/create_ground_truth_dataset.py:292-308 | No URL exactly when the after-path is missing or empty. Otherwise the URL is the configured repository's blob link at `<sha>` followed by the path. |
| GroundTruthCreation.UrlsDistinguishPaths | data/ground_truth/create_ground_truth_dataset.py:305-308 | At one commit, different paths get different URLs. |
| GroundTruthCreation.DefaultRepositoryUrls | data/ground_truth/create_ground_truth_dataset.py:21-22 | Under the default configuration, a non-empty path's links are `https://github.com/apache/flink/blob/<sha>^1/<path>` and `https://github.com/apache/flink/blob/<sha>/<path>`. |
| GroundTruthCreation.BeforeAndAfterUrlsDiffer | data/ground_truth/create_ground_truth_dataset.py:305-308 | The before-URL never equals an after-URL of the same commit. |
| GroundTruthCreation.RefactoringData.constructor | data/ground_truth/create_ground_truth_dataset.py:215-228 | The CSV fields are stored. No pull request, no paths and no locations are set. |
| GroundTruthCreation.RefactoringData.DetermineFilePaths | data/ground_truth/create_ground_truth_dataset.py:263-279 | The paths are set from the first matching entry, its previous and new names for a rename, or from the CSV's path when nothing matches. The method fails, leaving the paths unchanged, exactly where the source raises a KeyError. Nothing else changes. |
| GroundTruthCreation.RefactoringData.FindIdentifierLocations | data/ground_truth/create_ground_truth_dataset.py:281-290 | The old name is located in the file at `<sha>^1` and the new name in the file at `<sha>`, each with the full `find_all` guarantee. A missing file gives no locations. |
| GroundTruthCreation.RefactoringData.PopulateFromApi | data/ground_truth/create_ground_truth_dataset.py:230-261 | Missing commit details fail the call with nothing changed. Success means the paths resolved. Then the pull request, the paths and both location lists are set as the steps promise. |
| GroundTruthCreation.RefactoringData.ToDict | data/ground_truth/create_ground_truth_dataset.py:292-310 | Every field is copied into the entry. Each URL is absent exactly when its path is missing or empty, and otherwise is the blob link of the configured repository for its revision and path. |
| StableSort.StrLess | data/ground_truth/create_ground_truth_dataset.py:350 | Python's string `<`: code points compared from the left, and a proper prefix is smaller. |
| StableSort.StrLessIrreflexive | data/ground_truth/create_ground_truth_dataset.py:350 | No string is smaller than itself. |
| StableSort.StrLessTransitive | data/ground_truth/create_ground_truth_dataset.py:350 | The string order the sort uses is transitive. |
| StableSort.StrLessTrichotomy | data/ground_truth/create_ground_truth_dataset.py:350 | Any two strings are equal or one is smaller than the other, so the order is total. |
| StableSort.Insert | data/ground_truth/create_ground_truth_dataset.py:350 | Insertion adds exactly the one element. |
| StableSort.SortByKey | data/ground_truth/create_ground_truth_dataset.py:350 | Sorting keeps the number of elements. |
| StableSort.SortByKeySorted | data/ground_truth/create_ground_truth_dataset.py:350 | The sorted list is ordered by key. |
| StableSort.SortByKeyPermutes | data/ground_truth/create_ground_truth_dataset.py:350 | The sorted list is a permutation of the input. |
| StableSort.SortByKeyStable | data/ground_truth/create_ground_truth_dataset.py:350 | Elements with equal keys keep their input order. |
| StableSort.SortByKeyMap | data/ground_truth/create_ground_truth_dataset.py:345-350 | Sorting commutes with a key-preserving map: sorting objects, then reading their fields, is sorting the fields. |
| TaskLoading.IsComplete | data/ground_truth/create_ground_truth_dataset.py:341 | A row is complete exactly when its commit, old name, new name and file are all present and non-empty. The type may be missing. |
| TaskLoading.CompleteTasks | data/ground_truth/create_ground_truth_dataset.py:334-347 | A task is kept exactly when it comes from a row whose commit, names and file are all present and non-empty. Every kept task has those four fields non-empty, and there are never more tasks than rows. |
| TaskLoading.CompleteTasksAppend | data/ground_truth/create_ground_truth_dataset.py:334-347 | Skipping keeps order: the tasks of consecutive blocks of rows follow one another. |
| TaskLoading.LoadTasks | data/ground_truth/create_ground_truth_dataset.py:328-352 | The loaded objects carry exactly the complete rows' fields, sorted by commit SHA. Every object is new and as the constructor leaves it: no pull request, no paths, no locations. |
| TaskLoading.LoadedTasksOrder | data/ground_truth/create_ground_truth_dataset.py:341-350 | The loaded tasks are sorted by commit SHA and are a permutation of the complete rows. Rows of one commit keep their CSV order. |
| Deduplication.FirstOccurrences | data/ground_truth/clean_ground_truth_dataset.py:34-49 | The cleaned data is no longer than the input, has the same set of keys, and no two of its entries share a key. |
| Deduplication.Deduplicate | data/ground_truth/clean_ground_truth_dataset.py:34-51 | The loop keeps exactly the first entry of each key. The kept entries plus the duplicates counted make up the input. |
| Deduplication.DistinctUnchanged | data/ground_truth/clean_ground_truth_dataset.py:34-49 | A dataset without duplicate keys is left as it is. |
| Deduplication.DeduplicateIdempotent | data/ground_truth/clean_ground_truth_dataset.py:34-49 | Cleaning cleaned data changes nothing. |
| Deduplication.NoDuplicatesIff | data/ground_truth/clean_ground_truth_dataset.py:34-51 | No duplicates are found exactly when no two entries share a key. |
| Deduplication.FirstIndices | data/ground_truth/clean_ground_truth_dataset.py:38-46 | The positions of entries that open their key are increasing, each such position opens its key, and each entry that opens its key appears among them. |
| Deduplication.KeptAtFirstIndices | data/ground_truth/clean_ground_truth_dataset.py:38-46 | The kept entries are exactly the entries at those positions, in order: the output is the subsequence of first occurrences. |
| VariableTargets.Selected | data/ground_truth/filter_rename_variable_targets.py:10-16 | An entry is selected exactly when it is a "Rename Variable", its URL is present and non-empty, and it has at least one location. |
| VariableTargets.InstancesOf | data/ground_truth/filter_rename_variable_targets.py:14 | `... or []`: the entry's instance locations, or none when the key is absent or null. |
| VariableTargets.LocatorOf | data/ground_truth/filter_rename_variable_targets.py:19-25 | The locator of one instance: its `line` and its `start_column` as `column`, each absent when the instance lacks it. |
| VariableTargets.TargetOf | data/ground_truth/filter_rename_variable_targets.py:9-32 | An entry gives a target exactly when it is a "Rename Variable" with a non-empty URL and at least one location. The target's path is the URL. There is one locator per location, in order, with the location's line and start column. The names are copied. |
| VariableTargets.Targets | data/ground_truth/filter_rename_variable_targets.py:7-33 | There are never more targets than entries, and a target is produced exactly when some entry gives it. |
| VariableTargets.TargetsAppend | data/ground_truth/filter_rename_variable_targets.py:7-33 | The filter keeps entry order: the targets of consecutive blocks of entries follow one another. |
| VariableTargets.AllSelectedIff | data/ground_truth/filter_rename_variable_targets.py:10-16 | There are as many targets as entries exactly when every entry is selected. |
| VariableTargets.ToJavaVarTargets | data/ground_truth/filter_rename_variable_targets.py:7-33 | The nested loops compute exactly the targets of the entries, in order. |

## Left out

- Everything that reads or writes files is not modelled. Its values are parameters instead. This covers JSON and CSV parsing, the output files, the command-line entry points (`main`) and `GroundTruthGenerator.run`.
- The GitHub client is not modelled: HTTP requests, retries and rate-limit waits, caching, and base64 decoding.
  - The commit's file list and its pull request are parameters of `PopulateFromApi`.
  - File contents come from a repository snapshot, a map from (revision, path) to text.
- The progress bar and every printed message or warning are not modelled.
- Floating point is modelled as real numbers, so rounding is not captured.
- `str()` conversion of suggestion names and of "new_name" is not modelled. Names are strings in the model.
- Input that is not shaped as the source expects is not modelled:
  - a result item that is not an object;
  - a file entry without "filename" or "status".
- A location without "line" or "start_column" is modelled: `dict.get` reads each missing key as nothing.
- IdentifierTokenizer: characters are treated as ASCII. Python's `\w`, its upper and lower case, and `str.split()` are Unicode-aware. The model's token properties are stated for that ASCII reading.
- RefactoringData.DetermineFilePaths:
  - a "previous_filename" that is present but null is treated like a missing one;
  - the source's KeyError, which ends the whole run, is reported as a failed instance.
- Deduplication.Deduplicate: the canonical key `json.dumps(entry, sort_keys=True)` is not modelled. It is a function parameter `key`.
- The early return of the cleaner for an empty dataset only skips writing output, so it is not modelled separately.
- VariableTargets: the URL and the names are typed as strings or nothing, as the dataset builder writes them. Other JSON values are not modelled.
- BatchResults.BatchResultProcessor.Process: per-item metrics are returned as a sequence in item order, not written into the item objects.
