# Long-VLM-RL reward functions and checkpoint tooling, in Dafny

This project models the parts of Long-VLM-RL that sit around reinforcement-learning training of a
vision-language model on ScienceQA, and proves properties of that model:

- **The r1v reward functions** (`examples/reward_function/r1v.py`):
  - the format reward is a full-match regular expression over `<think>…</think>`, whitespace, and `<answer>…</answer>`;
  - two accuracy rewards: one extracts the tagged answer and grades it; the other splits the answer into tokens and accepts on the first matching token;
  - the two entry points, `compute_score` and `sqa_compute_score`, weight the sub-scores into one overall score.
- **Checkpoint discovery.** Both checkpoint scripts find the `global_step_*` directories under fixed checkpoint roots, sorted.
- **The batch drivers.** `auto_merge_models.py` runs the merger on every `actor` directory it finds. `auto_validation.py` runs the validation script on every `actor/huggingface` directory, optionally restricted by `--filter-steps`. Both count successes and failures, stop at the first failure unless `--continue-on-error` is given, and exit with status 1 when anything failed.
- **The ScienceQA conversion** (`prepare_dataset/convert_scienceqa_to_hf.py`):
  - each example becomes one record: a single image (a blank stand-in when the example has none), a problem text with lettered options, and an answer letter;
  - the shuffled records are split into a test set of 1500 and a train set of the rest.
  - one example of each split is printed before the splits are pushed, which fails when the train split is empty.

Modules:

| module | file | contents |
|---|---|---|
| `Wrappers` | wrappers.dfy | `Option`, `Result` |
| `Text` | text.dfy | the Python `str` operations used: `strip`, `find`, `replace`, `join`, whitespace |
| `Order` | order.dfy | Python's ordering of `str` and of paths; sorting |
| `Tags` | tags.dfy | the format pattern and its full-match decision; the `<answer>(.*?)</answer>` search |
| `Tokens` | tokens.dfy | `re.split(r'[ .,:;]+', …)` and the stripping filter |
| `Weighting` | weighting.dfy | the weighted sum `(1 - w) * a + w * f` and its order facts |
| `Reward` | reward.dfy | the accuracy rewards and both `compute_score` entry points |
| `Checkpoints` | checkpoints.dfy | the file system, the step-directory scan, the scan over all roots |
| `Batch` | batch.dfy | the driver loop, the summary, the exit status |
| `Validation` | validation.dfy | `find_merged_models`, the step filter, `validate_model`, `main` |
| `Merging` | merging.dfy | `find_model_directories`, `merge_model`, `main` |
| `ScienceQA` | scienceqa.dfy | per-example conversion, the conversion loop, statistics, the test/train split, the example printout before the push |

Two things the scripts depend on are parameters in the model:

- **Answer grading.** `grade_answer` is a function value that may accept, reject or raise on any pair of strings.
- **External commands.** What happens when the merger or validation script is launched is a function from path to outcome: exited with a status, or could not be started.

The file system is a finite map from component lists to `Directory` or `RegularFile`. The dataset is a list of splits of examples. The shuffle is any permutation.

## Model

| member | source | states |
|---|---|---|
| Text.LeadLength | examples/reward_function/r1v.py:30 | the characters `lstrip()` removes are a whitespace run ended by a non-whitespace character or by the end |
| Text.TailLength | examples/reward_function/r1v.py:30 | the characters `rstrip()` removes are a whitespace run preceded by a non-whitespace character or by the start |
| Text.Trim | examples/reward_function/r1v.py:30 | `strip()` returns a contiguous slice of its argument with no whitespace at either end, and everything cut away on either side is whitespace |
| Text.TrimOfPadded | examples/reward_function/r1v.py:30 | stripping `w1 + x + w2` with whitespace `w1`, `w2` and stripped `x` gives exactly `x` |
| Text.TrimOfTrimmed | examples/reward_function/r1v.py:61 | a string with no whitespace at either end is left unchanged by `strip()` |
| Text.TrimIdempotent | examples/reward_function/r1v.py:61 | stripping twice gives the same as stripping once |
| Text.IndexFrom | examples/reward_function/r1v.py:29 | the search finds the first occurrence at or after the start, and reports none only when there is none |
| Text.DeleteChar | examples/reward_function/r1v.py:29 | `replace(c, "")` leaves no `c` and keeps every other character that was present |
| Text.DeleteCharAppend | examples/reward_function/r1v.py:29 | deleting a character distributes over concatenation |
| Text.DeleteCharAbsent | examples/reward_function/r1v.py:29 | deleting a character that does not occur changes nothing |
| Text.DeleteAll | auto_validation.py:97 | `replace(pat, "")` never lengthens the string, keeps only characters of the input, and changes nothing for an empty pattern |
| Text.DeleteAllAbsent | auto_validation.py:97 | `replace(pat, "")` on a string where `pat` never occurs changes nothing |
| Text.DeleteAllFirst | auto_validation.py:97 | for every string, `replace(pat, "")` deletes the leftmost occurrence of a non-empty `pat` and continues after it, keeping everything before it |
| Order.StrLessStrictTotal | auto_validation.py:24 | Python's `<` on `str` is irreflexive, transitive and total |
| Order.PathLessTransitive | auto_validation.py:24 | path ordering is transitive |
| Order.PathLessTotal | auto_validation.py:24 | any two distinct paths are ordered one way or the other |
| Order.PathLessIrreflexive | auto_validation.py:24 | no path is less than itself |
| Order.PathLessAtComponent | auto_merge_models.py:24 | paths that differ in one component are ordered by that component |
| Order.InsertPath | auto_merge_models.py:24 | inserting a new path into a sorted list keeps it sorted, adds exactly that path, and loses nothing |
| Order.SortPaths | auto_merge_models.py:24 | `sorted()` of distinct paths is strictly increasing and a permutation of its input |
| Order.SortedListingUnique | auto_validation.py:18-24 | two sorted lists with the same members are equal |
| Tags.SkipSpace | examples/reward_function/r1v.py:22 | from the given position, `\s*` consumes only whitespace and stops at the first non-whitespace character or at the end of the string |
| Tags.SkipSpaceOfRun | examples/reward_function/r1v.py:22 | a whitespace run followed by a non-space character is the one `\s*` consumes |
| Tags.ScanFindsWitness | examples/reward_function/r1v.py:22-23 | when the backtracking over the lazy thought succeeds, it has found an end of the thought where the rest of the pattern matches |
| Tags.ScanReaches | examples/reward_function/r1v.py:22-23 | the backtracking tries every candidate end of the thought, so any end where the rest matches is found |
| Tags.FormatSound | examples/reward_function/r1v.py:22-23 | every response the full match accepts is `<think>`, thought, `</think>`, whitespace, `<answer>`, answer, `</answer>` |
| Tags.FormatComplete | examples/reward_function/r1v.py:22-23 | every such response is accepted, whatever the thought and answer contain |
| Tags.FormatRejectsOutside | examples/reward_function/r1v.py:22-23 | a response the full match rejects has no such decomposition |
| Tags.FormatReward | examples/reward_function/r1v.py:21-24 | `format_reward` is 1.0 exactly for responses in the format language and 0.0 for all others |
| Tags.FormatAnchored | examples/reward_function/r1v.py:23 | a rewarded response starts with `<think>` and ends with `</answer>` |
| Tags.FormatRejectsStrayEnds | examples/reward_function/r1v.py:22-24 | a leading character other than `<` or a trailing one other than `>` costs the format reward |
| Tags.SearchAnswer | examples/reward_function/r1v.py:29 | the extracted group lies between the first `<answer>` and the first `</answer>` after it; none is found only when no `<answer>` is followed by a `</answer>` |
| Tags.SearchIsRegexSearch | examples/reward_function/r1v.py:29 | on newline-free text the extraction is the regex search: leftmost match, shortest group, and none exactly when no match exists |
| Tags.RegexSearchUnique | examples/reward_function/r1v.py:29 | `re.search` reports at most one match: two leftmost, shortest matches are the same match |
| Tokens.NextSeparator | examples/reward_function/r1v.py:58 | the stretch from a position up to the next separator holds no separator |
| Tokens.SkipSeparators | examples/reward_function/r1v.py:58 | a separator run `[ .,:;]+` is consumed to its end |
| Tokens.SplitFrom | examples/reward_function/r1v.py:58 | `re.split` yields at least one piece, and no piece contains a separator |
| Tokens.SplitFromKeepsText | examples/reward_function/r1v.py:58 | the pieces of the text from a position, concatenated, are that text with the separators removed |
| Tokens.SplitKeepsText | examples/reward_function/r1v.py:58 | the pieces, concatenated, are the input with the separators removed |
| Tokens.SplitFromReassembles | examples/reward_function/r1v.py:58 | the pieces of the text from a position, interleaved with non-empty separator runs, give back that text; no piece holds a separator and only the first and last may be empty |
| Tokens.SplitReassembles | examples/reward_function/r1v.py:58 | the same for the whole input: `re.split` cuts exactly at the maximal separator runs |
| Tokens.NextSeparatorIs | examples/reward_function/r1v.py:58 | a separator-free stretch ended by a separator or the end is the stretch the split takes |
| Tokens.SkipSeparatorsIs | examples/reward_function/r1v.py:58 | a separator run ended by a non-separator or the end is the run the split removes |
| Tokens.SplitFromUnique | examples/reward_function/r1v.py:58 | any pieces and runs that reassemble the text in that way are the pieces the split yields, in order |
| Tokens.SplitUnique | examples/reward_function/r1v.py:58 | `re.split` yields the one sequence of pieces that reassembles the input around maximal separator runs |
| Tokens.KeepStripped | examples/reward_function/r1v.py:61 | the filter keeps at most as many items as it is given, each non-empty and stripped |
| Tokens.KeepStrippedAppend | examples/reward_function/r1v.py:61 | the filter works item by item in order: filtering `a + b` is filtering `a` followed by filtering `b` |
| Tokens.KeepStrippedSingle | examples/reward_function/r1v.py:61 | one item gives its stripped text, or nothing when that is empty |
| Tokens.KeepStrippedMembers | examples/reward_function/r1v.py:61 | a string is kept exactly when it is some piece, stripped, and not blank |
| Tokens.KeepStrippedSeparatorFree | examples/reward_function/r1v.py:61 | filtering separator-free pieces yields separator-free tokens |
| Tokens.KeepStrippedOfTokens | examples/reward_function/r1v.py:61 | pieces that are already non-empty and stripped pass through unchanged |
| Tokens.TrimKeepsSeparatorFree | examples/reward_function/r1v.py:61 | stripping cannot introduce a separator |
| Tokens.Tokenize | examples/reward_function/r1v.py:58-61 | every token is non-empty, separator-free and stripped |
| Tokens.TokenizeOfSplit | examples/reward_function/r1v.py:58-61 | the tokens are the split's pieces in order, stripped, with blank ones dropped, for the pieces fixed by the reassembly description |
| Tokens.TokenizeKeepsPieces | examples/reward_function/r1v.py:58-61 | every piece that is more than whitespace survives, stripped, as a token |
| Tokens.TokenizeWordsRunTogether | examples/reward_function/r1v.py:58-61 | example: `cat,dogandfish` tokenises to `cat` and `dogandfish` |
| Reward.SquashSpaces | examples/reward_function/r1v.py:29 | the searched text has no newline or space and keeps every other character of the response |
| Reward.GivenAnswer | examples/reward_function/r1v.py:29-30 | the graded answer is stripped, and without a tagged answer it is the whole response stripped |
| Reward.GivenAnswerOfTagged | examples/reward_function/r1v.py:29-30 | for a response that is one tagged answer with no spaces or newlines, the graded answer is that answer stripped |
| Reward.TaggedSearch | examples/reward_function/r1v.py:29 | in `<answer>y</answer>`, with no `</answer>` inside `y`, the search captures exactly `y` |
| Reward.GivenAnswerUntagged | examples/reward_function/r1v.py:29-30 | a response containing no `<` has no tag to find and is graded as the whole response, stripped |
| Reward.GivenAnswerIsRegexGroup | examples/reward_function/r1v.py:29-30 | for every response, when `re.search` matches the squashed response the graded answer is its group stripped, and when nothing matches it is the whole response stripped |
| Reward.AccuracyReward | examples/reward_function/r1v.py:27-37 | the reward is 1.0 exactly when the ground truth is a `str` and `grade_answer` accepts the given answer against it stripped; otherwise 0.0, including when `grade_answer` raises |
| Reward.FirstAccepted | examples/reward_function/r1v.py:64-68 | the token loop returns 1.0 exactly when some token is accepted and every earlier token is rejected; a raise first gives 0.0 |
| Reward.RejectedHead | examples/reward_function/r1v.py:64-66 | a rejected first token leaves the outcome to the remaining tokens |
| Reward.FirstAcceptedAny | examples/reward_function/r1v.py:64-68 | when grading never raises, the loop returns 1.0 exactly when some token is accepted |
| Reward.FirstAcceptIndex | examples/reward_function/r1v.py:64-66 | if some token is accepted, there is a first accepted token and every token before it is rejected |
| Reward.AnswerTokens | examples/reward_function/r1v.py:48-61 | there are tokens exactly when the search finds a tagged answer, and each is a proper token |
| Reward.AnswerTokensOfTagged | examples/reward_function/r1v.py:48-61 | for a response that is one tagged answer without `<` inside, the tokens are those of the answer with spaces and newlines deleted, then stripped |
| Reward.SquashSpacesOfTagged | examples/reward_function/r1v.py:48 | deleting spaces and newlines leaves the answer tags in place |
| Reward.SquashWords | examples/reward_function/r1v.py:48 | four words joined by single spaces lose only those spaces |
| Reward.AnswerTokensRunTogether | examples/reward_function/r1v.py:48-61 | example: the response `<answer>cat, dog and fish</answer>` yields the tokens `cat` and `dogandfish`, so no token is `dog` |
| Reward.AnswerTokensIsRegexGroup | examples/reward_function/r1v.py:48-61 | for every response, when `re.search` matches the squashed response the tokens are those of its group stripped, and when nothing matches there are none |
| Reward.SqaAccuracyReward | examples/reward_function/r1v.py:40-71 | the reward is 0.0 without a tagged answer; it is 1.0 exactly when the ground truth is a `str` and some token is accepted before any raise, against the stripped ground truth |
| Reward.Combine | examples/reward_function/r1v.py:80-84 | the overall score keeps both sub-scores; for a weight in [0, 1] it lies between the accuracy and the format score, so in [0, 1] for 0/1 sub-scores; it equals the common value when both agree |
| Reward.CombineAccuracyMonotone | examples/reward_function/r1v.py:81 | below full format weight, a higher accuracy at the same format score gives a strictly higher overall score |
| Reward.CombineFormatMonotone | examples/reward_function/r1v.py:81 | above zero format weight, a higher format score at the same accuracy gives a strictly higher overall score |
| Weighting.WeightedBetween | examples/reward_function/r1v.py:81 | with a weight in [0, 1], `(1 - w) * a + w * f` lies between `a` and `f` |
| Weighting.WeightedIncreasesInFirst | examples/reward_function/r1v.py:81 | below weight 1 the weighted sum grows strictly with its first term |
| Weighting.WeightedIncreasesInSecond | examples/reward_function/r1v.py:81 | above weight 0 the weighted sum grows strictly with its second term |
| Reward.ScoringArguments | examples/reward_function/r1v.py:75-79 | the arguments are accepted exactly for a mapping with a string `response` and some `ground_truth`; otherwise, in the order the code evaluates them: a non-dict raises `ValueError`, then a missing `response` a `KeyError`, then a non-string response the `re.fullmatch` error, then a missing `ground_truth` a `KeyError` |
| Reward.ComputeScore | examples/reward_function/r1v.py:74-84 | a non-dict raises, and every error is exactly the one the argument checks raise; a valid input scores the format reward and the exact-extraction accuracy, the overall score is `(1 - w) * accuracy + w * format`, and it is in [0, 1] for a weight in [0, 1] |
| Reward.SqaComputeScore | examples/reward_function/r1v.py:87-100 | a non-dict raises, and every error is exactly the one the argument checks raise; a valid input scores the format reward and the token-matching accuracy, the overall score is `(1 - w) * accuracy + w * format`, and it is in [0, 1] for a weight in [0, 1] |
| Reward.DefaultWeighting | examples/reward_function/r1v.py:74 | with the default weight 0.1, both right scores 1.0, a right answer in the wrong format 0.9, and the right format with a wrong answer 0.1 |
| Checkpoints.FindStepDirectories | auto_merge_models.py:10-24 | a missing root yields nothing; a root that is not a directory raises; otherwise the result is exactly the marker paths of the `global_step_` directories that hold the marker, sorted, each once |
| Checkpoints.ScanDeterministic | auto_merge_models.py:18-24 | the scan has a single possible result, whatever order the directory yields its children in |
| Checkpoints.ScanRoots | auto_merge_models.py:63-73 | the scans of all roots are concatenated in root order; the run raises exactly when some root exists but is not a directory |
| Checkpoints.StepTenBeforeStepTwo | auto_merge_models.py:24 | the sort is lexicographic, so `global_step_10` comes before `global_step_2` |
| Checkpoints.StrLessAtIndex | auto_merge_models.py:24 | strings that agree up to an index are ordered by their characters at that index |
| Batch.RunBatch | auto_merge_models.py:85-96 | the counting loop with `break` computes the fold over the outcomes |
| Batch.RunBound | auto_validation.py:117-129 | the loop runs at most as many items as the list holds |
| Batch.RunCounts | auto_validation.py:117-129 | the counters count exactly the items run; these form a prefix of the list, and none of them raised |
| Batch.RunStops | auto_validation.py:120-129 | the loop ends at an exception, just after a failure without `--continue-on-error`, or at the end of the list |
| Batch.RunHaltsAtFirstFailure | auto_validation.py:126-129 | without `--continue-on-error` at most one failure is counted and every earlier item succeeded |
| Batch.RunContinues | auto_merge_models.py:88-96 | with `--continue-on-error` and no exception, every item is run |
| Batch.Summarize | auto_merge_models.py:75-101 | nothing to do exactly for an empty list; otherwise the total is the list length and bounds the two counts |
| Batch.ExitStatus | auto_merge_models.py:103-104 | the exit status is 0 or 1 |
| Batch.ExitZeroIffAllSucceed | auto_validation.py:137-138 | the run exits with status 0 exactly when every item succeeds, with or without `--continue-on-error` |
| Batch.AllSucceedCounted | auto_validation.py:41-43 | items that all succeed, as in a dry run, are all counted as successes |
| Validation.FindMergedModels | auto_validation.py:10-24 | the scan of one root for `actor/huggingface` directories, with the missing-root and not-a-directory cases |
| Validation.FilterKeeps | auto_validation.py:95-103 | a model is kept exactly when it was found and the filter is absent, empty, or lists its step label |
| Validation.FilterModels | auto_validation.py:94-103 | filtering never adds models, every model it keeps is selected by the filter, and without a filter every model is kept |
| Validation.FilterAppend | auto_validation.py:88-103 | filtering root by root is filtering the concatenation |
| Validation.FilterInactive | auto_validation.py:96 | an absent or empty `--filter-steps` keeps every model |
| Validation.StepLabelOfStepDirectory | auto_validation.py:95-97 | the step label of `global_step_<d>/actor/huggingface` is `d` |
| Validation.StepLabelDeletesEveryOccurrence | auto_validation.py:97 | example: every occurrence of the prefix is deleted, so the step directory `global_step_global_step_7` is labelled `7` |
| Validation.ValidateModel | auto_validation.py:27-71 | validation never lets an exception escape, and succeeds exactly in a dry run or when the script exits with status 0 |
| Validation.ValidateAll | auto_validation.py:74-138 | `main` crashes exactly when a root exists but is not a directory; otherwise the models are the filtered scans, the report is the batch summary, a dry run counts everything as validated, and the exit status is 0 exactly when every selected model validates |
| Validation.ValidateTargets | auto_validation.py:82-85 | `main` on its two checkpoint roots crashes exactly when one of them exists but is not a directory, and has nothing to do when neither exists |
| Merging.FindModelDirectories | auto_merge_models.py:10-24 | the scan of one root for `actor` directories, with the missing-root and not-a-directory cases |
| Merging.MergeModel | auto_merge_models.py:27-48 | merging raises exactly when the merger cannot be started outside a dry run, and succeeds exactly in a dry run or on exit status 0 |
| Merging.MergeAll | auto_merge_models.py:51-104 | `main` crashes when a root is not a directory or, outside a dry run, when a merger it reaches cannot be started; otherwise the report is the batch summary over the scans, and the exit status is 0 exactly when every directory merges |
| Merging.MergeTargets | auto_merge_models.py:58-61 | `main` on its two checkpoint roots crashes when one of them exists but is not a directory, and has nothing to do when neither exists |
| ScienceQA.PrepareImage | prepare_dataset/convert_scienceqa_to_hf.py:50-58 | the blank stand-in is used exactly when the example has no image; otherwise the image comes from the source |
| ScienceQA.ChoicesBlock | prepare_dataset/convert_scienceqa_to_hf.py:68-70 | the options block fails only when there are more options than letters below the surrogates |
| ScienceQA.SplitJoinedLines | prepare_dataset/convert_scienceqa_to_hf.py:70 | joining newline-free lines with newlines and splitting again gives the lines back |
| Text.Join | prepare_dataset/convert_scienceqa_to_hf.py:70 | joining no parts gives the empty string, one part gives that part, and the result starts with the first part and ends with the last |
| ScienceQA.ChoicesBlockRoundTrip | prepare_dataset/convert_scienceqa_to_hf.py:68-70 | line `k` of the options block carries letter `A + k` and, after the letter and `". "`, exactly choice `k` |
| ScienceQA.Problem | prepare_dataset/convert_scienceqa_to_hf.py:73-76 | the problem is `<image>`, then `Context: ` with the hint and a blank line when the hint is non-empty, then `Question: ` with the question, then the options header and block: its prefix, suffix and length fix every character |
| ScienceQA.ProblemShowsContext | prepare_dataset/convert_scienceqa_to_hf.py:73-76 | the problem starts with `<image>Context: ` exactly when the hint is non-empty |
| ScienceQA.Letter | prepare_dataset/convert_scienceqa_to_hf.py:80 | `chr` gives the character with that code, and raises `ValueError` exactly outside `0..0x10FFFF` |
| ScienceQA.ConvertExample | prepare_dataset/convert_scienceqa_to_hf.py:49-88 | conversion fails exactly when the options or the answer cannot be lettered; otherwise a record's one image is the example's image as prepared (blank when missing), it is masked exactly when the example had no image, its problem is the template filled with the hint, the question and the options block, and its answer letter decodes to the answer index |
| ScienceQA.MissingAnswerIsA | prepare_dataset/convert_scienceqa_to_hf.py:79-80 | an example without an answer is answered `A` |
| ScienceQA.FirstFailure | prepare_dataset/convert_scienceqa_to_hf.py:44-88 | when every example before one converts and that one fails, the whole conversion fails, with that example's error |
| ScienceQA.ConvertAll | prepare_dataset/convert_scienceqa_to_hf.py:44-88 | the loop succeeds exactly when every example converts, giving one record per example in split order; otherwise it raises the error of the first example that fails; the masked records are exactly the examples without an image |
| ScienceQA.DummyCountAppend | prepare_dataset/convert_scienceqa_to_hf.py:93 | the masked count distributes over concatenation |
| ScienceQA.DummyCountPermutation | prepare_dataset/convert_scienceqa_to_hf.py:93-99 | the masked count is the same for any permutation of the records |
| ScienceQA.DummyStatistics | prepare_dataset/convert_scienceqa_to_hf.py:93-95 | the statistics raise exactly when no example was collected; otherwise the count is at most the total and zero exactly when nothing is masked |
| ScienceQA.SplitTestTrain | prepare_dataset/convert_scienceqa_to_hf.py:101-104 | the test split is the first 1500 records, or all of them if there are fewer, and test followed by train is the shuffled list |
| ScienceQA.SplitKeepsRecords | prepare_dataset/convert_scienceqa_to_hf.py:97-104 | whatever the shuffle, the two splits together hold exactly the records, and as many masked ones |
| ScienceQA.ShowExamples | prepare_dataset/convert_scienceqa_to_hf.py:131-142 | the example printout raises on an empty train split, then on an empty test split, and otherwise passes both splits on unchanged |
| ScienceQA.Publish | prepare_dataset/convert_scienceqa_to_hf.py:93-147 | the splits reach `push_to_hub` exactly when there are more than 1500 records; no records raise in the statistics, 1 to 1500 records raise at the train example; pushed splits hold 1500 test records and together exactly the records |

## Where the code and its documentation disagree

The model follows the code in each case:

- `accuracy_reward` and `sqa_accuracy_reward` delete only `"\n"` and `" "` before the search. Tabs, carriage returns and other whitespace stay.
- `sqa_accuracy_reward` deletes spaces before splitting on `[ .,:;]+`. Its docstring promises a split on spaces, but by then there are none left. So the tagged answer `cat, dog and fish` yields the tokens `cat` and `dogandfish`, and no token equals `dog` (`Reward.AnswerTokensRunTogether`).
- The test split has 1500 records. The module docstring says 1.2k and the comment above the split says 1200.
- `merge_model` catches only a non-zero exit of the merger. A merger that cannot be started raises out of `main` (`Merging.MergeAll`). `validate_model` catches every exception and counts it as a failure.
- The step filter deletes every occurrence of `global_step_`, not just the leading one: `replace` deletes occurrences left to right for every string (`Text.DeleteAllFirst`, `Text.DeleteAllAbsent`), as in the example `Validation.StepLabelDeletesEveryOccurrence`.
- `if args.filter_steps` treats an empty filter list like no filter at all.
- A checkpoint root that exists but is not a directory makes `iterdir()` raise, and the script ends with status 1.
- The sort is lexicographic: `global_step_10` comes before `global_step_2` (`Checkpoints.StepTenBeforeStepTwo`).

## Left out

- The `verl` files (`verl/models/monkey_patch.py`, `verl/trainer/utils.py`, `verl/utils/sequence_parallel`) are not part of this model. They belong to the training framework, not to the reward or tooling code.
- `grade_answer` (the `mathruler` library) is not part of this model. It is a parameter that may accept, reject or raise on any input.
- Printing, progress bars, and the command strings built for `bash` and the merger are not modelled. These are output only.
- The subprocess I/O is not modelled. Each launch is a parameter: exited with a status, or could not be started.
- `argparse` is not modelled. Its result is the `Options` datatype.
- `load_dataset`, `login`, `Features`, `Dataset.from_dict` and `push_to_hub` are not modelled. The dataset enters as a list of splits. The model's output is the pair of splits handed to `push_to_hub` (`ScienceQA.Publish`), which exists only for more than 1500 records: with fewer, `final_dataset["train"][0]` raises first.
- Image pixels and RGB conversion are not modelled. An image is an identifier tagged with what was done to it.
- `random.seed(42)` and `random.shuffle` are not modelled as an algorithm. The shuffled list is any permutation of the records (`ScienceQA.SplitKeepsRecords`).
- Floating point is not modelled. Scores are exact reals, so rounding in `(1 - w) * a + w * f` is not represented.
- Absolute paths, symbolic links, and file-system changes during a run are not modelled. Paths are relative component lists, and the file system is a fixed map.
- An example key present with the value `None` is not modelled, except for `image`. Missing keys take the code's defaults.
- `Reward.AccuracyReward`: a ground truth that is not a `str` is treated as raising at `strip()`, so the reward is 0.0. That holds for `None`, numbers and lists; a `bytes` value or another object with a `strip` method would instead reach `grade_answer`, whose verdict on it is not modelled.
- `Reward.SqaAccuracyReward`: the same treatment of a ground truth that is not a `str`.
- `Tags.SearchIsRegexSearch`: the lemma is stated only for newline-free text. The scorers delete newlines before searching, so this is the only text they search.
- `ScienceQA.ChoicesBlock`: more than 0xD800 − 65 options fail with `TooManyChoices`. Python would instead letter them with surrogate code points, and would raise only past 0x10FFFF − 65; a Dafny `char` cannot hold a surrogate.
- `ScienceQA.Letter`: an answer index whose letter would be a surrogate code point fails with `SurrogateCharacter`, where Python would return a one-character string holding the surrogate.
