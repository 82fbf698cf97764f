# Adaptive retry experiments, modelled in Dafny

This project models the retry machinery of an experiment on flaky builds. The
experiment reruns BugSwarm build pairs and TestNG tests and then analyses the
logs those reruns leave. Five pieces are modelled:

- **The Docker batch runner** (`run_bugswarm.py`). It tries each pair's image
  up to `max_retries + 1` times. In *static* mode it retries after every
  failure. In *adaptive* mode it retries only while the sampled CPU peak and
  the available memory stay within thresholds. It writes one summary row per
  pair. The module also covers the runner's helpers:
  - column detection;
  - the `docker stats` line and memory-string parsers;
  - the reduction of an attempt's samples to peak figures.
- **The log converter** (`convert_log_to_json.py`). It classifies each line
  of a TestNG retry log and keeps the largest attempt count seen per test.
  It then filters, de-duplicates and normalises the entries.
- **The retry-log counter** (`analyze_retries.py`). It counts the
  "Pair N | Attempt M | word" reports and the PASS and FAIL among them, and
  computes a success rate.
- **The fixed-cap runner** (`run_bug_pairs.py`). It runs a snippet at most
  three times, logs each attempt, and logs "MAX RETRIES REACHED" after three
  failures.
- **The two TestNG `RetryAnalyzer` classes.** They grant the first two
  retries of a test and refuse the rest.

Everything the scripts obtain from outside is a parameter of the model:
- Docker and subprocess results, the clock and fresh UUIDs are oracle functions.
- What each converter regular expression finds on a line is given as input.
- `strptime` is an oracle.

The code between those inputs is modelled as pure functions over sequences.
Five loops are also written as methods, each proved equal to its functional
reference:
- the attempt loop (`Batch.RunPair`);
- the converter's parsing pass (`LogConvert.ParseFile`);
- the converter's de-duplicating pass (`LogConvert.NormalizeEntries`);
- the counter's line loop (`RetryLog.Tally`, `RetryLog.ParseRetryLog`);
- the fixed-cap runner's loop (`BugPairs.RunRetryTest`).

The other loops are modelled by functions only:
- the candidate scans (`Columns.ChooseColumn`, `Columns.NamesPresent`, `Columns.FirstLowerMatch`);
- the sampler (`Stats.CollectSamples`);
- the row loop (`Batch.RunBatch`).

The batch runner is modelled as written, including its memory conversion:
`Stats.ParseStatsLine` and everything built on it use the as-written
`_to_mb`. The corrected conversion (`Stats.ToMb`, `Stats.ParseMemStrCorrected`)
stands beside it, and the two are proved to differ only on plain byte counts.

Module layout:
- `Wrappers`: `Option` and `Result`.
- `Text`: Python `str` primitives over `seq<char>`.
- `Numbers`: `str`, `int` and `float` on decimal text.
- `Stats`: memory units, `docker stats` lines and peak figures.
- `Columns`: column detection.
- `Batch`: the attempt loop, the summary row and the row loop.
- `LogConvert`: the log converter.
- `RetryLog`: the retry-log counter.
- `BugPairs`: the fixed-cap runner, and reading its log back with `RetryLog`.
- `RetryAnalyzer`: both Java classes.

The summary row's `attempts_total` is written `attempt + (1 if success else 1)`
and looks like an off-by-one, but it is not one. In both branches it is
`attempt + 1`, and the model proves this equals the number of attempts
recorded in `attempts_meta` (`Batch.Summarize`, `Batch.RunPair`).

## Model

| member | source | states |
|---|---|---|
| Numbers.ParseDecimal | bugswarm-experiment/run_bugswarm.py:47 | `float` accepts text of digits and points exactly when it has at most one point and at least one digit, and then yields a non-negative value |
| Numbers.PyInt | bugswarm-experiment/run_bugswarm.py:135-138 | `int` accepts exactly an optional sign followed by at least one digit; anything else raises (None) |
| Numbers.PyIntOfString | bugswarm-experiment/run_bugswarm.py:136 | reading back the decimal text of any integer gives the integer |
| Numbers.ParseDecimalOfNat | bugswarm-experiment/run_bugswarm.py:47 | `float` of the decimal text of a natural number is that number |
| Numbers.ParseDecimalOfPoint | bugswarm-experiment/run_bugswarm.py:47 | `float` of digits around one point is the number all the digits spell divided by ten to the number of digits after the point ("7.25" is 725 / 100) |
| Stats.MatchQuantity | bugswarm-experiment/run_bugswarm.py:44-46 | a match of the quantity pattern takes a non-empty leading run of digits and points as its number group |
| Stats.SpellingEndings | bugswarm-experiment/run_bugswarm.py:48-59 | each of the eight suffix tests of the converter holds for exactly one unit the pattern can capture, so the tests never overlap |
| Stats.ScaleAsWrittenTable | bugswarm-experiment/run_bugswarm.py:48-59 | as written, kB and KiB are divided by 1024, MB and MiB kept, GB and GiB multiplied by 1024, TB and TiB by 1024·1024, and a plain byte count kept unchanged |
| Stats.ScaleIsMebibytes | bugswarm-experiment/run_bugswarm.py:48-59 | the corrected conversion gives every quantity in mebibytes: value × bytes per unit ÷ 2^20 |
| Stats.ScaleAgreesAsWritten | bugswarm-experiment/run_bugswarm.py:48-59 | the corrected and the as-written conversion agree on every unit with a prefix and differ only on plain bytes |
| Stats.BytesReadAsMegabytes | bugswarm-experiment/run_bugswarm.py:59 | counterexample: 100 bytes come out as 100 megabytes instead of 100/2^20 |
| Stats.ToMbAsWritten | bugswarm-experiment/run_bugswarm.py:42-59 | no match of the pattern gives None; a matched quantity whose number is a decimal literal gives that number converted by the as-written unit table (÷1024 for k, kept for M, ×1024 for G, ×1024² for T, kept for plain bytes); `ValueError` is raised exactly when the number is not a decimal literal |
| Stats.ToMb | bugswarm-experiment/run_bugswarm.py:42-59 | corrected: no match gives None; a matched quantity gives its value in mebibytes when the number is a decimal literal, and raises `ValueError` exactly when it is not |
| Stats.ToMbCorrectedAgrees | bugswarm-experiment/run_bugswarm.py:42-59 | the as-written and the corrected `_to_mb` raise on the same text and give the same value for every quantity with a unit prefix |
| Stats.DecimalLiteralDigits | bugswarm-experiment/run_bugswarm.py:47 | for a number group of the pattern, `float` succeeds exactly on decimal literals |
| Stats.ParseMemStr | bugswarm-experiment/run_bugswarm.py:35-62 | as written: text without exactly one '/' gives (None, None); otherwise the two sides around the '/' rebuild the text, and the result is both sides converted by the as-written `_to_mb`, raising exactly when either conversion raises |
| Stats.ParseMemStrCorrected | bugswarm-experiment/run_bugswarm.py:35-62 | corrected: the same split, with both sides converted to mebibytes by the corrected `_to_mb` |
| Stats.ParseMemStrCorrectedAgrees | bugswarm-experiment/run_bugswarm.py:35-62 | the as-written and the corrected parse raise on the same text, and give the same figures when neither side is written in plain bytes |
| Stats.StripTwice | bugswarm-experiment/run_bugswarm.py:40-43 | stripping again inside `_to_mb` changes nothing |
| Stats.ParseCpuOfPercent | bugswarm-experiment/run_bugswarm.py:64-69 | a percentage printed as digits and '%' reads back as its value |
| Stats.ParseStatsLine | bugswarm-experiment/run_bugswarm.py:76-83 | a failed command, blank output or output without '|' contributes no sample; otherwise the poll yields a sample exactly when `parse_mem_str` of the text after the first '|' does not raise, and raises its exception when it does; a sample's CPU is read from the text before the first '|' and its memory from the text after it |
| Stats.CollectSamplesSound | bugswarm-experiment/run_bugswarm.py:73-84 | every collected sample is the reading of some poll, and nothing from the first raising poll onwards is collected |
| Stats.CollectSamplesAppend | bugswarm-experiment/run_bugswarm.py:73-84 | polls that do not raise contribute their samples in poll order, ahead of the samples of the polls after them |
| Stats.CollectReadings | bugswarm-experiment/run_bugswarm.py:76-83 | when no poll raises, the collection is every poll's sample, in poll order |
| Stats.CollectSamplesComplete | bugswarm-experiment/run_bugswarm.py:73-84 | the collection is exactly the samples of the polls before the first raising poll, in poll order: none of them is dropped |
| Stats.Present | bugswarm-experiment/run_bugswarm.py:160-162 | a value is among the present readings exactly when some reading holds it |
| Stats.MaxOf | bugswarm-experiment/run_bugswarm.py:164-165 | None exactly for no values; otherwise one of the values and at least as large as each |
| Stats.PeakOfPresent | bugswarm-experiment/run_bugswarm.py:160-165 | the maximum of the present readings is a present reading no smaller than any other, or None when there is none |
| Stats.FirstPresent | bugswarm-experiment/run_bugswarm.py:166 | the first present value is the reading at the first index that has one |
| Stats.Aggregate | bugswarm-experiment/run_bugswarm.py:160-167 | peak CPU and peak used memory are the largest present readings, total memory is the first present one, and available memory exists exactly when total and peak used do, as their difference |
| Columns.ChooseColumn | bugswarm-experiment/run_bugswarm.py:29-33 | None exactly when no candidate is a column; otherwise a column that is the first candidate, in candidate order, present among the columns |
| Columns.NamesPresent | bugswarm-experiment/run_bugswarm.py:266 | a name is kept exactly when it is both an accepted name and a column; the kept names keep their order, so choosing among them picks the same column as choosing among all accepted names |
| Columns.FirstLowerMatch | bugswarm-experiment/run_bugswarm.py:275-283 | None exactly when no column's lower-cased name is accepted; otherwise the first such column in column order |
| Columns.ImageColumnFound | bugswarm-experiment/run_bugswarm.py:266-273 | the image column is found exactly when the flag is given or some column matches an accepted name case-insensitively; an exact match wins over a case-insensitive one |
| Columns.DetectColumnsAsWritten | bugswarm-experiment/run_bugswarm.py:266-287 | as written, detection fails exactly when no image column is found, the image column is the one found, and the command and identifier columns are always the auto-detected ones, whatever the flags say |
| Columns.DetectColumns | bugswarm-experiment/run_bugswarm.py:266-287 | corrected: fails exactly when no image column is found, and the image column is the one found; a non-empty `--cmd-col` or `--id-col` is honoured, and without flags it agrees with the as-written detection |
| Columns.IdFlagIgnored | bugswarm-experiment/run_bugswarm.py:280-287 | counterexample: with `--id-col bugswarm_id` and a `pair_id` column, the as-written detection uses `pair_id` and the corrected one uses `bugswarm_id` |
| Batch.ExitCode | bugswarm-experiment/run_bugswarm.py:130-138 | the exit code is the value `docker wait` printed when it succeeded with digits only; otherwise the integer `docker inspect` printed; otherwise -1 |
| Batch.ExitCodeOfWait | bugswarm-experiment/run_bugswarm.py:131-132 | a successful `docker wait` printing a number yields that number |
| Batch.ExitCodeOfInspect | bugswarm-experiment/run_bugswarm.py:133-138 | after a failed `docker wait`, the integer printed by `docker inspect` is the exit code |
| Batch.Record | bugswarm-experiment/run_bugswarm.py:172-181 | an attempt's record carries its own number, the container's exit code, the failure type found in its log, and the peak figures of the samples its sampler collected |
| Batch.RecordReadsPolls | bugswarm-experiment/run_bugswarm.py:73-84 | an attempt's peak figures are taken over the samples of its polls up to the first poll that raises, or of all polls when none does |
| Batch.FailureReason | bugswarm-experiment/run_bugswarm.py:190 | the failure reason is never empty: the failure type when one was found, and otherwise `exit_code_` followed by the exit code in decimal |
| Batch.AttemptsFrom | bugswarm-experiment/run_bugswarm.py:106-213 | the attempts made are consecutively numbered records, at most `max_retries - attempt + 1` of them; every attempt but the last failed and was allowed a retry; the last one succeeded or was refused a retry |
| Batch.SuccessIsLast | bugswarm-experiment/run_bugswarm.py:184-188 | some attempt exited with 0 exactly when the last one did |
| Batch.AttemptRunUnique | bugswarm-experiment/run_bugswarm.py:106-213 | a sequence satisfies the loop's stopping rules exactly when it is the attempts the loop makes |
| Batch.Summarize | bugswarm-experiment/run_bugswarm.py:216-228 | no row exactly when `max_retries` is negative; otherwise `attempts_total` equals the number of recorded attempts, between 1 and `max_retries + 1`; success holds exactly when some attempt exited with 0 and exactly when the failure reason is empty; the figures are the last attempt's |
| Batch.SummarizeRun | bugswarm-experiment/run_bugswarm.py:216-228 | the row of any sequence satisfying the loop's stopping rules is built from that sequence's last attempt |
| Batch.RunPair | bugswarm-experiment/run_bugswarm.py:101-232 | the loop with its `break`, `continue` and counter produces exactly the row `Summarize` describes |
| Batch.AdaptiveIsPrefixOfStatic | bugswarm-experiment/run_bugswarm.py:193-213 | the adaptive policy's attempts are an initial part of the static policy's attempts on the same runs |
| Batch.StaticExhaustsRetries | bugswarm-experiment/run_bugswarm.py:193-196 | under the static policy, runs that all fail use every one of the `max_retries + 1` attempts |
| Batch.SuccessFollowsRuns | bugswarm-experiment/run_bugswarm.py:184-228 | a first attempt exiting with 0 gives one attempt and success; runs that all fail never give success |
| Batch.AttemptsNumbered | bugswarm-experiment/run_bugswarm.py:172-220 | for a pair run against Docker, the recorded attempts carry the numbers 0 to n-1 in order and `attempts_total` is n |
| Batch.Cell | bugswarm-experiment/run_bugswarm.py:91-92 | a cell has a value exactly when a column is given and the row has it, and the value is the row's entry for that column |
| Batch.ShortId | bugswarm-experiment/run_bugswarm.py:91 | the first eight characters of the identifier, or all of them when it is shorter |
| Batch.PairId | bugswarm-experiment/run_bugswarm.py:91 | the identifier column's value when non-empty, else a non-empty `pair_id`, else the short fresh identifier |
| Batch.RunBatch | bugswarm-experiment/run_bugswarm.py:299-304 | one row per table row, in order, each the summary of that row's own identifier, image and runs; no rows at all when `max_retries` is negative |
| LogConvert.Classify | convert_log_to_json.py:49-95 | a finished match wins, then a retry match, then a final-result match, and the line carries that match's groups |
| LogConvert.ClassifyAll | convert_log_to_json.py:47-95 | each line is classified on its own |
| LogConvert.MaxSeen | convert_log_to_json.py:45-68 | the largest attempt count any line reports for the test, or 0 when none does |
| LogConvert.ParseFile | convert_log_to_json.py:42-96 | the pass with its attempts dictionary yields exactly the entries of each matched line in line order |
| LogConvert.ReadLine | convert_log_to_json.py:48-95 | one line's entry is the one its first matching pattern makes (a final result takes the largest count seen on earlier lines), and the stored count for the matched test rises to the reported count while every other test keeps its count |
| LogConvert.MaxSeenMonotone | convert_log_to_json.py:61-68 | the largest attempt count seen for a test never decreases as the file is read |
| LogConvert.ExpectedLineNumbers | convert_log_to_json.py:47-88 | entries carry 1-based line numbers within the file, strictly increasing |
| LogConvert.ExpectedEntries | convert_log_to_json.py:47-95 | each entry is the entry of the line its number names, given the lines before it |
| LogConvert.ExpectedComplete | convert_log_to_json.py:49-95 | every line a pattern matched has an entry |
| LogConvert.EntryKinds | convert_log_to_json.py:51-94 | a finished entry reports its attempt count and duration; a retry entry reports its attempt number and the `retry_notify` type; a final-result entry reports the largest count seen earlier in the file, or 0 |
| LogConvert.Raw | convert_log_to_json.py:52-94 | every parsed entry has a test name and a status, and each of its fields carries over to the dictionary the converter hands on |
| LogConvert.Kept | convert_log_to_json.py:117-124 | no more entries are kept than given, and each kept entry is named |
| LogConvert.KeptKeysDistinct | convert_log_to_json.py:116-124 | no two kept entries share a de-duplication key |
| LogConvert.KeptCovers | convert_log_to_json.py:116-124 | every named entry's key is the key of a kept entry |
| LogConvert.KeysOfKept | convert_log_to_json.py:116-124 | every key among the kept entries belongs to a named input entry |
| LogConvert.KeptInOrder | convert_log_to_json.py:117-124 | kept entries are input entries at strictly increasing positions |
| LogConvert.KeptFirst | convert_log_to_json.py:121-124 | the first named entry with a given key is kept |
| LogConvert.KeptDistinct | convert_log_to_json.py:116-124 | named entries with pairwise different keys are all kept, in order |
| LogConvert.ParsedFileKeptWhole | convert_log_to_json.py:113-124 | normalising one parsed file's entries drops none of them |
| LogConvert.IsoTimestamp | convert_log_to_json.py:126-132 | an absent or empty timestamp stays absent; otherwise the ISO form when `strptime` accepts the text, and the text unchanged when it does not |
| LogConvert.NormalizeEntry | convert_log_to_json.py:133-142 | name, status, source, line and duration carry over; missing retries become 0; the type defaults to `final_or_detected` |
| LogConvert.NormalizeEntries | convert_log_to_json.py:113-142 | the pass with its set of seen keys yields the normalised kept entries, no more than were given |
| RetryLog.MatchAttempt | bugswarm-experiment/analyze_retries.py:20 | a match can only start at a 'P' |
| RetryLog.MatchShape | bugswarm-experiment/analyze_retries.py:20 | every match is "Pair ", a digit run, " \| Attempt ", a digit run, " \| ", the captured non-empty word, and text that does not continue the word |
| RetryLog.SearchSkips | bugswarm-experiment/analyze_retries.py:20 | the search passes over every position at which no report starts |
| RetryLog.FoundAt | bugswarm-experiment/analyze_retries.py:20 | the search finds the report starting at the first position where the pattern matches |
| RetryLog.NotFoundAround | bugswarm-experiment/analyze_retries.py:20 | text whose only 'P' starts no report holds no report |
| RetryLog.NoMatchWithoutP | bugswarm-experiment/analyze_retries.py:20 | text without 'P' holds no report |
| RetryLog.MatchWritten | bugswarm-experiment/analyze_retries.py:20 | "Pair N \| Attempt M \| word" with numeric N and a word ending at a non-word character captures exactly that word |
| RetryLog.MaxRetriesNotMatched | bugswarm-experiment/analyze_retries.py:20 | "Pair N \| MAX RETRIES REACHED" is not an attempt report |
| RetryLog.ReadAt | bugswarm-experiment/analyze_retries.py:18-20 | a line with non-blank ends whose first report starts at p, no report starting before it, reads as that report's word |
| RetryLog.Tally | bugswarm-experiment/analyze_retries.py:17-27 | the loop counts the lines with a report, those saying PASS once upper-cased and those saying FAIL; passes plus fails never exceed the total |
| RetryLog.ParseRetryLog | bugswarm-experiment/analyze_retries.py:7-29 | the counts over stripped lines and the first report on each, with passes plus fails within the total |
| RetryLog.UnmatchedLineIgnored | bugswarm-experiment/analyze_retries.py:20-21 | a line without a report changes none of the counts |
| RetryLog.CountsAppend | bugswarm-experiment/analyze_retries.py:17-27 | the counts of a log are the sums of the counts of its parts |
| RetryLog.PassesAndFailsBounded | bugswarm-experiment/analyze_retries.py:20-28 | passes plus fails never exceed the reports counted |
| RetryLog.SuccessRate | bugswarm-experiment/analyze_retries.py:36 | the rate lies in 0..100; it is 0 exactly without passes and 100 with passes and no fails; otherwise it is passes ÷ (passes + fails) × 100 |
| BugPairs.RunRetryTest | bugswarm-experiment/run_bug_pairs.py:14-33 | the loop with its `break` writes exactly the transcript of attempts 1 to 3 |
| BugPairs.PassesPlusFails | bugswarm-experiment/run_bug_pairs.py:25-29 | every attempt line is either a PASS line or a FAIL line |
| BugPairs.TranscriptAttempts | bugswarm-experiment/run_bug_pairs.py:20-29 | the attempt lines are numbered from the first attempt on, at most three, each carrying its run's verdict and its own timestamp; all but the last fail, and a short run ends on a pass |
| BugPairs.PassIsLast | bugswarm-experiment/run_bug_pairs.py:25-27 | a PASS line is the last line written |
| BugPairs.FailThenError | bugswarm-experiment/run_bug_pairs.py:28-30 | each FAIL line is followed by the Error line of the same attempt, with the same timestamp |
| BugPairs.MaxRetriesLast | bugswarm-experiment/run_bug_pairs.py:31-33 | only the last line can be "MAX RETRIES REACHED"; it is exactly when no later attempt passed, and it carries the third attempt's timestamp |
| BugPairs.MaxRetriesIffAllFailed | bugswarm-experiment/run_bug_pairs.py:27-33 | "MAX RETRIES REACHED" is written exactly when all three attempts fail, and then as the last line |
| BugPairs.TranscriptPasses | bugswarm-experiment/run_bug_pairs.py:21-27 | one PASS line when some attempt passes, none otherwise |
| BugPairs.RenderedStatus | bugswarm-experiment/analyze_retries.py:18-20 | the counter reads back each written line's verdict from an attempt line and nothing from Error or MAX RETRIES lines |
| BugPairs.StatusWrittenSays | bugswarm-experiment/analyze_retries.py:23-27 | the status word written on a line is there exactly for attempt lines; upper-cased it equals "PASS" exactly for passing attempts and "FAIL" exactly for failing ones |
| BugPairs.CountsOfLog | bugswarm-experiment/analyze_retries.py:17-27 | counting written lines gives the numbers of attempt, PASS and FAIL lines |
| BugPairs.TranscriptReadBack | bugswarm-experiment/analyze_retries.py:17-27 | the counter reads a pair's transcript as its attempts, with one pass when some attempt passed and the remaining attempts as fails |
| RetryAnalyzer.Retry | src/main/java/com/retrythesis/retry/RetryAnalyzer.java:11-17 | says yes exactly when `retryCount < 2`; a yes raises the count by one and announces that attempt number; a no leaves the count as it was; the count stays within 0..2 |
| RetryAnalyzer.ReplayFrom | src/test/java/com/retrythesis/tests/RetryAnalyzer.java:31-42 | over successive calls, call i says yes exactly when count + i < 2, each yes announces its attempt number, and a refusal says nothing or logs "failed after 2 attempts" |
| RetryAnalyzer.FreshAnalyzer | src/test/java/com/retrythesis/tests/RetryAnalyzer.java:33-37 | a fresh analyzer says yes to exactly the first min(k, 2) of k calls; the i-th yes announces attempt i, and the count stays within 0..2 |

## Left out

- Docker calls, subprocesses, threads, `time.sleep`, the back-off, file and CSV/JSON writing, and printing are left out. Their results enter as oracle functions: `Batch.Run` per attempt, `BugPairs.Outcome` per run, a clock, and a UUID per row.
- The sampler thread is modelled by its sequence of polls (`Stats.PollOutcomes`). How many polls fit into a container's lifetime is part of the oracle.
- Batch.RunPair: takes the records of every possible attempt (`runs`) rather than calling Docker. `Batch.Records` builds them from per-attempt Docker results, so timing cannot couple attempts.
- The failure-type search (`re.search` for `…Exception` or `…Error` in the container log) is an oracle field of `Batch.Run`.
- The `--cmd-col` override command is left out: it only changes what `docker run` executes, and that is part of the oracle.
- Numbers.ParseDecimal: follows `float` only on unsigned decimal literals. Signs, exponents, `inf`, `nan` and underscores read as rejected. The number group of the memory pattern can hold none of these; a CPU reading with them would be read as None.
- Float arithmetic is modelled as exact real arithmetic. Python's floats are IEEE doubles, so rounding at a threshold boundary can flip an adaptive decision: for "0.1MiB / 0.3MiB" with a memory threshold of 0.2, the program computes 0.19999999999999998 available and does not retry, where the model computes exactly 0.2 and retries.
- Numbers.ParseDecimal: the value of a literal is its exact decimal value (`Numbers.ParseDecimalOfNat`, `Numbers.ParseDecimalOfPoint`), not the nearest double.
- Numbers.PyInt: `int` also accepts underscores between digits and non-ASCII digits; the model rejects both.
- Character classes are ASCII: `\d`, `\w`, `str.isdigit`, `str.lower`, `str.upper` and the case-insensitive match of the unit `[KMGT]?i?B` are modelled on ASCII only. Python's case-insensitive match also takes the Kelvin sign (U+212A) for k and the dotless ı (U+0131) for i; `Stats.UnitAt` does not. `str.isspace` is followed exactly.
- Batch.ExitCode: `str.isdigit` also accepts digits such as '²' that `int` rejects. On such `docker wait` output the program raises outside its `try` and drops the pair's row; the model, seeing no ASCII digits, asks `docker inspect` instead.
- The three converter patterns are not matched character by character. What each finds on a line is an input (`LogConvert.Searches`). `strptime` and `isoformat` are an oracle (`iso`).
- LogConvert.NormalizeEntry: a key present with the value None is modelled as absent. The scripts' own entries never hold such a key except `duration_ms`, which is carried over unchanged.
- The `round(…, 2)` of the success rate and of any averages is left out. RetryLog.SuccessRate states the unrounded rate.
- Pandas column types and NaN are left out; cells are strings.
- Error lines are modelled as one line each. A multi-line `stderr` would add lines to the log that the counter reads separately.
- The header line the fixed-cap runner writes when it starts is left out.
- BugPairs.TranscriptReadBack: assumes numeric pair ids, and timestamps and error text holding no 'P'. Other text could contain a report of its own.
- The Java static block, the logger set-up and the millisecond timestamp in the notice are left out. TestNG's own rerun loop around `retry` is not part of this model.
- RetryAnalyzer.Retry: models `retryCount` as an unbounded integer, which matches Java's `int` because the count never exceeds 2.
- The log-file discovery (`find_log_files`) and the per-file exception handling of `collect_all` are left out.

## Findings

| source | as written | input that shows it | evidently intended | confidence | as-written member | corrected member |
|---|---|---|---|---|---|---|
| bugswarm-experiment/run_bugswarm.py:48-59 | a quantity in plain bytes ("B", "iB") falls through to `return val` and is reported as that many megabytes | "100B / 1GiB" gives 100.0 MB used | convert bytes to megabytes like every other unit (÷ 2^20) | medium, not executed | Stats.BytesReadAsMegabytes | Stats.ToMb |
| bugswarm-experiment/run_bugswarm.py:275-287 | the command and identifier columns are re-detected and overwrite `args.cmd_col` and `args.id_col`, so `--cmd-col` and `--id-col` are never honoured | columns `pair_id, bugswarm_id, image` with `--id-col bugswarm_id` take ids from `pair_id` | an explicit flag wins, as `--image-col` does | high, not executed | Columns.IdFlagIgnored | Columns.DetectColumns |
