# Manas interview bot: identity matching, notified-migration and safety file

A Dafny model of the record-reconciliation core of the Manas interview
automator (`main.py`, `config.py`, `automate/config.py`), with proofs of
what it computes.

- **Identity score** (`Automator.duplicate_score`): 2·ratio(names) +
  3·ratio(registration numbers) + 1 when the two phone cells are equal.
  `difflib.SequenceMatcher(...).ratio()` is a library call; the model takes
  it as a parameter `ratio` and assumes only what difflib documents
  (`Identity.ValidRatio`): the result is in [0, 1], and two equal strings
  give 1, two empty strings included. Symmetry is not assumed.
- **Duplicate scan** (`Automator.__prune_duplicates_df`): for each row n,
  the first earlier row whose score with n is above 0.75·5 = 3.75 is
  recorded and the scan of earlier rows stops. The model returns the list
  `indices`, which the Python method builds and throws away.
- **Notified migration** (`Automator.sync_notified`): every legacy row is
  compared with every schedule row. For each pair scoring above 0.85·6 = 5.1
  the stripped `Notified_<subsystem>` cell goes into the schedule row's
  "Interview Date/Time". "WS Sender" gets "MemberNotifier" when the
  schedule row's sender is blank and the time is non-empty, or when the
  notifier is empty. `count` goes up by one per matching pair. The writes
  are modelled as the ordered list of `update.cell(column, row, value)`
  calls.
- **Safety file** (`SafetyFile` in both config files):
  `num, name = text.strip().split("\n")`, with Python's `str.strip()`
  (the `str.isspace()` characters) and `str.split` written out in `Text`.

Sheet rows are maps from column name to cell text. A missing column is
Python's `KeyError`. The model reports it as an error result naming the
column, found in the order the source reads the cells. The writes issued
before the error are kept.

Notes on the code:
- the notified threshold is 0.85·6 = 5.1 (main.py:98), and a score of exactly
  5.1 writes nothing;
- `sync_notified` writes the time cell whether or not the schedule row already
  has one (main.py:102);
- `duplicate_score` is symmetric only where `ratio` is (`Identity.ScoreSwap`);
- a candidate compared with itself scores 6 even with empty fields, because
  difflib rates two empty strings 1.0;
- both `SafetyFile` classes read the file in text mode, so `f.read()` has
  already turned `"\r\n"` and `"\r"` line ends into `"\n"`; the model's input
  is that text.

Modules: `Wrappers` (Option, Result), `Text` (strip, split), `Safety` (the
shared parse), `RootConfig` (config.py), `AutomateConfig`
(automate/config.py), `Identity` (score), `Prune` (duplicate scan),
`Notified` (sync_notified).

## Model

| member | source | states |
|---|---|---|
| `Text.StripSpec` | config.py:4 | `strip()` returns a substring s[i..j] of its input, with only whitespace before i and after j, and the result neither starts nor ends with whitespace |
| `Text.StripIgnoresOuterSpace` | config.py:4 | whitespace added around the text (for example a trailing newline) does not change what `strip()` returns |
| `Text.StripIdempotent` | config.py:4 | stripping twice gives the same as stripping once |
| `Text.SplitLinesCount` | config.py:5 | `split("\n")` gives one more piece than the text has newlines |
| `Text.SplitLinesNoNewline` | config.py:5 | no piece of `split("\n")` contains a newline |
| `Text.SplitLinesJoin` | config.py:5 | joining the pieces with "\n" gives back the text that was split |
| `Text.SplitLinesOfJoin` | config.py:5 | splitting a + "\n" + b, where a and b have no newline, gives exactly [a, b] |
| `Safety.Parse` | config.py:4-5 | `num, name = text.strip().split("\n")`: the pair of pieces when there are exactly two, otherwise the unpacking error with the number of pieces, which is never 2; its meaning is proved by the lemmas below |
| `Safety.ParseSucceedsIff` | config.py:4-5 | the unpacking succeeds exactly when the stripped text has one newline; otherwise the error names the number of pieces, which is the newline count plus one |
| `Safety.ParseRoundTrip` | config.py:4-5 | on success, num + "\n" + name equals the stripped text, and neither field contains a newline |
| `Safety.ParseFieldsBounded` | automate/config.py:7-8 | on success both fields are non-empty, `num` does not start with whitespace and `name` does not end with whitespace |
| `Safety.ParseIgnoresOuterSpace` | automate/config.py:7 | blank space around the file content does not change the parse result, success or failure |
| `Safety.ParseOfWritten` | config.py:4-5 | a number and a name with no newline, written on two lines with no outer whitespace, parse back to that pair |
| `RootConfig.Load` | config.py:8-10 | `Config()` succeeds exactly when the text read from `./.safety` in text mode holds one newline after stripping; `safety` then holds the two parsed lines; otherwise the unpacking error comes back |
| `RootConfig.LoadHoldsParsedPair` | config.py:10 | `Config().safety` is exactly the `SafetyFile` the parse produces |
| `AutomateConfig.Load` | automate/config.py:11-16 | with the settings text taken undecoded, `Config()` succeeds exactly when the text read from `./safety.txt` holds one newline after stripping; `safety` is then the parsed pair and `records` the settings text; otherwise the unpacking error comes back |
| `AutomateConfig.LoadSafetyFirst` | automate/config.py:12-16 | success, the error and the safety pair do not depend on the settings text; since the model's settings step cannot fail, this does not show the order in which the two files are handled |
| `Identity.IdentifySpec` | main.py:71-76 | a row gives a candidate exactly when it has all three identity columns; otherwise the `KeyError` names a missing column |
| `Identity.RowScoreSpec` | main.py:60-63 | two rows score the weighted sum of their cells when both have the identity columns; otherwise the first missing column in argument order is reported |
| `Identity.Score` | main.py:60-63 | `duplicate_score`: 2·ratio(names) + 3·ratio(registration numbers) + 1 when the phone cells are equal; its bounds, maximum and symmetry are proved by the lemmas below |
| `Identity.ScoreBounds` | main.py:60-63 | with a ratio in [0, 1] the score lies in [0, 6]; equal phones give at least 1, different phones at most 5 |
| `Identity.ScoreSelf` | main.py:61-63 | a candidate compared with itself scores exactly 6 |
| `Identity.ScoreMaximal` | main.py:61-63 | the score is 6 exactly when both ratios are 1 and the phones are equal |
| `Identity.ScoreSwap` | main.py:60-63 | the score is symmetric on the pairs where the ratio is symmetric |
| `Prune.PruneDuplicates` | main.py:65-78 | the nested loops with their `break` return the `indices` of the specification, or the `KeyError` that stopped them |
| `Prune.EarlierMatchFrom` | main.py:70-78 | on rows that all have the identity columns, the inner scan returns the lowest earlier index scoring above 3.75 with row n, or none when no earlier row does, in both directions |
| `Prune.IndicesStepNone` | main.py:68-78 | row n adds no index when no earlier row scores above 3.75 with it |
| `Prune.IndicesStepLowest` | main.py:68-78 | otherwise row n adds exactly the lowest earlier index scoring above 3.75 with it |
| `Prune.IndicesBounds` | main.py:66-78 | the scan succeeds on rows that all have the identity columns; it records at most one index per row after the first (so none for row 0); each index is an earlier duplicate of some later row |
| `Prune.IndicesErrorIsMissingColumn` | main.py:71-76 | a failed scan names a column that one of the rows lacks |
| `Notified.SyncNotified` | main.py:84-108 | the outer loop issues the writes and the count of the specification `Sync`, and stops at the first `KeyError` |
| `Notified.ScanSchedule` | main.py:91-108 | the inner loop over schedule rows for one legacy row issues the writes and count of `RowRun`: per pair no write at a score of at most 5.1, above it the time write and then the sender write under the rule of line 104; a missing column raises after the writes already issued |
| `Notified.Pair` | main.py:92-108 | the inner-loop body for one legacy/schedule pair: nothing at a score of at most 5.1; above it the time write, then the `KeyError` of a missing "WS Sender" or "MemberNotifier" column, or the sender write under the rule of main.py:104 and one more match; proved about by `PairWrites` and `PairIssued` |
| `Notified.PairWrites` | main.py:92-108 | on well-formed sheets one legacy/schedule pair raises nothing; at a score of at most 5.1 it writes nothing and counts nothing; above it, it writes the pair's time cell and, under the rule of line 104, its sender cell, and counts one |
| `Notified.RowRunWrites` | main.py:91-108 | the inner loop for one legacy row of well-formed sheets writes the cells of that row's matching pairs in schedule order and counts them |
| `Notified.SyncWrites` | main.py:88-108 | the whole scan of well-formed sheets raises nothing, writes the cells of every matching pair in (n, m) order and counts the matching pairs |
| `Notified.SyncWritesMatches` | main.py:88-108 | when every row has the columns read: nothing is raised; the "Interview Date/Time" writes are exactly one per matching pair, in loop order, each with the stripped notified time; the "WS Sender" writes are exactly those of matching pairs meeting the sender rule; `count` is the number of matching pairs |
| `Notified.MatchesSpec` | main.py:89-98 | a pair (n, m) is in the match list exactly when both indices are in range and the rows score above 5.1; the list is strictly in (n, m) order |
| `Notified.PairIssued` | main.py:92-105 | for any rows, a write of one pair goes to that pair's schedule row, and only when the rows match; a time write carries the stripped notified time, a sender write the notifier under the rule of main.py:104 |
| `Notified.SyncWritesIssued` | main.py:88-105 | for any sheets, a missing column included, every write the scan issued belongs to some matching legacy row n: a time write carries row n's stripped notified time, a sender write row n's notifier issued under the rule of main.py:104 |
| `Notified.SyncTargets` | main.py:102-105 | every write, even on an error path, goes to the "Interview Date/Time" or "WS Sender" cell of an existing schedule row; legacy rows are never written |
| `Notified.SyncLastTimeWins` | main.py:98-102 | the last time written to schedule row m is the notified time of the last legacy row matching m; a row nothing matches gets no time write |

## Left out

- `difflib.SequenceMatcher.ratio` internals: a library algorithm. It is the parameter `ratio`, constrained only by `ValidRatio`.
- Floating point: scores and thresholds are exact reals (3.75 and 5.1), so the rounding of `0.75 * 5`, `0.85 * 6` and the float ratios is not modelled.
- Loading sheets (`gspread`, `automate/sheets.py`, polars `DataFrame`) and `backup_data`: network and file I/O. Tables arrive as sequences of rows keyed by header name. The column naming that `pl.DataFrame` gives a list of lists is not part of this model.
- `self.schedules.update()` is not defined in any of the modelled files. The model gives the ordered list of cell writes only, not their batching or flushing. The scan reads the schedule rows as loaded; whether a write would be seen by a later read in the same run is not modelled.
- The `print` calls inside `sync_notified` (main.py:101, 107): terminal output.
- The global `config`, bound only under `__main__`: the subsystem name is a parameter of `SyncNotified`.
- Opening the safety and settings files: I/O. The model takes the file text. A missing file (`FileNotFoundError`) is not modelled.
- AutomateConfig.Load: `yaml.safe_load` is not modelled. `records` holds the settings text undecoded, so a malformed `settings.yaml` (a `YAMLError`) or a missing one, which make `Config()` raise, are not failures of the model; success there depends on the safety file alone.
- `Automator.__init__`, the `duplicates` field, the REPL, `print_startup`, `print_help`, and the empty `prune_duplicates`, `sync_appearances`, `sync_all`: UI, I/O or empty bodies.
- WhatsApp sending (`automate.py`, `automate/whatsapp.py`), `phonenumbers` formatting and logging (`automate/log.py`): browser automation, a foreign library and terminal output.
- `KeyError` is modelled by the name of the missing column, not by Python's message text.
- Notified.SyncNotified: the model returns `count`, also when the scan raises; in Python `count` is a local that nothing reads, and `sync_notified` returns `None`.
