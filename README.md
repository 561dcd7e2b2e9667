# pato and timeouter: invocation building and result recording

pato and timeouter are two small Python scripts. Each runs a command template once
per argument value under a process pool, with a timeout per task. This project models
the deterministic logic around the pool, and proves properties of it:

- **pato** (`pato.py`) takes the template as a list of tokens. A token holding the
  marker `%%%` has every occurrence replaced by the argument. If no token holds the
  marker, the argument is appended as one extra token. After the pool has drained, one
  loop walks `futures` in submission order. For each task up to the first failed one,
  it writes a row to a stats file (`cmd;time;error`); a completed task also adds
  entries to an stdout log and an stderr log, a timed-out task none. A task fails when
  its result is an exception other than a timeout: it could not start, or its output
  was not valid UTF-8 (`.decode("utf-8")` at pato.py:24 raises), and so on. As
  written, a failed task leaves only its quoted invocation in the stderr log and ends
  the loop (see Findings); the model's corrected loop gives it an error entry and a
  row flagged `True`.
- **timeouter** (`timeouter.py`) takes the template as one string. It substitutes the
  marker, or else appends `" " + arg`. A worker splits the resulting string on
  whitespace runs (`re.split(r"\s+", ...)`). After the pool has drained, a task that
  timed out, or completed with stdout, writes its per-argument file
  `../stats/<arg>-baital_strategy<s>-<n>.stats`; a task that completed with empty
  stdout writes nothing, and the loop ends at the first task whose result is an
  exception other than a timeout (it could not start, or its output was not valid
  UTF-8 at timeouter.py:20, and so on).

Modules:

- `Text`: the marker, literal search, left-to-right non-overlapping replacement, and
  `str.join`.
- `Numerals`: `str(int)` and the two-decimal duration, each with a parser that reads
  it back.
- `Execution`: the outcome of one task. `Completed(duration, stdout, stderr)` stands
  for the tuple `execute` returns, `TimedOut` for the pool's `TimeoutError`, and
  `Failed(text)` for any other exception.
- `Pato`, `Timeouter`: one module per script.
- `Agreement`: proves that both scripts build the same command line.

The loops are methods whose invariants tie them to specification functions. The
three pato files are `LogFile` objects, each holding the sequence of strings written
to it. timeouter's files are a `FileSystem` object, a map from path to content.

Three behaviours of the code are worth knowing:

- With no argument values, pato reaches `cmd_final` at pato.py:84 before it is ever
  assigned, and stops with `UnboundLocalError` (`Pato.Schedule` returns that error).
  timeouter schedules nothing.
- For a task whose result is an exception other than a timeout (it could not start,
  or its output was not valid UTF-8, and so on), pato writes the quoted invocation to the stderr
  log and then crashes at pato.py:131 (see Findings); the model's `Pato.Render` is the
  corrected loop, which writes the error text and a stats row flagged `True`.
  timeouter catches only `TimeoutError`, so such a task's exception ends the script
  (`Timeouter.WriteOutputs` returns the crash).
- timeouter binds `output_file` only when the template holds the marker
  (timeouter.py:62). With a marker-free template and at least one argument, it stops
  with `UnboundLocalError` at timeouter.py:70 (`Timeouter.Schedule` returns that
  error). That line comes after `pool.submit` at timeouter.py:67, so the first
  argument's command has already been submitted; the pool's `with` block still closes
  and joins, running it, before the traceback appears. No output file is written.

## Model

| member | source | states |
|---|---|---|
| `Text.ContainsIff` | pato.py:71 | the scan used for `re.search("%%%", part)` is true exactly when the marker occurs at some index, in both directions |
| `Text.ReplaceAll` | pato.py:72 | replacing in a string without an occurrence of the pattern returns it unchanged |
| `Text.ReplaceAllLeavesNoMarker` | timeouter.py:59 | after `re.sub("%%%", arg, s)` with an argument free of '%', no marker is left anywhere: every occurrence was replaced |
| `Text.ReplaceAllAround` | timeouter.py:59 | a match never straddles a separator character absent from the pattern, so replacing in `x + c + y` is replacing in `x` and in `y` separately |
| `Text.ContainsAround` | timeouter.py:58 | the marker occurs in `x + c + y` (c not in the marker) exactly when it occurs in `x` or in `y` |
| `Numerals.NatToString` | timeouter.py:62 | `str(n)` is a non-empty string of decimal digits with no leading zero |
| `Numerals.ParseNatToString` | timeouter.py:62 | reading the digits of `str(n)` gives back `n` |
| `Numerals.IntToString` | timeouter.py:62 | `str(i)` starts with '-' exactly when `i` is negative |
| `Numerals.IntToStringRoundTrip` | timeouter.py:62 | `str(i)` reads back as `i` for every integer |
| `Numerals.OptionalIntToString` | timeouter.py:62 | `str(v)` of an optional integer option is "None" exactly for an absent option, and reads back as `v` |
| `Numerals.FormatCentis` | pato.py:108 | the `:.2f` duration is whole seconds, a point and exactly two digits |
| `Numerals.FormatCentisRoundTrip` | pato.py:108 | the formatted duration reads back as the same number of hundredths |
| `Numerals.FormatCentisHasNoSemicolon` | pato.py:108 | the formatted duration contains no ';', so it cannot break a stats row |
| `Execution.FirstFailure` | timeouter.py:75-111 | the index found is that of a failed outcome with no failed outcome before it; when none is found, no outcome failed |
| `Pato.SubstituteEach` | pato.py:70-75 | each token is processed on its own: the k-th result is the k-th template token with its markers replaced, and the length is kept |
| `Pato.Expand` | pato.py:69-78 | when some token holds the marker, the invocation has the template's length, token i is template[i] with every marker replaced, and nothing is appended; otherwise the argument is the one extra last token; either way marker-free tokens are copied unchanged |
| `Pato.ExpandLeavesNoMarker` | pato.py:69-78 | for an argument free of '%', no token of the invocation still holds a marker, whichever branch was taken |
| `Pato.BuildInvocation` | pato.py:67-78 | the token loop with its `substituted` flag yields the template with markers replaced token by token when some token holds the marker, and otherwise exactly `template + [arg]` |
| `Pato.Schedule` | pato.py:65-86 | exactly one invocation per argument value, in argument order; with no argument values the run ends with `UnboundLocalError` for `cmd_final` |
| `Pato.RenderTask` | pato.py:98-132 | one future writes its stats row, its stdout-log entries and its stderr-log entries, and nothing else; corrected: the failed branch writes `str(e)` |
| `Pato.Render` | pato.py:92-132 | the three files receive the header plus the rows, the stdout log and the stderr log of all futures, walked in submission order; corrected: the failed branch writes `str(e)` and its `;;True` row |
| `Pato.StatsRowsLength` | pato.py:96-132 | corrected loop (the failed branch writes `str(e)` and goes on): there are as many stats rows as futures |
| `Pato.StatsRowsAt` | pato.py:96-132 | corrected loop (the failed branch writes `str(e)` and goes on): the k-th stats row belongs to the k-th future (submission order, not completion order) |
| `Pato.StatsFileShape` | pato.py:94-132 | corrected loop (the failed branch writes `str(e)` and goes on): the stats file is the header `cmd;time;error` followed by exactly one row per task, in `futures` order |
| `Pato.ParseFields` | pato.py:108 | a row `q;t;f` plus the line separator splits back into its three fields when `t` and `f` contain no ';' |
| `Pato.StatsLineReadsBack` | pato.py:99-132 | the stats row `StatsLine` builds (lines 108, 128, 132) reads back as the quoted joined invocation; its duration is the two-decimal duration exactly when the task completed and empty otherwise; its flag is `True` exactly when the task failed |
| `Pato.LogLengths` | pato.py:102-131 | corrected loop (the failed branch writes `str(e)` and goes on): the stdout log holds two entries per completed task and none for the others; the stderr log holds two per task that did not time out |
| `Pato.OutLogEntry` | pato.py:102-103 | corrected loop (the failed branch writes `str(e)` and goes on): a completed task's entries in the stdout log are the quoted invocation line and then stdout verbatim, placed after those of the completed tasks before it |
| `Pato.ErrLogEntry` | pato.py:105-131 | corrected loop (the failed branch writes `str(e)` and goes on): a completed or failed task's entries in the stderr log are the quoted invocation line, then stderr (even when empty) or the error text |
| `Pato.RenderAsWritten` | pato.py:96-132 | as written, the rendering loop ends in a traceback exactly when some task failed; the stats file always starts with the header, and holds one row per task when no task failed |
| `Pato.AsWrittenWithoutFailure` | pato.py:96-128 | as written, the rendering loop produces the same three records as `Pato.Render` when no task failed |
| `Pato.AsWrittenCrashPersists` | pato.py:129-132 | as written, once the loop has crashed, later tasks add nothing to any file |
| `Pato.AsWrittenStopsAtFailure` | pato.py:129-132 | as written, the first failed task k leaves a stats file of the header and k rows: its own `;;True` row and every later row are missing |
| `Pato.MissingExecutableLosesItsRow` | pato.py:129-132 | as written, one task whose executable is missing leaves only the header in the stats file, and only the quoted invocation line in the stderr log |
| `Pato.LogFile.Write` | pato.py:102 | a write appends exactly the string given |
| `Timeouter.Split` | timeouter.py:18 | there is at least one piece, and the first is the leading word, so text starting with whitespace gives an empty first piece |
| `Timeouter.SplitPieces` | timeouter.py:18 | every piece is free of whitespace, and only the first and the last piece can be empty |
| `Timeouter.TrailingEmpty` | timeouter.py:18 | text ending in whitespace gives an empty last piece |
| `Timeouter.SplitCountsRuns` | timeouter.py:18 | the split yields one more piece than there are maximal whitespace runs |
| `Timeouter.SplitJoin` | timeouter.py:18 | whitespace-free words without an empty interior word, joined by single spaces, split back into the same words |
| `Timeouter.JoinSplit` | timeouter.py:18 | text whose whitespace is single spaces is rebuilt by joining its pieces with spaces |
| `Timeouter.JoinSplitCollapses` | timeouter.py:18 | joining the pieces with single spaces gives the text with each whitespace run collapsed to one space, for any whitespace (tabs, repeated spaces); with the pieces free of whitespace this fixes every piece |
| `Timeouter.FinalCommand` | timeouter.py:58-64 | with the marker in `cmd` (and no '%' in the argument) no marker remains in the final command; without it, the final command is `cmd`, one space, and the argument |
| `Timeouter.OutputPath` | timeouter.py:62 | the output path lies under `../stats/` and gives back the argument it was built from |
| `Timeouter.OutputPathOfArg` | timeouter.py:62 | a path that reads back as an argument is exactly that argument's output path |
| `Timeouter.OutputPathInjective` | timeouter.py:62 | two different arguments never get the same path string |
| `Timeouter.Schedule` | timeouter.py:54-70 | with the marker, one submission per argument in argument order, each pairing the final command with the output path; with no arguments nothing is scheduled; a marker-free template with arguments ends with `UnboundLocalError` for `output_file` |
| `Timeouter.FileSystem.Open` | timeouter.py:84 | opening with mode "w+" creates or truncates the file |
| `Timeouter.FileSystem.Write` | timeouter.py:87-90 | a write appends to the open file's content |
| `Timeouter.WriteTask` | timeouter.py:77-111 | one future leaves the file system as the opens and writes of its branch do: "error", stdout plus a newline, "timeout", or no change |
| `Timeouter.FileContent` | timeouter.py:82-110 | a task leaves a file exactly when it timed out or completed with stdout; "timeout" after a timeout; for a completed task "error" exactly when stderr is non-empty, and stdout plus "\n" when it is empty |
| `Timeouter.Outputs` | timeouter.py:75-111 | the result loop never removes a file, and every file it creates is the output file of some scheduled task |
| `Timeouter.WriteOutputs` | timeouter.py:75-111 | the result loop applies the tasks in `futures` order until the first failed one, whose exception escapes and is reported |
| `Timeouter.OutputsUntouched` | timeouter.py:82 | a path whose tasks all completed with empty stdout (or failed) is left exactly as it was |
| `Timeouter.OutputsLastWriter` | timeouter.py:82-110 | a file's final content comes from the last task that wrote it: "timeout" after a timeout, "error" for a completed task with stdout and stderr, stdout plus "\n" for one with stdout only |
| `Timeouter.OutputsStopAtFailure` | timeouter.py:75-111 | no task after the first failed one reaches its output file |
| `Agreement.JoinedHasMarker` | timeouter.py:58 | the joined template holds the marker exactly when one of its tokens does |
| `Agreement.JoinedReplace` | timeouter.py:59 | replacing in the joined template equals replacing in each token and then joining |
| `Agreement.ReplaceKeepsNoSpace` | timeouter.py:18 | replacing with a whitespace-free argument keeps a token whitespace-free |
| `Agreement.JoinAppend` | timeouter.py:64 | joining a list with one more element equals the old join, the separator, and the element |
| `Agreement.SameInvocationSubstituted` | timeouter.py:58-59 | with the marker, splitting timeouter's substituted string gives pato's substituted tokens |
| `Agreement.SameInvocationAppended` | timeouter.py:63-64 | without the marker, splitting `cmd + " " + arg` gives the template tokens plus the argument, as pato appends it |
| `Agreement.SameInvocation` | pato.py:65-82 | both scripts build the same argv: for non-empty whitespace-free tokens and argument, splitting timeouter's final command gives pato's invocation |

## Left out

- The process pool, the child processes and their timeouts are not modelled. This
  covers `subprocess.run`, pebble `ProcessPool` with `max_workers`/`max_tasks`,
  `close`/`join`, and the cancellation itself (pato.py:19-24, 63-89;
  timeouter.py:15-20, 52-73). Each task's outcome is an input value, indexed by
  submission order.
- Clock reading is not modelled: `dt.now()`, `total_seconds()` and float rounding. A
  duration is a number of hundredths of a second, already rounded, and taken as
  non-negative: a clock step or a daylight-saving fall-back during a task, which
  makes the naive local `dt.now()` difference negative (written as e.g. `-0.50`),
  is not modelled.
- `argparse`, `os.getcwd()` and the timestamped log names (pato.py:27-28, 33-54) are
  not modelled. `os.environ` and `os.linesep` are not either; the line separator is a
  parameter.
- Every `print` call (console output) is left out.
- `lfo.writelines(out)` is modelled as one write of `out`. On a string, writelines
  writes it one character at a time, which gives the same file content.
- Files are modelled as the text written to them, before text-mode newline
  translation. On Windows each `\n` written becomes `\r\n`, so pato's rows ending in
  `os.linesep` (`\r\n`) would end in `\r\r\n` on disk, and timeouter's `out + "\n"`
  would gain a `\r`.
- timeouter's file system is a map keyed by path text: there is no path
  normalisation, no links and no case folding. Two different path strings (`a` and
  `./a`, or `A` and `a` on a case-insensitive file system) are two files in the model
  but may be one file on disk, where `Timeouter.OutputsUntouched` and
  `Timeouter.OutputsLastWriter` then need not hold.
- Failures to open or write a file are left out, for example a missing `../stats`
  directory.
- `Pato.BuildInvocation`: stated only for arguments without a backslash when some
  token holds the marker, because `re.sub` processes escapes in its replacement string
  (`\n`, group references) and the model substitutes the text literally. The
  appending branch runs no `re.sub` and has no such guard.
- `Pato.Schedule`: stated only for backslash-free arguments when some token holds the
  marker, as for `Pato.BuildInvocation`.
- `Timeouter.FinalCommand`: stated only for backslash-free arguments when `cmd` holds
  the marker (the `re.sub` branch); `cmd + " " + arg` has no guard.
- `Timeouter.Schedule`: stated only for backslash-free arguments when `cmd` holds the
  marker, as for `Timeouter.FinalCommand`.
- `Agreement.SameInvocation`: stated only for backslash-free arguments when the
  template holds the marker, and for non-empty whitespace-free tokens and argument
  (other tokens do not survive timeouter's whitespace split unchanged).
- Only the literal pattern `%%%` and the `\s+` split are modelled, not general regular
  expressions. `\s` is taken as the set of characters CPython treats as whitespace in
  `str` patterns.

## Findings

| source | as written | input that shows it | evidently intended | confidence | as-written member | corrected member |
|---|---|---|---|---|---|---|
| pato.py:129-132 | `lfe.write(e)` passes the exception object, not text, to a text-mode file. `write` raises `TypeError` inside the `except` handler. The `;;True` stats row is never written, and no later task is rendered. | One task whose executable does not exist, outcome `Failed("[Errno 2] No such file or directory: 'nosuchcmd'")`: the stats file holds only the header (`Pato.MissingExecutableLosesItsRow`; generally `Pato.AsWrittenStopsAtFailure`). | `lfe.write(str(e))`: the error text goes to the stderr log, then the `;;True` row is written, then the loop goes on. | high; not executed | `Pato.RenderAsWritten` | `Pato.Render` (one row per task: `Pato.StatsFileShape`; error text logged: `Pato.ErrLogEntry`) |
