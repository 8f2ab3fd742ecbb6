# hum-temp-pi datalogger — a verified model

hum-temp-pi is a Raspberry Pi datalogger for a DHT22 humidity and temperature
sensor. On start-up `main` checks the `--interval` and `--measures` arguments.
It then calls `measure` once per cycle. `measure` reads the sensor `measures`
times through `read_temp_hum`, which retries after a failed read. It reads the
clock at the middle sample and averages the readings. Finally it appends
`date,time,temperature,humidity` to a file named after the date.

This project models those three pieces in Dafny and proves what they do:

- `config.dfy` (module `Config`): the start-up check, the exit message for each
  rejection, and a corrected check.
- `sensor.dfy` (module `Sensor`): `read_temp_hum`, as written and corrected.
  The DHT22 driver becomes a finite stream of attempts. Each attempt may lack
  the humidity, the temperature or both.
- `measure.dfy` (module `Datalogger`): the sampling loop (`Accumulate`), which
  is proved against a reference function (`Window`). Also `measure` itself
  (`Measure`): division by the window size, rounding, building the record and
  appending it. Both sample through the corrected read. The program as written,
  which cannot unpack the None a retried read returns, is
  `MeasureOutcomeAsWritten`, and `MeasureAsWritten` relates the two.
- `record.dfy` (module `Records`): the log line, how the means are printed to
  one decimal, and a parser. The parser proves that a line reads back as the
  record it came from.
- `logstore.dfy` (module `LogStore`): the output directory, a map from file
  name to file text. Append-mode writes are modelled as a class whose method
  updates the map in place.
- `wrappers.dfy` (module `Wrappers`): `Option`, which stands for Python's `None`.

Values are integers counting tenths of a unit, the DHT22's resolution.
Humidity is in tenths of a percent and temperature in tenths of a degree. The
clock is a function from the loop's iteration number to a `(date, time)` pair.
A stream of attempts that ends before a read returns stands for a read that
never returns in the program. In the model that outcome is `Blocked` or
`Stalled`.

## Model

| member | source | states |
|---|---|---|
| `Config.Message` | src/main.py:94-99 | the exit texts: only the even-window exit is a warning, the interval and sign errors are errors, and the interval message ends with the floor 2 |
| `Config.CheckConfig` | src/main.py:94-99 | starts iff interval > 2, measures is odd and 2·measures < interval; names the rejection in the order the program tests them; an accepted window is never of size 0 |
| `Config.CheckConfigFixed` | src/main.py:94-99 | the corrected check accepts exactly what the written one accepts with measures ≥ 1; accepted windows are odd, non-empty and 2·measures < interval |
| `Config.RejectedExamples` | src/main.py:94-99 | interval 2 is rejected, 10 measures are rejected, 5 measures in 9 s are rejected, 5 measures in 11 s start |
| `Config.DefaultMeasuresNeedInterval` | src/main.py:84-99 | with the default 11 measures the program starts iff interval ≥ 23 |
| `Config.NegativeMeasuresAccepted` | src/main.py:96-98 | every odd negative window passes the written check when interval > 2; the corrected check rejects it |
| `Sensor.ReadTempHum` | src/main.py:40-46 | as written: consumes between 1 and all attempts; returns a reading iff the first attempt is complete, and then that reading after one attempt |
| `Sensor.ReadTempHumFixed` | src/main.py:40-46 | with the retry's result returned: consumes between 1 and all attempts and always returns a reading when it returns |
| `Sensor.FixedReturnsFirstComplete` | src/main.py:41-46 | the corrected read returns the first complete attempt, after consuming only failed attempts before it; it stalls iff every attempt fails |
| `Sensor.AsWrittenLosesRetriedValue` | src/main.py:41-46 | the written and corrected reads retry alike and consume the same attempts; the written one keeps the value only when no retry happened |
| `Sensor.RetryReturnsNone` | src/main.py:42-46 | a failed first attempt followed by a good one makes the written read return None, where the corrected read returns a reading |
| `Sensor.RetryLosesReading` | src/main.py:46 | one failed attempt then (40.0 %, 20.0 °C): the written read returns None after 2 attempts, the corrected read returns the reading |
| `Sensor.FailuresAbsorbed` | src/main.py:41-46 | failed attempts put in front of a stream change only how many attempts the corrected read consumes, not what it returns |
| `Sensor.LeadingComplete` | src/main.py:41-46 | the number of complete attempts at the head of the stream: all before it complete, the one at it failed |
| `Sensor.LeadingCompletes` | src/main.py:41-46 | the leading complete attempts are the first complete ones, and the only ones when everything after them fails |
| `Sensor.ReadConsumesOneComplete` | src/main.py:41-46 | the attempts one corrected read consumes hold exactly one complete attempt, the one returned; a stalled read leaves none |
| `Datalogger.MidIndex` | src/main.py:56 | `int(measures / 2)` truncates toward zero; for measures ≥ 1 the index lies in [0, measures), with as many samples before it as after when measures is odd |
| `Datalogger.Window` | src/main.py:52-59 | the reference for the loop sampling through the corrected read: a timestamp is present iff the window is non-empty |
| `Datalogger.Accumulate` | src/main.py:52-59 | the loop, sampling through the corrected read: its sums are those of the first `measures` complete attempts; the clock is read once, at sample `int(measures / 2)`; a loop of zero or fewer iterations leaves zero sums and no date; too few complete attempts block at sample number equal to their count |
| `Datalogger.RoundTenths` | src/main.py:60-61 | the mean rounded to one decimal: within half a tenth of sum/n, ties to even, exact when n divides the sum |
| `Datalogger.RoundTenthsUnique` | src/main.py:60-61 | no other integer meets the rounding contract, so it defines the rounded mean |
| `Datalogger.OddWindowNeverTies` | src/main.py:60-61 | for every window the check accepts, the mean lies strictly within half a tenth of the logged value, so it is never a tie |
| `Datalogger.MeanWithinReadings` | src/main.py:58-61 | a logged mean lies between the smallest and largest reading of its window |
| `Datalogger.MeasureOutcome` | src/main.py:52-66 | how the corrected `measure` ends: it raises iff the window is empty or negative, never with TypeError, and blocks only at a sample inside the window |
| `Datalogger.Measure` | src/main.py:49-66 | one call of the corrected `measure`: its outcome is `MeasureOutcome`; when it logs, exactly the formatted record is appended to the file named by its date; otherwise the directory is unchanged |
| `Datalogger.MeasureLogsRoundedMeans` | src/main.py:52-66 | the corrected `measure` raises ZeroDivisionError iff measures = 0 and UnboundLocalError iff measures < 0; it blocks iff there are too few complete attempts; it logs iff 1 ≤ measures ≤ the number of complete attempts, and the record then holds the mid-sample clock and the rounded means of the first `measures` complete readings |
| `Datalogger.FailuresDoNotChangeOutcome` | src/main.py:54-66 | failed attempts in front of the sensor stream leave the outcome of the corrected `measure` unchanged (the program as written raises TypeError instead, see `Datalogger.MeasureAsWritten`) |
| `Datalogger.SampleAsWritten` | src/main.py:54-55 | the loop's reads through the read as written: all `measures` readings, or the sample inside the window where a read never returns or returns None |
| `Datalogger.SampleAsWrittenLeading` | src/main.py:41-55 | as written, the samples take one attempt each while attempts are complete; the first sample that meets a failed attempt blocks if nothing complete follows and otherwise gets None |
| `Datalogger.MeasureOutcomeAsWritten` | src/main.py:49-66 | the program's `measure`: ZeroDivisionError iff measures = 0, UnboundLocalError iff measures < 0, TypeError only for a non-empty window, blocking only inside the window |
| `Datalogger.MeasureAsWritten` | src/main.py:46-59 | the program's `measure` raises TypeError at line 55 iff a sample within the window needs a retry that returns; in every other case it ends exactly as the corrected `measure` does |
| `Datalogger.OneFailureRaisesAsWritten` | src/main.py:46-59 | one failed attempt before three good ones: the corrected `measure` logs, the program raises TypeError |
| `Datalogger.ThreeSampleExample` | src/main.py:52-62 | readings (40.0 %, 20.0 °C), (42.0 %, 22.0 °C), (44.0 %, 24.0 °C) log 22.0 and 42.0 with the clock of the second sample |
| `Datalogger.AcceptedNeverDividesByZero` | src/main.py:96-98 | every configuration the written check accepts keeps `measure`, as written and corrected, from dividing by zero |
| `Datalogger.NegativeWindowPassesAndCrashes` | src/main.py:94-99 | an odd negative window with interval > 2 passes the check, and `measure`, as written and corrected, then raises UnboundLocalError building the record |
| `Datalogger.FixedConfigNeverRaises` | src/main.py:94-99 | under the corrected check the corrected `measure` never raises, logs iff the sensor delivers enough complete readings, and its mid index lies inside the window |
| `Records.RenderTenths` | src/main.py:62 | a mean printed to one decimal holds no comma or newline and has at least three characters |
| `Records.Format` | src/main.py:62 | the log line leads with the date it is filed under, then a comma, and ends with a newline |
| `Records.ParseFormat` | src/main.py:62 | a formatted line `date,time,temperature,humidity\n` parses back to the same record when date and time are plain |
| `Records.FormatIsOneLine` | src/main.py:62 | a formatted record holds exactly one newline, and it is the last character |
| `LogStore.Appended` | src/main.py:65-66 | the directory after an append: the named file exists, keeps its old text as a prefix, and every other file keeps its text |
| `LogStore.AppendOnly` | src/main.py:65-66 | an append keeps the file's old text as a prefix and adds exactly the new text; every other file is unchanged; the file exists afterwards |
| `LogStore.AppendRecordAddsOneLine` | src/main.py:62-66 | appending a record adds exactly one line to its date's file, and the added text parses back as the record |
| `LogStore.AppendTwice` | src/main.py:65-66 | two appends to one file equal one append of the joined text |
| `LogStore.LogDirectory.Append` | src/main.py:65-66 | the directory's new map is the old one with the text appended to the named file; other files are unchanged |

## Left out

- The DHT22 driver `read_retry` (src/main.py:27, 41) is not part of this model. It is hardware I/O. Its successive results are an input stream of attempts.
- Each retry's `sleep(2)` (src/main.py:45), the `sleep(interval)` between cycles and the `while True` / `KeyboardInterrupt` loop (src/main.py:104-109) are not modelled. They only add timing and signal handling. `Measure` models one cycle.
- `datetime.now()` and the splitting of its text into date and time (src/main.py:57) are replaced by an injected clock that yields the `(date, time)` pair for each iteration.
- Argument parsing, including argparse supplying the default of 11 measures (the check under that default is `Config.DefaultMeasuresNeedInterval`), `isdir`/`mkdir` (src/main.py:70-93, 100-102) and the console `print` under `--quiet` (src/main.py:63-64) are I/O. They are not modelled. The start-up check receives the parsed integers.
- `Datalogger.RoundTenths`: this works on exact tenths. The program rounds a binary float, so the two can differ where float arithmetic cannot represent a value exactly. Sums of float readings also carry float error that the model does not have. The tie rule, where Python's `round` can differ most visibly (`round(0.35, 1)` gives 0.3), never applies to a window the check accepts. Such a window is odd, and an odd window never averages to an exact half tenth (`Datalogger.OddWindowNeverTies`).
- `Records.RenderTenths`: prints as Python prints a float rounded to one decimal for ordinary magnitudes. It does not produce Python's `-0.0` for a negative mean that rounds to zero. It does not produce exponent notation for magnitudes of 10^16 and above.
- `Datalogger.MidIndex`: uses exact integer division. Python's `measures / 2` goes through a float and loses precision above 2^53.
- `Datalogger.MeasureOutcome`: the outcome of the corrected `measure`, which samples through `Sensor.ReadTempHumFixed`, so TypeError is never among its outcomes. `Datalogger.MeasureAsWritten` relates it to the program's outcome `Datalogger.MeasureOutcomeAsWritten`: the two differ exactly when a sample inside the window needs a retry that returns.
- `Datalogger.Measure`: samples through the corrected `Sensor.ReadTempHumFixed` (see Findings), so TypeError is not among its outcomes. The program as written is `Datalogger.MeasureOutcomeAsWritten`. `Datalogger.MeasureAsWritten` proves it raises TypeError at src/main.py:55 exactly when a sample needs a retry that returns, and agrees with `Measure` otherwise. The in-place append is not modelled for the as-written outcome.
- `Datalogger.Window`: the reference for the corrected loop only; the loop as written is `Datalogger.SampleAsWritten`.
- `Datalogger.Accumulate`: calls the corrected read, so it never meets the None that line 55 fails to unpack; `Datalogger.SampleAsWrittenLeading` states what the loop as written does.
- `Datalogger.MeasureLogsRoundedMeans`: its block and log conditions hold for the corrected `measure`. As written, the same outcomes hold only when no sample in the window needs a retry that returns (`Datalogger.MeasureAsWritten`).
- `Datalogger.FailuresDoNotChangeOutcome`: states the absorption of transient failures that the corrected read gives. In the program as written, one leading failed attempt turns a logged record into TypeError (`Datalogger.OneFailureRaisesAsWritten`). The date and time also agree only because the clock is indexed by sample number. In the program each retry adds `sleep(2)` (src/main.py:45) and the driver's own delays before the `datetime.now()` call at src/main.py:57. So the timestamp moves later, and near midnight the record can be filed under the next day.
- `Datalogger.FixedConfigNeverRaises`: needs the corrected read as well as the corrected check. Under the corrected check the program as written still raises TypeError when `Datalogger.RetriedSampleReturns` holds (`Datalogger.MeasureAsWritten`).
- A read that keeps failing recurses without bound in the program, and CPython eventually raises RecursionError. The model has a finite attempt stream, so such a read ends as `Stalled`/`Blocked` instead. The recursion limit is not modelled.
- The file name is the date alone, joined to the fixed output directory. Directory paths are not modelled. Files are keyed by that name.

## Findings

| source | as written | input that shows it | evidently intended | confidence | as-written member | corrected member |
|---|---|---|---|---|---|---|
| src/main.py:94-99 | the check tests only that measures is odd and that 2·measures < interval, so odd negative windows pass | interval = 3, measures = -1: the check passes; `range(-1)` runs no iteration, `date` is never assigned, and line 62 raises UnboundLocalError | measures must be a positive odd integer | high (not executed) | `Datalogger.NegativeWindowPassesAndCrashes` | `Datalogger.FixedConfigNeverRaises` |
| src/main.py:46 | after a failed attempt the function calls itself but drops that call's result and returns None | first driver call gives (None, None), the second (40.0, 20.0): `read_temp_hum()` returns None and the unpacking at line 55 raises TypeError (`Sensor.RetryLosesReading`; within `measure`, `Datalogger.OneFailureRaisesAsWritten`) | `return read_temp_hum()` | high (not executed) | `Sensor.RetryReturnsNone` | `Sensor.FixedReturnsFirstComplete` |
