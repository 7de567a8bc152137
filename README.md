# laptime recorder, modelled in Dafny

laptime logs lap times sent by an Arduino over a serial line. The Arduino
prints its `millis()` clock, one decimal integer per line. The recorder
writes a CSV log with a header row and then one row per reading: the host's
clock, the reading, the lap time since the previous reading, and that lap
time printed as `minutes:seconds.millis`. A reading of 0 ends the session.
Ctrl-C ends it too. A line that is not an integer, or a reading that would
give a negative lap time, raises a `RuntimeError` after the rows written so
far. The output file is named after a base name and a timestamp.

The project has four modules:

- `Results` (results.dfy) holds the `Option`, `Result` and Python-error
  datatypes.
- `Decimal` (decimal.dfy) holds decimal printing (`'%d'`, `str(int)`) and
  Python's `int()` on a line of bytes: surrounding ASCII whitespace, an
  optional sign, then digits.
- `Misc` (misc.dfy) holds `human_readable` and `generate_filename`.
- `Reader` (reader.dfy) holds `record`.

Some inputs are passed in as parameters:

- `generate_filename` receives the timestamp text that
  `datetime.now().strftime(...)` would produce.
- `record` receives the sequence of events its loop would see. Each event is
  either a line read from the port, paired with the host clock reading taken
  for it, or a Ctrl-C arriving between two lines.

`Reader.Record` is the loop itself, a `while` over the events with its
invariants. It is proved equal to a pass-by-pass specification function,
`Reader.Recorded`. The lemmas characterise that function:

- every session's rows form a log (header, then rows whose lap times chain
  from 0);
- the readings grow and the cursor equals the sum of the lap times;
- each data row stands for one frame;
- the lemmas say which event ended a session and what it leaves behind;
- an ended session reads nothing more.

`human_readable` is proved against an independent parser of its output
(`Misc.ParseDuration`), in both directions.

Each function of the source has one Dafny function that models it:

- `Misc.HumanReadable` models `human_readable` (laptime/misc.py:34-48). It
  prints through `Misc.FormatDuration`, which does the two `divmod` steps
  and the `'{}:{}.{}'` formatting.
- `Misc.GenerateFilename` models `generate_filename` (laptime/misc.py:4-32),
  taking the formatted timestamp as a parameter.
- `Decimal.ParseInt` models `int()` applied to the line read at
  laptime/reader.py:51.
- `Reader.StepOf` models one pass of the loop body (laptime/reader.py:50-67),
  with the `ValueError` handler of lines 68-73.
- `Reader.Replay` models the loop from a given cursor and rows
  (laptime/reader.py:45-73). `Reader.Recorded` starts it after the header
  row, and `Reader.Record` is the imperative loop proved equal to it.

## Model

| member | source | states |
|---|---|---|
| Decimal.DigitsValueOfNatToString | laptime/misc.py:48 | reading back the decimal digits printed for n gives n |
| Decimal.NatToStringOfDigitsValue | laptime/misc.py:48 | every digit string without a leading zero is what is printed for its value, so printing is a bijection onto such strings |
| Decimal.ParseIntOfLine | laptime/reader.py:50-51 | int() of any integer printed in decimal and ended by a newline (what the Arduino sends) gives that integer back |
| Decimal.NoDigitNoInt | laptime/reader.py:51 | int() of a line with no digit fails (the ValueError path) |
| Misc.Components | laptime/misc.py:45-46 | the two divmod steps split m into minutes, seconds < 60 and ms < 1000 that add back up to m |
| Misc.ComponentsUnique | laptime/misc.py:45-46 | that split is the only one with seconds < 60 and ms < 1000 |
| Misc.HumanReadable | laptime/misc.py:34-48 | a string is returned exactly when the value is an int and not negative |
| Misc.HumanReadableErrors | laptime/misc.py:39-43 | a non-int raises TypeError even before the sign is checked, and a negative int raises ValueError, both with the message "millis must be a positive integer" |
| Misc.HumanReadableOk | laptime/misc.py:42-48 | a successful call means the value was non-negative and the text is the formatted duration |
| Misc.HumanReadableFormat | laptime/misc.py:45-48 | the text is minutes, ':', seconds, '.', ms, each printed unpadded in decimal, with minutes = m div 60000, seconds = (m div 1000) mod 60, ms = m mod 1000 |
| Misc.SplitAt | laptime/misc.py:48 | splitting at the first c gives back the text before it (which holds no c), c, and the text after it; there is no split exactly when s holds no c |
| Misc.HumanReadableRoundTrip | laptime/misc.py:34-48 | parsing the text printed for any m >= 0 as minutes:seconds.millis gives m back |
| Misc.ParseDurationRoundTrip | laptime/misc.py:34-48 | every text that parses to m is exactly what is printed for m, so nothing else is ever printed for m |
| Misc.HumanReadableInjective | laptime/misc.py:34-48 | different durations are printed differently |
| Misc.HumanReadableMillis | test.py:67-70 | 124 is printed "0:0.124" |
| Misc.HumanReadableSeconds | test.py:72-75 | 1234 is printed "0:1.234" |
| Misc.HumanReadableMinutes | test.py:77-80 | 5 min 5.657 s is printed "5:5.657" |
| Misc.GenerateFilenameRefusesSlash | laptime/misc.py:28-32 | a name is returned exactly when neither base nor timestamp holds '/', otherwise a ValueError quoting "Invalid filename: " and the assembled name |
| Misc.GenerateFilenameShape | laptime/misc.py:28-32 | every returned name holds no '/', starts with base + "_", ends with ".csv", and has the timestamp in between |
| Misc.DefaultStampAccepted | laptime/misc.py:24-32 | with a timestamp shaped like %Y-%m-%d_%H%M, any base without '/' (the default "track_times" included) yields base_timestamp.csv |
| Misc.SlashStampRefused | test.py:45-51 | a timestamp printed by '%x %X', such as "04/19/16 12:16:47", is refused with ValueError |
| Reader.StepWrites | laptime/reader.py:50-59 | one loop pass writes a row exactly when the line holds a non-zero integer at or above the previous reading, and the row is (clock reading, reading, lap time, printed lap time) |
| Reader.StepWritesEntry | laptime/reader.py:57-59 | a written row's lap time is the reading minus the previous reading, and its text is human_readable of the lap time |
| Reader.ClosedBy | laptime/reader.py:51-55 | a pass that ends the session ends it as a stop exactly on a 0 reading, as an interrupt exactly on Ctrl-C, and as a failure exactly on a line that is no integer or on a non-zero reading below the previous one; the rows are kept as they were |
| Reader.AppendEntry | laptime/reader.py:57-65 | appending a row measured from the cursor keeps the log well formed and moves the cursor to the new reading |
| Reader.Record | laptime/reader.py:39-73 | the loop's result is the specified session, and its rows form a well-formed log |
| Reader.ReplayKeepsLog | laptime/reader.py:45-65 | going on from any well-formed log and matching cursor keeps the log well formed |
| Reader.ReplayAppendsRows | laptime/reader.py:59 | rows are only ever appended, at most one per event, and exactly one per event when the input is used up |
| Reader.RecordedIsLog | laptime/reader.py:39-40 | every session's rows are a well-formed log that starts with the header row |
| Reader.LogEntries | laptime/reader.py:39-40 | in a log, every row after the header is a data row whose lap time is its reading minus the previous one (the first minus 0), is never negative, and is printed by human_readable |
| Reader.LogMonotone | laptime/reader.py:54-59 | in a log the readings are positive and never decrease |
| Reader.CursorIsTotalLaptime | laptime/reader.py:45-65 | the previous reading equals the sum of all lap times written |
| Reader.ReplayAppend | laptime/reader.py:46-67 | running over a + b is running over a, then going on over b from where a left off only if a was used up without the session ending |
| Reader.ReplayFromFrames | laptime/reader.py:50-59 | each row a run writes is, in order, for one event: a line whose integer is its reading, taken at its clock reading |
| Reader.ReplayEnd | laptime/reader.py:54-73 | a run that ends early was ended by the event just after those with a row, judged from the last reading written |
| Reader.SessionRows | laptime/reader.py:39-65 | in every session, row j + 1 is for frame j, and the input is used up exactly when there is one data row per event |
| Reader.SessionEnd | laptime/reader.py:54-73 | a session that ends early was ended by the frame right after the last one with a row |
| Reader.SessionEndedBy | laptime/reader.py:54-73 | how a session ended is decided by that frame: stop iff it reads 0, interrupt iff Ctrl-C, failure iff it is no integer or a non-zero reading below the last one written |
| Reader.EndedIgnoresRest | laptime/reader.py:46-73 | once a session has ended, any further input leaves it unchanged |
| Reader.SentinelStops | laptime/reader.py:54-55 | the first 0 reading stops the session cleanly with no row for it: one data row per earlier frame |
| Reader.BadFrameFails | laptime/reader.py:50-73 | a line that is no integer, or a reading below the previous one, fails the session, keeping the rows already written |
| Reader.InterruptStops | laptime/reader.py:66-67 | Ctrl-C stops the session, keeping the rows already written |
| Reader.GoodFrameAppends | laptime/reader.py:57-65 | a non-zero reading at or above the previous one appends exactly its row |
| Reader.PrintedReadingStep | laptime/reader.py:50-59 | a line holding a positive integer printed in decimal, at or above the previous reading, writes its row |
| Reader.PrintedZeroStep | laptime/reader.py:53-55 | a line "0\n" is the sentinel |
| Reader.TwoRowsThenClose | laptime/reader.py:46-67 | two passes that write rows followed by one that ends give the header, the two rows, and that ending |
| Reader.ExampleSteps | laptime/reader.py:50-59 | the passes over "1000\n", "5000\n" and "0\n" write (1000, 1000, "0:1.0") and (5000, 4000, "0:4.0"), then stop |
| Reader.ExampleSession | laptime/reader.py:39-65 | frames 1000, 5000, 0 give the header, laps of 1000 ms and 4000 ms, and a clean stop |
| Reader.ExampleMalformed | laptime/reader.py:50-73 | a first frame "abc" fails the session with only the header written, whatever follows |

## Left out

- The serial port is not modelled: `is_open`/`open()`, `Serial(...)` construction, baud rate and timeouts, and `readline()` itself. The model receives the lines that `readline()` returns.
- A session whose given events run out ends as `Exhausted`. This is the edge of the model, not an outcome of the source. A real `readline()` that timed out would return an empty line, and `int()` would reject it (the `Failed` path).
- Ctrl-C is modelled only as an event between two lines. An interrupt in the middle of a pass (after `int()`, before `writerow`) is a concurrency effect and is not modelled.
- `datetime.now()` and `strftime` are not modelled: the clock reading is a parameter of each line event, and the filename timestamp is a parameter of `generate_filename`.
- The CSV serialisation performed by `csv.writer` (quoting, `str()` of a datetime, line endings) is not modelled; rows are kept as field values.
- The `verbose` echo to stderr and the two messages printed before the `RuntimeError` are output only and are not modelled.
- The `RuntimeError` is raised `from ValueError` (the class, not the caught instance). The model keeps only the fact of failure and the rows written before it.
- Decimal.ParseInt: `int()` also accepts single underscores between digits (`b'1_000'`); the model rejects them. The Arduino never prints them.
- Misc.HumanReadable: Python's `bool` passes `isinstance(x, int)`; the model has one `Int` case and one `NonInt` case and does not single out booleans.
- The command-line entry point laptime/__main__.py (argument parsing, choosing the port, opening the file) is outside the modelled core.
- laptime_client.py is an older copy of the same functions. Its `generate_filename` has no '/' check, and it is the module test.py imports. The model follows laptime/misc.py, so the test at test.py:45-51 holds for the modelled version.
- tests/test_reader.py imports a `Recorder` class and reads the port a few bytes at a time. laptime/reader.py defines no such class and reads whole lines, so the model follows reader.py, and chunked reassembly is not part of this model.
