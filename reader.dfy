/** laptime/reader.py: the recording session. Frames read from the serial
    port are replayed as a sequence of events; the CSV writer's output is the
    sequence of rows written so far. */
module Reader {
  import opened Results
  import opened Decimal
  import opened Misc

  /** A wall-clock reading as datetime.now() supplies it; the recorder only
      copies it into a row. */
  datatype Timestamp = Timestamp(ticks: int)

  /** What one pass of the recording loop sees: a line returned by readline(),
      with the clock reading the loop takes if it writes a row for it, or the
      user's Ctrl-C. */
  datatype Event = Line(text: string, now: Timestamp) | Interrupt

  /** One row handed to the CSV writer: the header's four column names, or
      the four fields of a lap, in column order. */
  datatype Row =
    | Labels(names: seq<string>)
    | Entry(at: Timestamp, millis: int, laptime: int, human: string)

  const Header: Row := Labels(["Timestamp", "Millis", "Laptime", "Human Readable"])

  /** How a session ends, with every row written to the sink by then:
      at the 0 sentinel, by Ctrl-C, when the replayed input runs out, or by the
      RuntimeError a ValueError is turned into. */
  datatype Session =
    | Stopped(rows: seq<Row>)
    | Interrupted(rows: seq<Row>)
    | Exhausted(rows: seq<Row>)
    | Failed(rows: seq<Row>)

  /** The cursor value a log implies: the reading of its last row when that is
      a lap, 0 otherwise (only the header written). */
  function Cursor(rows: seq<Row>): int {
    if rows == [] || !rows[|rows| - 1].Entry? then 0 else rows[|rows| - 1].millis
  }

  /** A data row as the loop writes it when the cursor stands at previous:
      a non-zero reading, its lap time measured from previous, and that lap
      time as human_readable prints it. */
  predicate IsEntry(previous: int, row: Row) {
    row.Entry? && row.millis != 0 && row.laptime == row.millis - previous
    && HumanReadable(Int(row.laptime)) == Ok(row.human)
  }

  /** The header, then data rows each measured from the one before it
      (the first from 0). */
  predicate IsLog(rows: seq<Row>)
    decreases |rows|
  {
    if |rows| <= 1 then rows == [Header]
    else IsLog(rows[..|rows| - 1]) && IsEntry(Cursor(rows[..|rows| - 1]), rows[|rows| - 1])
  }

  /** The sum of the lap times of the data rows. */
  function TotalLaptime(rows: seq<Row>): int
    decreases |rows|
  {
    if rows == [] then 0
    else TotalLaptime(rows[..|rows| - 1]) + (if rows[|rows| - 1].Entry? then rows[|rows| - 1].laptime else 0)
  }

  /** Why a session ended before its input ran out. */
  datatype Ending = AtSentinel | AtInterrupt | AtError

  /** What one pass of the loop does with an event: write a row and move the
      cursor to its reading, or end the session. */
  datatype Step = Write(row: Row) | End(ending: Ending)

  /** One pass of the loop with the cursor at previous: int() on the line
      (ValueError ends the session), the 0 sentinel, then the row, whose
      human_readable call (ValueError for a negative lap time) comes before
      anything is written. */
  function StepOf(previous: int, event: Event): Step {
    if event.Interrupt? then End(AtInterrupt)
    else
      var parsed := ParseInt(event.text);
      if parsed.None? then End(AtError)
      else if parsed.value == 0 then End(AtSentinel)
      else
        var human := HumanReadable(Int(parsed.value - previous));
        if human.Err? then End(AtError)
        else Write(Entry(event.now, parsed.value, parsed.value - previous, human.value))
  }

  /** A written row is a valid entry measured from the cursor. */
  lemma StepWritesEntry(previous: int, event: Event)
    requires StepOf(previous, event).Write?
    ensures IsEntry(previous, StepOf(previous, event).row)
  {
    var parsed := ParseInt(event.text);
    var human := HumanReadable(Int(parsed.value - previous));
    assert StepOf(previous, event).row == Entry(event.now, parsed.value, parsed.value - previous, human.value);
  }

  /** Appending an entry measured from the cursor keeps a log a log, and
      moves the cursor to the entry's reading. */
  lemma AppendEntry(rows: seq<Row>, row: Row)
    requires IsLog(rows) && IsEntry(Cursor(rows), row)
    ensures IsLog(rows + [row]) && Cursor(rows + [row]) == row.millis
  {
    assert (rows + [row])[..|rows|] == rows;
  }

  /** A pass moves on exactly when the line holds a non-zero integer at or
      above the cursor. */
  lemma StepWrites(previous: int, event: Event)
    ensures StepOf(previous, event).Write? <==>
      event.Line? && ParseInt(event.text).Some?
      && ParseInt(event.text).value != 0 && ParseInt(event.text).value >= previous
    ensures StepOf(previous, event).Write? ==>
      var entry := ParseInt(event.text).value;
      StepOf(previous, event).row == Entry(event.now, entry, entry - previous, FormatDuration(entry - previous))
  {
  }

  function Close(ending: Ending, rows: seq<Row>): Session {
    match ending
    case AtSentinel => Stopped(rows)
    case AtInterrupt => Interrupted(rows)
    case AtError => Failed(rows)
  }

  /** The session from the loop's current state on: the rest of the input,
      the cursor and the rows written so far. */
  function Replay(events: seq<Event>, previous: int, rows: seq<Row>): Session
    decreases |events|
  {
    if events == [] then Exhausted(rows)
    else
      var step := StepOf(previous, events[0]);
      if step.End? then Close(step.ending, rows)
      else Replay(events[1..], step.row.millis, rows + [step.row])
  }

  /** record(...) on a given input: the header first, the cursor at 0. */
  function Recorded(events: seq<Event>): Session {
    Replay(events, 0, [Header])
  }

  /** A pass that writes a row leaves the rest to the next pass. */
  lemma WriteThenReplay(events: seq<Event>, previous: int, rows: seq<Row>, row: Row)
    requires events != [] && StepOf(previous, events[0]) == Write(row)
    ensures Replay(events, previous, rows) == Replay(events[1..], row.millis, rows + [row])
  {
  }

  /** A pass that ends the session closes it with the rows written so far. */
  lemma EndThenClose(events: seq<Event>, previous: int, rows: seq<Row>, ending: Ending)
    requires events != [] && StepOf(previous, events[0]) == End(ending)
    ensures Replay(events, previous, rows) == Close(ending, rows)
  {
  }

  /** The same pass seen at position i of the input, as the loop sees it. */
  lemma ReplayStep(events: seq<Event>, i: nat, previous: int, rows: seq<Row>)
    requires i < |events|
    ensures var step := StepOf(previous, events[i]);
      Replay(events[i..], previous, rows)
      == if step.End? then Close(step.ending, rows)
         else Replay(events[i + 1..], step.row.millis, rows + [step.row])
  {
    var tail := events[i..];
    assert tail[0] == events[i] && tail[1..] == events[i + 1..];
    var step := StepOf(previous, events[i]);
    if step.End? {
      EndThenClose(tail, previous, rows, step.ending);
    } else {
      WriteThenReplay(tail, previous, rows, step.row);
    }
  }

  /** record(serial_connection, fp): writes the header, then one row per
      non-zero reading, until the sentinel, Ctrl-C, or a ValueError. */
  method Record(events: seq<Event>) returns (session: Session)
    ensures session == Recorded(events)
    ensures IsLog(session.rows)
  {
    var rows := [Header];
    var previous := 0;
    var i := 0;
    while i < |events|
      invariant i <= |events|
      invariant IsLog(rows) && previous == Cursor(rows)
      invariant Replay(events[i..], previous, rows) == Recorded(events)
    {
      var event := events[i];
      ReplayStep(events, i, previous, rows);
      if event.Interrupt? {
        return Interrupted(rows);
      }
      var parsed := ParseInt(event.text);
      if parsed.None? {
        return Failed(rows);
      }
      var entry := parsed.value;
      if entry == 0 {
        return Stopped(rows);
      }
      var duration := entry - previous;
      var human := HumanReadable(Int(duration));
      if human.Err? {
        return Failed(rows);
      }
      var row := Entry(event.now, entry, duration, human.value);
      assert StepOf(previous, event) == Write(row);
      StepWritesEntry(previous, event);
      AppendEntry(rows, row);
      rows := rows + [row];
      previous := entry;
      i := i + 1;
    }
    session := Exhausted(rows);
  }

  /** Replaying from a consistent state keeps the log consistent. */
  lemma {:induction false} ReplayKeepsLog(events: seq<Event>, previous: int, rows: seq<Row>)
    requires IsLog(rows) && previous == Cursor(rows)
    ensures IsLog(Replay(events, previous, rows).rows)
    decreases |events|
  {
    if events != [] {
      var step := StepOf(previous, events[0]);
      if step.Write? {
        StepWritesEntry(previous, events[0]);
        AppendEntry(rows, step.row);
        ReplayKeepsLog(events[1..], step.row.millis, rows + [step.row]);
      }
    }
  }

  /** Replaying only ever appends rows, one per event consumed, all of them
      when the input runs out: a row is never rewritten or taken back. */
  lemma {:induction false} ReplayAppendsRows(events: seq<Event>, previous: int, rows: seq<Row>)
    ensures var out := Replay(events, previous, rows).rows;
      rows <= out && |out| <= |rows| + |events|
    ensures Replay(events, previous, rows).Exhausted? ==> |Replay(events, previous, rows).rows| == |rows| + |events|
    decreases |events|
  {
    if events != [] {
      var step := StepOf(previous, events[0]);
      if step.Write? {
        ReplayAppendsRows(events[1..], step.row.millis, rows + [step.row]);
      }
    }
  }

  /** Every session's rows form a log: the header, then data rows. */
  lemma RecordedIsLog(events: seq<Event>)
    ensures IsLog(Recorded(events).rows)
    ensures Recorded(events).rows[0] == Header
  {
    ReplayKeepsLog(events, 0, [Header]);
    ReplayAppendsRows(events, 0, [Header]);
  }

  /** The header is the first row and every later row is a data row whose lap
      time is its reading minus the previous row's (0 for the first), never
      negative, and printed by human_readable. */
  lemma {:induction false} LogEntries(rows: seq<Row>)
    requires IsLog(rows)
    ensures rows[0] == Header
    ensures forall i :: 1 <= i < |rows| ==> rows[i].Entry?
    ensures forall i :: 1 <= i < |rows| ==>
      IsEntry(if i == 1 then 0 else rows[i - 1].millis, rows[i]) && rows[i].laptime >= 0
    decreases |rows|
  {
    if |rows| > 1 {
      var front := rows[..|rows| - 1];
      LogEntries(front);
      assert forall i :: 0 <= i < |front| ==> front[i] == rows[i];
    }
  }

  /** In every log the readings are positive and never decrease. */
  lemma {:induction false} LogMonotone(rows: seq<Row>)
    requires IsLog(rows)
    ensures forall i :: 1 <= i < |rows| ==> rows[i].Entry?
    ensures forall i, j :: 1 <= i <= j < |rows| ==> 0 < rows[i].millis <= rows[j].millis
    decreases |rows|
  {
    if |rows| > 1 {
      var n := |rows| - 1;
      var front := rows[..n];
      LogMonotone(front);
      assert IsEntry(Cursor(front), rows[n]);
      assert n == 1 ==> front == [Header];
      forall i, j | 1 <= i <= j < |rows|
        ensures 0 < rows[i].millis <= rows[j].millis
      {
        if j < n {
          assert front[i] == rows[i] && front[j] == rows[j];
        } else if i < n {
          assert front[i] == rows[i] && front[n - 1] == rows[n - 1];
        }
      }
    }
  }

  /** The cursor equals the sum of all lap times written so far. */
  lemma {:induction false} CursorIsTotalLaptime(rows: seq<Row>)
    requires IsLog(rows)
    ensures Cursor(rows) == TotalLaptime(rows)
    decreases |rows|
  {
    if |rows| > 1 {
      CursorIsTotalLaptime(rows[..|rows| - 1]);
    }
  }

  /** Running over a + b is running over a, then, only if a was used up
      without the session ending, going on over b from where a left off. So a
      session that has ended never consumes another frame. */
  lemma {:induction false} ReplayAppend(a: seq<Event>, b: seq<Event>, previous: int, rows: seq<Row>)
    requires previous == Cursor(rows)
    ensures var s := Replay(a, previous, rows);
      Replay(a + b, previous, rows) == if s.Exhausted? then Replay(b, Cursor(s.rows), s.rows) else s
    decreases |a|
  {
    if a == [] {
      assert a + b == b;
    } else {
      assert (a + b)[0] == a[0];
      assert (a + b)[1..] == a[1..] + b;
      var step := StepOf(previous, a[0]);
      if step.Write? {
        assert Cursor(rows + [step.row]) == step.row.millis;
        ReplayAppend(a[1..], b, step.row.millis, rows + [step.row]);
      }
    }
  }

  /** Rows base .. |rows| - 1 stand, in order, for the first events: row
      base + j is a data row written for event j, a line whose integer is that
      row's reading, taken at that row's clock reading. */
  predicate FromFrames(events: seq<Event>, rows: seq<Row>, base: nat) {
    base <= |rows| <= base + |events|
    && forall j :: base <= j < |rows| ==>
         rows[j].Entry? && events[j - base].Line?
         && ParseInt(events[j - base].text) == Some(rows[j].millis)
         && rows[j].at == events[j - base].now
  }

  /** A row for the first event in front of rows for the rest. */
  lemma FromFramesCons(events: seq<Event>, rows: seq<Row>, row: Row, out: seq<Row>)
    requires events != [] && events[0].Line? && row.Entry?
    requires ParseInt(events[0].text) == Some(row.millis) && row.at == events[0].now
    requires rows + [row] <= out && FromFrames(events[1..], out, |rows| + 1)
    ensures FromFrames(events, out, |rows|)
  {
    assert out[|rows|] == (rows + [row])[|rows|];
    assert forall i :: 0 <= i < |events| - 1 ==> events[1..][i] == events[i + 1];
  }

  /** Every row a replay writes stands for the event it consumed. */
  lemma {:induction false} ReplayFromFrames(events: seq<Event>, previous: int, rows: seq<Row>)
    ensures FromFrames(events, Replay(events, previous, rows).rows, |rows|)
    decreases |events|
  {
    if events != [] {
      var step := StepOf(previous, events[0]);
      if step.Write? {
        var row := step.row;
        StepWrites(previous, events[0]);
        ReplayFromFrames(events[1..], row.millis, rows + [row]);
        ReplayAppendsRows(events[1..], row.millis, rows + [row]);
        FromFramesCons(events, rows, row, Replay(events[1..], row.millis, rows + [row]).rows);
      }
    }
  }

  /** A replay that did not use up its input was ended by the event right
      after the ones it wrote rows for, seen from the last row's cursor. */
  lemma {:induction false} ReplayEnd(events: seq<Event>, previous: int, rows: seq<Row>)
    requires previous == Cursor(rows)
    ensures var s := Replay(events, previous, rows);
      var k := |s.rows| - |rows|;
      !s.Exhausted? ==>
        0 <= k < |events| && StepOf(Cursor(s.rows), events[k]).End?
        && s == Close(StepOf(Cursor(s.rows), events[k]).ending, s.rows)
    decreases |events|
  {
    if events != [] {
      var step := StepOf(previous, events[0]);
      if step.Write? {
        var row := step.row;
        assert Cursor(rows + [row]) == row.millis;
        ReplayEnd(events[1..], row.millis, rows + [row]);
        var s := Replay(events, previous, rows);
        if !s.Exhausted? {
          var k := |s.rows| - |rows|;
          assert events[k] == events[1..][k - 1];
        }
      }
    }
  }

  /** Each data row of a session stands for one frame, in order, and the
      input is used up exactly when there is one row per event. */
  lemma SessionRows(events: seq<Event>)
    ensures 1 <= |Recorded(events).rows| && Recorded(events).rows[0] == Header
    ensures FromFrames(events, Recorded(events).rows, 1)
    ensures Recorded(events).Exhausted? <==> |Recorded(events).rows| == |events| + 1
  {
    RecordedIsLog(events);
    ReplayFromFrames(events, 0, [Header]);
    ReplayAppendsRows(events, 0, [Header]);
    ReplayEnd(events, 0, [Header]);
  }

  /** What a session closed by one pass looks like, by the event that closed
      it: Ctrl-C; a 0 reading; or a ValueError, from int() on a line that is
      not an integer or from human_readable on a reading below the cursor. */
  lemma ClosedBy(previous: int, event: Event, rows: seq<Row>, s: Session)
    requires StepOf(previous, event).End? && s == Close(StepOf(previous, event).ending, rows)
    ensures s.rows == rows && !s.Exhausted?
    ensures s.Interrupted? <==> event == Interrupt
    ensures s.Stopped? <==> event.Line? && ParseInt(event.text) == Some(0)
    ensures s.Failed? <==>
      event.Line? && (ParseInt(event.text).None?
        || (ParseInt(event.text).value != 0 && ParseInt(event.text).value < previous))
  {
  }

  /** How a recording session ends, for any input: the event after those with
      a row is the one that ended it, seen from the last reading written. */
  lemma SessionEnd(events: seq<Event>)
    ensures var s := Recorded(events);
      var k := |s.rows| - 1;
      !s.Exhausted? ==>
        0 <= k < |events| && StepOf(Cursor(s.rows), events[k]).End?
        && s == Close(StepOf(Cursor(s.rows), events[k]).ending, s.rows)
  {
    ReplayEnd(events, 0, [Header]);
  }

  /** The first frame that does not write a row decides how the session
      ended. On a clean stop it is a frame reading 0, with one data row per
      earlier frame; on Ctrl-C the interrupt; on a failure a line that is no
      integer, or one whose reading lies below the last one written. */
  lemma SessionEndedBy(events: seq<Event>, k: nat)
    requires !Recorded(events).Exhausted? && k == |Recorded(events).rows| - 1
    ensures k < |events|
    ensures Recorded(events).Interrupted? <==> events[k] == Interrupt
    ensures Recorded(events).Stopped? <==> events[k].Line? && ParseInt(events[k].text) == Some(0)
    ensures Recorded(events).Failed? <==>
      events[k].Line? && (ParseInt(events[k].text).None?
        || (ParseInt(events[k].text).value != 0
            && ParseInt(events[k].text).value < Cursor(Recorded(events).rows)))
  {
    var s := Recorded(events);
    SessionEnd(events);
    ClosedBy(Cursor(s.rows), events[k], s.rows, s);
  }

  /** Once a session has ended, whatever follows in the input does not
      change it. */
  lemma EndedIgnoresRest(events: seq<Event>, rest: seq<Event>)
    requires !Recorded(events).Exhausted?
    ensures Recorded(events + rest) == Recorded(events)
  {
    ReplayAppend(events, rest, 0, [Header]);
  }

  /** The first frame reading 0, after frames that were all recorded, ends the
      session cleanly with no row for it: one data row per earlier frame. */
  lemma SentinelStops(events: seq<Event>, k: nat)
    requires k < |events| && Recorded(events[..k]).Exhausted?
    requires events[k].Line? && ParseInt(events[k].text) == Some(0)
    ensures Recorded(events) == Stopped(Recorded(events[..k]).rows)
    ensures |Recorded(events).rows| == k + 1
  {
    ReplayAppendsRows(events[..k], 0, [Header]);
    assert events == events[..k] + events[k..];
    ReplayAppend(events[..k], events[k..], 0, [Header]);
  }

  /** A frame that is not an integer, or whose reading lies below the cursor
      (a negative lap time, refused by human_readable), fails the session and
      leaves the rows written before it unchanged. */
  lemma BadFrameFails(events: seq<Event>, k: nat)
    requires k < |events| && Recorded(events[..k]).Exhausted? && events[k].Line?
    requires var parsed := ParseInt(events[k].text);
      parsed.None? || (parsed.value != 0 && parsed.value < Cursor(Recorded(events[..k]).rows))
    ensures Recorded(events) == Failed(Recorded(events[..k]).rows)
  {
    assert events == events[..k] + events[k..];
    ReplayAppend(events[..k], events[k..], 0, [Header]);
  }

  /** Ctrl-C ends the session cleanly, keeping the rows already written. */
  lemma InterruptStops(events: seq<Event>, k: nat)
    requires k < |events| && Recorded(events[..k]).Exhausted? && events[k] == Interrupt
    ensures Recorded(events) == Interrupted(Recorded(events[..k]).rows)
  {
    assert events == events[..k] + events[k..];
    ReplayAppend(events[..k], events[k..], 0, [Header]);
  }

  /** A non-zero reading at or above the cursor appends exactly one row:
      the clock reading, the value, its lap time and that lap time printed. */
  lemma GoodFrameAppends(events: seq<Event>, k: nat)
    requires k < |events| && Recorded(events[..k]).Exhausted? && events[k].Line?
    requires var parsed := ParseInt(events[k].text);
      parsed.Some? && parsed.value != 0 && parsed.value >= Cursor(Recorded(events[..k]).rows)
    ensures var rows := Recorded(events[..k]).rows;
      var entry := ParseInt(events[k].text).value;
      var lap := entry - Cursor(rows);
      Recorded(events[..k + 1]) == Exhausted(rows + [Entry(events[k].now, entry, lap, FormatDuration(lap))])
  {
    assert events[..k + 1] == events[..k] + [events[k]];
    ReplayAppend(events[..k], [events[k]], 0, [Header]);
  }

  /** A line holding a positive integer at or above the cursor, printed in
      decimal and ended by a newline, writes its row. */
  lemma PrintedReadingStep(previous: int, entry: int, now: Timestamp)
    requires 0 < entry && previous <= entry
    ensures StepOf(previous, Line(IntToString(entry) + "\n", now))
         == Write(Entry(now, entry, entry - previous, FormatDuration(entry - previous)))
  {
    ParseIntOfLine(entry);
    StepWrites(previous, Line(IntToString(entry) + "\n", now));
  }

  /** A line holding 0 is the sentinel. */
  lemma PrintedZeroStep(previous: int, now: Timestamp)
    ensures StepOf(previous, Line("0\n", now)) == End(AtSentinel)
  {
    ParseIntOfLine(0);
    assert IntToString(0) + "\n" == "0\n";
  }

  /** Three passes: two rows written, then the session closed. */
  lemma TwoRowsThenClose(e1: Event, e2: Event, e3: Event, r1: Row, r2: Row, ending: Ending)
    requires StepOf(0, e1) == Write(r1) && StepOf(r1.millis, e2) == Write(r2)
    requires StepOf(r2.millis, e3) == End(ending)
    ensures Recorded([e1, e2, e3]) == Close(ending, [Header, r1, r2])
  {
    var events := [e1, e2, e3];
    WriteThenReplay(events, 0, [Header], r1);
    assert events[1..] == [e2, e3];
    WriteThenReplay(events[1..], r1.millis, [Header, r1], r2);
    assert events[1..][1..] == [e3];
    EndThenClose(events[1..][1..], r2.millis, [Header, r1, r2], ending);
  }

  /** Frames 1000, 5000 and 0: the header, laps of 1000 ms and 4000 ms, and a
      clean stop with no row for the 0. */
  lemma ExampleSession(t1: Timestamp, t2: Timestamp, t3: Timestamp)
    ensures Recorded([Line("1000\n", t1), Line("5000\n", t2), Line("0\n", t3)])
         == Stopped([Header, Entry(t1, 1000, 1000, "0:1.0"), Entry(t2, 5000, 4000, "0:4.0")])
  {
    ExampleSteps(t1, t2, t3);
    TwoRowsThenClose(Line("1000\n", t1), Line("5000\n", t2), Line("0\n", t3),
      Entry(t1, 1000, 1000, "0:1.0"), Entry(t2, 5000, 4000, "0:4.0"), AtSentinel);
  }

  /** The three passes of the example session. */
  lemma ExampleSteps(t1: Timestamp, t2: Timestamp, t3: Timestamp)
    ensures StepOf(0, Line("1000\n", t1)) == Write(Entry(t1, 1000, 1000, "0:1.0"))
    ensures StepOf(1000, Line("5000\n", t2)) == Write(Entry(t2, 5000, 4000, "0:4.0"))
    ensures StepOf(5000, Line("0\n", t3)) == End(AtSentinel)
  {
    assert IntToString(1000) + "\n" == "1000\n" && IntToString(5000) + "\n" == "5000\n";
    PrintedReadingStep(0, 1000, t1);
    PrintedReadingStep(1000, 5000, t2);
    PrintedZeroStep(5000, t3);
    ExampleLaps();
  }

  /** The printed lap times of the example session. */
  lemma ExampleLaps()
    ensures FormatDuration(1000) == "0:1.0" && FormatDuration(4000) == "0:4.0"
  {
    HumanReadableFormat(1000);
    HumanReadableFormat(4000);
    assert NatToString(0) == "0" && NatToString(1) == "1" && NatToString(4) == "4";
    assert "0" + ":" + "1" + "." + "0" == "0:1.0";
    assert "0" + ":" + "4" + "." + "0" == "0:4.0";
  }

  /** A frame "abc" fails the session at once: only the header was written,
      and nothing after it is read. */
  lemma ExampleMalformed(t: Timestamp, rest: seq<Event>)
    ensures Recorded([Line("abc", t)] + rest) == Failed([Header])
  {
    NoDigitNoInt("abc");
    ReplayStep([Line("abc", t)] + rest, 0, 0, [Header]);
    assert ([Line("abc", t)] + rest)[0..] == [Line("abc", t)] + rest;
  }
}
