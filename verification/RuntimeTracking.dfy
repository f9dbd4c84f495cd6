/**
 backend/app/main.py, `track_printer_runtime`: what one tick of the runtime counter does to a printer's row, and how the
 counted seconds relate to the clock over whole runs.
 */
module RuntimeTracking {

  import opened Options

  /** `runtime_seconds` and `last_runtime_update`. */
  datatype Row = Row(runtime: int, last: Option<real>)

  datatype Sample = NoState | Offline | Connected(gcode: string)

  /** One round at one printer; `saved` is false when the commit fails. */
  datatype Tick = Tick(now: real, sample: Sample, saved: bool)

  predicate Runs(t: Tick) { t.sample == Connected("RUNNING") }

  /** Seconds are truncated; the clock may stand still or go back. */
  function Advance(row: Row, t: Tick): Row {
    if !t.sample.Connected? then row
    else if Runs(t) then
      if row.last.None? then (if t.saved then row.(last := Some(t.now)) else row)
      else
        var elapsed := t.now - row.last.value;
        if elapsed > 0.0 && t.saved then Row(row.runtime + elapsed.Floor, Some(t.now)) else row
    else if row.last.Some? && t.saved then row.(last := None)
    else row
  }

  function Run(row: Row, ticks: seq<Tick>): Row {
    if ticks == [] then row else Advance(Run(row, ticks[..|ticks| - 1]), ticks[|ticks| - 1])
  }

  /** The tick adds to the counter. */
  predicate Adds(row: Row, t: Tick) {
    t.sample == Connected("RUNNING") && t.saved && row.last.Some? && t.now > row.last.value
  }

  function Additions(row: Row, ticks: seq<Tick>): nat {
    if ticks == [] then 0
    else
      var before := ticks[..|ticks| - 1];
      Additions(row, before) + if Adds(Run(row, before), ticks[|ticks| - 1]) then 1 else 0
  }

  /** The printer is seen connected and not running. */
  predicate Interrupts(t: Tick) { t.sample.Connected? && t.sample.gcode != "RUNNING" && t.saved }

  /**
   A stretch that starts at a running tick and is not interrupted: with k additions the counter gains at most the time
   between its first and its last counted tick, and more than that time less k seconds. The clock is arbitrary.
   */
  lemma {:induction false} StretchIsCounted(row: Row, ticks: seq<Tick>)
    requires row.last.Some?
    requires forall t <- ticks :: !Interrupts(t)
    ensures var end := Run(row, ticks);
      var k := Additions(row, ticks) as real;
      end.last.Some?
      && var gained, time := (end.runtime - row.runtime) as real, end.last.value - row.last.value;
      && gained <= time
      && (k > 0.0 ==> gained > time - k)
      && (k == 0.0 ==> end == row)
  {
    if ticks != [] {
      var before := ticks[..|ticks| - 1];
      StretchIsCounted(row, before);
      var mid := Run(row, before);
      var t := ticks[|ticks| - 1];
      assert t in ticks && !Interrupts(t);
      if Adds(mid, t) {
        var elapsed := t.now - mid.last.value;
        assert elapsed - 1.0 < elapsed.Floor as real <= elapsed;
        assert Run(row, ticks).runtime as real == mid.runtime as real + elapsed.Floor as real;
      }
    }
  }

  /** A connected printer that does not run counts nothing, and the next running tick only starts a new stretch. */
  lemma InterruptionRestarts(row: Row, ticks: seq<Tick>, stop: Tick, start: Tick)
    requires Interrupts(stop) && start.sample == Connected("RUNNING") && start.saved
    ensures Run(row, ticks + [stop] + [start]) == Row(Run(row, ticks).runtime, Some(start.now))
  {
    assert (ticks + [stop])[..|ticks|] == ticks;
    assert (ticks + [stop] + [start])[..|ticks| + 1] == ticks + [stop];
    assert Run(row, ticks + [stop]) == Advance(Run(row, ticks), stop);
    assert Run(row, ticks + [stop] + [start]) == Advance(Run(row, ticks + [stop]), start);
  }

  /** Time between two running ticks counts in full even when the printer was offline in between. */
  lemma OfflineTimeIsCounted(row: Row, gap: seq<Tick>, back: Tick)
    requires row.last.Some? && forall t <- gap :: !t.sample.Connected?
    requires back.sample == Connected("RUNNING") && back.saved && back.now > row.last.value
    ensures Run(row, gap + [back]) == Row(row.runtime + (back.now - row.last.value).Floor, Some(back.now))
  {
    GapChangesNothing(row, gap);
    assert (gap + [back])[..|gap|] == gap;
  }

  lemma {:induction false} GapChangesNothing(row: Row, gap: seq<Tick>)
    requires forall t <- gap :: !t.sample.Connected?
    ensures Run(row, gap) == row
  {
    if gap != [] {
      GapChangesNothing(row, gap[..|gap| - 1]);
    }
  }

  predicate Forward(start: real, ticks: seq<Tick>) {
    forall i :: 0 <= i < |ticks| ==> start <= ticks[i].now && forall j :: 0 <= j < i ==> ticks[j].now <= ticks[i].now
  }

  /** Over any run of a clock that does not go back, interrupted or not, no more time is counted than has passed. */
  lemma {:induction false} NeverMoreThanElapsed(row: Row, start: real, ticks: seq<Tick>)
    requires Forward(start, ticks) && row.last == None
    ensures var end := Run(row, ticks);
      var now := if ticks == [] then start else ticks[|ticks| - 1].now;
      && row.runtime <= end.runtime
      && (end.last.Some? ==> start <= end.last.value <= now)
      && (end.runtime - row.runtime) as real <= (if end.last.Some? then end.last.value else now) - start
  {
    if ticks != [] {
      var before := ticks[..|ticks| - 1];
      NeverMoreThanElapsed(row, start, before);
      var mid := Run(row, before);
      var t := ticks[|ticks| - 1];
      assert before != [] ==> before[|before| - 1].now <= t.now;
      if Adds(mid, t) {
        var elapsed := t.now - mid.last.value;
        assert 0.0 <= elapsed.Floor as real <= elapsed;
        assert Run(row, ticks).runtime as real == mid.runtime as real + elapsed.Floor as real;
      }
    }
  }

  /** One round of the loop over all active printers. */
  method TrackAll(rows: array<Row>, samples: seq<Sample>, saved: seq<bool>, now: real)
    requires |samples| == |saved| == rows.Length
    modifies rows
    ensures forall p :: 0 <= p < rows.Length ==> rows[p] == Advance(old(rows[p]), Tick(now, samples[p], saved[p]))
  {
    for p := 0 to rows.Length
      invariant forall q :: 0 <= q < p ==> rows[q] == Advance(old(rows[q]), Tick(now, samples[q], saved[q]))
      invariant forall q :: p <= q < rows.Length ==> rows[q] == old(rows[q])
    {
      if !samples[p].Connected? {
        continue;
      }
      var needsCommit := false;
      var runtime, last := rows[p].runtime, rows[p].last;
      if samples[p].gcode == "RUNNING" {
        if last.Some? {
          var elapsed := now - last.value;
          if elapsed > 0.0 {
            runtime := runtime + elapsed.Floor;
            needsCommit := true;
          }
        } else {
          needsCommit := true;
        }
        last := Some(now);
      } else if last.Some? {
        last := None;
        needsCommit := true;
      }
      if needsCommit && saved[p] {
        rows[p] := Row(runtime, last);
      }
    }
  }
}
