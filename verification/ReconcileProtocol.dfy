/**
 backend/app/main.py, reconciliation of stale `printing` archives after a reconnect, for one printer: the connected edge
 of `on_printer_status_change`, the deferred task, `reconcile_stale_active_prints` and the entry gate and end of
 `on_print_complete`.

 A step is the code between two awaits. `printer_manager.get_status` hands out the client's one live state object, so
 the state that reconciliation re-reads after its query keeps changing under the loop that follows.
 */
module ReconcileProtocol {
  import Text

  /** The live printer state. */
  datatype Live = Live(connected: bool, gcode: string, subtaskId: string, subtaskName: string)

  datatype Archive = Archive(id: int, subtaskId: string, filename: string, printName: string)

  // ---------------------------------------------------------------- the two judgements

  function Upper(s: string): string { Text.UpperAll(s) }

  /** White space in the sense of `str.strip`. */
  predicate Space(c: char) {
    '\t' <= c <= '\r' || '\U{1C}' <= c <= ' ' || c == '\U{85}' || c == '\U{A0}' || c == '\U{1680}'
    || '\U{2000}' <= c <= '\U{200A}' || c == '\U{2028}' || c == '\U{2029}' || c == '\U{202F}' || c == '\U{205F}'
    || c == '\U{3000}'
  }

  function Strip(s: string): string
    decreases |s|
  {
    if s == "" then s
    else if Space(s[0]) then Strip(s[1..])
    else if Space(s[|s| - 1]) then Strip(s[..|s| - 1])
    else s
  }

  const TERMINAL := ["IDLE", "FINISH", "FAILED"]
  const PRINTING := ["RUNNING", "PAUSE", "PREPARE", "SLICING"]

  predicate Known(live: Live) { Upper(live.gcode) !in ["", "UNKNOWN"] }

  /** Nothing ties the running print to the archive any more. */
  predicate Unrelated(archive: Archive, live: Live) {
    || (archive.subtaskId != "" && Strip(live.subtaskId) != "" && archive.subtaskId != Strip(live.subtaskId))
    || Strip(live.subtaskName) == ""
  }

  /** `_is_active_archive_stale` */
  predicate Stale(archive: Archive, live: Live) {
    Known(live) && (Upper(live.gcode) in TERMINAL || Unrelated(archive, live))
  }

  /** `_is_printer_actively_printing` */
  predicate ActivelyPrinting(live: Live) { live.connected && Upper(live.gcode) in PRINTING }

  /** The loop finds the archive stale and its synthetic completion passes the entry gate. */
  predicate Finalises(archive: Archive, live: Live) { Stale(archive, live) && !ActivelyPrinting(live) }

  // ---------------------------------------------------------------- the world of one printer

  /** Where a reconcile task waits. `Completing` is inside the synthetic `on_print_complete` of `archive`. */
  datatype Point = Spawned | Querying | Completing(archive: Archive, rest: seq<Archive>)

  datatype Task = Task(deferred: bool, point: Point)

  datatype Finalisation = Finalisation(archive: Archive, live: Live, atReread: bool)

  /**
   What has happened: whether an active first state still has its reconciliation coming, and the synthetic completions
   that passed the gate.
   */
  datatype History = History(owed: bool, finalised: seq<Finalisation>)

  datatype World = World(live: Live, handled: bool, pending: bool, tasks: map<nat, Task>, next: nat, history: History)

  datatype Event =
    | Pushed(live: Live)
    | StatusCallback
    | Begins(task: nat)
    | Queried(task: nat, active: seq<Archive>)
    | QueryFails(task: nat)
    | SyntheticEnds(task: nat, raised: bool)
    | RealCompletionEnds

  const START := World(Live(false, "unknown", "", ""), false, false, map[], 0, History(false, []))

  function Spawn(w: World, deferred: bool): World {
    w.(tasks := w.tasks[w.next := Task(deferred, Spawned)], next := w.next + 1)
  }

  /** `_schedule_pending_stale_reconciliation` */
  function SchedulePending(w: World): World {
    if w.pending then Spawn(w.(pending := false), true) else w
  }

  /** The connected edge. */
  function Status(w: World): World {
    if w.live.connected && Known(w.live) && !w.handled then
      var v := w.(handled := true);
      if ActivelyPrinting(v.live) then v.(pending := true, history := v.history.(owed := true))
      else if v.pending then SchedulePending(v)
      else Spawn(v, false)
    else if !w.live.connected && w.handled then w.(handled := false)
    else w
  }

  /** The end of a task; a deferred one re-arms in its `finally` unless the printer is connected and not printing. */
  function End(w: World, t: nat): World
    requires t in w.tasks
  {
    var v := w.(tasks := w.tasks - {t});
    if !w.tasks[t].deferred then v
    else if !w.live.connected || ActivelyPrinting(w.live) then v.(pending := true)
    else v.(history := v.history.(owed := false))
  }

  function FirstFinalised(live: Live, todo: seq<Archive>): (i: nat)
    ensures i <= |todo|
    ensures i < |todo| ==> Finalises(todo[i], live)
    ensures forall j :: 0 <= j < i ==> !Finalises(todo[j], live)
  {
    if todo == [] || Finalises(todo[0], live) then 0 else 1 + FirstFinalised(live, todo[1..])
  }

  /** The loop from one suspension inside a synthetic completion to the next, or to the end of the task. */
  function Loop(w: World, t: nat, todo: seq<Archive>, atReread: bool): World
    requires t in w.tasks
  {
    var i := FirstFinalised(w.live, todo);
    if i == |todo| then End(w, t)
    else
      w.(tasks := w.tasks[t := w.tasks[t].(point := Completing(todo[i], todo[i + 1..]))],
         history := w.history.(finalised := w.history.finalised + [Finalisation(todo[i], w.live, atReread)]))
  }

  function Step(w: World, e: Event): World {
    match e
    case Pushed(live) => w.(live := live)
    case StatusCallback => Status(w)
    case Begins(t) =>
      if t !in w.tasks || w.tasks[t].point != Spawned then w
      else if !w.live.connected then End(w, t)
      else w.(tasks := w.tasks[t := w.tasks[t].(point := Querying)])
    case Queried(t, active) =>
      if t !in w.tasks || w.tasks[t].point != Querying then w
      else if active == [] || !w.live.connected || ActivelyPrinting(w.live) then End(w, t)
      else Loop(w, t, active, true)
    case QueryFails(t) =>
      if t !in w.tasks || w.tasks[t].point != Querying then w else End(w, t)
    case SyntheticEnds(t, raised) =>
      if t !in w.tasks || !w.tasks[t].point.Completing? then w
      else Loop(if raised then w else SchedulePending(w), t, w.tasks[t].point.rest, false)
    case RealCompletionEnds => SchedulePending(w)
  }

  function Run(w: World, events: seq<Event>): World
    decreases |events|
  {
    if events == [] then w else Run(Step(w, events[0]), events[1..])
  }

  // ---------------------------------------------------------------- the invariant of every run

  predicate DeferredInFlight(w: World) { exists t :: t in w.tasks && w.tasks[t].deferred }

  ghost predicate Inv(w: World) {
    && (forall t :: t in w.tasks ==> t < w.next)
    && (w.history.owed ==> w.pending || DeferredInFlight(w))
    && (forall f <- w.history.finalised :: Finalises(f.archive, f.live) && (f.atReread ==> f.live.connected))
  }

  lemma EndKeepsInv(w: World, t: nat)
    requires Inv(w) && t in w.tasks
    ensures Inv(End(w, t))
  {
    var v := End(w, t);
    if v.history.owed && !v.pending {
      var u :| u in w.tasks && w.tasks[u].deferred;
      assert u != t;
      assert u in v.tasks && v.tasks[u].deferred;
    }
  }

  lemma ScheduleKeepsInv(w: World)
    requires Inv(w)
    ensures Inv(SchedulePending(w))
  {
    var v := SchedulePending(w);
    assert w.pending ==> w.next in v.tasks && v.tasks[w.next].deferred;
  }

  lemma LoopKeepsInv(w: World, t: nat, todo: seq<Archive>, atReread: bool)
    requires Inv(w) && t in w.tasks && (atReread ==> w.live.connected)
    ensures Inv(Loop(w, t, todo, atReread))
  {
    hide Finalises;
    var v := Loop(w, t, todo, atReread);
    var i := FirstFinalised(w.live, todo);
    if i == |todo| {
      EndKeepsInv(w, t);
    } else if w.history.owed && !w.pending {
      var u :| u in w.tasks && w.tasks[u].deferred;
      assert u in v.tasks && v.tasks[u].deferred;
    }
  }

  lemma StatusKeepsInv(w: World)
    requires Inv(w)
    ensures Inv(Status(w))
  {
    hide Known, ActivelyPrinting, Finalises;
    var v := Status(w);
    if w.history.owed && !w.pending {
      var u :| u in w.tasks && w.tasks[u].deferred;
      assert u in v.tasks && v.tasks[u].deferred;
    }
    assert v.next == w.next + 1 ==> w.next in v.tasks;
  }

  lemma StepKeepsInv(w: World, e: Event)
    requires Inv(w)
    ensures Inv(Step(w, e))
  {
    hide End, Loop, SchedulePending, Status, Finalises;
    match e
    case Pushed(_) => assert DeferredInFlight(w) ==> DeferredInFlight(Step(w, e));
    case StatusCallback => StatusKeepsInv(w);
    case Begins(t) =>
      if t in w.tasks && w.tasks[t].point == Spawned {
        EndKeepsInv(w, t);
        MoveKeepsInv(w, t);
      }
    case Queried(t, active) =>
      if t in w.tasks && w.tasks[t].point == Querying {
        EndKeepsInv(w, t);
        if w.live.connected { LoopKeepsInv(w, t, active, true); }
      }
    case QueryFails(t) => if t in w.tasks { EndKeepsInv(w, t); }
    case SyntheticEnds(t, raised) =>
      if t in w.tasks && w.tasks[t].point.Completing? {
        ScheduleKeepsInv(w);
        ScheduleKeepsTasks(w, t);
        LoopKeepsInv(if raised then w else SchedulePending(w), t, w.tasks[t].point.rest, false);
      }
    case RealCompletionEnds => ScheduleKeepsInv(w);
  }

  lemma MoveKeepsInv(w: World, t: nat)
    requires Inv(w) && t in w.tasks
    ensures Inv(w.(tasks := w.tasks[t := w.tasks[t].(point := Querying)]))
  {
    hide Finalises;
    var v := w.(tasks := w.tasks[t := w.tasks[t].(point := Querying)]);
    if w.history.owed && !w.pending {
      var u :| u in w.tasks && w.tasks[u].deferred;
      assert u in v.tasks && v.tasks[u].deferred;
    }
  }

  lemma ScheduleKeepsTasks(w: World, t: nat)
    requires Inv(w) && t in w.tasks
    ensures t in SchedulePending(w).tasks && SchedulePending(w).tasks[t] == w.tasks[t]
  {
  }

  lemma {:induction false} RunKeepsInv(w: World, events: seq<Event>)
    requires Inv(w)
    ensures Inv(Run(w, events))
    decreases |events|
  {
    hide Step, Inv;
    if events != [] {
      StepKeepsInv(w, events[0]);
      RunKeepsInv(Step(w, events[0]), events[1..]);
    }
  }

  /**
   Over every run: each synthetic completion that passed the gate passed it while no print was active, with its archive
   judged stale by that very state; and an owed reconciliation is pending or in flight.
   */
  lemma RunsAreSafe(events: seq<Event>)
    ensures var w := Run(START, events);
      && (forall f <- w.history.finalised ::
            && (f.live.connected ==> Upper(f.live.gcode) !in ["RUNNING", "PAUSE", "PREPARE", "SLICING"])
            && Upper(f.live.gcode) !in ["", "UNKNOWN"] && Stale(f.archive, f.live))
      && (w.history.owed ==> w.pending || DeferredInFlight(w))
  {
    RunKeepsInv(START, events);
  }

  /** Whatever led to the step: a task that enters a synthetic completion in it does so from a stale, inactive state. */
  lemma SyntheticEntersOnlyWhileIdle(w: World, e: Event, t: nat)
    ensures var next := Step(w, e).tasks;
      t in next && next[t].point.Completing? && (t in w.tasks ==> w.tasks[t].point != next[t].point) ==>
        && Stale(next[t].point.archive, w.live) && !ActivelyPrinting(w.live)
        && t in w.tasks && !e.Pushed? && !e.StatusCallback?
  {
    hide Known, Stale, ActivelyPrinting, Loop, FirstFinalised;
    if e.Queried? && e.task in w.tasks {
      if t in Loop(w, e.task, e.active, true).tasks { LoopEnters(w, e.task, e.active, true, t); }
    } else if e.SyntheticEnds? && e.task in w.tasks && w.tasks[e.task].point.Completing? {
      var v := if e.raised then w else SchedulePending(w);
      if e.task in v.tasks && t in Loop(v, e.task, w.tasks[e.task].point.rest, false).tasks {
        LoopEnters(v, e.task, w.tasks[e.task].point.rest, false, t);
      }
    }
  }

  lemma LoopEnters(w: World, u: nat, todo: seq<Archive>, atReread: bool, t: nat)
    requires u in w.tasks && t in Loop(w, u, todo, atReread).tasks
    ensures var v := Loop(w, u, todo, atReread);
      && t in w.tasks && (t != u ==> v.tasks[t] == w.tasks[t])
      && (t == u ==> v.tasks[t].point.Completing? && Finalises(v.tasks[t].point.archive, w.live))
  {
    hide Finalises, ActivelyPrinting;
  }

  // ---------------------------------------------------------------- one edge per connection

  /** The status callback takes the connected-edge branch. */
  predicate EdgeFires(w: World, e: Event) {
    e.StatusCallback? && w.live.connected && Known(w.live) && !w.handled
  }

  predicate SeesDisconnect(w: World, e: Event) { e.StatusCallback? && !w.live.connected }

  /** No status callback of the run sees the printer disconnected. */
  predicate NoDisconnectSeen(w: World, events: seq<Event>)
    decreases |events|
  {
    events == [] || (!SeesDisconnect(w, events[0]) && NoDisconnectSeen(Step(w, events[0]), events[1..]))
  }

  lemma HandledStays(w: World, e: Event)
    requires w.handled && !SeesDisconnect(w, e)
    ensures Step(w, e).handled
  {
    hide FirstFinalised, Known, ActivelyPrinting;
  }

  lemma {:induction false} HandledStaysInRuns(w: World, events: seq<Event>)
    requires w.handled && NoDisconnectSeen(w, events)
    ensures Run(w, events).handled
    decreases |events|
  {
    hide Step, SeesDisconnect;
    if events != [] {
      HandledStays(w, events[0]);
      HandledStaysInRuns(Step(w, events[0]), events[1..]);
    }
  }

  /** After an edge branch no other one fires before a status callback has seen the printer disconnected. */
  lemma EdgeFiresOncePerConnection(w: World, first: Event, later: seq<Event>, e: Event)
    requires EdgeFires(w, first) && NoDisconnectSeen(Step(w, first), later)
    ensures !EdgeFires(Run(Step(w, first), later), e)
  {
    HandledStaysInRuns(Step(w, first), later);
  }

  // ---------------------------------------------------------------- nothing deferred is dropped

  /** A task leaves through one of reconciliation's own guards: disconnected, or a print is active after the query. */
  predicate GuardExit(w: World, e: Event) {
    || (e.Begins? && e.task in w.tasks && w.tasks[e.task].point == Spawned && !w.live.connected)
    || (e.Queried? && e.task in w.tasks && w.tasks[e.task].point == Querying && e.active != []
        && (!w.live.connected || ActivelyPrinting(w.live)))
  }

  /** A guard exit re-arms in the same step exactly for deferred tasks; the task of a terminal first state just ends. */
  lemma GuardExitRearms(w: World, e: Event)
    requires GuardExit(w, e)
    ensures e.task !in Step(w, e).tasks
    ensures Step(w, e).pending <==> w.pending || w.tasks[e.task].deferred
    ensures Step(w, e).history.finalised == w.history.finalised
  {
  }

  /**
   A query that fails ends the task like one that finds nothing: a deferred one re-arms unless the printer is connected
   and not printing, and nothing is finalised.
   */
  lemma FailedQueryEnds(w: World, t: nat)
    requires t in w.tasks && w.tasks[t].point == Querying
    ensures var v := Step(w, QueryFails(t));
      && v == Step(w, Queried(t, [])) && v.tasks == w.tasks - {t} && v.history.finalised == w.history.finalised
      && v.pending == (w.pending || (w.tasks[t].deferred
          && (!w.live.connected || Upper(w.live.gcode) in ["RUNNING", "PAUSE", "PREPARE", "SLICING"])))
  {
    hide Upper;
  }

  /** A deferred task ends in this step, at a moment when the printer is connected and not printing. */
  predicate SafeEnd(w: World, e: Event) {
    && w.live.connected && !ActivelyPrinting(w.live)
    && exists t :: t in w.tasks && w.tasks[t].deferred && t !in Step(w, e).tasks
  }

  predicate SafelyEnded(w: World, events: seq<Event>)
    decreases |events|
  {
    events != [] && (SafeEnd(w, events[0]) || SafelyEnded(Step(w, events[0]), events[1..]))
  }

  lemma OwedEndsOnlySafely(w: World, e: Event)
    requires Inv(w) && w.history.owed
    ensures Step(w, e).history.owed || SafeEnd(w, e)
  {
    hide FirstFinalised, Finalises, Known;
    if !Step(w, e).history.owed {
      assert e.task in w.tasks && w.tasks[e.task].deferred && e.task !in Step(w, e).tasks;
    }
  }

  lemma {:induction false} OwedUntilSafelyEnded(w: World, events: seq<Event>)
    requires Inv(w) && w.history.owed
    ensures Run(w, events).history.owed || SafelyEnded(w, events)
    decreases |events|
  {
    hide Step, Inv, SafeEnd;
    if events != [] {
      OwedEndsOnlySafely(w, events[0]);
      StepKeepsInv(w, events[0]);
      if !SafeEnd(w, events[0]) {
        OwedUntilSafelyEnded(Step(w, events[0]), events[1..]);
      }
    }
  }

  /**
   After a connection whose first real state was active, whatever happens: the printer is pending, or a deferred task is
   in flight, or one has since ended while the printer was connected and not printing.
   */
  lemma DeferredReconciliationIsNotDropped(before: seq<Event>, later: seq<Event>)
    requires var w := Run(START, before);
      w.live.connected && !w.handled && Upper(w.live.gcode) in ["RUNNING", "PAUSE", "PREPARE", "SLICING"]
    ensures var v := Step(Run(START, before), StatusCallback);
      Run(v, later).pending || DeferredInFlight(Run(v, later)) || SafelyEnded(v, later)
  {
    RunKeepsInv(START, before);
    StepKeepsInv(Run(START, before), StatusCallback);
    var v := Step(Run(START, before), StatusCallback);
    OwedUntilSafelyEnded(v, later);
    RunKeepsInv(v, later);
  }

  /** Once an edge is handled with nothing pending and no task left, nothing happens until a disconnect is seen. */
  predicate Quiet(w: World) { w.handled && !w.pending && w.tasks == map[] }

  lemma {:induction false} QuietUntilNextReconnect(w: World, events: seq<Event>)
    requires Quiet(w) && NoDisconnectSeen(w, events)
    ensures Quiet(Run(w, events)) && Run(w, events).history == w.history
    decreases |events|
  {
    hide Known, ActivelyPrinting;
    if events != [] {
      QuietUntilNextReconnect(Step(w, events[0]), events[1..]);
    }
  }

  /**
   A print that starts while the task of a terminal first state queries the database: the stale archive is left for the
   next reconnect, the completion of that print does not retry it.
   */
  lemma BareTaskIsNotRetried(archive: Archive, later: seq<Event>)
    requires NoDisconnectSeen(Run(START, LostRace(archive)), later)
    ensures Run(Run(START, LostRace(archive)), later).history.finalised == []
  {
    var idle, busy := Live(true, "IDLE", "", ""), Live(true, "RUNNING", "9", "cube");
    UpperNames();
    var w1 := Step(START, Pushed(idle));
    var w2 := Step(w1, StatusCallback);
    var w3 := Step(w2, Begins(0));
    var w4 := Step(w3, Pushed(busy));
    var w5 := Step(w4, Queried(0, [archive]));
    assert w2.tasks == map[0 := Task(false, Spawned)];
    assert w3.tasks == map[0 := Task(false, Querying)];
    assert w5.tasks == map[];
    RunFive(START, Pushed(idle), StatusCallback, Begins(0), Pushed(busy), Queried(0, [archive]));
    QuietUntilNextReconnect(w5, later);
  }

  function LostRace(archive: Archive): seq<Event> {
    [Pushed(Live(true, "IDLE", "", "")), StatusCallback, Begins(0), Pushed(Live(true, "RUNNING", "9", "cube")),
     Queried(0, [archive])]
  }

  lemma RunCons(w: World, e: Event, rest: seq<Event>)
    ensures Run(w, [e] + rest) == Run(Step(w, e), rest)
  {
    hide Step;
    assert ([e] + rest)[1..] == rest;
  }

  lemma RunThree(w: World, a: Event, b: Event, c: Event, rest: seq<Event>)
    ensures Run(w, [a, b, c] + rest) == Run(Step(Step(Step(w, a), b), c), rest)
  {
    hide Step, Run;
    assert [a, b, c] + rest == [a] + ([b] + ([c] + rest));
    RunCons(w, a, [b] + ([c] + rest));
    RunCons(Step(w, a), b, [c] + rest);
    RunCons(Step(Step(w, a), b), c, rest);
  }

  lemma RunFive(w: World, a: Event, b: Event, c: Event, d: Event, e: Event)
    ensures Run(w, [a, b, c, d, e]) == Step(Step(Step(Step(Step(w, a), b), c), d), e)
  {
    hide Step;
    assert [a, b, c, d, e] == [a, b, c] + [d, e] && [d, e] == [d] + [e] && [e] == [e] + [];
    RunThree(w, a, b, c, [d, e]);
    var v := Step(Step(Step(w, a), b), c);
    RunCons(v, d, [e]);
    RunCons(Step(v, d), e, []);
  }

  lemma UpperNames()
    ensures Upper("IDLE") == "IDLE" && Upper("RUNNING") == "RUNNING" && Upper("unknown") == "UNKNOWN"
    ensures Upper("idle") == "IDLE" && Upper("finish") == "FINISH" && Upper("Failed") == "FAILED"
    ensures Upper("pause") == "PAUSE" && Upper("prepare") == "PREPARE" && Upper("Slicing") == "SLICING"
  {
  }

  predicate Padding(s: string) { forall c <- s :: Space(c) }

  /** White space around an id or a name does not count. */
  lemma {:induction false} PaddingIsStripped(left: string, core: string, right: string)
    requires Padding(left) && Padding(right)
    requires core != "" ==> !Space(core[0]) && !Space(core[|core| - 1])
    ensures Strip(left + core + right) == core
    decreases |left| + |right|
  {
    var s := left + core + right;
    if left != "" {
      assert s[0] == left[0] && s[1..] == left[1..] + core + right;
      assert left[0] in left && forall c <- left[1..] :: c in left;
      PaddingIsStripped(left[1..], core, right);
    } else if right != "" {
      var n := |right| - 1;
      assert right[n] in right && forall c <- right[..n] :: c in right;
      assert s == core + right && s[..|s| - 1] == left + core + right[..n] && s[|s| - 1] == right[n];
      PaddingIsStripped(left, core, right[..n]);
      BlankPrefix(s);
    } else {
      assert s == core;
    }
  }

  /** Which end is trimmed first does not matter. */
  lemma {:induction false} BlankPrefix(s: string)
    requires s != "" && Space(s[|s| - 1])
    ensures Strip(s) == Strip(s[..|s| - 1])
    decreases |s|
  {
    if Space(s[0]) && |s| > 1 {
      assert s[1..][..|s| - 2] == s[..|s| - 1][1..];
      BlankPrefix(s[1..]);
    }
  }

  // ---------------------------------------------------------------- from which states archives are finalised

  /**
   Exactly when an archive is finalised: in IDLE, FINISH or FAILED; or in another real state, unless a connected printer
   is printing or about to, when the live submission id is another one or the printer names no print.
   */
  lemma FinalisesExactlyWhen(archive: Archive, live: Live)
    ensures var state, id := Upper(live.gcode), Strip(live.subtaskId);
      Finalises(archive, live) <==>
        || state in ["IDLE", "FINISH", "FAILED"]
        || (state !in ["", "UNKNOWN"]
            && !(live.connected && state in ["RUNNING", "PAUSE", "PREPARE", "SLICING"])
            && ((archive.subtaskId != "" && id != "" && id != archive.subtaskId) || Strip(live.subtaskName) == ""))
  {
    assert "" !in TERMINAL && "UNKNOWN" !in TERMINAL;
    assert forall name <- PRINTING :: name !in TERMINAL;
    hide Upper, Strip;
  }

  /**
   Over every run: an archive finalised in the very step of the re-read, from a state the code names, is finalised from
   IDLE, FINISH or FAILED; later ones too, unless the printer had disconnected in between.
   */
  lemma FinalisedFromTerminalStates(events: seq<Event>, f: Finalisation)
    requires f in Run(START, events).history.finalised
    requires Upper(f.live.gcode) in
               ["", "UNKNOWN", "IDLE", "FINISH", "FAILED", "RUNNING", "PAUSE", "PREPARE", "SLICING"]
    ensures f.atReread || f.live.connected ==> Upper(f.live.gcode) in ["IDLE", "FINISH", "FAILED"]
  {
    RunKeepsInv(START, events);
    FinalisesExactlyWhen(f.archive, f.live);
  }

  /**
   What the first real state of a connection does: a print under way leaves the reconciliation pending, any other state
   starts it at once, as the deferred task if one is pending. Every other callback only notices a disconnect.
   */
  lemma FirstStateDecides(w: World)
    ensures var v := Step(w, StatusCallback);
      if w.live.connected && !w.handled && Upper(w.live.gcode) !in ["", "UNKNOWN"] then
        && v.handled && v.live == w.live && v.history.finalised == w.history.finalised
        && if Upper(w.live.gcode) in ["RUNNING", "PAUSE", "PREPARE", "SLICING"] then v.pending && v.tasks == w.tasks
           else !v.pending && v.tasks == w.tasks[w.next := Task(w.pending, Spawned)]
      else v == w.(handled := w.handled && w.live.connected)
  {
    hide Upper;
  }

  /**
   The disconnect in between does happen: while the first synthetic completion is at work a print starts and the
   connection drops; the loop does not look at the connection again and finalises the second archive from RUNNING.
   */
  lemma LaterArchiveFinalisedOffline(one: Archive, other: Archive)
    requires other.subtaskId == "7"
    ensures exists events :: var finalised := Run(START, events).history.finalised;
      && |finalised| == 2 && finalised[1].archive == other
      && Upper(finalised[1].live.gcode) == "RUNNING" && !finalised[1].live.connected
  {
    var idle, gone := Live(true, "IDLE", "", ""), Live(false, "RUNNING", "9", "cube");
    var events := [Pushed(idle), StatusCallback, Begins(0), Queried(0, [one, other]), Pushed(gone)];
    UpperNames();
    assert Strip("9") == "9";
    var w2 := Step(Step(START, Pushed(idle)), StatusCallback);
    assert w2.tasks == map[0 := Task(false, Spawned)];
    var w3 := Step(w2, Begins(0));
    assert w3.tasks == map[0 := Task(false, Querying)];
    var w4 := Step(w3, Queried(0, [one, other]));
    assert Finalises(one, idle);
    assert [one, other][1..] == [other];
    assert w4.tasks == map[0 := Task(false, Completing(one, [other]))];
    var w5 := Step(w4, Pushed(gone));
    assert Finalises(other, gone);
    var w6 := Step(w5, SyntheticEnds(0, false));
    RunFive(START, Pushed(idle), StatusCallback, Begins(0), Queried(0, [one, other]), Pushed(gone));
    RunAppend(START, events, SyntheticEnds(0, false));
    assert Run(START, events + [SyntheticEnds(0, false)]) == w6;
  }

  lemma {:induction false} RunAppend(w: World, events: seq<Event>, e: Event)
    ensures Run(w, events + [e]) == Step(Run(w, events), e)
    decreases |events|
  {
    hide Step;
    if events == [] {
      assert (events + [e])[1..] == [];
    } else {
      assert (events + [e])[1..] == events[1..] + [e];
      RunAppend(Step(w, events[0]), events[1..], e);
    }
  }

  // ---------------------------------------------------------------- a deferred reconciliation does its work

  function Repeat(e: Event, n: nat): seq<Event> { seq(n, _ => e) }

  function Log(live: Live, archives: seq<Archive>): seq<Finalisation> {
    seq(|archives|, i requires 0 <= i < |archives| => Finalisation(archives[i], live, false))
  }

  predicate Settled(live: Live) { live.connected && Upper(live.gcode) in ["IDLE", "FINISH", "FAILED"] }

  lemma SettledFinalisesAll(live: Live, archive: Archive)
    requires Settled(live)
    ensures Finalises(archive, live) && !ActivelyPrinting(live)
  {
    FinalisesExactlyWhen(archive, live);
    assert forall name <- PRINTING :: name !in TERMINAL;
  }

  lemma GoesOnToTheNext(w: World, t: nat, archive: Archive, rest: seq<Archive>)
    requires Settled(w.live) && !w.pending && t in w.tasks && w.tasks[t] == Task(true, Completing(archive, rest))
    requires rest != []
    ensures Step(w, SyntheticEnds(t, false))
         == w.(tasks := w.tasks[t := Task(true, Completing(rest[0], rest[1..]))],
               history := w.history.(finalised := w.history.finalised + [Finalisation(rest[0], w.live, false)]))
  {
    SettledFinalisesAll(w.live, rest[0]);
    hide Finalises, Settled;
    assert FirstFinalised(w.live, rest) == 0;
  }

  lemma EndsAfterTheLast(w: World, t: nat, archive: Archive)
    requires Settled(w.live) && !w.pending && t in w.tasks && w.tasks[t] == Task(true, Completing(archive, []))
    ensures Step(w, SyntheticEnds(t, false)) == w.(tasks := w.tasks - {t}, history := w.history.(owed := false))
  {
    SettledFinalisesAll(w.live, archive);
    hide Finalises, ActivelyPrinting;
  }

  lemma {:induction false} FlushesTheRest(w: World, t: nat, archive: Archive, rest: seq<Archive>)
    requires Settled(w.live) && !w.pending && t in w.tasks && w.tasks[t] == Task(true, Completing(archive, rest))
    ensures Run(w, Repeat(SyntheticEnds(t, false), |rest| + 1))
         == w.(tasks := w.tasks - {t}, history := History(false, w.history.finalised + Log(w.live, rest)))
    decreases |rest|
  {
    hide Step, Settled;
    var e := SyntheticEnds(t, false);
    var v := Step(w, e);
    assert Repeat(e, |rest| + 1)[1..] == Repeat(e, |rest|);
    assert Run(w, Repeat(e, |rest| + 1)) == Run(v, Repeat(e, |rest|));
    if rest == [] {
      EndsAfterTheLast(w, t, archive);
      assert Log(w.live, rest) == [];
    } else {
      GoesOnToTheNext(w, t, archive, rest);
      FlushesTheRest(v, t, rest[0], rest[1..]);
      assert v.tasks - {t} == w.tasks - {t};
      assert [Finalisation(rest[0], w.live, false)] + Log(w.live, rest[1..]) == Log(w.live, rest);
    }
  }

  lemma FlushStarts(w: World, active: seq<Archive>)
    requires Inv(w) && w.pending && Settled(w.live) && active != []
    ensures Step(Step(Step(w, RealCompletionEnds), Begins(w.next)), Queried(w.next, active))
         == w.(pending := false, next := w.next + 1,
               tasks := w.tasks[w.next := Task(true, Completing(active[0], active[1..]))],
               history := w.history.(finalised := w.history.finalised + [Finalisation(active[0], w.live, true)]))
  {
    SettledFinalisesAll(w.live, active[0]);
    hide Finalises, ActivelyPrinting;
    assert FirstFinalised(w.live, active) == 0;
  }

  /**
   A pending reconciliation of a connected printer in a terminal state, flushed by the end of the real completion and
   not disturbed, finalises every archive still `printing`, each once and in order, and leaves nothing pending or in
   flight.
   */
  lemma DeferredReconciliationFinalisesAll(w: World, active: seq<Archive>)
    requires Inv(w) && w.pending && Settled(w.live) && active != []
    ensures var t := w.next;
      var events := [RealCompletionEnds, Begins(t), Queried(t, active)] + Repeat(SyntheticEnds(t, false), |active|);
      Run(w, events) == w.(pending := false, next := w.next + 1, history := History(false,
        w.history.finalised + [Finalisation(active[0], w.live, true)] + Log(w.live, active[1..])))
  {
    hide Settled;
    var t := w.next;
    var ends := Repeat(SyntheticEnds(t, false), |active|);
    FlushStarts(w, active);
    assert t !in w.tasks;
    hide Step, Inv, Run;
    RunThree(w, RealCompletionEnds, Begins(t), Queried(t, active), ends);
    var v := Step(Step(Step(w, RealCompletionEnds), Begins(t)), Queried(t, active));
    FlushesTheRest(v, t, active[0], active[1..]);
    assert v.tasks - {t} == w.tasks;
  }
}
