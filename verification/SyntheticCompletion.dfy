/**
 backend/app/main.py, what a synthetic completion does after it passed the entry gate: `on_print_complete` awaits a
 websocket, relays, database lookups and the clean-up of the printer's card before it updates the queue, and the printer
 and the scheduler go on meanwhile. The reconciliation protocol of one printer, with its queue rows and registrations.
 */
module SyntheticCompletion {
  import opened Options
  import opened ExpectedPrints
  import opened ActivePrints
  import opened QueueCompletion
  import P = ReconcileProtocol

  /**
   The queue update of one synthetic completion: its archive, the live states at the gate and now, the rows, the row
   chosen.
   */
  datatype Update = Update(archive: P.Archive, atGate: P.Live, live: P.Live, rows: seq<Item>, choice: Option<nat>)

  /** `gates` holds the live state in which each running synthetic completion passed the gate. */
  datatype Office = Office(world: P.World, rows: seq<Item>, registry: Registry, gates: map<nat, P.Live>,
                           log: seq<Update>)

  datatype Happening =
    | Protocol(event: P.Event)
    | Scheduler(rows: seq<Item>, registry: Registry)
    | UpdatesQueue(task: nat, now: real)

  const OPENING := Office(P.START, [], EMPTY, map[], [])

  /** The submission id of the event is that of the archive, never the live one; "0" is none. */
  function EventId(subtaskId: string): Option<string> {
    var id := P.Strip(subtaskId);
    if id == "" || id == "0" then None else Some(id)
  }

  function Synthetic(printer: int, a: P.Archive, now: real): Terminal {
    var keys := CompletionKeys(printer, a.printName, a.filename);
    Terminal(printer, Some("aborted"), EventId(a.subtaskId), false, keys, now, "")
  }

  /** The task is inside a synthetic completion whose queue update is still to come. */
  predicate BeforeUpdate(o: Office, t: nat) {
    t in o.world.tasks && o.world.tasks[t].point.Completing? && t in o.gates
  }

  /** A gate passed in this step belongs to the task of the event. */
  function GatesAfter(o: Office, e: P.Event): map<nat, P.Live> {
    var next := P.Step(o.world, e);
    if e.Queried? || e.SyntheticEnds? then
      if |next.history.finalised| > |o.world.history.finalised| then
        o.gates[e.task := next.history.finalised[|next.history.finalised| - 1].live]
      else o.gates - {e.task}
    else o.gates
  }

  /** A completion without any name returns before the queue is reached. */
  predicate Named(a: P.Archive) { a.filename != "" || a.printName != "" }

  function Next(o: Office, printer: int, h: Happening): Office {
    match h
    case Protocol(e) => o.(world := P.Step(o.world, e), gates := GatesAfter(o, e))
    case Scheduler(rows, registry) => o.(rows := rows, registry := registry)
    case UpdatesQueue(t, now) =>
      if !BeforeUpdate(o, t) || !Named(o.world.tasks[t].point.archive) then o
      else
        var a := o.world.tasks[t].point.archive;
        var e := Synthetic(printer, a, now);
        var choice := Choice(o.rows, e, o.registry.prints);
        o.(rows := After(o.rows, e, choice), registry := Left(o.registry, e, choice), gates := o.gates - {t},
           log := o.log + [Update(a, o.gates[t], o.world.live, o.rows, choice)])
  }

  function History(o: Office, printer: int, hs: seq<Happening>): Office
    decreases |hs|
  {
    if hs == [] then o else History(Next(o, printer, hs[0]), printer, hs[1..])
  }

  // ---------------------------------------------------------------- which synthetic events change a row

  predicate PrintingRow(item: Item, printer: int) { item.printer == printer && item.status == "printing" }

  /** A dispatching row of the printer with the archive's submission id or, when an id is missing, a registered name. */
  predicate MatchingRow(item: Item, printer: int, a: P.Archive, prints: map<Key, int>) {
    && item.printer == printer && item.status == "dispatching"
    && var id := P.Strip(a.subtaskId);
       if item.dispatchId.Some? && id !in ["", "0"] then item.dispatchId == Some(id)
       else QueueCompletion.Registered(item, CompletionKeys(printer, a.printName, a.filename), prints)
  }

  predicate OneMatchingRow(rows: seq<Item>, printer: int, a: P.Archive, prints: map<Key, int>) {
    exists i :: 0 <= i < |rows| && MatchingRow(rows[i], printer, a, prints)
      && forall j :: 0 <= j < |rows| && j != i ==> !MatchingRow(rows[j], printer, a, prints)
  }

  /** A synthetic completion leaves the queue alone exactly when no row is printing and not exactly one row matches. */
  lemma ChangesNoRowExactlyWhen(rows: seq<Item>, printer: int, a: P.Archive, now: real, prints: map<Key, int>)
    ensures var e := Synthetic(printer, a, now);
      After(rows, e, Choice(rows, e, prints)) == rows
      <==> (forall i :: 0 <= i < |rows| ==> !PrintingRow(rows[i], printer)) && !OneMatchingRow(rows, printer, a, prints)
  {
    var e := Synthetic(printer, a, now);
    var choice := Choice(rows, e, prints);
    forall i | 0 <= i < |rows|
      ensures Printing(rows[i], e) <==> PrintingRow(rows[i], printer)
      ensures Candidate(rows[i], e, prints) <==> MatchingRow(rows[i], printer, a, prints)
      ensures Candidate(rows[i], e, prints) || Printing(rows[i], e) ==> Finished(rows[i], e) != rows[i]
    {
      RowIsCandidate(rows[i], printer, a, now, prints);
    }
    hide Candidate, Printing, MatchingRow, PrintingRow, Synthetic, Finished, CompletionKeys;
    forall i | 0 <= i < |rows|
      ensures NonePrinting(rows, e) ==> (OnlyCandidate(rows, e, prints, i) <==>
        MatchingRow(rows[i], printer, a, prints)
        && forall j :: 0 <= j < |rows| && j != i ==> !MatchingRow(rows[j], printer, a, prints))
    {
    }
    assert choice.Some? ==> After(rows, e, choice)[choice.value] != rows[choice.value];
  }

  lemma RowIsCandidate(item: Item, printer: int, a: P.Archive, now: real, prints: map<Key, int>)
    ensures var e := Synthetic(printer, a, now);
      && (Printing(item, e) <==> PrintingRow(item, printer))
      && (Candidate(item, e, prints) <==> MatchingRow(item, printer, a, prints))
      && (Candidate(item, e, prints) || Printing(item, e) ==> Finished(item, e) != item)
  {
    assert EventId(a.subtaskId) == if P.Strip(a.subtaskId) in ["", "0"] then None else Some(P.Strip(a.subtaskId));
    hide CompletionKeys, QueueCompletion.Registered, EventId;
  }

  /** With a row printing the archive plays no part: that row is cancelled and the printer loses its registrations. */
  lemma PrintingRowIsCancelled(rows: seq<Item>, printer: int, a: P.Archive, now: real, registry: Registry, i: nat)
    requires i < |rows| && PrintingRow(rows[i], printer)
    requires forall j :: 0 <= j < i ==> !PrintingRow(rows[j], printer)
    ensures var e := Synthetic(printer, a, now);
      var choice := Choice(rows, e, registry.prints);
      && choice == Some(i) && After(rows, e, choice)[i].status == "cancelled"
      && forall k :: k in Left(registry, e, choice).prints ==> k.printer != printer
  {
    hide CompletionKeys, EventId;
    var e := Synthetic(printer, a, now);
    assert Printing(rows[i], e);
    assert forall j :: 0 <= j < i ==> !Printing(rows[j], e);
    ChosenIsChoice(rows, e, registry.prints, Some(i));
    assert StoredStatus(e) == "cancelled" && "cancelled" == FINAL[2];
  }

  // ---------------------------------------------------------------- what the gate is worth at the update

  /** Between gate and update every synthetic completion carries the state of its gate, in which no print was active. */
  ghost predicate Guarded(o: Office) {
    && P.Inv(o.world)
    && (forall t :: t in o.gates ==> !P.ActivelyPrinting(o.gates[t]))
    && (forall u <- o.log :: !P.ActivelyPrinting(u.atGate) && Named(u.archive))
  }

  lemma NextKeepsGuarded(o: Office, printer: int, h: Happening)
    requires Guarded(o)
    ensures Guarded(Next(o, printer, h))
  {
    match h
    case Protocol(e) =>
      P.StepKeepsInv(o.world, e);
      hide P.Step, P.ActivelyPrinting;
      var f := P.Step(o.world, e).history.finalised;
      assert |f| > 0 ==> f[|f| - 1] in f;
      LastPassedIdle(P.Step(o.world, e));
    case _ => hide P.Inv, P.ActivelyPrinting, Choice, Synthetic;
  }

  lemma LastPassedIdle(w: P.World)
    requires P.Inv(w)
    ensures forall f <- w.history.finalised :: !P.ActivelyPrinting(f.live)
  {
  }

  lemma {:induction false} HistoryKeepsGuarded(o: Office, printer: int, hs: seq<Happening>)
    requires Guarded(o)
    ensures Guarded(History(o, printer, hs))
    decreases |hs|
  {
    hide Next, Guarded;
    if hs != [] {
      NextKeepsGuarded(o, printer, hs[0]);
      HistoryKeepsGuarded(Next(o, printer, hs[0]), printer, hs[1..]);
    }
  }

  /**
   In every interleaving: a synthetic completion whose queue update meets an active print passed its gate in another
   state. The gate keeps its promise for the moment of the call; what it guards comes later.
   */
  lemma ActivePrintsAreMetOnlyAfterTheGate(printer: int, hs: seq<Happening>, u: Update)
    requires u in History(OPENING, printer, hs).log && P.ActivelyPrinting(u.live)
    ensures !P.ActivelyPrinting(u.atGate) && u.atGate != u.live
  {
    HistoryKeepsGuarded(OPENING, printer, hs);
  }

  lemma HistoryCons(o: Office, printer: int, h: Happening, rest: seq<Happening>)
    ensures History(o, printer, [h] + rest) == History(Next(o, printer, h), printer, rest)
  {
    hide Next;
    assert ([h] + rest)[1..] == rest;
  }

  /** An archive without file and print name never gets as far as the queue. */
  lemma NamelessCompletionStops(o: Office, printer: int, t: nat, now: real)
    requires t in o.world.tasks && o.world.tasks[t].point.Completing?
    requires o.world.tasks[t].point.archive.filename == "" == o.world.tasks[t].point.archive.printName
    ensures Next(o, printer, UpdatesQueue(t, now)) == o
  {
    hide Choice, Synthetic;
  }

  /** The gate passes from IDLE, a print starts while the completion is at work, and the update meets it. */
  function LatePrint(a: P.Archive, row: Item, registry: Registry, now: real): seq<Happening> {
    [Protocol(P.Pushed(P.Live(true, "IDLE", "", "")))] + ([Protocol(P.StatusCallback)] + ([Protocol(P.Begins(0))]
      + ([Protocol(P.Queried(0, [a]))] + ([Protocol(P.Pushed(P.Live(true, "RUNNING", "9", "cube")))]
      + ([Scheduler([row], registry)] + ([UpdatesQueue(0, now)] + []))))))
  }

  lemma GatePassesFromIdle(a: P.Archive)
    ensures var idle := P.Live(true, "IDLE", "", "");
      var edge := P.Step(P.Step(P.START, P.Pushed(idle)), P.StatusCallback);
      var w := P.Step(P.Step(edge, P.Begins(0)), P.Queried(0, [a]));
      && w.tasks == map[0 := P.Task(false, P.Completing(a, []))]
      && w.history.finalised == [P.Finalisation(a, idle, true)]
    ensures P.ActivelyPrinting(P.Live(true, "RUNNING", "9", "cube"))
  {
    P.UpperNames();
    var idle := P.Live(true, "IDLE", "", "");
    var w2 := P.Step(P.Step(P.START, P.Pushed(idle)), P.StatusCallback);
    assert w2.tasks == map[0 := P.Task(false, P.Spawned)];
    var w3 := P.Step(w2, P.Begins(0));
    assert w3.tasks == map[0 := P.Task(false, P.Querying)];
    assert P.Finalises(a, idle);
    assert [a][1..] == [];
  }

  /**
   For every stale archive with a name and every row of the printer that is printing: the live print's row is cancelled,
   and the printer loses its registrations.
   */
  lemma LivePrintIsCancelled(printer: int, a: P.Archive, row: Item, registry: Registry, now: real)
    requires a.filename != "" || a.printName != ""
    requires row.printer == printer && row.status == "printing"
    ensures var o := History(OPENING, printer, LatePrint(a, row, registry, now));
      && P.ActivelyPrinting(o.world.live) && |o.log| == 1 && P.ActivelyPrinting(o.log[0].live)
      && |o.rows| == 1 && o.rows[0].id == row.id && o.rows[0].status == "cancelled"
      && forall k :: k in o.registry.prints ==> k.printer != printer
  {
    hide P.ActivelyPrinting, P.Finalises, Choice, CompletionKeys, Synthetic;
    GatePassesFromIdle(a);
    var idle, busy := P.Live(true, "IDLE", "", ""), P.Live(true, "RUNNING", "9", "cube");
    var h1, h2, h3 := Protocol(P.Pushed(idle)), Protocol(P.StatusCallback), Protocol(P.Begins(0));
    var h4 := Protocol(P.Queried(0, [a]));
    var h5, h6, h7 := Protocol(P.Pushed(busy)), Scheduler([row], registry), UpdatesQueue(0, now);
    var o1 := Next(OPENING, printer, h1);
    var o2 := Next(o1, printer, h2);
    var o3 := Next(o2, printer, h3);
    var o4 := Next(o3, printer, h4);
    assert o3.world.history.finalised == [];
    assert o4.gates == map[0 := idle];
    var o6 := Next(Next(o4, printer, h5), printer, h6);
    var o7 := Next(o6, printer, h7);
    assert o6.rows == [row];
    PrintingRowIsCancelled([row], printer, a, now, registry, 0);
    hide Next, History;
    SevenSteps(OPENING, printer, h1, h2, h3, h4, h5, h6, h7);
  }

  lemma SevenSteps(o: Office, printer: int, a: Happening, b: Happening, c: Happening, d: Happening, e: Happening,
                   f: Happening, g: Happening)
    ensures History(o, printer, [a] + ([b] + ([c] + ([d] + ([e] + ([f] + ([g] + [])))))))
         == Next(Next(Next(Next(Next(Next(Next(o, printer, a), printer, b), printer, c), printer, d), printer, e),
                      printer, f), printer, g)
  {
    hide Next, History;
    HistoryCons(o, printer, a, [b] + ([c] + ([d] + ([e] + ([f] + ([g] + []))))));
    var p := Next(o, printer, a);
    HistoryCons(p, printer, b, [c] + ([d] + ([e] + ([f] + ([g] + [])))));
    p := Next(p, printer, b);
    HistoryCons(p, printer, c, [d] + ([e] + ([f] + ([g] + []))));
    p := Next(p, printer, c);
    HistoryCons(p, printer, d, [e] + ([f] + ([g] + [])));
    p := Next(p, printer, d);
    HistoryCons(p, printer, e, [f] + ([g] + []));
    p := Next(p, printer, e);
    HistoryCons(p, printer, f, [g] + []);
    p := Next(p, printer, f);
    HistoryCons(p, printer, g, []);
    HistoryNil(Next(p, printer, g), printer);
  }

  lemma HistoryNil(o: Office, printer: int)
    ensures History(o, printer, []) == o
  {
  }
}
