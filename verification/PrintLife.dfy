/**
 backend/app/main.py, a dispatched print from its dispatch through its start to its completion: the registry of expected
 prints and the table of running ones side by side, under everything other printers do meanwhile.
 */
module PrintLife {
  import opened Options
  import Expected = ExpectedPrints
  import Active = ActivePrints

  datatype World = World(registry: Expected.Registry, tracked: Active.Tracked)

  /** How a start that claims nothing came to its archive, if it did. */
  datatype Otherwise = Untracked | Via(path: Active.Path, archive: int)

  datatype Event =
    | Books(change: Expected.Event)
    | Begins(printer: int, subtask: string, filename: string, autoArchive: bool, notified: bool,
             file: Option<string>, otherwise: Otherwise)
    | Ends(printer: int, subtask: string, filename: string)

  function Claim(s: Expected.Registry, e: Event): (Expected.Registry, Option<int>)
    requires e.Begins?
  {
    Expected.Start(s, e.printer, e.subtask, e.filename, e.autoArchive, e.notified)
  }

  /** What the start tracks: a claimed archive whose row exists, or what it found otherwise. */
  function Tracks(e: Event, claimed: Option<int>): seq<Active.Change>
    requires e.Begins?
  {
    if claimed.Some? && e.file.Some? then
      [Active.Began(Active.Expected(e.file.value), e.printer, e.subtask, e.filename, claimed.value)]
    else match e.otherwise
      case Untracked => []
      case Via(path, archive) => [Active.Began(path, e.printer, e.subtask, e.filename, archive)]
  }

  function OnRegistry(e: Event): seq<Expected.Event> {
    match e
    case Books(change) => [change]
    case Begins(p, subtask, f, auto, notified, _, _) => [Expected.Started(p, subtask, f, auto, notified)]
    case Ends(_, _, _) => []
  }

  function OnTable(w: World, e: Event): seq<Active.Change> {
    match e
    case Books(_) => []
    case Begins(_, _, _, _, _, _, _) => Tracks(e, Claim(w.registry, e).1)
    case Ends(p, subtask, f) => [Active.Ended(p, subtask, f)]
  }

  /** Each event acts on the registry, on the table, or on both. */
  function Step(w: World, e: Event): World {
    World(Expected.Steps(w.registry, OnRegistry(e)), Active.ApplyAll(w.tracked, OnTable(w, e)))
  }

  function Run(w: World, events: seq<Event>): World {
    if events == [] then w else Step(Run(w, events[..|events| - 1]), events[|events| - 1])
  }

  function RegistryEvents(events: seq<Event>): seq<Expected.Event> {
    if events == [] then [] else RegistryEvents(events[..|events| - 1]) + OnRegistry(events[|events| - 1])
  }

  function TableEvents(w: World, events: seq<Event>): seq<Active.Change> {
    if events == [] then []
    else
      var before, last := events[..|events| - 1], events[|events| - 1];
      TableEvents(w, before) + OnTable(Run(w, before), last)
  }

  lemma {:induction false} StepsAppend(s: Expected.Registry, a: seq<Expected.Event>, b: seq<Expected.Event>)
    requires |b| <= 1
    ensures Expected.Steps(s, a + b) == Expected.Steps(Expected.Steps(s, a), b)
  {
    hide Expected.Step;
    if b == [] {
      assert a + b == a;
    } else {
      assert (a + b)[..|a|] == a && b[..0] == [];
      assert Expected.Steps(Expected.Steps(s, a), []) == Expected.Steps(s, a);
    }
  }

  lemma {:induction false} AppliesAppend(m: Active.Tracked, a: seq<Active.Change>, b: seq<Active.Change>)
    requires |b| <= 1
    ensures Active.ApplyAll(m, a + b) == Active.ApplyAll(Active.ApplyAll(m, a), b)
  {
    hide Active.Apply;
    if b == [] {
      assert a + b == a;
    } else {
      assert (a + b)[..|a|] == a && b[..0] == [];
      assert Active.ApplyAll(Active.ApplyAll(m, a), []) == Active.ApplyAll(m, a);
    }
  }

  /** A run of the world is a run of the registry beside a run of the table. */
  lemma {:induction false} RunsSideBySide(w: World, events: seq<Event>)
    ensures Run(w, events)
         == World(Expected.Steps(w.registry, RegistryEvents(events)),
                  Active.ApplyAll(w.tracked, TableEvents(w, events)))
  {
    hide Expected.Steps, Active.ApplyAll, OnTable, OnRegistry;
    if events == [] {
      assert Expected.Steps(w.registry, []) == w.registry && Active.ApplyAll(w.tracked, []) == w.tracked by {
        NothingHappens(w);
      }
    } else {
      var before, last := events[..|events| - 1], events[|events| - 1];
      RunsSideBySide(w, before);
      OneAtATime(Run(w, before), last);
      StepsAppend(w.registry, RegistryEvents(before), OnRegistry(last));
      AppliesAppend(w.tracked, TableEvents(w, before), OnTable(Run(w, before), last));
    }
  }

  lemma NothingHappens(w: World)
    ensures Expected.Steps(w.registry, []) == w.registry && Active.ApplyAll(w.tracked, []) == w.tracked
  {
  }

  lemma OneAtATime(w: World, e: Event)
    ensures |OnRegistry(e)| <= 1 && |OnTable(w, e)| <= 1
  {
  }

  // ---------------------------------------------------------------- what other printers do

  /** An event of another printer, a sweep, or the end of an archive's AMS and plate data. */
  predicate Away(e: Event, printer: int) {
    match e
    case Books(change) => Expected.Away(change, printer)
    case Begins(p, _, _, _, _, _, _) => p != printer
    case Ends(p, _, _) => p != printer
  }

  predicate Unswept(events: seq<Event>, at: real) {
    forall e <- events :: e.Books? && e.change.Swept? ==> e.change.now - at <= Expected.TTL
  }

  /** A completion of the run is resolved to this archive. */
  predicate Taken(w: World, events: seq<Event>, archive: int) {
    events != []
    && var before, last := events[..|events| - 1], events[|events| - 1];
      || Taken(w, before, archive)
      || (last.Ends?
          && Active.Resolve(Run(w, before).tracked,
                            Active.CompletionKeys(last.printer, last.subtask, last.filename)).1 == Some(archive))
  }

  lemma {:induction false} RegistrySeesOthers(events: seq<Event>, printer: int, at: real)
    requires forall e <- events :: Away(e, printer)
    ensures forall e <- RegistryEvents(events) :: Expected.Away(e, printer)
    ensures Expected.Unswept(RegistryEvents(events), at) <==> Unswept(events, at)
  {
    if events != [] {
      var before, last := events[..|events| - 1], events[|events| - 1];
      assert last in events && forall e <- before :: e in events;
      RegistrySeesOthers(before, printer, at);
      assert forall e <- events :: e in before || e == last;
      assert forall e <- RegistryEvents(events) :: e in RegistryEvents(before) || e in OnRegistry(last);
      assert forall e <- RegistryEvents(before) + OnRegistry(last) :: e in RegistryEvents(events);
    }
  }

  lemma {:induction false} TableSeesOthers(w: World, events: seq<Event>, printer: int)
    requires forall e <- events :: Away(e, printer)
    ensures Active.Elsewhere(TableEvents(w, events), printer)
  {
    hide Claim, Run;
    if events != [] {
      var before, last := events[..|events| - 1], events[|events| - 1];
      assert last in events && forall e <- before :: e in events;
      TableSeesOthers(w, before, printer);
    }
  }

  lemma TakenAppend(m: Active.Tracked, a: seq<Active.Change>, e: Active.Change, archive: int)
    ensures Active.Taken(m, a + [e], archive) <==>
              || Active.Taken(m, a, archive)
              || (e.Ended?
                  && Active.Resolve(Active.ApplyAll(m, a), Active.CompletionKeys(e.printer, e.subtask, e.filename)).1
                     == Some(archive))
  {
    hide Active.Resolve, Active.CompletionKeys, Active.ApplyAll;
    assert (a + [e])[..|a|] == a;
  }

  lemma {:induction false} TakenOnTable(w: World, events: seq<Event>, archive: int)
    ensures Taken(w, events, archive) <==> Active.Taken(w.tracked, TableEvents(w, events), archive)
  {
    hide Claim, Run, Active.Resolve, Active.CompletionKeys, Active.Taken, Active.ApplyAll;
    if events == [] {
      NothingTaken(w.tracked, archive);
    } else {
      var before, last := events[..|events| - 1], events[|events| - 1];
      TakenOnTable(w, before, archive);
      RunsSideBySide(w, before);
      OneAtATime(Run(w, before), last);
      var done, more := TableEvents(w, before), OnTable(Run(w, before), last);
      if more == [] {
        assert done + more == done;
      } else {
        assert more == [more[0]];
        TakenAppend(w.tracked, done, more[0], archive);
      }
    }
  }

  lemma NothingTaken(m: Active.Tracked, archive: int)
    ensures !Active.Taken(m, [], archive)
  {
  }

  // ---------------------------------------------------------------- from dispatch to completion

  /**
   A dispatch to a printer without other registrations, a start of that printer with a subtask name, and its completion,
   with anything happening on other printers before the start and after it. The start claims the dispatched archive
   exactly when it reports one of its names, its file is not below /usr/ and no sweep came too late; and then the
   completion is resolved to that archive exactly when no completion after the start was resolved to it before.
   */
  lemma DispatchIsFollowedToItsEnd(w: World, d: Expected.Event, before: seq<Event>, begin: Event, after: seq<Event>)
    requires Expected.Consistent(w.registry) && d.Registered? && d.archive != 0
    requires forall k :: k in w.registry.prints ==> k.printer != d.printer
    requires begin.Begins? && begin.printer == d.printer && begin.subtask != "" && begin.file.Some?
    requires (forall e <- before :: Away(e, d.printer)) && forall e <- after :: Away(e, d.printer)
    ensures var dispatched := Step(w, Books(d));
      var ready := Run(dispatched, before);
      var started := Step(ready, begin);
      var end := Run(started, after);
      var known := exists k <- Expected.ReportedKeys(d.printer, begin.subtask, begin.filename) ::
                     k in Expected.StoredKeys(d.printer, d.filename);
      var recognised := known && Unswept(before, d.now) && !("/usr/" <= begin.filename);
      && Claim(ready.registry, begin).1 == (if recognised then Some(d.archive) else None)
      && (recognised ==>
            && (forall k :: k in started.registry.prints ==> k.printer != d.printer)
            && (Active.Resolve(end.tracked, Active.CompletionKeys(d.printer, begin.subtask, begin.filename)).1
                == Some(d.archive)
                <==> !Taken(started, after, d.archive)))
  {
    var dispatched := Step(w, Books(d));
    var ready := Run(dispatched, before);
    var started := Step(ready, begin);
    hide Expected.ReportedKeys, Expected.StoredKeys, Active.CompletionKeys, Active.Resolve, Expected.Start;
    OneBooking(w, d);
    RunsSideBySide(dispatched, before);
    RegistrySeesOthers(before, d.printer, d.now);
    Expected.DispatchIsRecognised(w.registry, d, RegistryEvents(before), begin.subtask, begin.filename,
                                  begin.autoArchive, begin.notified);
    OneStart(ready, begin);
    RunsSideBySide(started, after);
    TableSeesOthers(started, after, d.printer);
    TakenOnTable(started, after, d.archive);
    hide Run, Step, Taken, Expected.Steps, Active.ApplyAll, TableEvents;
    if Claim(ready.registry, begin).1 == Some(d.archive) {
      Active.CompletionFindsItsPrint(ready.tracked, Active.Expected(begin.file.value), d.printer, begin.subtask,
                                     begin.filename, d.archive, TableEvents(started, after));
    }
  }

  lemma OneBooking(w: World, d: Expected.Event)
    ensures Step(w, Books(d)) == World(Expected.Step(w.registry, d), w.tracked)
  {
    assert [d][..0] == [];
    assert Expected.Steps(w.registry, []) == w.registry;
    hide Expected.Step;
  }

  lemma OneStart(w: World, e: Event)
    requires e.Begins?
    ensures Step(w, e).registry == Claim(w.registry, e).0
    ensures var claimed := Claim(w.registry, e).1;
      claimed.Some? && e.file.Some? ==>
        Step(w, e).tracked == Active.Apply(w.tracked, Tracks(e, claimed)[0])
  {
    hide Expected.Start, Active.Apply;
    var started := Expected.Started(e.printer, e.subtask, e.filename, e.autoArchive, e.notified);
    assert [started][..0] == [];
    assert Expected.Steps(w.registry, []) == w.registry && Active.ApplyAll(w.tracked, []) == w.tracked;
    assert Expected.Steps(w.registry, [started]) == Expected.Step(w.registry, started);
  }
}
