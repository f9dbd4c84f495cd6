/**
 backend/app/main.py, `_matches_dispatching_queue_completion` and `_update_queue_status`: which queue row, if any, a
 terminal printer event finishes.
 */
module QueueCompletion {

  import opened Options
  import opened ExpectedPrints

  datatype Item = Item(id: int, printer: int, status: string, archive: Option<int>, dispatchId: Option<string>,
                       completedAt: Option<real>, error: string)

  /** A terminal printer event; `keys` are those the completion handler tries. */
  datatype Terminal = Terminal(printer: int, status: Option<string>, subtaskId: Option<string>, recovered: bool,
                               keys: seq<Key>, now: real, hmsSummary: string)

  const FINAL := ["completed", "failed", "cancelled"]

  predicate Active(item: Item, e: Terminal) {
    item.printer == e.printer
    && (item.status in ["dispatching", "printing"]
        || (e.recovered && e.subtaskId.Some? && item.status in ["completed", "failed"]))
  }

  predicate Printing(item: Item, e: Terminal) { Active(item, e) && item.status == "printing" }

  predicate Registered(item: Item, keys: seq<Key>, prints: map<Key, int>) {
    item.archive.Some? && exists k <- keys :: k in prints && prints[k] == item.archive.value
  }

  /** `_matches_dispatching_queue_completion` */
  predicate MatchesDispatch(item: Item, e: Terminal, prints: map<Key, int>) {
    item.status == "dispatching"
    && if item.dispatchId.Some? && e.subtaskId.Some? then item.dispatchId == e.subtaskId
       else Registered(item, e.keys, prints)
  }

  predicate Candidate(item: Item, e: Terminal, prints: map<Key, int>) {
    Active(item, e)
    && (MatchesDispatch(item, e, prints)
        || (e.recovered && Some(item.status) == e.status && item.dispatchId == e.subtaskId))
  }

  function StoredStatus(e: Terminal): string {
    var status := if e.status.Some? then e.status.value else "completed";
    if status == "aborted" then "cancelled" else status
  }

  function Finished(item: Item, e: Terminal): Item {
    item.(status := StoredStatus(e), completedAt := Some(e.now),
          error := if StoredStatus(e) == "failed" && item.error == "" then e.hmsSummary else item.error)
  }

  // ---------------------------------------------------------------- which row is finished

  ghost predicate NonePrinting(items: seq<Item>, e: Terminal) {
    forall i :: 0 <= i < |items| ==> !Printing(items[i], e)
  }

  ghost predicate FirstPrinting(items: seq<Item>, e: Terminal, i: nat) {
    i < |items| && Printing(items[i], e) && forall j :: 0 <= j < i ==> !Printing(items[j], e)
  }

  ghost predicate OnlyCandidate(items: seq<Item>, e: Terminal, prints: map<Key, int>, i: nat) {
    i < |items| && Candidate(items[i], e, prints)
    && forall j :: 0 <= j < |items| && j != i ==> !Candidate(items[j], e, prints)
  }

  /** The row the event finishes; `None` when there is no candidate or several. */
  ghost predicate Chosen(items: seq<Item>, e: Terminal, prints: map<Key, int>, choice: Option<nat>) {
    if choice.Some? then
      FirstPrinting(items, e, choice.value) || (NonePrinting(items, e) && OnlyCandidate(items, e, prints, choice.value))
    else
      NonePrinting(items, e) && forall i: nat :: !OnlyCandidate(items, e, prints, i)
  }

  function FirstPrintingFrom(items: seq<Item>, e: Terminal, i: nat): (j: nat)
    requires i <= |items|
    ensures i <= j <= |items| && (j < |items| ==> Printing(items[j], e))
    ensures forall m :: i <= m < j ==> !Printing(items[m], e)
    decreases |items| - i
  {
    if i == |items| || Printing(items[i], e) then i else FirstPrintingFrom(items, e, i + 1)
  }

  function CandidateFrom(items: seq<Item>, e: Terminal, prints: map<Key, int>, i: nat): (j: nat)
    requires i <= |items|
    ensures i <= j <= |items| && (j < |items| ==> Candidate(items[j], e, prints))
    ensures forall m :: i <= m < j ==> !Candidate(items[m], e, prints)
    decreases |items| - i
  {
    if i == |items| || Candidate(items[i], e, prints) then i else CandidateFrom(items, e, prints, i + 1)
  }

  function Choice(items: seq<Item>, e: Terminal, prints: map<Key, int>): (choice: Option<nat>)
    ensures Chosen(items, e, prints, choice)
  {
    var p := FirstPrintingFrom(items, e, 0);
    var c := CandidateFrom(items, e, prints, 0);
    if p < |items| then Some(p)
    else if c < |items| && CandidateFrom(items, e, prints, c + 1) == |items| then
      assert OnlyCandidate(items, e, prints, c);
      Some(c)
    else None
  }

  /** The choice is a function of rows, event and registrations. */
  lemma ChosenIsChoice(items: seq<Item>, e: Terminal, prints: map<Key, int>, choice: Option<nat>)
    requires Chosen(items, e, prints, choice)
    ensures choice == Choice(items, e, prints)
  {
    assert Chosen(items, e, prints, Choice(items, e, prints));
    hide Choice;
  }

  function After(items: seq<Item>, e: Terminal, choice: Option<nat>): seq<Item>
    requires choice.Some? ==> choice.value < |items|
  {
    if choice.None? then items else items[choice.value := Finished(items[choice.value], e)]
  }

  /**
   What a finished row holds: the reported status, with "aborted" as "cancelled" and none as "completed", the time of
   the event, and on a failure the printer's error summary unless it already has a message.
   */
  ghost predicate Holds(item: Item, before: Item, e: Terminal) {
    && item == before.(status := item.status, completedAt := item.completedAt, error := item.error)
    && item.status == (if e.status == None then "completed"
                       else if e.status == Some("aborted") then "cancelled" else e.status.value)
    && item.completedAt == Some(e.now)
    && item.error == if e.status == Some("failed") && before.error == "" then e.hmsSummary else before.error
  }

  /** A dispatching row is finished exactly when nothing prints and it alone matches, and the match is by identity. */
  lemma DispatchingFinishedExactlyWhen(items: seq<Item>, e: Terminal, prints: map<Key, int>, choice: Option<nat>,
                                       i: nat)
    requires Chosen(items, e, prints, choice)
    requires i < |items| && items[i].status == "dispatching" && items[i].printer == e.printer
    requires e.status != Some("dispatching")
    ensures After(items, e, choice)[i].status != "dispatching" <==>
              NonePrinting(items, e) && MatchesDispatch(items[i], e, prints)
              && forall j :: 0 <= j < |items| && j != i ==> !Candidate(items[j], e, prints)
  {
    if NonePrinting(items, e) && MatchesDispatch(items[i], e, prints)
       && (forall j :: 0 <= j < |items| && j != i ==> !Candidate(items[j], e, prints)) {
      assert OnlyCandidate(items, e, prints, i);
    }
  }

  /** A row in `printing` takes every terminal event of its printer: no id is compared, not even a recovered one. */
  lemma PrintingTakesEveryEvent(items: seq<Item>, e: Terminal, prints: map<Key, int>, choice: Option<nat>, i: nat)
    requires Chosen(items, e, prints, choice)
    requires i < |items| && items[i].printer == e.printer && items[i].status == "printing"
    ensures choice.Some? && choice.value <= i && items[choice.value].status == "printing"
    ensures (forall j :: 0 <= j < i ==> !(items[j].printer == e.printer && items[j].status == "printing")) ==>
              Holds(After(items, e, choice)[i], items[i], e)
  {
    assert Printing(items[i], e);
  }

  /** The row at i becomes this, every other one stays. */
  ghost predicate OnlyChanges(before: seq<Item>, after: seq<Item>, i: nat, item: Item) {
    && |after| == |before| && i < |after| && after[i] == item
    && forall j :: 0 <= j < |before| && j != i ==> after[j] == before[j]
  }

  /**
   A printer with no row printing reports the submission id of one dispatching row, and its other dispatching rows have
   other ids: whatever is registered, that row is finished and nothing else changes.
   */
  lemma SubmissionIsFinished(items: seq<Item>, e: Terminal, prints: map<Key, int>, i: nat)
    requires i < |items| && items[i].printer == e.printer && items[i].status == "dispatching"
    requires items[i].dispatchId.Some? && e.subtaskId == items[i].dispatchId && !e.recovered
    requires forall j :: 0 <= j < |items| && items[j].printer == e.printer ==> items[j].status != "printing"
    requires forall j :: 0 <= j < |items| && j != i && items[j].printer == e.printer && items[j].status == "dispatching"
               ==> items[j].dispatchId.Some? && items[j].dispatchId != e.subtaskId
    ensures var after := After(items, e, Choice(items, e, prints));
      |after| == |items| && Holds(after[i], items[i], e) && OnlyChanges(items, after, i, after[i])
  {
    assert Candidate(items[i], e, prints);
    hide Registered;
    OnlyOneMatches(items, e, prints, i);
  }

  /**
   A recovered event finds the row that recovery has already stored with the very status of the event, by its submission
   id alone, if the printer has no active row.
   */
  lemma RecoveryFinishesItsSubmission(items: seq<Item>, e: Terminal, prints: map<Key, int>, i: nat)
    requires e.recovered && e.subtaskId.Some?
    requires i < |items| && items[i].printer == e.printer && items[i].status in ["completed", "failed"]
    requires e.status == Some(items[i].status) && items[i].dispatchId == e.subtaskId
    requires forall j :: 0 <= j < |items| && items[j].printer == e.printer ==>
               items[j].status !in ["dispatching", "printing"]
    requires forall j :: 0 <= j < |items| && j != i && items[j].printer == e.printer ==>
               items[j].dispatchId != e.subtaskId
    ensures var after := After(items, e, Choice(items, e, prints));
      |after| == |items| && Holds(after[i], items[i], e) && OnlyChanges(items, after, i, after[i])
  {
    assert Candidate(items[i], e, prints);
    hide Registered;
    OnlyOneMatches(items, e, prints, i);
  }

  /** A row that has already ended is touched only by a recovered event of its own submission with its own status. */
  lemma EndedRowsNeedTheirSubmission(items: seq<Item>, e: Terminal, prints: map<Key, int>, i: nat)
    requires i < |items| && items[i].status !in ["dispatching", "printing"]
    ensures After(items, e, Choice(items, e, prints))[i] != items[i] ==>
              && e.recovered && e.subtaskId.Some? && items[i].dispatchId == e.subtaskId
              && items[i].status in ["completed", "failed"] && e.status == Some(items[i].status)
              && items[i].printer == e.printer
  {
    hide Registered;
  }

  lemma OnlyOneMatches(items: seq<Item>, e: Terminal, prints: map<Key, int>, i: nat)
    requires NonePrinting(items, e) && OnlyCandidate(items, e, prints, i)
    ensures var after := After(items, e, Choice(items, e, prints));
      |after| == |items| && Holds(after[i], items[i], e) && OnlyChanges(items, after, i, after[i])
  {
    ChosenIsChoice(items, e, prints, Some(i));
    hide Choice, Candidate;
  }

  // ---------------------------------------------------------------- runs of terminal events

  /** Row states before and after each event of a run, whatever registrations exist at each event. */
  ghost predicate IsRun(states: seq<seq<Item>>, events: seq<Terminal>) {
    && |states| == |events| + 1
    && forall k :: 0 <= k < |events| ==> Follows(states[k], events[k], states[k + 1])
  }

  ghost predicate Follows(items: seq<Item>, e: Terminal, next: seq<Item>) {
    exists prints, choice :: Chosen(items, e, prints, choice) && next == After(items, e, choice)
  }

  predicate Final(status: string) { status !in ["dispatching", "printing"] }

  lemma {:induction false} RunsOnlyFinish(states: seq<seq<Item>>, events: seq<Terminal>, i: nat)
    requires IsRun(states, events) && i < |states[0]|
    ensures var before, end := states[0], states[|events|];
      |end| == |before|
      && end[i] == before[i].(status := end[i].status, completedAt := end[i].completedAt, error := end[i].error)
      && (Final(before[i].status) ==> end[i].status == before[i].status)
      && (before[i].status != "aborted" ==> end[i].status != "aborted")
      && ((forall e <- events :: e.printer != before[i].printer) ==> end[i] == before[i])
    decreases |events|
  {
    if events != [] {
      var n := |events| - 1;
      assert IsRun(states[..n + 1], events[..n]);
      RunsOnlyFinish(states[..n + 1], events[..n], i);
      assert Follows(states[n], events[n], states[n + 1]);
      assert events[n] in events;
    }
  }

  /** The event knows a submission id that is not the row's. */
  predicate OtherSubmission(item: Item, e: Terminal) {
    item.dispatchId.Some? && e.subtaskId.Some? && item.dispatchId != e.subtaskId
  }

  /** A dispatching row with a persisted submission id survives every run of other submissions' events unchanged. */
  lemma {:induction false} DispatchSurvivesOtherSubmissions(states: seq<seq<Item>>, events: seq<Terminal>, i: nat)
    requires IsRun(states, events) && i < |states[0]| && states[0][i].status == "dispatching"
    requires forall e <- events :: OtherSubmission(states[0][i], e)
    ensures i < |states[|events|]| && states[|events|][i] == states[0][i]
    decreases |events|
  {
    if events != [] {
      var n := |events| - 1;
      assert IsRun(states[..n + 1], events[..n]);
      DispatchSurvivesOtherSubmissions(states[..n + 1], events[..n], i);
      assert Follows(states[n], events[n], states[n + 1]);
      assert events[n] in events && !Candidate(states[n][i], events[n], map[]);
    }
  }

  // ---------------------------------------------------------------- a failure before any id is known

  /** The printer's registrations are those of this one dispatch. */
  ghost predicate Waiting(s: Registry, d: Event)
    requires d.Registered?
  {
    forall k: Key :: k.printer == d.printer ==>
      && (k in s.prints <==> k in StoredKeys(d.printer, d.filename))
      && (k in s.prints ==> s.prints[k] == d.archive)
  }

  /**
   A printer that fails before it echoes any id: the row its waiting dispatch belongs to is finished exactly when the
   event names one of the keys the dispatch registered and no other dispatching row of the printer has that archive.
   */
  lemma WaitingDispatchIsFinished(s: Registry, d: Event, items: seq<Item>, e: Terminal, choice: Option<nat>, i: nat)
    requires d.Registered? && Waiting(s, d) && d.printer == e.printer
    requires Chosen(items, e, s.prints, choice) && NonePrinting(items, e)
    requires i < |items| && items[i].status == "dispatching" && items[i].printer == e.printer
    requires items[i].archive == Some(d.archive) && e.subtaskId == None && !e.recovered
    requires forall k <- e.keys :: k.printer == e.printer
    requires e.status != Some("dispatching")
    ensures After(items, e, choice)[i].status != "dispatching" <==>
              && (exists k <- e.keys :: k in StoredKeys(d.printer, d.filename))
              && forall j :: 0 <= j < |items| && j != i ==>
                   !(items[j].printer == e.printer && items[j].status == "dispatching"
                     && items[j].archive == Some(d.archive))
  {
    hide StoredKeys;
    DispatchingFinishedExactlyWhen(items, e, s.prints, choice, i);
    forall j | 0 <= j < |items|
      ensures Candidate(items[j], e, s.prints) <==>
                && items[j].printer == e.printer && items[j].status == "dispatching"
                && items[j].archive == Some(d.archive) && exists k <- e.keys :: k in StoredKeys(d.printer, d.filename)
    {
      assert Registered(items[j], e.keys, s.prints) <==>
               items[j].archive == Some(d.archive) && exists k <- e.keys :: k in StoredKeys(d.printer, d.filename);
    }
    hide Candidate;
  }

  // ---------------------------------------------------------------- the registrations afterwards

  /** A row that reached a final status takes the printer's registrations with it. */
  function Left(s: Registry, e: Terminal, choice: Option<nat>): Registry {
    if choice.Some? && StoredStatus(e) in FINAL then Unregister(s, e.printer, None) else s
  }

  /**
   After a terminal event the printer has no expected registration exactly when a row was completed, failed or cancelled
   or there was none before; other printers keep theirs.
   */
  lemma NoRegistrationIsLeftExactlyWhen(s: Registry, items: seq<Item>, e: Terminal)
    requires Consistent(s)
    ensures var choice := Choice(items, e, s.prints);
      var t := Left(s, e, choice);
      && ((forall k :: k in t.prints ==> k.printer != e.printer) <==>
            || (choice.Some? && After(items, e, choice)[choice.value].status in ["completed", "failed", "cancelled"])
            || forall k :: k in s.prints ==> k.printer != e.printer)
      && (forall k: Key :: k.printer != e.printer ==>
            (k in t.prints <==> k in s.prints) && (k in t.prints ==> t.prints[k] == s.prints[k]))
      && t.registeredAt.Keys == t.prints.Keys && t.creators.Keys <= t.prints.Keys
  {
    StepKeepsConsistent(s, Unregistered(e.printer, None));
  }

  // ---------------------------------------------------------------- the update itself

  class Queue {
    var items: seq<Item>
    const registrations: Registrations

    constructor (rows: seq<Item>, registered: Registrations)
      ensures items == rows && registrations == registered
    {
      items, registrations := rows, registered;
    }

    method UpdateStatus(e: Terminal) returns (choice: Option<nat>)
      modifies `items, registrations
      ensures Chosen(old(items), e, old(registrations.prints), choice)
      ensures choice == Choice(old(items), e, old(registrations.prints))
      ensures items == After(old(items), e, choice)
      ensures registrations.Value() == Left(old(registrations.Value()), e, choice)
    {
      var printing := FindPrinting(e);
      choice := None;
      if printing != [] {
        choice := Some(printing[0]);
      } else {
        var matching := FindCandidates(e);
        if |matching| == 1 {
          choice := Some(matching[0]);
          assert matching[0] in matching;
          assert OnlyCandidate(items, e, registrations.prints, matching[0]);
        } else if |matching| > 1 {
          assert matching[0] in matching && matching[1] in matching;
        }
      }
      ChosenIsChoice(items, e, registrations.prints, choice);
      if choice.Some? {
        items := items[choice.value := Finished(items[choice.value], e)];
        if items[choice.value].status in FINAL {
          registrations.UnregisterExpectedPrint(e.printer, None);
        }
      }
    }

    method FindPrinting(e: Terminal) returns (found: seq<nat>)
      ensures forall i <- found :: i < |items| && Printing(items[i], e)
      ensures found == [] ==> NonePrinting(items, e)
      ensures found != [] ==> FirstPrinting(items, e, found[0])
    {
      found := [];
      for i := 0 to |items|
        invariant forall k <- found :: k < i && Printing(items[k], e)
        invariant found == [] ==> forall k :: 0 <= k < i ==> !Printing(items[k], e)
        invariant found != [] ==> FirstPrinting(items, e, found[0])
      {
        if Printing(items[i], e) {
          found := found + [i];
        }
      }
    }

    method FindCandidates(e: Terminal) returns (found: seq<nat>)
      ensures forall i :: 0 <= i < |items| ==> (Candidate(items[i], e, registrations.prints) <==> i in found)
      ensures forall i <- found :: i < |items|
      ensures forall x, y :: 0 <= x < y < |found| ==> found[x] < found[y]
    {
      found := [];
      for i := 0 to |items|
        invariant forall x :: 0 <= x < |found| ==> found[x] < i
        invariant forall k :: 0 <= k < i ==> (Candidate(items[k], e, registrations.prints) <==> k in found)
        invariant forall x, y :: 0 <= x < y < |found| ==> found[x] < found[y]
      {
        if Candidate(items[i], e, registrations.prints) {
          found := found + [i];
        }
      }
    }
  }
}
