/**
 backend/app/main.py, the process-local registry of dispatched prints: `register_expected_print`,
 `unregister_expected_print`, the consumption in `on_print_start` and the TTL sweep.
 */
module ExpectedPrints {

  import opened Options

  datatype Key = Key(printer: int, name: string)

  /** The five module dictionaries. */
  datatype Registry = Registry(prints: map<Key, int>, creators: map<Key, int>, registeredAt: map<Key, real>,
                               amsMappings: map<int, seq<int>>, plateIds: map<int, int>)

  const EMPTY := Registry(map[], map[], map[], map[], map[])

  const TTL := 7200.0  // _EXPECTED_PRINT_TTL_SECONDS

  // ---------------------------------------------------------------- names

  predicate EndsWith(s: string, suffix: string) {
    |suffix| <= |s| && s[|s| - |suffix|..] == suffix
  }

  /** `s.replace(sub, "")` */
  function Without(s: string, sub: string): string
    requires sub != ""
    decreases |s|
  {
    if |s| < |sub| then s
    else if s[..|sub|] == sub then Without(s[|sub|..], sub)
    else [s[0]] + Without(s[1..], sub)
  }

  /** `s.split("/")[-1]` */
  function BaseName(s: string): string {
    if s == "" then "" else if s[|s| - 1] == '/' then "" else BaseName(s[..|s| - 1]) + [s[|s| - 1]]
  }

  function StoredKeys(printer: int, filename: string): (keys: seq<Key>)
    ensures keys != [] && keys[0] == Key(printer, filename)
  {
    [Key(printer, filename)]
    + if EndsWith(filename, ".3mf") then
        [Key(printer, filename[..|filename| - 4]), Key(printer, filename[..|filename| - 4] + ".gcode")]
      else []
  }

  function Elements<T>(s: seq<T>): set<T> { set x | x in s }

  /** The keys `on_print_start` tries, in order. */
  function ReportedKeys(printer: int, subtask: string, filename: string): seq<Key> {
    (if subtask != "" then [Key(printer, subtask), Key(printer, subtask + ".3mf"), Key(printer, subtask + ".gcode.3mf")]
     else [])
    + (if filename != "" then
         var fname := BaseName(filename);
         var stem := Without(Without(fname, ".gcode"), ".3mf");
         [Key(printer, fname), Key(printer, stem), Key(printer, stem + ".3mf")]
       else [])
  }

  // ---------------------------------------------------------------- the operations on values

  function Assign<V>(m: map<Key, V>, keys: seq<Key>, v: V): map<Key, V> {
    m + map k | k in keys :: v
  }

  function Register(s: Registry, printer: int, filename: string, archive: int, ams: Option<seq<int>>,
                    creator: Option<int>, plate: Option<int>, now: real): Registry {
    var keys := StoredKeys(printer, filename);
    Registry(Assign(s.prints, keys, archive),
             if creator.Some? then Assign(s.creators, keys, creator.value) else s.creators,
             Assign(s.registeredAt, keys, now),
             if ams.Some? then s.amsMappings[archive := ams.value] else s.amsMappings,
             if plate.Some? then s.plateIds[archive := plate.value] else s.plateIds)
  }

  /** Archives that lose their last key when `keys` go. */
  function Orphaned(s: Registry, keys: set<Key>): set<int> {
    (set k | k in keys && k in s.prints :: s.prints[k]) - (s.prints - keys).Values
  }

  function Remove(s: Registry, keys: set<Key>): Registry {
    Registry(s.prints - keys, s.creators - keys, s.registeredAt - keys,
             s.amsMappings - Orphaned(s, keys), s.plateIds - Orphaned(s, keys))
  }

  function KeysOf(s: Registry, printer: int): set<Key> {
    set k | k in s.prints.Keys + s.creators.Keys + s.registeredAt.Keys && k.printer == printer
  }

  function Unregister(s: Registry, printer: int, filename: Option<string>): Registry {
    Remove(s, if filename.None? then KeysOf(s, printer) else Elements(StoredKeys(printer, filename.value)))
  }

  function StaleKeys(s: Registry, now: real): set<Key> {
    set k | k in s.registeredAt && s.registeredAt[k] < now - TTL
  }

  function Sweep(s: Registry, now: real): Registry { Remove(s, StaleKeys(s, now)) }

  function Forget(s: Registry, keys: set<Key>): Registry {
    s.(prints := s.prints - keys, creators := s.creators - keys, registeredAt := s.registeredAt - keys)
  }

  /** Every key of the matched archive, whatever variant the printer reported, and all reported keys. */
  function MatchedKeys(s: Registry, keys: seq<Key>, key: Key, archive: int): set<Key> {
    (set k | k in s.prints && k.printer == key.printer && s.prints[k] == archive) + Elements(keys) + {key}
  }

  /** The matching loop; `archive == 0` counts as no match, as in the source. */
  function Consume(s: Registry, keys: seq<Key>, i: nat): (Registry, Option<int>)
    requires i <= |keys|
    decreases |keys| - i
  {
    if i == |keys| then (s, None)
    else
      var key := keys[i];
      var popped := s.(prints := s.prints - {key}, registeredAt := s.registeredAt - {key});
      if key in s.prints && s.prints[key] != 0 then
        (Forget(popped, MatchedKeys(popped, keys, key, s.prints[key])), Some(s.prints[key]))
      else Consume(popped, keys, i + 1)
  }

  /** `notified` says that the start notification went out before the registry was looked at. */
  function Start(s: Registry, printer: int, subtask: string, filename: string, autoArchive: bool, notified: bool):
      (Registry, Option<int>) {
    var keys := ReportedKeys(printer, subtask, filename);
    if !autoArchive && forall k :: k in keys ==> k !in s.prints then
      (if notified then s else Forget(s, Elements(keys)), None)
    else if "/usr/" <= filename || keys == [] then (s, None)
    else Consume(s, keys, 0)
  }

  // ---------------------------------------------------------------- whole runs

  datatype Event =
    | Registered(printer: int, filename: string, archive: int, ams: Option<seq<int>>, creator: Option<int>,
                 plate: Option<int>, now: real)
    | Started(printer: int, subtask: string, filename: string, autoArchive: bool, notified: bool)
    | Unregistered(printer: int, file: Option<string>)
    | Swept(now: real)
    | Completed(archive: int, mappingReported: bool)

  function Step(s: Registry, e: Event): Registry {
    match e
    case Registered(p, f, a, ams, c, plate, now) => Register(s, p, f, a, ams, c, plate, now)
    case Started(p, subtask, f, auto, notified) => Start(s, p, subtask, f, auto, notified).0
    case Unregistered(p, f) => Unregister(s, p, f)
    case Swept(now) => Sweep(s, now)
    case Completed(a, reported) =>
      s.(amsMappings := if reported then s.amsMappings else s.amsMappings - {a}, plateIds := s.plateIds - {a})
  }

  function Steps(s: Registry, events: seq<Event>): Registry {
    if events == [] then s else Step(Steps(s, events[..|events| - 1]), events[|events| - 1])
  }

  /** Database ids are never 0, which the source would take for "no archive". */
  predicate RealArchives(events: seq<Event>) {
    forall e <- events :: e.Registered? ==> e.archive != 0
  }

  ghost predicate Consistent(s: Registry) {
    && s.prints.Keys == s.registeredAt.Keys
    && s.creators.Keys <= s.prints.Keys
    && forall k :: k in s.prints ==> s.prints[k] != 0
  }

  // ---------------------------------------------------------------- what a match consumes

  lemma ReportedKeysBelong(printer: int, subtask: string, filename: string)
    ensures forall k <- ReportedKeys(printer, subtask, filename) :: k.printer == printer
  {
  }

  /** With no registered key among those tried, the loop pops nothing. */
  lemma {:induction false} ConsumeMisses(s: Registry, keys: seq<Key>, i: nat)
    requires i <= |keys|
    requires forall j :: i <= j < |keys| ==> keys[j] !in s.prints && keys[j] !in s.registeredAt
    ensures Consume(s, keys, i) == (s, None)
    decreases |keys| - i
  {
    if i < |keys| {
      assert s.prints - {keys[i]} == s.prints && s.registeredAt - {keys[i]} == s.registeredAt;
      ConsumeMisses(s, keys, i + 1);
    }
  }

  /** Otherwise the first registered key decides, and its archive's keys go together with all reported ones. */
  lemma {:induction false} ConsumeTakesTheFirst(s: Registry, keys: seq<Key>, i: nat, j: nat)
    requires Consistent(s) && i <= j < |keys| && keys[j] in s.prints
    requires forall m :: i <= m < j ==> keys[m] !in s.prints
    ensures var archive := s.prints[keys[j]];
      Consume(s, keys, i) == (Forget(s, MatchedKeys(s, keys, keys[j], archive)), Some(archive))
    decreases j - i
  {
    var popped := s.(prints := s.prints - {keys[i]}, registeredAt := s.registeredAt - {keys[i]});
    if i < j {
      assert popped == s;
      ConsumeTakesTheFirst(s, keys, i + 1, j);
    } else {
      var a := s.prints[keys[j]];
      var gone := MatchedKeys(s, keys, keys[j], a);
      assert MatchedKeys(popped, keys, keys[j], a) == gone;
      assert popped.prints - gone == s.prints - gone;
      assert popped.registeredAt - gone == s.registeredAt - gone;
    }
  }

  function FirstRegistered(s: Registry, keys: seq<Key>, i: nat): (j: nat)
    requires i <= |keys|
    ensures i <= j <= |keys|
    ensures j < |keys| ==> keys[j] in s.prints
    ensures forall m :: i <= m < j ==> keys[m] !in s.prints
    decreases |keys| - i
  {
    if i == |keys| || keys[i] in s.prints then i else FirstRegistered(s, keys, i + 1)
  }

  /** What a print start does to the registry, without naming the loop. */
  lemma ConsumptionIsExact(s: Registry, printer: int, keys: seq<Key>)
    requires Consistent(s)
    requires forall k <- keys :: k.printer == printer
    ensures var (t, matched) := Consume(s, keys, 0);
      && Consistent(t)
      && t.amsMappings == s.amsMappings && t.plateIds == s.plateIds
      && (matched == None <==> forall k <- keys :: k !in s.prints)
      && (matched == None ==> t == s)
      && (matched.Some? ==>
            && (exists k <- keys :: k in s.prints && s.prints[k] == matched.value)
            && (forall k :: k in t.prints <==>
                  k in s.prints && k !in keys && !(k.printer == printer && s.prints[k] == matched.value))
            && (forall k :: k in t.prints ==> t.prints[k] == s.prints[k] && t.registeredAt[k] == s.registeredAt[k])
            && (forall k :: k in t.creators <==> k in s.creators && k in t.prints)
            && (forall k :: k in t.creators ==> t.creators[k] == s.creators[k]))
  {
    var j := FirstRegistered(s, keys, 0);
    if j == |keys| {
      ConsumeMisses(s, keys, 0);
    } else {
      ConsumeTakesTheFirst(s, keys, 0, j);
    }
  }

  // ---------------------------------------------------------------- the invariant of every run

  lemma StepKeepsConsistent(s: Registry, e: Event)
    requires Consistent(s)
    requires e.Registered? ==> e.archive != 0
    ensures Consistent(Step(s, e))
  {
    hide Consume, MatchedKeys;
    if e.Started? {
      ReportedKeysBelong(e.printer, e.subtask, e.filename);
      ConsumptionIsExact(s, e.printer, ReportedKeys(e.printer, e.subtask, e.filename));
    }
  }

  lemma {:induction false} RunsStayConsistent(s: Registry, events: seq<Event>)
    requires Consistent(s) && RealArchives(events)
    ensures Consistent(Steps(s, events))
  {
    hide Step;
    if events != [] {
      RunsStayConsistent(s, events[..|events| - 1]);
      StepKeepsConsistent(Steps(s, events[..|events| - 1]), events[|events| - 1]);
    }
  }

  /** An archive numbered 0 would be popped without counting as a match, and its creator entry would stay behind. */
  lemma ArchiveZeroLeaksItsCreator(p: int, user: int)
    ensures var s := Register(EMPTY, p, "a", 0, None, Some(user), None, 0.0);
      var t := Start(s, p, "a", "", true, true).0;
      && t.prints == map[] && t.registeredAt == map[] && t.creators == map[Key(p, "a") := user]
  {
    var s := Register(EMPTY, p, "a", 0, None, Some(user), None, 0.0);
    var k := Key(p, "a");
    assert StoredKeys(p, "a") == [k];
    assert s.prints == map[k := 0] && s.registeredAt == map[k := 0.0] && s.creators == map[k := user];
    var keys := ReportedKeys(p, "a", "");
    assert keys == [k, Key(p, "a" + ".3mf"), Key(p, "a" + ".gcode.3mf")];
    ZeroIsPoppedUnmatched(s, keys);
  }

  lemma ZeroIsPoppedUnmatched(s: Registry, keys: seq<Key>)
    requires keys != [] && s.prints == map[keys[0] := 0] && s.registeredAt.Keys == {keys[0]}
    ensures Consume(s, keys, 0) == (s.(prints := map[], registeredAt := map[]), None)
  {
    var popped := s.(prints := map[], registeredAt := map[]);
    assert s.prints - {keys[0]} == map[] && s.registeredAt - {keys[0]} == map[];
    ConsumeMisses(popped, keys, 1);
  }

  // ---------------------------------------------------------------- eviction and withdrawal

  /** Unregistering and sweeping drop a removed archive's AMS mapping and plate exactly when no live key is left. */
  lemma ArchiveDataGoesWithTheLastKey(s: Registry, keys: set<Key>, archive: int)
    ensures var t := Remove(s, keys);
      var orphaned := (exists k :: k in s.prints && s.prints[k] == archive && k !in t.prints)
                      && (forall k :: k in t.prints ==> t.prints[k] != archive);
      && (archive in t.amsMappings <==> archive in s.amsMappings && !orphaned)
      && (archive in t.plateIds <==> archive in s.plateIds && !orphaned)
  {
    var left := s.prints - keys;
    if k :| k in left && left[k] == archive {
      assert archive in left.Values;
    }
  }

  /** After a sweep exactly the registrations no older than two hours are left. */
  lemma SweepKeepsTheFresh(s: Registry, now: real)
    requires Consistent(s)
    ensures var t := Sweep(s, now);
      && (forall k :: k in t.prints <==> k in s.prints && now - s.registeredAt[k] <= 7200.0)
      && (forall k :: k in t.prints ==> t.prints[k] == s.prints[k] && t.registeredAt[k] == s.registeredAt[k])
      && Consistent(t)
  {
  }

  lemma AssignThenDrop<V>(m: map<Key, V>, keys: seq<Key>, v: V)
    requires forall k <- keys :: k !in m
    ensures Assign(m, keys, v) - Elements(keys) == m
    ensures forall k <- keys :: k in Assign(m, keys, v) && Assign(m, keys, v)[k] == v
  {
  }

  lemma WithdrawnArchive(s: Registry, keys: seq<Key>, archive: int)
    requires keys != [] && forall k <- keys :: k in s.prints && s.prints[k] == archive
    ensures Orphaned(s, Elements(keys)) == if archive in (s.prints - Elements(keys)).Values then {} else {archive}
  {
    assert keys[0] in Elements(keys) && s.prints[keys[0]] == archive;
  }

  /** The archive's AMS mapping and plate come through a registration and its withdrawal. */
  predicate DataComesBack(s: Registry, archive: int, ams: Option<seq<int>>, plate: Option<int>) {
    if archive in s.prints.Values then
      && (ams.Some? ==> archive in s.amsMappings && s.amsMappings[archive] == ams.value)
      && (plate.Some? ==> archive in s.plateIds && s.plateIds[archive] == plate.value)
    else archive !in s.amsMappings && archive !in s.plateIds
  }

  lemma Regained<V>(m: map<int, V>, archive: int, v: Option<V>, dropped: bool)
    ensures var set_ := if v.Some? then m[archive := v.value] else m;
      (if dropped then set_ - {archive} else set_) == m
      <==> if dropped then archive !in m else v.Some? ==> archive in m && m[archive] == v.value
  {
    var set_ := if v.Some? then m[archive := v.value] else m;
    if !dropped && v.Some? {
      assert set_[archive] == v.value;
    } else if dropped {
      assert archive !in set_ - {archive};
    }
  }

  /**
   Withdrawing a dispatch restores the registry exactly when none of its names was registered before, and the archive
   either had live keys and the same AMS mapping and plate, or no keys and no such data at all.
   */
  lemma UnregisterUndoesRegisterExactlyWhen(s: Registry, printer: int, filename: string, archive: int,
                                            ams: Option<seq<int>>, creator: Option<int>, plate: Option<int>, now: real)
    requires Consistent(s)
    ensures Unregister(Register(s, printer, filename, archive, ams, creator, plate, now), printer, Some(filename)) == s
       <==> (forall k <- StoredKeys(printer, filename) :: k !in s.prints) && DataComesBack(s, archive, ams, plate)
  {
    var keys := StoredKeys(printer, filename);
    var t := Register(s, printer, filename, archive, ams, creator, plate, now);
    var u := Unregister(t, printer, Some(filename));
    hide StoredKeys, Assign, Orphaned;
    if k :| k in keys && k in s.prints {
      assert k in Elements(keys) && k !in u.prints;
    } else {
      AssignThenDrop(s.prints, keys, archive);
      AssignThenDrop(s.registeredAt, keys, now);
      AssignThenDrop(s.creators, keys, if creator.Some? then creator.value else 0);
      assert s.creators - Elements(keys) == s.creators;
      WithdrawnArchive(t, keys, archive);
      Regained(s.amsMappings, archive, ams, archive !in s.prints.Values);
      Regained(s.plateIds, archive, plate, archive !in s.prints.Values);
      assert t.amsMappings - {} == t.amsMappings && t.plateIds - {} == t.plateIds;
      hide Consistent;
    }
  }

  // ---------------------------------------------------------------- a dispatch waits for its print

  /** Any event but a registration, start or withdrawal on this printer. */
  predicate Away(e: Event, printer: int) {
    match e
    case Registered(p, _, a, _, _, _, _) => p != printer && a != 0
    case Started(p, _, _, _, _) => p != printer
    case Unregistered(p, _) => p != printer
    case Swept(_) => true
    case Completed(_, _) => true
  }

  /** No sweep of the run finds a key of this age too old. */
  predicate Unswept(events: seq<Event>, at: real) {
    forall e <- events :: e.Swept? ==> e.now - at <= TTL
  }

  /** A printer's key after a step or a run: gone if swept, else as it was. */
  predicate KeyIs(s: Registry, t: Registry, k: Key, kept: bool)
    requires k in s.prints && k in s.registeredAt
  {
    && (k in t.prints <==> kept)
    && (kept ==> k in t.prints && t.prints[k] == s.prints[k]
                 && k in t.registeredAt && t.registeredAt[k] == s.registeredAt[k])
  }

  lemma StoredKeysBelong(printer: int, filename: string)
    ensures forall k <- StoredKeys(printer, filename) :: k.printer == printer
  {
  }

  lemma StartKeepsAway(s: Registry, e: Event, k: Key)
    requires Consistent(s) && e.Started? && e.printer != k.printer
    ensures k in s.prints ==> KeyIs(s, Step(s, e), k, true)
    ensures k !in s.prints ==> k !in Step(s, e).prints
  {
    hide Consume, ReportedKeys;
    StepKeepsConsistent(s, e);
    ReportedKeysBelong(e.printer, e.subtask, e.filename);
    ConsumptionIsExact(s, e.printer, ReportedKeys(e.printer, e.subtask, e.filename));
  }

  lemma StepKeepsAway(s: Registry, e: Event, k: Key)
    requires Consistent(s) && Away(e, k.printer)
    ensures Consistent(Step(s, e))
    ensures k in s.prints ==> KeyIs(s, Step(s, e), k, Unswept([e], s.registeredAt[k]))
    ensures k !in s.prints ==> k !in Step(s, e).prints
  {
    hide Consume, ReportedKeys, StoredKeys, Orphaned;
    StepKeepsConsistent(s, e);
    assert e in [e];
    match e
    case Registered(p, f, _, _, _, _, _) => StoredKeysBelong(p, f);
    case Started(_, _, _, _, _) => StartKeepsAway(s, e, k);
    case Unregistered(p, f) => if f.Some? { StoredKeysBelong(p, f.value); }
    case _ =>
  }

  /**
   Over any run of events elsewhere and of sweeps, a printer's key lives on unchanged exactly when no sweep was too
   late.
   */
  lemma {:induction false} KeysWait(s: Registry, events: seq<Event>, k: Key)
    requires Consistent(s) && forall e <- events :: Away(e, k.printer)
    ensures Consistent(Steps(s, events))
    ensures k in s.prints ==> KeyIs(s, Steps(s, events), k, Unswept(events, s.registeredAt[k]))
    ensures k !in s.prints ==> k !in Steps(s, events).prints
  {
    assert k in s.prints ==> k in s.registeredAt;
    hide Step, Consistent;
    if events != [] {
      var before, last := events[..|events| - 1], events[|events| - 1];
      assert last in events && forall e <- before :: e in events;
      KeysWait(s, before, k);
      StepKeepsAway(Steps(s, before), last, k);
      if k in s.prints {
        var at := s.registeredAt[k];
        assert (forall e <- events :: e.Swept? ==> e.now - at <= TTL) <==> Unswept(before, at) && Unswept([last], at);
      }
    }
  }

  // ---------------------------------------------------------------- the start that follows

  /** The first reported key that is still registered after the run, from position i on. */
  function FirstAlive(s: Registry, events: seq<Event>, keys: seq<Key>, i: nat): (j: nat)
    requires i <= |keys| && Consistent(s)
    ensures i <= j <= |keys|
    ensures j < |keys| ==> keys[j] in s.prints && Unswept(events, s.registeredAt[keys[j]])
    ensures forall m :: i <= m < j ==> !(keys[m] in s.prints && Unswept(events, s.registeredAt[keys[m]]))
    decreases |keys| - i
  {
    if i == |keys| || (keys[i] in s.prints && Unswept(events, s.registeredAt[keys[i]])) then i
    else FirstAlive(s, events, keys, i + 1)
  }

  lemma AliveKeys(s: Registry, printer: int, events: seq<Event>, keys: seq<Key>)
    requires Consistent(s) && (forall e <- events :: Away(e, printer)) && forall k <- keys :: k.printer == printer
    ensures var before := Steps(s, events);
      && Consistent(before)
      && forall m :: 0 <= m < |keys| ==>
           && (keys[m] in before.prints
               <==> keys[m] in s.prints && keys[m] in s.registeredAt && Unswept(events, s.registeredAt[keys[m]]))
           && (keys[m] in before.prints ==> before.prints[keys[m]] == s.prints[keys[m]])
  {
    hide Step, Steps, Unswept, Away;
    var before := Steps(s, events);
    KeysWait(s, events, Key(printer, ""));
    forall m | 0 <= m < |keys|
      ensures keys[m] in before.prints <==> keys[m] in s.prints && Unswept(events, s.registeredAt[keys[m]])
      ensures keys[m] in before.prints ==> before.prints[keys[m]] == s.prints[keys[m]]
    {
      assert keys[m] in keys;
      KeysWait(s, events, keys[m]);
    }
  }

  /**
   Whatever a printer has registered, and after any run of events elsewhere and sweeps: its next start claims the
   archive of the first name it reports that was registered and not swept, and leaves no key of that archive on the
   printer. A start of a file below /usr/ claims nothing.
   */
  lemma StartClaimsTheFirstAlive(s: Registry, printer: int, events: seq<Event>, subtask: string, filename: string,
                                 autoArchive: bool, notified: bool)
    requires Consistent(s) && forall e <- events :: Away(e, printer)
    ensures var keys := ReportedKeys(printer, subtask, filename);
      var j := FirstAlive(s, events, keys, 0);
      var (after, archive) := Start(Steps(s, events), printer, subtask, filename, autoArchive, notified);
      && archive == (if j < |keys| && !("/usr/" <= filename) then Some(s.prints[keys[j]]) else None)
      && (archive.Some? ==> forall k :: k in after.prints && k.printer == printer ==> after.prints[k] != archive.value)
      && (forall k :: k in after.prints ==>
            k in Steps(s, events).prints && after.prints[k] == Steps(s, events).prints[k])
  {
    var keys := ReportedKeys(printer, subtask, filename);
    var j := FirstAlive(s, events, keys, 0);
    var before := Steps(s, events);
    ReportedKeysBelong(printer, subtask, filename);
    hide Step, Steps, ReportedKeys, Unswept, Consistent, Away, MatchedKeys;
    AliveKeys(s, printer, events, keys);
    ConsumptionIsExact(before, printer, keys);
    if j < |keys| {
      assert keys[j] in keys;
      ConsumeTakesTheFirst(before, keys, 0, j);
    } else {
      ConsumeMisses(before, keys, 0);
    }
    hide Consume;
  }

  /**
   A dispatch to a printer without other registrations, then any events elsewhere and sweeps: the next start on the
   printer is taken for the dispatched archive exactly when its file is not below /usr/, one of the names it reports is
   one of the names stored, and no sweep found the dispatch too old; then the printer is left with no registration.
   */
  lemma DispatchIsRecognised(s: Registry, d: Event, events: seq<Event>, subtask: string, filename: string,
                             autoArchive: bool, notified: bool)
    requires Consistent(s) && d.Registered? && d.archive != 0
    requires forall k :: k in s.prints ==> k.printer != d.printer
    requires forall e <- events :: Away(e, d.printer)
    ensures var before := Steps(Step(s, d), events);
      var (after, archive) := Start(before, d.printer, subtask, filename, autoArchive, notified);
      var known := exists k <- ReportedKeys(d.printer, subtask, filename) :: k in StoredKeys(d.printer, d.filename);
      && archive == (if known && Unswept(events, d.now) && !("/usr/" <= filename) then Some(d.archive) else None)
      && (archive.Some? ==> forall k :: k in after.prints ==> k.printer != d.printer)
  {
    var w := Step(s, d);
    var keys := ReportedKeys(d.printer, subtask, filename);
    StepKeepsConsistent(s, d);
    DispatchKeys(s, d);
    StartClaimsTheFirstAlive(w, d.printer, events, subtask, filename, autoArchive, notified);
    ReportedKeysBelong(d.printer, subtask, filename);
    hide Step, Steps, Start, ReportedKeys, HoldsOnly, Consistent, Away, Unswept, FirstAlive;
    FirstAliveOfDispatch(w, d, events, keys);
    var (after, archive) := Start(Steps(w, events), d.printer, subtask, filename, autoArchive, notified);
    if archive.Some? {
      NothingIsLeft(w, d, events, after);
    }
  }

  /** The printer has exactly the keys of this dispatch. */
  ghost predicate HoldsOnly(s: Registry, d: Event)
    requires d.Registered?
  {
    var keys := StoredKeys(d.printer, d.filename);
    && (forall k: Key :: k.printer == d.printer && k in s.prints ==> k in keys)
    && (forall k <- keys :: k.printer == d.printer && k in s.prints && s.prints[k] == d.archive
                            && k in s.registeredAt && s.registeredAt[k] == d.now)
  }

  lemma DispatchKeys(s: Registry, d: Event)
    requires d.Registered? && forall k :: k in s.prints ==> k.printer != d.printer
    ensures HoldsOnly(Step(s, d), d)
  {
    StoredKeysBelong(d.printer, d.filename);
    hide StoredKeys;
  }

  lemma FirstAliveOfDispatch(w: Registry, d: Event, events: seq<Event>, keys: seq<Key>)
    requires d.Registered? && Consistent(w) && HoldsOnly(w, d) && forall k <- keys :: k.printer == d.printer
    ensures var j := FirstAlive(w, events, keys, 0);
      && (j < |keys| <==> (exists k <- keys :: k in StoredKeys(d.printer, d.filename)) && Unswept(events, d.now))
      && (j < |keys| ==> w.prints[keys[j]] == d.archive)
  {
    hide StoredKeys, Unswept;
    var j := FirstAlive(w, events, keys, 0);
    if j < |keys| {
      assert keys[j] in keys;
    } else if k :| k in keys && k in StoredKeys(d.printer, d.filename) {
      var m :| 0 <= m < |keys| && keys[m] == k;
    }
  }

  lemma NothingIsLeft(w: Registry, d: Event, events: seq<Event>, after: Registry)
    requires d.Registered? && Consistent(w) && HoldsOnly(w, d) && forall e <- events :: Away(e, d.printer)
    requires forall k :: k in after.prints ==>
               k in Steps(w, events).prints && after.prints[k] == Steps(w, events).prints[k]
    requires forall k :: k in after.prints && k.printer == d.printer ==> after.prints[k] != d.archive
    ensures forall k :: k in after.prints ==> k.printer != d.printer
  {
    hide Steps, Away, Unswept, StoredKeys;
    forall k | k in after.prints
      ensures k.printer != d.printer
    {
      if k.printer == d.printer {
        KeysWait(w, events, k);
      }
    }
  }

  // ---------------------------------------------------------------- the names themselves

  /** The base name is what follows the last slash. */
  lemma {:induction false} BaseNameOf(dir: string, name: string)
    requires '/' !in name && (dir == "" || dir[|dir| - 1] == '/')
    ensures BaseName(dir + name) == name
  {
    var s := dir + name;
    if name == "" {
      assert s == dir;
    } else {
      var n := |name| - 1;
      assert s[..|s| - 1] == dir + name[..n] && s[|s| - 1] == name[n] && name[n] in name;
      BaseNameOf(dir, name[..n]);
    }
  }

  /** Removing an extension leaves a stem without dots alone. */
  lemma {:induction false} StemStays(stem: string, rest: string, sub: string)
    requires '.' !in stem && sub != "" && sub[0] == '.'
    ensures Without(stem + rest, sub) == stem + Without(rest, sub)
  {
    var s := stem + rest;
    if stem == "" {
      assert s == rest;
    } else {
      assert s[0] == stem[0] && stem[0] in stem && s[1..] == stem[1..] + rest;
      assert |s| >= |sub| ==> s[..|sub|][0] == s[0];
      StemStays(stem[1..], rest, sub);
      assert [stem[0]] + (stem[1..] + Without(rest, sub)) == stem + Without(rest, sub);
    }
  }

  const EXTENSIONS := ["", ".3mf", ".gcode", ".gcode.3mf"]

  lemma StemOf(stem: string, ext: string)
    requires '.' !in stem && ext in EXTENSIONS
    ensures Without(Without(stem + ext, ".gcode"), ".3mf") == stem
  {
    StemStays(stem, ext, ".gcode");
    StemStays(stem, Without(ext, ".gcode"), ".3mf");
    ExtensionsGo(ext);
    hide Without;
  }

  lemma ExtensionsGo(ext: string)
    requires ext in EXTENSIONS
    ensures Without(Without(ext, ".gcode"), ".3mf") == ""
  {
    assert ".gcode.3mf"[6..] == ".3mf" && ".gcode.3mf"[..6] == ".gcode" && ".gcode"[..6] == ".gcode";
    assert ".3mf"[..4] == ".3mf";
  }

  /** The archive of the first of these names that is registered for the printer. */
  function FirstOf(s: Registry, printer: int, names: seq<string>): Option<int> {
    if names == [] then None
    else if Key(printer, names[0]) in s.prints then Some(s.prints[Key(printer, names[0])])
    else FirstOf(s, printer, names[1..])
  }

  function KeysFor(printer: int, names: seq<string>): (keys: seq<Key>)
    ensures |keys| == |names| && forall i :: 0 <= i < |names| ==> keys[i] == Key(printer, names[i])
  {
    seq(|names|, i requires 0 <= i < |names| => Key(printer, names[i]))
  }

  lemma {:induction false} FirstOfRegistered(s: Registry, printer: int, names: seq<string>, i: nat)
    requires i <= |names|
    ensures var keys := KeysFor(printer, names);
      var j := FirstRegistered(s, keys, i);
      FirstOf(s, printer, names[i..]) == if j < |names| then Some(s.prints[keys[j]]) else None
    decreases |names| - i
  {
    if i < |names| {
      assert names[i..][0] == names[i] && names[i..][1..] == names[i + 1..];
      FirstOfRegistered(s, printer, names, i + 1);
    }
  }

  /** What a start tries: the subtask with its extensions, then the base name of the file, its stem, the stem's 3mf. */
  function NamesTried(subtask: string, stem: string, ext: string): seq<string> {
    (if subtask != "" then [subtask, subtask + ".3mf", subtask + ".gcode.3mf"] else [])
    + if stem + ext != "" then [stem + ext, stem, stem + ".3mf"] else []
  }

  lemma ReportedNames(printer: int, subtask: string, dir: string, stem: string, ext: string)
    requires (dir == "" || (dir[|dir| - 1] == '/' && stem + ext != "")) && '/' !in stem && '.' !in stem
    requires ext in EXTENSIONS
    ensures ReportedKeys(printer, subtask, dir + (stem + ext)) == KeysFor(printer, NamesTried(subtask, stem, ext))
  {
    hide BaseName, Without, KeysFor;
    BaseNameOf(dir, stem + ext);
    StemOf(stem, ext);
    assert dir + (stem + ext) == "" <==> stem + ext == "";
    ThreeKeys(printer, subtask, subtask + ".3mf", subtask + ".gcode.3mf");
    ThreeKeys(printer, stem + ext, stem, stem + ".3mf");
    KeysJoin(printer, if subtask != "" then [subtask, subtask + ".3mf", subtask + ".gcode.3mf"] else [],
             if stem + ext != "" then [stem + ext, stem, stem + ".3mf"] else []);
  }

  lemma ThreeKeys(printer: int, a: string, b: string, c: string)
    ensures KeysFor(printer, [a, b, c]) == [Key(printer, a), Key(printer, b), Key(printer, c)]
    ensures KeysFor(printer, []) == []
  {
  }

  lemma KeysJoin(printer: int, a: seq<string>, b: seq<string>)
    ensures KeysFor(printer, a + b) == KeysFor(printer, a) + KeysFor(printer, b)
  {
  }

  /**
   A start of any of the usual files, wherever it lies outside /usr/: of the names that stand for its subtask and its
   file, the first registered one decides, in this order.
   */
  lemma StartTriesInOrder(s: Registry, printer: int, subtask: string, dir: string, stem: string, ext: string,
                          autoArchive: bool, notified: bool)
    requires Consistent(s) && !("/usr/" <= dir + (stem + ext))
    requires (dir == "" || (dir[|dir| - 1] == '/' && stem + ext != "")) && '/' !in stem && '.' !in stem
    requires ext in ["", ".3mf", ".gcode", ".gcode.3mf"]
    ensures Start(s, printer, subtask, dir + (stem + ext), autoArchive, notified).1
         == FirstOf(s, printer, NamesTried(subtask, stem, ext))
  {
    var names := NamesTried(subtask, stem, ext);
    var keys := KeysFor(printer, names);
    ReportedNames(printer, subtask, dir, stem, ext);
    FirstOfRegistered(s, printer, names, 0);
    assert names[0..] == names;
    var j := FirstRegistered(s, keys, 0);
    hide ReportedKeys, NamesTried, FirstOf, Consistent, MatchedKeys;
    if j < |keys| {
      assert keys[j] in keys;
      ConsumeTakesTheFirst(s, keys, 0, j);
    } else {
      ConsumptionIsExact(s, printer, keys);
    }
    hide Consume;
  }

  /** The names a dispatch is stored under. */
  function NamesStored(stem: string, ext: string): seq<string> {
    if ext == ".3mf" then [stem + ".3mf", stem, stem + ".gcode"] else [stem]
  }

  lemma StoredNames(printer: int, stem: string, ext: string)
    requires ext == ".3mf" || (ext == "" && !EndsWith(stem, ".3mf"))
    ensures StoredKeys(printer, stem + ext) == KeysFor(printer, NamesStored(stem, ext))
  {
    var file := stem + ext;
    if ext == ".3mf" {
      assert file[..|file| - 4] == stem && file[|file| - 4..] == ".3mf";
    } else {
      assert file == stem;
    }
  }

  /** Archive, time and creator are stored under the file, with a 3mf under its stem and gcode too; the rest stays. */
  lemma DispatchIsStored(s: Registry, printer: int, stem: string, ext: string, archive: int, ams: Option<seq<int>>,
                         creator: Option<int>, plate: Option<int>, now: real, name: string)
    requires ext == ".3mf" || (ext == "" && !EndsWith(stem, ".3mf"))
    ensures var t, k := Register(s, printer, stem + ext, archive, ams, creator, plate, now), Key(printer, name);
      if name in (if ext == ".3mf" then [stem + ".3mf", stem, stem + ".gcode"] else [stem]) then
        && k in t.prints && t.prints[k] == archive && k in t.registeredAt && t.registeredAt[k] == now
        && (creator.Some? ==> k in t.creators && t.creators[k] == creator.value)
      else
        && (k in t.prints <==> k in s.prints) && (k in t.prints ==> t.prints[k] == s.prints[k])
        && (k in t.creators <==> k in s.creators) && (k in t.creators ==> t.creators[k] == s.creators[k])
  {
    StoredNames(printer, stem, ext);
    var names := NamesStored(stem, ext);
    assert Key(printer, name) in KeysFor(printer, names) <==> name in names by {
      if i :| 0 <= i < |names| && names[i] == name {
        assert KeysFor(printer, names)[i] == Key(printer, name);
      }
    }
    hide StoredKeys, EndsWith, NamesStored, KeysFor;
  }

  /** The printer holds exactly these names, all for one archive. */
  ghost predicate HoldsNames(s: Registry, printer: int, names: seq<string>, archive: int) {
    forall name :: (Key(printer, name) in s.prints <==> name in names)
                && (name in names ==> s.prints[Key(printer, name)] == archive)
  }

  lemma {:induction false} FirstOfHeld(s: Registry, printer: int, held: seq<string>, archive: int, names: seq<string>)
    requires HoldsNames(s, printer, held, archive)
    ensures FirstOf(s, printer, names) == if exists name <- names :: name in held then Some(archive) else None
  {
    if names != [] {
      assert forall name :: name in names <==> name == names[0] || name in names[1..];
      FirstOfHeld(s, printer, held, archive, names[1..]);
    }
  }

  /**
   A dispatch to a free printer is claimed by a start that reports its subtask, whether the dispatched file is the bare
   subtask, its 3mf or its gcode.3mf, and whatever file the start names outside /usr/.
   */
  lemma DispatchedSubtaskIsClaimed(s: Registry, printer: int, file: string, archive: int, ams: Option<seq<int>>,
                                   creator: Option<int>, plate: Option<int>, now: real, subtask: string,
                                   filename: string, autoArchive: bool, notified: bool)
    requires Consistent(s) && archive != 0 && forall k :: k in s.prints ==> k.printer != printer
    requires subtask != "" && file in [subtask, subtask + ".3mf", subtask + ".gcode.3mf"]
    requires !("/usr/" <= filename)
    ensures var t := Register(s, printer, file, archive, ams, creator, plate, now);
      Start(t, printer, subtask, filename, autoArchive, notified).1 == Some(archive)
  {
    var keys := ReportedKeys(printer, subtask, filename);
    assert keys[0] == Key(printer, subtask) && keys[1] == Key(printer, subtask + ".3mf");
    assert keys[2] == Key(printer, subtask + ".gcode.3mf");
    assert Key(printer, file) in keys && Key(printer, file) in StoredKeys(printer, file);
    hide ReportedKeys, StoredKeys, Consistent;
    var d := Registered(printer, file, archive, ams, creator, plate, now);
    DispatchIsRecognised(s, d, [], subtask, filename, autoArchive, notified);
    assert Steps(Step(s, d), []) == Step(s, d);
    hide Steps, Start;
  }

  /**
   So it is by a start that names only the file, in any directory outside /usr/: of a dispatched 3mf when it names that,
   its stem, its gcode or its gcode.3mf, and of a dispatched gcode.3mf when it names that or the gcode, and not
   otherwise.
   */
  lemma DispatchedFileIsClaimed(s: Registry, printer: int, stem: string, sliced: bool, archive: int,
                                ams: Option<seq<int>>, creator: Option<int>, plate: Option<int>, now: real,
                                dir: string, ext: string, autoArchive: bool, notified: bool)
    requires Consistent(s) && archive != 0 && forall k :: k in s.prints ==> k.printer != printer
    requires stem != "" && '/' !in stem && '.' !in stem && (dir == "" || dir[|dir| - 1] == '/')
    requires !("/usr/" <= dir + (stem + ext)) && ext in ["", ".3mf", ".gcode", ".gcode.3mf"]
    ensures var file := if sliced then stem + ".gcode.3mf" else stem + ".3mf";
      var t := Register(s, printer, file, archive, ams, creator, plate, now);
      Start(t, printer, "", dir + (stem + ext), autoArchive, notified).1
      == if sliced && ext in ["", ".3mf"] then None else Some(archive)
  {
    var inner := if sliced then stem + ".gcode" else stem;
    var file := if sliced then stem + ".gcode.3mf" else stem + ".3mf";
    assert inner + ".3mf" == file;
    var t := Register(s, printer, file, archive, ams, creator, plate, now);
    hide Register, Start, Consistent, NamesTried, FirstOf, HoldsNames;
    DispatchHolds(s, printer, inner, archive, ams, creator, plate, now);
    StartTriesInOrder(t, printer, "", dir, stem, ext, autoArchive, notified);
    FirstOfHeld(t, printer, [inner + ".3mf", inner, inner + ".gcode"], archive, NamesTried("", stem, ext));
    NamesMeet(stem, sliced, ext);
  }

  lemma DispatchHoldsName(s: Registry, printer: int, stem: string, archive: int, ams: Option<seq<int>>,
                          creator: Option<int>, plate: Option<int>, now: real, name: string)
    requires Key(printer, name) !in s.prints
    ensures var t, stored := Register(s, printer, stem + ".3mf", archive, ams, creator, plate, now),
                             [stem + ".3mf", stem, stem + ".gcode"];
      && (Key(printer, name) in t.prints <==> name in stored)
      && (name in stored ==> t.prints[Key(printer, name)] == archive)
  {
    hide *;
    DispatchIsStored(s, printer, stem, ".3mf", archive, ams, creator, plate, now, name);
  }

  lemma DispatchHolds(s: Registry, printer: int, stem: string, archive: int, ams: Option<seq<int>>,
                      creator: Option<int>, plate: Option<int>, now: real)
    requires Consistent(s) && archive != 0 && forall k :: k in s.prints ==> k.printer != printer
    ensures var t := Register(s, printer, stem + ".3mf", archive, ams, creator, plate, now);
      Consistent(t) && HoldsNames(t, printer, [stem + ".3mf", stem, stem + ".gcode"], archive)
  {
    var d := Registered(printer, stem + ".3mf", archive, ams, creator, plate, now);
    var t := Step(s, d);
    StepKeepsConsistent(s, d);
    assert t == Register(s, printer, stem + ".3mf", archive, ams, creator, plate, now);
    hide Register, Consistent, Step;
    forall name
      ensures Key(printer, name) in t.prints <==> name in [stem + ".3mf", stem, stem + ".gcode"]
      ensures name in [stem + ".3mf", stem, stem + ".gcode"] ==> t.prints[Key(printer, name)] == archive
    {
      DispatchHoldsName(s, printer, stem, archive, ams, creator, plate, now, name);
    }
  }

  lemma NamesMeet(stem: string, sliced: bool, ext: string)
    requires stem != "" && ext in ["", ".3mf", ".gcode", ".gcode.3mf"]
    ensures var inner := if sliced then stem + ".gcode" else stem;
      (exists name <- NamesTried("", stem, ext) :: name in [inner + ".3mf", inner, inner + ".gcode"])
      <==> !(sliced && ext in ["", ".3mf"])
  {
    var inner := if sliced then stem + ".gcode" else stem;
    var held, tried := [inner + ".3mf", inner, inner + ".gcode"], NamesTried("", stem, ext);
    assert tried == [stem + ext, stem, stem + ".3mf"];
    if !sliced {
      assert tried[1] in tried && held[1] in held;
    } else if ext in ["", ".3mf"] {
      assert forall name <- held :: |name| > |stem| + 5;
      assert forall name <- tried :: |name| < |stem| + 5;
    } else {
      assert tried[0] in tried && held[0] in held && held[1] in held;
      assert tried[0] == if ext == ".gcode" then held[1] else held[0];
    }
  }

  // ---------------------------------------------------------------- the AMS mapping and plate meanwhile

  /** What the last registration or completion of an archive leaves of its AMS mapping. */
  function LastMapping(events: seq<Event>, archive: int, initial: Option<seq<int>>): Option<seq<int>> {
    if events == [] then initial
    else
      var before, last := LastMapping(events[..|events| - 1], archive, initial), events[|events| - 1];
      if last.Registered? && last.archive == archive && last.ams.Some? then last.ams
      else if last.Completed? && last.archive == archive && !last.mappingReported then None
      else before
  }

  function LastPlate(events: seq<Event>, archive: int, initial: Option<int>): Option<int> {
    if events == [] then initial
    else
      var before, last := LastPlate(events[..|events| - 1], archive, initial), events[|events| - 1];
      if last.Registered? && last.archive == archive && last.plate.Some? then last.plate
      else if last.Completed? && last.archive == archive then None
      else before
  }

  function Get<V>(m: map<int, V>, k: int): Option<V> { if k in m then Some(m[k]) else None }

  /** A live key keeps an archive's data out of reach of withdrawals and sweeps. */
  lemma LiveDataStays(s: Registry, keys: set<Key>, k: Key)
    requires k in s.prints && k !in keys
    ensures var t := Remove(s, keys);
      Get(t.amsMappings, s.prints[k]) == Get(s.amsMappings, s.prints[k])
      && Get(t.plateIds, s.prints[k]) == Get(s.plateIds, s.prints[k])
  {
    assert k in s.prints - keys && (s.prints - keys)[k] == s.prints[k];
    assert s.prints[k] in (s.prints - keys).Values;
  }

  lemma DataAtStart(s: Registry, e: Event)
    requires Consistent(s) && e.Started?
    ensures Step(s, e).amsMappings == s.amsMappings && Step(s, e).plateIds == s.plateIds
  {
    hide Consume, ReportedKeys;
    ReportedKeysBelong(e.printer, e.subtask, e.filename);
    ConsumptionIsExact(s, e.printer, ReportedKeys(e.printer, e.subtask, e.filename));
  }

  lemma DataStep(s: Registry, e: Event, k: Key)
    requires Consistent(s) && k in s.prints && Away(e, k.printer) && k in Step(s, e).prints
    ensures var a := s.prints[k];
      && Get(Step(s, e).amsMappings, a) == LastMapping([e], a, Get(s.amsMappings, a))
      && Get(Step(s, e).plateIds, a) == LastPlate([e], a, Get(s.plateIds, a))
  {
    hide Start, StoredKeys, Orphaned, Consistent;
    assert [e][..0] == [];
    match e
    case Started(_, _, _, _, _) => DataAtStart(s, e);
    case Unregistered(p, f) =>
      if f.Some? { StoredKeysBelong(p, f.value); }
      LiveDataStays(s, if f.None? then KeysOf(s, p) else Elements(StoredKeys(p, f.value)), k);
    case Swept(now) => LiveDataStays(s, StaleKeys(s, now), k);
    case _ =>
  }

  /**
   While a key of an archive waits, its AMS mapping and plate are always those that the last registration or
   completion of that archive left, on whatever printer: they stay those of the dispatch unless the archive is
   dispatched again with others or completed.
   */
  lemma {:induction false} DataIsLastWritten(s: Registry, events: seq<Event>, k: Key)
    requires Consistent(s) && k in s.prints && (forall e <- events :: Away(e, k.printer))
    requires Unswept(events, s.registeredAt[k])
    ensures var t, a := Steps(s, events), s.prints[k];
      && k in t.prints && t.prints[k] == a
      && Get(t.amsMappings, a) == LastMapping(events, a, Get(s.amsMappings, a))
      && Get(t.plateIds, a) == LastPlate(events, a, Get(s.plateIds, a))
  {
    KeysWait(s, events, k);
    hide Step, Consistent;
    if events != [] {
      var before, last := events[..|events| - 1], events[|events| - 1];
      assert last in events && forall e <- before :: e in events;
      DataIsLastWritten(s, before, k);
      KeysWait(s, before, k);
      DataStep(Steps(s, before), last, k);
      assert [last][..0] == [];
    }
  }

  // ---------------------------------------------------------------- the module dictionaries, updated in place

  lemma RemoveOneMore<K, V>(m: map<K, V>, all: set<K>, todo: set<K>, k: K)
    requires k in todo && todo <= all
    ensures m - (all - todo) - {k} == m - (all - (todo - {k}))
  {
  }

  lemma AssignOneMore<V>(m: map<Key, V>, keys: seq<Key>, i: nat, v: V)
    requires i < |keys|
    ensures Assign(m, keys[..i], v)[keys[i] := v] == Assign(m, keys[..i + 1], v)
  {
    assert forall k :: k in keys[..i + 1] <==> k in keys[..i] || k == keys[i];
  }

  /** The loop each dictionary is filled with. */
  method AssignAll<V>(m: map<Key, V>, keys: seq<Key>, v: V) returns (r: map<Key, V>)
    ensures r == Assign(m, keys, v)
  {
    r := m;
    assert Assign(m, [], v) == m;
    for i := 0 to |keys|
      invariant r == Assign(m, keys[..i], v)
    {
      hide Assign;
      AssignOneMore(m, keys, i, v);
      r := r[keys[i] := v];
    }
    assert keys[..|keys|] == keys;
  }

  class Registrations {
    var prints: map<Key, int>
    var creators: map<Key, int>
    var registeredAt: map<Key, real>
    var amsMappings: map<int, seq<int>>
    var plateIds: map<int, int>

    constructor ()
      ensures Value() == EMPTY
    {
      prints, creators, registeredAt, amsMappings, plateIds := map[], map[], map[], map[], map[];
    }

    function Value(): Registry
      reads this
    {
      Registry(prints, creators, registeredAt, amsMappings, plateIds)
    }

    method RegisterExpectedPrint(printer: int, filename: string, archive: int, ams: Option<seq<int>>,
                                 creator: Option<int>, plate: Option<int>, now: real)
      modifies this
      ensures Value() == Register(old(Value()), printer, filename, archive, ams, creator, plate, now)
    {
      var keys := StoredKeys(printer, filename);
      prints := AssignAll(prints, keys, archive);
      if ams.Some? {
        amsMappings := amsMappings[archive := ams.value];
      }
      if plate.Some? {
        plateIds := plateIds[archive := plate.value];
      }
      if creator.Some? {
        creators := AssignAll(creators, keys, creator.value);
      }
      registeredAt := AssignAll(registeredAt, keys, now);
    }

    method UnregisterExpectedPrint(printer: int, filename: Option<string>)
      modifies this
      ensures Value() == Unregister(old(Value()), printer, filename)
    {
      var keys;
      if filename.None? {
        keys := set k | k in prints && k.printer == printer;
        keys := keys + (set k | k in creators && k.printer == printer);
        keys := keys + (set k | k in registeredAt && k.printer == printer);
        assert keys == KeysOf(old(Value()), printer);
      } else {
        keys := Elements(StoredKeys(printer, filename.value));
      }
      var removed := PopKeys(keys);
      DropData(removed);
      RemovedArchives(old(Value()), keys, removed);
    }

    method EvictStale(now: real)
      modifies this
      ensures Value() == Sweep(old(Value()), now)
    {
      var stale := set k | k in registeredAt && registeredAt[k] < now - TTL;
      assert stale == StaleKeys(old(Value()), now);
      if stale == {} {
        RemoveNothing(old(Value()));
        return;
      }
      var evicted := PopKeys(stale);
      DropData(evicted);
      RemovedArchives(old(Value()), stale, evicted);
    }

    /** The loop that unregistering and sweeping share: the keys go, and the archives they named are collected. */
    method PopKeys(keys: set<Key>) returns (removed: set<int>)
      modifies `prints, `creators, `registeredAt
      ensures prints == old(prints) - keys
      ensures creators == old(creators) - keys && registeredAt == old(registeredAt) - keys
      ensures removed == set k | k in keys && k in old(prints) :: old(prints)[k]
    {
      var todo := keys;
      removed := {};
      while todo != {}
        invariant todo <= keys
        invariant prints == old(prints) - (keys - todo)
        invariant creators == old(creators) - (keys - todo)
        invariant registeredAt == old(registeredAt) - (keys - todo)
        invariant removed == set k | k in keys - todo && k in old(prints) :: old(prints)[k]
        decreases |todo|
      {
        var key := Any(todo);
        if key in prints {
          removed := removed + {prints[key]};
        }
        RemoveOneMore(old(prints), keys, todo, key);
        RemoveOneMore(old(creators), keys, todo, key);
        RemoveOneMore(old(registeredAt), keys, todo, key);
        prints, creators, registeredAt := prints - {key}, creators - {key}, registeredAt - {key};
        todo := todo - {key};
      }
    }

    /** The second shared loop: a collected archive without a live key loses its mapping and plate. */
    method DropData(archives: set<int>)
      modifies `amsMappings, `plateIds
      ensures amsMappings == old(amsMappings) - (archives - prints.Values)
      ensures plateIds == old(plateIds) - (archives - prints.Values)
    {
      var live := prints.Values;
      var todo := archives;
      while todo != {}
        invariant todo <= archives
        invariant amsMappings == old(amsMappings) - (archives - todo - live)
        invariant plateIds == old(plateIds) - (archives - todo - live)
        decreases |todo|
      {
        var a := Any(todo);
        if a !in live {
          amsMappings, plateIds := amsMappings - {a}, plateIds - {a};
        }
        todo := todo - {a};
      }
    }

    /**
     The matching loop of `on_print_start`. The set of keys to forget is visited in no particular order, so with several
     creators among them any one may be reported.
     */
    method ConsumeExpectedPrint(keys: seq<Key>) returns (archive: Option<int>, creator: Option<int>)
      modifies `prints, `creators, `registeredAt
      ensures (Value(), archive) == Consume(old(Value()), keys, 0)
      ensures creator.Some? ==> exists k :: k in old(creators) && k !in creators && old(creators)[k] == creator.value
      ensures creator.None? ==> creators == old(creators)
    {
      archive, creator := None, None;
      var i := 0;
      while i < |keys|
        invariant i <= |keys| && archive == None && creator == None && creators == old(creators)
        invariant Consume(old(Value()), keys, 0) == Consume(Value(), keys, i)
      {
        var key := keys[i];
        var popped := if key in prints then Some(prints[key]) else None;
        prints, registeredAt := prints - {key}, registeredAt - {key};
        if popped.Some? && popped.value != 0 {
          archive := popped;
          ghost var before := Value();
          var gone := set k | k in prints && k.printer == key.printer && prints[k] == popped.value;
          gone := gone + Elements(keys) + {key};
          creator := ForgetKeys(gone);
          assert gone == MatchedKeys(before, keys, key, popped.value);
          return;
        }
        i := i + 1;
      }
    }

    method ForgetKeys(gone: set<Key>) returns (creator: Option<int>)
      modifies `prints, `creators, `registeredAt
      ensures Value() == Forget(old(Value()), gone)
      ensures creator.Some? ==> exists k :: k in gone && k in old(creators) && old(creators)[k] == creator.value
      ensures creator.None? ==> creators == old(creators)
    {
      creator := None;
      var todo := gone;
      while todo != {}
        invariant todo <= gone
        invariant prints == old(prints) - (gone - todo)
        invariant creators == old(creators) - (gone - todo)
        invariant registeredAt == old(registeredAt) - (gone - todo)
        invariant creator.Some? ==> exists k :: k in gone && k in old(creators) && old(creators)[k] == creator.value
        invariant creator.None? ==> creators == old(creators)
        decreases |todo|
      {
        var key := Any(todo);
        if creator.None? && key in creators {
          creator := Some(creators[key]);
        }
        RemoveOneMore(old(prints), gone, todo, key);
        RemoveOneMore(old(creators), gone, todo, key);
        RemoveOneMore(old(registeredAt), gone, todo, key);
        prints, creators, registeredAt := prints - {key}, creators - {key}, registeredAt - {key};
        todo := todo - {key};
      }
    }
  }

  lemma RemovedArchives(s: Registry, keys: set<Key>, removed: set<int>)
    requires removed == set k | k in keys && k in s.prints :: s.prints[k]
    ensures Orphaned(s, keys) == removed - (s.prints - keys).Values
  {
  }

  lemma RemoveNothing(s: Registry)
    ensures Remove(s, {}) == s
  {
    assert s.prints - {} == s.prints && s.creators - {} == s.creators && s.registeredAt - {} == s.registeredAt;
    assert s.amsMappings - {} == s.amsMappings && s.plateIds - {} == s.plateIds;
    assert Orphaned(s, {}) == {};
  }
}
