/**
 backend/app/main.py, `_active_prints`: the keys a print start tracks on each of its paths and the lookup a print
 completion does with them.
 */
module ActivePrints {

  import opened Options
  import opened ExpectedPrints

  /** How `on_print_start` came to its archive. */
  datatype Path =
    | Expected(archiveFile: string)
    | Fallback(archiveFile: string)
    | NewArchive(downloaded: string)
    | Resumed(archiveFile: string)

  type Tracked = map<Key, int>

  function StartKeys(path: Path, printer: int, subtask: string, filename: string): seq<Key> {
    match path
    case Expected(file) =>
      [Key(printer, file)] + if subtask != "" then [Key(printer, subtask + ".3mf")] else []
    case Fallback(file) =>
      [Key(printer, file)] + (if filename != "" then [Key(printer, filename)] else [])
      + (if subtask != "" then [Key(printer, subtask + ".3mf"), Key(printer, subtask)] else [])
    case NewArchive(downloaded) =>
      [Key(printer, downloaded)]
      + (if filename != "" && filename != downloaded then [Key(printer, filename)] else [])
      + (if subtask != "" then [Key(printer, subtask + ".3mf")] else [])
    case Resumed(file) => [Key(printer, file)]
  }

  /** The keys `on_print_complete` tries, in order. */
  function CompletionKeys(printer: int, subtask: string, filename: string): seq<Key> {
    (if subtask != "" then
       [Key(printer, subtask + ".3mf"), Key(printer, subtask + ".gcode.3mf"), Key(printer, subtask)]
     else [])
    + (if filename != "" then BaseNameKeys(printer, BaseName(filename)) + FullNameKeys(printer, filename) else [])
  }

  function BaseNameKeys(printer: int, name: string): seq<Key> {
    if EndsWith(name, ".3mf") then [Key(printer, name)]
    else
      var stem := if EndsWith(name, ".gcode") then name[..|name| - 6] else name;
      [Key(printer, stem + ".gcode.3mf"), Key(printer, stem + ".3mf"), Key(printer, name)]
  }

  function FullNameKeys(printer: int, name: string): seq<Key> {
    if EndsWith(name, ".3mf") then [Key(printer, name)]
    else
      var stem := if EndsWith(name, ".gcode") then name[..|name| - 6] else name;
      [Key(printer, stem + ".3mf"), Key(printer, name)]
  }

  /** The lookup loop; 0 is no archive, and its entry is popped on the way. */
  function Resolve(m: Tracked, keys: seq<Key>): (Tracked, Option<int>)
    decreases |keys|
  {
    if keys == [] then (m, None)
    else
      var rest := m - {keys[0]};
      if keys[0] in m && m[keys[0]] != 0 then (Untrack(rest, m[keys[0]]), Some(m[keys[0]]))
      else Resolve(rest, keys[1..])
  }

  /** Drops every key of an archive, on whatever printer. */
  function Untrack(m: Tracked, archive: int): Tracked {
    map k | k in m && m[k] != archive :: m[k]
  }

  // ---------------------------------------------------------------- other printers in between

  datatype Change =
    | Began(path: Path, printer: int, subtask: string, filename: string, archive: int)
    | Ended(printer: int, subtask: string, filename: string)

  function Apply(m: Tracked, e: Change): Tracked {
    match e
    case Began(path, p, subtask, filename, a) => Assign(m, StartKeys(path, p, subtask, filename), a)
    case Ended(p, subtask, filename) => Resolve(m, CompletionKeys(p, subtask, filename)).0
  }

  function ApplyAll(m: Tracked, events: seq<Change>): Tracked {
    if events == [] then m else Apply(ApplyAll(m, events[..|events| - 1]), events[|events| - 1])
  }

  lemma StartKeysBelong(path: Path, printer: int, subtask: string, filename: string)
    ensures forall k <- StartKeys(path, printer, subtask, filename) :: k.printer == printer
  {
  }

  lemma CompletionKeysBelong(printer: int, subtask: string, filename: string)
    ensures forall k <- CompletionKeys(printer, subtask, filename) :: k.printer == printer
  {
  }

  /** What the lookup finds and what it leaves, without naming the loop. */
  lemma {:induction false} ResolutionIsExact(m: Tracked, keys: seq<Key>)
    ensures var (t, found) := Resolve(m, keys);
      && (found == None <==> forall k <- keys :: k !in m || m[k] == 0)
      && (found.Some? ==> found.value != 0 && exists k <- keys :: k in m && m[k] == found.value)
      && (forall k :: k in t ==> k in m && t[k] == m[k] && Some(m[k]) != found)
      && (forall k :: k in m && m[k] != 0 && Some(m[k]) != found ==> k in t)
    decreases |keys|
  {
    if keys != [] {
      assert keys == [keys[0]] + keys[1..];
      if keys[0] in m && m[keys[0]] != 0 {
        assert keys[0] in keys;
      } else {
        ResolutionIsExact(m - {keys[0]}, keys[1..]);
      }
    }
  }

  /** A completion of the run is resolved to this archive. */
  predicate Taken(m: Tracked, events: seq<Change>, archive: int) {
    events != []
    && var before, last := events[..|events| - 1], events[|events| - 1];
      || Taken(m, before, archive)
      || (last.Ended?
          && Resolve(ApplyAll(m, before), CompletionKeys(last.printer, last.subtask, last.filename)).1 == Some(archive))
  }

  predicate Elsewhere(events: seq<Change>, printer: int) { forall e <- events :: e.printer != printer }

  /**
   One event of another printer takes this printer's keys of an archive away exactly when it completes that archive.
   */
  lemma ElsewhereStep(m: Tracked, e: Change, archive: int, k: Key)
    requires archive != 0 && e.printer != k.printer
    ensures var next := Apply(m, e);
      var taken := e.Ended? && Resolve(m, CompletionKeys(e.printer, e.subtask, e.filename)).1 == Some(archive);
      k in next && next[k] == archive <==> k in m && m[k] == archive && !taken
  {
    hide Resolve, StartKeys, CompletionKeys;
    match e
    case Began(path, p, subtask, filename, _) => StartKeysBelong(path, p, subtask, filename);
    case Ended(p, subtask, filename) =>
      CompletionKeysBelong(p, subtask, filename);
      ResolutionIsExact(m, CompletionKeys(p, subtask, filename));
      ResolutionKeepsOthers(m, CompletionKeys(p, subtask, filename), k);
  }

  /** A key that is not among those tried goes only with its archive. */
  lemma {:induction false} ResolutionKeepsOthers(m: Tracked, keys: seq<Key>, k: Key)
    requires k !in keys
    ensures var (t, found) := Resolve(m, keys);
      && (k in t <==> k in m && Some(m[k]) != found)
      && (k in t ==> t[k] == m[k])
    decreases |keys|
  {
    if keys != [] && !(keys[0] in m && m[keys[0]] != 0) {
      ResolutionKeepsOthers(m - {keys[0]}, keys[1..], k);
    }
  }

  /**
   Over every run of other printers' events this printer's keys of an archive stay exactly when no completion of the run
   was resolved to that archive: the clean-up at main.py:4550 does not look at the printer.
   */
  lemma {:induction false} ElsewhereKeepsExactlyWhen(m: Tracked, events: seq<Change>, archive: int, k: Key)
    requires archive != 0 && Elsewhere(events, k.printer) && k in m && m[k] == archive
    ensures var end := ApplyAll(m, events);
      k in end && end[k] == archive <==> !Taken(m, events, archive)
  {
    hide Apply;
    if events != [] {
      var before := events[..|events| - 1];
      assert forall e <- before :: e in events;
      ElsewhereKeepsExactlyWhen(m, before, archive, k);
      ElsewhereStep(ApplyAll(m, before), events[|events| - 1], archive, k);
      hide Resolve;
    }
  }

  lemma {:induction false} TakenLeavesNone(m: Tracked, events: seq<Change>, archive: int, k: Key)
    requires archive != 0 && Elsewhere(events, k.printer) && Taken(m, events, archive)
    ensures var end := ApplyAll(m, events); !(k in end && end[k] == archive)
  {
    hide Apply;
    var before, last := events[..|events| - 1], events[|events| - 1];
    assert forall e <- before :: e in events;
    ElsewhereStep(ApplyAll(m, before), last, archive, k);
    if Taken(m, before, archive) {
      TakenLeavesNone(m, before, archive, k);
    }
    hide Resolve;
  }

  // What rules that out beforehand: nobody else tracks or starts the archive.

  ghost predicate OnlyOn(m: Tracked, printer: int, archive: int) {
    forall k :: k in m && m[k] == archive ==> k.printer == printer
  }

  predicate Unshared(events: seq<Change>, archive: int) { forall e <- events :: e.Began? ==> e.archive != archive }

  lemma UnsharedStep(m: Tracked, e: Change, printer: int, archive: int)
    requires archive != 0 && OnlyOn(m, printer, archive) && e.printer != printer && (e.Began? ==> e.archive != archive)
    ensures OnlyOn(Apply(m, e), printer, archive)
    ensures e.Ended? ==> Resolve(m, CompletionKeys(e.printer, e.subtask, e.filename)).1 != Some(archive)
  {
    hide Resolve, StartKeys, CompletionKeys;
    if e.Ended? {
      CompletionKeysBelong(e.printer, e.subtask, e.filename);
      ResolutionIsExact(m, CompletionKeys(e.printer, e.subtask, e.filename));
    }
  }

  lemma {:induction false} UnsharedIsNotTaken(m: Tracked, events: seq<Change>, printer: int, archive: int)
    requires archive != 0 && OnlyOn(m, printer, archive) && Elsewhere(events, printer) && Unshared(events, archive)
    ensures !Taken(m, events, archive) && OnlyOn(ApplyAll(m, events), printer, archive)
  {
    hide Apply, Resolve, OnlyOn;
    if events != [] {
      var before, last := events[..|events| - 1], events[|events| - 1];
      assert last in events && forall e <- before :: e in events;
      UnsharedIsNotTaken(m, before, printer, archive);
      UnsharedStep(ApplyAll(m, before), last, printer, archive);
    }
  }

  // ---------------------------------------------------------------- start and completion

  ghost predicate AlwaysResolves(path: Path, printer: int, subtask: string, filename: string, archive: int) {
    forall stale: Tracked :: ResolvesOver(stale, path, printer, subtask, filename, archive)
  }

  predicate ResolvesOver(stale: Tracked, path: Path, printer: int, subtask: string, filename: string, archive: int) {
    Resolve(Assign(stale, StartKeys(path, printer, subtask, filename), archive),
            CompletionKeys(printer, subtask, filename)).1 == Some(archive)
  }

  /**
   Whatever stale entries exist, the completion finds its print iff the first name it tries is one the start tracked.
   */
  lemma ResolvesExactlyWhenFirstKeyTracked(path: Path, printer: int, subtask: string, filename: string, archive: int)
    requires archive != 0
    ensures AlwaysResolves(path, printer, subtask, filename, archive) <==>
              (var keys := CompletionKeys(printer, subtask, filename);
               keys != [] && keys[0] in StartKeys(path, printer, subtask, filename))
  {
    hide StartKeys, CompletionKeys;
    var keys := CompletionKeys(printer, subtask, filename);
    if keys == [] {
      assert !ResolvesOver(map[], path, printer, subtask, filename, archive);
    } else if keys[0] !in StartKeys(path, printer, subtask, filename) {
      var other := if archive == -1 then 1 else archive + 1;
      assert !ResolvesOver(map[keys[0] := other], path, printer, subtask, filename, archive);
    }
  }

  /**
   With a subtask name every path but the resuming one is safe; a resumed print needs its archive file named after it.
   */
  lemma NamedPrintsResolve(path: Path, printer: int, subtask: string, filename: string, archive: int)
    requires archive != 0 && subtask != ""
    ensures AlwaysResolves(path, printer, subtask, filename, archive) <==>
              (path.Resumed? ==> path.archiveFile == subtask + ".3mf")
  {
    ResolvesExactlyWhenFirstKeyTracked(path, printer, subtask, filename, archive);
    var keys := StartKeys(path, printer, subtask, filename);
    var first := CompletionKeys(printer, subtask, filename)[0];
    assert first == Key(printer, subtask + ".3mf");
    match path
    case Expected(_) => assert keys[1] == first;
    case Fallback(_) => assert keys[|keys| - 2] == first;
    case NewArchive(_) => assert keys[|keys| - 1] == first;
    case Resumed(_) =>
  }

  /**
   The whole life of a named print: start, any events of other printers, completion. It finds its archive exactly
   when no other printer's completion was resolved to that archive in between, and then exactly the archive's keys
   go.
   */
  lemma CompletionFindsItsPrint(stale: Tracked, path: Path, printer: int, subtask: string, filename: string,
                                archive: int, between: seq<Change>)
    requires archive != 0 && subtask != "" && !path.Resumed? && Elsewhere(between, printer)
    ensures var started := Apply(stale, Began(path, printer, subtask, filename, archive));
      var before := ApplyAll(started, between);
      var (after, found) := Resolve(before, CompletionKeys(printer, subtask, filename));
      && (found == Some(archive) <==> !Taken(started, between, archive))
      && (found == Some(archive) ==>
            && (forall k :: k in after <==> k in before && before[k] != archive)
            && (forall k :: k in after ==> after[k] == before[k]))
  {
    var started := Apply(stale, Began(path, printer, subtask, filename, archive));
    var before := ApplyAll(started, between);
    var keys := CompletionKeys(printer, subtask, filename);
    NamedPrintsResolve(path, printer, subtask, filename, archive);
    ResolvesExactlyWhenFirstKeyTracked(path, printer, subtask, filename, archive);
    CompletionKeysBelong(printer, subtask, filename);
    ElsewhereKeepsExactlyWhen(started, between, archive, keys[0]);
    if Taken(started, between, archive) {
      NoneFound(started, before, keys, between, printer, archive);
    }
    hide StartKeys, CompletionKeys, Taken;
  }

  lemma NoneFound(started: Tracked, before: Tracked, keys: seq<Key>, between: seq<Change>, printer: int, archive: int)
    requires archive != 0 && before == ApplyAll(started, between) && Elsewhere(between, printer)
    requires Taken(started, between, archive) && forall k <- keys :: k.printer == printer
    ensures Resolve(before, keys).1 != Some(archive)
  {
    forall k | k in keys
      ensures !(k in before && before[k] == archive)
    {
      TakenLeavesNone(started, between, archive, k);
    }
    ResolutionIsExact(before, keys);
    hide Resolve, Taken;
  }

  /** Nobody else tracks or starts the archive: the completion finds it whatever else happens. */
  lemma UnsharedCompletionFindsItsPrint(stale: Tracked, path: Path, printer: int, subtask: string, filename: string,
                                        archive: int, between: seq<Change>)
    requires archive != 0 && subtask != "" && !path.Resumed? && Elsewhere(between, printer)
    requires OnlyOn(stale, printer, archive) && Unshared(between, archive)
    ensures var started := Apply(stale, Began(path, printer, subtask, filename, archive));
      Resolve(ApplyAll(started, between), CompletionKeys(printer, subtask, filename)).1 == Some(archive)
  {
    var started := Apply(stale, Began(path, printer, subtask, filename, archive));
    StartKeysBelong(path, printer, subtask, filename);
    assert OnlyOn(started, printer, archive);
    UnsharedIsNotTaken(started, between, printer, archive);
    CompletionFindsItsPrint(stale, path, printer, subtask, filename, archive, between);
  }

  /** One archive printing on two printers: the completion of the one leaves the other's completion without a match. */
  lemma SharedArchiveLosesItsCompletion(one: int, other: int, archive: int)
    requires one != other && archive != 0
    ensures var start := Apply(map[], Began(Expected("cube" + ".3mf"), one, "cube", "", archive));
      var between := [Began(Expected("cube" + ".3mf"), other, "cube", "", archive), Ended(other, "cube", "")];
      Resolve(ApplyAll(start, between), CompletionKeys(one, "cube", "")).1 == None
  {
    var e, f := Began(Expected("cube" + ".3mf"), other, "cube", "", archive), Ended(other, "cube", "");
    var key, key2 := Key(one, "cube" + ".3mf"), Key(other, "cube" + ".3mf");
    var start := Apply(map[], Began(Expected("cube" + ".3mf"), one, "cube", "", archive));
    assert start == map[key := archive];
    var both := Apply(start, e);
    assert StartKeys(e.path, other, "cube", "") == [key2, key2];
    assert both == map[key := archive, key2 := archive];
    var keys := CompletionKeys(other, "cube", "");
    assert keys[0] == key2;
    assert Resolve(both, keys) == (Untrack(both - {key2}, archive), Some(archive));
    assert Apply(both, f) == map[];
    var between := [e, f];
    assert between[..1] == [e] && [e][..0] == [];
    assert ApplyAll(start, [e]) == Apply(ApplyAll(start, []), e) == both;
    assert ApplyAll(start, between) == Apply(ApplyAll(start, between[..1]), f);
    ResolutionIsExact(map[], CompletionKeys(one, "cube", ""));
    hide Resolve, CompletionKeys;
  }

  /** Without a subtask name a created archive is found by its file name, provided the printer has no stale entries. */
  lemma UnnamedPrintsResolveWithoutStaleEntries(stale: Tracked, path: Path, printer: int, filename: string,
                                                archive: int)
    requires archive != 0 && filename != "" && (path.Fallback? || path.NewArchive?)
    requires forall k :: k in stale ==> k.printer != printer
    ensures ResolvesOver(stale, path, printer, "", filename, archive)
  {
    var tracked := Assign(stale, StartKeys(path, printer, "", filename), archive);
    var keys := CompletionKeys(printer, "", filename);
    assert Key(printer, filename) == keys[|keys| - 1];
    assert Key(printer, filename) in StartKeys(path, printer, "", filename);
    StartKeysBelong(path, printer, "", filename);
    CompletionKeysBelong(printer, "", filename);
    ResolutionIsExact(tracked, keys);
  }

  /** A resumed archive whose file carries the usual double extension loses its completion to a stale entry. */
  lemma ResumedPrintCanBeMistaken(printer: int, archive: int, other: int)
    requires archive != other && archive != 0 && other != 0
    ensures var stale := map[Key(printer, "cube" + ".3mf") := other];
      !ResolvesOver(stale, Resumed("cube" + ".gcode.3mf"), printer, "cube", "", archive)
  {
    var tracked := Assign(map[Key(printer, "cube" + ".3mf") := other],
                          StartKeys(Resumed("cube" + ".gcode.3mf"), printer, "cube", ""), archive);
    assert |"cube" + ".3mf"| != |"cube" + ".gcode.3mf"|;
    assert tracked[Key(printer, "cube" + ".3mf")] == other;
  }

  // ---------------------------------------------------------------- the names themselves

  /** What a completion tries for a file at `path` with this base name, stem and extension. */
  function FileNames(dir: string, stem: string, ext: string): seq<string> {
    var name, path := stem + ext, dir + (stem + ext);
    if ext == ".3mf" then [name, path]
    else if ext == ".gcode" then [stem + ".gcode.3mf", stem + ".3mf", name, dir + stem + ".3mf", path]
    else if path == "" then []
    else [name + ".gcode.3mf", name + ".3mf", name, path + ".3mf", path]
  }

  function NamesTried(subtask: string, dir: string, stem: string, ext: string): seq<string> {
    (if subtask != "" then [subtask + ".3mf", subtask + ".gcode.3mf", subtask] else []) + FileNames(dir, stem, ext)
  }

  /** A path has the extension of its base name. */
  lemma Extensions(dir: string, stem: string, ext: string)
    requires (dir == "" || dir[|dir| - 1] == '/') && '/' !in stem && ext in ["", ".3mf", ".gcode"]
    requires ext == "" ==> '.' !in stem
    ensures var name, path := stem + ext, dir + (stem + ext);
      && (EndsWith(name, ".3mf") <==> ext == ".3mf") && (EndsWith(path, ".3mf") <==> ext == ".3mf")
      && (EndsWith(name, ".gcode") <==> ext == ".gcode") && (EndsWith(path, ".gcode") <==> ext == ".gcode")
      && (ext == ".gcode" ==> name[..|name| - 6] == stem && path[..|path| - 6] == dir + stem)
  {
    var name, path := stem + ext, dir + (stem + ext);
    if ext == "" {
      NoExtension(name, name, ".3mf");
      NoExtension(name, name, ".gcode");
      NoExtension(path, name, ".3mf");
      NoExtension(path, name, ".gcode");
    } else {
      assert name[|name| - |ext|..] == ext && path[|path| - |ext|..] == ext;
      assert name[|name| - 1] == path[|path| - 1] == ext[|ext| - 1];
      assert ".3mf"[3] == 'f' && ".gcode"[5] == 'e';
    }
  }

  lemma NoExtension(path: string, name: string, ext: string)
    requires |name| <= |path| && path[|path| - |name|..] == name && '.' !in name && '/' !in name
    requires |path| > |name| ==> path[|path| - |name| - 1] == '/'
    requires ext in [".3mf", ".gcode"]
    ensures !EndsWith(path, ext)
  {
    if |path| >= |ext| {
      var tail, slash := path[|path| - |ext|..], |ext| - |name| - 1;
      if |name| >= |ext| {
        assert tail[0] == name[|name| - |ext|] && tail[0] in name;
      } else if |path| > |name| {
        assert tail[slash] == '/';
      }
    }
  }

  lemma FileKeys(printer: int, dir: string, stem: string, ext: string)
    requires (dir == "" || dir[|dir| - 1] == '/') && '/' !in stem && ext in ["", ".3mf", ".gcode"]
    requires ext == "" ==> '.' !in stem
    requires dir + (stem + ext) != ""
    ensures BaseNameKeys(printer, stem + ext) + FullNameKeys(printer, dir + (stem + ext))
         == KeysFor(printer, FileNames(dir, stem, ext))
  {
    Extensions(dir, stem, ext);
    hide EndsWith, KeysFor;
    var name, path := stem + ext, dir + (stem + ext);
    if ext == ".3mf" {
      assert BaseNameKeys(printer, name) == [Key(printer, name)] && FullNameKeys(printer, path) == [Key(printer, path)];
      hide BaseNameKeys, FullNameKeys;
      TwoKeys(printer, name, path);
    } else if ext == ".gcode" {
      assert BaseNameKeys(printer, name)
          == [Key(printer, stem + ".gcode.3mf"), Key(printer, stem + ".3mf"), Key(printer, name)];
      assert FullNameKeys(printer, path) == [Key(printer, dir + stem + ".3mf"), Key(printer, path)];
      hide BaseNameKeys, FullNameKeys;
      FiveKeys(printer, stem + ".gcode.3mf", stem + ".3mf", name, dir + stem + ".3mf", path);
    } else {
      assert BaseNameKeys(printer, name)
          == [Key(printer, name + ".gcode.3mf"), Key(printer, name + ".3mf"), Key(printer, name)];
      assert FullNameKeys(printer, path) == [Key(printer, path + ".3mf"), Key(printer, path)];
      hide BaseNameKeys, FullNameKeys;
      FiveKeys(printer, name + ".gcode.3mf", name + ".3mf", name, path + ".3mf", path);
    }
  }

  lemma TwoKeys(printer: int, a: string, b: string)
    ensures KeysFor(printer, [a, b]) == [Key(printer, a)] + [Key(printer, b)]
  {
  }

  lemma FiveKeys(printer: int, a: string, b: string, c: string, d: string, e: string)
    ensures KeysFor(printer, [a, b, c, d, e])
         == [Key(printer, a), Key(printer, b), Key(printer, c)] + [Key(printer, d), Key(printer, e)]
  {
  }

  lemma CompletionNames(printer: int, subtask: string, dir: string, stem: string, ext: string)
    requires (dir == "" || dir[|dir| - 1] == '/') && '/' !in stem && ext in ["", ".3mf", ".gcode"]
    requires ext == "" ==> '.' !in stem
    ensures CompletionKeys(printer, subtask, dir + (stem + ext))
         == KeysFor(printer, NamesTried(subtask, dir, stem, ext))
  {
    var path := dir + (stem + ext);
    hide BaseName, BaseNameKeys, FullNameKeys, FileNames;
    assert '/' !in stem + ext;
    BaseNameOf(dir, stem + ext);
    if path == "" {
      assert FileNames(dir, stem, ext) == [] by { NoFile(dir, stem, ext); }
    } else {
      FileKeys(printer, dir, stem, ext);
    }
    var first := if subtask != "" then [subtask + ".3mf", subtask + ".gcode.3mf", subtask] else [];
    assert KeysFor(printer, first + FileNames(dir, stem, ext))
        == KeysFor(printer, first) + KeysFor(printer, FileNames(dir, stem, ext));
  }

  lemma NoFile(dir: string, stem: string, ext: string)
    requires dir + (stem + ext) == ""
    ensures FileNames(dir, stem, ext) == []
  {
  }

  /**
   A resumed print on a printer without stale entries is found exactly when its archive file is one of the names that
   stand for the reported subtask and file: the subtask's 3mf, its gcode.3mf, the bare subtask, and likewise for the
   file.
   */
  lemma ResumedPrintIsFoundExactlyWhen(stale: Tracked, printer: int, file: string, subtask: string, dir: string,
                                       stem: string, ext: string, archive: int)
    requires archive != 0 && forall k :: k in stale ==> k.printer != printer
    requires (dir == "" || dir[|dir| - 1] == '/') && '/' !in stem && ext in ["", ".3mf", ".gcode"]
    requires ext == "" ==> '.' !in stem
    ensures ResolvesOver(stale, Resumed(file), printer, subtask, dir + (stem + ext), archive)
       <==> file in NamesTried(subtask, dir, stem, ext)
  {
    hide CompletionKeys, NamesTried, ResolvesOver;
    CompletionNames(printer, subtask, dir, stem, ext);
    assert StartKeys(Resumed(file), printer, subtask, dir + (stem + ext)) == KeysFor(printer, [file]);
    hide StartKeys, KeysFor;
    FoundUnder(stale, Resumed(file), printer, subtask, dir + (stem + ext), archive, [file],
               NamesTried(subtask, dir, stem, ext));
  }

  /** A print tracked under some names is found by a completion that tries one of them. */
  lemma FoundUnder(stale: Tracked, path: Path, printer: int, subtask: string, filename: string, archive: int,
                   tracked: seq<string>, tried: seq<string>)
    requires archive != 0 && forall k :: k in stale ==> k.printer != printer
    requires forall k :: k in StartKeys(path, printer, subtask, filename) <==> k in KeysFor(printer, tracked)
    requires CompletionKeys(printer, subtask, filename) == KeysFor(printer, tried)
    ensures ResolvesOver(stale, path, printer, subtask, filename, archive) <==>
              exists name <- tried :: name in tracked
  {
    var started := Assign(stale, StartKeys(path, printer, subtask, filename), archive);
    var keys := KeysFor(printer, tried);
    ResolutionIsExact(started, keys);
    hide Resolve, StartKeys, CompletionKeys;
    forall i | 0 <= i < |tried|
      ensures keys[i] in started <==> tried[i] in tracked
      ensures keys[i] in started ==> started[keys[i]] == archive
    {
      if m :| 0 <= m < |tracked| && tracked[m] == tried[i] {
        assert KeysFor(printer, tracked)[m] == keys[i];
      }
    }
    assert (exists k <- keys :: k in started) <==> exists name <- tried :: name in tracked by {
      if k :| k in keys && k in started {
        var i :| 0 <= i < |tried| && keys[i] == k;
        assert tried[i] in tried;
      }
      if name :| name in tried && name in tracked {
        var i :| 0 <= i < |tried| && tried[i] == name;
        assert keys[i] in keys;
      }
    }
  }

  /** The names each path tracks a print under. */
  function NamesTracked(path: Path, subtask: string, filename: string): seq<string> {
    match path
    case Expected(file) => if subtask == "" then [file] else [file, subtask + ".3mf"]
    case Fallback(file) =>
      [file] + (if filename == "" then [] else [filename])
      + if subtask == "" then [] else [subtask + ".3mf", subtask]
    case NewArchive(downloaded) =>
      [downloaded] + (if filename == "" then [] else [filename]) + if subtask == "" then [] else [subtask + ".3mf"]
    case Resumed(file) => [file]
  }

  /**
   Whatever path a print takes, with no stale entries on its printer: a completion that only reports one of the names
   the path tracks finds it. A tracked file is tried as it is, in whatever directory.
   */
  lemma TrackedNamesAreFound(stale: Tracked, path: Path, printer: int, subtask: string, filename: string, archive: int,
                             name: string)
    requires archive != 0 && (forall k :: k in stale ==> k.printer != printer)
    requires name != "" && name in NamesTracked(path, subtask, filename)
    ensures Resolve(Assign(stale, StartKeys(path, printer, subtask, filename), archive),
                    CompletionKeys(printer, "", name)).1 == Some(archive)
  {
    var started := Assign(stale, StartKeys(path, printer, subtask, filename), archive);
    var keys := CompletionKeys(printer, "", name);
    assert keys[|keys| - 1] == Key(printer, name);
    NamesAreKeys(path, printer, subtask, filename, name);
    StartKeysBelong(path, printer, subtask, filename);
    CompletionKeysBelong(printer, "", name);
    hide StartKeys, CompletionKeys, NamesTracked;
    ResolutionIsExact(started, keys);
    assert Key(printer, name) in keys && Key(printer, name) in started;
    hide Resolve;
  }

  lemma NamesAreKeys(path: Path, printer: int, subtask: string, filename: string, name: string)
    requires name in NamesTracked(path, subtask, filename)
    ensures Key(printer, name) in StartKeys(path, printer, subtask, filename)
  {
  }

  // ---------------------------------------------------------------- the dictionary, updated in place

  class Tracking {
    var active: Tracked

    constructor ()
      ensures active == map[]
    {
      active := map[];
    }

    method TrackPrint(path: Path, printer: int, subtask: string, filename: string, archive: int)
      modifies this
      ensures active == Apply(old(active), Began(path, printer, subtask, filename, archive))
    {
      active := AssignAll(active, StartKeys(path, printer, subtask, filename), archive);
    }

    method CompletePrint(printer: int, subtask: string, filename: string) returns (archive: Option<int>)
      modifies this
      ensures (active, archive) == Resolve(old(active), CompletionKeys(printer, subtask, filename))
    {
      var keys := CompletionKeys(printer, subtask, filename);
      var i := 0;
      assert keys[0..] == keys;
      while i < |keys|
        invariant i <= |keys|
        invariant Resolve(old(active), keys) == Resolve(active, keys[i..])
      {
        var key := keys[i];
        var popped := if key in active then Some(active[key]) else None;
        active := active - {key};
        if popped.Some? && popped.value != 0 {
          archive := popped;
          RemoveKeysOf(popped.value);
          return;
        }
        assert keys[i..][1..] == keys[i + 1..];
        i := i + 1;
      }
      archive := None;
    }

    method RemoveKeysOf(archive: int)
      modifies this
      ensures active == Untrack(old(active), archive)
    {
      var todo := set k | k in active && active[k] == archive;
      while todo != {}
        invariant forall k <- todo :: k in active && active[k] == archive
        invariant forall k :: k in active && active[k] == archive ==> k in todo
        invariant Untrack(active, archive) == Untrack(old(active), archive)
        decreases |todo|
      {
        var key := Any(todo);
        active := active - {key};
        todo := todo - {key};
      }
    }
  }
}
