/**
 scripts/rebuild_database.py, `rebuild`: the sequence of file operations that replaces the live database, with a failure
 possible at every one of them.
 */
module DatabaseFiles {

  import opened Options

  /** Committed transactions, oldest first. */
  type Content = seq<int>

  /** A database on disk: the main file and the frames still in its `-wal` sidecar. */
  datatype Files = Files(main: Content, wal: Content) {
    /** What a reader sees. */
    function Content(): Content { main + wal }
  }

  /** The next operation of `rebuild`; `CleanUp` is its exception handler. */
  datatype Pc =
    | Backup | VerifyBackup | CheckpointLive
    | BuildSchema | CopyData | Export | CheckpointStaging | VerifyStaging | RemoveSidecars | Replace | VerifyLive
    | CleanUp | Succeeded | Failed

  /** `replaced` remembers that os.replace took place. */
  datatype State = State(pc: Pc, live: Files, staging: Option<Files>, backup: Option<Files>, exported: Option<Content>,
                         replaced: bool)

  /** What one conversion starts from: the live files, what the exported tables hold, and the outcome of quick_check. */
  datatype Job = Job(original: Files, unsupported: Option<Content>, sound: Content -> bool)

  /**
   The operation at hand works or fails. `files` is what the step leaves of the file it writes, finished or partial;
   `moved` is how many frames a busy checkpoint has copied over, or how many files a clean-up has removed.
   */
  datatype Event = Works(files: Files) | Fails(files: Files, moved: nat)

  function Begin(job: Job): State { State(Backup, job.original, None, None, None, false) }

  /** `PRAGMA wal_checkpoint(TRUNCATE)`. */
  function Checkpointed(f: Files): Files { Files(f.Content(), []) }

  function PartlyCheckpointed(f: Files, moved: nat): Files {
    if moved <= |f.wal| then Files(f.main + f.wal[..moved], f.wal[moved..]) else f
  }

  function Verified(job: Job, s: State, f: Option<Files>, e: Event, next: Pc, handler: Pc): State {
    if e.Works? && f.Some? && job.sound(f.value.Content()) then s.(pc := next) else s.(pc := handler)
  }

  function Step(job: Job, s: State, e: Event): State {
    match s.pc
    case Backup =>
      if e.Works? then s.(pc := VerifyBackup, backup := Some(Files(s.live.Content(), [])))
      else s.(pc := Failed, backup := Some(e.files))
    case VerifyBackup => Verified(job, s, s.backup, e, CheckpointLive, Failed)
    case CheckpointLive =>
      if e.Works? then s.(pc := BuildSchema, live := Checkpointed(s.live))
      else s.(pc := Failed, live := PartlyCheckpointed(s.live, e.moved))
    case BuildSchema => s.(pc := if e.Works? then CopyData else CleanUp, staging := Some(e.files))
    case CopyData => s.(pc := if e.Works? then Export else CleanUp, staging := Some(e.files))
    case Export =>
      if e.Works? then s.(pc := CheckpointStaging, exported := job.unsupported) else s.(pc := CleanUp)
    case CheckpointStaging =>
      if s.staging.None? then s.(pc := CleanUp)
      else if e.Works? then s.(pc := VerifyStaging, staging := Some(Checkpointed(s.staging.value)))
      else s.(pc := CleanUp, staging := Some(PartlyCheckpointed(s.staging.value, e.moved)))
    case VerifyStaging => Verified(job, s, s.staging, e, RemoveSidecars, CleanUp)
    case RemoveSidecars =>
      s.(pc := if e.Works? then Replace else CleanUp,
         live := if e.Works? || e.moved > 0 then Files(s.live.main, []) else s.live)
    case Replace =>
      if e.Works? && s.staging.Some? then
        s.(pc := VerifyLive, live := Files(s.staging.value.main, s.live.wal), staging := None, replaced := true)
      else s.(pc := CleanUp)
    case VerifyLive => Verified(job, s, Some(s.live), e, Succeeded, CleanUp)
    case CleanUp =>
      if e.Works? then s.(pc := Failed, staging := None, exported := None)
      else s.(pc := Failed, staging := if e.moved > 0 then None else s.staging)
    case Succeeded => s
    case Failed => s
  }

  function RunFrom(job: Job, s: State, events: seq<Event>): State
    decreases |events|
  {
    if events == [] then s else RunFrom(job, Step(job, s, events[0]), events[1..])
  }

  function Run(job: Job, events: seq<Event>): State { RunFrom(job, Begin(job), events) }

  // ---------------------------------------------------------------- the sidecar

  /** Unlinking the sidecar loses no content exactly when it holds no frames, as after a checkpoint. */
  lemma RemovingSidecarLosesNothingExactlyWhen(f: Files)
    ensures Files(f.main, []).Content() == f.Content() <==> f.wal == []
    ensures Files(Checkpointed(f).main, []).Content() == f.Content()
  {
    assert |f.Content()| == |f.main| + |f.wal|;
    if f.wal == [] { assert f.main + f.wal == f.main; }
  }

  lemma CheckpointsKeepContent(f: Files, moved: nat)
    ensures Checkpointed(f).Content() == f.Content() && PartlyCheckpointed(f, moved).Content() == f.Content()
  {
    if moved <= |f.wal| { assert f.wal == f.wal[..moved] + f.wal[moved..]; }
  }

  // ---------------------------------------------------------------- every moment of every run

  /** Everything up to the checkpoint of the live database, during which there is no handler. */
  predicate Preparing(pc: Pc) { pc in {Backup, VerifyBackup, CheckpointLive} }

  /** Every later point but a failed end. */
  predicate UnderHandler(pc: Pc) { !Preparing(pc) && pc != Failed }

  ghost predicate Inv(job: Job, s: State) {
    && (!s.replaced ==> s.live.Content() == job.original.Content())
    && (s.replaced ==> s.live.wal == [] && job.sound(s.live.Content()))
    && (UnderHandler(s.pc) ==> s.live.wal == [])
    && (s.pc in {VerifyStaging, RemoveSidecars, Replace} ==> s.staging.Some? && s.staging.value.wal == [])
    && (s.pc in {RemoveSidecars, Replace} ==> job.sound(s.staging.value.Content()))
    && (s.pc in {VerifyLive, Succeeded} ==> s.replaced && s.staging == None)
    && (s.pc !in {VerifyLive, Succeeded, CleanUp, Failed} ==> !s.replaced)
    && (s.pc in {CheckpointStaging, VerifyStaging, RemoveSidecars, Replace, VerifyLive, Succeeded} ==>
          s.exported == job.unsupported)
    && (s.pc == VerifyBackup || s.pc == CheckpointLive || UnderHandler(s.pc) || s.replaced ==>
          s.backup == Some(Files(job.original.Content(), [])))
    && (s.pc == CheckpointLive || UnderHandler(s.pc) || s.replaced ==> job.sound(job.original.Content()))
    && (Preparing(s.pc) || s.pc == BuildSchema ==> s.staging == None)
    && (Preparing(s.pc) || s.pc in {BuildSchema, CopyData, Export} ==> s.exported == None)
    && (s.exported == None || s.exported == job.unsupported)
  }

  lemma PreparingKeepsInv(job: Job, s: State, e: Event)
    requires Inv(job, s) && Preparing(s.pc)
    ensures Inv(job, Step(job, s, e))
  {
    assert job.original.Content() + [] == job.original.Content();
    CheckpointsKeepContent(s.live, if e.Fails? then e.moved else 0);
  }

  lemma LaterStepsKeepInv(job: Job, s: State, e: Event)
    requires Inv(job, s) && !Preparing(s.pc)
    ensures Inv(job, Step(job, s, e))
  {
    if s.pc == RemoveSidecars {
      RemovingSidecarLosesNothingExactlyWhen(s.live);
    } else if s.pc == Replace {
      assert s.staging.value.main + s.staging.value.wal == s.staging.value.main;
    }
  }

  lemma StepKeepsInv(job: Job, s: State, e: Event)
    requires Inv(job, s)
    ensures Inv(job, Step(job, s, e))
  {
    hide Step, Inv;
    if Preparing(s.pc) {
      PreparingKeepsInv(job, s, e);
    } else {
      LaterStepsKeepInv(job, s, e);
    }
  }

  lemma {:induction false} RunFromKeepsInv(job: Job, s: State, events: seq<Event>)
    requires Inv(job, s)
    ensures Inv(job, RunFrom(job, s, events))
    decreases |events|
  {
    hide Step, Inv;
    if events != [] {
      StepKeepsInv(job, s, events[0]);
      RunFromKeepsInv(job, Step(job, s, events[0]), events[1..]);
    }
  }

  lemma RunKeepsInv(job: Job, events: seq<Event>)
    ensures Inv(job, Run(job, events))
  {
    assert Inv(job, Begin(job));
    RunFromKeepsInv(job, Begin(job), events);
  }

  lemma {:induction false} RunSnoc(job: Job, s: State, events: seq<Event>, e: Event)
    ensures RunFrom(job, s, events + [e]) == Step(job, RunFrom(job, s, events), e)
    decreases |events|
  {
    hide Step;
    if events == [] {
      assert [] + [e] == [e] && [e][1..] == [];
    } else {
      assert (events + [e])[0] == events[0] && (events + [e])[1..] == events[1..] + [e];
      RunSnoc(job, Step(job, s, events[0]), events[1..], e);
    }
  }

  /** The i-th event is reached at the point `pc` and works, or fails. */
  predicate Reaches(job: Job, events: seq<Event>, i: nat, pc: Pc, works: bool) {
    i < |events| && Run(job, events[..i]).pc == pc && events[i].Works? == works
  }

  ghost predicate Happened(job: Job, events: seq<Event>, pc: Pc, works: bool) {
    exists i :: Reaches(job, events, i, pc, works)
  }

  /** An operation of the handler has raised. */
  ghost predicate CleanUpRaised(job: Job, events: seq<Event>) { Happened(job, events, CleanUp, false) }

  /** The check of the installed database has worked. */
  ghost predicate LastCheckWorked(job: Job, events: seq<Event>) { Happened(job, events, VerifyLive, true) }

  /** The export has been written. */
  ghost predicate ExportWritten(job: Job, events: seq<Event>) { Happened(job, events, Export, true) }

  lemma HappenedBefore(job: Job, events: seq<Event>, e: Event, pc: Pc, works: bool)
    ensures Happened(job, events + [e], pc, works) <==>
              Happened(job, events, pc, works) || (Run(job, events).pc == pc && e.Works? == works)
  {
    hide Run;
    var all := events + [e];
    assert all[..|events|] == events;
    assert Run(job, events).pc == pc && e.Works? == works ==> Reaches(job, all, |events|, pc, works);
    forall i: nat | i < |events|
      ensures Reaches(job, all, i, pc, works) == Reaches(job, events, i, pc, works)
    {
      assert all[..i] == events[..i];
    }
  }

  /** The operations of a rebuild in order, and its good end. */
  const PLAN := [Backup, VerifyBackup, CheckpointLive, BuildSchema, CopyData, Export, CheckpointStaging, VerifyStaging,
                 RemoveSidecars, Replace, VerifyLive, Succeeded]

  lemma OneOperationAtATime(job: Job, s: State, e: Event, k: nat)
    requires 0 < k < |PLAN| && Step(job, s, e).pc == PLAN[k]
    ensures (s.pc == PLAN[k - 1] && e.Works?) || (s.pc == Succeeded == PLAN[k])
  {
  }

  /** No operation is skipped: wherever a run stands, every operation before that point has worked. */
  lemma {:induction false} NothingIsSkipped(job: Job, events: seq<Event>, k: nat, i: nat)
    requires i < k < |PLAN| && Run(job, events).pc == PLAN[k]
    ensures Happened(job, events, PLAN[i], true)
    decreases |events|
  {
    hide Happened;
    if events != [] {
      var n := |events| - 1;
      var init, e := events[..n], events[n];
      assert events == init + [e];
      RunSnoc(job, Begin(job), init, e);
      OneOperationAtATime(job, Run(job, init), e, k);
      HappenedBefore(job, init, e, PLAN[i], true);
      hide Step, RunFrom;
      if Run(job, init).pc == PLAN[k] {
        NothingIsSkipped(job, init, k, i);
      } else if i < k - 1 {
        NothingIsSkipped(job, init, k - 1, i);
      }
    }
  }

  lemma {:induction false} LeftoversNeedARaisedCleanUp(job: Job, events: seq<Event>)
    ensures var s := Run(job, events);
      s.pc == Failed ==> (s.staging == None && s.exported == None) || CleanUpRaised(job, events)
  {
    if events != [] {
      var n := |events| - 1;
      var init := events[..n];
      assert events == init + [events[n]];
      RunSnoc(job, Begin(job), init, events[n]);
      RunKeepsInv(job, init);
      LeftoversNeedARaisedCleanUp(job, init);
      HappenedBefore(job, init, events[n], CleanUp, false);
    }
  }

  /**
   At every moment of every run, whatever fails and wherever the process dies: the live path holds the full original
   or a replacement that passed quick_check, and from the replacement on a full and sound backup stands beside it.
   */
  lemma LiveIsNeverLost(job: Job, events: seq<Event>)
    ensures var s := Run(job, events);
      && (if s.replaced then job.sound(s.live.Content()) && s.backup == Some(Files(job.original.Content(), []))
          else s.live.Content() == job.original.Content())
      && (s.pc == Succeeded ==> s.replaced && s.live.wal == [] && s.staging == None && s.exported == job.unsupported)
      && (s.pc == Failed ==>
            (s.staging == None && s.exported == None) || CleanUpRaised(job, events))
  {
    RunKeepsInv(job, events);
    LeftoversNeedARaisedCleanUp(job, events);
  }

  /** The replacement that ends up live is the staging content that was verified, sidecar included. */
  lemma ReplaceInstallsStaging(job: Job, events: seq<Event>, e: Event)
    requires var s := Run(job, events); s.pc == Replace && e.Works?
    ensures var s, t := Run(job, events), Step(job, Run(job, events), e);
      s.staging.Some? && t.replaced && t.live.Content() == s.staging.value.Content()
  {
    RunKeepsInv(job, events);
    var f := Run(job, events).staging.value;
    assert f.main + f.wal == f.main && f.main + [] == f.main;
  }

  lemma RunCons(job: Job, s: State, e: Event, rest: seq<Event>)
    ensures RunFrom(job, s, [e] + rest) == RunFrom(job, Step(job, s, e), rest)
  {
    hide Step;
    assert ([e] + rest)[1..] == rest;
  }

  lemma RunThree(job: Job, s: State, a: Event, b: Event, c: Event, rest: seq<Event>)
    ensures RunFrom(job, s, [a, b, c] + rest) == RunFrom(job, Step(job, Step(job, Step(job, s, a), b), c), rest)
  {
    hide Step, RunFrom;
    assert [a, b, c] + rest == [a] + ([b] + ([c] + rest));
    RunCons(job, s, a, [b] + ([c] + rest));
    RunCons(job, Step(job, s, a), b, [c] + rest);
    RunCons(job, Step(job, Step(job, s, a), b), c, rest);
  }

  function Preparation(): seq<Event> { seq(3, _ => Works(Files([], []))) }

  /** Preparation goes through exactly when the backup passes quick_check. */
  lemma PreparationWorks(job: Job)
    ensures RunFrom(job, Begin(job), Preparation())
         == if job.sound(job.original.Content()) then
              State(BuildSchema, Checkpointed(job.original), None, Some(Files(job.original.Content(), [])), None, false)
            else State(Failed, job.original, None, Some(Files(job.original.Content(), [])), None, false)
  {
    var w := Works(Files([], []));
    var c := job.original.Content();
    assert c + [] == c;
    assert Preparation() == [w] + ([w] + ([w] + []));
    var s1 := Step(job, Begin(job), w);
    var s2 := Step(job, s1, w);
    RunCons(job, Begin(job), w, [w] + ([w] + []));
    RunCons(job, s1, w, [w] + []);
    RunCons(job, s2, w, []);
  }

  function Installation(built: Files, copied: Files): seq<Event> {
    [Works(built), Works(copied)] + seq(6, _ => Works(Files([], [])))
  }

  /** From there the copied database is installed exactly when it passes quick_check. */
  lemma InstallationWorks(job: Job, s: State, built: Files, copied: Files)
    requires s.pc == BuildSchema && s.live.wal == [] && !s.replaced
    ensures var t := RunFrom(job, s, Installation(built, copied));
      if job.sound(copied.Content()) then
        t == State(Succeeded, Checkpointed(copied), None, s.backup, job.unsupported, true)
      else
        t == s.(pc := Failed, staging := None, exported := None)
  {
    var w := Works(Files([], []));
    var s3 := Step(job, Step(job, Step(job, s, Works(built)), Works(copied)), w);
    var s6 := Step(job, Step(job, Step(job, s3, w), w), w);
    assert copied.Content() + [] == copied.Content();
    assert Step(job, Step(job, s6, w), w)
        == if job.sound(copied.Content()) then
             State(Succeeded, Checkpointed(copied), None, s.backup, job.unsupported, true)
           else
             s.(pc := Failed, staging := None, exported := None);
    hide Step;
    assert Installation(built, copied) == [Works(built), Works(copied), w] + ([w, w, w] + ([w] + ([w] + [])));
    RunThree(job, s, Works(built), Works(copied), w, [w, w, w] + ([w] + ([w] + [])));
    RunThree(job, s3, w, w, w, [w] + ([w] + []));
    RunCons(job, s6, w, [w] + []);
    RunCons(job, Step(job, s6, w), w, []);
  }

  /**
   The handler also runs when the last check of the installed database fails, and then removes the export: the tables
   without a place in the new schema are left in the backup alone.
   */
  lemma FailedLastCheckDropsTheExport(job: Job, events: seq<Event>, files: Files)
    requires Run(job, events).pc == VerifyLive
    ensures var s := Step(job, Step(job, Run(job, events), Fails(files, 0)), Works(files));
      && s.pc == Failed && s.replaced && s.exported == None
      && s.backup == Some(Files(job.original.Content(), []))
    ensures Run(job, events).exported == job.unsupported
  {
    RunKeepsInv(job, events);
  }

  /** What each point says about the past. */
  ghost predicate Past(job: Job, events: seq<Event>) {
    var s := Run(job, events);
    && (s.pc == Succeeded <==> LastCheckWorked(job, events))
    && (s.pc != Failed ==> (s.exported == job.unsupported <==> ExportWritten(job, events)))
    && (s.pc == Failed ==> (s.exported == job.unsupported <==>
          ExportWritten(job, events) && CleanUpRaised(job, events)))
    && (s.pc != Failed ==> !CleanUpRaised(job, events))
  }

  lemma PastStep(job: Job, events: seq<Event>, e: Event)
    requires job.unsupported.Some? && Past(job, events)
    ensures Past(job, events + [e])
  {
    RunKeepsInv(job, events);
    RunSnoc(job, Begin(job), events, e);
    HappenedBefore(job, events, e, VerifyLive, true);
    HappenedBefore(job, events, e, Export, true);
    HappenedBefore(job, events, e, CleanUp, false);
    hide RunFrom;
  }

  lemma {:induction false} RunsHaveThatPast(job: Job, events: seq<Event>)
    requires job.unsupported.Some?
    ensures Past(job, events)
  {
    if events == [] {
      assert Past(job, []);
    } else {
      hide Past, Run;
      var n := |events| - 1;
      RunsHaveThatPast(job, events[..n]);
      PastStep(job, events[..n], events[n]);
      assert events == events[..n] + [events[n]];
    }
  }

  /**
   Once a run is over, the export of the tables without a place in the new schema is still there if and only if the
   check of the installed database worked, or the export had been written and the clean-up after a later failure raised
   itself. The backup holds those tables in either case once the replacement is live.
   */
  lemma ExportIsKeptExactlyWhen(job: Job, events: seq<Event>)
    requires Run(job, events).pc in {Succeeded, Failed} && job.unsupported.Some?
    ensures Run(job, events).exported == job.unsupported <==>
              || LastCheckWorked(job, events)
              || (ExportWritten(job, events) && CleanUpRaised(job, events))
    ensures Run(job, events).exported != job.unsupported ==> Run(job, events).exported == None
    ensures Run(job, events).replaced ==> Run(job, events).backup == Some(Files(job.original.Content(), []))
  {
    RunKeepsInv(job, events);
    RunsHaveThatPast(job, events);
    hide RunFrom, Happened;
  }
}
