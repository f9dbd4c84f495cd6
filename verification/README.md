# Verification of Grove Control's print protocol, database rebuild and viewer readers

Grove Control follows 3D printers over MQTT: it dispatches prints, recognises their start and their completion, and
archives them. It also ships a recovery script that moves an old database into the current schema, and a browser viewer
that reads G-code and OBJ files. This project models the parts of it whose correctness depends on state kept over many
steps, and proves what those parts promise for every input, every interleaving and every run.

| files | what they model |
|---|---|
| `ExpectedPrints.dfy` | the registry of dispatched prints: registering, consuming at a print start, withdrawing, age sweep |
| `ActivePrints.dfy` | the table of running prints: the keys a start tracks, the lookup a completion does |
| `PrintLife.dfy` | both together: a dispatched print from dispatch through start to completion |
| `QueueCompletion.dfy` | which queue row a terminal printer event finishes |
| `ReconcileProtocol.dfy` | reconciliation of stale archives after a reconnect, as a transition system; a step is the code between two awaits |
| `SyntheticCompletion.dfy` | that protocol together with the queue: what a synthetic completion does after its entry gate |
| `RuntimeTracking.dfy` | the runtime counter of a printer |
| `Sqlite.dfy`, `ForeignKeyRepair.dfy` | the rules of foreign keys in SQLite, which the model takes as given, and the one-pass repair of dangling references |
| `GroveSchema.dfy` | the foreign keys of Grove's own schema, and what the repair does on it |
| `DatabaseCopy.dfy`, `DatabaseRebuild.dfy`, `DatabaseFiles.dfy` | the conversion into a new schema, what the repair leaves of its row counts, and the file operations that install it |
| `Text.dfy`, `GcodeReading.dfy`, `LayerStore.dfy`, `LayerSync.dfy`, `GcodeParser.dfy` | the streaming G-code parser, its layers and their synchronisation with a file position |
| `ArcInterpolation.dfy` | G2/G3 arcs turned into segments |
| `ViewerTrace.dfy` | what the parser draws, followed with a pen that knows nothing of layers |
| `ViewerModes.dfy` | how long relative mode lasts in that parser, and the branch of the synchronisation that never runs |
| `LayerMap.dfy`, `LayerMapShape.dfy` | the second G-code reader |
| `LayerAgreement.dfy` | when the two readers agree on the layers, for every text |
| `PlainLines.dfy`, `PlainAgreement.dfy`, `RelativeExtrusion.dfy` | the same as conditions on the words of ordinary lines, with absolute and with relative extrusion |
| `LayerPositions.dfy` | what agreement is good for: the viewer synchronised at the map's offsets |
| `ObjParser.dfy`, `ObjFaces.dfy` | material groups of the OBJ loader, and what its faces become |
| `ColorMath.dfy`, `HexPacking.dfy`, `ColorState.dfy` | colour conversions, packing, and the colour object |
| `Options.dfy` | what they share: an optional value, and picking from a set |

Code that updates state in place is a class or a method with loops (`Registrations`, `Tracking`, `Queue`, `Connection`,
`Destination`, `Parser`, `ParserState`, `Color`, `InterpolateArc`, `ParseGcodeLayerMap`, `TrackAll`); each is proved equal
to a function of the old state, and the lemmas are about those functions. `dafny verify dfyconfig.toml` checks everything.

## Where code and expectation part

Each of these is a theorem below, with the exact condition or a concrete input.

- The repair runs with `PRAGMA foreign_keys = ON` (scripts/rebuild_database.py:333), so a DELETE takes cascading rows with
  it that the report `deleted` does not count. The report of a pass is complete exactly when no other row cascades on any
  row at the moment it is deleted, and certainly when none cascades on a listed row beforehand
  (`PassReportIsCompleteExactlyWhen`, `PassReportIsCompleteWhenListedRowsAreAlone`). In Grove's schema the maintenance
  entries of a printer that is gone are lost that way (`MaintenanceHistoryGoesUnreported`).
- The entry gate of a synthetic completion looks at the printer once. Many awaits later the queue update finishes whatever
  row is printing then: a print that started meanwhile is cancelled (`LivePrintIsCancelled`). The queue is left alone
  exactly when no row is printing and not exactly one row matches (`ChangesNoRowExactlyWhen`).
- `reconcile_stale_active_prints` re-reads the printer state once, but `printer_manager.get_status` returns the client's
  one live object and the loop does not look at the connection again. A later archive can therefore be finalised while the
  state says RUNNING, if the connection dropped meanwhile (`LaterArchiveFinalisedOffline`). The first archive cannot.
- A guard exit of the deferred task re-arms the reconciliation; a guard exit of the task that a terminal first state
  spawned does not. Its archive waits for the next observed reconnect (`DeferredReconciliationIsNotDropped`,
  `BareTaskIsNotRetried`).
- A queue row in `printing` takes every terminal event of its printer, even a recovered one of another submission
  (`PrintingTakesEveryEvent`).
- The clean-up of a completion removes an archive's keys on every printer. With one archive printing on two printers the
  first completion takes the other's keys (`SharedArchiveLosesItsCompletion`), and a completion finds its print exactly
  when that has not happened (`CompletionFindsItsPrint`).
- A resumed print is tracked under its archive's file name only. Its completion is safe from stale entries exactly when
  that name is the subtask name with `.3mf` (`NamedPrintsResolve`).
- An expected print with archive id 0 would be popped without being matched and would leave its creator entry behind
  (`ArchiveZeroLeaksItsCreator`).
- Runtime counts the time between two RUNNING samples even if the printer was offline in between (`OfflineTimeIsCounted`).
- The comment on the critical tables (scripts/rebuild_database.py:42-44) promises that their row counts survive exactly or
  the rebuild is discarded. The counts are checked before the foreign keys are repaired. They survive exactly when no
  deletion of the repair names or reaches a row of the table (`CountsSurviveExactlyWhen`); a membership without its user is
  lost although `user_groups` is critical and its old count is reported (`OrphanedMembershipIsLost`).
- When the last check of an installed database fails, the handler deletes the JSON export although the live database has
  already been replaced; the exported tables then exist in the backup only. After a failure the export stays only if the
  handler itself raises (`ExportIsKeptExactlyWhen`).
- The viewer loses G91 at the first move that is carried out, because the new state object has no `relative`. Its mode
  differs from the machine's exactly on relative programs from that move on (`ModeIsLostExactlyWhen`).
- The viewer never executes a last line without line feed (`ViewerExecutes`). It reads `filePositions` one past the end, so
  the branch for layers that lie wholly in the past never runs (`PastBranchNeverRuns`); what it shows is right all the same.
- The layer map says that it mirrors the viewer's layer detection. It does on exactly those texts of which every line is
  read alike and whose unterminated last line begins no layer (`ReadersAgreeExactlyWhen`). On ordinary lines that means:
  - with absolute extrusion, the first move with an E word extrudes (`AbsoluteAgreesExactlyWhen`);
  - with M82 and M83, every move with an E word that could begin a layer feeds for both: the map adds the word up after
    M83, the viewer compares it with the E word before (`FeedsAgreeExactlyWhen`, `RelativeExtrusionSplits`);
  - in whatever modes, every E move, travel and arc meets its own condition (`OrdinaryProgramsAgreeExactlyWhen`). After
    G91 the viewer takes the E position where the move ends for the amount extruded, so that even a travel without E word
    begins a layer at a new height when that position is positive (`FeedIsReadAlikeExactlyWhen`,
    `TravelIsReadAlikeExactlyWhen`); an arc in I/J form has to come after the first layer has begun
    (`ArcIsReadAlikeExactlyWhen`).
- The offsets of the map are meant to drive the viewer's synchronisation. Where both list the same layers, synchronising
  at a layer's offset still returns the layer before; its own begins at the end of its first line (`SyncAtLayerOffset`).
- `layerCmds[k]` belongs to layer k only if no move was recorded before the first extrusion (`LayerCmdsHoldTheMoves`).
- In a file with carriage returns the layer map reads comments as words, because its pattern has to reach the end of a line
  that `.` cannot cross; the viewer removes them (`CarriageReturnKeepsComments`). A tab separates words for the map but not
  for the viewer (`TabsSeparateForTheMap`).
- `addFace` looks vertex colours up with whichever of the uv and normal indices was parsed last
  (`ColorsFollowVerticesExactlyWhen`): a textured face without normals, whose corners name vertex and texture coordinate by
  the same number, has the right colours only where that number is 1 (`TexturesMixColorsExactlyWhen`).
- HSV has no room for a colour whose greatest component is 0 while another is negative: it turns black (`RgbHsvRgb`,
  `Color.EnterHsv`).
- Setting one RGB component of a hex colour keeps the other two only if their caches agree with the hex value (`Color.Set`).

Apart from these, the docstring of `reconcile_stale_active_prints` (backend/app/main.py:4164-4166) promises a call at
startup that the code does not contain, and its comments describe the re-read state as a snapshot; the model follows the
code.

`GuardExitRearms`, `SyntheticEntersOnlyWhileIdle` and `ActivePrintsAreMetOnlyAfterTheGate` are helpers that spell out single
branches behind these results.

## Model

| member | source | states |
|---|---|---|
| ExpectedPrints.StepKeepsConsistent | backend/app/main.py:708-778 | every operation on the registry keeps one timestamp per registered key, no creator without a key, and real archive ids |
| ExpectedPrints.RunsStayConsistent | backend/app/main.py:616-623 | so does every run of registrations, starts, withdrawals, sweeps and completions |
| ExpectedPrints.ConsumeTakesTheFirst | backend/app/main.py:2803-2818 | of the names a start reports, the first registered one decides which archive is claimed |
| ExpectedPrints.ConsumptionIsExact | backend/app/main.py:2801-2818 | a claim removes exactly the printer's keys of that archive and the reported names, with their creators and timestamps, and touches no other printer and no AMS or plate data |
| ExpectedPrints.ArchiveZeroLeaksItsCreator | backend/app/main.py:2803-2806 | counterexample: archive id 0 is popped unmatched and its creator entry survives |
| ExpectedPrints.ArchiveDataGoesWithTheLastKey | backend/app/main.py:769-773 | withdrawing or sweeping drops an archive's AMS mapping and plate if and only if a key of it went and no live key is left |
| ExpectedPrints.SweepKeepsTheFresh | backend/app/main.py:6447-6460 | after a sweep exactly the registrations no older than two hours are left, unchanged |
| ExpectedPrints.UnregisterUndoesRegisterExactlyWhen | backend/app/main.py:742-773 | withdrawing a dispatch restores the whole registry if and only if none of its names was registered before and the archive had either live keys with the same AMS mapping and plate, or neither keys nor such data |
| ExpectedPrints.KeysWait | backend/app/main.py:708-739 | over every run of other printers' events, completions and sweeps, whatever their archives, a printer's key lives on unchanged if and only if no sweep found it too old |
| ExpectedPrints.DataIsLastWritten | backend/app/main.py:720-727 | while such a key lives, the AMS mapping and plate of its archive are those that the last registration or completion of that archive left, on whatever printer |
| ExpectedPrints.StartClaimsTheFirstAlive | backend/app/main.py:2788-2818 | after any such run the printer's next start claims the archive of the first name it reports that was registered and not swept, whatever else the printer had registered, and leaves no key of that archive on the printer; a start of a file below `/usr/` claims nothing |
| ExpectedPrints.DispatchIsRecognised | backend/app/main.py:2711-2818 | a dispatch to an otherwise free printer is claimed by the next start if and only if the start is not of a file below `/usr/`, reports one of the stored names, and no sweep found the dispatch too old, and then the printer is left without registrations |
| ExpectedPrints.DispatchedSubtaskIsClaimed | backend/app/main.py:2789-2818 | a dispatch of a subtask, of its `.3mf` or of its `.gcode.3mf` to a free printer is claimed by the start that reports this subtask, whatever file the start names outside `/usr/` |
| ExpectedPrints.DispatchedFileIsClaimed | backend/app/main.py:2794-2801 | by a start that names only the file, in any directory outside `/usr/`, a dispatched 3mf is claimed under its own name, its stem, its gcode and its gcode.3mf, a dispatched gcode.3mf under its own name and its gcode and under nothing else |
| ExpectedPrints.StartTriesInOrder | backend/app/main.py:2789-2806 | whatever is registered, a start claims the archive of the first registered name among its subtask, the subtask's 3mf and gcode.3mf, its file's base name, the stem, and the stem's 3mf |
| ExpectedPrints.DispatchIsStored | backend/app/main.py:695-740 | archive, time and creator are stored under the file, and for a 3mf also under its stem and its gcode; all other names stay as they were |
| ExpectedPrints.Registrations.RegisterExpectedPrint | backend/app/main.py:708-739 | the loops store archive, creator and time under every key variant, and AMS mapping and plate only when given |
| ExpectedPrints.Registrations.UnregisterExpectedPrint | backend/app/main.py:742-778 | the loops over keys and archives withdraw one file's or a whole printer's registrations |
| ExpectedPrints.Registrations.EvictStale | backend/app/main.py:6438-6473 | the sweep removes exactly the stale keys, and nothing when there are none |
| ExpectedPrints.Registrations.PopKeys | backend/app/main.py:761-767 | the collected archives are exactly those of the popped keys, in whatever order the set is visited |
| ExpectedPrints.Registrations.DropData | backend/app/main.py:769-773 | data goes for the collected archives without a live key and for no others |
| ExpectedPrints.Registrations.ConsumeExpectedPrint | backend/app/main.py:2801-2818 | the matching loop claims as specified; the creator it reports is one that was stored, and none only if none was |
| ActivePrints.ResolutionIsExact | backend/app/main.py:4544-4553 | the lookup finds an archive if and only if one of the names tried has one, and removes all keys of that archive and nothing else that counts |
| ActivePrints.ElsewhereKeepsExactlyWhen | backend/app/main.py:4544-4553 | over every run of other printers' starts and completions this print's keys stay if and only if no completion of the run was resolved to the same archive |
| ActivePrints.ResolvesExactlyWhenFirstKeyTracked | backend/app/main.py:4492-4553 | a completion finds its print over every stale table if and only if the first name it tries is one the start tracked |
| ActivePrints.NamedPrintsResolve | backend/app/main.py:3477-3483 | with a subtask name this holds on the expected, fallback and new-archive paths, and on the resume path if and only if the archive file is named after the subtask |
| ActivePrints.ResumedPrintIsFoundExactlyWhen | backend/app/main.py:4492-4528 | without stale entries on its printer a resumed print is found if and only if its archive file is the reported subtask, its 3mf or its gcode.3mf, or one of the names that stand for the reported file |
| ActivePrints.TrackedNamesAreFound | backend/app/main.py:2896-2899 | without stale entries every path's print is found by a completion that only reports one of the names the path tracks |
| ActivePrints.CompletionFindsItsPrint | backend/app/main.py:2896-2899 | start, any events of other printers, completion: the archive is found if and only if no other completion was resolved to it in between, and then exactly its keys go |
| ActivePrints.UnsharedCompletionFindsItsPrint | backend/app/main.py:4544-4553 | in particular whenever nobody else tracks or starts the archive |
| ActivePrints.SharedArchiveLosesItsCompletion | backend/app/main.py:4550-4552 | counterexample: one archive on two printers, and the first completion leaves the second without a match |
| ActivePrints.UnnamedPrintsResolveWithoutStaleEntries | backend/app/main.py:3545-3551 | without a subtask name a created archive is found by its file name if the printer has no stale entries |
| ActivePrints.ResumedPrintCanBeMistaken | backend/app/main.py:3059 | counterexample: a resumed `cube.gcode.3mf` loses its completion to a stale `cube.3mf` |
| PrintLife.RunsSideBySide | backend/app/main.py:2788-2899 | a run of both tables, where a start's claim in the one decides what it tracks in the other, is a run of each |
| PrintLife.DispatchIsFollowedToItsEnd | backend/app/main.py:2801-2899 | dispatch, anything on other printers, start, anything on other printers, completion: the start claims the dispatched archive if and only if it reports one of its names, is not of a file below `/usr/` and no sweep came too late, and then the completion is resolved to that archive if and only if no completion in between was |
| ActivePrints.Tracking.TrackPrint | backend/app/main.py:3545-3551 | tracking stores the archive under exactly the keys of its path |
| ActivePrints.Tracking.CompletePrint | backend/app/main.py:4544-4553 | the lookup loop pops as it goes, stops at the first tracked name and drops every key of that archive on any printer |
| QueueCompletion.DispatchingFinishedExactlyWhen | backend/app/main.py:4743-4765 | a dispatching row is finished if and only if nothing prints, the row matches by identity, and no other row is a candidate: ambiguity finishes nothing |
| QueueCompletion.DispatchSurvivesOtherSubmissions | backend/app/main.py:793-795 | a dispatching row with a persisted submission id survives every run of other submissions' events unchanged, whatever is registered |
| QueueCompletion.SubmissionIsFinished | backend/app/main.py:4744-4776 | with nothing printing and no other dispatching row under the reported submission id, exactly the row with that id is finished: with the reported status, "aborted" stored as "cancelled" and none as "completed", the time of the event, and on a failure the error summary unless it has a message |
| QueueCompletion.RecoveryFinishesItsSubmission | backend/app/main.py:4719-4753 | a recovered event finishes the row that was already stored with its status, by submission id alone, if the printer has no active row |
| QueueCompletion.EndedRowsNeedTheirSubmission | backend/app/main.py:4719-4753 | a row that has already ended is touched only by a recovered event with its submission id and its stored status |
| QueueCompletion.PrintingTakesEveryEvent | backend/app/main.py:4730-4738 | a row in `printing` takes every terminal event of its printer, no id is compared, and the first such row holds status, time and error text of the event afterwards |
| QueueCompletion.RunsOnlyFinish | backend/app/main.py:4766-4776 | over every run of events a row changes only its status, completion time and error text, a final status never changes, no row becomes `aborted`, and other printers' rows stay as they are |
| QueueCompletion.WaitingDispatchIsFinished | backend/app/main.py:796-803 | a failure before any id is echoed finishes the row of a waiting dispatch if and only if it names one of the registered keys and no other dispatching row of the printer has the same archive |
| QueueCompletion.NoRegistrationIsLeftExactlyWhen | backend/app/main.py:4783-4784 | after a terminal event the printer has no registration if and only if a row ended as completed, failed or cancelled or there was none before; every other printer keeps its own |
| QueueCompletion.ChosenIsChoice | backend/app/main.py:4730-4765 | rows, event and registrations determine the row that is finished, so at most one is |
| QueueCompletion.Queue.UpdateStatus | backend/app/main.py:4714-4788 | at most the chosen row changes, to the stored status with its completion time and error text, and the registrations go exactly for a final status |
| QueueCompletion.Queue.FindCandidates | backend/app/main.py:4744-4753 | the comprehension lists every matching row once |
| ReconcileProtocol.StepKeepsInv | backend/app/main.py:1185-1202 | each step between awaits keeps the protocol invariant |
| ReconcileProtocol.RunsAreSafe | backend/app/main.py:4135-4157 | in every interleaving each recorded entry into a synthetic completion was made with a stale archive from a real state, and from a connected printer in none of RUNNING, PAUSE, PREPARE and SLICING; and a reconciliation owed to an active first state is pending or in flight |
| ReconcileProtocol.FirstStateDecides | backend/app/main.py:1185-1202 | the first real state of a connection leaves the reconciliation pending if and only if it is RUNNING, PAUSE, PREPARE or SLICING, and otherwise starts it, as the deferred task if one was pending; every other status callback only notices a disconnect |
| ReconcileProtocol.FailedQueryEnds | backend/app/main.py:4135-4157 | a query that fails ends the task like one that finds nothing: a deferred task re-arms unless the printer is connected and not printing |
| ReconcileProtocol.EdgeFiresOncePerConnection | backend/app/main.py:1185-1202 | after an edge branch no other fires until a status callback has seen the printer disconnected |
| ReconcileProtocol.DeferredReconciliationIsNotDropped | backend/app/main.py:4135-4157 | after an active first state, always: pending, or a deferred task in flight, or one has ended while connected and not printing |
| ReconcileProtocol.QuietUntilNextReconnect | backend/app/main.py:1196-1202 | with the edge handled, nothing pending and no task left, nothing is finalised before a disconnect is seen |
| ReconcileProtocol.BareTaskIsNotRetried | backend/app/main.py:4205-4215 | counterexample run: a print that starts during the query leaves the stale archive to the next reconnect |
| ReconcileProtocol.FinalisesExactlyWhen | backend/app/main.py:4064-4117 | an archive is finalised if and only if the state is IDLE, FINISH or FAILED, or it is another real one, not a connected RUNNING, PAUSE, PREPARE or SLICING, with another submission id or without a print name |
| ReconcileProtocol.FinalisedFromTerminalStates | backend/app/main.py:4200-4224 | among the nine states the code names, archives are finalised from IDLE, FINISH or FAILED only: at the re-read always, later unless the printer disconnected |
| ReconcileProtocol.LaterArchiveFinalisedOffline | backend/app/main.py:4217-4246 | counterexample run: the second archive is finalised from RUNNING after a disconnect |
| ReconcileProtocol.DeferredReconciliationFinalisesAll | backend/app/main.py:4160-4259 | an undisturbed deferred run finalises every archive still printing, each once and in order, and leaves nothing pending or in flight |
| SyntheticCompletion.LivePrintIsCancelled | backend/app/main.py:4402-4788 | counterexample run, for every named stale archive, every printing row and whatever is registered: the gate passes from IDLE, a print starts, and the update cancels its row and takes the printer's registrations |
| SyntheticCompletion.PrintingRowIsCancelled | backend/app/main.py:4730-4784 | with a row printing the archive plays no part: the first such row is cancelled and the printer loses its registrations |
| SyntheticCompletion.ChangesNoRowExactlyWhen | backend/app/main.py:4714-4788 | a synthetic completion leaves the queue alone if and only if no row of the printer is printing and not exactly one dispatching row matches the archive |
| RuntimeTracking.StretchIsCounted | backend/app/main.py:6212-6225 | over an uninterrupted stretch with k additions the gain is at most its time span and more than that less k seconds, for any clock |
| RuntimeTracking.InterruptionRestarts | backend/app/main.py:6226-6233 | after any history a connected sample that does not run counts nothing and the next running one only starts anew |
| RuntimeTracking.OfflineTimeIsCounted | backend/app/main.py:6200-6206 | samples without connection leave the stretch open, so the gap counts in full |
| RuntimeTracking.NeverMoreThanElapsed | backend/app/main.py:6193-6242 | over any run of a forward clock the counter never decreases and gains at most the time that passed |
| RuntimeTracking.TrackAll | backend/app/main.py:6199-6242 | one round updates every printer's row by its own sample, and leaves it when the commit fails |
| ForeignKeyRepair.RunWeakens | scripts/rebuild_database.py:178-211 | any pass over any violation list only removes rows and only clears nullable columns, and creates no violation |
| ForeignKeyRepair.OnlyOptionalCellsChange | scripts/rebuild_database.py:192-201 | a cell only ever becomes NULL, and only in a column that is neither NOT NULL nor part of the primary key |
| ForeignKeyRepair.OnePassSuffices | scripts/rebuild_database.py:178-216 | after one pass over the first list the only violations left are original ones that neither rule covers |
| ForeignKeyRepair.ClearingSucceeds | scripts/rebuild_database.py:198-203 | clearing the columns of a nullable key never raises when parent keys are not nullable |
| ForeignKeyRepair.DeletingSucceeds | scripts/rebuild_database.py:205-209 | a cascading deletion never raises in a set of tables that cascades do not leave and that other keys refer to only by cascades or nullable SET NULL; what keys elsewhere do is free |
| ForeignKeyRepair.RunSucceeds | scripts/rebuild_database.py:176-214 | nor does any pass when such a set contains every table the second rule deletes from, or when it deletes nothing |
| ForeignKeyRepair.RepairAlwaysCloses | scripts/rebuild_database.py:216-219 | if in addition one of the two rules covers every key, the repair of every database ends in referential closure |
| ForeignKeyRepair.NullableViolationsAreClearedExactly | scripts/rebuild_database.py:198-203 | when every violated key is nullable no row goes, exactly the child columns of violated keys become NULL, and `nullified` counts every violation under its table and columns |
| ForeignKeyRepair.ClosureIsLeast | scripts/rebuild_database.py:206 | what a DELETE removes is the least set of rows closed under ON DELETE CASCADE |
| ForeignKeyRepair.LostRowsAreExplained | scripts/rebuild_database.py:205-209 | every lost row was listed with an all-cascade key or hangs by cascades on one that was |
| ForeignKeyRepair.NamedRowsAreReported | scripts/rebuild_database.py:207-208 | `deleted` counts exactly the rows that DELETE statements named and found, table by table |
| ForeignKeyRepair.ClearedRowsAreReported | scripts/rebuild_database.py:200-203 | `nullified` counts, for each table and list of child columns, the listed violations whose row was still there when their UPDATE ran |
| ForeignKeyRepair.RowsAreConserved | scripts/rebuild_database.py:178-219 | rows before are rows after, plus reported deletions, plus rows only a cascade removed |
| ForeignKeyRepair.DeleteReportIsComplete | scripts/rebuild_database.py:206-208 | one deletion is fully reported if and only if no other row cascades on the named one |
| ForeignKeyRepair.NamedIsAllExactlyWhen | scripts/rebuild_database.py:178-211 | a pass over any violation list names every row it loses if and only if no other row cascades on any row at the moment of its deletion |
| ForeignKeyRepair.PassReportIsCompleteExactlyWhen | scripts/rebuild_database.py:178-219 | rows before are rows after plus `deleted`, in every table, if and only if each deletion of the pass stood alone |
| ForeignKeyRepair.PassReportIsCompleteWhenListedRowsAreAlone | scripts/rebuild_database.py:170-219 | which holds when, before the pass, no other row cascades on any row listed for deletion |
| ForeignKeyRepair.CascadedRowsGoUnreported | scripts/rebuild_database.py:205-209 | whenever a row that is not listed for deletion hangs by a required cascading key on one that is, both go and the report of its table falls short |
| GroveSchema.GroveIsConfined | backend/app/models/archive.py:13-14 | Grove's keys, four of which have no action, meet these conditions: no key without action refers to a table the repair deletes from |
| GroveSchema.GroveRepairCloses | scripts/rebuild_database.py:216-219 | so on Grove's schema the repair of every copied database succeeds and ends in referential closure |
| GroveSchema.MaintenanceHistoryGoesUnreported | backend/app/models/maintenance.py:40-70 | on that schema every maintenance entry of a maintenance item whose parent is missing is lost, and `deleted` does not count it |
| ForeignKeyRepair.Connection.ForeignKeyCheck | scripts/rebuild_database.py:170 | the check lists all violations and only those |
| ForeignKeyRepair.Connection.Repair | scripts/rebuild_database.py:159-219 | a failed statement rolls back; normal return implies closure and reports that count, for a complete violation list, the rows found by each kind of UPDATE and by the DELETEs of each table; a failed final check names violations no rule covers |
| DatabaseCopy.EveryTableHasOneFate | scripts/rebuild_database.py:283-293 | without unknown tables each source table is exactly one of copied, exported and reset, and critical ones are copied |
| DatabaseCopy.BatchesAreBulk | scripts/rebuild_database.py:321-326 | inserting in batches is admitted by the constraints if and only if inserting in bulk is |
| DatabaseCopy.Destination.InsertAll | scripts/rebuild_database.py:319-327 | the loop over batches of 500 restores all rows in order, projected to the shared columns, or reports a refused row |
| DatabaseCopy.Destination.CopyTable | scripts/rebuild_database.py:305-327 | one table is restored if and only if it shares a column and its projected rows are admitted; no other table changes |
| DatabaseCopy.Destination.CopyCompatibleData | scripts/rebuild_database.py:272-347 | the conversion succeeds if and only if every copied table is restorable, rolls back otherwise, and neither the count check nor the missing-critical guard ever fires |
| DatabaseCopy.CriticalTablesAreCopied | scripts/rebuild_database.py:341-347 | every critical table of the source is among the copied ones |
| DatabaseCopy.ConversionKeepsSharedValues | scripts/rebuild_database.py:305-327 | each row keeps its place, its value in every shared column, and takes the default in columns the source lacks; source columns without a place are reported as omitted |
| DatabaseCopy.RuntimeStateStartsClean | scripts/rebuild_database.py:61-72 | the ten tables of runtime state and short-lived records are empty after a conversion, and the rows left behind are counted |
| DatabaseCopy.OtherTablesAreKept | scripts/rebuild_database.py:283-294 | every other table that both schemas have is copied, and a source table that the destination lacks is one of the five that are exported |
| DatabaseRebuild.StoredRowsHold | scripts/rebuild_database.py:319-327 | whatever distinct rowids the inserted rows get, each table holds as many rows as were copied into it |
| DatabaseRebuild.CountsSurviveExactlyWhen | scripts/rebuild_database.py:335-349 | the row count that was checked and is reported for a copied table is the count after the repair if and only if no DELETE of the repair names or reaches a row of the table |
| DatabaseRebuild.CountsSurviveOutOfReach | scripts/rebuild_database.py:335-349 | which holds when, before the repair, the table is out of reach of every row listed for deletion |
| DatabaseRebuild.OrphanedMembershipIsLost | scripts/rebuild_database.py:42-44 | counterexample to the promise about critical tables: with any membership whose user is missing, `user_groups` ends with fewer rows than were checked and reported |
| DatabaseFiles.RemovingSidecarLosesNothingExactlyWhen | scripts/rebuild_database.py:363-365 | unlinking the WAL sidecar keeps the content if and only if it holds no frames, as after a checkpoint |
| DatabaseFiles.NothingIsSkipped | scripts/rebuild_database.py:368-391 | wherever a run stands, each of the eleven operations before that point has worked: both checks of a new file, the checkpoints and the removal of the sidecars come before a replacement in every run |
| DatabaseFiles.LiveIsNeverLost | scripts/rebuild_database.py:368-391 | at every moment of every run with any failure the live path holds the full original or a replacement that passed quick_check, then with a full backup beside it; a failed run leaves no staging file and no export unless its handler raised |
| DatabaseFiles.ReplaceInstallsStaging | scripts/rebuild_database.py:381-384 | what goes live is the whole staging content, although only its main file is moved |
| DatabaseFiles.PreparationWorks | scripts/rebuild_database.py:373-375 | preparation goes on if and only if the backup is sound, and loses nothing otherwise |
| DatabaseFiles.InstallationWorks | scripts/rebuild_database.py:377-391 | without failures the copied database is installed if and only if it is sound; otherwise staging and export are gone and live is untouched |
| DatabaseFiles.FailedLastCheckDropsTheExport | scripts/rebuild_database.py:385-391 | a failure of the last check ends with the replacement live and the export deleted |
| DatabaseFiles.ExportIsKeptExactlyWhen | scripts/rebuild_database.py:377-391 | once a run is over, whatever failed in it, the export still exists if and only if the check of the installed database worked, or the export had been written and the handler of a later failure raised itself |
| Text.SplitJoin | gcode_viewer/js/prettygcode.js:1371 | splitting on a separator loses nothing and leaves no separator in a piece |
| Text.SplitAppend | gcode_viewer/js/prettygcode.js:1371-1375 | cutting a text glues one piece and leaves the others |
| GcodeReading.ParseTwice | gcode_viewer/js/prettygcode.js:1367-1378 | two chunks are one chunk |
| GcodeReading.ChunkIndependence | gcode_viewer/js/prettygcode.js:1367-1525 | for every cutting of a text, all state after the chunks equals that after the whole text |
| ViewerTrace.ViewerDrawsTheTrace | gcode_viewer/js/prettygcode.js:1284-1510 | on every program the vertices of all layers, in order, are the strokes of a pen that follows moves and arcs: a stroke for each move with an E word and for each piece of an arc in I/J form, from point to point, with its mirror image when the mirror is on, and each segment carries the position of its line |
| ViewerTrace.MoveIsDrawn | gcode_viewer/js/prettygcode.js:1293-1310 | a move with an E word in absolute mode ends the current layer's vertices with the old coordinates and the addressed ones, in mirror mode followed by both with negated heights |
| ViewerTrace.MoveIsShaded | gcode_viewer/js/prettygcode.js:1311-1357 | and its colours with those that the shading gives both ends and their mirror images |
| ViewerTrace.CommentSelects | gcode_viewer/js/prettygcode.js:1379-1430 | of a line with a semicolon the first of seven words that it holds in any case selects the colour |
| ViewerModes.RelativeExactlyWhen | gcode_viewer/js/prettygcode.js:1436-1512 | after any lines the viewer is in relative mode if and only if some G91 is followed by no G90, no G0 or G1, and no G2 or G3 without K and R |
| ViewerModes.ModeIsLostExactlyWhen | gcode_viewer/js/prettygcode.js:1436-1461 | its mode differs from that of the last G90 or G91 if and only if that was G91 and a move has been carried out since |
| ViewerModes.RelativeModeIsLostAtTheFirstMove | gcode_viewer/js/prettygcode.js:1438-1460 | counterexample: G91 and one G1 leave the viewer in absolute mode |
| LayerStore.LineKeeps | gcode_viewer/js/prettygcode.js:1377-1525 | each line keeps the shape of every layer and the order of positions within and across layers |
| LayerStore.ParsingKeepsLayers | gcode_viewer/js/prettygcode.js:1284-1357 | so every file in every chunking has six numbers per segment and copy in `vertex` and `colors`, and later layers lie strictly later in the file |
| GcodeParser.Parser.AddObject | gcode_viewer/js/prettygcode.js:1219-1242 | a non-empty layer becomes one visible drawn object |
| GcodeParser.Parser.StartLayer | gcode_viewer/js/prettygcode.js:1244-1253 | a new layer draws the one before |
| GcodeParser.Parser.AddSegment | gcode_viewer/js/prettygcode.js:1284-1357 | appends a segment with its mirror copy, position and colours, or nothing for a bad point |
| GcodeParser.Parser.MoveTo | gcode_viewer/js/prettygcode.js:1436-1461 | a move ends at the addressed point, begins a layer when it extrudes at a new Z, and draws a segment only if it names E |
| GcodeParser.Parser.FollowArc | gcode_viewer/js/prettygcode.js:1462-1506 | an arc in I/J form draws one segment per interpolated pair and ends at its last point; K and R forms change nothing |
| GcodeParser.Parser.Parse | gcode_viewer/js/prettygcode.js:1367-1525 | the in-place parser is the function that chunk independence is about |
| GcodeParser.Parser.SyncToFilePos | gcode_viewer/js/prettygcode.js:1105-1139 | leaves every object as the position demands, returns the synced layer, and shows exactly the past on a well-formed stack |
| GcodeParser.Parser.SyncToLayer | gcode_viewer/js/prettygcode.js:1049-1082 | whole layers below, the given number of lines of the layer itself, nothing above; asks for an update if and only if something changed |
| GcodeParser.Parser.FinishLoading | gcode_viewer/js/prettygcode.js:1179-1182 | the last layer is drawn if it holds anything |
| LayerSync.StoreGivesStack | gcode_viewer/js/prettygcode.js:1219-1253 | objects drawn from a valid store are non-empty and follow each other strictly in layer and file order |
| LayerSync.SyncShowsExactlyThePast | gcode_viewer/js/prettygcode.js:1105-1139 | the visible line count is copies times the segments with a position before p over all layers |
| LayerSync.SyncedLayerIsLastBegun | gcode_viewer/js/prettygcode.js:1105-1139 | the returned layer is that of the last object that begins at or before p, or 0 |
| LayerSync.BegunIsPrefix | gcode_viewer/js/prettygcode.js:1105-1139 | the objects begun at p are a prefix of the stack |
| LayerSync.SyncedLayerMonotone | gcode_viewer/js/prettygcode.js:1105-1139 | a later position never returns an earlier layer |
| LayerSync.SyncIsMonotone | gcode_viewer/js/prettygcode.js:1105-1139 | a later position never shows less of an object |
| LayerSync.LayerSyncShows | gcode_viewer/js/prettygcode.js:1049-1082 | layer sync shows each object below in full, of the layer itself the given number of lines or, without a number, all of it, and hides what is above |
| LayerSync.PositionSyncIsLayerSync | gcode_viewer/js/prettygcode.js:1049-1139 | position sync equals layer sync at the returned layer, cut after its own past segments |
| ViewerModes.PastBranchNeverRuns | gcode_viewer/js/prettygcode.js:1105-1139 | the read past the end never compares below a position, so every object takes one of the two other branches |
| ArcInterpolation.InterpolateArc | gcode_viewer/js/prettygcode.js:46-221 | iterated rotation with periodic correction yields the points computed without any predecessor |
| ArcInterpolation.RotateOnce | gcode_viewer/js/prettygcode.js:165-183 | one rotation step and the correction formula agree at every index |
| ArcInterpolation.OnCircle | gcode_viewer/js/prettygcode.js:165-201 | every interior point lies on the circle of squared radius i*i + j*j |
| ArcInterpolation.EqualChords | gcode_viewer/js/prettygcode.js:165-201 | neighbouring points are equally far apart all along the arc |
| ArcInterpolation.PointCount | gcode_viewer/js/prettygcode.js:138-220 | max(n, 1) + 1 points, both ends exact, Z and E affine in the index |
| ArcInterpolation.SegmentsCoverTheArc | gcode_viewer/js/prettygcode.js:135-139 | the number of segments is the least whose total length covers the arc at its radius and the rise: squared, n lengths reach (angle * radius)^2 + rise^2 and n - 1 do not |
| ArcInterpolation.SegmentsAreShort | gcode_viewer/js/prettygcode.js:135-139 | so between two neighbouring points the turn at the radius and the rise never exceed the segment length in force |
| ArcInterpolation.DefaultLength | gcode_viewer/js/prettygcode.js:104-123 | which with the viewer's settings is a twentieth of the full circle, but at least 0.1 and at most 1 |
| ArcInterpolation.Direction | gcode_viewer/js/prettygcode.js:96-134 | G2 turns clockwise by at most a circle, G3 the other way, not at all only between different points |
| ArcInterpolation.RotationMeetsTarget | gcode_viewer/js/prettygcode.js:96-220 | the rotation lands on the target if and only if the target is on the circle |
| LayerMap.ParseGcodeLayerMap | gcode_viewer/js/bambuddy_adapter.js:258-337 | the one-pass loop computes the line-by-line reading |
| LayerMapShape.LineAt | gcode_viewer/js/bambuddy_adapter.js:268-272 | accumulated offsets are where lines begin in the text |
| LayerMapShape.ModesExactlyWhen | gcode_viewer/js/bambuddy_adapter.js:275-290 | after any lines coordinates are relative if and only if some G91 is followed by no G90, and extrusion if and only if some G91 or M83 is followed by neither G90 nor M82 |
| LayerMapShape.LayerOffsetsAreLineStarts | gcode_viewer/js/bambuddy_adapter.js:305-337 | offsets rise strictly and are line starts, neighbouring layers differ in Z, totalBytes is the length plus one |
| LayerMapShape.LayerCmdsHoldTheMoves | gcode_viewer/js/bambuddy_adapter.js:305-330 | each list holds the first 500 recorded moves of its layer in order, none is empty, and there is one list too many if and only if a move was recorded before the first extrusion |
| PlainLines.SameWords | gcode_viewer/js/bambuddy_adapter.js:271-274 | on a line without white space other than blanks, none of them leading, and with any comment of at least one character at its end, both readers see the same command and the same words but for empty ones |
| PlainLines.CarriageReturnKeepsComments | gcode_viewer/js/bambuddy_adapter.js:269-273 | on a line that ends with a carriage return the map keeps every comment of at least one character, the viewer none |
| PlainLines.TabsSeparateForTheMap | gcode_viewer/js/bambuddy_adapter.js:276-277 | any white space but a blank makes two words for the map and one for the viewer |
| PlainAgreement.EarlyRetractionSplits | gcode_viewer/js/prettygcode.js:1284-1288 | on ordinary lines without arcs and G91 a first E move that retracts gives the viewer a layer the map does not have |
| LayerAgreement.ReadersAgreeExactlyWhen | gcode_viewer/js/bambuddy_adapter.js:255-316 | for every text, both readers list the same layers at the same lines and heights if and only if each line the viewer executes is read alike and no layer begins on an unterminated last line |
| LayerAgreement.StartsAgreeExactlyWhen | gcode_viewer/js/bambuddy_adapter.js:304-316 | start lists that have diverged never meet again, so agreement over a program is agreement on each of its lines |
| PlainAgreement.FeedsAgreeExactlyWhen | gcode_viewer/js/bambuddy_adapter.js:281-316 | on ordinary lines with M82 and M83 in any order, agreement holds if and only if on every move with an E word: without a layer it extrudes for the map, and exceeds the last E word or stays at its height; later, at a new height, it extrudes for the map exactly when it exceeds the last E word |
| PlainAgreement.AbsoluteAgreesExactlyWhen | gcode_viewer/js/bambuddy_adapter.js:255-316 | with absolute extrusion it holds if and only if the first move with an E word extrudes |
| PlainAgreement.PlainTextsAgreeExactlyWhen | gcode_viewer/js/bambuddy_adapter.js:255-316 | both conditions for whole texts |
| PlainAgreement.OrdinaryProgramsAgreeExactlyWhen | gcode_viewer/js/prettygcode.js:1436-1506 | on every program of ordinary lines, with arcs and in whatever modes, they agree if and only if each E move, travel and arc meets its condition |
| PlainAgreement.FeedIsReadAlikeExactlyWhen | gcode_viewer/js/prettygcode.js:1359-1366 | a move with an E word is read alike, in any modes, if and only if: where the map sees extrusion at a new height, the viewer does too (its E word exceeds the E position, or after G91 their sum is positive) and reaches that height; elsewhere there is a layer and the viewer sees no extrusion at another height |
| PlainAgreement.TravelIsReadAlikeExactlyWhen | gcode_viewer/js/prettygcode.js:1445-1452 | a move without E word is read alike if and only if the viewer is not in relative mode with a positive E position and a new height |
| PlainAgreement.ArcIsReadAlikeExactlyWhen | gcode_viewer/js/prettygcode.js:1462-1506 | an arc is read alike if and only if it is in K or R form or a layer has begun |
| LayerPositions.LayersBeginAtTheSameLines | gcode_viewer/js/prettygcode.js:1436-1506 | wherever they agree on ordinary lines, arcs and relative modes included, the first segment of the viewer's k-th layer ends the line the map's k-th offset points to |
| LayerPositions.SyncedLayerExactlyWhen | gcode_viewer/js/prettygcode.js:1105-1139 | then a position synchronisation returns the number of layers whose first line ends at or before the position |
| LayerPositions.SyncAtLayerOffset | gcode_viewer/js/bambuddy_adapter.js:250-251 | so at the offset of the map's layer k, and up to the end of its line, it returns the layer before, and one character later the layer itself |
| LayerPositions.TextSyncAtLayerOffset | gcode_viewer/js/bambuddy_adapter.js:250-251 | the same three synchronisations from one text through parser, map and drawn objects |
| RelativeExtrusion.RelativeExtrusionSplits | gcode_viewer/js/bambuddy_adapter.js:281-302 | counterexamples of every length: after M83, moves with one and the same positive E word to ever new heights are as many layers of the map as moves, and one layer of the viewer |
| LayerAgreement.ViewerExecutes | gcode_viewer/js/prettygcode.js:1373-1377 | the viewer executes all lines but the piece after the last line feed |
| ObjParser.IndexIsUsableExactlyWhen | gcode_viewer/js/OBJLoader.js:187-206 | an index reads defined numbers if and only if it is in 1..n or -n..-1, and -k is n - k + 1 |
| ObjParser.StartMaterialAppends | gcode_viewer/js/OBJLoader.js:60-104 | whatever became of the group before, the new one is appended at its own index and starts where the vertices end |
| ObjParser.FinalizedKeeps | gcode_viewer/js/OBJLoader.js:118-153 | at the end only a last group without vertices is dropped, and a lone one is kept |
| ObjParser.FinalizedIsTiled | gcode_viewer/js/OBJLoader.js:118-153 | the final groups are chained, non-empty and tile the vertices |
| ObjParser.GroupsTileAndFit | gcode_viewer/js/OBJLoader.js:27-175 | for every file each object's groups tile its positions, and every position is in a group of the material in force when it was read |
| ObjParser.EveryPositionHasOneGroup | gcode_viewer/js/OBJLoader.js:118-153 | each position of a tiled object is in exactly one group |
| ObjParser.ColorsFollowVerticesExactlyWhen | gcode_viewer/js/OBJLoader.js:279-318 | a face gets its vertices' colours from every colour array if and only if each overwritten index reads alike |
| ObjParser.SharedNormalMixesColors | gcode_viewer/js/OBJLoader.js:298-316 | plain faces get the right colours, faces sharing one normal do not |
| ObjParser.TexturesMixColorsExactlyWhen | gcode_viewer/js/OBJLoader.js:288-316 | with corners that carry one number for all they name, faces with normals get the right colours, textured faces without normals if and only if every number is 1 |
| ObjFaces.FaceIsTriangulated | gcode_viewer/js/OBJLoader.js:279-318 | a polygon of a file becomes the fan around its first corner: positions, normals, texture coordinates and, on plain faces, colours are the entries its references name among the lines before it |
| ObjFaces.PointsOfAFile | gcode_viewer/js/OBJLoader.js:320-332 | a `p` line appends the vertices it names |
| ObjFaces.NewGroupTakesOver | gcode_viewer/js/OBJLoader.js:60-104 | at any point of any file a group opened by `usemtl` has the name, the last `mtllib`, and the shading that the last `s` line set, unless an object without an inherited material began after it |
| ObjFaces.ObjectInheritsMaterial | gcode_viewer/js/OBJLoader.js:39-171 | at any point of any file with a declared object, the next `o` or `g` line begins an empty object that takes over the material in force with the library and shading in force for it, as one group from the first vertex on |
| ObjParser.SpliceEmpty | gcode_viewer/js/OBJLoader.js:130-142 | the backward splice loop keeps exactly the groups with vertices |
| ObjParser.ParserState.FinalizeObject | gcode_viewer/js/OBJLoader.js:118-155 | closes the open group of the current object, prunes at the end, returns the last material |
| ObjParser.ParserState.BeginObject | gcode_viewer/js/OBJLoader.js:27-175 | reuses the initial object or finalises and inherits the material in force |
| ObjParser.ParserState.UseMaterial | gcode_viewer/js/OBJLoader.js:60-104 | `usemtl` drops the group before it exactly when that is empty and opens its own where the vertices end |
| ObjParser.ParserState.AddPolygon | gcode_viewer/js/OBJLoader.js:510-525 | an n-gon becomes the fan of n - 2 triangles |
| ColorMath.RgbHsvRgb | gcode_viewer/js/dat.gui.js:422-466 | HSV and back is the identity for any retained hue if and only if the greatest component is not 0 or all are, as for every colour in [0, 255] |
| ColorMath.HsvRgbHsv | gcode_viewer/js/dat.gui.js:422-466 | and the other way round for every hue below 360 with some saturation and value |
| ColorMath.HuesOfTheCircle | gcode_viewer/js/dat.gui.js:440-466 | red, yellow, green, cyan, blue and magenta lie at 0, 60, 120, 180, 240 and 300 degrees, at every brightness |
| HexPacking.WrittenComponentIsRead | gcode_viewer/js/dat.gui.js:473-478 | a written component is read back if and only if it fits a byte; writing back what was read changes nothing |
| HexPacking.OtherComponentsAreKept | gcode_viewer/js/dat.gui.js:476-478 | a written byte leaves the other components alone |
| HexPacking.RgbToHexHoldsAll | gcode_viewer/js/dat.gui.js:467-472 | a packed colour gives back all three bytes |
| HexPacking.HexLayout | gcode_viewer/js/dat.gui.js:467-472 | the packed colour has red in the highest of three bytes and blue in the lowest |
| ColorState.HexKeepsExactlyBytes | gcode_viewer/js/dat.gui.js:685-693 | packing keeps the components if and only if they are whole numbers from 0 to 255 |
| ColorState.Color.Get | gcode_viewer/js/dat.gui.js:613-622 | reading a component gives that of the colour and does not change the colour |
| ColorState.Color.Set | gcode_viewer/js/dat.gui.js:623-629 | replaces one component of the colour if and only if the space was not hex or the other caches agree with it |
| ColorState.Color.EnterHsv | gcode_viewer/js/dat.gui.js:631-669 | switching to HSV keeps the colour if and only if HSV has room for it and otherwise makes it black, takes its hue or keeps the retained one of a grey, and makes all components undefined when one is |
| ColorState.Color.GetHex | gcode_viewer/js/dat.gui.js:685-693 | reading the packed colour switches space and keeps the colour if and only if its components are bytes |
| ColorState.FreshHexLosesComponents | gcode_viewer/js/dat.gui.js:623-657 | counterexample: setting red on a fresh hex colour leaves green and blue undefined |

## Left out

- Rounding and infinities: numbers are exact reals, with NaN where the viewer can meet it. `sin`, `cos`, `atan2` and `hypot`
  are parameters with their usual laws.
- Text is a sequence of characters, so byte offsets count characters, as the JavaScript code does.
- The scene bounds and all rendering; the shading arithmetic that turns a colour into those of a segment is a parameter of
  the parser.
- `PrintHeadSimulator`, the formatting of `layerCmds` with `toFixed`, and `GCodeParser.reset`.
- OBJ lines `l` differ from points only in extra texture coordinates; the final meshes and `mtl` loading are not modelled.
- FTP, MQTT, camera, Spoolman, notification, WebSocket and e-mail calls: they appear only as the points where tasks wait.
- The search for an archive in the database when a completion is not tracked, and the choice of an archive to resume.
- PlainAgreement.OrdinaryProgramsAgreeExactlyWhen: is about lines without white space other than blanks, none leading, and
  without a comment of a lone semicolon; for all other lines the condition is that of
  LayerAgreement.ReadersAgreeExactlyWhen. PlainAgreement.FeedsAgreeExactlyWhen adds a condition on E words alone for
  programs without arcs and G91.
- Rewriting of subtask names for multi-plate files between start and completion.
- ReconcileProtocol.RunsAreSafe: speaks of one printer, because all tables of the protocol are keyed by printer; the
  staleness check hidden in `get_status` is a push of a disconnected state before the step.
- ReconcileProtocol.FinalisedFromTerminalStates: in the original `get_status` can itself mark the connection stale between
  the re-read and the gate of the same step; a push before the step is not the same moment, so "at the re-read always" is
  about states that stay as they are within a step.
- The removal of a printer's client while a reconcile task runs.
- SyntheticCompletion.LivePrintIsCancelled: of what a synthetic completion does after its gate only the queue update is
  modelled, not its printer-level notifications, card clean-up and plate-clear flag.
- QueueCompletion.Queue.UpdateStatus: does not model the retry on a locked database nor the usage counters of library files.
- RESTRICT and SET DEFAULT actions, deferred constraints, `WITHOUT ROWID` tables, triggers and full-text tables of SQLite;
  the schema uses none of the actions. NO ACTION is modelled as the immediate check that SQLite makes.
- GroveSchema.IsGrove: takes the keys from the model classes; keys that migrations add to databases of earlier versions do
  not arise, because the schema is built on an empty file.
- DatabaseCopy.Destination.CopyCompatibleData: tables are visited in no particular order instead of by name, so which of
  several errors is reported is open; the repair that follows is composed with it in `DatabaseRebuild.dfy`, for any rowids.
- ColorState.Color.EnterHsv: does not tell an undefined component from NaN, because no later step does.
- The string parsers of dat.GUI's colours and its alpha channel.
