/**
 scripts/rebuild_database.py, `_copy_compatible_data` up to the repair of foreign keys: which tables are copied,
 exported or reset, and the batched copy of rows onto the columns both schemas share.
 */
module DatabaseCopy {

  import opened Options
  import opened Sqlite

  /** A table with the values its omitted columns default to. */
  datatype Relation = Relation(columns: seq<string>, rows: seq<Row>, defaults: Row)

  type Database = map<string, Relation>

  /** Whether the destination's constraints admit one more row in a table that holds the given rows. */
  type Constraints = (string, seq<Row>, Row) -> bool

  // ---------------------------------------------------------------- classification

  const CRITICAL := {"printers", "users", "groups", "user_groups", "settings", "print_archives", "library_files",
                     "filaments", "spool", "print_log_entries"}

  const TRANSIENT := {"active_print_spoolman", "ams_sensor_history", "auth_ephemeral_tokens", "auth_rate_limit_events",
                      "notification_digest_queue", "notification_logs", "pending_uploads", "print_queue",
                      "printer_sensor_history", "smart_plug_energy_snapshots"}

  const EXPORTABLE := {"bug_reports", "pipeline_jobs", "pipeline_runs", "slicer_pipelines", "sponsor_toast_state"}

  function Exported(source: set<string>, destination: set<string>): set<string> { (source - destination) * EXPORTABLE }

  function Unknown(source: set<string>, destination: set<string>): set<string> {
    source - destination - Exported(source, destination)
  }

  function Copied(source: set<string>, destination: set<string>): set<string> {
    source - Exported(source, destination) - TRANSIENT
  }

  function Reset(destination: set<string>): set<string> { TRANSIENT * destination }

  /** Without an unknown table each source table is exactly one of copied, exported and reset. */
  lemma EveryTableHasOneFate(source: set<string>, destination: set<string>, t: string)
    requires Unknown(source, destination) == {} && t in source
    ensures var copied, exported := t in Copied(source, destination), t in Exported(source, destination);
      multiset([copied, exported, t in Reset(destination)])[true] == 1
    ensures t in Copied(source, destination) ==> t in destination
    ensures t in CRITICAL ==> t in Copied(source, destination)
  {
    assert CRITICAL * TRANSIENT == {} && CRITICAL * EXPORTABLE == {} && TRANSIENT * EXPORTABLE == {};
    hide CRITICAL, TRANSIENT, EXPORTABLE;
    assert t in Unknown(source, destination) <==> t !in destination && t !in EXPORTABLE;
    assert t in CRITICAL ==> t !in CRITICAL * TRANSIENT && t !in CRITICAL * EXPORTABLE;
    assert t in TRANSIENT ==> t !in TRANSIENT * EXPORTABLE;
  }

  // ---------------------------------------------------------------- rows

  /** The inserted row: shared columns keep their value, the others take the destination's default. */
  function Projected(source: Relation, destination: Relation, row: Row): Row {
    map c | c in destination.columns :: if c in source.columns then Cell(row, c) else Cell(destination.defaults, c)
  }

  function AllProjected(source: Relation, destination: Relation, rows: seq<Row>): (r: seq<Row>)
    ensures |r| == |rows| && forall i :: 0 <= i < |rows| ==> r[i] == Projected(source, destination, rows[i])
  {
    seq(|rows|, i requires 0 <= i < |rows| => Projected(source, destination, rows[i]))
  }

  lemma ProjectionIgnoresRows(source: Relation, destination: Relation, held: seq<Row>, rows: seq<Row>)
    ensures AllProjected(source, destination.(rows := held), rows) == AllProjected(source, destination, rows)
  {
  }

  /** One row after the other is admitted. */
  predicate Admitted(accepts: Constraints, table: string, rows: seq<Row>, more: seq<Row>)
    decreases |more|
  {
    more == [] || (accepts(table, rows, more[0]) && Admitted(accepts, table, rows + [more[0]], more[1..]))
  }

  /** Inserting in batches is admitted exactly when inserting in bulk is. */
  lemma {:induction false} BatchesAreBulk(accepts: Constraints, table: string, rows: seq<Row>, a: seq<Row>, b: seq<Row>)
    ensures Admitted(accepts, table, rows, a + b)
       <==> Admitted(accepts, table, rows, a) && Admitted(accepts, table, rows + a, b)
    decreases |a|
  {
    if a == [] {
      assert a + b == b && rows + a == rows;
    } else {
      assert (a + b)[1..] == a[1..] + b && (a + b)[0] == a[0];
      assert rows + [a[0]] + a[1..] == rows + a;
      BatchesAreBulk(accepts, table, rows + [a[0]], a[1..], b);
    }
  }

  lemma BatchIsSlice(source: Relation, destination: Relation, held: seq<Row>, from: nat, size: nat)
    requires from + size <= |source.rows|
    ensures AllProjected(source, destination.(rows := held), source.rows[from..][..size])
         == AllProjected(source, destination, source.rows)[from..from + size]
  {
    ProjectionIgnoresRows(source, destination, held, source.rows[from..][..size]);
  }

  /**
   After an admitted prefix the next batch is admitted exactly when the longer prefix is, as it must be in the end.
   */
  lemma PrefixGrows(accepts: Constraints, table: string, all: seq<Row>, from: nat, size: nat)
    requires from + size <= |all| && Admitted(accepts, table, [], all[..from])
    ensures all[..from] + all[from..from + size] == all[..from + size]
    ensures Admitted(accepts, table, all[..from], all[from..from + size])
       <==> Admitted(accepts, table, [], all[..from + size])
    ensures Admitted(accepts, table, [], all) ==> Admitted(accepts, table, [], all[..from + size])
  {
    BatchesAreBulk(accepts, table, [], all[..from], all[from..from + size]);
    BatchesAreBulk(accepts, table, [], all[..from + size], all[from + size..]);
    assert [] + all[..from] == all[..from] && all[..from] + all[from..from + size] == all[..from + size];
    assert all == all[..from + size] + all[from + size..];
  }

  // ---------------------------------------------------------------- the destination, filled in place

  predicate SharesColumns(source: Relation, destination: Relation) {
    exists c <- destination.columns :: c in source.columns
  }

  /** The rows of one source table can be restored. */
  predicate Restorable(accepts: Constraints, table: string, source: Relation, destination: Relation) {
    SharesColumns(source, destination)
    && Admitted(accepts, table, [], AllProjected(source, destination, source.rows))
  }

  function Restored(source: Relation, destination: Relation): Relation {
    destination.(rows := AllProjected(source, destination, source.rows))
  }

  /** The column names of the source that the destination lacks. */
  function Omitted(source: Relation, destination: Relation): set<string> {
    (set c | c in source.columns) - (set c | c in destination.columns)
  }

  /** The destination after a conversion: copied tables hold the projected source rows, transient ones are empty. */
  function Converted(source: Database, destination: Database): Database
    requires Copied(source.Keys, destination.Keys) <= destination.Keys * source.Keys
  {
    map t | t in destination ::
      if t in Copied(source.Keys, destination.Keys) then Restored(source[t], destination[t])
      else if t in TRANSIENT then destination[t].(rows := [])
      else destination[t]
  }

  predicate Convertible(accepts: Constraints, source: Database, destination: Database) {
    && Unknown(source.Keys, destination.Keys) == {}
    && forall t :: t in Copied(source.Keys, destination.Keys) ==>
         t in source && t in destination && Restorable(accepts, t, source[t], destination[t])
  }

  datatype CopyResult = CopyResult(copied: map<string, nat>, omitted: map<string, set<string>>, reset: map<string, nat>,
                                   exported: set<string>)

  ghost predicate SameOthers(after: Database, before: Database, table: string) {
    after.Keys == before.Keys && forall t :: t in before && t != table ==> after[t] == before[t]
  }

  function Emptied(tables: Database, which: set<string>): Database {
    map t | t in tables :: if t in which then tables[t].(rows := []) else tables[t]
  }

  function Filled(tables: Database, which: set<string>, source: Database): Database
    requires which <= source.Keys
  {
    map t | t in tables :: if t in which then Restored(source[t], tables[t]) else tables[t]
  }

  function OmittedIn(tables: Database, which: set<string>, source: Database): map<string, set<string>>
    requires which <= tables.Keys * source.Keys
  {
    map t | t in which && Omitted(source[t], tables[t]) != {} :: Omitted(source[t], tables[t])
  }

  lemma OmittedGrows(tables: Database, which: set<string>, source: Database, t: string)
    requires which <= tables.Keys * source.Keys && t in tables && t in source && t !in which
    ensures OmittedIn(tables, which + {t}, source)
         == if Omitted(source[t], tables[t]) == {} then OmittedIn(tables, which, source)
            else OmittedIn(tables, which, source)[t := Omitted(source[t], tables[t])]
  {
    hide Omitted;
  }

  lemma EmptiedGrows(tables: Database, which: set<string>, t: string)
    requires t in tables
    ensures Emptied(tables, which).Keys == tables.Keys
    ensures Emptied(tables, which)[t := Emptied(tables, which)[t].(rows := [])] == Emptied(tables, which + {t})
  {
  }

  lemma FilledGrows(tables: Database, which: set<string>, source: Database, t: string, after: Database)
    requires which <= source.Keys && t in tables && t in source && t !in which
    requires SameOthers(after, Filled(tables, which, source), t) && after[t] == Restored(source[t], tables[t])
    ensures after == Filled(tables, which + {t}, source)
  {
    hide Restored;
  }

  lemma EmptiedElsewhere(tables: Database, which: set<string>, others: set<string>)
    requires others <= tables.Keys && forall t <- others :: t !in which
    ensures Emptied(tables, which).Keys == tables.Keys
    ensures forall t <- others :: Emptied(tables, which)[t] == tables[t]
  {
  }

  lemma NothingDone(tables: Database, source: Database)
    ensures Emptied(tables, {}) == tables && Filled(tables, {}, source) == tables
    ensures OmittedIn(tables, {}, source) == map[] && RowCounts({}, source) == map[]
  {
  }

  function RowCounts(which: set<string>, source: Database): map<string, nat> {
    map t | t in which && t in source :: |source[t].rows|
  }

  lemma RowCountsGrow(which: set<string>, source: Database, t: string)
    ensures RowCounts(which + {t}, source)
         == if t in source then RowCounts(which, source)[t := |source[t].rows|] else RowCounts(which, source)
  {
  }

  lemma ResetThenFilled(tables: Database, source: Database)
    requires Unknown(source.Keys, tables.Keys) == {}
    ensures var toCopy := Copied(source.Keys, tables.Keys);
      && toCopy <= source.Keys * tables.Keys
      && Filled(Emptied(tables, Reset(tables.Keys)), toCopy, source) == Converted(source, tables)
      && OmittedIn(Emptied(tables, Reset(tables.Keys)), toCopy, source) == OmittedIn(tables, toCopy, source)
  {
    CopiedTablesExist(source.Keys, tables.Keys);
    hide Copied, Unknown;
  }

  /** The counts and column lists a successful conversion reports. */
  function Report(source: Database, destination: Database): CopyResult
    requires Copied(source.Keys, destination.Keys) <= destination.Keys * source.Keys
  {
    var toCopy := Copied(source.Keys, destination.Keys);
    CopyResult(RowCounts(toCopy, source),
               OmittedIn(destination, toCopy, source),
               RowCounts(Reset(destination.Keys), source),
               Exported(source.Keys, destination.Keys))
  }

  datatype Error = UnknownTables | NoCommonColumns | ConstraintFailed | CountMismatch | CriticalMissing

  datatype Result<T> = Ok(value: T) | Err(error: Error)

  class Destination {
    var tables: Database
    const accepts: Constraints

    constructor (schema: Database, constraints: Constraints)
      ensures tables == schema && accepts == constraints
    {
      tables, accepts := schema, constraints;
    }

    /** `executemany` of one batch. */
    method InsertMany(table: string, batch: seq<Row>) returns (ok: bool)
      requires table in tables
      modifies this
      ensures SameOthers(tables, old(tables), table)
      ensures ok <==> Admitted(accepts, table, old(tables[table].rows), batch)
      ensures ok ==> tables[table] == old(tables[table]).(rows := old(tables[table].rows) + batch)
    {
      var start := tables[table].rows;
      assert start + batch[..0] == start;
      for i := 0 to |batch|
        invariant SameOthers(tables, old(tables), table)
        invariant tables[table] == old(tables[table]).(rows := start + batch[..i])
        invariant Admitted(accepts, table, start, batch) <==> Admitted(accepts, table, start + batch[..i], batch[i..])
      {
        assert batch[i..][0] == batch[i] && batch[i..][1..] == batch[i + 1..];
        assert start + batch[..i] + [batch[i]] == start + batch[..i + 1];
        var relation := tables[table];
        if !accepts(table, relation.rows, batch[i]) {
          return false;
        }
        tables := tables[table := relation.(rows := relation.rows + [batch[i]])];
      }
      assert batch[..|batch|] == batch;
      ok := true;
    }

    /** The loop over batches of 500 rows. */
    method InsertAll(table: string, source: Relation) returns (ok: bool, rowCount: nat)
      requires table in tables && tables[table].rows == []
      modifies this
      ensures SameOthers(tables, old(tables), table)
      ensures ok <==> Admitted(accepts, table, [], AllProjected(source, old(tables[table]), source.rows))
      ensures ok ==> tables[table] == Restored(source, old(tables[table])) && rowCount == |source.rows|
    {
      assert Admitted(accepts, table, [], []);
      hide Admitted, AllProjected, Projected;
      ghost var before := tables[table];
      ghost var all := AllProjected(source, before, source.rows);
      var cursor := source.rows;
      rowCount := 0;
      while cursor != []
        invariant rowCount <= |source.rows| && cursor == source.rows[rowCount..]
        invariant SameOthers(tables, old(tables), table)
        invariant tables[table] == before.(rows := all[..rowCount])
        invariant Admitted(accepts, table, [], all[..rowCount])
        decreases |cursor|
      {
        var size := if |cursor| < 500 then |cursor| else 500;
        var rows := cursor[..size];
        cursor := cursor[size..];
        BatchIsSlice(source, before, all[..rowCount], rowCount, size);
        PrefixGrows(accepts, table, all, rowCount, size);
        ok := InsertMany(table, AllProjected(source, tables[table], rows));
        if !ok {
          return;
        }
        rowCount := rowCount + |rows|;
      }
      assert all[..rowCount] == all;
      ok := true;
    }

    /** Restores one table; a failure leaves the rest to the caller's rollback. */
    method CopyTable(table: string, source: Relation) returns (r: Result<nat>)
      requires table in tables
      modifies this
      ensures SameOthers(tables, old(tables), table)
      ensures r.Ok? <==> Restorable(accepts, table, source, old(tables[table]))
      ensures r.Ok? ==> tables[table] == Restored(source, old(tables[table])) && r.value == |source.rows|
      ensures r.Err? ==> r.error in {NoCommonColumns, ConstraintFailed}
    {
      if !SharesColumns(source, tables[table]) {
        return Err(NoCommonColumns);
      }
      tables := tables[table := tables[table].(rows := [])];
      ProjectionIgnoresRows(source, old(tables[table]), [], source.rows);
      var ok, rowCount := InsertAll(table, source);
      r := if ok then Ok(rowCount) else Err(ConstraintFailed);
    }

    method ResetTables(toReset: set<string>, source: Database) returns (reset: map<string, nat>)
      requires toReset <= tables.Keys
      modifies this
      ensures tables == Emptied(old(tables), toReset)
      ensures reset == RowCounts(toReset, source)
    {
      reset := map[];
      var todo := toReset;
      assert toReset - todo == {};
      NothingDone(tables, source);
      hide Emptied, RowCounts;
      while todo != {}
        invariant todo <= toReset
        invariant tables == Emptied(old(tables), toReset - todo)
        invariant reset == RowCounts(toReset - todo, source)
        decreases |todo|
      {
        var t := Any(todo);
        EmptiedGrows(old(tables), toReset - todo, t);
        RowCountsGrow(toReset - todo, source, t);
        assert toReset - (todo - {t}) == toReset - todo + {t};
        if t in source {
          reset := reset[t := |source[t].rows|];
        }
        tables := tables[t := tables[t].(rows := [])];
        todo := todo - {t};
      }
      assert toReset - todo == toReset;
    }

    method CopyTables(toCopy: set<string>, source: Database)
        returns (error: Option<Error>, copied: map<string, nat>, omitted: map<string, set<string>>)
      requires toCopy <= tables.Keys * source.Keys
      modifies this
      ensures error == None <==> forall t <- toCopy :: Restorable(accepts, t, source[t], old(tables)[t])
      ensures error != None ==> error in {Some(NoCommonColumns), Some(ConstraintFailed)}
      ensures error == None ==> tables == Filled(old(tables), toCopy, source)
                                && copied == RowCounts(toCopy, source)
                                && omitted == OmittedIn(old(tables), toCopy, source)
    {
      hide Restorable, Restored, OmittedIn, RowCounts, Omitted;
      error, copied, omitted := None, map[], map[];
      NothingDone(tables, source);
      var todo := toCopy;
      assert toCopy - todo == {};
      while todo != {}
        invariant todo <= toCopy && error == None
        invariant tables == Filled(old(tables), toCopy - todo, source)
        invariant forall t <- toCopy - todo :: Restorable(accepts, t, source[t], old(tables)[t])
        invariant copied == RowCounts(toCopy - todo, source)
        invariant omitted == OmittedIn(old(tables), toCopy - todo, source)
        decreases |todo|
      {
        var t := Any(todo);
        assert t !in toCopy - todo && tables[t] == old(tables)[t];
        OmittedGrows(old(tables), toCopy - todo, source, t);
        if Omitted(source[t], tables[t]) != {} {
          omitted := omitted[t := Omitted(source[t], tables[t])];
        }
        RowCountsGrow(toCopy - todo, source, t);
        var r := CopyTable(t, source[t]);
        if r.Err? {
          error := Some(r.error);
          return;
        }
        copied := copied[t := r.value];
        FilledGrows(old(tables), toCopy - todo, source, t, tables);
        assert toCopy - (todo - {t}) == toCopy - todo + {t};
        todo := todo - {t};
      }
      assert toCopy - todo == toCopy;
    }

    /** The count of every copied table is compared with what the table now holds; it never differs. */
    method CountsMatch(copied: map<string, nat>) returns (ok: bool)
      requires copied.Keys <= tables.Keys
      ensures ok <==> forall t :: t in copied ==> |tables[t].rows| == copied[t]
    {
      var todo := copied.Keys;
      while todo != {}
        invariant todo <= copied.Keys
        invariant forall t <- copied.Keys - todo :: |tables[t].rows| == copied[t]
        decreases |todo|
      {
        var t := Any(todo);
        if |tables[t].rows| != copied[t] {
          return false;
        }
        todo := todo - {t};
      }
      ok := true;
    }

    /** The conversion as one transaction: it succeeds exactly when it can, and otherwise changes nothing. */
    method CopyCompatibleData(source: Database) returns (r: Result<CopyResult>)
      modifies this
      ensures r.Ok? <==> Convertible(accepts, source, old(tables))
      ensures r.Err? ==> tables == old(tables) && r.error !in {CountMismatch, CriticalMissing}
      ensures r.Ok? ==> tables == Converted(source, old(tables)) && r.value == Report(source, old(tables))
    {
      hide Copied, Unknown, Reset, Exported, Restorable;
      var sourceTables, destinationTables := source.Keys, tables.Keys;
      if Unknown(sourceTables, destinationTables) != {} {
        return Err(UnknownTables);
      }
      CopiedTablesExist(sourceTables, destinationTables);
      CriticalTablesAreCopied(sourceTables, destinationTables);
      var saved, toCopy := tables, Copied(sourceTables, destinationTables);
      var reset := ResetTables(Reset(destinationTables), source);
      EmptiedElsewhere(old(tables), Reset(destinationTables), toCopy);
      hide Emptied;
      assert forall t <- toCopy :: tables[t] == old(tables)[t];
      var error, copied, omitted := CopyTables(toCopy, source);
      if error.Some? {
        tables := saved;
        return Err(error.value);
      }
      ResetThenFilled(old(tables), source);
      var ok := CountsMatch(copied);
      if !ok {
        return Err(CountMismatch);
      }
      if CRITICAL * sourceTables - copied.Keys != {} {
        return Err(CriticalMissing);
      }
      r := Ok(CopyResult(copied, omitted, reset, Exported(sourceTables, destinationTables)));
    }
  }

  lemma CopiedTablesExist(source: set<string>, destination: set<string>)
    requires Unknown(source, destination) == {}
    ensures Copied(source, destination) <= source * destination
    ensures (forall t <- Copied(source, destination) :: t !in Reset(destination)) && Reset(destination) <= destination
  {
    forall t | t in Copied(source, destination)
      ensures t in destination
    {
      EveryTableHasOneFate(source, destination, t);
    }
  }

  lemma CriticalTablesAreCopied(source: set<string>, destination: set<string>)
    requires Unknown(source, destination) == {}
    ensures CRITICAL * source <= Copied(source, destination)
  {
    forall t | t in CRITICAL * source
      ensures t in Copied(source, destination)
    {
      EveryTableHasOneFate(source, destination, t);
    }
  }

  /**
   What a successful conversion keeps of a copied table: every row in order, every value of a shared column, and the
   destination's default in the others. Source columns without a place are reported.
   */
  lemma ConversionKeepsSharedValues(accepts: Constraints, source: Database, destination: Database, t: string, i: nat,
                                    c: string)
    requires Convertible(accepts, source, destination)
    requires Copied(source.Keys, destination.Keys) <= destination.Keys * source.Keys
    requires t in Copied(source.Keys, destination.Keys) && i < |source[t].rows|
    ensures t in destination && |Converted(source, destination)[t].rows| == |source[t].rows|
    ensures var row, omitted := Converted(source, destination)[t].rows[i], Report(source, destination).omitted;
      && (c in row <==> c in destination[t].columns)
      && (c in row ==> row[c] == if c in source[t].columns then Cell(source[t].rows[i], c)
                                 else Cell(destination[t].defaults, c))
      && (t in omitted && c in omitted[t] <==> c in source[t].columns && c !in destination[t].columns)
  {
    hide Restorable;
    var toCopy := Copied(source.Keys, destination.Keys);
    assert c in Omitted(source[t], destination[t]) <==> c in source[t].columns && c !in destination[t].columns;
    assert t in OmittedIn(destination, toCopy, source) <==> Omitted(source[t], destination[t]) != {};
  }

  /** Runtime state and short-lived records start clean in a converted database, and rows left behind are counted. */
  lemma RuntimeStateStartsClean(source: Database, destination: Database, t: string)
    requires Copied(source.Keys, destination.Keys) <= destination.Keys * source.Keys
    requires t in destination
    requires t in ["active_print_spoolman", "ams_sensor_history", "auth_ephemeral_tokens", "auth_rate_limit_events",
                   "notification_digest_queue", "notification_logs", "pending_uploads", "print_queue",
                   "printer_sensor_history", "smart_plug_energy_snapshots"]
    ensures Converted(source, destination)[t].rows == []
    ensures var reset := Report(source, destination).reset;
      (t in reset <==> t in source) && (t in reset ==> reset[t] == |source[t].rows|)
  {
    assert t in TRANSIENT by { TransientNames(t); }
    hide TRANSIENT, EXPORTABLE, Exported;
  }

  lemma TransientNames(t: string)
    ensures t in TRANSIENT <==>
              t in ["active_print_spoolman", "ams_sensor_history", "auth_ephemeral_tokens", "auth_rate_limit_events",
                    "notification_digest_queue", "notification_logs", "pending_uploads", "print_queue",
                    "printer_sensor_history", "smart_plug_energy_snapshots"]
  {
  }

  /** A source table without a place in the destination stops the conversion, but for five names. */
  lemma UnknownExactlyWhen(source: set<string>, destination: set<string>, t: string)
    ensures t in Unknown(source, destination) <==>
              && t in source && t !in destination
              && t !in ["bug_reports", "pipeline_jobs", "pipeline_runs", "slicer_pipelines", "sponsor_toast_state"]
  {
    assert t in EXPORTABLE <==>
             t in ["bug_reports", "pipeline_jobs", "pipeline_runs", "slicer_pipelines", "sponsor_toast_state"];
    hide EXPORTABLE;
  }

  /**
   Everything else that both schemas have is kept. A source table that the destination lacks stops the conversion unless
   it is one of the five that are exported instead.
   */
  lemma OtherTablesAreKept(accepts: Constraints, source: Database, destination: Database, t: string)
    requires Convertible(accepts, source, destination) && t in source
    ensures Copied(source.Keys, destination.Keys) <= destination.Keys * source.Keys
    ensures t in destination ==>
              (t in Copied(source.Keys, destination.Keys) <==>
                 t !in ["active_print_spoolman", "ams_sensor_history", "auth_ephemeral_tokens",
                        "auth_rate_limit_events", "notification_digest_queue", "notification_logs",
                        "pending_uploads", "print_queue", "printer_sensor_history", "smart_plug_energy_snapshots"])
    ensures t !in destination ==>
              && t in ["bug_reports", "pipeline_jobs", "pipeline_runs", "slicer_pipelines", "sponsor_toast_state"]
              && t in Report(source, destination).exported
  {
    CopiedTablesExist(source.Keys, destination.Keys);
    TransientNames(t);
    UnknownExactlyWhen(source.Keys, destination.Keys, t);
    hide TRANSIENT, EXPORTABLE, Restorable;
  }
}
