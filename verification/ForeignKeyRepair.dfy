/**
 scripts/rebuild_database.py, `_repair_orphaned_foreign_keys`: one pass over the violation list
 that was taken before the first change, with the connection's foreign-key enforcement on.
 */
module ForeignKeyRepair {
  import opened Sqlite

  /** A row of `PRAGMA foreign_key_check`; the rowid is NULL for a WITHOUT ROWID table. */
  datatype Violation = WithoutRowid(table: string, fkId: nat) | Violation(ref: Ref, fkId: nat)

  /** The report key `table.col+col`. */
  datatype Relationship = Relationship(table: string, columns: seq<string>)

  datatype Pass = Pass(data: Data, nullified: map<Relationship, nat>, deleted: map<string, nat>)

  datatype Outcome = Running(pass: Pass) | Raised

  function Count<K>(m: map<K, nat>, k: K): nat {
    if k in m then m[k] else 0
  }

  function Columns(links: seq<Link>): seq<string> {
    seq(|links|, i requires 0 <= i < |links| => links[i].child)
  }

  predicate AllCascade(fk: ForeignKey) { fk.onDelete == Cascade }

  /** Violations that lead to the UPDATE statement. */
  predicate Clears(schema: Schema, v: Violation) {
    v.Violation? && HasKey(schema, v.ref.table, v.fkId)
    && AllNullable(schema, v.ref.table, Key(schema, v.ref.table, v.fkId))
  }

  /** Violations that lead to the DELETE statement. */
  predicate Deletes(schema: Schema, v: Violation) {
    v.Violation? && HasKey(schema, v.ref.table, v.fkId)
    && !AllNullable(schema, v.ref.table, Key(schema, v.ref.table, v.fkId))
    && AllCascade(Key(schema, v.ref.table, v.fkId))
  }

  /** The loop body. */
  function Handle(schema: Schema, s: Pass, v: Violation): Outcome {
    if Clears(schema, v) then
      var fk := Key(schema, v.ref.table, v.fkId);
      match SetNullAt(schema, s.data, v.ref, ChildColumns(fk))
      case IntegrityError => Raised
      case Done(data, 0) => Running(s.(data := data))
      case Done(data, n) =>
        var rel := Relationship(v.ref.table, Columns(fk.links));
        Running(s.(data := data, nullified := s.nullified[rel := Count(s.nullified, rel) + n]))
    else if Deletes(schema, v) then
      match DeleteAt(schema, s.data, v.ref)
      case IntegrityError => Raised
      case Done(data, 0) => Running(s.(data := data))
      case Done(data, n) =>
        Running(s.(data := data, deleted := s.deleted[v.ref.table := Count(s.deleted, v.ref.table) + n]))
    else Running(s)
  }

  function Run(schema: Schema, s: Pass, vs: seq<Violation>): Outcome
    decreases |vs|
  {
    if vs == [] then Running(s)
    else match Handle(schema, s, vs[0])
      case Raised => Raised
      case Running(next) => Run(schema, next, vs[1..])
  }

  ghost predicate IsCheckOf(schema: Schema, db: Data, vs: seq<Violation>) {
    && (forall v :: v in vs ==> v.Violation? && Violated(schema, db, v.ref, v.fkId))
    && (forall c, f :: Violated(schema, db, c, f) ==> Violation(c, f) in vs)
  }

  function Start(db: Data): Pass { Pass(db, map[], map[]) }

  predicate Repairable(schema: Schema, v: Violation) {
    Clears(schema, v) || Deletes(schema, v)
  }

  // ---------------------------------------------------------------- what any pass keeps

  /** Rows only disappear, and a surviving row differs only in nullable columns that became NULL. */
  ghost predicate Weakens(schema: Schema, before: Data, after: Data) {
    && after.Keys <= before.Keys
    && forall r, c :: r in after ==>
         Cell(after[r], c) == Cell(before[r], c) || (Cell(after[r], c) == Null && Nullable(schema, r.table, c))
  }

  lemma HandleWeakens(schema: Schema, s: Pass, v: Violation)
    requires Handle(schema, s, v).Running?
    ensures Weakens(schema, s.data, Handle(schema, s, v).pass.data)
    ensures NoNewViolation(schema, s.data, Handle(schema, s, v).pass.data)
  {
  }

  lemma {:induction false} RunWeakens(schema: Schema, s: Pass, vs: seq<Violation>)
    requires Run(schema, s, vs).Running?
    ensures Weakens(schema, s.data, Run(schema, s, vs).pass.data)
    ensures NoNewViolation(schema, s.data, Run(schema, s, vs).pass.data)
    decreases |vs|
  {
    if vs != [] {
      HandleWeakens(schema, s, vs[0]);
      RunWeakens(schema, Handle(schema, s, vs[0]).pass, vs[1..]);
    }
  }

  /** A cell only ever changes to NULL, and only in a column that is neither NOT NULL nor part of the primary key. */
  lemma OnlyOptionalCellsChange(schema: Schema, s: Pass, vs: seq<Violation>, r: Ref, c: string)
    requires Run(schema, s, vs).Running? && r in Run(schema, s, vs).pass.data
    ensures r in s.data
    ensures var before, after := Cell(s.data[r], c), Cell(Run(schema, s, vs).pass.data[r], c);
      after != before ==>
        && after == Null && r.table in schema && c in schema[r.table].columns
        && !schema[r.table].columns[c].notNull && !schema[r.table].columns[c].primaryKey
  {
    RunWeakens(schema, s, vs);
    hide Run;
  }

  lemma HandleResolves(schema: Schema, s: Pass, v: Violation)
    requires WellFormed(schema) && Repairable(schema, v) && Handle(schema, s, v).Running?
    ensures !Violated(schema, Handle(schema, s, v).pass.data, v.ref, v.fkId)
  {
    var after := Handle(schema, s, v).pass.data;
    if Clears(schema, v) && v.ref in s.data {
      var l := Key(schema, v.ref.table, v.fkId).links[0];
      assert l.child in ChildColumns(Key(schema, v.ref.table, v.fkId));
      assert Cell(after[v.ref], l.child) == Null;
    } else if Deletes(schema, v) && v.ref in s.data {
      ClosureContains(schema, s.data, {v.ref});
    }
  }

  lemma {:induction false} ClosureContains(schema: Schema, db: Data, gone: set<Ref>)
    requires gone <= db.Keys
    ensures gone <= CascadeClosure(schema, db, gone) <= db.Keys
    decreases |db.Keys - gone|
  {
    var next := CascadeStep(schema, db, gone);
    if next != gone {
      SetShrinks(db.Keys - next, db.Keys - gone);
      ClosureContains(schema, db, next);
    }
  }

  lemma {:induction false} RunResolves(schema: Schema, s: Pass, vs: seq<Violation>, v: Violation)
    requires WellFormed(schema) && v in vs && Repairable(schema, v) && Run(schema, s, vs).Running?
    ensures !Violated(schema, Run(schema, s, vs).pass.data, v.ref, v.fkId)
    decreases |vs|
  {
    var next := Handle(schema, s, vs[0]).pass;
    if v == vs[0] {
      HandleResolves(schema, s, v);
      RunWeakens(schema, next, vs[1..]);
    } else {
      RunResolves(schema, next, vs[1..], v);
    }
  }

  /**
   One pass over the first violation list is enough: whatever the deletions and their cascades do,
   the only violations left are original ones that the two rules do not cover.
   */
  lemma OnePassSuffices(schema: Schema, db: Data, vs: seq<Violation>)
    requires WellFormed(schema) && IsCheckOf(schema, db, vs) && Run(schema, Start(db), vs).Running?
    ensures forall c, f :: Violated(schema, Run(schema, Start(db), vs).pass.data, c, f) ==>
              Violated(schema, db, c, f) && !Repairable(schema, Violation(c, f))
  {
    var after := Run(schema, Start(db), vs).pass.data;
    RunWeakens(schema, Start(db), vs);
    forall c, f | Violated(schema, after, c, f)
      ensures Violated(schema, db, c, f) && !Repairable(schema, Violation(c, f))
    {
      if Repairable(schema, Violation(c, f)) {
        RunResolves(schema, Start(db), vs, Violation(c, f));
      }
    }
  }

  // ---------------------------------------------------------------- what a DELETE takes with it

  ghost predicate CascadeClosed(schema: Schema, db: Data, s: set<Ref>) {
    forall c, p :: p in s && CascadesTo(schema, db, c, p) ==> c in s
  }

  /** The cascade of a DELETE is the least set of rows closed under ON DELETE CASCADE. */
  lemma {:induction false} ClosureIsLeast(schema: Schema, db: Data, gone: set<Ref>)
    requires gone <= db.Keys
    ensures CascadeClosed(schema, db, CascadeClosure(schema, db, gone))
    ensures forall s :: gone <= s && CascadeClosed(schema, db, s) ==> CascadeClosure(schema, db, gone) <= s
    decreases |db.Keys - gone|
  {
    var next := CascadeStep(schema, db, gone);
    if next != gone {
      SetShrinks(db.Keys - next, db.Keys - gone);
      ClosureIsLeast(schema, db, next);
    }
  }

  lemma WeakerClosure(schema: Schema, before: Data, after: Data, r: Ref)
    requires Weakens(schema, before, after) && r in after
    ensures CascadeClosure(schema, after, {r}) <= CascadeClosure(schema, before, {r})
  {
    var s := CascadeClosure(schema, before, {r});
    ClosureIsLeast(schema, before, {r});
    ClosureContains(schema, before, {r});
    ClosureIsLeast(schema, after, {r});
    forall c, p | p in s && CascadesTo(schema, after, c, p)
      ensures c in s
    {
      var f :| f in schema[c.table].foreignKeys && Key(schema, c.table, f).onDelete == Cascade
               && References(schema, after, c, f, p);
      assert References(schema, before, c, f, p);
      assert CascadesTo(schema, before, c, p);
    }
  }

  /** Every lost row was listed for deletion or hangs, through cascades, on a row that was. */
  lemma {:induction false} LostRowsAreExplained(schema: Schema, s: Pass, vs: seq<Violation>)
    requires Run(schema, s, vs).Running?
    ensures forall x :: x in s.data && x !in Run(schema, s, vs).pass.data ==>
              exists v :: v in vs && Deletes(schema, v) && v.ref in s.data
                       && x in CascadeClosure(schema, s.data, {v.ref})
    decreases |vs|
  {
    if vs != [] {
      var next := Handle(schema, s, vs[0]).pass;
      HandleWeakens(schema, s, vs[0]);
      LostRowsAreExplained(schema, next, vs[1..]);
      forall x | x in s.data && x !in Run(schema, s, vs).pass.data
        ensures exists v :: v in vs && Deletes(schema, v) && v.ref in s.data
                         && x in CascadeClosure(schema, s.data, {v.ref})
      {
        if x in next.data {
          var v :| v in vs[1..] && Deletes(schema, v) && v.ref in next.data
                   && x in CascadeClosure(schema, next.data, {v.ref});
          WeakerClosure(schema, s.data, next.data, v.ref);
        } else {
          assert Deletes(schema, vs[0]) && x in CascadeClosure(schema, s.data, {vs[0].ref});
        }
      }
    }
  }

  // ---------------------------------------------------------------- when no statement can fail

  /** Nullable columns never serve as a parent key; true of every primary key. */
  ghost predicate KeysAreRequired(schema: Schema) {
    forall t, f, l :: HasKey(schema, t, f) && l in Key(schema, t, f).links ==>
      !Nullable(schema, Key(schema, t, f).parent, l.parent)
  }

  /** Every key is covered by one of the two rules: its columns may be NULL, or it cascades. */
  ghost predicate EveryKeyIsRepairable(schema: Schema) {
    forall t, f :: HasKey(schema, t, f) ==> AllNullable(schema, t, Key(schema, t, f)) || AllCascade(Key(schema, t, f))
  }

  /**
   Deletions stay in `tables` and meet only actions that apply: the tables the second rule deletes from and those that
   cascade on them are among them, and every key that refers to one of them cascades or clears columns that may be
   NULL. What a key does that refers elsewhere is free.
   */
  ghost predicate Confined(schema: Schema, tables: set<string>) {
    forall t, f :: HasKey(schema, t, f) ==>
      var fk := Key(schema, t, f);
      && (AllCascade(fk) && (!AllNullable(schema, t, fk) || fk.parent in tables) ==> t in tables)
      && (fk.parent in tables ==> AllCascade(fk) || (fk.onDelete == SetNull && AllNullable(schema, t, fk)))
  }

  ghost predicate DeletionsApply(schema: Schema) { exists tables :: Confined(schema, tables) }

  /** A reference between two surviving rows outlives any weakening that leaves the child key in place. */
  lemma ReferenceSurvives(schema: Schema, before: Data, after: Data, c: Ref, f: nat, p: Ref)
    requires KeysAreRequired(schema) && Weakens(schema, before, after)
    requires References(schema, before, c, f, p) && c in after && p in after
    requires ChildKeyPresent(after[c], Key(schema, c.table, f))
    ensures References(schema, after, c, f, p)
  {
    var fk := Key(schema, c.table, f);
    forall l | l in fk.links
      ensures Cell(after[c], l.child) == Cell(after[p], l.parent)
    {
      assert !Nullable(schema, fk.parent, l.parent);
    }
  }

  lemma ClearingSucceeds(schema: Schema, db: Data, r: Ref, fk: ForeignKey)
    requires KeysAreRequired(schema) && AllNullable(schema, r.table, fk)
    ensures SetNullAt(schema, db, r, ChildColumns(fk)).Done?
  {
    if r in db {
      var after := db[r := NullColumns(db[r], ChildColumns(fk))];
      assert Weakens(schema, db, after);
      forall c, f | Violated(schema, after, c, f)
        ensures Violated(schema, db, c, f)
      {
        if p :| p in db && References(schema, db, c, f, p) {
          ReferenceSurvives(schema, db, after, c, f, p);
        }
      }
    }
  }

  /** A deletion never leaves the tables it is confined to. */
  lemma ClosureIsConfined(schema: Schema, tables: set<string>, db: Data, r: Ref)
    requires Confined(schema, tables) && r in db && r.table in tables
    ensures forall c <- CascadeClosure(schema, db, {r}) :: c.table in tables
  {
    var within := set c | c in db && c.table in tables;
    ClosureIsLeast(schema, db, {r});
    assert CascadeClosed(schema, db, within);
  }

  lemma LostParentClears(schema: Schema, tables: set<string>, db: Data, gone: set<Ref>, c: Ref, f: nat, p: Ref)
    requires WellFormed(schema) && Confined(schema, tables) && CascadeClosed(schema, db, gone)
    requires References(schema, db, c, f, p) && p in gone && p.table in tables && c !in gone
    ensures !ChildKeyPresent(Without(schema, db, gone)[c], Key(schema, c.table, f))
  {
    var fk := Key(schema, c.table, f);
    assert fk.onDelete == Cascade ==> CascadesTo(schema, db, c, p);
    var l := fk.links[0];
    assert l in fk.links;
    assert l.child in ClearedColumns(schema, db, c, gone);
    assert Cell(Without(schema, db, gone)[c], l.child) == Null;
  }

  lemma DeletingSucceeds(schema: Schema, tables: set<string>, db: Data, r: Ref)
    requires WellFormed(schema) && KeysAreRequired(schema) && Confined(schema, tables) && r.table in tables
    ensures DeleteAt(schema, db, r).Done?
  {
    if r in db {
      var gone := CascadeClosure(schema, db, {r});
      var after := Without(schema, db, gone);
      ClosureIsLeast(schema, db, {r});
      ClosureIsConfined(schema, tables, db, r);
      assert ClearsOnlyNullable(schema, db, gone);
      assert Weakens(schema, db, after);
      forall c, f | Violated(schema, after, c, f)
        ensures Violated(schema, db, c, f)
      {
        if p :| p in db && References(schema, db, c, f, p) {
          if p in gone {
            LostParentClears(schema, tables, db, gone, c, f, p);
          } else {
            ReferenceSurvives(schema, db, after, c, f, p);
          }
        }
      }
    }
  }

  lemma {:induction false} RunSucceeds(schema: Schema, s: Pass, vs: seq<Violation>)
    requires WellFormed(schema) && KeysAreRequired(schema)
    requires DeletionsApply(schema) || forall v :: v in vs ==> !Deletes(schema, v)
    ensures Run(schema, s, vs).Running?
    decreases |vs|
  {
    if vs != [] {
      var v := vs[0];
      if Clears(schema, v) {
        ClearingSucceeds(schema, s.data, v.ref, Key(schema, v.ref.table, v.fkId));
      } else if Deletes(schema, v) {
        var tables :| Confined(schema, tables);
        DeletingSucceeds(schema, tables, s.data, v.ref);
      }
      RunSucceeds(schema, Handle(schema, s, v).pass, vs[1..]);
    }
  }

  /** On a schema of repairable keys whose deletions apply the repair closes every database whatsoever. */
  lemma RepairAlwaysCloses(schema: Schema, db: Data, vs: seq<Violation>)
    requires WellFormed(schema) && KeysAreRequired(schema) && EveryKeyIsRepairable(schema) && DeletionsApply(schema)
    requires IsCheckOf(schema, db, vs)
    ensures Run(schema, Start(db), vs).Running?
    ensures Closed(schema, Run(schema, Start(db), vs).pass.data)
  {
    RunSucceeds(schema, Start(db), vs);
    OnePassSuffices(schema, db, vs);
    assert forall c: Ref, f :: HasKey(schema, c.table, f) ==> Repairable(schema, Violation(c, f));
  }

  /** Column `c` of row `r` belongs to a listed key. */
  ghost predicate Listed(schema: Schema, vs: seq<Violation>, r: Ref, c: string) {
    exists v :: v in vs && Clears(schema, v) && v.ref == r && c in ChildColumns(Key(schema, r.table, v.fkId))
  }

  lemma {:induction false} ClearedCells(schema: Schema, s: Pass, vs: seq<Violation>)
    requires Run(schema, s, vs).Running?
    requires forall v :: v in vs ==> !Deletes(schema, v)
    ensures var end := Run(schema, s, vs).pass;
      end.data.Keys == s.data.Keys && end.deleted == s.deleted
    ensures forall r, c :: r in s.data ==>
      Cell(Run(schema, s, vs).pass.data[r], c) == if Listed(schema, vs, r, c) then Null else Cell(s.data[r], c)
    decreases |vs|
  {
    if vs != [] {
      var next := Handle(schema, s, vs[0]).pass;
      ClearedCells(schema, next, vs[1..]);
      forall r, c | r in s.data
        ensures Cell(Run(schema, s, vs).pass.data[r], c)
             == if Listed(schema, vs, r, c) then Null else Cell(s.data[r], c)
      {
        assert Listed(schema, vs, r, c) <==>
          Listed(schema, vs[1..], r, c)
          || (Clears(schema, vs[0]) && vs[0].ref == r && c in ChildColumns(Key(schema, r.table, vs[0].fkId)));
      }
    }
  }

  /**
   When every violated key may be cleared, the pass cannot raise, keeps every row, closes the
   database, sets exactly the child columns of the violated keys to NULL, and reports every violation.
   */
  lemma NullableViolationsAreClearedExactly(schema: Schema, db: Data, vs: seq<Violation>)
    requires WellFormed(schema) && KeysAreRequired(schema) && IsCheckOf(schema, db, vs)
    requires forall c, f :: Violated(schema, db, c, f) ==> AllNullable(schema, c.table, Key(schema, c.table, f))
    ensures Run(schema, Start(db), vs).Running?
    ensures var end := Run(schema, Start(db), vs).pass;
      Closed(schema, end.data) && end.data.Keys == db.Keys && end.deleted == map[]
    ensures forall r, c :: r in db ==>
      Cell(Run(schema, Start(db), vs).pass.data[r], c) ==
        if exists f :: Violated(schema, db, r, f) && c in ChildColumns(Key(schema, r.table, f)) then Null
        else Cell(db[r], c)
    ensures forall table, columns ::
      Count(Run(schema, Start(db), vs).pass.nullified, Relationship(table, columns))
      == Listings(schema, vs, table, columns)
  {
    RunSucceeds(schema, Start(db), vs);
    forall table, columns
      ensures Count(Run(schema, Start(db), vs).pass.nullified, Relationship(table, columns))
           == Listings(schema, vs, table, columns)
    {
      ClearedRowsAreReported(schema, Start(db), vs, table, columns);
      AllListingsAreCleared(schema, Start(db), vs, table, columns);
    }
    OnePassSuffices(schema, db, vs);
    ClearedCells(schema, Start(db), vs);
    forall r, c | r in db
      ensures Listed(schema, vs, r, c) <==>
        exists f :: Violated(schema, db, r, f) && c in ChildColumns(Key(schema, r.table, f))
    {
      if f :| Violated(schema, db, r, f) && c in ChildColumns(Key(schema, r.table, f)) {
        assert Violation(r, f) in vs && Clears(schema, Violation(r, f));
      }
    }
  }

  // ---------------------------------------------------------------- the two reports

  function RowsOf(rows: set<Ref>, table: string): set<Ref> {
    set r | r in rows && r.table == table
  }

  /** The rows that a DELETE statement of the pass named and found. */
  function Named(schema: Schema, s: Pass, vs: seq<Violation>): set<Ref>
    requires Run(schema, s, vs).Running?
    decreases |vs|
  {
    if vs == [] then {}
    else
      (if Deletes(schema, vs[0]) && vs[0].ref in s.data then {vs[0].ref} else {})
      + Named(schema, Handle(schema, s, vs[0]).pass, vs[1..])
  }

  lemma RowsOfInsert(rows: set<Ref>, r: Ref, table: string)
    requires r !in rows
    ensures |RowsOf({r} + rows, table)| == |RowsOf(rows, table)| + (if r.table == table then 1 else 0)
  {
    assert RowsOf({r} + rows, table) == RowsOf(rows, table) + (if r.table == table then {r} else {});
  }

  lemma HandleReports(schema: Schema, s: Pass, v: Violation, table: string)
    requires Handle(schema, s, v).Running?
    ensures Handle(schema, s, v).pass.data.Keys <= s.data.Keys
    ensures var next := Handle(schema, s, v).pass;
      if Deletes(schema, v) && v.ref in s.data
      then v.ref !in next.data
        && Count(next.deleted, table) == Count(s.deleted, table) + (if v.ref.table == table then 1 else 0)
      else next.deleted == s.deleted
  {
    if Deletes(schema, v) && v.ref in s.data {
      ClosureContains(schema, s.data, {v.ref});
    }
  }

  lemma {:induction false} NamedRowsAreReported(schema: Schema, s: Pass, vs: seq<Violation>, table: string)
    requires Run(schema, s, vs).Running?
    ensures Run(schema, s, vs).pass.data.Keys <= s.data.Keys
    ensures Named(schema, s, vs) <= s.data.Keys - Run(schema, s, vs).pass.data.Keys
    ensures Count(Run(schema, s, vs).pass.deleted, table)
         == Count(s.deleted, table) + |RowsOf(Named(schema, s, vs), table)|
    decreases |vs|
  {
    hide Handle;
    if vs != [] {
      var v, next := vs[0], Handle(schema, s, vs[0]).pass;
      var rest := Named(schema, next, vs[1..]);
      NamedRowsAreReported(schema, next, vs[1..], table);
      HandleReports(schema, s, v, table);
      assert Run(schema, s, vs) == Run(schema, next, vs[1..]);
      if Deletes(schema, v) && v.ref in s.data {
        RowsOfInsert(rest, v.ref, table);
        assert Named(schema, s, vs) == {v.ref} + rest;
      } else {
        assert Named(schema, s, vs) == rest;
      }
    }
  }

  /** The violation is about a nullable key of the table on exactly these columns, in the order of the key. */
  predicate IsOf(schema: Schema, v: Violation, table: string, columns: seq<string>) {
    && Clears(schema, v) && v.ref.table == table
    && var links := Key(schema, table, v.fkId).links;
      |links| == |columns| && forall i :: 0 <= i < |links| ==> links[i].child == columns[i]
  }

  /** How many listed violations of these columns still found their row when their UPDATE ran. */
  function Cleared(schema: Schema, s: Pass, vs: seq<Violation>, table: string, columns: seq<string>): nat
    requires Run(schema, s, vs).Running?
    decreases |vs|
  {
    if vs == [] then 0
    else
      (if IsOf(schema, vs[0], table, columns) && vs[0].ref in s.data then 1 else 0)
      + Cleared(schema, Handle(schema, s, vs[0]).pass, vs[1..], table, columns)
  }

  lemma HandleCounts(schema: Schema, s: Pass, v: Violation, table: string, columns: seq<string>)
    requires Handle(schema, s, v).Running?
    ensures Count(Handle(schema, s, v).pass.nullified, Relationship(table, columns))
         == Count(s.nullified, Relationship(table, columns))
            + if IsOf(schema, v, table, columns) && v.ref in s.data then 1 else 0
  {
    hide AllNullable, NoNewViolation, NullColumns, DeleteAt;
    if Clears(schema, v) {
      var links := Key(schema, v.ref.table, v.fkId).links;
      assert Relationship(v.ref.table, Columns(links)) == Relationship(table, columns)
        <==> IsOf(schema, v, table, columns);
    }
  }

  /** `nullified` counts, for each table and column list, every UPDATE that found its row. */
  lemma {:induction false} ClearedRowsAreReported(schema: Schema, s: Pass, vs: seq<Violation>, table: string,
                                                  columns: seq<string>)
    requires Run(schema, s, vs).Running?
    ensures Count(Run(schema, s, vs).pass.nullified, Relationship(table, columns))
         == Count(s.nullified, Relationship(table, columns)) + Cleared(schema, s, vs, table, columns)
    decreases |vs|
  {
    hide Handle, IsOf, Count;
    if vs != [] {
      HandleCounts(schema, s, vs[0], table, columns);
      ClearedRowsAreReported(schema, Handle(schema, s, vs[0]).pass, vs[1..], table, columns);
    }
  }

  /** The number of listed violations of these columns. */
  function Listings(schema: Schema, vs: seq<Violation>, table: string, columns: seq<string>): nat {
    if vs == [] then 0
    else (if IsOf(schema, vs[0], table, columns) then 1 else 0) + Listings(schema, vs[1..], table, columns)
  }

  lemma {:induction false} AllListingsAreCleared(schema: Schema, s: Pass, vs: seq<Violation>, table: string,
                                                 columns: seq<string>)
    requires Run(schema, s, vs).Running?
    requires forall v <- vs :: !Deletes(schema, v) && (v.Violation? ==> v.ref in s.data)
    ensures Cleared(schema, s, vs, table, columns) == Listings(schema, vs, table, columns)
    decreases |vs|
  {
    hide Handle, AllNullable, CascadeClosure, StandsAlone;
    if vs != [] {
      var next := Handle(schema, s, vs[0]).pass;
      StepLoses(schema, s, vs[0]);
      assert vs[0] in vs && forall v <- vs[1..] :: v in vs;
      assert forall r :: r in s.data && r !in next.data ==> r in s.data.Keys - next.data.Keys;
      AllListingsAreCleared(schema, next, vs[1..], table, columns);
    }
  }

  /**
   Conservation, table by table and for any violation list: the rows before are the rows after,
   the reported deletions, and the rows that only a cascade removed.
   */
  lemma RowsAreConserved(schema: Schema, db: Data, vs: seq<Violation>, table: string)
    requires Run(schema, Start(db), vs).Running?
    ensures var end := Run(schema, Start(db), vs).pass;
      |RowsOf(db.Keys, table)| == |RowsOf(end.data.Keys, table)| + Count(end.deleted, table)
        + |RowsOf(db.Keys - end.data.Keys - Named(schema, Start(db), vs), table)|
  {
    var end := Run(schema, Start(db), vs).pass;
    var named := Named(schema, Start(db), vs);
    var silent := db.Keys - end.data.Keys - named;
    RunWeakens(schema, Start(db), vs);
    NamedRowsAreReported(schema, Start(db), vs, table);
    assert RowsOf(db.Keys, table) == RowsOf(end.data.Keys, table) + RowsOf(named, table) + RowsOf(silent, table);
  }

  /** Whenever a DELETE of the pass finds its row, no other row cascades on it at that moment. */
  predicate DeletesAlone(schema: Schema, s: Pass, vs: seq<Violation>)
    requires Run(schema, s, vs).Running?
    decreases |vs|
  {
    vs == []
    || ((Deletes(schema, vs[0]) && vs[0].ref in s.data ==> StandsAlone(schema, s.data, vs[0].ref))
        && DeletesAlone(schema, Handle(schema, s, vs[0]).pass, vs[1..]))
  }

  predicate StandsAlone(schema: Schema, db: Data, r: Ref) {
    forall c :: c in db && CascadesTo(schema, db, c, r) ==> c == r
  }

  /** The rows one step removes: the named row with its cascade, or none. */
  lemma StepLoses(schema: Schema, s: Pass, v: Violation)
    requires Handle(schema, s, v).Running?
    ensures var next, found := Handle(schema, s, v).pass, Deletes(schema, v) && v.ref in s.data;
      && s.data.Keys - next.data.Keys == (if found then CascadeClosure(schema, s.data, {v.ref}) else {})
      && ((if found then {v.ref} else {}) == s.data.Keys - next.data.Keys
          <==> (found ==> StandsAlone(schema, s.data, v.ref)))
  {
    if Deletes(schema, v) && v.ref in s.data {
      ClosureContains(schema, s.data, {v.ref});
      ClosureIsAloneExactlyWhen(schema, s.data, v.ref);
    }
    hide StandsAlone, CascadeClosure;
  }

  lemma ClosureIsAloneExactlyWhen(schema: Schema, db: Data, r: Ref)
    requires r in db
    ensures CascadeClosure(schema, db, {r}) == {r} <==> StandsAlone(schema, db, r)
  {
    ClosureContains(schema, db, {r});
    ClosureIsLeast(schema, db, {r});
    if StandsAlone(schema, db, r) {
      assert CascadeClosed(schema, db, {r});
    } else {
      var c :| c in db && CascadesTo(schema, db, c, r) && c != r;
      assert c in CascadeClosure(schema, db, {r});
    }
  }

  lemma RemovedRows(all: set<Ref>, left: set<Ref>, gone: set<Ref>, r: Ref)
    requires left == all - gone && gone <= all && r in gone
    ensures |all| == |left| + 1 <==> gone == {r}
  {
    assert all == left + gone && left !! gone;
    if gone != {r} {
      var rest := gone - {r};
      assert rest != {} && gone == rest + {r};
      assert |gone| == |rest| + 1;
    }
  }

  /** One DELETE reports every row it removes exactly when nothing else cascades on the named row. */
  lemma DeleteReportIsComplete(schema: Schema, db: Data, r: Ref)
    requires DeleteAt(schema, db, r).Done? && r in db
    ensures |db| == |DeleteAt(schema, db, r).data| + DeleteAt(schema, db, r).rowcount <==> StandsAlone(schema, db, r)
  {
    var gone := CascadeClosure(schema, db, {r});
    var after := DeleteAt(schema, db, r).data;
    ClosureContains(schema, db, {r});
    assert after.Keys == db.Keys - gone;
    ClosureIsAloneExactlyWhen(schema, db, r);
    hide StandsAlone, CascadeClosure;
    RemovedRows(db.Keys, after.Keys, gone, r);
    assert |db| == |db.Keys| && |after| == |after.Keys|;
  }

  lemma PartsAgree(one: set<Ref>, rest: set<Ref>, lost: set<Ref>, gone: set<Ref>)
    requires one <= lost && rest <= gone && lost !! gone
    ensures one + rest == lost + gone <==> one == lost && rest == gone
  {
    assert (one + rest) * lost == one && (one + rest) * gone == rest;
    assert (lost + gone) * lost == lost && (lost + gone) * gone == gone;
  }

  /** A pass names every row it loses exactly when each of its deletions stands alone. */
  lemma {:induction false} NamedIsAllExactlyWhen(schema: Schema, s: Pass, vs: seq<Violation>)
    requires Run(schema, s, vs).Running?
    ensures Named(schema, s, vs) == s.data.Keys - Run(schema, s, vs).pass.data.Keys <==> DeletesAlone(schema, s, vs)
    decreases |vs|
  {
    hide Handle, CascadeClosure, StandsAlone, RowsOf, Count;
    if vs != [] {
      var v, next := vs[0], Handle(schema, s, vs[0]).pass;
      var found := Deletes(schema, v) && v.ref in s.data;
      var one := if found then {v.ref} else {};
      assert Run(schema, s, vs) == Run(schema, next, vs[1..]);
      assert Named(schema, s, vs) == one + Named(schema, next, vs[1..]);
      assert DeletesAlone(schema, s, vs)
        <==> (found ==> StandsAlone(schema, s.data, v.ref)) && DeletesAlone(schema, next, vs[1..]);
      hide Run, Named, DeletesAlone, Deletes;
      NamedIsAllExactlyWhen(schema, next, vs[1..]);
      NamedRowsAreReported(schema, next, vs[1..], "");
      StepLoses(schema, s, v);
      HandleReports(schema, s, v, "");
      var end := Run(schema, s, vs).pass.data.Keys;
      LossesOfAStep(s.data.Keys, next.data.Keys, end, one, Named(schema, next, vs[1..]));
    }
  }

  lemma LossesOfAStep(before: set<Ref>, next: set<Ref>, end: set<Ref>, one: set<Ref>, rest: set<Ref>)
    requires end <= next <= before && one <= before - next && rest <= next - end
    ensures one + rest == before - end <==> one == before - next && rest == next - end
  {
    assert before - end == (before - next) + (next - end);
    PartsAgree(one, rest, before - next, next - end);
  }

  lemma EmptyByTable(rows: set<Ref>)
    ensures rows == {} <==> forall table :: |RowsOf(rows, table)| == 0
  {
    if r :| r in rows {
      assert r in RowsOf(rows, r.table);
    }
  }

  /**
   The report of a whole pass, for any violation list: in every table the rows before are the rows after plus `deleted`
   exactly when each deletion stood alone.
   */
  lemma PassReportIsCompleteExactlyWhen(schema: Schema, db: Data, vs: seq<Violation>)
    requires Run(schema, Start(db), vs).Running?
    ensures var end := Run(schema, Start(db), vs).pass;
      (forall table :: |RowsOf(db.Keys, table)| == |RowsOf(end.data.Keys, table)| + Count(end.deleted, table))
      <==> DeletesAlone(schema, Start(db), vs)
  {
    hide Run, RowsOf, Named, DeletesAlone;
    var s := Start(db);
    var end := Run(schema, s, vs).pass;
    var silent := db.Keys - end.data.Keys - Named(schema, s, vs);
    forall table
      ensures |RowsOf(silent, table)| == 0 <==>
                |RowsOf(db.Keys, table)| == |RowsOf(end.data.Keys, table)| + Count(end.deleted, table)
    {
      RowsAreConserved(schema, db, vs, table);
    }
    EmptyByTable(silent);
    NamedIsAllExactlyWhen(schema, s, vs);
    NamedRowsAreReported(schema, s, vs, "");
    assert silent == {} <==> Named(schema, s, vs) == db.Keys - end.data.Keys;
  }

  lemma AloneStays(schema: Schema, before: Data, after: Data, r: Ref)
    requires Weakens(schema, before, after) && StandsAlone(schema, before, r) && r in after
    ensures StandsAlone(schema, after, r)
  {
    forall c | c in after && CascadesTo(schema, after, c, r)
      ensures c == r
    {
      var f :| f in schema[c.table].foreignKeys && Key(schema, c.table, f).onDelete == Cascade
               && References(schema, after, c, f, r);
      assert References(schema, before, c, f, r);
      assert CascadesTo(schema, before, c, r);
    }
  }

  /**
   What can be looked up beforehand: if no other row cascades on any row listed for deletion, the report is complete.
   */
  lemma {:induction false} ListedRowsAlone(schema: Schema, s: Pass, vs: seq<Violation>)
    requires Run(schema, s, vs).Running?
    requires forall v <- vs :: Deletes(schema, v) && v.ref in s.data ==> StandsAlone(schema, s.data, v.ref)
    ensures DeletesAlone(schema, s, vs)
    decreases |vs|
  {
    hide Handle, StandsAlone;
    if vs != [] {
      var next := Handle(schema, s, vs[0]).pass;
      HandleWeakens(schema, s, vs[0]);
      forall v | v in vs[1..] && Deletes(schema, v) && v.ref in next.data
        ensures StandsAlone(schema, next.data, v.ref)
      {
        AloneStays(schema, s.data, next.data, v.ref);
      }
      ListedRowsAlone(schema, next, vs[1..]);
    }
  }

  lemma PassReportIsCompleteWhenListedRowsAreAlone(schema: Schema, db: Data, vs: seq<Violation>, table: string)
    requires Run(schema, Start(db), vs).Running?
    requires forall v <- vs :: Deletes(schema, v) && v.ref in db ==> StandsAlone(schema, db, v.ref)
    ensures var end := Run(schema, Start(db), vs).pass;
      |RowsOf(db.Keys, table)| == |RowsOf(end.data.Keys, table)| + Count(end.deleted, table)
  {
    hide Run, RowsOf, DeletesAlone;
    ListedRowsAlone(schema, Start(db), vs);
    PassReportIsCompleteExactlyWhen(schema, db, vs);
  }

  // ---------------------------------------------------------------- rows that no report mentions

  lemma {:induction false} ListedRowGoes(schema: Schema, s: Pass, vs: seq<Violation>, v: Violation)
    requires Run(schema, s, vs).Running? && v in vs && Deletes(schema, v)
    ensures v.ref !in Run(schema, s, vs).pass.data
    decreases |vs|
  {
    hide Handle, Deletes;
    var next := Handle(schema, s, vs[0]).pass;
    NamedRowsAreReported(schema, next, vs[1..], "");
    HandleReports(schema, s, vs[0], "");
    if v != vs[0] {
      ListedRowGoes(schema, next, vs[1..], v);
    }
  }

  lemma ChildGoesInAStep(schema: Schema, s: Pass, v: Violation, c: Ref, f: nat, p: Ref)
    requires Handle(schema, s, v).Running? && References(schema, s.data, c, f, p) && KeysAreRequired(schema)
    requires var fk := Key(schema, c.table, f);
      fk.onDelete == Cascade && forall l <- fk.links :: !Nullable(schema, c.table, l.child)
    ensures var next := Handle(schema, s, v).pass.data;
      c in next ==> p in next && References(schema, next, c, f, p)
  {
    hide Handle, CascadeClosure, StandsAlone, Nullable, Cell;
    var next := Handle(schema, s, v).pass.data;
    HandleWeakens(schema, s, v);
    if c in next && p in next {
      assert ChildKeyPresent(next[c], Key(schema, c.table, f));
      hide Agree, Weakens, NoNewViolation;
      ReferenceSurvives(schema, s.data, next, c, f, p);
    } else if c in next {
      assert CascadesTo(schema, s.data, c, p);
      hide CascadesTo, References, Weakens, NoNewViolation, KeysAreRequired;
      StepLoses(schema, s, v);
      ClosureIsLeast(schema, s.data, {v.ref});
    }
  }

  /** A row whose required cascading reference is intact does not outlive the row it refers to. */
  lemma {:induction false} ChildGoesWithParent(schema: Schema, s: Pass, vs: seq<Violation>, c: Ref, f: nat, p: Ref)
    requires Run(schema, s, vs).Running? && References(schema, s.data, c, f, p) && KeysAreRequired(schema)
    requires var fk := Key(schema, c.table, f);
      fk.onDelete == Cascade && forall l <- fk.links :: !Nullable(schema, c.table, l.child)
    ensures p !in Run(schema, s, vs).pass.data ==> c !in Run(schema, s, vs).pass.data
    decreases |vs|
  {
    assert p in s.data;
    hide Handle, References, KeysAreRequired;
    if vs != [] {
      var next := Handle(schema, s, vs[0]).pass;
      assert Run(schema, s, vs) == Run(schema, next, vs[1..]);
      ChildGoesInAStep(schema, s, vs[0], c, f, p);
      if c in next.data {
        ChildGoesWithParent(schema, next, vs[1..], c, f, p);
      } else {
        RunWeakens(schema, next, vs[1..]);
      }
    }
  }

  lemma {:induction false} NamedAreListed(schema: Schema, s: Pass, vs: seq<Violation>)
    requires Run(schema, s, vs).Running?
    ensures forall r <- Named(schema, s, vs) :: exists v <- vs :: Deletes(schema, v) && v.ref == r
    decreases |vs|
  {
    hide Handle, Deletes;
    if vs != [] {
      NamedAreListed(schema, Handle(schema, s, vs[0]).pass, vs[1..]);
      assert vs[0] in vs && forall v <- vs[1..] :: v in vs;
    }
  }

  /** A row lost without being named makes its table's report fall short. */
  lemma UnnamedLossIsUnreported(schema: Schema, db: Data, vs: seq<Violation>, c: Ref)
    requires Run(schema, Start(db), vs).Running?
    requires c in db && c !in Run(schema, Start(db), vs).pass.data && c !in Named(schema, Start(db), vs)
    ensures var end := Run(schema, Start(db), vs).pass;
      |RowsOf(db.Keys, c.table)| > |RowsOf(end.data.Keys, c.table)| + Count(end.deleted, c.table)
  {
    RowsAreConserved(schema, db, vs, c.table);
    var silent := db.Keys - Run(schema, Start(db), vs).pass.data.Keys - Named(schema, Start(db), vs);
    assert c in RowsOf(silent, c.table);
  }

  /**
   The report falls short whenever a row that is not listed for deletion hangs by a required cascading key on one that
   is: both go, and only the listed one is counted.
   */
  lemma CascadedRowsGoUnreported(schema: Schema, db: Data, vs: seq<Violation>, v: Violation, c: Ref, f: nat)
    requires KeysAreRequired(schema) && Run(schema, Start(db), vs).Running?
    requires v in vs && Deletes(schema, v) && References(schema, db, c, f, v.ref)
    requires var fk := Key(schema, c.table, f);
      fk.onDelete == Cascade && forall l <- fk.links :: !Nullable(schema, c.table, l.child)
    requires forall u <- vs :: Deletes(schema, u) ==> u.ref != c
    ensures var end := Run(schema, Start(db), vs).pass;
      && c in db && c !in end.data && v.ref !in end.data
      && |RowsOf(db.Keys, c.table)| > |RowsOf(end.data.Keys, c.table)| + Count(end.deleted, c.table)
  {
    hide Run, Named, RowsOf;
    ListedRowGoes(schema, Start(db), vs, v);
    ChildGoesWithParent(schema, Start(db), vs, c, f, v.ref);
    NamedAreListed(schema, Start(db), vs);
    UnnamedLossIsUnreported(schema, db, vs, c);
  }

  // ---------------------------------------------------------------- the imperative routine

  datatype RepairResult =
    | Repaired(nullified: map<Relationship, nat>, deleted: map<string, nat>)
    | ConstraintFailed
    | VerificationFailed(remaining: seq<Violation>)

  /** `end` is where the loop stops on some complete violation list of `db`. */
  ghost predicate IsPassOver(schema: Schema, db: Data, end: Pass) {
    exists vs :: IsCheckOf(schema, db, vs) && Run(schema, Start(db), vs) == Running(end)
  }

  /** What the two reports say of a pass: rows found by its UPDATEs and by its DELETEs, table by table. */
  ghost predicate ReportsAreRight(schema: Schema, db: Data, vs: seq<Violation>, nullified: map<Relationship, nat>,
                                  deleted: map<string, nat>) {
    && Run(schema, Start(db), vs).Running?
    && (forall table, columns ::
          Count(nullified, Relationship(table, columns)) == Cleared(schema, Start(db), vs, table, columns))
    && forall table :: Count(deleted, table) == |RowsOf(Named(schema, Start(db), vs), table)|
  }

  lemma PassReportsAreRight(schema: Schema, db: Data, vs: seq<Violation>)
    requires Run(schema, Start(db), vs).Running?
    ensures var end := Run(schema, Start(db), vs).pass;
      ReportsAreRight(schema, db, vs, end.nullified, end.deleted)
  {
    hide Run, Cleared, RowsOf, Named;
    forall table, columns
      ensures Count(Run(schema, Start(db), vs).pass.nullified, Relationship(table, columns))
           == Cleared(schema, Start(db), vs, table, columns)
    {
      ClearedRowsAreReported(schema, Start(db), vs, table, columns);
    }
    forall table
      ensures Count(Run(schema, Start(db), vs).pass.deleted, table) == |RowsOf(Named(schema, Start(db), vs), table)|
    {
      NamedRowsAreReported(schema, Start(db), vs, table);
    }
  }

  class Connection {
    const schema: Schema
    var data: Data

    constructor (schema: Schema, data: Data)
      ensures this.schema == schema && this.data == data
    {
      this.schema := schema;
      this.data := data;
    }

    /** `PRAGMA foreign_key_check` */
    method ForeignKeyCheck() returns (vs: seq<Violation>)
      ensures IsCheckOf(schema, data, vs)
    {
      var found := set c, f | c in data && c.table in schema && f in schema[c.table].foreignKeys
                              && Violated(schema, data, c, f) :: Violation(c, f);
      var todo := found;
      vs := [];
      while todo != {}
        invariant todo <= found
        invariant forall v :: v in found <==> v in todo || v in vs
        decreases todo
      {
        var v :| v in todo;
        todo, vs := todo - {v}, vs + [v];
      }
    }

    /**
     Repairs in place. A failing statement rolls the data back; a failing final check leaves the
     committed repair behind, free of every violation that the rules cover.
     */
    method Repair() returns (r: RepairResult)
      requires WellFormed(schema)
      modifies this`data
      ensures r.ConstraintFailed? ==> data == old(data)
      ensures !r.ConstraintFailed? ==> exists end :: IsPassOver(schema, old(data), end) && data == end.data
      ensures r.Repaired? ==> IsPassOver(schema, old(data), Pass(data, r.nullified, r.deleted)) && Closed(schema, data)
      ensures r.Repaired? ==>
                exists vs :: IsCheckOf(schema, old(data), vs)
                          && ReportsAreRight(schema, old(data), vs, r.nullified, r.deleted)
      ensures r.VerificationFailed? ==> r.remaining != [] && forall v :: v in r.remaining ==>
        && v.Violation? && !Repairable(schema, v)
        && Violated(schema, old(data), v.ref, v.fkId) && Violated(schema, data, v.ref, v.fkId)
      ensures KeysAreRequired(schema) && EveryKeyIsRepairable(schema) && DeletionsApply(schema) ==> r.Repaired?
    {
      var vs := ForeignKeyCheck();
      ghost var before := data;
      if vs == [] {
        assert Run(schema, Start(before), vs) == Running(Start(before));
        PassReportsAreRight(schema, before, vs);
        return Repaired(map[], map[]);
      }
      var s := Start(data);
      var i := 0;
      while i < |vs|
        invariant 0 <= i <= |vs|
        invariant data == before
        invariant Run(schema, Start(before), vs) == Run(schema, s, vs[i..])
      {
        var next := Handle(schema, s, vs[i]);
        if next.Raised? {
          if KeysAreRequired(schema) && DeletionsApply(schema) {
            RunSucceeds(schema, Start(before), vs);
          }
          return ConstraintFailed;
        }
        s := next.pass;
        i := i + 1;
      }
      data := s.data;
      OnePassSuffices(schema, before, vs);
      PassReportsAreRight(schema, before, vs);
      if KeysAreRequired(schema) && EveryKeyIsRepairable(schema) && DeletionsApply(schema) {
        RepairAlwaysCloses(schema, before, vs);
      }
      var remaining := ForeignKeyCheck();
      assert remaining != [] ==> Violated(schema, data, remaining[0].ref, remaining[0].fkId);
      if remaining != [] {
        return VerificationFailed(remaining);
      }
      return Repaired(s.nullified, s.deleted);
    }
  }
}
