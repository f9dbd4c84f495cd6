/**
 scripts/rebuild_database.py, `_copy_compatible_data` as a whole: the row counts are checked between the copy and the
 repair of foreign keys, so what the check promises has to survive the repair.
 */
module DatabaseRebuild {
  import opened Sqlite
  import opened ForeignKeyRepair
  import Copy = DatabaseCopy

  // ---------------------------------------------------------------- the copied tables under their rowids

  /** Each table has as many stored rows as it has rows. */
  ghost predicate Holds(db: Data, tables: Copy.Database) {
    forall t :: t in tables ==> |RowsOf(db.Keys, t)| == |tables[t].rows|
  }

  ghost predicate Distinct(rowid: (string, nat) -> int) {
    forall t: string, i: nat, j: nat :: rowid(t, i) == rowid(t, j) ==> i == j
  }

  function FirstRefs(t: string, rowid: (string, nat) -> int, n: nat): set<Ref> {
    if n == 0 then {} else FirstRefs(t, rowid, n - 1) + {Ref(t, rowid(t, n - 1))}
  }

  lemma {:induction false} FirstRefsCount(t: string, rowid: (string, nat) -> int, n: nat)
    requires Distinct(rowid)
    ensures |FirstRefs(t, rowid, n)| == n
    ensures forall r :: r in FirstRefs(t, rowid, n) <==> exists i: nat :: i < n && r == Ref(t, rowid(t, i))
  {
    if n > 0 {
      FirstRefsCount(t, rowid, n - 1);
    }
  }

  /** So it is when the i-th row of table t is stored under rowid(t, i), whatever the distinct rowids are. */
  lemma StoredRowsHold(db: Data, tables: Copy.Database, rowid: (string, nat) -> int)
    requires Distinct(rowid)
    requires forall r :: r in db <==>
               r.table in tables && exists i: nat :: i < |tables[r.table].rows| && r.rowid == rowid(r.table, i)
    ensures Holds(db, tables)
  {
    forall t | t in tables
      ensures |RowsOf(db.Keys, t)| == |tables[t].rows|
    {
      FirstRefsCount(t, rowid, |tables[t].rows|);
      assert RowsOf(db.Keys, t) == FirstRefs(t, rowid, |tables[t].rows|);
    }
  }

  // ---------------------------------------------------------------- tables that a pass leaves whole

  /** No DELETE of the pass, at its moment, names a row of the table or reaches one through cascades. */
  predicate Spares(schema: Schema, s: Pass, vs: seq<Violation>, table: string)
    requires Run(schema, s, vs).Running?
    decreases |vs|
  {
    vs == []
    || ((Deletes(schema, vs[0]) && vs[0].ref in s.data ==>
           forall r <- CascadeClosure(schema, s.data, {vs[0].ref}) :: r.table != table)
        && Spares(schema, Handle(schema, s, vs[0]).pass, vs[1..], table))
  }

  lemma SameCount(before: set<Ref>, after: set<Ref>, table: string)
    requires after <= before
    ensures |RowsOf(after, table)| == |RowsOf(before, table)| <==> forall r <- before - after :: r.table != table
  {
    var a, b := RowsOf(after, table), RowsOf(before, table);
    assert b == a + RowsOf(before - after, table);
    if r :| r in before - after && r.table == table {
      assert r in RowsOf(before - after, table);
    }
  }

  lemma {:induction false} CountIsKeptExactlyWhen(schema: Schema, s: Pass, vs: seq<Violation>, table: string)
    requires Run(schema, s, vs).Running?
    ensures Run(schema, s, vs).pass.data.Keys <= s.data.Keys
    ensures |RowsOf(Run(schema, s, vs).pass.data.Keys, table)| == |RowsOf(s.data.Keys, table)|
       <==> Spares(schema, s, vs, table)
    decreases |vs|
  {
    hide Handle, CascadeClosure, RowsOf, Deletes;
    NamedRowsAreReported(schema, s, vs, table);
    var end := Run(schema, s, vs).pass.data.Keys;
    SameCount(s.data.Keys, end, table);
    if vs != [] {
      var next := Handle(schema, s, vs[0]).pass;
      assert Run(schema, s, vs) == Run(schema, next, vs[1..]);
      CountIsKeptExactlyWhen(schema, next, vs[1..], table);
      HandleReports(schema, s, vs[0], table);
      StepLoses(schema, s, vs[0]);
      SameCount(next.data.Keys, end, table);
      assert s.data.Keys - end == (s.data.Keys - next.data.Keys) + (next.data.Keys - end);
    }
  }

  // ---------------------------------------------------------------- copy, check, repair

  /** `db` holds what the conversion left, and t is one of the tables it copied and counted. */
  ghost predicate CopiedInto(db: Data, source: Copy.Database, destination: Copy.Database, t: string) {
    && Copy.Copied(source.Keys, destination.Keys) <= destination.Keys * source.Keys
    && t in Copy.Copied(source.Keys, destination.Keys)
    && Holds(db, Copy.Converted(source, destination))
  }

  lemma CopiedCount(db: Data, source: Copy.Database, destination: Copy.Database, t: string)
    requires CopiedInto(db, source, destination, t)
    ensures t in Copy.Report(source, destination).copied
    ensures |RowsOf(db.Keys, t)| == |source[t].rows| == Copy.Report(source, destination).copied[t]
  {
    assert t in Copy.Converted(source, destination);
    hide RowsOf, Copy.Copied;
  }

  /**
   The number of rows that was checked and is reported for a copied table is the number it has in the end if and only
   if the repair names none of its rows for deletion and reaches none through cascades.
   */
  lemma CountsSurviveExactlyWhen(db: Data, source: Copy.Database, destination: Copy.Database, schema: Schema,
                                 vs: seq<Violation>, t: string)
    requires CopiedInto(db, source, destination, t) && Run(schema, ForeignKeyRepair.Start(db), vs).Running?
    ensures var s := ForeignKeyRepair.Start(db);
      && t in Copy.Report(source, destination).copied
      && (|RowsOf(Run(schema, s, vs).pass.data.Keys, t)| == Copy.Report(source, destination).copied[t]
          <==> Spares(schema, s, vs, t))
  {
    CopiedCount(db, source, destination, t);
    hide Run, Spares, RowsOf, CopiedInto, Copy.Copied, Copy.Report;
    CountIsKeptExactlyWhen(schema, ForeignKeyRepair.Start(db), vs, t);
  }

  /** What can be looked up before the repair: a table out of reach of every listed row keeps its count. */
  lemma CountsSurviveOutOfReach(schema: Schema, db: Data, vs: seq<Violation>, t: string)
    requires Run(schema, ForeignKeyRepair.Start(db), vs).Running?
    requires forall v <- vs :: Deletes(schema, v) && v.ref in db ==>
               forall r <- CascadeClosure(schema, db, {v.ref}) :: r.table != t
    ensures |RowsOf(Run(schema, ForeignKeyRepair.Start(db), vs).pass.data.Keys, t)| == |RowsOf(db.Keys, t)|
  {
    var s := ForeignKeyRepair.Start(db);
    hide Run, RowsOf, CascadeClosure, Deletes;
    LostRowsAreExplained(schema, s, vs);
    RunWeakens(schema, s, vs);
    SameCount(db.Keys, Run(schema, s, vs).pass.data.Keys, t);
  }

  /** A membership refers to its user by a required key that cascades (backend/app/models/group.py:20-25). */
  predicate MembershipKey(schema: Schema, f: nat) {
    && HasKey(schema, "user_groups", f)
    && Key(schema, "user_groups", f) == ForeignKey("users", [Link("user_id", "id")], Cascade)
    && !Nullable(schema, "user_groups", "user_id")
  }

  lemma MembershipsAreDeletable(schema: Schema, membership: Ref, f: nat)
    requires MembershipKey(schema, f) && membership.table == "user_groups"
    ensures Deletes(schema, Violation(membership, f))
  {
    var l := Link("user_id", "id");
    assert l in Key(schema, "user_groups", f).links;
  }

  lemma FewerRows(before: set<Ref>, after: set<Ref>, r: Ref)
    requires after <= before && r in before && r !in after
    ensures |RowsOf(after, r.table)| < |RowsOf(before, r.table)|
  {
    assert r in RowsOf(before, r.table);
    SetShrinks(RowsOf(after, r.table), RowsOf(before, r.table));
  }

  /**
   `user_groups` is critical, and a membership without its user is lost all the same: the report still counts it, the
   database no longer has it.
   */
  lemma OrphanedMembershipIsLost(db: Data, source: Copy.Database, destination: Copy.Database, schema: Schema,
                                 vs: seq<Violation>, membership: Ref, f: nat)
    requires MembershipKey(schema, f) && membership.table == "user_groups"
    requires CopiedInto(db, source, destination, "user_groups")
    requires IsCheckOf(schema, db, vs) && Violated(schema, db, membership, f)
    ensures "user_groups" in Copy.CRITICAL && "user_groups" in Copy.Report(source, destination).copied
    ensures var r := Run(schema, ForeignKeyRepair.Start(db), vs);
      r.Running? ==> |RowsOf(r.pass.data.Keys, "user_groups")| < Copy.Report(source, destination).copied["user_groups"]
  {
    var s := ForeignKeyRepair.Start(db);
    assert membership in db && Violation(membership, f) in vs;
    hide Run, RowsOf, Deletes, IsCheckOf, Violated, MembershipKey, Copy.Copied, Copy.Report;
    CopiedCount(db, source, destination, "user_groups");
    hide CopiedInto;
    MembershipsAreDeletable(schema, membership, f);
    if Run(schema, s, vs).Running? {
      ListedRowGoes(schema, s, vs, Violation(membership, f));
      NamedRowsAreReported(schema, s, vs, "");
      FewerRows(db.Keys, Run(schema, s, vs).pass.data.Keys, membership);
    }
  }
}
