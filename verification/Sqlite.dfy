/**
 The part of SQLite that scripts/rebuild_database.py relies on while it repairs dangling
 references: rows addressed by (table, rowid), declared foreign keys, the violation rule of
 `PRAGMA foreign_key_check`, and UPDATE and DELETE with foreign-key enforcement switched on.
 */
module Sqlite {

  datatype Value = Null | Val(v: int)

  type Row = map<string, Value>

  datatype Column = Column(notNull: bool, primaryKey: bool) {
    predicate Nullable() { !notNull && !primaryKey }
  }

  datatype Action = Cascade | SetNull | NoAction

  /** One row of `PRAGMA foreign_key_list`: a child column and the parent column it names. */
  datatype Link = Link(child: string, parent: string)

  datatype ForeignKey = ForeignKey(parent: string, links: seq<Link>, onDelete: Action)

  datatype Table = Table(columns: map<string, Column>, foreignKeys: map<nat, ForeignKey>)

  type Schema = map<string, Table>

  datatype Ref = Ref(table: string, rowid: int)

  type Data = map<Ref, Row>

  /** SQLite refuses a foreign key without columns. */
  predicate WellFormed(schema: Schema) {
    forall t, f :: t in schema && f in schema[t].foreignKeys ==> |schema[t].foreignKeys[f].links| > 0
  }

  function Cell(row: Row, column: string): Value {
    if column in row then row[column] else Null
  }

  predicate HasKey(schema: Schema, table: string, fkId: nat) {
    table in schema && fkId in schema[table].foreignKeys
  }

  function Key(schema: Schema, table: string, fkId: nat): ForeignKey
    requires HasKey(schema, table, fkId)
  {
    schema[table].foreignKeys[fkId]
  }

  /** `column_nullable.get(column, False)` */
  predicate Nullable(schema: Schema, table: string, column: string) {
    table in schema && column in schema[table].columns && schema[table].columns[column].Nullable()
  }

  predicate AllNullable(schema: Schema, table: string, fk: ForeignKey) {
    forall l :: l in fk.links ==> Nullable(schema, table, l.child)
  }

  function ChildColumns(fk: ForeignKey): set<string> {
    set l | l in fk.links :: l.child
  }

  predicate ChildKeyPresent(row: Row, fk: ForeignKey) {
    forall l :: l in fk.links ==> Cell(row, l.child) != Null
  }

  predicate Agree(child: Row, fk: ForeignKey, parent: Row) {
    forall l :: l in fk.links ==> Cell(child, l.child) == Cell(parent, l.parent)
  }

  /** Row `c` refers to row `p` through key `f`; a NULL child column refers to nothing. */
  predicate References(schema: Schema, db: Data, c: Ref, f: nat, p: Ref) {
    && c in db && p in db && HasKey(schema, c.table, f)
    && p.table == Key(schema, c.table, f).parent
    && ChildKeyPresent(db[c], Key(schema, c.table, f))
    && Agree(db[c], Key(schema, c.table, f), db[p])
  }

  /** One row of `PRAGMA foreign_key_check`. */
  predicate Violated(schema: Schema, db: Data, c: Ref, f: nat) {
    && c in db && HasKey(schema, c.table, f)
    && ChildKeyPresent(db[c], Key(schema, c.table, f))
    && forall p :: p in db ==> !References(schema, db, c, f, p)
  }

  /** Referential closure: what foreign_key_check reports as no row at all. */
  ghost predicate Closed(schema: Schema, db: Data) {
    forall c, f :: !Violated(schema, db, c, f)
  }

  predicate NoNewViolation(schema: Schema, before: Data, after: Data) {
    forall c :: c in after && c.table in schema ==>
      forall f :: f in schema[c.table].foreignKeys ==>
        Violated(schema, after, c, f) ==> Violated(schema, before, c, f)
  }

  datatype Statement = Done(data: Data, rowcount: nat) | IntegrityError

  function NullColumns(row: Row, columns: set<string>): Row {
    map c | c in row :: if c in columns then Null else row[c]
  }

  /** UPDATE ... SET columns = NULL WHERE rowid = ?; enforcement rejects a statement that creates a violation. */
  function SetNullAt(schema: Schema, db: Data, r: Ref, columns: set<string>): Statement {
    if r !in db then Done(db, 0)
    else
      var after := db[r := NullColumns(db[r], columns)];
      if NoNewViolation(schema, db, after) then Done(after, 1) else IntegrityError
  }

  predicate CascadesTo(schema: Schema, db: Data, c: Ref, p: Ref) {
    && c in db && c.table in schema
    && exists f :: f in schema[c.table].foreignKeys
                && Key(schema, c.table, f).onDelete == Cascade && References(schema, db, c, f, p)
  }

  function CascadeStep(schema: Schema, db: Data, gone: set<Ref>): set<Ref> {
    gone + set c | c in db && exists p :: p in gone && CascadesTo(schema, db, c, p)
  }

  /** Every row that ON DELETE CASCADE removes together with `gone`. */
  function CascadeClosure(schema: Schema, db: Data, gone: set<Ref>): set<Ref>
    requires gone <= db.Keys
    decreases |db.Keys - gone|
  {
    var next := CascadeStep(schema, db, gone);
    if next == gone then gone
    else
      assert db.Keys - next < db.Keys - gone;
      SetShrinks(db.Keys - next, db.Keys - gone);
      CascadeClosure(schema, db, next)
  }

  lemma SetShrinks(a: set<Ref>, b: set<Ref>)
    requires a < b
    ensures |a| < |b|
  {
    assert b == a + (b - a);
  }

  /** The columns of `c` that ON DELETE SET NULL clears when `gone` disappears. */
  function ClearedColumns(schema: Schema, db: Data, c: Ref, gone: set<Ref>): set<string> {
    if c.table !in schema then {} else
      set f, l | f in schema[c.table].foreignKeys && Key(schema, c.table, f).onDelete == SetNull
                 && l in Key(schema, c.table, f).links
                 && exists p :: p in gone && References(schema, db, c, f, p)
               :: l.child
  }

  function Without(schema: Schema, db: Data, gone: set<Ref>): Data {
    map c | c in db && c !in gone :: NullColumns(db[c], ClearedColumns(schema, db, c, gone))
  }

  predicate ClearsOnlyNullable(schema: Schema, db: Data, gone: set<Ref>) {
    forall c :: c in db && c !in gone ==>
      forall k :: k in ClearedColumns(schema, db, c, gone) ==> Nullable(schema, c.table, k)
  }

  /** DELETE ... WHERE rowid = ? with its cascades; a NOT NULL column cannot be cleared. */
  function DeleteAt(schema: Schema, db: Data, r: Ref): Statement {
    if r !in db then Done(db, 0)
    else
      var gone := CascadeClosure(schema, db, {r});
      var after := Without(schema, db, gone);
      if ClearsOnlyNullable(schema, db, gone) && NoNewViolation(schema, db, after) then Done(after, 1)
      else IntegrityError
  }
}
