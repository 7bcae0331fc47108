/**
  The physical side of a reconcile: one table, and each DDL or copy statement as a step on it.

  A step either is done or failed; a failed step still carries the table it leaves behind.
*/
module Engine {
  import opened Common
  import opened Schema

  /** `Id` is a number the engine generates for an AUTOINCREMENT column. */
  datatype Value = Null | Lit(text: string) | Id(n: nat)

  type Row = map<string, Value>

  datatype Table = Table(columns: seq<ColumnInfo>, indexes: seq<IndexInfo>, rows: seq<Row>)

  datatype Step = Done(table: Table) | Failed(table: Table)

  /** What differs between backends. `tolerant`: creating an object that is already there is
      recognised and taken as done. `dropsFormer`: DROP INDEX IF EXISTS without a table is
      understood. `unprintable`: indexes whose reported form cannot be created again. */
  datatype Backend = Backend(tolerant: bool, dropsFormer: bool, unprintable: set<string>)

  // ── Well-formed tables ────────────────────────────────────────────────────

  predicate RowFits(r: Row, cols: seq<ColumnInfo>) {
    && r.Keys == NameSet(Names(cols))
    && forall c :: c in cols && (!c.nullable || c.pk) ==> c.name in r && r[c.name] != Null
  }

  function IndexNames(idx: seq<IndexInfo>): (r: seq<string>)
    ensures |r| == |idx|
  {
    seq(|idx|, i requires 0 <= i < |idx| => idx[i].name)
  }

  ghost predicate ValidTable(t: Table) {
    && Distinct(Names(t.columns))
    && Distinct(IndexNames(t.indexes))
    && forall r :: r in t.rows ==> RowFits(r, t.columns)
  }

  /** Equal on every column of the key, none of them NULL. */
  predicate SameKey(a: Row, b: Row, cols: seq<string>) {
    forall c :: c in cols ==> c in a && c in b && a[c] == b[c] && a[c] != Null
  }

  predicate UniqueOn(rows: seq<Row>, cols: seq<string>) {
    forall i, j :: 0 <= i < j < |rows| ==> !SameKey(rows[i], rows[j], cols)
  }

  // ── Statements ────────────────────────────────────────────────────────────

  function DefaultValue(d: Option<string>): Value {
    match d case None => Null case Some(text) => Lit(text)
  }

  /** The clause of one ADD COLUMN: NOT NULL only when there is a default for the rows that
      are already there, never a key. */
  function AddedColumn(c: Column): ColumnInfo {
    ColumnInfo(c.name, Canonical(c.ctype), c.nullable || c.default.None?, c.default, false)
  }

  /** ADD COLUMN unless it is there; the existing rows take the default. */
  function AddColumn(t: Table, c: Column): Table {
    if c.name in Names(t.columns) then t
    else Table(t.columns + [AddedColumn(c)], t.indexes,
               seq(|t.rows|, i requires 0 <= i < |t.rows| => t.rows[i][c.name := DefaultValue(c.default)]))
  }

  function CreateIndex(tolerant: bool, t: Table, ix: IndexInfo): Step {
    if FindIndex(t.indexes, ix.name).Some? then (if tolerant then Done(t) else Failed(t))
    else if exists c :: c in ix.columns && c !in Names(t.columns) then Failed(t)
    else if ix.unique && !UniqueOn(t.rows, ix.columns) then Failed(t)
    else Done(t.(indexes := t.indexes + [ix]))
  }

  function RemoveIndex(idx: seq<IndexInfo>, n: string): seq<IndexInfo> {
    if idx == [] then []
    else RemoveIndex(idx[..|idx| - 1], n)
         + if idx[|idx| - 1].name == n then [] else [idx[|idx| - 1]]
  }

  function DropIndex(t: Table, n: string): Step {
    if FindIndex(t.indexes, n).None? then Failed(t)
    else Done(t.(indexes := RemoveIndex(t.indexes, n)))
  }

  function Subst(n: string, was: string, becomes: string): string {
    if n == was then becomes else n
  }

  function RenamedRow(r: Row, was: string, becomes: string): Row {
    if was in r then (map n | n in r && n != was :: r[n])[becomes := r[was]] else r
  }

  /** RENAME COLUMN keeps the column's place, its data and the indexes over it. */
  function RenameColumn(t: Table, was: string, becomes: string): Step {
    if was !in Names(t.columns) || becomes in Names(t.columns) then Failed(t)
    else Done(Table(
      seq(|t.columns|, i requires 0 <= i < |t.columns| =>
        t.columns[i].(name := Subst(t.columns[i].name, was, becomes))),
      seq(|t.indexes|, i requires 0 <= i < |t.indexes| =>
        t.indexes[i].(columns := seq(|t.indexes[i].columns|,
          k requires 0 <= k < |t.indexes[i].columns| => Subst(t.indexes[i].columns[k], was, becomes)))),
      seq(|t.rows|, i requires 0 <= i < |t.rows| => RenamedRow(t.rows[i], was, becomes))))
  }

  // ── CREATE TABLE and the copy of a rebuild ────────────────────────────────

  predicate InlineKey(c: Column) {
    c.primaryKey || c.ctype == Autoincrement
  }

  /** What the engine reports for a column of a table created from the spec. */
  function CreatedColumn(spec: TableSpec, c: Column): ColumnInfo {
    var pk := InlineKey(c) || c.name in spec.compositePk;
    ColumnInfo(c.name, Canonical(c.ctype), c.nullable && !pk, c.default, pk)
  }

  /** The declared columns, then the undeclared ones carried over, which lose any key. */
  function CreatedColumns(spec: TableSpec, extras: seq<ColumnInfo>): (r: seq<ColumnInfo>)
    ensures |r| == |spec.columns| + |extras|
  {
    seq(|spec.columns|, i requires 0 <= i < |spec.columns| => CreatedColumn(spec, spec.columns[i]))
    + seq(|extras|, i requires 0 <= i < |extras| => extras[i].(pk := false))
  }

  /** The engine takes the CREATE TABLE: one primary key at most, over columns that exist, and
      no column twice. */
  predicate CreateAccepted(spec: TableSpec, extras: seq<ColumnInfo>) {
    && (forall i, j :: 0 <= i < j < |spec.columns| ==>
          !(InlineKey(spec.columns[i]) && InlineKey(spec.columns[j])))
    && (spec.compositePk != [] ==> forall c :: c in spec.columns ==> !InlineKey(c))
    && (forall n :: n in spec.compositePk ==> n in SpecNames(spec.columns))
    && (forall u :: u in spec.uniqueConstraints ==>
          forall n :: n in u ==> n in SpecNames(spec.columns))
    && var names := Names(CreatedColumns(spec, extras));
       forall i, j :: 0 <= i < j < |names| ==> names[i] != names[j]
  }

  function FindColumn(cs: seq<Column>, n: string): (r: Option<Column>)
    ensures r.Some? <==> n in SpecNames(cs)
    ensures r.Some? ==> r.value in cs && r.value.name == n
  {
    if cs == [] then None
    else
      assert SpecNames(cs) == SpecNames(cs[..|cs| - 1]) + [cs[|cs| - 1].name];
      if cs[|cs| - 1].name == n then Some(cs[|cs| - 1]) else FindColumn(cs[..|cs| - 1], n)
  }

  /** One cell of the copy. A column both tables have keeps its value, except a NULL where the
      column is now NOT NULL with a default; a column only the new table has takes its default
      or a generated id. */
  function CopiedValue(spec: TableSpec, before: seq<ColumnInfo>, r: Row, n: string, position: nat): Value {
    var c := FindColumn(spec.columns, n);
    if n in Names(before) then
      var v := if n in r then r[n] else Null;
      if c.Some? && !c.value.nullable && c.value.default.Some? && v == Null
      then Lit(c.value.default.value) else v
    else if c.Some? && c.value.ctype == Autoincrement then Id(position + 1)
    else if c.Some? then DefaultValue(c.value.default)
    else Null
  }

  function CopiedRow(spec: TableSpec, before: seq<ColumnInfo>, r: Row, position: nat): Row {
    map n | n in NameSet(SpecNames(spec.columns)) + NameSet(Names(before))
      :: CopiedValue(spec, before, r, n, position)
  }

  function CopiedRows(spec: TableSpec, t: Table): (r: seq<Row>)
    ensures |r| == |t.rows|
  {
    seq(|t.rows|, i requires 0 <= i < |t.rows| => CopiedRow(spec, t.columns, t.rows[i], i))
  }

  /** The constraints of the new table hold of the copied rows. */
  predicate CopyAccepted(spec: TableSpec, cols: seq<ColumnInfo>, rows: seq<Row>) {
    && (forall r :: r in rows ==> RowFits(r, cols))
    && (forall c :: c in spec.columns && (InlineKey(c) || c.unique) ==> UniqueOn(rows, [c.name]))
    && (spec.compositePk != [] ==> UniqueOn(rows, spec.compositePk))
    && (forall u :: u in spec.uniqueConstraints ==> UniqueOn(rows, u))
  }

  function AsInfo(ix: Index): IndexInfo {
    IndexInfo(ix.name, KeyCols(ix.parts), ix.unique)
  }

  // ── Facts about lookups after a step ──────────────────────────────────────

  lemma {:induction false} FindAppend(a: seq<ColumnInfo>, b: seq<ColumnInfo>, n: string)
    ensures Find(a + b, n) == if Find(b, n).Some? then Find(b, n) else Find(a, n)
  {
    if b == [] {
      assert a + b == a;
    } else {
      FindAppend(a, b[..|b| - 1], n);
      assert (a + b)[..|a + b| - 1] == a + b[..|b| - 1];
    }
  }

  lemma {:induction false} FindDistinct(cols: seq<ColumnInfo>, i: nat)
    requires i < |cols| && Distinct(Names(cols))
    ensures Find(cols, cols[i].name) == Some(cols[i])
  {
    if i < |cols| - 1 {
      assert Names(cols)[i] != Names(cols)[|cols| - 1];
      assert Names(cols[..|cols| - 1]) == Names(cols)[..|cols| - 1];
      FindDistinct(cols[..|cols| - 1], i);
    }
  }

  lemma {:induction false} FindIndexAppend(a: seq<IndexInfo>, ix: IndexInfo, n: string)
    ensures FindIndex(a + [ix], n) == if ix.name == n then Some(ix) else FindIndex(a, n)
  {
    assert (a + [ix])[..|a + [ix]| - 1] == a;
  }

  lemma {:induction false} FindIndexRemove(idx: seq<IndexInfo>, gone: string, n: string)
    ensures FindIndex(RemoveIndex(idx, gone), n) == if n == gone then None else FindIndex(idx, n)
  {
    if idx != [] {
      FindIndexRemove(idx[..|idx| - 1], gone, n);
      var kept := RemoveIndex(idx[..|idx| - 1], gone);
      if idx[|idx| - 1].name != gone {
        FindIndexAppend(kept, idx[|idx| - 1], n);
      } else {
        assert kept + [] == kept;
      }
    }
  }
}
