/**
  Reconciling a table with its spec: create it, append to it in place, or rebuild it.

  The functions say what each phase leaves behind, statement by statement, a failing statement
  included; `Connector` (below the theorems) runs the phases on a mutable table.
*/
module Reconcile {
  import opened Common
  import opened Schema
  import opened Engine

  // ── The phases ────────────────────────────────────────────────────────────

  function UxName(spec: TableSpec, c: Column): string {
    "ux_" + spec.name + "_" + c.name
  }

  /** One missing column: ADD COLUMN, then a unique index of its own if it is unique. */
  function AddOne(b: Backend, spec: TableSpec, t: Table, c: Column): Step {
    var u := AddColumn(t, c);
    if c.unique then CreateIndex(b.tolerant, u, IndexInfo(UxName(spec, c), [c.name], true))
    else Done(u)
  }

  function AddAll(b: Backend, spec: TableSpec, t: Table, missing: seq<Column>): Step {
    if missing == [] then Done(t)
    else match AddAll(b, spec, t, missing[..|missing| - 1])
      case Failed(u) => Failed(u)
      case Done(u) => AddOne(b, spec, u, missing[|missing| - 1])
  }

  function DropAll(t: Table, ixs: seq<Index>): Step {
    if ixs == [] then Done(t)
    else match DropAll(t, ixs[..|ixs| - 1])
      case Failed(u) => Failed(u)
      case Done(u) => DropIndex(u, ixs[|ixs| - 1].name)
  }

  function CreateAll(tolerant: bool, t: Table, ixs: seq<Index>): Step {
    if ixs == [] then Done(t)
    else match CreateAll(tolerant, t, ixs[..|ixs| - 1])
      case Failed(u) => Failed(u)
      case Done(u) => CreateIndex(tolerant, u, AsInfo(ixs[|ixs| - 1]))
  }

  /** In place: trailing columns, then the changed indexes go, then the wanted ones come. */
  function Appended(b: Backend, spec: TableSpec, d: SchemaDiff, t: Table): Step {
    match AddAll(b, spec, t, d.missingColumns)
    case Failed(u) => Failed(u)
    case Done(u) =>
      match DropAll(u, d.changedIndexes)
      case Failed(v) => Failed(v)
      case Done(v) => CreateAll(b.tolerant, v, d.missingIndexes + d.changedIndexes)
  }

  /** The column tuples the new table is unique on already. */
  function UniqueTuples(spec: TableSpec): set<seq<string>> {
    (set i | i in spec.indexes && i.unique :: KeyCols(i.parts))
    + (set c | c in spec.columns && c.unique :: [c.name])
    + (set u | u in spec.uniqueConstraints)
    + (var pk := InlinePkNames(spec.columns); if pk == [] then {} else {pk})
  }

  function InlinePkNames(cs: seq<Column>): seq<string> {
    if cs == [] then []
    else InlinePkNames(cs[..|cs| - 1])
         + if cs[|cs| - 1].primaryKey then [cs[|cs| - 1].name] else []
  }

  /** An undeclared index a rebuild tries to carry over. */
  predicate CarriedOver(spec: TableSpec, info: IndexInfo) {
    && (forall i :: i in spec.indexes ==> i.name != info.name)
    && info.columns != []
    && !(info.unique && info.columns in UniqueTuples(spec))
  }

  /** A statement whose failure is tolerated: the table stays as it was. */
  function OptionalIndex(b: Backend, t: Table, info: IndexInfo): Table {
    if info.name in b.unprintable then t
    else match CreateIndex(false, t, info) case Done(u) => u case Failed(_) => t
  }

  function RestoreExtras(b: Backend, spec: TableSpec, t: Table, infos: seq<IndexInfo>): Table {
    if infos == [] then t
    else
      var u := RestoreExtras(b, spec, t, infos[..|infos| - 1]);
      var info := infos[|infos| - 1];
      if CarriedOver(spec, info) then OptionalIndex(b, u, info) else u
  }

  /** The freshly created and filled copy, before its indexes. */
  function Copied(spec: TableSpec, t: Table): Table {
    var declared := NameSet(SpecNames(spec.columns));
    Table(CreatedColumns(spec, ExtraColumns(t.columns, declared)), [],
          if t.columns == [] then [] else CopiedRows(spec, t))
  }

  /** Create, copy, drop, rename and re-index in one transaction: all of it or nothing. */
  function Rebuilt(b: Backend, spec: TableSpec, t: Table): Step {
    var copy := Copied(spec, t);
    if !CreateAccepted(spec, ExtraColumns(t.columns, NameSet(SpecNames(spec.columns)))) then Failed(t)
    else if !CopyAccepted(spec, copy.columns, copy.rows) then Failed(t)
    else match CreateAll(false, copy, spec.indexes)
      case Failed(_) => Failed(t)
      case Done(u) => Done(RestoreExtras(b, spec, u, t.indexes))
  }

  /** Declared column renames, decided against the columns present at the start. */
  function RenameAll(t: Table, present: set<string>, renames: seq<(string, string)>): Step {
    if renames == [] then Done(t)
    else match RenameAll(t, present, renames[..|renames| - 1])
      case Failed(u) => Failed(u)
      case Done(u) =>
        var (was, becomes) := renames[|renames| - 1];
        if was in present && becomes !in present then RenameColumn(u, was, becomes) else Done(u)
  }

  function DropFormer(b: Backend, t: Table, names: seq<string>): Table {
    if names == [] then t
    else
      var u := DropFormer(b, t, names[..|names| - 1]);
      if b.dropsFormer then u.(indexes := RemoveIndex(u.indexes, names[|names| - 1])) else u
  }

  function Created(b: Backend, spec: TableSpec): Option<Step> {
    if !CreateAccepted(spec, []) then None
    else Some(CreateAll(b.tolerant, Table(CreatedColumns(spec, []), [], []), spec.indexes))
  }

  /** What a reconcile leaves: whether it returned, and the table. */
  datatype Outcome = Outcome(ok: bool, table: Option<Table>)

  function Finish(s: Step): Outcome {
    match s case Done(t) => Outcome(true, Some(t)) case Failed(t) => Outcome(false, Some(t))
  }

  /** Bring a table that exists (renames applied, former indexes gone) to the spec. */
  function Repaired(b: Backend, spec: TableSpec, t: Table): Step {
    var d := Diff(spec, t.columns, t.indexes);
    if d.IsEmpty() then Done(t)
    else if d.NeedsRebuild() then Rebuilt(b, spec, t)
    else Appended(b, spec, d, t)
  }

  function Prepared(b: Backend, spec: TableSpec, t: Table): Step {
    match RenameAll(t, NameSet(Names(t.columns)), spec.renames)
    case Failed(u) => Failed(u)
    case Done(u) => Done(DropFormer(b, u, spec.formerIndexes))
  }

  function ReconcileTable(b: Backend, spec: TableSpec, table: Option<Table>): Outcome {
    match table
    case None =>
      (match Created(b, spec) case None => Outcome(false, None) case Some(s) => Finish(s))
    case Some(t) =>
      match Prepared(b, spec, t)
      case Failed(u) => Outcome(false, Some(u))
      case Done(u) => Finish(Repaired(b, spec, u))
  }

  // ── What a spec has to be ─────────────────────────────────────────────────

  function SpecIndexNames(ixs: seq<Index>): (r: seq<string>)
    ensures |r| == |ixs|
  {
    seq(|ixs|, i requires 0 <= i < |ixs| => ixs[i].name)
  }

  /** Names are distinct, AUTOINCREMENT columns are declared as the key they are, and a key is
      declared in one of the two ways. */
  ghost predicate WellFormed(spec: TableSpec) {
    && Distinct(SpecNames(spec.columns))
    && Distinct(SpecIndexNames(spec.indexes))
    && (forall c, i :: c in spec.columns && i in spec.indexes ==> i.name != UxName(spec, c))
    && (forall c :: c in spec.columns && c.ctype == Autoincrement ==> c.primaryKey)
    && (spec.compositePk != [] ==> forall c :: c in spec.columns ==> !c.primaryKey)
  }
}
