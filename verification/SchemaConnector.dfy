/**
  The reconcile as the connector runs it, statement by statement on a table that is changed in
  place. Each method is proved against the phase it implements.
*/
module SchemaConnector {
  import opened Common
  import opened Schema
  import opened Engine
  import opened Reconcile
  import opened Convergence

  // A failed statement ends its phase: what follows it is not run.

  lemma {:induction false} AddAllStops(b: Backend, spec: TableSpec, t: Table, cs: seq<Column>, k: nat)
    requires k <= |cs| && AddAll(b, spec, t, cs[..k]).Failed?
    ensures AddAll(b, spec, t, cs) == AddAll(b, spec, t, cs[..k])
    decreases |cs|
  {
    if k < |cs| {
      assert cs[..|cs| - 1][..k] == cs[..k];
      AddAllStops(b, spec, t, cs[..|cs| - 1], k);
    } else {
      assert cs[..k] == cs;
    }
  }

  lemma {:induction false} DropAllStops(t: Table, ixs: seq<Index>, k: nat)
    requires k <= |ixs| && DropAll(t, ixs[..k]).Failed?
    ensures DropAll(t, ixs) == DropAll(t, ixs[..k])
    decreases |ixs|
  {
    if k < |ixs| {
      assert ixs[..|ixs| - 1][..k] == ixs[..k];
      DropAllStops(t, ixs[..|ixs| - 1], k);
    } else {
      assert ixs[..k] == ixs;
    }
  }

  lemma {:induction false} CreateAllStops(tolerant: bool, t: Table, ixs: seq<Index>, k: nat)
    requires k <= |ixs| && CreateAll(tolerant, t, ixs[..k]).Failed?
    ensures CreateAll(tolerant, t, ixs) == CreateAll(tolerant, t, ixs[..k])
    decreases |ixs|
  {
    if k < |ixs| {
      assert ixs[..|ixs| - 1][..k] == ixs[..k];
      CreateAllStops(tolerant, t, ixs[..|ixs| - 1], k);
    } else {
      assert ixs[..k] == ixs;
    }
  }

  lemma CreateAllNext(tolerant: bool, t: Table, ixs: seq<Index>, k: nat, u: Table)
    requires k < |ixs| && CreateAll(tolerant, t, ixs[..k]) == Done(u)
    ensures CreateAll(tolerant, t, ixs[..k + 1]) == CreateIndex(tolerant, u, AsInfo(ixs[k]))
  {
    assert ixs[..k + 1][..k] == ixs[..k];
  }

  lemma {:induction false} RenameAllStops(t: Table, present: set<string>, rs: seq<(string, string)>, k: nat)
    requires k <= |rs| && RenameAll(t, present, rs[..k]).Failed?
    ensures RenameAll(t, present, rs) == RenameAll(t, present, rs[..k])
    decreases |rs|
  {
    if k < |rs| {
      assert rs[..|rs| - 1][..k] == rs[..k];
      RenameAllStops(t, present, rs[..|rs| - 1], k);
    } else {
      assert rs[..k] == rs;
    }
  }

  function AsStep(ok: bool, t: Table): Step {
    if ok then Done(t) else Failed(t)
  }

  class Connector {
    const backend: Backend
    /** The table under the spec's name, if it is there. */
    var table: Option<Table>
    /** The copy a rebuild fills before it takes the table's place. */
    var scratch: Option<Table>

    constructor (backend: Backend, table: Option<Table>)
      ensures this.backend == backend && this.table == table && scratch == None
    {
      this.backend := backend;
      this.table := table;
      scratch := None;
    }

    /** CREATE INDEX. It is done exactly when a duplicate is tolerated, or the name is free, the
        columns are there and the rows are unique on them; then an index of that name is there, the
        wanted one if the name was free. Everything else stays, and all of it if it fails. */
    method CreateIndexOn(tolerant: bool, ix: IndexInfo) returns (ok: bool)
      requires table.Some?
      modifies this`table
      ensures table.Some? && AsStep(ok, table.value) == CreateIndex(tolerant, old(table.value), ix)
      ensures var taken := FindIndex(old(table.value).indexes, ix.name);
              && (ok <==> if taken.Some? then tolerant
                          else (forall c :: c in ix.columns ==> c in Names(old(table.value).columns))
                               && (ix.unique ==> UniqueOn(old(table.value).rows, ix.columns)))
              && (ok ==> FindIndex(table.value.indexes, ix.name) == if taken.Some? then taken else Some(ix))
      ensures forall n :: n != ix.name ==> FindIndex(table.value.indexes, n) == FindIndex(old(table.value).indexes, n)
      ensures table.value.columns == old(table.value).columns && table.value.rows == old(table.value).rows
      ensures !ok ==> table == old(table)
    {
      var t := table.value;
      forall n ensures FindIndex(t.indexes + [ix], n) == if n == ix.name then Some(ix) else FindIndex(t.indexes, n) {
        FindIndexAppend(t.indexes, ix, n);
      }
      if FindIndex(t.indexes, ix.name).Some? { return tolerant; }
      if exists c :: c in ix.columns && c !in Names(t.columns) { return false; }
      if ix.unique && !UniqueOn(t.rows, ix.columns) { return false; }
      table := Some(t.(indexes := t.indexes + [ix]));
      return true;
    }

    method CreateIndexes(tolerant: bool, ixs: seq<Index>) returns (ok: bool)
      requires table.Some?
      modifies this`table
      ensures table.Some? && AsStep(ok, table.value) == CreateAll(tolerant, old(table.value), ixs)
    {
      ghost var t0 := table.value;
      for k := 0 to |ixs|
        invariant table.Some? && CreateAll(tolerant, t0, ixs[..k]) == Done(table.value)
      {
        CreateAllNext(tolerant, t0, ixs, k, table.value);
        ok := CreateIndexOn(tolerant, AsInfo(ixs[k]));
        if !ok {
          CreateAllStops(tolerant, t0, ixs, k + 1);
          return;
        }
      }
      assert ixs[..|ixs|] == ixs;
      ok := true;
    }

    /** One missing column, and its own unique index. */
    method AddColumnOf(spec: TableSpec, c: Column) returns (ok: bool)
      requires table.Some?
      modifies this`table
      ensures table.Some? && AsStep(ok, table.value) == AddOne(backend, spec, old(table.value), c)
    {
      ok := true;
      table := Some(AddColumn(table.value, c));
      if c.unique {
        ok := CreateIndexOn(backend.tolerant, IndexInfo(UxName(spec, c), [c.name], true));
      }
    }

    method AddColumns(spec: TableSpec, missing: seq<Column>) returns (ok: bool)
      requires table.Some?
      modifies this`table
      ensures table.Some? && AsStep(ok, table.value) == AddAll(backend, spec, old(table.value), missing)
    {
      ghost var t0 := table.value;
      for k := 0 to |missing|
        invariant table.Some? && AddAll(backend, spec, t0, missing[..k]) == Done(table.value)
      {
        assert missing[..k + 1][..k] == missing[..k];
        ok := AddColumnOf(spec, missing[k]);
        if !ok {
          AddAllStops(backend, spec, t0, missing, k + 1);
          return;
        }
      }
      assert missing[..|missing|] == missing;
      ok := true;
    }

    method DropIndexes(ixs: seq<Index>) returns (ok: bool)
      requires table.Some?
      modifies this`table
      ensures table.Some? && AsStep(ok, table.value) == DropAll(old(table.value), ixs)
    {
      ghost var t0 := table.value;
      for k := 0 to |ixs|
        invariant table.Some? && DropAll(t0, ixs[..k]) == Done(table.value)
      {
        assert ixs[..k + 1][..k] == ixs[..k];
        match DropIndex(table.value, ixs[k].name) {
          case Done(t) =>
            table := Some(t);
          case Failed(t) =>
            DropAllStops(t0, ixs, k + 1);
            return false;
        }
      }
      assert ixs[..|ixs|] == ixs;
      ok := true;
    }

    /** Append in place. There is no transaction: a failure leaves what was done so far. */
    method ApplyIncremental(spec: TableSpec, d: SchemaDiff) returns (ok: bool)
      requires table.Some?
      modifies this`table
      ensures table.Some? && AsStep(ok, table.value) == Appended(backend, spec, d, old(table.value))
    {
      ok := AddColumns(spec, d.missingColumns);
      if !ok { return; }
      ok := DropIndexes(d.changedIndexes);
      if !ok { return; }
      ok := CreateIndexes(backend.tolerant, d.missingIndexes + d.changedIndexes);
    }

    /** Declared indexes first, then the undeclared ones worth keeping; a failure among the
        latter skips that one only. */
    method RecreateIndexes(spec: TableSpec, infos: seq<IndexInfo>) returns (ok: bool)
      requires table.Some?
      modifies this`table
      ensures table.Some?
      ensures ok == CreateAll(false, old(table.value), spec.indexes).Done?
      ensures ok ==> table.value == RestoreExtras(
                backend, spec, CreateAll(false, old(table.value), spec.indexes).table, infos)
    {
      ok := CreateIndexes(false, spec.indexes);
      if !ok { return; }
      ghost var t0 := table.value;
      for k := 0 to |infos|
        invariant table.Some? && table.value == RestoreExtras(backend, spec, t0, infos[..k])
      {
        var info := infos[k];
        assert infos[..k + 1][..k] == infos[..k];
        if CarriedOver(spec, info) && info.name !in backend.unprintable {
          var _ := CreateIndexOn(false, info);
        }
      }
      assert infos[..|infos|] == infos;
    }

    /** Create the copy, fill it, put it in the table's place and index it, in one
        transaction: any failure restores the table as it was. */
    method ApplyRebuild(spec: TableSpec) returns (ok: bool)
      requires table.Some?
      modifies this
      ensures table.Some? && scratch == None
      ensures AsStep(ok, table.value) == Rebuilt(backend, spec, old(table.value))
    {
      var saved := table;
      var infos := saved.value.indexes;
      var extras := ExtraColumns(saved.value.columns, NameSet(SpecNames(spec.columns)));
      scratch := None;
      if !CreateAccepted(spec, extras) {
        return false;
      }
      scratch := Some(Table(CreatedColumns(spec, extras), [], []));
      if saved.value.columns != [] {
        var rows := CopiedRows(spec, saved.value);
        if !CopyAccepted(spec, scratch.value.columns, rows) {
          scratch := None;
          return false;
        }
        scratch := Some(scratch.value.(rows := rows));
      }
      table := scratch;
      scratch := None;
      assert table.value == Copied(spec, saved.value);
      ok := RecreateIndexes(spec, infos);
      if !ok {
        table := saved;
      }
    }

    method ApplyRenames(renames: seq<(string, string)>) returns (ok: bool)
      requires table.Some?
      modifies this`table
      ensures table.Some?
      ensures AsStep(ok, table.value)
              == RenameAll(old(table.value), NameSet(Names(old(table.value).columns)), renames)
    {
      ghost var t0 := table.value;
      var present := NameSet(Names(table.value.columns));
      for k := 0 to |renames|
        invariant table.Some? && RenameAll(t0, present, renames[..k]) == Done(table.value)
      {
        var (was, becomes) := renames[k];
        assert renames[..k + 1][..k] == renames[..k];
        if was in present && becomes !in present {
          match RenameColumn(table.value, was, becomes) {
            case Done(t) =>
              table := Some(t);
            case Failed(t) =>
              RenameAllStops(t0, present, renames, k + 1);
              return false;
          }
        }
      }
      assert renames[..|renames|] == renames;
      ok := true;
    }

    method DropFormerIndexes(names: seq<string>)
      requires table.Some?
      modifies this`table
      ensures table == Some(DropFormer(backend, old(table.value), names))
    {
      ghost var t0 := table.value;
      for k := 0 to |names|
        invariant table == Some(DropFormer(backend, t0, names[..k]))
      {
        assert names[..k + 1][..k] == names[..k];
        if backend.dropsFormer {
          table := Some(table.value.(indexes := RemoveIndex(table.value.indexes, names[k])));
        }
      }
      assert names[..|names|] == names;
    }

    /** Create, or rename and repair. A table it reports done is empty of differences, unless
        it is one of the specs that add an untightened column. */
    method Reconcile(spec: TableSpec) returns (ok: bool)
      requires WellFormed(spec) && scratch == None
      modifies this
      ensures scratch == None
      ensures Outcome(ok, table) == ReconcileTable(backend, spec, old(table))
      ensures ok ==> table.Some?
                     && (Conforms(spec, table.value.columns, table.value.indexes)
                         <==> !AddsUntightened(backend, spec, old(table)))
    {
      ghost var before := table;
      if table.None? {
        if !CreateAccepted(spec, []) {
          return false;
        }
        table := Some(Table(CreatedColumns(spec, []), [], []));
        ok := CreateIndexes(backend.tolerant, spec.indexes);
      } else {
        ok := ApplyRenames(spec.renames);
        if !ok { return; }
        DropFormerIndexes(spec.formerIndexes);
        var diff := DiffTable(spec, table.value.columns, table.value.indexes);
        if !diff.IsEmpty() {
          if diff.NeedsRebuild() {
            ok := ApplyRebuild(spec);
          } else {
            ok := ApplyIncremental(spec, diff);
          }
        }
      }
      if ok {
        ReconcileConverges(backend, spec, before);
        DiffEmptyIffConforms(spec, table.value.columns, table.value.indexes);
      }
    }
  }
}
