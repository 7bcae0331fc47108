/**
  Whole reconciles, twice: every cell survives the first one under its column's final name, and
  the second one changes nothing, or fails for ever where the first left a column untightened.
*/
module SecondPass {
  import opened Common
  import opened Schema
  import opened Engine
  import opened Reconcile
  import opened Convergence
  import opened DataKept

  // ── Renames keep every cell ───────────────────────────────────────────────

  /** Where the declared renames take a column, given the columns present at the start. */
  function FinalName(n: string, present: set<string>, renames: seq<(string, string)>): string {
    if renames == [] then n
    else
      var m := FinalName(n, present, renames[..|renames| - 1]);
      var (was, becomes) := renames[|renames| - 1];
      if was in present && becomes !in present then Subst(m, was, becomes) else m
  }

  lemma RenameNames(t: Table, was: string, becomes: string)
    requires RenameColumn(t, was, becomes).Done?
    ensures var names := Names(RenameColumn(t, was, becomes).table.columns);
            |names| == |t.columns|
            && forall i :: 0 <= i < |names| ==> names[i] == Subst(Names(t.columns)[i], was, becomes)
  {
  }

  /** The renamed table is valid and every cell is found under the new name. */
  lemma RenameColumnKeeps(t: Table, was: string, becomes: string)
    requires ValidTable(t) && RenameColumn(t, was, becomes).Done?
    ensures var u := RenameColumn(t, was, becomes).table;
            && |u.rows| == |t.rows|
            && (forall i :: 0 <= i < |u.rows| ==> RowFits(u.rows[i], u.columns))
            && forall i, n :: 0 <= i < |t.rows| && n in t.rows[i] ==>
                 Subst(n, was, becomes) in u.rows[i]
                 && u.rows[i][Subst(n, was, becomes)] == t.rows[i][n]
  {
    var u := RenameColumn(t, was, becomes).table;
    RenameNames(t, was, becomes);
    forall i | 0 <= i < |t.rows| ensures RowFits(u.rows[i], u.columns) {
      assert RowFits(t.rows[i], t.columns);
      RenamedRowFits(t, u, t.rows[i], was, becomes);
    }
    forall i, n | 0 <= i < |t.rows| && n in t.rows[i]
      ensures Subst(n, was, becomes) in u.rows[i]
              && u.rows[i][Subst(n, was, becomes)] == t.rows[i][n]
    {
      assert RowFits(t.rows[i], t.columns);
    }
  }

  lemma RenamedRowFits(t: Table, u: Table, r: Row, was: string, becomes: string)
    requires RenameColumn(t, was, becomes) == Done(u) && RowFits(r, t.columns)
    ensures RowFits(RenamedRow(r, was, becomes), u.columns)
  {
    var v := RenamedRow(r, was, becomes);
    RenameNames(t, was, becomes);
    var before, after := Names(t.columns), Names(u.columns);
    forall n ensures n in v <==> n in after {
      if n in v {
        var m := if n == becomes then was else n;
        var i :| 0 <= i < |before| && before[i] == m;
        assert after[i] == n;
      }
      if n in after {
        var i :| 0 <= i < |after| && after[i] == n;
        assert before[i] in r;
      }
    }
    forall c | c in u.columns && (!c.nullable || c.pk) ensures c.name in v && v[c.name] != Null {
      var i :| 0 <= i < |u.columns| && u.columns[i] == c;
      assert t.columns[i] in t.columns;
      assert c.name == Subst(t.columns[i].name, was, becomes);
    }
  }

  lemma RenameColumnValid(t: Table, was: string, becomes: string)
    requires ValidTable(t) && RenameColumn(t, was, becomes).Done?
    ensures ValidTable(RenameColumn(t, was, becomes).table)
  {
    var u := RenameColumn(t, was, becomes).table;
    RenameColumnKeeps(t, was, becomes);
    RenameNames(t, was, becomes);
    var before, after := Names(t.columns), Names(u.columns);
    forall i, j | 0 <= i < j < |after| ensures after[i] != after[j] {
      assert before[i] != before[j] && before[i] != becomes && before[j] != becomes;
    }
    assert IndexNames(u.indexes) == IndexNames(t.indexes);
  }

  lemma {:induction false} RenameAllKeeps(t: Table, present: set<string>, renames: seq<(string, string)>)
    requires ValidTable(t) && RenameAll(t, present, renames).Done?
    ensures var u := RenameAll(t, present, renames).table;
            && ValidTable(u) && |u.rows| == |t.rows| && |u.columns| == |t.columns|
            && forall i, n :: 0 <= i < |t.rows| && n in t.rows[i] ==>
                 FinalName(n, present, renames) in u.rows[i]
                 && u.rows[i][FinalName(n, present, renames)] == t.rows[i][n]
  {
    if renames != [] {
      var k := |renames| - 1;
      RenameAllKeeps(t, present, renames[..k]);
      var before := RenameAll(t, present, renames[..k]).table;
      var (was, becomes) := renames[k];
      if was in present && becomes !in present {
        RenameColumnKeeps(before, was, becomes);
        RenameColumnValid(before, was, becomes);
      }
    }
  }

  /** Renames that stop half-way have done the ones before, and stop at one whose column is gone
      or whose new name is taken. */
  lemma {:induction false} RenamesStop(t: Table, present: set<string>, renames: seq<(string, string)>)
    returns (k: nat)
    ensures k <= |renames| && RenameAll(t, present, renames[..k]) == Done(RenameAll(t, present, renames).table)
    ensures RenameAll(t, present, renames).Done? ==> k == |renames|
    ensures k < |renames| ==>
              RenameColumn(RenameAll(t, present, renames).table, renames[k].0, renames[k].1).Failed?
  {
    if RenameAll(t, present, renames).Done? {
      k := |renames|;
      assert renames[..k] == renames;
    } else {
      var init := renames[..|renames| - 1];
      k := RenamesStop(t, present, init);
      assert init[..k] == renames[..k];
    }
  }

  lemma {:induction false} RenameAllNames(t: Table, present: set<string>, renames: seq<(string, string)>)
    requires RenameAll(t, present, renames).Done?
    ensures forall n :: n in Names(t.columns) ==>
              FinalName(n, present, renames) in Names(RenameAll(t, present, renames).table.columns)
  {
    if renames != [] {
      var k := |renames| - 1;
      RenameAllNames(t, present, renames[..k]);
      var before := RenameAll(t, present, renames[..k]).table;
      var (was, becomes) := renames[k];
      if was in present && becomes !in present {
        RenameNames(before, was, becomes);
        var after := Names(RenameColumn(before, was, becomes).table.columns);
        forall n | n in Names(before.columns) ensures Subst(n, was, becomes) in after {
          var i :| 0 <= i < |before.columns| && Names(before.columns)[i] == n;
          assert after[i] == Subst(n, was, becomes);
        }
      }
    }
  }

  lemma {:induction false} RemoveIndexNames(idx: seq<IndexInfo>, gone: string)
    requires Distinct(IndexNames(idx))
    ensures Distinct(IndexNames(RemoveIndex(idx, gone)))
    ensures forall ix :: ix in RemoveIndex(idx, gone) <==> ix in idx && ix.name != gone
  {
    if idx != [] {
      var k := |idx| - 1;
      var init, last := idx[..k], idx[k];
      assert idx == init + [last];
      forall i, j | 0 <= i < j < k ensures IndexNames(init)[i] != IndexNames(init)[j] {
        assert IndexNames(idx)[i] != IndexNames(idx)[j];
      }
      RemoveIndexNames(init, gone);
      var kept := RemoveIndex(init, gone);
      forall i | 0 <= i < |kept| ensures kept[i].name != last.name {
        assert kept[i] in kept;
        var q :| 0 <= q < k && init[q] == kept[i];
        assert IndexNames(idx)[q] != IndexNames(idx)[k];
      }
      assert forall i :: 0 <= i < |kept| ==> IndexNames(kept)[i] == kept[i].name;
    }
  }

  /** Dropping former indexes touches neither columns nor rows, and leaves none of them. */
  lemma {:induction false} DropFormerShape(b: Backend, t: Table, names: seq<string>)
    requires ValidTable(t)
    ensures var u := DropFormer(b, t, names);
            && u.columns == t.columns && u.rows == t.rows && ValidTable(u)
            && (b.dropsFormer ==> forall n :: n in names ==> FindIndex(u.indexes, n).None?)
  {
    if names != [] {
      var k := |names| - 1;
      DropFormerShape(b, t, names[..k]);
      var u := DropFormer(b, t, names[..k]);
      if b.dropsFormer {
        RemoveIndexNames(u.indexes, names[k]);
        forall n | n in names ensures FindIndex(RemoveIndex(u.indexes, names[k]), n).None? {
          FindIndexRemove(u.indexes, names[k], n);
        }
      }
    }
  }

  /** Renames, former indexes and repair together: each cell of each row is in the result,
      under its column's final name, unless it was a NULL the new constraint forbids, which
      becomes the declared default. */
  lemma ReconcileKeepsCells(b: Backend, spec: TableSpec, t: Table)
    requires WellFormed(spec) && ValidTable(t) && t.columns != []
    requires ReconcileTable(b, spec, Some(t)).ok
    ensures var w := ReconcileTable(b, spec, Some(t)).table.value;
            var present := NameSet(Names(t.columns));
            |w.rows| == |t.rows|
            && forall i, n :: 0 <= i < |t.rows| && n in t.rows[i] ==>
                 var m := FinalName(n, present, spec.renames);
                 m in w.rows[i]
                 && (w.rows[i][m] == t.rows[i][n]
                     || (t.rows[i][n] == Null
                         && exists c :: c in spec.columns && c.name == m && !c.nullable
                              && c.default.Some? && w.rows[i][m] == Lit(c.default.value)))
  {
    var present := NameSet(Names(t.columns));
    RenameAllKeeps(t, present, spec.renames);
    var r := RenameAll(t, present, spec.renames).table;
    DropFormerShape(b, r, spec.formerIndexes);
    var u := DropFormer(b, r, spec.formerIndexes);
    if !Diff(spec, u.columns, u.indexes).IsEmpty() {
      RepairCarriesRows(b, spec, u);
    }
  }

  // ── Every step keeps the table valid ──────────────────────────────────────

  lemma CreateIndexValid(tolerant: bool, t: Table, ix: IndexInfo)
    requires ValidTable(t)
    ensures ValidTable(CreateIndex(tolerant, t, ix).table)
  {
    var u := CreateIndex(tolerant, t, ix).table;
    if u != t {
      assert IndexNames(u.indexes) == IndexNames(t.indexes) + [ix.name];
      forall i | 0 <= i < |t.indexes| ensures IndexNames(t.indexes)[i] != ix.name {
        assert t.indexes[i].name != ix.name;
      }
    }
  }

  lemma {:induction false} CreateAllValid(tolerant: bool, t: Table, ixs: seq<Index>)
    requires ValidTable(t)
    ensures ValidTable(CreateAll(tolerant, t, ixs).table)
  {
    if ixs != [] {
      CreateAllValid(tolerant, t, ixs[..|ixs| - 1]);
      var u := CreateAll(tolerant, t, ixs[..|ixs| - 1]);
      if u.Done? { CreateIndexValid(tolerant, u.table, AsInfo(ixs[|ixs| - 1])); }
    }
  }

  lemma {:induction false} RestoreExtrasValid(b: Backend, spec: TableSpec, t: Table, infos: seq<IndexInfo>)
    requires ValidTable(t)
    ensures ValidTable(RestoreExtras(b, spec, t, infos))
  {
    if infos != [] {
      RestoreExtrasValid(b, spec, t, infos[..|infos| - 1]);
      CreateIndexValid(false, RestoreExtras(b, spec, t, infos[..|infos| - 1]), infos[|infos| - 1]);
    }
  }

  lemma {:induction false} DropAllValid(t: Table, ixs: seq<Index>)
    requires ValidTable(t)
    ensures ValidTable(DropAll(t, ixs).table)
  {
    if ixs != [] {
      DropAllValid(t, ixs[..|ixs| - 1]);
      var u := DropAll(t, ixs[..|ixs| - 1]);
      if u.Done? { RemoveIndexNames(u.table.indexes, ixs[|ixs| - 1].name); }
    }
  }

  lemma AddColumnValid(t: Table, c: Column)
    requires ValidTable(t)
    ensures ValidTable(AddColumn(t, c))
  {
    var u := AddColumn(t, c);
    if c.name !in Names(t.columns) {
      assert Names(u.columns) == Names(t.columns) + [c.name];
      forall i | 0 <= i < |u.rows| ensures RowFits(u.rows[i], u.columns) {
        assert RowFits(t.rows[i], t.columns);
        assert u.rows[i] == t.rows[i][c.name := DefaultValue(c.default)];
        forall x | x in u.columns && (!x.nullable || x.pk)
          ensures x.name in u.rows[i] && u.rows[i][x.name] != Null
        {
          if x in t.columns {
            var k :| 0 <= k < |t.columns| && t.columns[k] == x;
            assert Names(t.columns)[k] == x.name && t.rows[i][x.name] != Null;
          } else {
            assert x == AddedColumn(c) && c.default.Some?;
          }
        }
      }
    }
  }

  lemma {:induction false} AddAllValid(b: Backend, spec: TableSpec, t: Table, missing: seq<Column>)
    requires ValidTable(t)
    ensures ValidTable(AddAll(b, spec, t, missing).table)
  {
    if missing != [] {
      var c := missing[|missing| - 1];
      AddAllValid(b, spec, t, missing[..|missing| - 1]);
      var u := AddAll(b, spec, t, missing[..|missing| - 1]);
      if u.Done? {
        AddColumnValid(u.table, c);
        CreateIndexValid(b.tolerant, AddColumn(u.table, c), IndexInfo(UxName(spec, c), [c.name], true));
      }
    }
  }

  lemma CopiedValid(spec: TableSpec, t: Table)
    requires CreateAccepted(spec, ExtraColumns(t.columns, NameSet(SpecNames(spec.columns))))
    requires CopyAccepted(spec, Copied(spec, t).columns, Copied(spec, t).rows)
    ensures ValidTable(Copied(spec, t))
  {
  }

  /** Whatever branch runs and wherever it stops, the table it leaves is valid: no column or
      index twice, and every row satisfies its columns. */
  lemma ReconcileKeepsValid(b: Backend, spec: TableSpec, t: Table)
    requires ValidTable(t)
    ensures ReconcileTable(b, spec, Some(t)).table.Some?
            && ValidTable(ReconcileTable(b, spec, Some(t)).table.value)
  {
    var present := NameSet(Names(t.columns));
    var k := RenamesStop(t, present, spec.renames);
    RenameAllKeeps(t, present, spec.renames[..k]);
    if Prepared(b, spec, t).Done? {
      DropFormerShape(b, RenameAll(t, present, spec.renames).table, spec.formerIndexes);
      RepairKeepsValid(b, spec, Prepared(b, spec, t).table);
    }
  }

  lemma RepairKeepsValid(b: Backend, spec: TableSpec, u: Table)
    requires ValidTable(u)
    ensures ValidTable(Repaired(b, spec, u).table)
  {
    var d := Diff(spec, u.columns, u.indexes);
    if d.NeedsRebuild() {
      if Rebuilt(b, spec, u).Done? {
        CopiedValid(spec, u);
        CreateAllValid(false, Copied(spec, u), spec.indexes);
        RestoreExtrasValid(b, spec, CreateAll(false, Copied(spec, u), spec.indexes).table, u.indexes);
      }
    } else {
      AddAllValid(b, spec, u, d.missingColumns);
      var v := AddAll(b, spec, u, d.missingColumns).table;
      DropAllValid(v, d.changedIndexes);
      CreateAllValid(b.tolerant, DropAll(v, d.changedIndexes).table, d.missingIndexes + d.changedIndexes);
    }
  }

  // ── A reconcile that did not return ───────────────────────────────────────

  /** Every column and every cell of `t` is in `w`, under the name some renames gave it. */
  ghost predicate KeptUnder(t: Table, w: Table, present: set<string>, renames: seq<(string, string)>) {
    && |w.rows| == |t.rows|
    && (forall n :: n in Names(t.columns) ==> FinalName(n, present, renames) in Names(w.columns))
    && forall i, n :: 0 <= i < |t.rows| && n in t.rows[i] ==>
         var m := FinalName(n, present, renames);
         m in w.rows[i] && w.rows[i][m] == t.rows[i][n]
  }

  /** Columns and cells of `t` are in `u` as they were. */
  ghost predicate Extends(t: Table, u: Table) {
    && |u.rows| == |t.rows|
    && (forall n :: n in Names(t.columns) ==> n in Names(u.columns))
    && forall i, n :: 0 <= i < |t.rows| && n in t.rows[i] ==> n in u.rows[i] && u.rows[i][n] == t.rows[i][n]
  }

  lemma AddColumnExtends(t: Table, c: Column)
    requires ValidTable(t)
    ensures Extends(t, AddColumn(t, c))
  {
    var u := AddColumn(t, c);
    if c.name !in Names(t.columns) {
      assert Names(u.columns) == Names(t.columns) + [c.name];
      forall i | 0 <= i < |t.rows| ensures c.name !in t.rows[i] {
        assert RowFits(t.rows[i], t.columns);
      }
    }
  }

  lemma ExtendsFurther(t: Table, u: Table, w: Table)
    requires Extends(t, u) && Extends(u, w)
    ensures Extends(t, w)
  {
  }

  lemma {:induction false} AddAllExtends(b: Backend, spec: TableSpec, t: Table, missing: seq<Column>)
    requires ValidTable(t)
    ensures Extends(t, AddAll(b, spec, t, missing).table)
  {
    if missing != [] {
      var k := |missing| - 1;
      AddAllExtends(b, spec, t, missing[..k]);
      AddAllValid(b, spec, t, missing[..k]);
      var u := AddAll(b, spec, t, missing[..k]);
      if u.Done? {
        AddColumnExtends(u.table, missing[k]);
        ExtendsFurther(t, u.table, AddColumn(u.table, missing[k]));
      }
    }
  }

  /** Statements over indexes leave columns and rows alone, wherever they stop. */
  lemma {:induction false} DropAllOnlyIndexes(t: Table, ixs: seq<Index>)
    ensures DropAll(t, ixs).table == t.(indexes := DropAll(t, ixs).table.indexes)
  {
    if ixs != [] { DropAllOnlyIndexes(t, ixs[..|ixs| - 1]); }
  }

  lemma {:induction false} CreateAllOnlyIndexes(tolerant: bool, t: Table, ixs: seq<Index>)
    ensures CreateAll(tolerant, t, ixs).table == t.(indexes := CreateAll(tolerant, t, ixs).table.indexes)
  {
    if ixs != [] { CreateAllOnlyIndexes(tolerant, t, ixs[..|ixs| - 1]); }
  }

  lemma AppendExtends(b: Backend, spec: TableSpec, d: SchemaDiff, t: Table)
    requires ValidTable(t)
    ensures Extends(t, Appended(b, spec, d, t).table)
  {
    AddAllExtends(b, spec, t, d.missingColumns);
    var u := AddAll(b, spec, t, d.missingColumns).table;
    DropAllOnlyIndexes(u, d.changedIndexes);
    CreateAllOnlyIndexes(b.tolerant, DropAll(u, d.changedIndexes).table, d.missingIndexes + d.changedIndexes);
  }

  lemma KeptFurther(t: Table, u: Table, w: Table, present: set<string>, renames: seq<(string, string)>)
    requires KeptUnder(t, u, present, renames) && Extends(u, w)
    ensures KeptUnder(t, w, present, renames)
  {
  }

  /** A repair that failed half-way has only added; a refused rebuild has done nothing. */
  lemma FailedRepairExtends(b: Backend, spec: TableSpec, u: Table)
    requires ValidTable(u) && Repaired(b, spec, u).Failed?
    ensures Extends(u, Repaired(b, spec, u).table)
  {
    AppendExtends(b, spec, Diff(spec, u.columns, u.indexes), u);
  }

  lemma PreparedKeepsCells(b: Backend, spec: TableSpec, t: Table)
    requires ValidTable(t) && Prepared(b, spec, t).Done?
    ensures ValidTable(Prepared(b, spec, t).table)
    ensures KeptUnder(t, Prepared(b, spec, t).table, NameSet(Names(t.columns)), spec.renames)
  {
    var present := NameSet(Names(t.columns));
    RenameAllKeeps(t, present, spec.renames);
    RenameAllNames(t, present, spec.renames);
    DropFormerShape(b, RenameAll(t, present, spec.renames).table, spec.formerIndexes);
  }

  /** A reconcile that did not return, wherever it stopped, has lost no row, no column and no
      cell: what is there is the table it found, after the first so many of the renames, with
      some columns more. Only where every rename was done is anything else begun. */
  lemma FailedReconcileKeepsCells(b: Backend, spec: TableSpec, t: Table) returns (k: nat)
    requires ValidTable(t) && !ReconcileTable(b, spec, Some(t)).ok
    ensures k <= |spec.renames| && ReconcileTable(b, spec, Some(t)).table.Some?
    ensures var w := ReconcileTable(b, spec, Some(t)).table.value;
            && KeptUnder(t, w, NameSet(Names(t.columns)), spec.renames[..k])
            && (k < |spec.renames| ==>
                  && RenameAll(t, NameSet(Names(t.columns)), spec.renames[..k]) == Done(w)
                  && RenameColumn(w, spec.renames[k].0, spec.renames[k].1).Failed?)
  {
    var present := NameSet(Names(t.columns));
    k := RenamesStop(t, present, spec.renames);
    if Prepared(b, spec, t).Done? {
      var u := Prepared(b, spec, t).table;
      assert spec.renames[..k] == spec.renames;
      PreparedKeepsCells(b, spec, t);
      FailedRepairExtends(b, spec, u);
      KeptFurther(t, u, Repaired(b, spec, u).table, present, spec.renames);
    } else {
      RenameAllKeeps(t, present, spec.renames[..k]);
      RenameAllNames(t, present, spec.renames[..k]);
    }
  }

  // ── The second pass ───────────────────────────────────────────────────────

  /** Every rename lands on a declared column, and no former index name is in use today. */
  ghost predicate HistorySettles(spec: TableSpec) {
    && (forall p :: p in spec.renames ==> p.1 in SpecNames(spec.columns))
    && (forall n :: n in spec.formerIndexes ==>
          && n !in SpecIndexNames(spec.indexes)
          && forall c :: c in spec.columns ==> n != UxName(spec, c))
  }

  lemma {:induction false} RenamesIdle(t: Table, present: set<string>, renames: seq<(string, string)>)
    requires forall p :: p in renames ==> p.1 in present
    ensures RenameAll(t, present, renames) == Done(t)
  {
    if renames != [] {
      assert renames[|renames| - 1] in renames;
      RenamesIdle(t, present, renames[..|renames| - 1]);
    }
  }

  lemma {:induction false} RemoveAbsent(idx: seq<IndexInfo>, n: string)
    requires FindIndex(idx, n).None?
    ensures RemoveIndex(idx, n) == idx
  {
    if idx != [] {
      RemoveAbsent(idx[..|idx| - 1], n);
      assert idx == idx[..|idx| - 1] + [idx[|idx| - 1]];
    }
  }

  lemma {:induction false} DropFormerIdle(b: Backend, t: Table, names: seq<string>)
    requires b.dropsFormer ==> forall n :: n in names ==> FindIndex(t.indexes, n).None?
    ensures DropFormer(b, t, names) == t
  {
    if names != [] {
      assert names[|names| - 1] in names;
      DropFormerIdle(b, t, names[..|names| - 1]);
      if b.dropsFormer {
        RemoveAbsent(t.indexes, names[|names| - 1]);
      }
    }
  }

  lemma OptionalIndexAbsent(b: Backend, t: Table, info: IndexInfo, n: string)
    requires info.name != n
    ensures FindIndex(OptionalIndex(b, t, info).indexes, n) == FindIndex(t.indexes, n)
  {
    FindIndexAppend(t.indexes, info, n);
  }

  /** A name absent from the carried-over list is not brought in. */
  lemma {:induction false} RestoreExtrasAbsent(b: Backend, spec: TableSpec, t: Table, infos: seq<IndexInfo>, n: string)
    requires FindIndex(infos, n).None?
    ensures FindIndex(RestoreExtras(b, spec, t, infos).indexes, n) == FindIndex(t.indexes, n)
  {
    if infos != [] {
      var k := |infos| - 1;
      RestoreExtrasAbsent(b, spec, t, infos[..k], n);
      var u := RestoreExtras(b, spec, t, infos[..k]);
      assert infos[k].name != n;
      OptionalIndexAbsent(b, u, infos[k], n);
    }
  }

  /** A name that is neither declared nor a ux_ name does not appear in a repair. */
  lemma RepairBringsNoStranger(b: Backend, spec: TableSpec, t: Table, n: string)
    requires WellFormed(spec) && Repaired(b, spec, t).Done?
    requires FindIndex(t.indexes, n).None? && n !in SpecIndexNames(spec.indexes)
    requires forall c :: c in spec.columns ==> n != UxName(spec, c)
    ensures FindIndex(Repaired(b, spec, t).table.indexes, n).None?
  {
    var d := Diff(spec, t.columns, t.indexes);
    if d.IsEmpty() {
    } else if d.NeedsRebuild() {
      var copy := Copied(spec, t);
      CreateAllShape(false, copy, spec.indexes);
      RestoreExtrasAbsent(b, spec, CreateAll(false, copy, spec.indexes).table, t.indexes, n);
    } else {
      AppendBringsNoStranger(b, spec, t, n);
    }
  }

  lemma NotAmong(all: seq<Index>, some: seq<Index>, n: string)
    requires (forall ix :: ix in some ==> ix in all) && n !in SpecIndexNames(all)
    ensures n !in SpecIndexNames(some)
  {
    forall i | 0 <= i < |some| ensures SpecIndexNames(some)[i] != n {
      assert some[i] in some;
      var q :| 0 <= q < |all| && all[q] == some[i];
      assert SpecIndexNames(all)[q] != n;
    }
  }

  lemma IndexesBringNoStranger(spec: TableSpec, t: Table, u: Table, m: seq<Index>, c: seq<Index>,
                               tolerant: bool, n: string)
    requires WellFormed(spec) && SameButUx(spec, t.indexes, u.indexes)
    requires m == MissingIndexes(spec.indexes, t.indexes) && c == ChangedIndexes(spec.indexes, t.indexes)
    requires DropAll(u, c).Done? && CreateAll(tolerant, DropAll(u, c).table, m + c).Done?
    requires FindIndex(u.indexes, n).None? && n !in SpecIndexNames(spec.indexes)
    ensures FindIndex(CreateAll(tolerant, DropAll(u, c).table, m + c).table.indexes, n).None?
  {
    DropAllShape(u, c);
    ReadyToCreate(spec, t, u, m, c);
    SubsetDistinct(spec.indexes, t.indexes);
    NotAmong(spec.indexes, m + c, n);
    CreateAllShape(tolerant, DropAll(u, c).table, m + c);
  }

  lemma AppendBringsNoStranger(b: Backend, spec: TableSpec, t: Table, n: string)
    requires WellFormed(spec) && FindIndex(t.indexes, n).None? && n !in SpecIndexNames(spec.indexes)
    requires Appended(b, spec, Diff(spec, t.columns, t.indexes), t).Done?
    requires forall c :: c in spec.columns ==> n != UxName(spec, c)
    ensures FindIndex(Appended(b, spec, Diff(spec, t.columns, t.indexes), t).table.indexes, n).None?
  {
    var d := Diff(spec, t.columns, t.indexes);
    MissingColumnsDistinct(spec.columns, NameSet(Names(t.columns)));
    AddAllShape(b, spec, t, d.missingColumns);
    var u := AddAll(b, spec, t, d.missingColumns).table;
    IndexesBringNoStranger(spec, t, u, d.missingIndexes, d.changedIndexes, b.tolerant, n);
  }

  /** On a conforming result the renames and the former indexes have nothing left to do. */
  lemma PreparedIdle(b: Backend, spec: TableSpec, t: Table)
    requires forall p :: p in spec.renames ==> p.1 in Names(t.columns)
    requires b.dropsFormer ==> forall n :: n in spec.formerIndexes ==> FindIndex(t.indexes, n).None?
    ensures Prepared(b, spec, t) == Done(t)
  {
    RenamesIdle(t, NameSet(Names(t.columns)), spec.renames);
    DropFormerIdle(b, t, spec.formerIndexes);
  }

  /** No former index is left by a reconcile that returned. */
  lemma FormerIndexesGone(b: Backend, spec: TableSpec, table: Option<Table>, n: string)
    requires WellFormed(spec) && HistorySettles(spec) && (table.Some? ==> ValidTable(table.value))
    requires ReconcileTable(b, spec, table).ok && b.dropsFormer && n in spec.formerIndexes
    ensures FindIndex(ReconcileTable(b, spec, table).table.value.indexes, n).None?
  {
    match table {
      case None =>
        CreateAllShape(b.tolerant, Table(CreatedColumns(spec, []), [], []), spec.indexes);
      case Some(t) =>
        var present := NameSet(Names(t.columns));
        RenameAllKeeps(t, present, spec.renames);
        var r := RenameAll(t, present, spec.renames).table;
        DropFormerShape(b, r, spec.formerIndexes);
        RepairBringsNoStranger(b, spec, DropFormer(b, r, spec.formerIndexes), n);
    }
  }

  /** Every declared column is in the result of a reconcile that returned. */
  lemma ResultHasColumns(b: Backend, spec: TableSpec, table: Option<Table>)
    requires WellFormed(spec) && ReconcileTable(b, spec, table).ok
    ensures forall n :: n in SpecNames(spec.columns)
              ==> n in Names(ReconcileTable(b, spec, table).table.value.columns)
  {
    var r := ReconcileTable(b, spec, table).table.value;
    if !AddsUntightened(b, spec, table) {
      ReconcileConverges(b, spec, table);
      DiffEmptyIffConforms(spec, r.columns, r.indexes);
      forall i | 0 <= i < |spec.columns| ensures SpecNames(spec.columns)[i] in Names(r.columns) {
        assert ColumnConforms(spec, spec.columns[i], r.columns);
      }
    } else {
      var u := Prepared(b, spec, table.value).table;
      AppendHasColumns(b, spec, u);
    }
  }

  lemma AddedCover(cs: seq<Column>, cols: seq<ColumnInfo>)
    ensures var missing := MissingColumns(cs, NameSet(Names(cols)));
            forall n :: n in SpecNames(cs) ==> n in Names(cols + AddedColumns(missing))
  {
    var missing := MissingColumns(cs, NameSet(Names(cols)));
    assert Names(cols + AddedColumns(missing)) == Names(cols) + SpecNames(missing);
    forall i | 0 <= i < |cs| ensures SpecNames(cs)[i] in Names(cols) + SpecNames(missing) {
      if cs[i].name !in Names(cols) {
        SpecNameIn(missing, cs[i]);
      }
    }
  }

  lemma AppendHasColumns(b: Backend, spec: TableSpec, u: Table)
    requires WellFormed(spec)
    requires Appended(b, spec, Diff(spec, u.columns, u.indexes), u).Done?
    ensures forall n :: n in SpecNames(spec.columns)
              ==> n in Names(Appended(b, spec, Diff(spec, u.columns, u.indexes), u).table.columns)
  {
    AppendRows(b, spec, u);
    AddedCover(spec.columns, u.columns);
  }

  /** The second reconcile of a converged table changes nothing. */
  lemma SecondPassChangesNothing(b: Backend, spec: TableSpec, table: Option<Table>)
    requires WellFormed(spec) && HistorySettles(spec) && (table.Some? ==> ValidTable(table.value))
    requires ReconcileTable(b, spec, table).ok && !AddsUntightened(b, spec, table)
    ensures var first := ReconcileTable(b, spec, table);
            ReconcileTable(b, spec, first.table) == first
  {
    var r := ReconcileTable(b, spec, table).table.value;
    ReconcileConverges(b, spec, table);
    ResultHasColumns(b, spec, table);
    if b.dropsFormer {
      forall n | n in spec.formerIndexes ensures FindIndex(r.indexes, n).None? {
        FormerIndexesGone(b, spec, table, n);
      }
    }
    PreparedIdle(b, spec, r);
  }

  // ── The column that can never be tightened ────────────────────────────────

  /** The row an untightened column was appended to holds a NULL there, so the rebuild the
      next reconcile asks for is refused. */
  lemma RebuildRefused(b: Backend, spec: TableSpec, t: Table, c: Column)
    requires Distinct(SpecNames(spec.columns)) && c in spec.columns && !c.nullable && c.default.None?
    requires c.name in Names(t.columns) && t.rows != []
    requires c.name in t.rows[0] && t.rows[0][c.name] == Null
    ensures Rebuilt(b, spec, t) == Failed(t)
  {
    var copy := Copied(spec, t);
    var q :| 0 <= q < |spec.columns| && spec.columns[q] == c;
    FindColumnDistinct(spec.columns, q);
    SpecNameIn(spec.columns, c);
    assert copy.columns[q] == CreatedColumn(spec, c) && copy.columns[q] in copy.columns;
    assert copy.rows[0][c.name] == Null;
    assert copy.rows[0] in copy.rows;
  }

  lemma NullAppended(b: Backend, spec: TableSpec, u: Table, c: Column)
    requires WellFormed(spec) && ValidTable(u) && u.rows != [] && c.default.None?
    requires c in MissingColumns(spec.columns, NameSet(Names(u.columns)))
    requires Appended(b, spec, Diff(spec, u.columns, u.indexes), u).Done?
    ensures var w := Appended(b, spec, Diff(spec, u.columns, u.indexes), u).table;
            w.rows != [] && c.name in w.rows[0] && w.rows[0][c.name] == Null
  {
    AppendRows(b, spec, u);
    MissingColumnsDistinct(spec.columns, NameSet(Names(u.columns)));
    assert RowFits(u.rows[0], u.columns);
    AppendedCells(u.rows[0], MissingColumns(spec.columns, NameSet(Names(u.columns))));
  }

  lemma PreparedValid(b: Backend, spec: TableSpec, t: Table)
    requires ValidTable(t) && Prepared(b, spec, t).Done?
    ensures var u := Prepared(b, spec, t).table; ValidTable(u) && |u.rows| == |t.rows|
  {
    RenameAllKeeps(t, NameSet(Names(t.columns)), spec.renames);
    DropFormerShape(b, RenameAll(t, NameSet(Names(t.columns)), spec.renames).table, spec.formerIndexes);
  }

  /** Where the first reconcile added such a column to a table with rows, the second one
      fails, and leaves the table as it is. */
  lemma UntightenedNeverSettles(b: Backend, spec: TableSpec, t: Table)
    requires WellFormed(spec) && HistorySettles(spec) && ValidTable(t) && t.rows != []
    requires ReconcileTable(b, spec, Some(t)).ok && AddsUntightened(b, spec, Some(t))
    ensures var first := ReconcileTable(b, spec, Some(t)).table;
            ReconcileTable(b, spec, first) == Outcome(false, first)
  {
    var r := ReconcileTable(b, spec, Some(t)).table.value;
    var u := Prepared(b, spec, t).table;
    var c :| c in Diff(spec, u.columns, u.indexes).missingColumns && !c.nullable && c.default.None?;
    PreparedValid(b, spec, t);
    NullAppended(b, spec, u, c);
    ResultHasColumns(b, spec, Some(t));
    SpecNameIn(spec.columns, c);
    SecondDiffWantsRebuild(b, spec, u, c);
    RebuildRefused(b, spec, r, c);
    if b.dropsFormer {
      forall n | n in spec.formerIndexes ensures FindIndex(r.indexes, n).None? {
        FormerIndexesGone(b, spec, Some(t), n);
      }
    }
    PreparedIdle(b, spec, r);
    RefusedOutcome(b, spec, r);
  }

  lemma RefusedOutcome(b: Backend, spec: TableSpec, r: Table)
    requires Prepared(b, spec, r) == Done(r) && Rebuilt(b, spec, r) == Failed(r)
    requires Diff(spec, r.columns, r.indexes).NeedsRebuild()
    ensures ReconcileTable(b, spec, Some(r)) == Outcome(false, Some(r))
  {
  }

  lemma SecondDiffWantsRebuild(b: Backend, spec: TableSpec, u: Table, c: Column)
    requires WellFormed(spec)
    requires var d := Diff(spec, u.columns, u.indexes);
             !d.NeedsRebuild() && c in d.missingColumns && !c.nullable && c.default.None?
             && Appended(b, spec, d, u).Done?
    ensures var w := Appended(b, spec, Diff(spec, u.columns, u.indexes), u).table;
            Diff(spec, w.columns, w.indexes).NeedsRebuild()
  {
    var d := Diff(spec, u.columns, u.indexes);
    var w := Appended(b, spec, d, u).table;
    AppendRows(b, spec, u);
    MissingColumnsDistinct(spec.columns, NameSet(Names(u.columns)));
    FindAdded(u.columns, d.missingColumns, c.name);
    var i :| 0 <= i < |d.missingColumns| && d.missingColumns[i] == c;
    MissingIsNoKey(spec, u.columns, c);
    assert !ColumnConforms(spec, c, w.columns);
    CompareEmpty(spec, spec.columns, w.columns);
  }
}
