/**
  What a reconcile does to the rows: none is lost, no value of a column that stays is changed
  except a NULL the new constraint forbids, and the two repair paths agree where both apply.
*/
module DataKept {
  import opened Common
  import opened Schema
  import opened Engine
  import opened Reconcile
  import Convergence

  // ── Rows through the append path ──────────────────────────────────────────

  /** What one existing row becomes when the missing columns are appended. */
  function AppendedRow(r: Row, missing: seq<Column>): Row {
    if missing == [] then r
    else AppendedRow(r, missing[..|missing| - 1])[missing[|missing| - 1].name :=
           DefaultValue(missing[|missing| - 1].default)]
  }

  function AppendedRows(rows: seq<Row>, missing: seq<Column>): (r: seq<Row>)
    ensures |r| == |rows|
  {
    seq(|rows|, i requires 0 <= i < |rows| => AppendedRow(rows[i], missing))
  }

  lemma AddColumnRows(t: Table, rows: seq<Row>, missing: seq<Column>, c: Column)
    requires t.rows == AppendedRows(rows, missing) && c.name !in Names(t.columns)
    ensures AddColumn(t, c).rows == AppendedRows(rows, missing + [c])
  {
    assert (missing + [c])[..|missing|] == missing;
  }

  lemma {:induction false} AddAllRows(b: Backend, spec: TableSpec, t: Table, missing: seq<Column>)
    requires Distinct(SpecNames(missing))
    requires forall c :: c in missing ==> c.name !in Names(t.columns) && c in spec.columns
    requires AddAll(b, spec, t, missing).Done?
    ensures AddAll(b, spec, t, missing).table.rows == AppendedRows(t.rows, missing)
  {
    if missing != [] {
      var k := |missing| - 1;
      var init, c := missing[..k], missing[k];
      assert missing == init + [c];
      assert SpecNames(init) == SpecNames(missing)[..k];
      AddAllRows(b, spec, t, init);
      Convergence.AddAllShape(b, spec, t, init);
      Convergence.AbsentAfter(t.columns, missing, k);
      AddColumnRows(AddAll(b, spec, t, init).table, t.rows, init, c);
    }
  }

  /** The appended row, cell by cell. */
  lemma {:induction false} AppendedCells(r: Row, missing: seq<Column>)
    requires Distinct(SpecNames(missing))
    requires forall c :: c in missing ==> c.name !in r
    ensures AppendedRow(r, missing).Keys == r.Keys + NameSet(SpecNames(missing))
    ensures forall n :: n in r ==> AppendedRow(r, missing)[n] == r[n]
    ensures forall c :: c in missing ==>
              c.name in AppendedRow(r, missing) && AppendedRow(r, missing)[c.name] == DefaultValue(c.default)
  {
    if missing != [] {
      var k := |missing| - 1;
      var init, c := missing[..k], missing[k];
      assert missing == init + [c];
      assert SpecNames(missing) == SpecNames(init) + [c.name];
      forall i | 0 <= i < k ensures init[i].name != c.name {
        assert SpecNames(missing)[i] != SpecNames(missing)[k];
      }
      forall i, j | 0 <= i < j < k ensures SpecNames(init)[i] != SpecNames(init)[j] {
        assert SpecNames(missing)[i] != SpecNames(missing)[j];
      }
      AppendedCells(r, init);
      assert c in missing;
    }
  }

  /** An in-place repair leaves exactly the appended rows. */
  lemma AppendRows(b: Backend, spec: TableSpec, t: Table)
    requires WellFormed(spec)
    requires Appended(b, spec, Diff(spec, t.columns, t.indexes), t).Done?
    ensures var d := Diff(spec, t.columns, t.indexes);
            && Appended(b, spec, d, t).table.rows == AppendedRows(t.rows, d.missingColumns)
            && Appended(b, spec, d, t).table.columns
               == t.columns + Convergence.AddedColumns(d.missingColumns)
  {
    var d := Diff(spec, t.columns, t.indexes);
    var missing := d.missingColumns;
    Convergence.MissingColumnsDistinct(spec.columns, NameSet(Names(t.columns)));
    Convergence.AddAllShape(b, spec, t, missing);
    AddAllRows(b, spec, t, missing);
    var u := AddAll(b, spec, t, missing).table;
    Convergence.AppendedIndexes(spec, t, u, d.missingIndexes, d.changedIndexes, b.tolerant);
  }

  // ── One data specification for both paths ─────────────────────────────────

  /** `after` is the row `before` carried to the spec: every old value is there, a forbidden
      NULL replaced by the default; a column that was not there has its default or a
      generated id; nothing else is in it. */
  ghost predicate CarriedRow(spec: TableSpec, before: Row, after: Row) {
    && after.Keys == before.Keys + NameSet(SpecNames(spec.columns))
    && (forall n {:trigger after[n]} :: n in before ==>
          || after[n] == before[n]
          || (before[n] == Null
              && exists c :: c in spec.columns && c.name == n && !c.nullable && c.default.Some?
                             && after[n] == Lit(c.default.value)))
    && (forall c :: c in spec.columns && c.name !in before ==>
          c.name in after
          && (after[c.name] == DefaultValue(c.default)
              || (c.ctype == Autoincrement && after[c.name].Id?)))
  }

  lemma {:induction false} FindColumnDistinct(cs: seq<Column>, i: nat)
    requires i < |cs| && Distinct(SpecNames(cs))
    ensures FindColumn(cs, cs[i].name) == Some(cs[i])
    decreases |cs|
  {
    if i < |cs| - 1 {
      assert SpecNames(cs)[i] != SpecNames(cs)[|cs| - 1];
      assert SpecNames(cs[..|cs| - 1]) == SpecNames(cs)[..|cs| - 1];
      FindColumnDistinct(cs[..|cs| - 1], i);
    }
  }

  lemma CopiedRowCarried(spec: TableSpec, t: Table, i: nat)
    requires WellFormed(spec) && ValidTable(t) && i < |t.rows|
    ensures CarriedRow(spec, t.rows[i], CopiedRow(spec, t.columns, t.rows[i], i))
  {
    var r := t.rows[i];
    assert RowFits(r, t.columns);
    var after := CopiedRow(spec, t.columns, r, i);
    forall c | c in spec.columns && c.name !in r
      ensures c.name in after
      ensures after[c.name] == DefaultValue(c.default)
              || (c.ctype == Autoincrement && after[c.name].Id?)
    {
      var k :| 0 <= k < |spec.columns| && spec.columns[k] == c;
      FindColumnDistinct(spec.columns, k);
      assert SpecNames(spec.columns)[k] == c.name;
    }
  }

  /** The columns both sides have agree in type, nullability and default, and so does the key. */
  ghost predicate AttributesMatch(spec: TableSpec, cols: seq<ColumnInfo>) {
    PkColumns(spec) == ActualPk(cols) && Compare(spec, spec.columns, cols) == Mismatches([], [], [])
  }

  /** Where nothing needs a rebuild, appending and rebuilding give the same rows. */
  lemma PathsAgree(spec: TableSpec, t: Table)
    requires WellFormed(spec) && ValidTable(t) && t.columns != []
    requires !Diff(spec, t.columns, t.indexes).NeedsRebuild()
    ensures AppendedRows(t.rows, Diff(spec, t.columns, t.indexes).missingColumns) == Copied(spec, t).rows
  {
    var missing := MissingColumns(spec.columns, NameSet(Names(t.columns)));
    forall i | 0 <= i < |t.rows|
      ensures AppendedRow(t.rows[i], missing) == CopiedRow(spec, t.columns, t.rows[i], i)
    {
      assert RowFits(t.rows[i], t.columns);
      RowPathsAgree(spec, t.columns, t.rows[i], i, missing);
    }
  }

  lemma SpecNameIn(cs: seq<Column>, c: Column)
    requires c in cs
    ensures c.name in SpecNames(cs)
  {
    var k :| 0 <= k < |cs| && cs[k] == c;
    assert SpecNames(cs)[k] == c.name;
  }

  /** Both paths end with the same columns. */
  lemma SameDomain(cs: seq<Column>, missing: seq<Column>, have: set<string>)
    requires missing == MissingColumns(cs, have)
    ensures have + NameSet(SpecNames(missing)) == NameSet(SpecNames(cs)) + have
  {
    Convergence.MissingDeclared(cs, have);
    forall k | 0 <= k < |cs| && cs[k].name !in have ensures cs[k].name in SpecNames(missing) {
      SpecNameIn(missing, cs[k]);
    }
    assert forall k :: 0 <= k < |cs| ==> SpecNames(cs)[k] == cs[k].name;
  }

  /** In a valid table whose attributes match the spec no COALESCE of the copy fires. */
  lemma OldCellKept(spec: TableSpec, cols: seq<ColumnInfo>, r: Row, n: string, i: nat)
    requires WellFormed(spec) && AttributesMatch(spec, cols) && RowFits(r, cols) && n in r
    ensures CopiedValue(spec, cols, r, n, i) == r[n]
  {
    var c := FindColumn(spec.columns, n);
    if c.Some? && !c.value.nullable {
      CompareEmpty(spec, spec.columns, cols);
      assert ColumnConforms(spec, c.value, cols);
      var a := Find(cols, n).value;
      if KeyColumn(spec, c.value) {
        assert n in ActualPk(cols);
      } else {
        assert !a.nullable;
      }
    }
  }

  /** A missing column is no key, so the copy gives it its default too. */
  lemma NewCellDefault(spec: TableSpec, cols: seq<ColumnInfo>, r: Row, c: Column, i: nat)
    requires WellFormed(spec) && AttributesMatch(spec, cols)
    requires c in MissingColumns(spec.columns, NameSet(Names(cols)))
    ensures CopiedValue(spec, cols, r, c.name, i) == DefaultValue(c.default)
  {
    var q :| 0 <= q < |spec.columns| && spec.columns[q] == c;
    FindColumnDistinct(spec.columns, q);
    Convergence.MissingIsNoKey(spec, cols, c);
  }

  lemma CellAgrees(spec: TableSpec, cols: seq<ColumnInfo>, r: Row, i: nat, missing: seq<Column>, n: string)
    requires WellFormed(spec) && AttributesMatch(spec, cols) && RowFits(r, cols)
    requires missing == MissingColumns(spec.columns, NameSet(Names(cols)))
    requires n in r || n in SpecNames(missing)
    ensures n in AppendedRow(r, missing)
    ensures AppendedRow(r, missing)[n] == CopiedValue(spec, cols, r, n, i)
  {
    Convergence.MissingColumnsDistinct(spec.columns, NameSet(Names(cols)));
    AppendedCells(r, missing);
    if n in r {
      OldCellKept(spec, cols, r, n, i);
    } else {
      var k :| 0 <= k < |missing| && SpecNames(missing)[k] == n;
      NewCellDefault(spec, cols, r, missing[k], i);
    }
  }

  lemma AppendedKeys(spec: TableSpec, cols: seq<ColumnInfo>, r: Row, missing: seq<Column>)
    requires WellFormed(spec) && RowFits(r, cols)
    requires missing == MissingColumns(spec.columns, NameSet(Names(cols)))
    ensures AppendedRow(r, missing).Keys == NameSet(SpecNames(spec.columns)) + NameSet(Names(cols))
    ensures AppendedRow(r, missing).Keys == r.Keys + NameSet(SpecNames(missing))
  {
    Convergence.MissingColumnsDistinct(spec.columns, NameSet(Names(cols)));
    AppendedCells(r, missing);
    SameDomain(spec.columns, missing, NameSet(Names(cols)));
  }

  lemma RowPathsAgree(spec: TableSpec, cols: seq<ColumnInfo>, r: Row, i: nat, missing: seq<Column>)
    requires WellFormed(spec) && AttributesMatch(spec, cols) && RowFits(r, cols)
    requires missing == MissingColumns(spec.columns, NameSet(Names(cols)))
    ensures AppendedRow(r, missing) == CopiedRow(spec, cols, r, i)
  {
    var a, c := AppendedRow(r, missing), CopiedRow(spec, cols, r, i);
    AppendedKeys(spec, cols, r, missing);
    assert a.Keys == c.Keys;
    forall n | n in a.Keys ensures a[n] == c[n] {
      CellAgrees(spec, cols, r, i, missing, n);
    }
  }

  /** Every row survives a repair, in place or by rebuild, carried as the data specification
      says. */
  lemma RepairCarriesRows(b: Backend, spec: TableSpec, t: Table)
    requires WellFormed(spec) && ValidTable(t) && t.columns != []
    requires Repaired(b, spec, t).Done?
    requires !Diff(spec, t.columns, t.indexes).IsEmpty()
    ensures var w := Repaired(b, spec, t).table;
            |w.rows| == |t.rows|
            && forall i :: 0 <= i < |t.rows| ==> CarriedRow(spec, t.rows[i], w.rows[i])
  {
    var d := Diff(spec, t.columns, t.indexes);
    if d.NeedsRebuild() {
      var u := CreateAll(false, Copied(spec, t), spec.indexes).table;
      Convergence.AllIndexesConform(spec, false, Copied(spec, t));
      Convergence.RestoreExtrasShape(b, spec, u, t.indexes);
    } else {
      AppendRows(b, spec, t);
      PathsAgree(spec, t);
    }
    forall i | 0 <= i < |t.rows|
      ensures CarriedRow(spec, t.rows[i], CopiedRow(spec, t.columns, t.rows[i], i))
    {
      CopiedRowCarried(spec, t, i);
    }
  }
}
