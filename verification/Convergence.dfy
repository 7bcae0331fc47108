/**
  After one successful reconcile the table conforms to its spec and a second reconcile changes
  nothing, whichever branch ran. The one family of specs that escapes is named exactly.
*/
module Convergence {
  import opened Common
  import opened Schema
  import opened Engine
  import opened Reconcile

  // ── Appending columns ─────────────────────────────────────────────────────

  function AddedColumns(cs: seq<Column>): (r: seq<ColumnInfo>)
    ensures |r| == |cs|
  {
    seq(|cs|, i requires 0 <= i < |cs| => AddedColumn(cs[i]))
  }

  /** Agreement on every name that is not one of the ux_ indexes. */
  ghost predicate SameButUx(spec: TableSpec, a: seq<IndexInfo>, b: seq<IndexInfo>) {
    forall n {:trigger FindIndex(b, n)} ::
      (forall c :: c in spec.columns ==> n != UxName(spec, c)) ==> FindIndex(b, n) == FindIndex(a, n)
  }

  /** The columns go to the end in order, and only the ux_ indexes are new. */
  lemma {:induction false} AddAllShape(b: Backend, spec: TableSpec, t: Table, missing: seq<Column>)
    requires Distinct(SpecNames(missing))
    requires forall c :: c in missing ==> c.name !in Names(t.columns) && c in spec.columns
    requires AddAll(b, spec, t, missing).Done?
    ensures var u := AddAll(b, spec, t, missing).table;
            && u.columns == t.columns + AddedColumns(missing)
            && SameButUx(spec, t.indexes, u.indexes)
  {
    if missing == [] {
      assert t.columns + AddedColumns(missing) == t.columns;
    } else {
      var k := |missing| - 1;
      var before := AddAll(b, spec, t, missing[..k]).table;
      assert SpecNames(missing[..k]) == SpecNames(missing)[..k];
      AddAllShape(b, spec, t, missing[..k]);
      AbsentAfter(t.columns, missing, k);
      var c := missing[k];
      var u := AddColumn(before, c);
      assert u.columns == t.columns + AddedColumns(missing);
      if c.unique {
        var ux := IndexInfo(UxName(spec, c), [c.name], true);
        forall n ensures FindIndex(u.indexes + [ux], n)
                         == if n == ux.name then Some(ux) else FindIndex(u.indexes, n)
        {
          FindIndexAppend(u.indexes, ux, n);
        }
      }
    }
  }

  lemma AbsentAfter(cols: seq<ColumnInfo>, missing: seq<Column>, k: nat)
    requires k < |missing| && Distinct(SpecNames(missing))
    requires forall c :: c in missing ==> c.name !in Names(cols)
    ensures missing[k].name !in Names(cols + AddedColumns(missing[..k]))
  {
    var all := cols + AddedColumns(missing[..k]);
    forall i | 0 <= i < |all| ensures Names(all)[i] != missing[k].name {
      if i < |cols| {
        assert Names(cols)[i] == Names(all)[i];
        assert missing[k] in missing;
      } else {
        assert SpecNames(missing)[i - |cols|] != SpecNames(missing)[k];
      }
    }
  }

  // ── Reconciling indexes in place ──────────────────────────────────────────

  lemma DropOne(t: Table, ixs: seq<Index>, before: Table, ix: Index)
    requires DropIndex(before, ix.name).Done?
    requires DroppedFrom(t.indexes, ixs, before.indexes)
    ensures DroppedFrom(t.indexes, ixs + [ix], DropIndex(before, ix.name).table.indexes)
  {
    assert SpecIndexNames(ixs + [ix]) == SpecIndexNames(ixs) + [ix.name];
    forall n ensures FindIndex(RemoveIndex(before.indexes, ix.name), n)
                     == if n == ix.name then None else FindIndex(before.indexes, n)
    {
      FindIndexRemove(before.indexes, ix.name, n);
    }
  }

  /** The names of `ixs` are gone from `after`; the others are as in `before`. */
  ghost predicate DroppedFrom(before: seq<IndexInfo>, ixs: seq<Index>, after: seq<IndexInfo>) {
    forall n {:trigger FindIndex(after, n)} ::
      FindIndex(after, n) == if n in SpecIndexNames(ixs) then None else FindIndex(before, n)
  }

  lemma {:induction false} DropAllShape(t: Table, ixs: seq<Index>)
    requires DropAll(t, ixs).Done?
    ensures DropAll(t, ixs).table.columns == t.columns && DropAll(t, ixs).table.rows == t.rows
    ensures DroppedFrom(t.indexes, ixs, DropAll(t, ixs).table.indexes)
  {
    if ixs != [] {
      var init, ix := ixs[..|ixs| - 1], ixs[|ixs| - 1];
      assert ixs == init + [ix];
      DropAllShape(t, init);
      DropOne(t, init, DropAll(t, init).table, ix);
    }
  }

  /** Every index of `ixs` is in `after` as declared, and other names are as in `before`. */
  ghost predicate CreatedOver(before: seq<IndexInfo>, ixs: seq<Index>, after: seq<IndexInfo>) {
    && (forall ix :: ix in ixs ==> FindIndex(after, ix.name) == Some(AsInfo(ix)))
    && (forall n {:trigger FindIndex(after, n)} ::
          n !in SpecIndexNames(ixs) ==> FindIndex(after, n) == FindIndex(before, n))
  }

  lemma CreatedOneMore(before: seq<IndexInfo>, ixs: seq<Index>, after: seq<IndexInfo>, ix: Index)
    requires CreatedOver(before, ixs, after) && ix.name !in SpecIndexNames(ixs)
    ensures CreatedOver(before, ixs + [ix], after + [AsInfo(ix)])
  {
    assert SpecIndexNames(ixs + [ix]) == SpecIndexNames(ixs) + [ix.name];
    forall n ensures FindIndex(after + [AsInfo(ix)], n)
                     == if n == ix.name then Some(AsInfo(ix)) else FindIndex(after, n)
    {
      FindIndexAppend(after, AsInfo(ix), n);
    }
    forall i | 0 <= i < |ixs| ensures ixs[i].name != ix.name {
      assert SpecIndexNames(ixs)[i] == ixs[i].name;
    }
  }

  lemma LastIsNew(ixs: seq<Index>)
    requires ixs != [] && Distinct(SpecIndexNames(ixs))
    ensures Distinct(SpecIndexNames(ixs[..|ixs| - 1]))
    ensures ixs[|ixs| - 1].name !in SpecIndexNames(ixs[..|ixs| - 1])
  {
    var k := |ixs| - 1;
    assert SpecIndexNames(ixs[..k]) == SpecIndexNames(ixs)[..k];
    forall i | 0 <= i < k ensures SpecIndexNames(ixs[..k])[i] != ixs[k].name {
      assert SpecIndexNames(ixs)[i] != SpecIndexNames(ixs)[k];
    }
  }

  lemma CreateOne(tolerant: bool, t: Table, ixs: seq<Index>, before: Table, ix: Index)
    requires CreateIndex(tolerant, before, AsInfo(ix)).Done?
    requires before.columns == t.columns && before.rows == t.rows
    requires CreatedOver(t.indexes, ixs, before.indexes)
    requires ix.name !in SpecIndexNames(ixs) && FindIndex(t.indexes, ix.name).None?
    ensures var u := CreateIndex(tolerant, before, AsInfo(ix)).table;
            u.columns == t.columns && u.rows == t.rows && CreatedOver(t.indexes, ixs + [ix], u.indexes)
  {
    assert FindIndex(before.indexes, ix.name) == FindIndex(t.indexes, ix.name);
    CreatedOneMore(t.indexes, ixs, before.indexes, ix);
  }

  /** Every index created was absent, so after the run each is there as declared and the
      others are as they were. */
  lemma {:induction false} CreateAllShape(tolerant: bool, t: Table, ixs: seq<Index>)
    requires CreateAll(tolerant, t, ixs).Done?
    requires Distinct(SpecIndexNames(ixs))
    requires forall ix :: ix in ixs ==> FindIndex(t.indexes, ix.name).None?
    ensures CreateAll(tolerant, t, ixs).table.columns == t.columns
    ensures CreateAll(tolerant, t, ixs).table.rows == t.rows
    ensures CreatedOver(t.indexes, ixs, CreateAll(tolerant, t, ixs).table.indexes)
  {
    if ixs != [] {
      var k := |ixs| - 1;
      var init, ix := ixs[..k], ixs[k];
      assert ixs == init + [ix];
      LastIsNew(ixs);
      CreateAllShape(tolerant, t, init);
      CreateOne(tolerant, t, init, CreateAll(tolerant, t, init).table, ix);
    }
  }

  lemma DistinctConcat(a: seq<string>, b: seq<string>)
    requires Distinct(a) && Distinct(b) && forall n :: n in a ==> n !in b
    ensures Distinct(a + b)
  {
    var s := a + b;
    forall i, j | 0 <= i < j < |s| ensures s[i] != s[j] {
      if j < |a| {
        assert a[i] != a[j];
      } else if i >= |a| {
        assert b[i - |a|] != b[j - |a|];
      } else {
        assert a[i] in a && b[j - |a|] in b;
      }
    }
  }

  /** Missing and changed indexes have different names, since spec names are distinct. */
  lemma {:induction false} SubsetDistinct(all: seq<Index>, idx: seq<IndexInfo>)
    requires Distinct(SpecIndexNames(all))
    ensures Distinct(SpecIndexNames(MissingIndexes(all, idx) + ChangedIndexes(all, idx)))
  {
    var m, c := MissingIndexes(all, idx), ChangedIndexes(all, idx);
    MissingDistinct(all, idx);
    ChangedDistinct(all, idx);
    forall n | n in SpecIndexNames(m) ensures n !in SpecIndexNames(c) {
      NamedMissing(all, idx, n);
    }
    DistinctConcat(SpecIndexNames(m), SpecIndexNames(c));
    assert SpecIndexNames(m + c) == SpecIndexNames(m) + SpecIndexNames(c);
  }

  /** A missing name is not there, a changed one is. */
  lemma NamedMissing(all: seq<Index>, idx: seq<IndexInfo>, n: string)
    requires n in SpecIndexNames(MissingIndexes(all, idx))
    ensures n !in SpecIndexNames(ChangedIndexes(all, idx))
  {
    var m, c := MissingIndexes(all, idx), ChangedIndexes(all, idx);
    var i :| 0 <= i < |m| && SpecIndexNames(m)[i] == n;
    assert m[i] in m;
    forall j | 0 <= j < |c| ensures SpecIndexNames(c)[j] != n {
      assert c[j] in c;
    }
  }

  lemma {:induction false} MissingDistinct(all: seq<Index>, idx: seq<IndexInfo>)
    requires Distinct(SpecIndexNames(all))
    ensures Distinct(SpecIndexNames(MissingIndexes(all, idx)))
  {
    if all != [] {
      var k := |all| - 1;
      assert SpecIndexNames(all[..k]) == SpecIndexNames(all)[..k];
      MissingDistinct(all[..k], idx);
      var m := MissingIndexes(all[..k], idx);
      forall i | 0 <= i < |m| ensures m[i].name != all[k].name {
        assert m[i] in m;
        var q :| 0 <= q < k && all[q] == m[i];
        assert SpecIndexNames(all)[q] != SpecIndexNames(all)[k];
      }
      assert forall i :: 0 <= i < |m| ==> SpecIndexNames(m)[i] == m[i].name;
    }
  }

  lemma {:induction false} ChangedDistinct(all: seq<Index>, idx: seq<IndexInfo>)
    requires Distinct(SpecIndexNames(all))
    ensures Distinct(SpecIndexNames(ChangedIndexes(all, idx)))
  {
    if all != [] {
      var k := |all| - 1;
      assert SpecIndexNames(all[..k]) == SpecIndexNames(all)[..k];
      ChangedDistinct(all[..k], idx);
      var m := ChangedIndexes(all[..k], idx);
      forall i | 0 <= i < |m| ensures m[i].name != all[k].name {
        assert m[i] in m;
        var q :| 0 <= q < k && all[q] == m[i];
        assert SpecIndexNames(all)[q] != SpecIndexNames(all)[k];
      }
      assert forall i :: 0 <= i < |m| ==> SpecIndexNames(m)[i] == m[i].name;
    }
  }

  /** After the drops, none of the indexes about to be created is there. */
  lemma ReadyToCreate(spec: TableSpec, t: Table, u: Table, m: seq<Index>, c: seq<Index>)
    requires WellFormed(spec) && SameButUx(spec, t.indexes, u.indexes)
    requires m == MissingIndexes(spec.indexes, t.indexes) && c == ChangedIndexes(spec.indexes, t.indexes)
    requires DropAll(u, c).Done?
    ensures forall ix :: ix in m + c ==> FindIndex(DropAll(u, c).table.indexes, ix.name).None?
  {
    var v := DropAll(u, c).table;
    DropAllShape(u, c);
    forall ix: Index | ix in m + c ensures FindIndex(v.indexes, ix.name).None? {
      if ix in c {
        var i :| 0 <= i < |c| && c[i] == ix;
        assert SpecIndexNames(c)[i] == ix.name;
      } else {
        assert ix in m;
        assert FindIndex(u.indexes, ix.name) == FindIndex(t.indexes, ix.name);
      }
    }
  }

  /** A declared index that was right before the repair is neither dropped nor replaced. */
  lemma UntouchedIndex(spec: TableSpec, t: Table, u: Table, m: seq<Index>, c: seq<Index>, tolerant: bool, ix: Index)
    requires WellFormed(spec) && SameButUx(spec, t.indexes, u.indexes)
    requires m == MissingIndexes(spec.indexes, t.indexes) && c == ChangedIndexes(spec.indexes, t.indexes)
    requires DropAll(u, c).Done? && CreateAll(tolerant, DropAll(u, c).table, m + c).Done?
    requires Distinct(SpecIndexNames(m + c))
    requires forall ix :: ix in m + c ==> FindIndex(DropAll(u, c).table.indexes, ix.name).None?
    requires ix in spec.indexes && ix !in m && ix !in c
    ensures IndexConforms(ix, CreateAll(tolerant, DropAll(u, c).table, m + c).table.indexes)
  {
    var v := DropAll(u, c).table;
    DropAllShape(u, c);
    CreateAllShape(tolerant, v, m + c);
    var w := CreateAll(tolerant, v, m + c).table;
    NotRepaired(spec, ix, m + c);
    NotRepaired(spec, ix, c);
    assert FindIndex(w.indexes, ix.name) == FindIndex(v.indexes, ix.name);
    assert FindIndex(v.indexes, ix.name) == FindIndex(u.indexes, ix.name);
    assert FindIndex(u.indexes, ix.name) == FindIndex(t.indexes, ix.name);
  }

  /** What the index half of an in-place repair ends with. */
  lemma AppendedIndexes(spec: TableSpec, t: Table, u: Table, m: seq<Index>, c: seq<Index>, tolerant: bool)
    requires WellFormed(spec) && SameButUx(spec, t.indexes, u.indexes)
    requires m == MissingIndexes(spec.indexes, t.indexes) && c == ChangedIndexes(spec.indexes, t.indexes)
    requires DropAll(u, c).Done? && CreateAll(tolerant, DropAll(u, c).table, m + c).Done?
    ensures var w := CreateAll(tolerant, DropAll(u, c).table, m + c).table;
            w.columns == u.columns && w.rows == u.rows
            && forall ix :: ix in spec.indexes ==> IndexConforms(ix, w.indexes)
  {
    var v := DropAll(u, c).table;
    DropAllShape(u, c);
    SubsetDistinct(spec.indexes, t.indexes);
    ReadyToCreate(spec, t, u, m, c);
    CreateAllShape(tolerant, v, m + c);
    var w := CreateAll(tolerant, v, m + c).table;
    forall ix | ix in spec.indexes ensures IndexConforms(ix, w.indexes) {
      if ix in m || ix in c {
        assert ix in m + c;
      } else {
        UntouchedIndex(spec, t, u, m, c, tolerant, ix);
      }
    }
  }

  /** A declared index outside `some` shares no name with those in it. */
  lemma NotRepaired(spec: TableSpec, ix: Index, some: seq<Index>)
    requires WellFormed(spec) && ix in spec.indexes && ix !in some
    requires forall s :: s in some ==> s in spec.indexes
    ensures ix.name !in SpecIndexNames(some)
  {
    var names := SpecIndexNames(spec.indexes);
    forall i | 0 <= i < |some| ensures some[i].name != ix.name {
      assert some[i] in some;
      var p :| 0 <= p < |spec.indexes| && spec.indexes[p] == some[i];
      var q :| 0 <= q < |spec.indexes| && spec.indexes[q] == ix;
      assert p != q;
      assert names[p] != names[q];
    }
  }

  // ── The append branch ─────────────────────────────────────────────────────

  lemma PrefixNotBroken(names: seq<string>, have: set<string>, k: nat)
    requires k < |names| && !MissingBeforePresent(names, have)
    ensures !MissingBeforePresent(names[..k], have)
    ensures names[k] in have ==> forall n :: n in names[..k] ==> n in have
  {
    forall i | 0 <= i < k && names[k] in have ensures names[i] in have {
      if names[i] !in have {
        assert MissingBeforePresent(names, have);
      }
    }
  }

  lemma {:induction false} NoneMissing(cs: seq<Column>, have: set<string>)
    requires forall n :: n in SpecNames(cs) ==> n in have
    ensures MissingColumns(cs, have) == []
  {
    forall i | 0 <= i < |cs| ensures cs[i].name in have {
      assert SpecNames(cs)[i] in have;
    }
    if cs != [] {
      var k := |cs| - 1;
      forall i | 0 <= i < k ensures SpecNames(cs[..k])[i] in have {
        assert cs[..k][i] == cs[i];
      }
      NoneMissing(cs[..k], have);
    }
  }

  /** With nothing missing in the middle, the spec is its present columns followed by its
      missing ones. */
  lemma {:induction false} TrailingSplit(cs: seq<Column>, have: set<string>)
    requires !MissingBeforePresent(SpecNames(cs), have)
    ensures SpecNames(cs) == FilterIn(SpecNames(cs), have) + SpecNames(MissingColumns(cs, have))
  {
    if cs != [] {
      var k := |cs| - 1;
      var init, c := cs[..k], cs[k];
      SpecNamesLast(cs);
      PrefixNotBroken(SpecNames(cs), have, k);
      TrailingSplit(init, have);
      if c.name in have {
        FilterInAll(SpecNames(cs), have);
        NoneMissing(cs, have);
      } else {
        SpecNamesLast(MissingColumns(init, have) + [c]);
        SplitOneMore(SpecNames(init), c.name, have, MissingColumns(init, have), c);
      }
    }
  }

  lemma FilterInSkip(names: seq<string>, n: string, have: set<string>)
    requires n !in have
    ensures FilterIn(names + [n], have) == FilterIn(names, have)
  {
    assert (names + [n])[..|names|] == names;
  }

  lemma SpecNamesMore(cs: seq<Column>, c: Column)
    ensures SpecNames(cs + [c]) == SpecNames(cs) + [c.name]
  {
  }

  lemma SplitOneMore(names: seq<string>, n: string, have: set<string>, m: seq<Column>, c: Column)
    requires names == FilterIn(names, have) + SpecNames(m) && n !in have && c.name == n
    ensures names + [n] == FilterIn(names + [n], have) + SpecNames(m + [c])
  {
    FilterInSkip(names, n, have);
    SpecNamesMore(m, c);
    Regroup(FilterIn(names, have), SpecNames(m), [n]);
  }

  lemma SpecNamesLast(cs: seq<Column>)
    requires cs != []
    ensures SpecNames(cs) == SpecNames(cs[..|cs| - 1]) + [cs[|cs| - 1].name]
    ensures SpecNames(cs)[..|cs| - 1] == SpecNames(cs[..|cs| - 1])
  {
  }

  lemma {:induction false} MissingColumnsDistinct(cs: seq<Column>, have: set<string>)
    requires Distinct(SpecNames(cs))
    ensures Distinct(SpecNames(MissingColumns(cs, have)))
  {
    if cs != [] {
      var k := |cs| - 1;
      assert SpecNames(cs[..k]) == SpecNames(cs)[..k];
      MissingColumnsDistinct(cs[..k], have);
      var m := MissingColumns(cs[..k], have);
      forall i | 0 <= i < |m| ensures m[i].name != cs[k].name {
        assert m[i] in m;
        var q :| 0 <= q < k && cs[q] == m[i];
        assert SpecNames(cs)[q] != SpecNames(cs)[k];
      }
      assert forall i :: 0 <= i < |m| ==> SpecNames(m)[i] == m[i].name;
    }
  }

  lemma ActualPkPresent(cols: seq<ColumnInfo>)
    ensures forall n :: n in ActualPk(cols) ==> n in Names(cols)
  {
    forall a | a in cols ensures a.name in Names(cols) {
      var i :| 0 <= i < |cols| && cols[i] == a;
      assert Names(cols)[i] == a.name;
    }
  }

  /** When the key already matches, no missing column is part of it. */
  lemma MissingIsNoKey(spec: TableSpec, cols: seq<ColumnInfo>, c: Column)
    requires WellFormed(spec) && PkColumns(spec) == ActualPk(cols)
    requires c in spec.columns && c.name !in Names(cols)
    ensures !KeyColumn(spec, c)
  {
    ActualPkPresent(cols);
  }

  lemma FindAdded(cols: seq<ColumnInfo>, missing: seq<Column>, n: string)
    requires Distinct(SpecNames(missing))
    ensures n !in SpecNames(missing) ==> Find(cols + AddedColumns(missing), n) == Find(cols, n)
    ensures forall i :: 0 <= i < |missing| && missing[i].name == n
              ==> Find(cols + AddedColumns(missing), n) == Some(AddedColumn(missing[i]))
  {
    var added := AddedColumns(missing);
    FindAppend(cols, added, n);
    assert Names(added) == SpecNames(missing);
    forall i | 0 <= i < |missing| && missing[i].name == n
      ensures Find(added, n) == Some(AddedColumn(missing[i]))
    {
      FindDistinct(added, i);
    }
  }

  lemma MissingDeclared(cs: seq<Column>, have: set<string>)
    ensures forall n :: n in SpecNames(MissingColumns(cs, have)) ==> n in SpecNames(cs)
  {
    var missing := MissingColumns(cs, have);
    forall i | 0 <= i < |missing| ensures missing[i].name in SpecNames(cs) {
      assert missing[i] in missing;
      var q :| 0 <= q < |cs| && cs[q] == missing[i];
      assert SpecNames(cs)[q] == missing[i].name;
    }
  }

  lemma AddedNames(cols: seq<ColumnInfo>, missing: seq<Column>)
    ensures Names(cols + AddedColumns(missing)) == Names(cols) + SpecNames(missing)
  {
  }

  /** The order of the appended table is the spec's. */
  lemma AppendedOrder(spec: TableSpec, t: Table, missing: seq<Column>)
    requires missing == MissingColumns(spec.columns, NameSet(Names(t.columns)))
    requires !Diff(spec, t.columns, t.indexes).orderWrong
    requires !Diff(spec, t.columns, t.indexes).missingNotTrailing
    ensures FilterIn(Names(t.columns + AddedColumns(missing)), NameSet(SpecNames(spec.columns)))
            == SpecNames(spec.columns)
  {
    var declared := NameSet(SpecNames(spec.columns));
    AddedNames(t.columns, missing);
    FilterInConcat(Names(t.columns), SpecNames(missing), declared);
    MissingDeclared(spec.columns, NameSet(Names(t.columns)));
    FilterInAll(SpecNames(missing), declared);
    TrailingSplit(spec.columns, NameSet(Names(t.columns)));
  }

  lemma AppendedPk(cols: seq<ColumnInfo>, missing: seq<Column>)
    ensures ActualPk(cols + AddedColumns(missing)) == ActualPk(cols)
  {
    var added := AddedColumns(missing);
    assert forall c :: c in cols + added <==> c in cols || c in added;
    assert forall c :: c in added ==> !c.pk;
  }

  /** A present column keeps what made it match; an added one matches unless it was NOT NULL
      without a default, which was added nullable. */
  lemma AppendedColumnConforms(spec: TableSpec, t: Table, missing: seq<Column>, c: Column)
    requires WellFormed(spec) && c in spec.columns
    requires missing == MissingColumns(spec.columns, NameSet(Names(t.columns)))
    requires !Diff(spec, t.columns, t.indexes).NeedsRebuild()
    ensures ColumnConforms(spec, c, t.columns + AddedColumns(missing))
            <==> (c in missing ==> c.nullable || c.default.Some?)
  {
    MissingColumnsDistinct(spec.columns, NameSet(Names(t.columns)));
    FindAdded(t.columns, missing, c.name);
    if c in missing {
      var i :| 0 <= i < |missing| && missing[i] == c;
      MissingIsNoKey(spec, t.columns, c);
    } else {
      assert c.name in Names(t.columns);
      forall i | 0 <= i < |missing| ensures SpecNames(missing)[i] != c.name {
        assert missing[i] in missing;
      }
      CompareEmpty(spec, spec.columns, t.columns);
    }
  }

  lemma AppendedColumnsConform(spec: TableSpec, t: Table, cols: seq<ColumnInfo>, missing: seq<Column>)
    requires WellFormed(spec) && missing == MissingColumns(spec.columns, NameSet(Names(t.columns)))
    requires cols == t.columns + AddedColumns(missing) && !Diff(spec, t.columns, t.indexes).NeedsRebuild()
    ensures (forall c :: c in spec.columns ==> ColumnConforms(spec, c, cols))
            <==> forall c :: c in missing ==> c.nullable || c.default.Some?
  {
    forall c | c in spec.columns
      ensures ColumnConforms(spec, c, cols) <==> (c in missing ==> c.nullable || c.default.Some?)
    {
      AppendedColumnConforms(spec, t, missing, c);
    }
  }

  /** The append branch converges exactly when no missing column is NOT NULL without a
      default. */
  lemma AppendConverges(b: Backend, spec: TableSpec, t: Table)
    requires WellFormed(spec)
    requires !Diff(spec, t.columns, t.indexes).NeedsRebuild()
    requires Appended(b, spec, Diff(spec, t.columns, t.indexes), t).Done?
    ensures var d := Diff(spec, t.columns, t.indexes);
            var w := Appended(b, spec, d, t).table;
            Conforms(spec, w.columns, w.indexes)
            <==> forall c :: c in d.missingColumns ==> c.nullable || c.default.Some?
  {
    var d := Diff(spec, t.columns, t.indexes);
    var missing := d.missingColumns;
    MissingColumnsDistinct(spec.columns, NameSet(Names(t.columns)));
    AddAllShape(b, spec, t, missing);
    var u := AddAll(b, spec, t, missing).table;
    AppendedIndexes(spec, t, u, d.missingIndexes, d.changedIndexes, b.tolerant);
    AppendedOrder(spec, t, missing);
    AppendedPk(t.columns, missing);
    AppendedColumnsConform(spec, t, u.columns, missing);
  }

  // ── The create and rebuild branches ───────────────────────────────────────

  lemma CreatedNames(spec: TableSpec, extras: seq<ColumnInfo>)
    ensures Names(CreatedColumns(spec, extras)) == SpecNames(spec.columns) + Names(extras)
  {
  }

  lemma CreatedFind(spec: TableSpec, extras: seq<ColumnInfo>, i: nat)
    requires Distinct(SpecNames(spec.columns)) && i < |spec.columns|
    requires forall e :: e in extras ==> e.name !in SpecNames(spec.columns)
    ensures Find(CreatedColumns(spec, extras), spec.columns[i].name)
            == Some(CreatedColumn(spec, spec.columns[i]))
  {
    var front := CreatedColumns(spec, []);
    var back := seq(|extras|, i requires 0 <= i < |extras| => extras[i].(pk := false));
    assert CreatedColumns(spec, extras) == front + back;
    assert Names(front) == SpecNames(spec.columns);
    FindAppend(front, back, spec.columns[i].name);
    FindDistinct(front, i);
    forall k | 0 <= k < |back| ensures Names(back)[k] != spec.columns[i].name {
      assert extras[k] in extras && SpecNames(spec.columns)[i] == spec.columns[i].name;
    }
  }

  lemma CreatedPk(spec: TableSpec, extras: seq<ColumnInfo>)
    requires WellFormed(spec) && CreateAccepted(spec, extras)
    ensures ActualPk(CreatedColumns(spec, extras)) == PkColumns(spec)
  {
    var cols := CreatedColumns(spec, extras);
    forall c | c in cols && c.pk ensures c.name in PkColumns(spec) {
      var i :| 0 <= i < |cols| && cols[i] == c;
      assert i < |spec.columns|;
      assert spec.columns[i] in spec.columns;
    }
    forall n | n in PkColumns(spec) ensures n in ActualPk(cols) {
      var i :| 0 <= i < |spec.columns| && SpecNames(spec.columns)[i] == n
               && (InlineKey(spec.columns[i]) || n in spec.compositePk);
      assert cols[i] in cols && cols[i].pk && cols[i].name == n;
    }
  }

  /** A table the engine created from the spec has the declared columns as declared. */
  lemma CreatedConforms(spec: TableSpec, extras: seq<ColumnInfo>)
    requires WellFormed(spec) && CreateAccepted(spec, extras)
    requires forall e :: e in extras ==> e.name !in SpecNames(spec.columns)
    ensures var cols := CreatedColumns(spec, extras);
            && (forall c :: c in spec.columns ==> ColumnConforms(spec, c, cols))
            && ActualPk(cols) == PkColumns(spec)
            && FilterIn(Names(cols), NameSet(SpecNames(spec.columns))) == SpecNames(spec.columns)
  {
    var cols := CreatedColumns(spec, extras);
    forall c | c in spec.columns ensures ColumnConforms(spec, c, cols) {
      var i :| 0 <= i < |spec.columns| && spec.columns[i] == c;
      CreatedFind(spec, extras, i);
    }
    CreatedPk(spec, extras);
    var declared := NameSet(SpecNames(spec.columns));
    CreatedNames(spec, extras);
    FilterInConcat(SpecNames(spec.columns), Names(extras), declared);
    FilterInAll(SpecNames(spec.columns), declared);
    forall i | 0 <= i < |extras| ensures Names(extras)[i] !in declared {
      assert extras[i] in extras;
    }
    FilterInNone(Names(extras), declared);
  }

  /** Carrying undeclared indexes over changes nothing a spec index is compared with. */
  lemma {:induction false} RestoreExtrasShape(b: Backend, spec: TableSpec, t: Table, infos: seq<IndexInfo>)
    ensures var u := RestoreExtras(b, spec, t, infos);
            && u.columns == t.columns && u.rows == t.rows
            && forall ix :: ix in spec.indexes
                 ==> FindIndex(u.indexes, ix.name) == FindIndex(t.indexes, ix.name)
  {
    if infos != [] {
      var k := |infos| - 1;
      RestoreExtrasShape(b, spec, t, infos[..k]);
      var u := RestoreExtras(b, spec, t, infos[..k]);
      if CarriedOver(spec, infos[k]) {
        forall ix | ix in spec.indexes
          ensures FindIndex(u.indexes + [infos[k]], ix.name) == FindIndex(u.indexes, ix.name)
        {
          FindIndexAppend(u.indexes, infos[k], ix.name);
        }
      }
    }
  }

  lemma AllIndexesConform(spec: TableSpec, tolerant: bool, t: Table)
    requires WellFormed(spec) && t.indexes == [] && CreateAll(tolerant, t, spec.indexes).Done?
    ensures var u := CreateAll(tolerant, t, spec.indexes).table;
            && u.columns == t.columns && u.rows == t.rows
            && forall ix :: ix in spec.indexes ==> IndexConforms(ix, u.indexes)
  {
    CreateAllShape(tolerant, t, spec.indexes);
  }

  lemma RebuildConverges(b: Backend, spec: TableSpec, t: Table)
    requires WellFormed(spec) && Rebuilt(b, spec, t).Done?
    ensures Conforms(spec, Rebuilt(b, spec, t).table.columns, Rebuilt(b, spec, t).table.indexes)
  {
    var extras := ExtraColumns(t.columns, NameSet(SpecNames(spec.columns)));
    CreatedConforms(spec, extras);
    var u := CreateAll(false, Copied(spec, t), spec.indexes).table;
    AllIndexesConform(spec, false, Copied(spec, t));
    RestoreExtrasShape(b, spec, u, t.indexes);
  }

  lemma CreateConverges(b: Backend, spec: TableSpec)
    requires WellFormed(spec) && Created(b, spec).Some? && Created(b, spec).value.Done?
    ensures var u := Created(b, spec).value.table; Conforms(spec, u.columns, u.indexes)
  {
    CreatedConforms(spec, []);
    AllIndexesConform(spec, b.tolerant, Table(CreatedColumns(spec, []), [], []));
  }

  // ── The theorems ──────────────────────────────────────────────────────────

  /** What the diff of a reconcile is computed on, when it gets that far. */
  function Before(b: Backend, spec: TableSpec, table: Option<Table>): Option<Table> {
    match table
    case None => None
    case Some(t) => match Prepared(b, spec, t) case Done(u) => Some(u) case Failed(_) => None
  }

  /** The specs that escape: a NOT NULL column without a default, missing at the end of a table
      that needs no rebuild, is added nullable. */
  predicate AddsUntightened(b: Backend, spec: TableSpec, table: Option<Table>) {
    var before := Before(b, spec, table);
    before.Some?
    && var d := Diff(spec, before.value.columns, before.value.indexes);
       !d.NeedsRebuild() && exists c :: c in d.missingColumns && !c.nullable && c.default.None?
  }

  /** After a reconcile that returned, the diff against the spec is empty, in all three
      branches, except exactly for those specs. */
  lemma ReconcileConverges(b: Backend, spec: TableSpec, table: Option<Table>)
    requires WellFormed(spec) && ReconcileTable(b, spec, table).ok
    ensures var r := ReconcileTable(b, spec, table).table;
            r.Some? && (Diff(spec, r.value.columns, r.value.indexes).IsEmpty()
                        <==> !AddsUntightened(b, spec, table))
  {
    var r := ReconcileTable(b, spec, table).table.value;
    DiffEmptyIffConforms(spec, r.columns, r.indexes);
    if table.None? {
      CreateConverges(b, spec);
    } else {
      var u := Prepared(b, spec, table.value).table;
      var d := Diff(spec, u.columns, u.indexes);
      DiffEmptyIffConforms(spec, u.columns, u.indexes);
      if d.IsEmpty() {
        assert d.missingColumns == [];
      } else if d.NeedsRebuild() {
        RebuildConverges(b, spec, u);
      } else {
        AppendConverges(b, spec, u);
      }
    }
  }
}
