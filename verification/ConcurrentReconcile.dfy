/**
  Any number of processes reconciling one table at the same time, without the advisory lock.

  The drift is append-only: columns missing at the end, indexes missing, nothing changed. Every
  process reads the columns and then the indexes when it likes, and checks and alters in separate
  statements that interleave with the others' in any order.
*/
module ConcurrentReconcile {
  import opened Common
  import opened Schema
  import opened Engine
  import opened Reconcile
  import opened Convergence
  import opened DataKept
  import opened SchemaConnector

  /** Where a process is with the first of its columns: about to look whether it is there,
      about to ALTER because it was not, or about to create its unique index. */
  datatype Phase = Check | Alter | Ux

  /** `OutOfPlace` is a process whose diff asks for more than appending. */
  datatype Process =
    | Waiting
    | Reading(seen: seq<ColumnInfo>)
    | Adding(cols: seq<Column>, phase: Phase, ixs: seq<Index>)
    | Indexing(ixs: seq<Index>)
    | Finished
    | OutOfPlace
    | Crashed

  datatype World = World(table: Table, processes: seq<Process>)

  function AfterColumn(cols: seq<Column>, ixs: seq<Index>): Process {
    if cols == [] then AfterIndex(ixs) else Adding(cols, Check, ixs)
  }

  function AfterIndex(ixs: seq<Index>): Process {
    if ixs == [] then Finished else Indexing(ixs)
  }

  /** What a process sets out to do once it has read the diff. */
  function AfterRead(d: SchemaDiff): Process {
    if d.IsEmpty() then Finished
    else if d.NeedsRebuild() || d.changedIndexes != [] then OutOfPlace
    else AfterColumn(d.missingColumns, d.missingIndexes)
  }

  /** One statement of one process: the table and the process after it. */
  function StepOf(b: Backend, spec: TableSpec, t: Table, p: Process): (Table, Process) {
    match p
    case Waiting => (t, Reading(t.columns))
    case Reading(seen) => (t, AfterRead(Diff(spec, seen, t.indexes)))
    case Adding(cols, phase, ixs) =>
      if cols == [] then (t, AfterIndex(ixs))
      else
        var c := cols[0];
        var next := if c.unique then Adding(cols, Ux, ixs) else AfterColumn(cols[1..], ixs);
        (match phase
         case Check => if c.name in Names(t.columns) then (t, next) else (t, Adding(cols, Alter, ixs))
         case Alter =>
           if c.name !in Names(t.columns) then (AddColumn(t, c), next)
           else if b.tolerant then (t, next)
           else (t, Crashed)
         case Ux =>
           match CreateIndex(b.tolerant, t, IndexInfo(UxName(spec, c), [c.name], true))
           case Done(u) => (u, AfterColumn(cols[1..], ixs))
           case Failed(u) => (u, Crashed))
    case Indexing(ixs) =>
      if ixs == [] then (t, Finished)
      else (match CreateIndex(b.tolerant, t, AsInfo(ixs[0]))
            case Done(u) => (u, AfterIndex(ixs[1..]))
            case Failed(u) => (u, Crashed))
    case _ => (t, p)
  }

  function Step(b: Backend, spec: TableSpec, w: World, i: nat): (r: World)
    ensures |r.processes| == |w.processes|
  {
    if i < |w.processes| then
      var (t, p) := StepOf(b, spec, w.table, w.processes[i]);
      World(t, w.processes[i := p])
    else w
  }

  /** Run a schedule: which process moves, step by step. */
  function Run(b: Backend, spec: TableSpec, w: World, schedule: seq<nat>): (r: World)
    ensures |r.processes| == |w.processes|
  {
    if schedule == [] then w
    else Step(b, spec, Run(b, spec, w, schedule[..|schedule| - 1]), schedule[|schedule| - 1])
  }

  function Start(t: Table, n: nat): World {
    World(t, seq(n, _ => Waiting))
  }

  // ── The diff part-way ─────────────────────────────────────────────────────

  lemma {:induction false} MissingAgree(cs: seq<Column>, a: set<string>, b: set<string>)
    requires forall n :: n in SpecNames(cs) ==> (n in a <==> n in b)
    ensures MissingColumns(cs, a) == MissingColumns(cs, b)
  {
    if cs != [] {
      var k := |cs| - 1;
      SpecNamesLast(cs);
      assert SpecNames(cs)[k] == cs[k].name;
      MissingAgree(cs[..k], a, b);
    }
  }

  lemma DistinctInit(cs: seq<Column>)
    requires cs != [] && Distinct(SpecNames(cs))
    ensures Distinct(SpecNames(cs[..|cs| - 1]))
    ensures cs[|cs| - 1].name !in SpecNames(cs[..|cs| - 1])
  {
    var k := |cs| - 1;
    SpecNamesLast(cs);
    forall i | 0 <= i < k ensures SpecNames(cs[..k])[i] != cs[k].name {
      assert SpecNames(cs)[i] != SpecNames(cs)[k];
    }
  }

  lemma PrefixNames(cs: seq<Column>, k: nat)
    requires k <= |cs|
    ensures SpecNames(cs[..k]) == SpecNames(cs)[..k]
    ensures forall n :: n in SpecNames(cs[..k]) ==> n in SpecNames(cs)
  {
  }

  lemma MissingLast(cs: seq<Column>, have: set<string>)
    requires cs != []
    ensures MissingColumns(cs, have)
            == if cs[|cs| - 1].name in have then MissingColumns(cs[..|cs| - 1], have)
               else MissingColumns(cs[..|cs| - 1], have) + [cs[|cs| - 1]]
  {
  }

  lemma MissingAfterAll(cs: seq<Column>, have: set<string>)
    ensures MissingColumns(cs, have + NameSet(SpecNames(MissingColumns(cs, have)))) == []
  {
    var m := MissingColumns(cs, have);
    forall i | 0 <= i < |cs| ensures SpecNames(cs)[i] in have + NameSet(SpecNames(m)) {
      if cs[i].name !in have {
        SpecNameIn(m, cs[i]);
      }
    }
    NoneMissing(cs, have + NameSet(SpecNames(m)));
  }

  lemma CutBefore<T>(m: seq<T>, before: seq<T>, tail: seq<T>, k: nat)
    requires m == before + tail && k <= |before|
    ensures m[..k] == before[..k] && m[k..] == before[k..] + tail
  {
  }

  /** The last name is among the first missing ones only if it was there anyway. */
  lemma LastNameIsNew(cs: seq<Column>, have: set<string>, k: nat)
    requires cs != [] && Distinct(SpecNames(cs)) && k <= |MissingColumns(cs[..|cs| - 1], have)|
    ensures cs[|cs| - 1].name !in NameSet(SpecNames(MissingColumns(cs[..|cs| - 1], have)[..k]))
  {
    DistinctInit(cs);
    MissingDeclared(cs[..|cs| - 1], have);
    PrefixNames(MissingColumns(cs[..|cs| - 1], have), k);
  }

  /** Once the first `k` missing columns are there, the missing ones are the rest. */
  lemma {:induction false} MissingAfterPrefix(cs: seq<Column>, have: set<string>, k: nat)
    requires Distinct(SpecNames(cs)) && k <= |MissingColumns(cs, have)|
    ensures MissingColumns(cs, have + NameSet(SpecNames(MissingColumns(cs, have)[..k])))
            == MissingColumns(cs, have)[k..]
  {
    var m := MissingColumns(cs, have);
    if k == |m| {
      assert m[..k] == m;
      MissingAfterAll(cs, have);
    } else {
      var init := cs[..|cs| - 1];
      var before := MissingColumns(init, have);
      MissingLast(cs, have);
      CutBefore(m, before, m[|before|..], k);
      LastNameIsNew(cs, have, k);
      DistinctInit(cs);
      MissingAfterPrefix(init, have, k);
      MissingLast(cs, have + NameSet(SpecNames(before[..k])));
    }
  }

  /** Appending only, every column one that can be tightened at once, no index to replace. */
  ghost predicate AppendOnly(spec: TableSpec, t: Table) {
    var d := Diff(spec, t.columns, t.indexes);
    && !d.NeedsRebuild() && d.changedIndexes == []
    && forall c :: c in d.missingColumns ==> c.nullable || c.default.Some?
  }

  function Missing(spec: TableSpec, t: Table): seq<Column> {
    MissingColumns(spec.columns, NameSet(Names(t.columns)))
  }

  function ColumnsAt(spec: TableSpec, t: Table, k: nat): seq<ColumnInfo>
    requires k <= |Missing(spec, t)|
  {
    t.columns + AddedColumns(Missing(spec, t)[..k])
  }

  lemma PrefixDistinct(cs: seq<Column>, k: nat)
    requires k <= |cs| && Distinct(SpecNames(cs))
    ensures Distinct(SpecNames(cs[..k]))
  {
    assert SpecNames(cs[..k]) == SpecNames(cs)[..k];
  }

  lemma NamesAt(spec: TableSpec, t: Table, k: nat)
    requires k <= |Missing(spec, t)|
    ensures Names(ColumnsAt(spec, t, k)) == Names(t.columns) + SpecNames(Missing(spec, t)[..k])
    ensures NameSet(Names(ColumnsAt(spec, t, k)))
            == NameSet(Names(t.columns)) + NameSet(SpecNames(Missing(spec, t)[..k]))
  {
  }

  lemma MissingAt(spec: TableSpec, t: Table, k: nat)
    requires WellFormed(spec) && k <= |Missing(spec, t)|
    ensures MissingColumns(spec.columns, NameSet(Names(ColumnsAt(spec, t, k)))) == Missing(spec, t)[k..]
  {
    NamesAt(spec, t, k);
    MissingAfterPrefix(spec.columns, NameSet(Names(t.columns)), k);
  }

  lemma CompareAt(spec: TableSpec, t: Table, k: nat)
    requires WellFormed(spec) && AppendOnly(spec, t) && k <= |Missing(spec, t)|
    ensures Compare(spec, spec.columns, ColumnsAt(spec, t, k)) == Mismatches([], [], [])
  {
    var have, missing := NameSet(Names(t.columns)), Missing(spec, t);
    var cols := ColumnsAt(spec, t, k);
    MissingColumnsDistinct(spec.columns, have);
    PrefixDistinct(missing, k);
    CompareEmpty(spec, spec.columns, t.columns);
    NamesAt(spec, t, k);
    forall c | c in spec.columns && c.name in Names(cols) ensures ColumnConforms(spec, c, cols) {
      FindAdded(t.columns, missing[..k], c.name);
      if c.name in SpecNames(missing[..k]) {
        var i :| 0 <= i < k && SpecNames(missing[..k])[i] == c.name;
        assert missing[i] in missing;
        SameColumn(spec, c, missing[i]);
        assert missing[..k][i] == c;
        MissingIsNoKey(spec, t.columns, c);
      }
    }
    CompareEmpty(spec, spec.columns, cols);
  }

  lemma SameColumn(spec: TableSpec, a: Column, c: Column)
    requires WellFormed(spec) && a in spec.columns && c in spec.columns && a.name == c.name
    ensures a == c
  {
    var i :| 0 <= i < |spec.columns| && spec.columns[i] == a;
    var j :| 0 <= j < |spec.columns| && spec.columns[j] == c;
    assert SpecNames(spec.columns)[i] == SpecNames(spec.columns)[j];
  }

  lemma SuffixAbsent(missing: seq<Column>, have: set<string>, k: nat)
    requires k <= |missing| && Distinct(SpecNames(missing))
    requires forall c :: c in missing ==> c.name !in have
    ensures forall i :: k <= i < |missing| ==>
              missing[i].name !in have + NameSet(SpecNames(missing[..k]))
  {
    forall i | k <= i < |missing| ensures missing[i].name !in SpecNames(missing[..k]) {
      forall j | 0 <= j < k ensures SpecNames(missing[..k])[j] != missing[i].name {
        assert SpecNames(missing)[j] != SpecNames(missing)[i];
      }
    }
    assert forall i :: k <= i < |missing| ==> missing[i] in missing;
  }

  /** Columns that are there, in front of columns that are not. */
  lemma FrontAndRest(front: seq<string>, rest: seq<string>, there: set<string>)
    requires forall n :: n in front ==> n in there
    requires forall n :: n in rest ==> n !in there
    ensures FilterIn(front + rest, there) == front
  {
    FilterInConcat(front, rest, there);
    FilterInAll(front, there);
    FilterInNone(rest, there);
  }

  lemma FrontNotBroken(front: seq<string>, rest: seq<string>, there: set<string>)
    requires forall n :: n in front ==> n in there
    requires forall n :: n in rest ==> n !in there
    ensures !MissingBeforePresent(front + rest, there)
  {
    forall i, j | 0 <= i < j < |front + rest| && (front + rest)[i] !in there
      ensures (front + rest)[j] !in there
    {
      assert i >= |front| && (front + rest)[j] == rest[j - |front|];
    }
  }

  lemma SpecSplitAt(cs: seq<Column>, have: set<string>, k: nat)
    requires !MissingBeforePresent(SpecNames(cs), have) && k <= |MissingColumns(cs, have)|
    ensures var m := MissingColumns(cs, have);
            SpecNames(cs) == (FilterIn(SpecNames(cs), have) + SpecNames(m[..k])) + SpecNames(m[k..])
  {
    var m := MissingColumns(cs, have);
    assert SpecNames(m) == SpecNames(m[..k]) + SpecNames(m[k..]);
    TrailingSplit(cs, have);
    Regroup(FilterIn(SpecNames(cs), have), SpecNames(m[..k]), SpecNames(m[k..]));
  }

  lemma RestAbsent(cs: seq<Column>, have: set<string>, k: nat)
    requires Distinct(SpecNames(cs)) && k <= |MissingColumns(cs, have)|
    ensures var m := MissingColumns(cs, have);
            forall n :: n in SpecNames(m[k..]) ==> n !in have + NameSet(SpecNames(m[..k]))
  {
    var m := MissingColumns(cs, have);
    MissingColumnsDistinct(cs, have);
    SuffixAbsent(m, have, k);
    assert forall i :: 0 <= i < |m| - k ==> SpecNames(m[k..])[i] == m[k + i].name;
  }

  lemma OrderAt(spec: TableSpec, names: seq<string>, k: nat)
    requires var have, declared := NameSet(names), NameSet(SpecNames(spec.columns));
             FilterIn(names, declared) == FilterIn(SpecNames(spec.columns), have)
             && !MissingBeforePresent(SpecNames(spec.columns), have)
             && k <= |MissingColumns(spec.columns, have)|
    requires Distinct(SpecNames(spec.columns))
    ensures var have, declared := NameSet(names), NameSet(SpecNames(spec.columns));
            var some := SpecNames(MissingColumns(spec.columns, have)[..k]);
            FilterIn(names + some, declared)
            == FilterIn(SpecNames(spec.columns), have + NameSet(some))
            && !MissingBeforePresent(SpecNames(spec.columns), have + NameSet(some))
  {
    var have, declared := NameSet(names), NameSet(SpecNames(spec.columns));
    var missing := MissingColumns(spec.columns, have);
    var front, some := FilterIn(SpecNames(spec.columns), have), SpecNames(missing[..k]);
    var rest := SpecNames(missing[k..]);
    assert FilterIn(names + some, declared) == front + some by {
      FilterInConcat(names, some, declared);
      MissingDeclared(spec.columns, have);
      PrefixNames(missing, k);
      FilterInAll(some, declared);
    }
    SpecSplitAt(spec.columns, have, k);
    RestAbsent(spec.columns, have, k);
    FrontAndRest(front + some, rest, have + NameSet(some));
    FrontNotBroken(front + some, rest, have + NameSet(some));
  }

  /** Reading the diff in the middle of the others' work sees the rest of the same list. */
  lemma DiffAt(spec: TableSpec, t: Table, k: nat, idx: seq<IndexInfo>)
    requires WellFormed(spec) && AppendOnly(spec, t) && k <= |Missing(spec, t)|
    ensures var d := Diff(spec, ColumnsAt(spec, t, k), idx);
            d.missingColumns == Missing(spec, t)[k..] && !d.NeedsRebuild()
  {
    MissingAt(spec, t, k);
    CompareAt(spec, t, k);
    NamesAt(spec, t, k);
    OrderAt(spec, Names(t.columns), k);
    AppendedPk(t.columns, Missing(spec, t)[..k]);
  }

  // ── What one process alone would manage ───────────────────────────────────

  /** One process on its own would get through the whole diff. */
  ghost predicate SucceedsAlone(b: Backend, spec: TableSpec, t: Table) {
    Appended(b, spec, Diff(spec, t.columns, t.indexes), t).Done?
  }

  /** The statement that creates this index is accepted on a table with these contents. */
  ghost predicate Fits(cols: seq<ColumnInfo>, rows: seq<Row>, ix: IndexInfo) {
    && (forall c :: c in ix.columns ==> c in Names(cols))
    && (ix.unique ==> UniqueOn(rows, ix.columns))
  }

  lemma {:induction false} CreateAllFits(tolerant: bool, t: Table, ixs: seq<Index>)
    requires CreateAll(tolerant, t, ixs).Done?
    requires Distinct(SpecIndexNames(ixs))
    requires forall ix :: ix in ixs ==> FindIndex(t.indexes, ix.name).None?
    ensures forall ix :: ix in ixs ==> Fits(t.columns, t.rows, AsInfo(ix))
  {
    if ixs != [] {
      var init, ix := ixs[..|ixs| - 1], ixs[|ixs| - 1];
      assert ixs == init + [ix];
      LastIsNew(ixs);
      CreateAllFits(tolerant, t, init);
      CreateAllShape(tolerant, t, init);
      var before := CreateAll(tolerant, t, init).table;
      assert FindIndex(before.indexes, ix.name) == FindIndex(t.indexes, ix.name);
      assert Fits(t.columns, t.rows, AsInfo(ix));
    }
  }

  /** Every row has the column's default, so it is unique only where that says nothing. */
  lemma UxFits(rows: seq<Row>, c: Column)
    requires forall r :: r in rows ==> c.name in r && r[c.name] == DefaultValue(c.default)
    ensures UniqueOn(rows, [c.name]) <==> |rows| <= 1 || c.default.None?
  {
    if |rows| > 1 && c.default.Some? {
      assert rows[0] in rows && rows[1] in rows;
      assert SameKey(rows[0], rows[1], [c.name]);
    } else if c.default.None? {
      forall i, j | 0 <= i < j < |rows| ensures !SameKey(rows[i], rows[j], [c.name]) {
        assert rows[i] in rows && c.name in [c.name];
      }
    }
  }

  lemma RowsHaveDefault(t: Table, missing: seq<Column>, c: Column)
    requires ValidTable(t) && Distinct(SpecNames(missing)) && c in missing
    requires forall m :: m in missing ==> m.name !in Names(t.columns)
    ensures forall r :: r in AppendedRows(t.rows, missing)
              ==> c.name in r && r[c.name] == DefaultValue(c.default)
  {
    forall i | 0 <= i < |t.rows|
      ensures c.name in AppendedRow(t.rows[i], missing)
              && AppendedRow(t.rows[i], missing)[c.name] == DefaultValue(c.default)
    {
      assert RowFits(t.rows[i], t.columns);
      AppendedCells(t.rows[i], missing);
    }
  }

  lemma UxNameInjective(spec: TableSpec, a: Column, c: Column)
    requires UxName(spec, a) == UxName(spec, c)
    ensures a.name == c.name
  {
    var front := "ux_" + spec.name + "_";
    assert UxName(spec, a)[|front|..] == a.name && UxName(spec, c)[|front|..] == c.name;
  }

  /** The ux_ index of a column in `cs` is known at the end only if it was known before. */
  lemma {:induction false} OtherUxAbsent(b: Backend, spec: TableSpec, t: Table, cs: seq<Column>, c: Column)
    requires AddAll(b, spec, t, cs).Done? && c.name !in SpecNames(cs)
    ensures FindIndex(AddAll(b, spec, t, cs).table.indexes, UxName(spec, c))
            == FindIndex(t.indexes, UxName(spec, c))
  {
    if cs != [] {
      var init, d := cs[..|cs| - 1], cs[|cs| - 1];
      SpecNamesLast(cs);
      OtherUxAbsent(b, spec, t, init, c);
      if UxName(spec, d) == UxName(spec, c) { UxNameInjective(spec, d, c); }
      var u := AddColumn(AddAll(b, spec, t, init).table, d);
      FindIndexAppend(u.indexes, IndexInfo(UxName(spec, d), [d.name], true), UxName(spec, c));
    }
  }

  /** A unique column went in: its index was there already, or it says nothing yet. */
  ghost predicate UniqueAddable(spec: TableSpec, t: Table, c: Column) {
    c.unique ==> FindIndex(t.indexes, UxName(spec, c)).Some? || |t.rows| <= 1 || c.default.None?
  }

  lemma {:induction false} AddAllUnique(b: Backend, spec: TableSpec, t: Table, missing: seq<Column>)
    requires ValidTable(t) && Distinct(SpecNames(missing))
    requires forall c :: c in missing ==> c.name !in Names(t.columns) && c in spec.columns
    requires AddAll(b, spec, t, missing).Done?
    ensures forall c :: c in missing ==> UniqueAddable(spec, t, c)
  {
    if missing != [] {
      var init, c := missing[..|missing| - 1], missing[|missing| - 1];
      assert missing == init + [c];
      DistinctInit(missing);
      AddAllUnique(b, spec, t, init);
      if c.unique {
        OtherUxAbsent(b, spec, t, init, c);
        AddAllRows(b, spec, t, init);
        AddAllShape(b, spec, t, init);
        AbsentAfter(t.columns, missing, |missing| - 1);
        AddColumnRows(AddAll(b, spec, t, init).table, t.rows, init, c);
        RowsHaveDefault(t, missing, c);
        UxFits(AppendedRows(t.rows, missing), c);
      }
    }
  }

  // ── The invariant ─────────────────────────────────────────────────────────

  function LostIndexes(spec: TableSpec, t: Table): seq<Index> {
    MissingIndexes(spec.indexes, t.indexes)
  }

  /** The shared table: a prefix of the missing columns has been added, the rows have their
      defaults, and each lost index is either absent or as declared. */
  ghost predicate TableOk(spec: TableSpec, t0: Table, t: Table, k: nat) {
    && k <= |Missing(spec, t0)|
    && t.columns == ColumnsAt(spec, t0, k)
    && t.rows == AppendedRows(t0.rows, Missing(spec, t0)[..k])
    && (forall n {:trigger FindIndex(t.indexes, n)} ::
          FindIndex(t0.indexes, n).Some? ==> FindIndex(t.indexes, n) == FindIndex(t0.indexes, n))
    && (forall ix :: ix in LostIndexes(spec, t0) ==>
          var e := FindIndex(t.indexes, ix.name); e == None || e == Some(AsInfo(ix)))
  }

  /** The list holds every lost index that is still absent. */
  ghost predicate CoversIndexes(spec: TableSpec, t0: Table, t: Table, ixs: seq<Index>) {
    && (forall ix :: ix in ixs ==> ix in LostIndexes(spec, t0))
    && (forall ix :: ix in LostIndexes(spec, t0) ==> ix in ixs || FindIndex(t.indexes, ix.name).Some?)
  }

  /** The columns a process has read are those of an earlier moment. */
  ghost predicate SeenOk(spec: TableSpec, t0: Table, k: nat, seen: seq<ColumnInfo>) {
    |t0.columns| <= |seen|
    && var moment := |seen| - |t0.columns|;
       moment <= k && moment <= |Missing(spec, t0)| && seen == ColumnsAt(spec, t0, moment)
  }

  /** Everything before a process's position has been added, by it or by another. */
  ghost predicate ProcessOk(spec: TableSpec, t0: Table, t: Table, k: nat, p: Process) {
    var missing := Missing(spec, t0);
    match p
    case Waiting => true
    case Reading(seen) => SeenOk(spec, t0, k, seen)
    case Adding(cols, phase, ixs) =>
      && 0 < |cols| <= |missing| && cols == missing[|missing| - |cols|..]
      && |missing| - |cols| <= k
      && (phase == Ux ==> cols[0].unique && |missing| - |cols| < k)
      && CoversIndexes(spec, t0, t, ixs)
    case Indexing(ixs) => k == |missing| && CoversIndexes(spec, t0, t, ixs)
    case Finished => k == |missing| && CoversIndexes(spec, t0, t, [])
    case _ => false
  }

  ghost predicate WorldOk(spec: TableSpec, t0: Table, w: World, k: nat) {
    TableOk(spec, t0, w.table, k)
    && forall i :: 0 <= i < |w.processes| ==> ProcessOk(spec, t0, w.table, k, w.processes[i])
  }

  ghost predicate Setting(b: Backend, spec: TableSpec, t0: Table) {
    && WellFormed(spec) && ValidTable(t0) && AppendOnly(spec, t0)
    && b.tolerant && SucceedsAlone(b, spec, t0)
  }

  /** Nothing is ever taken back. */
  ghost predicate Grows(t: Table, u: Table) {
    forall n {:trigger FindIndex(u.indexes, n)} ::
      FindIndex(t.indexes, n).Some? ==> FindIndex(u.indexes, n) == FindIndex(t.indexes, n)
  }

  lemma OthersStayOk(spec: TableSpec, t0: Table, t: Table, u: Table, k: nat, k': nat, p: Process)
    requires ProcessOk(spec, t0, t, k, p) && Grows(t, u) && k <= k' <= |Missing(spec, t0)|
    ensures ProcessOk(spec, t0, u, k', p)
  {
  }

  lemma PresentAt(spec: TableSpec, t0: Table, k: nat, j: nat)
    requires WellFormed(spec) && k <= |Missing(spec, t0)| && j < |Missing(spec, t0)|
    ensures Missing(spec, t0)[j].name in Names(ColumnsAt(spec, t0, k)) <==> j < k
  {
    var missing := Missing(spec, t0);
    NamesAt(spec, t0, k);
    MissingColumnsDistinct(spec.columns, NameSet(Names(t0.columns)));
    if j < k {
      assert SpecNames(missing[..k])[j] == missing[j].name;
    } else {
      SuffixAbsent(missing, NameSet(Names(t0.columns)), k);
    }
  }

  lemma AddNext(spec: TableSpec, t0: Table, t: Table, k: nat)
    requires WellFormed(spec) && TableOk(spec, t0, t, k) && k < |Missing(spec, t0)|
    ensures TableOk(spec, t0, AddColumn(t, Missing(spec, t0)[k]), k + 1)
    ensures Grows(t, AddColumn(t, Missing(spec, t0)[k]))
  {
    var missing := Missing(spec, t0);
    var c := missing[k];
    PresentAt(spec, t0, k, k);
    assert missing[..k + 1] == missing[..k] + [c];
    AddColumnRows(t, t0.rows, missing[..k], c);
    assert AddColumn(t, c).columns == ColumnsAt(spec, t0, k + 1);
  }

  lemma AddIndexKeeps(spec: TableSpec, t0: Table, t: Table, k: nat, ix: IndexInfo)
    requires TableOk(spec, t0, t, k) && FindIndex(t.indexes, ix.name).None?
    requires forall l :: l in LostIndexes(spec, t0) && l.name == ix.name ==> ix == AsInfo(l)
    ensures TableOk(spec, t0, t.(indexes := t.indexes + [ix]), k)
    ensures Grows(t, t.(indexes := t.indexes + [ix]))
  {
    var u := t.(indexes := t.indexes + [ix]);
    forall n ensures FindIndex(u.indexes, n) == if n == ix.name then Some(ix) else FindIndex(t.indexes, n) {
      FindIndexAppend(t.indexes, ix, n);
    }
  }

  /** Every unique index of a missing column, and every lost index, can be created when its turn
      comes, whoever gets there. */
  ghost predicate Feasible(spec: TableSpec, t0: Table) {
    var missing := Missing(spec, t0);
    && (forall c :: c in missing ==> UniqueAddable(spec, t0, c))
    && (forall ix :: ix in LostIndexes(spec, t0)
          ==> Fits(t0.columns + AddedColumns(missing), AppendedRows(t0.rows, missing), AsInfo(ix)))
  }

  lemma IndexesFit(b: Backend, spec: TableSpec, t0: Table)
    requires Setting(b, spec, t0)
    ensures var missing := Missing(spec, t0);
            forall ix :: ix in LostIndexes(spec, t0)
              ==> Fits(t0.columns + AddedColumns(missing), AppendedRows(t0.rows, missing), AsInfo(ix))
  {
    var missing, lost := Missing(spec, t0), LostIndexes(spec, t0);
    MissingColumnsDistinct(spec.columns, NameSet(Names(t0.columns)));
    AddAllShape(b, spec, t0, missing);
    AddAllRows(b, spec, t0, missing);
    var u := AddAll(b, spec, t0, missing).table;
    assert lost + [] == lost;
    SubsetDistinct(spec.indexes, t0.indexes);
    ReadyToCreate(spec, t0, u, lost, []);
    CreateAllFits(b.tolerant, u, lost);
  }

  lemma UniquesFit(b: Backend, spec: TableSpec, t0: Table)
    requires Setting(b, spec, t0)
    ensures forall c :: c in Missing(spec, t0) ==> UniqueAddable(spec, t0, c)
  {
    MissingColumnsDistinct(spec.columns, NameSet(Names(t0.columns)));
    AddAllUnique(b, spec, t0, Missing(spec, t0));
  }

  lemma SettingIsFeasible(b: Backend, spec: TableSpec, t0: Table)
    requires Setting(b, spec, t0)
    ensures Feasible(spec, t0)
  {
    UniquesFit(b, spec, t0);
    IndexesFit(b, spec, t0);
  }

  // ── Each statement keeps the invariant ────────────────────────────────────

  /** The moved process and the shared table after a step, with the new prefix length. */
  ghost predicate StepOk(spec: TableSpec, t0: Table, t: Table, k: nat, r: (Table, Process), k': nat) {
    k <= k' && TableOk(spec, t0, r.0, k') && Grows(t, r.0) && ProcessOk(spec, t0, r.0, k', r.1)
  }

  lemma AfterColumnOk(spec: TableSpec, t0: Table, t: Table, k: nat, cols: seq<Column>, ixs: seq<Index>)
    requires TableOk(spec, t0, t, k) && CoversIndexes(spec, t0, t, ixs)
    requires var m := Missing(spec, t0);
             |cols| <= |m| && cols == m[|m| - |cols|..] && |m| - |cols| <= k
    ensures ProcessOk(spec, t0, t, k, AfterColumn(cols, ixs))
  {
  }

  lemma ColumnsStep(b: Backend, spec: TableSpec, t0: Table, t: Table, k: nat)
    requires TableOk(spec, t0, t, k)
    ensures StepOk(spec, t0, t, k, StepOf(b, spec, t, Waiting), k)
  {
    assert |ColumnsAt(spec, t0, k)| == |t0.columns| + k;
  }

  lemma PlanOfAppendOnly(d: SchemaDiff)
    requires !d.NeedsRebuild() && d.changedIndexes == []
    ensures AfterRead(d) == AfterColumn(d.missingColumns, d.missingIndexes)
  {
  }

  lemma SeenDiff(spec: TableSpec, t0: Table, t: Table, k: nat, seen: seq<ColumnInfo>)
    requires WellFormed(spec) && AppendOnly(spec, t0) && TableOk(spec, t0, t, k) && SeenOk(spec, t0, k, seen)
    ensures AfterRead(Diff(spec, seen, t.indexes))
         == AfterColumn(Missing(spec, t0)[|seen| - |t0.columns|..], MissingIndexes(spec.indexes, t.indexes))
    ensures CoversIndexes(spec, t0, t, MissingIndexes(spec.indexes, t.indexes))
  {
    DiffAt(spec, t0, |seen| - |t0.columns|, t.indexes);
    ReadIndexes(spec, t0, t, k);
    PlanOfAppendOnly(Diff(spec, seen, t.indexes));
  }

  lemma Stays(spec: TableSpec, t0: Table, t: Table, k: nat, p: Process)
    requires TableOk(spec, t0, t, k) && ProcessOk(spec, t0, t, k, p)
    ensures StepOk(spec, t0, t, k, (t, p), k)
  {
  }

  lemma PlanStays(spec: TableSpec, t0: Table, t: Table, k: nat, cols: seq<Column>, ixs: seq<Index>)
    requires TableOk(spec, t0, t, k) && CoversIndexes(spec, t0, t, ixs)
    requires var m := Missing(spec, t0);
             |cols| <= |m| && cols == m[|m| - |cols|..] && |m| - |cols| <= k
    ensures StepOk(spec, t0, t, k, (t, AfterColumn(cols, ixs)), k)
  {
    AfterColumnOk(spec, t0, t, k, cols, ixs);
    Stays(spec, t0, t, k, AfterColumn(cols, ixs));
  }

  lemma ReadMoves(b: Backend, spec: TableSpec, t: Table, seen: seq<ColumnInfo>)
    ensures StepOf(b, spec, t, Reading(seen)) == (t, AfterRead(Diff(spec, seen, t.indexes)))
  {
  }

  lemma ReadIndexes(spec: TableSpec, t0: Table, t: Table, k: nat)
    requires WellFormed(spec) && TableOk(spec, t0, t, k)
    requires ChangedIndexes(spec.indexes, t0.indexes) == []
    ensures ChangedIndexes(spec.indexes, t.indexes) == []
    ensures CoversIndexes(spec, t0, t, MissingIndexes(spec.indexes, t.indexes))
  {
    forall ix | ix in spec.indexes
      ensures !Changed(ix, t.indexes)
      ensures FindIndex(t.indexes, ix.name).None? ==> ix in LostIndexes(spec, t0)
    {
      if ix !in LostIndexes(spec, t0) {
        assert ix !in ChangedIndexes(spec.indexes, t0.indexes);
        assert FindIndex(t.indexes, ix.name) == FindIndex(t0.indexes, ix.name);
      }
    }
    FirstIsIn(ChangedIndexes(spec.indexes, t.indexes));
  }

  lemma FirstIsIn<T>(s: seq<T>)
    ensures s != [] ==> s[0] in s
  {
  }

  lemma TailOf(m: seq<Column>, cols: seq<Column>)
    requires 0 < |cols| <= |m| && cols == m[|m| - |cols|..]
    ensures cols[0] == m[|m| - |cols|] && cols[1..] == m[|m| - |cols[1..]|..]
  {
  }

  /** What a column's next step is. */
  function NextFor(cols: seq<Column>, ixs: seq<Index>): Process
    requires cols != []
  {
    if cols[0].unique then Adding(cols, Ux, ixs) else AfterColumn(cols[1..], ixs)
  }

  lemma NextForOk(spec: TableSpec, t0: Table, t: Table, k: nat, cols: seq<Column>, ixs: seq<Index>)
    requires TableOk(spec, t0, t, k) && CoversIndexes(spec, t0, t, ixs)
    requires var m := Missing(spec, t0);
             0 < |cols| <= |m| && cols == m[|m| - |cols|..] && |m| - |cols| < k
    ensures StepOk(spec, t0, t, k, (t, NextFor(cols, ixs)), k)
  {
    if cols[0].unique {
      Stays(spec, t0, t, k, Adding(cols, Ux, ixs));
    } else {
      TailOf(Missing(spec, t0), cols);
      PlanStays(spec, t0, t, k, cols[1..], ixs);
    }
  }

  lemma CheckMoves(b: Backend, spec: TableSpec, t: Table, cols: seq<Column>, ixs: seq<Index>)
    requires cols != []
    ensures StepOf(b, spec, t, Adding(cols, Check, ixs))
         == (t, if cols[0].name in Names(t.columns) then NextFor(cols, ixs) else Adding(cols, Alter, ixs))
  {
  }

  lemma AlterMoves(b: Backend, spec: TableSpec, t: Table, cols: seq<Column>, ixs: seq<Index>)
    requires cols != [] && b.tolerant
    ensures StepOf(b, spec, t, Adding(cols, Alter, ixs)) == (AddColumn(t, cols[0]), NextFor(cols, ixs))
  {
  }

  lemma CheckStep(b: Backend, spec: TableSpec, t0: Table, t: Table, k: nat, cols: seq<Column>, ixs: seq<Index>)
    requires WellFormed(spec) && TableOk(spec, t0, t, k)
    requires ProcessOk(spec, t0, t, k, Adding(cols, Check, ixs))
    requires cols[0].name in Names(t.columns) <==> |Missing(spec, t0)| - |cols| < k
    ensures StepOk(spec, t0, t, k, StepOf(b, spec, t, Adding(cols, Check, ixs)), k)
  {
    CheckMoves(b, spec, t, cols, ixs);
    if cols[0].name in Names(t.columns) {
      NextForOk(spec, t0, t, k, cols, ixs);
    } else {
      Stays(spec, t0, t, k, Adding(cols, Alter, ixs));
    }
  }

  lemma NextAfterAdd(spec: TableSpec, t0: Table, t: Table, u: Table, k: nat, cols: seq<Column>, ixs: seq<Index>)
    requires cols != [] && Grows(t, u)
    requires StepOk(spec, t0, u, k + 1, (u, NextFor(cols, ixs)), k + 1)
    ensures StepOk(spec, t0, t, k, (u, NextFor(cols, ixs)), k + 1)
  {
  }

  /** The column is the next one: it is added. */
  lemma AlterAdds(spec: TableSpec, t0: Table, t: Table, cols: seq<Column>, ixs: seq<Index>)
    requires var m := Missing(spec, t0);
             0 < |cols| <= |m| && cols == m[|m| - |cols|..]
             && WellFormed(spec) && TableOk(spec, t0, t, |m| - |cols|)
    requires CoversIndexes(spec, t0, t, ixs)
    ensures var j := |Missing(spec, t0)| - |cols|;
            StepOk(spec, t0, t, j, (AddColumn(t, cols[0]), NextFor(cols, ixs)), j + 1)
  {
    var m := Missing(spec, t0);
    var j := |m| - |cols|;
    TailOf(m, cols);
    var u := AddColumn(t, m[j]);
    AddNext(spec, t0, t, j);
    CoversStays(spec, t0, t, u, ixs);
    NextForOk(spec, t0, u, j + 1, cols, ixs);
    NextAfterAdd(spec, t0, t, u, j, cols, ixs);
  }

  /** Somebody else has added it meanwhile: the tolerated error leaves everything as it is. */
  lemma AlterMeets(spec: TableSpec, t0: Table, t: Table, k: nat, cols: seq<Column>, ixs: seq<Index>)
    requires WellFormed(spec) && TableOk(spec, t0, t, k) && CoversIndexes(spec, t0, t, ixs)
    requires var m := Missing(spec, t0);
             0 < |cols| <= |m| && cols == m[|m| - |cols|..] && |m| - |cols| < k
    ensures StepOk(spec, t0, t, k, (AddColumn(t, cols[0]), NextFor(cols, ixs)), k)
  {
    TailOf(Missing(spec, t0), cols);
    PresentAt(spec, t0, k, |Missing(spec, t0)| - |cols|);
    assert AddColumn(t, cols[0]) == t;
    NextForOk(spec, t0, t, k, cols, ixs);
  }

  lemma AlterStep(b: Backend, spec: TableSpec, t0: Table, t: Table, k: nat, cols: seq<Column>, ixs: seq<Index>)
    returns (k': nat)
    requires WellFormed(spec) && b.tolerant && TableOk(spec, t0, t, k) && CoversIndexes(spec, t0, t, ixs)
    requires var m := Missing(spec, t0);
             0 < |cols| <= |m| && cols == m[|m| - |cols|..] && |m| - |cols| <= k
    ensures StepOk(spec, t0, t, k, StepOf(b, spec, t, Adding(cols, Alter, ixs)), k')
  {
    AlterMoves(b, spec, t, cols, ixs);
    if |Missing(spec, t0)| - |cols| < k {
      k' := k;
      AlterMeets(spec, t0, t, k, cols, ixs);
    } else {
      k' := k + 1;
      AlterAdds(spec, t0, t, cols, ixs);
    }
  }

  lemma UxAccepted(spec: TableSpec, t0: Table, t: Table, k: nat, j: nat)
    requires WellFormed(spec) && ValidTable(t0) && Feasible(spec, t0) && TableOk(spec, t0, t, k)
    requires j < k && Missing(spec, t0)[j].unique
    ensures var c := Missing(spec, t0)[j];
            FindIndex(t.indexes, UxName(spec, c)).None?
            ==> c.name in Names(t.columns) && UniqueOn(t.rows, [c.name])
  {
    var m := Missing(spec, t0);
    var c := m[j];
    PresentAt(spec, t0, k, j);
    if FindIndex(t.indexes, UxName(spec, c)).None? {
      assert c in m && UniqueAddable(spec, t0, c);
      assert FindIndex(t0.indexes, UxName(spec, c)).None?;
      MissingColumnsDistinct(spec.columns, NameSet(Names(t0.columns)));
      PrefixDistinct(m, k);
      assert m[..k][j] == c;
      RowsHaveDefault(t0, m[..k], c);
      UxFits(t.rows, c);
    }
  }

  /** The table after a tolerated CREATE INDEX that can be carried out. */
  function WithIndex(t: Table, ix: IndexInfo): Table {
    if FindIndex(t.indexes, ix.name).None? then t.(indexes := t.indexes + [ix]) else t
  }

  lemma CreateIsWithIndex(t: Table, ix: IndexInfo)
    requires FindIndex(t.indexes, ix.name).None? ==> Fits(t.columns, t.rows, ix)
    ensures CreateIndex(true, t, ix) == Done(WithIndex(t, ix))
    ensures FindIndex(WithIndex(t, ix).indexes, ix.name).Some?
  {
    FindIndexAppend(t.indexes, ix, ix.name);
  }

  lemma WithIndexOk(spec: TableSpec, t0: Table, t: Table, k: nat, ix: IndexInfo)
    requires TableOk(spec, t0, t, k)
    requires forall l :: l in LostIndexes(spec, t0) && l.name == ix.name ==> ix == AsInfo(l)
    ensures TableOk(spec, t0, WithIndex(t, ix), k) && Grows(t, WithIndex(t, ix))
  {
    if FindIndex(t.indexes, ix.name).None? { AddIndexKeeps(spec, t0, t, k, ix); }
  }

  lemma CoversStays(spec: TableSpec, t0: Table, t: Table, u: Table, ixs: seq<Index>)
    requires CoversIndexes(spec, t0, t, ixs) && Grows(t, u)
    ensures CoversIndexes(spec, t0, u, ixs)
  {
  }

  lemma UxIsNotLost(spec: TableSpec, t0: Table, c: Column)
    requires WellFormed(spec) && c in Missing(spec, t0)
    ensures forall l :: l in LostIndexes(spec, t0) ==> l.name != UxName(spec, c)
  {
    assert c in spec.columns;
  }

  lemma UxMoves(b: Backend, spec: TableSpec, t: Table, cols: seq<Column>, ixs: seq<Index>, ux: IndexInfo)
    requires b.tolerant && cols != [] && ux == IndexInfo(UxName(spec, cols[0]), [cols[0].name], true)
    requires FindIndex(t.indexes, ux.name).None? ==> Fits(t.columns, t.rows, ux)
    ensures StepOf(b, spec, t, Adding(cols, Ux, ixs)) == (WithIndex(t, ux), AfterColumn(cols[1..], ixs))
  {
    CreateIsWithIndex(t, ux);
  }

  /** After the index, whoever created it. */
  lemma UxDone(spec: TableSpec, t0: Table, t: Table, k: nat, cols: seq<Column>, ixs: seq<Index>, ux: IndexInfo)
    requires WellFormed(spec) && TableOk(spec, t0, t, k) && CoversIndexes(spec, t0, t, ixs)
    requires var m := Missing(spec, t0);
             |cols| <= |m| && cols == m[|m| - |cols|..] && |m| - |cols| <= k
    requires forall l :: l in LostIndexes(spec, t0) ==> l.name != ux.name
    ensures StepOk(spec, t0, t, k, (WithIndex(t, ux), AfterColumn(cols, ixs)), k)
  {
    var u := WithIndex(t, ux);
    WithIndexOk(spec, t0, t, k, ux);
    CoversStays(spec, t0, t, u, ixs);
    AfterColumnOk(spec, t0, u, k, cols, ixs);
  }

  lemma UxStep(b: Backend, spec: TableSpec, t0: Table, t: Table, k: nat, cols: seq<Column>, ixs: seq<Index>)
    requires WellFormed(spec) && b.tolerant && TableOk(spec, t0, t, k) && CoversIndexes(spec, t0, t, ixs)
    requires var m := Missing(spec, t0);
             0 < |cols| <= |m| && cols == m[|m| - |cols|..] && |m| - |cols| < k && cols[0] in m
    requires FindIndex(t.indexes, UxName(spec, cols[0])).None?
             ==> cols[0].name in Names(t.columns) && UniqueOn(t.rows, [cols[0].name])
    ensures StepOk(spec, t0, t, k, StepOf(b, spec, t, Adding(cols, Ux, ixs)), k)
  {
    var ux := IndexInfo(UxName(spec, cols[0]), [cols[0].name], true);
    TailOf(Missing(spec, t0), cols);
    UxMoves(b, spec, t, cols, ixs, ux);
    UxIsNotLost(spec, t0, cols[0]);
    UxDone(spec, t0, t, k, cols[1..], ixs, ux);
  }

  lemma AfterIndexOk(spec: TableSpec, t0: Table, t: Table, k: nat, ixs: seq<Index>)
    requires k == |Missing(spec, t0)| && CoversIndexes(spec, t0, t, ixs)
    ensures ProcessOk(spec, t0, t, k, AfterIndex(ixs))
  {
  }

  lemma IndexStep(b: Backend, spec: TableSpec, t0: Table, t: Table, k: nat, ixs: seq<Index>)
    requires WellFormed(spec) && b.tolerant && TableOk(spec, t0, t, k)
    requires ProcessOk(spec, t0, t, k, Indexing(ixs))
    requires forall ix :: ix in LostIndexes(spec, t0) ==> Fits(t.columns, t.rows, AsInfo(ix))
    ensures StepOk(spec, t0, t, k, StepOf(b, spec, t, Indexing(ixs)), k)
  {
    if ixs == [] {
      assert StepOf(b, spec, t, Indexing(ixs)) == (t, AfterIndex([]));
      AfterIndexOk(spec, t0, t, k, []);
      Stays(spec, t0, t, k, AfterIndex([]));
    } else {
      var ix := ixs[0];
      var u := WithIndex(t, AsInfo(ix));
      assert ix in ixs && ix in LostIndexes(spec, t0);
      assert StepOf(b, spec, t, Indexing(ixs)) == (u, AfterIndex(ixs[1..])) by {
        CreateIsWithIndex(t, AsInfo(ix));
      }
      LostByName(spec, t0, ix);
      WithIndexOk(spec, t0, t, k, AsInfo(ix));
      assert FindIndex(u.indexes, ix.name).Some? by { CreateIsWithIndex(t, AsInfo(ix)); }
      NextIndex(spec, t0, t, u, ixs);
      AfterIndexOk(spec, t0, u, k, ixs[1..]);
    }
  }

  lemma LostByName(spec: TableSpec, t0: Table, ix: Index)
    requires WellFormed(spec) && ix in spec.indexes
    ensures forall l :: l in LostIndexes(spec, t0) && l.name == ix.name ==> l == ix
  {
    forall l | l in LostIndexes(spec, t0) && l.name == ix.name ensures l == ix {
      var i :| 0 <= i < |spec.indexes| && spec.indexes[i] == ix;
      var j :| 0 <= j < |spec.indexes| && spec.indexes[j] == l;
      assert SpecIndexNames(spec.indexes)[i] == SpecIndexNames(spec.indexes)[j];
    }
  }

  lemma NextIndex(spec: TableSpec, t0: Table, t: Table, u: Table, ixs: seq<Index>)
    requires ixs != [] && CoversIndexes(spec, t0, t, ixs) && Grows(t, u)
    requires FindIndex(u.indexes, ixs[0].name).Some?
    ensures CoversIndexes(spec, t0, u, ixs[1..])
  {
    assert ixs == [ixs[0]] + ixs[1..];
  }

  lemma CheckingOk(b: Backend, spec: TableSpec, t0: Table, t: Table, k: nat, cols: seq<Column>, ixs: seq<Index>)
    requires WellFormed(spec) && TableOk(spec, t0, t, k)
    requires ProcessOk(spec, t0, t, k, Adding(cols, Check, ixs))
    ensures StepOk(spec, t0, t, k, StepOf(b, spec, t, Adding(cols, Check, ixs)), k)
  {
    assert cols[0].name in Names(t.columns) <==> |Missing(spec, t0)| - |cols| < k by {
      TailOf(Missing(spec, t0), cols);
      PresentAt(spec, t0, k, |Missing(spec, t0)| - |cols|);
    }
    CheckStep(b, spec, t0, t, k, cols, ixs);
  }

  lemma UxOk(b: Backend, spec: TableSpec, t0: Table, t: Table, k: nat, cols: seq<Column>, ixs: seq<Index>)
    requires WellFormed(spec) && ValidTable(t0) && b.tolerant && Feasible(spec, t0) && TableOk(spec, t0, t, k)
    requires ProcessOk(spec, t0, t, k, Adding(cols, Ux, ixs))
    ensures StepOk(spec, t0, t, k, StepOf(b, spec, t, Adding(cols, Ux, ixs)), k)
  {
    assert FindIndex(t.indexes, UxName(spec, cols[0])).None?
           ==> cols[0].name in Names(t.columns) && UniqueOn(t.rows, [cols[0].name]) by {
      TailOf(Missing(spec, t0), cols);
      UxAccepted(spec, t0, t, k, |Missing(spec, t0)| - |cols|);
    }
    assert cols[0] in Missing(spec, t0) by { TailOf(Missing(spec, t0), cols); }
    UxStep(b, spec, t0, t, k, cols, ixs);
  }

  lemma IndexingOk(b: Backend, spec: TableSpec, t0: Table, t: Table, k: nat, ixs: seq<Index>)
    requires WellFormed(spec) && b.tolerant && Feasible(spec, t0) && TableOk(spec, t0, t, k)
    requires ProcessOk(spec, t0, t, k, Indexing(ixs))
    ensures StepOk(spec, t0, t, k, StepOf(b, spec, t, Indexing(ixs)), k)
  {
    assert Missing(spec, t0)[..k] == Missing(spec, t0);
    IndexStep(b, spec, t0, t, k, ixs);
  }

  lemma SuffixAt<T>(m: seq<T>, moment: nat)
    requires moment <= |m|
    ensures |m[moment..]| == |m| - moment && m[|m| - |m[moment..]|..] == m[moment..]
  {
  }

  /** The diff is of columns read at one moment and indexes read at a later one. */
  lemma ReadingOk(b: Backend, spec: TableSpec, t0: Table, t: Table, k: nat, seen: seq<ColumnInfo>)
    requires WellFormed(spec) && AppendOnly(spec, t0) && TableOk(spec, t0, t, k) && SeenOk(spec, t0, k, seen)
    ensures StepOk(spec, t0, t, k, StepOf(b, spec, t, Reading(seen)), k)
  {
    var moment := |seen| - |t0.columns|;
    ReadMoves(b, spec, t, seen);
    SeenDiff(spec, t0, t, k, seen);
    SuffixAt(Missing(spec, t0), moment);
    PlanStays(spec, t0, t, k, Missing(spec, t0)[moment..], MissingIndexes(spec.indexes, t.indexes));
  }

  lemma StepOfOk(b: Backend, spec: TableSpec, t0: Table, t: Table, k: nat, p: Process) returns (k': nat)
    requires WellFormed(spec) && ValidTable(t0) && AppendOnly(spec, t0)
    requires b.tolerant && Feasible(spec, t0)
    requires TableOk(spec, t0, t, k) && ProcessOk(spec, t0, t, k, p)
    ensures StepOk(spec, t0, t, k, StepOf(b, spec, t, p), k')
  {
    k' := k;
    match p {
      case Waiting => ColumnsStep(b, spec, t0, t, k);
      case Reading(seen) => ReadingOk(b, spec, t0, t, k, seen);
      case Adding(cols, Check, ixs) => CheckingOk(b, spec, t0, t, k, cols, ixs);
      case Adding(cols, Alter, ixs) => k' := AlterStep(b, spec, t0, t, k, cols, ixs);
      case Adding(cols, Ux, ixs) => UxOk(b, spec, t0, t, k, cols, ixs);
      case Indexing(ixs) => IndexingOk(b, spec, t0, t, k, ixs);
      case _ =>
    }
  }

  lemma OthersOk(spec: TableSpec, t0: Table, w: World, k: nat, i: nat, r: (Table, Process), k': nat)
    requires WorldOk(spec, t0, w, k) && i < |w.processes| && StepOk(spec, t0, w.table, k, r, k')
    ensures WorldOk(spec, t0, World(r.0, w.processes[i := r.1]), k')
  {
    var after := w.processes[i := r.1];
    forall j | 0 <= j < |after| ensures ProcessOk(spec, t0, r.0, k', after[j]) {
      if j != i { OthersStayOk(spec, t0, w.table, r.0, k, k', w.processes[j]); }
    }
  }

  /** One step of any process keeps the whole world in order. */
  lemma StepKeepsWorld(b: Backend, spec: TableSpec, t0: Table, w: World, k: nat, i: nat) returns (k': nat)
    requires WellFormed(spec) && ValidTable(t0) && AppendOnly(spec, t0)
    requires b.tolerant && Feasible(spec, t0)
    requires WorldOk(spec, t0, w, k)
    ensures WorldOk(spec, t0, Step(b, spec, w, i), k')
  {
    k' := k;
    if i < |w.processes| {
      k' := StepOfOk(b, spec, t0, w.table, k, w.processes[i]);
      OthersOk(spec, t0, w, k, i, StepOf(b, spec, w.table, w.processes[i]), k');
    }
  }

  lemma {:induction false} RunKeepsWorld(b: Backend, spec: TableSpec, t0: Table, n: nat, schedule: seq<nat>)
    returns (k: nat)
    requires WellFormed(spec) && ValidTable(t0) && AppendOnly(spec, t0)
    requires b.tolerant && Feasible(spec, t0)
    ensures WorldOk(spec, t0, Run(b, spec, Start(t0, n), schedule), k)
  {
    if schedule == [] {
      k := 0;
      var m := Missing(spec, t0);
      assert ColumnsAt(spec, t0, 0) == t0.columns;
      assert AppendedRows(t0.rows, m[..0]) == t0.rows;
    } else {
      k := RunKeepsWorld(b, spec, t0, n, schedule[..|schedule| - 1]);
      k := StepKeepsWorld(b, spec, t0, Run(b, spec, Start(t0, n), schedule[..|schedule| - 1]), k,
                          schedule[|schedule| - 1]);
    }
  }

  // ── The theorems ──────────────────────────────────────────────────────────

  /** Under every interleaving no process fails, and at every moment the columns added are a
      prefix of the missing ones, in the spec's order. */
  lemma NobodyFails(b: Backend, spec: TableSpec, t0: Table, n: nat, schedule: seq<nat>)
    requires Setting(b, spec, t0)
    ensures var w := Run(b, spec, Start(t0, n), schedule);
            && (forall i :: 0 <= i < |w.processes| ==> !w.processes[i].Crashed? && !w.processes[i].OutOfPlace?)
            && exists k: nat :: k <= |Missing(spec, t0)| && w.table.columns == ColumnsAt(spec, t0, k)
                                && w.table.rows == AppendedRows(t0.rows, Missing(spec, t0)[..k])
  {
    SettingIsFeasible(b, spec, t0);
    var k := RunKeepsWorld(b, spec, t0, n, schedule);
    var w := Run(b, spec, Start(t0, n), schedule);
    forall i | 0 <= i < |w.processes| ensures !w.processes[i].Crashed? && !w.processes[i].OutOfPlace? {
      assert ProcessOk(spec, t0, w.table, k, w.processes[i]);
    }
  }

  /** As soon as one process has finished, the table conforms, whatever the others still do. */
  lemma FinishedMeansConforming(b: Backend, spec: TableSpec, t0: Table, n: nat, schedule: seq<nat>, i: nat)
    requires Setting(b, spec, t0) && i < n
    requires Run(b, spec, Start(t0, n), schedule).processes[i] == Finished
    ensures var t := Run(b, spec, Start(t0, n), schedule).table;
            && Diff(spec, t.columns, t.indexes).IsEmpty()
            && t.columns == t0.columns + AddedColumns(Missing(spec, t0))
            && t.rows == AppendedRows(t0.rows, Missing(spec, t0))
  {
    SettingIsFeasible(b, spec, t0);
    var k := RunKeepsWorld(b, spec, t0, n, schedule);
    var w := Run(b, spec, Start(t0, n), schedule);
    assert ProcessOk(spec, t0, w.table, k, w.processes[i]);
    var m := Missing(spec, t0);
    assert m[..k] == m && m[k..] == [];
    DiffAt(spec, t0, k, w.table.indexes);
    ReadIndexes(spec, t0, w.table, k);
    var lost := MissingIndexes(spec.indexes, w.table.indexes);
    FirstIsIn(lost);
  }

  // ── Every process gets there ──────────────────────────────────────────────

  function PhaseDone(p: Phase): nat {
    match p case Check => 0 case Alter => 1 case Ux => 2
  }

  /** An upper bound on the statements a process still has to run. */
  function Remaining(spec: TableSpec, p: Process): nat {
    match p
    case Waiting => 3 * |spec.columns| + |spec.indexes| + 3
    case Reading(_) => 3 * |spec.columns| + |spec.indexes| + 2
    case Adding(cols, phase, ixs) =>
      if cols == [] then |ixs| + 2 else 3 * |cols| - PhaseDone(phase) + |ixs| + 1
    case Indexing(ixs) => |ixs| + 1
    case _ => 0
  }

  lemma {:induction false} MissingNoLonger(cs: seq<Column>, have: set<string>)
    ensures |MissingColumns(cs, have)| <= |cs|
  {
    if cs != [] { MissingNoLonger(cs[..|cs| - 1], have); }
  }

  lemma {:induction false} LostNoLonger(ixs: seq<Index>, idx: seq<IndexInfo>)
    ensures |MissingIndexes(ixs, idx)| <= |ixs|
  {
    if ixs != [] { LostNoLonger(ixs[..|ixs| - 1], idx); }
  }

  lemma PlanBound(spec: TableSpec, d: SchemaDiff)
    ensures Remaining(spec, AfterRead(d)) <= 3 * |d.missingColumns| + |d.missingIndexes| + 1
  {
  }

  lemma ReadProgress(b: Backend, spec: TableSpec, t: Table, seen: seq<ColumnInfo>)
    ensures Remaining(spec, StepOf(b, spec, t, Reading(seen)).1) < Remaining(spec, Reading(seen))
  {
    MissingNoLonger(spec.columns, NameSet(Names(seen)));
    LostNoLonger(spec.indexes, t.indexes);
    PlanBound(spec, Diff(spec, seen, t.indexes));
  }

  lemma AddProgress(b: Backend, spec: TableSpec, t: Table, cols: seq<Column>, phase: Phase, ixs: seq<Index>)
    ensures Remaining(spec, StepOf(b, spec, t, Adding(cols, phase, ixs)).1)
            < Remaining(spec, Adding(cols, phase, ixs))
  {
    if cols != [] {
      assert |cols[1..]| == |cols| - 1;
      assert Remaining(spec, AfterColumn(cols[1..], ixs)) <= 3 * (|cols| - 1) + |ixs| + 1;
    }
  }

  /** A move of an unfinished process brings it strictly closer. */
  lemma StepProgress(b: Backend, spec: TableSpec, t: Table, p: Process)
    ensures Remaining(spec, p) > 0 ==> Remaining(spec, StepOf(b, spec, t, p).1) < Remaining(spec, p)
    ensures Remaining(spec, p) == 0 ==> StepOf(b, spec, t, p).1 == p
  {
    match p {
      case Waiting =>
      case Reading(seen) => ReadProgress(b, spec, t, seen);
      case Adding(cols, phase, ixs) => AddProgress(b, spec, t, cols, phase, ixs);
      case _ =>
    }
  }

  function Moves(schedule: seq<nat>, i: nat): nat {
    if schedule == [] then 0
    else Moves(schedule[..|schedule| - 1], i) + if schedule[|schedule| - 1] == i then 1 else 0
  }

  lemma {:induction false} MovesCount(b: Backend, spec: TableSpec, t0: Table, n: nat, schedule: seq<nat>, i: nat)
    requires i < n
    ensures var left := Remaining(spec, Run(b, spec, Start(t0, n), schedule).processes[i]);
            left == 0 || left + Moves(schedule, i) <= Remaining(spec, Waiting)
  {
    if schedule != [] {
      var init, last := schedule[..|schedule| - 1], schedule[|schedule| - 1];
      MovesCount(b, spec, t0, n, init, i);
      var w := Run(b, spec, Start(t0, n), init);
      if last < n { StepProgress(b, spec, w.table, w.processes[last]); }
    }
  }

  lemma NothingLeftIsFinished(spec: TableSpec, t0: Table, t: Table, k: nat, p: Process)
    requires ProcessOk(spec, t0, t, k, p) && Remaining(spec, p) == 0
    ensures p == Finished
  {
  }

  /** A process given that many moves, however they interleave with the others', finishes,
      and leaves an empty diff. */
  lemma EveryProcessFinishes(b: Backend, spec: TableSpec, t0: Table, n: nat, schedule: seq<nat>, i: nat)
    requires Setting(b, spec, t0) && i < n
    requires Moves(schedule, i) >= 3 * |spec.columns| + |spec.indexes| + 3
    ensures var w := Run(b, spec, Start(t0, n), schedule);
            w.processes[i] == Finished && Diff(spec, w.table.columns, w.table.indexes).IsEmpty()
  {
    MovesCount(b, spec, t0, n, schedule, i);
    SettingIsFeasible(b, spec, t0);
    var k := RunKeepsWorld(b, spec, t0, n, schedule);
    var w := Run(b, spec, Start(t0, n), schedule);
    NothingLeftIsFinished(spec, t0, w.table, k, w.processes[i]);
    FinishedMeansConforming(b, spec, t0, n, schedule, i);
  }

  lemma RunMore(b: Backend, spec: TableSpec, w: World, schedule: seq<nat>, i: nat)
    ensures Run(b, spec, w, schedule + [i]) == Step(b, spec, Run(b, spec, w, schedule), i)
  {
    assert (schedule + [i])[..|schedule|] == schedule;
  }

  /** What a process that reads the table as it was sets out to do. */
  function FirstPlan(spec: TableSpec, t0: Table): Process {
    AfterRead(Diff(spec, t0.columns, t0.indexes))
  }

  lemma BothRead(b: Backend, spec: TableSpec, t0: Table)
    ensures Run(b, spec, Start(t0, 2), [0] + [1] + [0] + [1])
         == World(t0, [FirstPlan(spec, t0), FirstPlan(spec, t0)])
  {
    var w, r := Start(t0, 2), Reading(t0.columns);
    assert w.processes == [Waiting, Waiting];
    RunMore(b, spec, w, [], 0);
    assert [] + [0] == [0];
    assert Run(b, spec, w, [0]) == World(t0, [r, Waiting]);
    RunMore(b, spec, w, [0], 1);
    assert Run(b, spec, w, [0] + [1]) == World(t0, [r, r]);
    RunMore(b, spec, w, [0] + [1], 0);
    RunMore(b, spec, w, [0] + [1] + [0], 1);
  }

  /** Both at the same statement: what the first one's leaves, the second one's meets. */
  lemma BothMove(b: Backend, spec: TableSpec, w: World, schedule: seq<nat>, t: Table, p: Process)
    requires Run(b, spec, w, schedule) == World(t, [p, p])
    ensures var (u, first) := StepOf(b, spec, t, p);
            var (v, second) := StepOf(b, spec, u, p);
            Run(b, spec, w, schedule + [0] + [1]) == World(v, [first, second])
  {
    var (u, first) := StepOf(b, spec, t, p);
    RunMore(b, spec, w, schedule, 0);
    assert Run(b, spec, w, schedule + [0]) == World(u, [first, p]);
    RunMore(b, spec, w, schedule + [0], 1);
  }

  lemma PlanAddsColumns(b: Backend, spec: TableSpec, t0: Table)
    requires AppendOnly(spec, t0) && Missing(spec, t0) != []
    ensures FirstPlan(spec, t0) == Adding(Missing(spec, t0), Check, LostIndexes(spec, t0))
    ensures StepOf(b, spec, t0, FirstPlan(spec, t0)) == (t0, Adding(Missing(spec, t0), Alter, LostIndexes(spec, t0)))
  {
    FirstIsIn(Missing(spec, t0));
  }

  /** The second of two ALTERs meets the column. */
  lemma SecondAlterCrashes(b: Backend, spec: TableSpec, t: Table, cols: seq<Column>, ixs: seq<Index>)
    requires !b.tolerant && cols != [] && cols[0].name !in Names(t.columns)
    ensures var u := StepOf(b, spec, t, Adding(cols, Alter, ixs)).0;
            StepOf(b, spec, u, Adding(cols, Alter, ixs)).1 == Crashed
  {
    assert Names(AddColumn(t, cols[0]).columns)[|t.columns|] == cols[0].name;
  }

  /** Both look for the first missing column, both ALTER. */
  lemma ColumnRace(b: Backend, spec: TableSpec, t0: Table) returns (schedule: seq<nat>)
    requires AppendOnly(spec, t0) && !b.tolerant && Missing(spec, t0) != []
    ensures Run(b, spec, Start(t0, 2), schedule).processes[1] == Crashed
  {
    var w := Start(t0, 2);
    var altering := Adding(Missing(spec, t0), Alter, LostIndexes(spec, t0));
    BothRead(b, spec, t0);
    PlanAddsColumns(b, spec, t0);
    BothMove(b, spec, w, [0] + [1] + [0] + [1], t0, FirstPlan(spec, t0));
    FirstIsIn(Missing(spec, t0));
    SecondAlterCrashes(b, spec, t0, Missing(spec, t0), LostIndexes(spec, t0));
    BothMove(b, spec, w, [0] + [1] + [0] + [1] + [0] + [1], t0, altering);
    schedule := [0] + [1] + [0] + [1] + [0] + [1] + [0] + [1];
  }

  /** The second of two CREATE INDEXes meets the index. */
  lemma SecondCreateCrashes(b: Backend, spec: TableSpec, t: Table, ixs: seq<Index>)
    requires !b.tolerant && ixs != []
    requires CreateIndex(false, t, AsInfo(ixs[0])) == Done(t.(indexes := t.indexes + [AsInfo(ixs[0])]))
    ensures var u := StepOf(b, spec, t, Indexing(ixs)).0;
            StepOf(b, spec, u, Indexing(ixs)).1 == Crashed
  {
    var u := t.(indexes := t.indexes + [AsInfo(ixs[0])]);
    assert StepOf(b, spec, t, Indexing(ixs)).0 == u;
    assert FindIndex(u.indexes, ixs[0].name).Some? by { FindIndexAppend(t.indexes, AsInfo(ixs[0]), ixs[0].name); }
    assert CreateIndex(false, u, AsInfo(ixs[0])) == Failed(u);
  }

  /** With no column missing, both create the first lost index. */
  lemma IndexRace(b: Backend, spec: TableSpec, t0: Table) returns (schedule: seq<nat>)
    requires AppendOnly(spec, t0) && !b.tolerant && SucceedsAlone(b, spec, t0)
    requires Missing(spec, t0) == [] && LostIndexes(spec, t0) != []
    ensures Run(b, spec, Start(t0, 2), schedule).processes[1] == Crashed
  {
    var ixs := LostIndexes(spec, t0);
    assert FirstPlan(spec, t0) == Indexing(ixs);
    BothRead(b, spec, t0);
    FirstIndexCreated(b, spec, t0);
    SecondCreateCrashes(b, spec, t0, ixs);
    BothMove(b, spec, Start(t0, 2), [0] + [1] + [0] + [1], t0, Indexing(ixs));
    schedule := [0] + [1] + [0] + [1] + [0] + [1];
  }

  lemma FirstIndexCreated(b: Backend, spec: TableSpec, t0: Table)
    requires AppendOnly(spec, t0) && !b.tolerant && SucceedsAlone(b, spec, t0)
    requires Missing(spec, t0) == [] && LostIndexes(spec, t0) != []
    ensures var ix := AsInfo(LostIndexes(spec, t0)[0]);
            CreateIndex(false, t0, ix) == Done(t0.(indexes := t0.indexes + [ix]))
  {
    var ixs := LostIndexes(spec, t0);
    assert ixs + [] == ixs;
    assert CreateAll(false, t0, ixs).Done?;
    if CreateAll(false, t0, ixs[..1]).Failed? { CreateAllStops(false, t0, ixs, 1); }
    assert ixs[..1][..0] == [] && CreateAll(false, t0, []) == Done(t0);
  }

  /** Where nothing differs, everybody reads and is finished. */
  lemma {:induction false} NothingToDo(b: Backend, spec: TableSpec, t0: Table, n: nat, schedule: seq<nat>)
    requires Diff(spec, t0.columns, t0.indexes).IsEmpty()
    ensures var w := Run(b, spec, Start(t0, n), schedule);
            w.table == t0 && forall i :: 0 <= i < n ==>
              w.processes[i] == Waiting || w.processes[i] == Reading(t0.columns) || w.processes[i] == Finished
  {
    if schedule != [] { NothingToDo(b, spec, t0, n, schedule[..|schedule| - 1]); }
  }

  /** Under every interleaving of any number of processes none fails. */
  ghost predicate NeverCrashes(b: Backend, spec: TableSpec, t0: Table) {
    forall n, schedule: seq<nat>, i | 0 <= i < n :: !Run(b, spec, Start(t0, n), schedule).processes[i].Crashed?
  }

  /** Of an append-only diff that one process gets through: several do without failing exactly when
      duplicates are recognised, or there is nothing to append. Two are enough to fail. */
  lemma IntolerantLosesTheRace(b: Backend, spec: TableSpec, t0: Table)
    requires WellFormed(spec) && ValidTable(t0) && AppendOnly(spec, t0) && SucceedsAlone(b, spec, t0)
    ensures NeverCrashes(b, spec, t0) <==> b.tolerant || (Missing(spec, t0) == [] && LostIndexes(spec, t0) == [])
    ensures !NeverCrashes(b, spec, t0) ==>
              exists schedule :: Run(b, spec, Start(t0, 2), schedule).processes[1] == Crashed
  {
    if b.tolerant {
      forall n, schedule: seq<nat>, i | 0 <= i < n
        ensures !Run(b, spec, Start(t0, n), schedule).processes[i].Crashed?
      {
        NobodyFails(b, spec, t0, n, schedule);
      }
    } else if Missing(spec, t0) != [] {
      var schedule := ColumnRace(b, spec, t0);
      assert Run(b, spec, Start(t0, 2), schedule).processes[1].Crashed?;
    } else if LostIndexes(spec, t0) != [] {
      var schedule := IndexRace(b, spec, t0);
      assert Run(b, spec, Start(t0, 2), schedule).processes[1].Crashed?;
    } else {
      forall n, schedule: seq<nat>, i | 0 <= i < n
        ensures !Run(b, spec, Start(t0, n), schedule).processes[i].Crashed?
      {
        NothingToDo(b, spec, t0, n, schedule);
      }
    }
  }
}
