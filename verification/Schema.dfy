/**
  The declarative table specification and the diff between it and an introspected table.

  Types, defaults and identifiers are canonical values here: how a backend spells them is not
  part of the model.
*/
module Schema {
  import opened Common

  /** The symbolic column types. AUTOINCREMENT is an INTEGER as far as comparison goes. */
  datatype ColType = TextType | IntegerType | RealType | DatetimeType | Autoincrement

  function Canonical(t: ColType): ColType {
    if t == Autoincrement then IntegerType else t
  }

  datatype Column = Column(name: string, ctype: ColType, nullable: bool, default: Option<string>,
                           primaryKey: bool, unique: bool)

  /** One column of an index, with its direction. */
  datatype IndexPart = IndexPart(column: string, descending: bool)

  datatype Index = Index(name: string, parts: seq<IndexPart>, unique: bool)

  /** `renames` keeps the declaration order: the first pair is applied first. */
  datatype TableSpec = TableSpec(
    name: string, columns: seq<Column>, indexes: seq<Index>, compositePk: seq<string>,
    uniqueConstraints: seq<seq<string>>, renames: seq<(string, string)>,
    formerNames: seq<string>, formerIndexes: seq<string>)

  /** What introspection reports. */
  datatype ColumnInfo = ColumnInfo(name: string, ctype: ColType, nullable: bool,
                                   default: Option<string>, pk: bool)

  datatype IndexInfo = IndexInfo(name: string, columns: seq<string>, unique: bool)

  function KeyCols(parts: seq<IndexPart>): seq<string> {
    seq(|parts|, i requires 0 <= i < |parts| => parts[i].column)
  }

  function Names(cols: seq<ColumnInfo>): (r: seq<string>)
    ensures |r| == |cols|
  {
    seq(|cols|, i requires 0 <= i < |cols| => cols[i].name)
  }

  function SpecNames(cols: seq<Column>): (r: seq<string>)
    ensures |r| == |cols|
  {
    seq(|cols|, i requires 0 <= i < |cols| => cols[i].name)
  }

  function NameSet(s: seq<string>): set<string> {
    set n | n in s
  }

  /** Lookup by name; a later column of the same name hides an earlier one. */
  function Find(cols: seq<ColumnInfo>, n: string): (r: Option<ColumnInfo>)
    ensures r.Some? <==> n in Names(cols)
    ensures r.Some? ==> r.value in cols && r.value.name == n
  {
    if cols == [] then None
    else
      assert Names(cols) == Names(cols[..|cols| - 1]) + [cols[|cols| - 1].name];
      if cols[|cols| - 1].name == n then Some(cols[|cols| - 1])
      else Find(cols[..|cols| - 1], n)
  }

  function FindIndex(idx: seq<IndexInfo>, n: string): (r: Option<IndexInfo>)
    ensures r.Some? <==> exists i :: 0 <= i < |idx| && idx[i].name == n
    ensures r.Some? ==> r.value in idx && r.value.name == n
  {
    if idx == [] then None
    else if idx[|idx| - 1].name == n then Some(idx[|idx| - 1])
    else FindIndex(idx[..|idx| - 1], n)
  }

  function PkColumns(spec: TableSpec): set<string> {
    if spec.compositePk != [] then NameSet(spec.compositePk)
    else set c | c in spec.columns && c.primaryKey :: c.name
  }

  function ActualPk(cols: seq<ColumnInfo>): set<string> {
    set c | c in cols && c.pk :: c.name
  }

  /** Nullability and default of these are implied by the key, so they are not compared. */
  predicate KeyColumn(spec: TableSpec, c: Column) {
    c.ctype == Autoincrement || c.primaryKey || c.name in spec.compositePk
  }

  // ── The diff ──────────────────────────────────────────────────────────────

  datatype Gap<T> = Gap(column: string, want: T, got: T)

  datatype SchemaDiff = SchemaDiff(
    missingColumns: seq<Column>, extraColumns: seq<ColumnInfo>,
    typeMismatches: seq<Gap<ColType>>, nullableMismatches: seq<Gap<bool>>,
    defaultMismatches: seq<Gap<Option<string>>>,
    pkMismatch: bool, orderWrong: bool, missingNotTrailing: bool,
    missingIndexes: seq<Index>, changedIndexes: seq<Index>, extraIndexes: seq<IndexInfo>)
  {
    predicate NeedsRebuild() {
      typeMismatches != [] || nullableMismatches != [] || defaultMismatches != []
      || pkMismatch || orderWrong || missingNotTrailing
    }

    predicate IsEmpty() {
      missingColumns == [] && typeMismatches == [] && nullableMismatches == []
      && defaultMismatches == [] && !pkMismatch && !orderWrong
      && missingIndexes == [] && changedIndexes == []
    }
  }

  function MissingColumns(cs: seq<Column>, have: set<string>): (r: seq<Column>)
    ensures forall c :: c in r <==> c in cs && c.name !in have
  {
    if cs == [] then []
    else
      MissingColumns(cs[..|cs| - 1], have)
      + if cs[|cs| - 1].name in have then [] else [cs[|cs| - 1]]
  }

  function ExtraColumns(cols: seq<ColumnInfo>, declared: set<string>): (r: seq<ColumnInfo>)
    ensures forall c :: c in r <==> c in cols && c.name !in declared
  {
    if cols == [] then []
    else
      ExtraColumns(cols[..|cols| - 1], declared)
      + if cols[|cols| - 1].name in declared then [] else [cols[|cols| - 1]]
  }

  datatype Mismatches = Mismatches(types: seq<Gap<ColType>>, nullables: seq<Gap<bool>>,
                                   defaults: seq<Gap<Option<string>>>)

  function CompareColumn(spec: TableSpec, c: Column, a: ColumnInfo): Mismatches {
    Mismatches(
      if Canonical(c.ctype) != Canonical(a.ctype)
      then [Gap(c.name, Canonical(c.ctype), Canonical(a.ctype))] else [],
      if !KeyColumn(spec, c) && c.nullable != a.nullable
      then [Gap(c.name, c.nullable, a.nullable)] else [],
      if !KeyColumn(spec, c) && c.default != a.default
      then [Gap(c.name, c.default, a.default)] else [])
  }

  function Compare(spec: TableSpec, cs: seq<Column>, cols: seq<ColumnInfo>): Mismatches {
    if cs == [] then Mismatches([], [], [])
    else
      var m := Compare(spec, cs[..|cs| - 1], cols);
      match Find(cols, cs[|cs| - 1].name)
      case None => m
      case Some(a) =>
        var d := CompareColumn(spec, cs[|cs| - 1], a);
        Mismatches(m.types + d.types, m.nullables + d.nullables, m.defaults + d.defaults)
  }

  predicate SameIndex(ix: Index, e: IndexInfo) {
    e.columns == KeyCols(ix.parts) && e.unique == ix.unique
  }

  function MissingIndexes(ixs: seq<Index>, idx: seq<IndexInfo>): (r: seq<Index>)
    ensures forall i :: i in r <==> i in ixs && FindIndex(idx, i.name).None?
  {
    if ixs == [] then []
    else
      MissingIndexes(ixs[..|ixs| - 1], idx)
      + if FindIndex(idx, ixs[|ixs| - 1].name).None? then [ixs[|ixs| - 1]] else []
  }

  predicate Changed(ix: Index, idx: seq<IndexInfo>) {
    var e := FindIndex(idx, ix.name);
    e.Some? && !SameIndex(ix, e.value)
  }

  function ChangedIndexes(ixs: seq<Index>, idx: seq<IndexInfo>): (r: seq<Index>)
    ensures forall i :: i in r <==> i in ixs && Changed(i, idx)
  {
    if ixs == [] then []
    else
      ChangedIndexes(ixs[..|ixs| - 1], idx)
      + if Changed(ixs[|ixs| - 1], idx) then [ixs[|ixs| - 1]] else []
  }

  function ExtraIndexes(idx: seq<IndexInfo>, declared: set<string>): seq<IndexInfo> {
    if idx == [] then []
    else
      ExtraIndexes(idx[..|idx| - 1], declared)
      + if idx[|idx| - 1].name in declared then [] else [idx[|idx| - 1]]
  }

  /** A missing column comes before a present one: ADD COLUMN cannot put it in its place. */
  predicate MissingBeforePresent(names: seq<string>, have: set<string>) {
    exists i, j :: 0 <= i < j < |names| && names[i] !in have && names[j] in have
  }

  function Diff(spec: TableSpec, cols: seq<ColumnInfo>, idx: seq<IndexInfo>): SchemaDiff {
    var have := NameSet(Names(cols));
    var declared := NameSet(SpecNames(spec.columns));
    var m := Compare(spec, spec.columns, cols);
    SchemaDiff(
      MissingColumns(spec.columns, have), ExtraColumns(cols, declared),
      m.types, m.nullables, m.defaults,
      PkColumns(spec) != ActualPk(cols),
      FilterIn(Names(cols), declared) != FilterIn(SpecNames(spec.columns), have),
      MissingBeforePresent(SpecNames(spec.columns), have),
      MissingIndexes(spec.indexes, idx), ChangedIndexes(spec.indexes, idx),
      ExtraIndexes(idx, set i | i in spec.indexes :: i.name))
  }

  /** The pass over the declared columns: what is missing, how the common ones differ. */
  method ScanColumns(spec: TableSpec, cols: seq<ColumnInfo>)
    returns (missing: seq<Column>, m: Mismatches)
    ensures missing == MissingColumns(spec.columns, NameSet(Names(cols)))
    ensures m == Compare(spec, spec.columns, cols)
  {
    var have := NameSet(Names(cols));
    missing, m := [], Mismatches([], [], []);
    for k := 0 to |spec.columns|
      invariant missing == MissingColumns(spec.columns[..k], have)
      invariant m == Compare(spec, spec.columns[..k], cols)
    {
      var c := spec.columns[k];
      assert spec.columns[..k + 1][..k] == spec.columns[..k];
      var found := Find(cols, c.name);
      if found.None? {
        missing := missing + [c];
      } else {
        var d := CompareColumn(spec, c, found.value);
        m := Mismatches(m.types + d.types, m.nullables + d.nullables, m.defaults + d.defaults);
      }
    }
    assert spec.columns[..|spec.columns|] == spec.columns;
  }

  /** First missing position before last present position, as the code compares them. */
  method MissingNotTrailing(names: seq<string>, have: set<string>) returns (r: bool)
    ensures r == MissingBeforePresent(names, have)
  {
    var firstMissing, lastPresent := |names|, -1;
    for k := 0 to |names|
      invariant firstMissing == |names| || (0 <= firstMissing < k && names[firstMissing] !in have)
      invariant forall i :: 0 <= i < k && i < firstMissing ==> names[i] in have
      invariant lastPresent == -1 || (0 <= lastPresent < k && names[lastPresent] in have)
      invariant forall i :: lastPresent < i < k ==> names[i] !in have
    {
      if names[k] in have {
        lastPresent := k;
      } else if firstMissing == |names| {
        firstMissing := k;
      }
    }
    r := firstMissing < |names| && lastPresent >= 0 && firstMissing < lastPresent;
  }

  /** The pass over the declared indexes. */
  method ScanIndexes(spec: TableSpec, idx: seq<IndexInfo>)
    returns (missing: seq<Index>, changed: seq<Index>)
    ensures missing == MissingIndexes(spec.indexes, idx)
    ensures changed == ChangedIndexes(spec.indexes, idx)
  {
    missing, changed := [], [];
    for k := 0 to |spec.indexes|
      invariant missing == MissingIndexes(spec.indexes[..k], idx)
      invariant changed == ChangedIndexes(spec.indexes[..k], idx)
    {
      var ix := spec.indexes[k];
      assert spec.indexes[..k + 1][..k] == spec.indexes[..k];
      var existing := FindIndex(idx, ix.name);
      if existing.None? {
        missing := missing + [ix];
      } else if existing.value.columns != KeyCols(ix.parts) || existing.value.unique != ix.unique {
        changed := changed + [ix];
      }
    }
    assert spec.indexes[..|spec.indexes|] == spec.indexes;
  }

  /** The whole comparison. An empty answer means the table conforms, and only then. */
  method DiffTable(spec: TableSpec, cols: seq<ColumnInfo>, idx: seq<IndexInfo>)
    returns (diff: SchemaDiff)
    ensures diff == Diff(spec, cols, idx)
    ensures diff.IsEmpty() <==> Conforms(spec, cols, idx)
  {
    var have, declared := NameSet(Names(cols)), NameSet(SpecNames(spec.columns));
    var missing, m := ScanColumns(spec, cols);
    var notTrailing := MissingNotTrailing(SpecNames(spec.columns), have);
    var lost, changed := ScanIndexes(spec, idx);
    diff := SchemaDiff(
      missing, ExtraColumns(cols, declared), m.types, m.nullables, m.defaults,
      PkColumns(spec) != ActualPk(cols),
      FilterIn(Names(cols), declared) != FilterIn(SpecNames(spec.columns), have),
      notTrailing, lost, changed, ExtraIndexes(idx, set i | i in spec.indexes :: i.name));
    DiffEmptyIffConforms(spec, cols, idx);
  }

  // ── What an empty diff means ──────────────────────────────────────────────

  predicate ColumnConforms(spec: TableSpec, c: Column, cols: seq<ColumnInfo>) {
    var a := Find(cols, c.name);
    a.Some? && Canonical(a.value.ctype) == Canonical(c.ctype)
    && (!KeyColumn(spec, c) ==> a.value.nullable == c.nullable && a.value.default == c.default)
  }

  predicate IndexConforms(ix: Index, idx: seq<IndexInfo>) {
    var e := FindIndex(idx, ix.name);
    e.Some? && SameIndex(ix, e.value)
  }

  /** The physical table is what the spec asks for: every declared column and index is there
      as declared, in the declared order, under the declared key. Extras are allowed. */
  predicate Conforms(spec: TableSpec, cols: seq<ColumnInfo>, idx: seq<IndexInfo>) {
    && (forall c :: c in spec.columns ==> ColumnConforms(spec, c, cols))
    && ActualPk(cols) == PkColumns(spec)
    && FilterIn(Names(cols), NameSet(SpecNames(spec.columns))) == SpecNames(spec.columns)
    && (forall ix :: ix in spec.indexes ==> IndexConforms(ix, idx))
  }

  lemma {:induction false} CompareEmpty(spec: TableSpec, cs: seq<Column>, cols: seq<ColumnInfo>)
    ensures Compare(spec, cs, cols) == Mismatches([], [], [])
            <==> forall c :: c in cs && c.name in Names(cols) ==> ColumnConforms(spec, c, cols)
  {
    if cs != [] {
      CompareEmpty(spec, cs[..|cs| - 1], cols);
      assert forall c :: c in cs <==> c in cs[..|cs| - 1] || c == cs[|cs| - 1];
    }
  }

  lemma NothingMissing(cs: seq<Column>, have: set<string>)
    ensures MissingColumns(cs, have) == [] <==> forall c :: c in cs ==> c.name in have
    ensures MissingColumns(cs, have) == [] ==> FilterIn(SpecNames(cs), have) == SpecNames(cs)
  {
    var m := MissingColumns(cs, have);
    if m == [] {
      forall i | 0 <= i < |cs| ensures SpecNames(cs)[i] in have {
        assert cs[i] !in m;
      }
      FilterInAll(SpecNames(cs), have);
    } else {
      assert m[0] in m;
    }
  }

  /** An empty diff says exactly that the table conforms. */
  lemma DiffEmptyIffConforms(spec: TableSpec, cols: seq<ColumnInfo>, idx: seq<IndexInfo>)
    ensures Diff(spec, cols, idx).IsEmpty() <==> Conforms(spec, cols, idx)
  {
    CompareEmpty(spec, spec.columns, cols);
    NothingMissing(spec.columns, NameSet(Names(cols)));
    IndexesEmpty(spec.indexes, idx);
  }

  lemma IndexesEmpty(ixs: seq<Index>, idx: seq<IndexInfo>)
    ensures MissingIndexes(ixs, idx) == [] && ChangedIndexes(ixs, idx) == []
            <==> forall ix :: ix in ixs ==> IndexConforms(ix, idx)
  {
    if MissingIndexes(ixs, idx) != [] {
      assert MissingIndexes(ixs, idx)[0] in ixs;
    }
    if ChangedIndexes(ixs, idx) != [] {
      assert ChangedIndexes(ixs, idx)[0] in ixs;
    }
    forall ix | ix in ixs && !IndexConforms(ix, idx)
      ensures ix in MissingIndexes(ixs, idx) || ix in ChangedIndexes(ixs, idx)
    {
    }
  }
}
