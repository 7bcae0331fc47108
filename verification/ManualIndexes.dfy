/**
  Indexes nobody declared: which of them a rebuild carries over.
*/
module ManualIndexes {
  import opened Common
  import opened Schema
  import opened Engine
  import opened Reconcile
  import opened Convergence
  import opened SecondPass

  /** The statement that would create it again succeeds on the rebuilt table. */
  predicate Recreatable(b: Backend, t: Table, info: IndexInfo) {
    && info.name !in b.unprintable
    && (forall c :: c in info.columns ==> c in Names(t.columns))
    && (info.unique ==> UniqueOn(t.rows, info.columns))
  }

  lemma CreatedWhenRecreatable(b: Backend, t: Table, info: IndexInfo)
    requires info.name !in b.unprintable
    ensures CreateIndex(false, t, info) ==
              if FindIndex(t.indexes, info.name).None? && Recreatable(b, t, info)
              then Done(t.(indexes := t.indexes + [info])) else Failed(t)
  {
  }

  lemma OptionalIndexIs(b: Backend, t: Table, info: IndexInfo)
    ensures OptionalIndex(b, t, info) ==
              if FindIndex(t.indexes, info.name).None? && Recreatable(b, t, info)
              then t.(indexes := t.indexes + [info]) else t
  {
    if info.name !in b.unprintable { CreatedWhenRecreatable(b, t, info); }
  }

  lemma OptionalIndexOn(b: Backend, t: Table, info: IndexInfo, n: string)
    ensures FindIndex(OptionalIndex(b, t, info).indexes, n) ==
              if n == info.name && FindIndex(t.indexes, n).None? && Recreatable(b, t, info)
              then Some(info) else FindIndex(t.indexes, n)
  {
    var added := FindIndex(t.indexes, info.name).None? && Recreatable(b, t, info);
    OptionalIndexIs(b, t, info);
    FindIndexAppend(t.indexes, info, n);
    assert OptionalIndex(b, t, info).indexes == if added then t.indexes + [info] else t.indexes;
  }

  /** Of the listed indexes, the one of this name is decided when its turn comes. */
  lemma {:induction false} RestoreExtrasFind(b: Backend, spec: TableSpec, t: Table, infos: seq<IndexInfo>, k: nat)
    requires Distinct(IndexNames(infos)) && k < |infos| && FindIndex(t.indexes, infos[k].name).None?
    ensures FindIndex(RestoreExtras(b, spec, t, infos).indexes, infos[k].name) ==
              if CarriedOver(spec, infos[k]) && Recreatable(b, t, infos[k]) then Some(infos[k]) else None
  {
    var init, last := infos[..|infos| - 1], infos[|infos| - 1];
    var u := RestoreExtras(b, spec, t, init);
    RestoreExtrasShape(b, spec, t, init);
    assert IndexNames(infos)[k] == infos[k].name && IndexNames(infos)[|infos| - 1] == last.name;
    if k == |infos| - 1 {
      assert forall j :: 0 <= j < |init| ==> init[j].name != infos[k].name by {
        assert forall j :: 0 <= j < |init| ==> IndexNames(infos)[j] == init[j].name;
      }
      RestoreExtrasAbsent(b, spec, t, init, infos[k].name);
    } else {
      assert IndexNames(init) == IndexNames(infos)[..|infos| - 1];
      RestoreExtrasFind(b, spec, t, init, k);
    }
    OptionalIndexOn(b, u, last, infos[k].name);
  }

  /** A rebuild keeps exactly the undeclared indexes that are worth carrying over and can be created
      again on the rebuilt table; one that cannot goes without an error. */
  lemma ManualIndexKeptExactly(b: Backend, spec: TableSpec, t: Table, k: nat)
    requires WellFormed(spec) && Rebuilt(b, spec, t).Done? && Distinct(IndexNames(t.indexes))
    requires k < |t.indexes| && forall ix :: ix in spec.indexes ==> ix.name != t.indexes[k].name
    ensures var u := Rebuilt(b, spec, t).table;
            FindIndex(u.indexes, t.indexes[k].name) ==
              if CarriedOver(spec, t.indexes[k]) && Recreatable(b, u, t.indexes[k]) then Some(t.indexes[k]) else None
  {
    var created := CreateAll(false, Copied(spec, t), spec.indexes).table;
    NothingCreatedUnder(spec, t, t.indexes[k].name);
    RestoreExtrasShape(b, spec, created, t.indexes);
    RestoreExtrasFind(b, spec, created, t.indexes, k);
  }

  lemma NothingCreatedUnder(spec: TableSpec, t: Table, n: string)
    requires WellFormed(spec) && CreateAll(false, Copied(spec, t), spec.indexes).Done?
    requires forall ix :: ix in spec.indexes ==> ix.name != n
    ensures FindIndex(CreateAll(false, Copied(spec, t), spec.indexes).table.indexes, n).None?
  {
    CreateAllShape(false, Copied(spec, t), spec.indexes);
    assert n !in SpecIndexNames(spec.indexes);
  }
}
