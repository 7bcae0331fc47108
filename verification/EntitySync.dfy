/**
  Saving in-memory copies of users and groups: each process writes the difference between what it
  holds and what it last read or wrote, so that several processes can share one table.
*/
module EntitySync {
  import opened Common
  import opened Patches

  type Row = string
  type Rows = map<string, Row>

  datatype Changes = Changes(writes: Rows, deletes: set<string>)

  function Diff(before: Rows, after: Rows): Changes {
    Changes(map u | u in after && (u !in before || before[u] != after[u]) :: after[u],
            set u | u in before && u !in after)
  }

  predicate NoChange(d: Changes) {
    d.writes == map[] && d.deletes == {}
  }

  /** One transaction: the deletes, then the writes. */
  function Applied(table: Rows, d: Changes): Rows {
    table - d.deletes + d.writes
  }

  /** Applied to any table at all, the difference of two snapshots changes the rows they differ on,
      to what the second has, and no other: a three-way merge. */
  lemma DiffIsAThreeWayMerge(table: Rows, before: Rows, after: Rows, u: string)
    ensures Lookup(Applied(table, Diff(before, after)), u)
         == if Lookup(before, u) == Lookup(after, u) then Lookup(table, u) else Lookup(after, u)
  {
    var d := Diff(before, after);
    assert u in d.writes <==> u in after && Lookup(before, u) != Lookup(after, u);
  }

  lemma SameRows(a: Rows, b: Rows)
    requires forall u :: Lookup(a, u) == Lookup(b, u)
    ensures a == b
  {
    forall u ensures u in a <==> u in b {
      assert Lookup(a, u) == Lookup(b, u);
    }
    forall u | u in a ensures a[u] == b[u] {
      assert Lookup(a, u) == Lookup(b, u);
    }
  }

  /** Applied to its own first snapshot, a difference gives the second. */
  lemma DiffGivesAfter(before: Rows, after: Rows)
    ensures Applied(before, Diff(before, after)) == after
  {
    forall u ensures Lookup(Applied(before, Diff(before, after)), u) == Lookup(after, u) {
      DiffIsAThreeWayMerge(before, before, after, u);
    }
    SameRows(Applied(before, Diff(before, after)), after);
  }

  // ── Processes ─────────────────────────────────────────────────────────────

  /** A process: what it holds, and the snapshot its next save is diffed against. */
  datatype Replica = Replica(held: Rows, atLoad: Rows)

  datatype State = State(table: Rows, replicas: map<nat, Replica>)

  /** A load; an edit of what is held; a save, whose transaction succeeds or fails. */
  datatype Event = Load(t: nat) | Edit(t: nat, held: Rows) | Persist(t: nat, stored: bool)

  /** The save: nothing if nothing differs; else apply, and take a new snapshot whether or not the
      store took it. */
  function PersistStep(s: State, t: nat, stored: bool): State
    requires t in s.replicas
  {
    var r := s.replicas[t];
    var d := Diff(r.atLoad, r.held);
    if NoChange(d) then s
    else State(if stored then Applied(s.table, d) else s.table, s.replicas[t := r.(atLoad := r.held)])
  }

  function Step(s: State, e: Event): State {
    match e
    case Load(t) => s.(replicas := s.replicas[t := Replica(s.table, s.table)])
    case Edit(t, held) => if t in s.replicas then s.(replicas := s.replicas[t := s.replicas[t].(held := held)]) else s
    case Persist(t, stored) => if t in s.replicas then PersistStep(s, t, stored) else s
  }

  function Run(s: State, es: seq<Event>): State {
    if es == [] then s else Step(Run(s, es[..|es| - 1]), es[|es| - 1])
  }

  /** The process has an unsaved edit of this row. */
  predicate Edited(r: Replica, u: string) {
    Lookup(r.held, u) != Lookup(r.atLoad, u)
  }

  lemma NoChangeMeansNoEdit(r: Replica, u: string)
    requires NoChange(Diff(r.atLoad, r.held))
    ensures !Edited(r, u)
  {
    var d := Diff(r.atLoad, r.held);
    assert u !in d.writes && u !in d.deletes;
  }

  /** What one step does to one row: only a save that edited it and was stored changes it, to what
      the saving process holds; a row goes only if that process had seen it. */
  lemma StepOnRow(s: State, e: Event, u: string)
    ensures Lookup(Step(s, e).table, u) ==
              if e.Persist? && e.t in s.replicas && e.stored && Edited(s.replicas[e.t], u)
              then Lookup(s.replicas[e.t].held, u) else Lookup(s.table, u)
    ensures u in s.table && u !in Step(s, e).table ==>
              e.Persist? && e.t in s.replicas && u in s.replicas[e.t].atLoad && u !in s.replicas[e.t].held
  {
    if e.Persist? && e.t in s.replicas {
      var r := s.replicas[e.t];
      DiffIsAThreeWayMerge(s.table, r.atLoad, r.held, u);
      if NoChange(Diff(r.atLoad, r.held)) { NoChangeMeansNoEdit(r, u); }
    }
  }

  /** Over any run of any processes, a row that no save edits stays as it is. */
  lemma {:induction false} UneditedRowsStay(s: State, es: seq<Event>, u: string)
    requires forall i :: 0 <= i < |es| && es[i].Persist? ==>
               var now := Run(s, es[..i]); es[i].t in now.replicas ==> !Edited(now.replicas[es[i].t], u)
    ensures Lookup(Run(s, es).table, u) == Lookup(s.table, u)
  {
    if es != [] {
      var init := es[..|es| - 1];
      forall i | 0 <= i < |init| && init[i].Persist?
        ensures var now := Run(s, init[..i]); init[i].t in now.replicas ==> !Edited(now.replicas[init[i].t], u)
      {
        assert init[..i] == es[..i];
      }
      UneditedRowsStay(s, init, u);
      StepOnRow(Run(s, init), es[|es| - 1], u);
    }
  }

  /** Over any run, a row goes only in a save of a process that had seen it: in its own snapshot,
      and gone from what it holds. */
  lemma {:induction false} RowsGoOnlyBySeenDeletes(s: State, es: seq<Event>, u: string) returns (i: nat)
    requires u in s.table && u !in Run(s, es).table
    ensures i < |es| && es[i].Persist?
    ensures var now := Run(s, es[..i]);
            es[i].t in now.replicas && u in now.replicas[es[i].t].atLoad && u !in now.replicas[es[i].t].held
  {
    var init := es[..|es| - 1];
    if u in Run(s, init).table {
      i := |es| - 1;
      StepOnRow(Run(s, init), es[i], u);
    } else {
      i := RowsGoOnlyBySeenDeletes(s, init, u);
      assert init[..i] == es[..i];
    }
  }

  /** The statements of a save. */
  function Statements(t: nat, r: Replica): seq<Op<string, Row>> {
    var d := Diff(r.atLoad, r.held);
    [Delete(t, d.deletes), Put(t, d.writes)]
  }

  /** Saves of several processes, one after the other. */
  function SaveAll(table: Rows, rs: map<nat, Replica>, order: seq<nat>): Rows {
    if order == [] then table
    else
      var before := SaveAll(table, rs, order[..|order| - 1]);
      var t := order[|order| - 1];
      if t in rs then Applied(before, Diff(rs[t].atLoad, rs[t].held)) else before
  }

  function StatementsOf(rs: map<nat, Replica>, order: seq<nat>): seq<Op<string, Row>> {
    if order == [] then []
    else
      var t := order[|order| - 1];
      StatementsOf(rs, order[..|order| - 1]) + if t in rs then Statements(t, rs[t]) else []
  }

  lemma ApplySave(table: Rows, ops: seq<Op<string, Row>>, t: nat, r: Replica)
    ensures ApplyAll(table, ops + Statements(t, r)) == Applied(ApplyAll(table, ops), Diff(r.atLoad, r.held))
  {
    var d := Diff(r.atLoad, r.held);
    var del, put := Op.Delete(t, d.deletes), Op.Put(t, d.writes);
    assert ops + Statements(t, r) == (ops + [del]) + [put];
    assert ((ops + [del]) + [put])[..|ops| + 1] == ops + [del];
    assert (ops + [del])[..|ops|] == ops;
  }

  lemma {:induction false} SaveAllIsItsStatements(table: Rows, rs: map<nat, Replica>, order: seq<nat>)
    ensures SaveAll(table, rs, order) == ApplyAll(table, StatementsOf(rs, order))
  {
    if order != [] {
      var init, t := order[..|order| - 1], order[|order| - 1];
      SaveAllIsItsStatements(table, rs, init);
      if t in rs { ApplySave(table, StatementsOf(rs, init), t, rs[t]); }
      assert StatementsOf(rs, init) + [] == StatementsOf(rs, init);
    }
  }

  lemma OwnOfTwo<K, V>(ops: seq<Op<K, V>>, a: Op<K, V>, b: Op<K, V>, t: nat)
    requires a.writer == b.writer
    ensures Own(ops + [a, b], t) == if a.writer == t then Own(ops, t) + [a, b] else Own(ops, t)
  {
    assert ops + [a, b] == (ops + [a]) + [b];
    assert ((ops + [a]) + [b])[..|ops| + 1] == ops + [a];
    assert (ops + [a])[..|ops|] == ops;
    assert Own(ops + [a], t) == Own(ops, t) + if a.writer == t then [a] else [];
    assert Own(ops, t) + [a] + [b] == Own(ops, t) + [a, b];
    assert Own(ops, t) + [] + [] == Own(ops, t);
  }

  lemma {:induction false} OwnStatements(rs: map<nat, Replica>, order: seq<nat>, t: nat)
    requires Distinct(order)
    ensures Own(StatementsOf(rs, order), t) == if t in order && t in rs then Statements(t, rs[t]) else []
  {
    if order != [] {
      var init, last := order[..|order| - 1], order[|order| - 1];
      OwnStatements(rs, init, t);
      assert StatementsOf(rs, init) + [] == StatementsOf(rs, init);
      if last in rs {
        OwnOfTwo(StatementsOf(rs, init), Statements(last, rs[last])[0], Statements(last, rs[last])[1], t);
        assert last == t ==> t !in init;
        assert [] + Statements(last, rs[last]) == Statements(last, rs[last]);
      }
    }
  }

  /** Processes that edited no row in common leave the same table in whatever order they save. */
  lemma DisjointSavesCommute(table: Rows, rs: map<nat, Replica>, a: seq<nat>, b: seq<nat>)
    requires Distinct(a) && Distinct(b) && forall t :: t in a <==> t in b
    requires forall s, t, u: string :: s in rs && t in rs && s != t && Edited(rs[s], u) ==> !Edited(rs[t], u)
    ensures SaveAll(table, rs, a) == SaveAll(table, rs, b)
  {
    var x, y := StatementsOf(rs, a), StatementsOf(rs, b);
    forall t ensures Own(x, t) == Own(y, t) {
      OwnStatements(rs, a, t);
      OwnStatements(rs, b, t);
    }
    forall p, q, u: string | p in x && q in x && p.writer != q.writer && p.Touches(u) ensures !q.Touches(u) {
      TouchIsEdit(rs, a, p, u);
      if q.Touches(u) { TouchIsEdit(rs, a, q, u); }
    }
    DisjointWritersCommute(table, x, y);
    SaveAllIsItsStatements(table, rs, a);
    SaveAllIsItsStatements(table, rs, b);
  }

  lemma TouchIsEdit(rs: map<nat, Replica>, order: seq<nat>, op: Op<string, Row>, u: string)
    requires Distinct(order) && op in StatementsOf(rs, order) && op.Touches(u)
    ensures op.writer in rs && Edited(rs[op.writer], u)
  {
    OwnIsMine(StatementsOf(rs, order), op.writer);
    OwnStatements(rs, order, op.writer);
  }

  // ── A save the store refused ──────────────────────────────────────────────

  /** After a save the table has the process's edits exactly when the store took it, or had them
      already. */
  lemma SavedExactlyWhenStored(s: State, t: nat, stored: bool)
    requires t in s.replicas
    ensures (forall u :: Edited(s.replicas[t], u) ==>
               Lookup(PersistStep(s, t, stored).table, u) == Lookup(s.replicas[t].held, u))
       <==> stored || forall u :: Edited(s.replicas[t], u) ==> Lookup(s.table, u) == Lookup(s.replicas[t].held, u)
  {
    forall u ensures Lookup(PersistStep(s, t, stored).table, u) ==
      if stored && Edited(s.replicas[t], u) then Lookup(s.replicas[t].held, u) else Lookup(s.table, u)
    {
      assert Step(s, Persist(t, stored)) == PersistStep(s, t, stored);
      StepOnRow(s, Persist(t, stored), u);
    }
  }

  /** A refused save is forgotten: the snapshot moves on all the same, and saving again, with the
      store working, writes nothing. */
  lemma RefusedSaveIsForgotten(s: State, t: nat)
    requires t in s.replicas && !NoChange(Diff(s.replicas[t].atLoad, s.replicas[t].held))
    ensures var refused := PersistStep(s, t, false);
            t in refused.replicas && PersistStep(refused, t, true).table == s.table
  {
    var held := s.replicas[t].held;
    assert NoChange(Diff(held, held)) by {
      assert Diff(held, held).writes == map[];
    }
  }

  // ── The command-line context ──────────────────────────────────────────────

  class Context {
    var table: Rows
    var users: Rows
    var usersAtLoad: Rows

    constructor (stored: Rows)
      ensures table == users == usersAtLoad == stored
    {
      table, users, usersAtLoad := stored, stored, stored;
    }

    /** The store's transaction: all of it, or nothing and `false`. */
    method Apply(d: Changes, works: bool) returns (ok: bool)
      modifies `table
      ensures ok == works && table == if works then Applied(old(table), d) else old(table)
    {
      if !works { return false; }
      var gone := d.deletes;
      while gone != {}
        invariant gone <= d.deletes && table == old(table) - (d.deletes - gone)
        decreases gone
      {
        var u :| u in gone;
        ghost var done := d.deletes - gone;
        table := table - {u};
        gone := gone - {u};
        assert d.deletes - gone == done + {u};
      }
      assert d.deletes - {} == d.deletes;
      ghost var left := table;
      var todo := d.writes.Keys;
      while todo != {}
        invariant todo <= d.writes.Keys
        invariant table.Keys == left.Keys + (d.writes.Keys - todo)
        invariant forall u :: u in table ==> table[u] == if u in d.writes && u !in todo then d.writes[u] else left[u]
        decreases todo
      {
        var u :| u in todo;
        table := table[u := d.writes[u]];
        todo := todo - {u};
      }
      assert table == left + d.writes;
      return true;
    }

    method PersistUsers(works: bool)
      modifies `table, `usersAtLoad
      ensures State(table, map[0 := Replica(users, usersAtLoad)])
           == Step(old(State(table, map[0 := Replica(users, usersAtLoad)])), Persist(0, works))
      ensures works ==> forall u :: Edited(Replica(users, old(usersAtLoad)), u) ==> Lookup(table, u) == Lookup(users, u)
      ensures forall u :: !Edited(Replica(users, old(usersAtLoad)), u) ==> Lookup(table, u) == Lookup(old(table), u)
    {
      var d := Diff(usersAtLoad, users);
      ghost var before := State(table, map[0 := Replica(users, usersAtLoad)]);
      if !NoChange(d) {
        var _ := Apply(d, works);
        usersAtLoad := users;
      }
      forall u ensures Lookup(table, u) ==
        if works && Edited(before.replicas[0], u) then Lookup(users, u) else Lookup(before.table, u)
      {
        StepOnRow(before, Persist(0, works), u);
      }
    }
  }
}
