/**
  The MySQL rebuild as the connector runs it, statement by statement on the server's tables,
  with other sessions inserting in every gap. Each run is one of the runs of the protocol in
  `MySqlRebuild`, so its theorems hold of it.
*/
module MySqlServer {
  import opened Common
  import opened Schema
  import opened Engine
  import opened MySqlRebuild

  /** What the first pass makes of the copy: the live rows whose key it lacked are in it, converted,
      and what was there is as it was. */
  ghost predicate Caught(p: Plan, copy: Rows, live: Rows, after: Rows) {
    && copy.Keys <= after.Keys <= copy.Keys + live.Keys
    && forall i :: i in live ==>
         if KeyTaken(p, copy, live[i]) then i in copy ==> i in after && after[i] == copy[i]
         else i in after && after[i] == Conv(p, live[i], i)
  }

  lemma CaughtUpIsCaught(p: Plan, copy: Rows, live: Rows)
    ensures Caught(p, copy, live, CaughtUp(p, copy, live))
  {
  }

  /** `others` holds the rows other sessions are going to insert, a batch for each gap between
      two statements or between two rows of the second pass. */
  class Server {
    const plan: Plan
    var live: Rows
    var copy: Option<Rows>
    var backup: Option<Rows>
    var todo: set<nat>
    var next: nat
    var others: seq<seq<Row>>
    var at: At
    var swapped: bool
    ghost var ever: Rows
    ghost var late: set<nat>

    constructor (p: Plan, rows: Rows, count: nat, leftCopy: Option<Rows>, leftBackup: Option<Rows>,
                 arriving: seq<seq<Row>>)
      ensures plan == p && others == arriving
      ensures Now() == State(ToDropCopy, rows, leftCopy, leftBackup, false, {}, count, rows, {})
    {
      plan, live, copy, backup, todo, next := p, rows, leftCopy, leftBackup, {}, count;
      others, at, swapped, ever, late := arriving, ToDropCopy, false, rows, {};
    }

    ghost function Now(): State
      reads this
    {
      State(at, live, copy, backup, swapped, todo, next, ever, late)
    }

    /** One committed INSERT of another session, or none if the table refuses the row. */
    method InsertRow(r: Row)
      modifies `live, `next, `ever, `late
      ensures Now() == InsertStep(plan, old(Now()), r)
    {
      var taken := if swapped then Accepts(NewCols(plan), NewKeys(plan.spec), live, r)
                   else Accepts(plan.oldCols, OldKeySet(plan), live, r);
      if taken {
        live := live[next := r];
        ever := ever[next := r];
        if swapped { late := late + {next}; }
        next := next + 1;
      }
    }

    /** The next batch of the other sessions goes in. */
    method Gap(ghost start: State, ghost before: seq<Event>) returns (ghost es: seq<Event>)
      requires Now() == Run(plan, start, before)
      modifies `live, `next, `ever, `late, `others
      ensures before <= es && Now() == Run(plan, start, es)
    {
      es := before;
      if others != [] {
        var batch := others[0];
        others := others[1..];
        for i := 0 to |batch|
          invariant before <= es && Now() == Run(plan, start, es)
        {
          InsertRow(batch[i]);
          es := Then(plan, start, es, Insert(batch[i]));
        }
      }
    }

    /** DROP TABLE IF EXISTS of both working names. */
    method DropLeftovers(ghost start: State) returns (ghost es: seq<Event>)
      requires at == ToDropCopy && Now() == start
      modifies this
      ensures Now() == Run(plan, start, es)
      ensures at == ToCreate && swapped == old(swapped)
    {
      copy, at := None, ToDropBackup;
      es := Then(plan, start, [], Advance);
      es := Gap(start, es);
      backup, at := None, ToCreate;
      es := Then(plan, start, es, Advance);
    }

    /** CREATE TABLE under the first working name. */
    method CreateCopy(ghost start: State, ghost before: seq<Event>) returns (ok: bool, ghost es: seq<Event>)
      requires at == ToCreate && Now() == Run(plan, start, before)
      modifies this
      ensures es == before + [Advance] && Now() == Run(plan, start, es)
      ensures at == if ok then ToCopy else Stopped
      ensures swapped == old(swapped) && live == old(live) && (ok ==> copy == Some(map[]))
    {
      ok := CreateAccepted(plan.spec, ExtraColumns(plan.oldCols, NameSet(SpecNames(plan.spec.columns))));
      if ok { copy, at := Some(map[]), ToCopy; } else { at := Stopped; }
      es := Then(plan, start, before, Advance);
    }

    /** INSERT … SELECT of the whole table, committed: every row of it, converted, or nothing if one
        of them breaks a constraint of the new table. */
    method CopyRows(ghost start: State, ghost before: seq<Event>) returns (ok: bool, ghost es: seq<Event>)
      requires at == ToCopy && Now() == Run(plan, start, before)
      modifies this
      ensures es == before + [Advance] && Now() == Run(plan, start, es)
      ensures at == if ok then ToCatchUp else Stopped
      ensures swapped == old(swapped) && live == old(live)
      ensures ok ==> copy.Some? && copy.value.Keys == live.Keys && Storable(plan, copy.value)
                     && forall i :: i in live ==> copy.value[i] == Conv(plan, live[i], i)
      ensures !ok ==> copy == old(copy)
    {
      var rows := CopyAll(plan, live);
      ok := Storable(plan, rows);
      if ok { copy, at := Some(rows), ToCatchUp; } else { at := Stopped; }
      es := Then(plan, start, before, Advance);
    }

    /** First pass: each live row whose key the copy lacked is in the copy afterwards, converted, and
        what was there is still there. Without a key to match on nothing happens; if a constraint
        is broken nothing does, and the original is in place. */
    method CatchUp(ghost start: State, ghost before: seq<Event>) returns (ok: bool, ghost es: seq<Event>)
      requires at == ToCatchUp && copy.Some? && Now() == Run(plan, start, before)
      modifies this
      ensures es == before + [Advance] && Now() == Run(plan, start, es)
      ensures at == if ok then ToSwap else Stopped
      ensures swapped == old(swapped) && live == old(live) && copy.Some?
      ensures !ok || !CanCatchUp(plan) ==> copy == old(copy)
      ensures !CanCatchUp(plan) ==> ok
      ensures ok && CanCatchUp(plan) ==> Caught(plan, old(copy).value, live, copy.value)
    {
      ok := true;
      if CanCatchUp(plan) {
        var rows := CaughtUp(plan, copy.value, live);
        ok := Storable(plan, rows);
        CaughtUpIsCaught(plan, copy.value, live);
        if ok { copy := Some(rows); }
      }
      at := if ok then ToSwap else Stopped;
      es := Then(plan, start, before, Advance);
    }

    /** Both renames in one atomic statement: the copy is live, the live table the backup. */
    method Swap(ghost start: State, ghost before: seq<Event>) returns (ghost es: seq<Event>)
      requires at == ToSwap && copy.Some? && Now() == Run(plan, start, before)
      modifies this
      ensures es == before + [Advance] && Now() == Run(plan, start, es)
      ensures at == ToRecover && swapped
      ensures live == old(copy).value && backup == Some(old(live)) && copy == None
      ensures todo == if CanCatchUp(plan) then old(live).Keys else {}
    {
      todo := if CanCatchUp(plan) then live.Keys else {};
      live, copy, backup, swapped, at := copy.value, None, Some(live), true, ToRecover;
      es := Then(plan, start, before, Advance);
    }

    /** The rows of the second pass, one after the other. */
    method PlaceAll(ghost start: State, ghost before: seq<Event>) returns (ghost es: seq<Event>)
      requires at == ToRecover && swapped && backup.Some? && todo <= backup.value.Keys
      requires Now() == Run(plan, start, before)
      modifies `live, `next, `ever, `late, `others, `todo
      ensures before <= es && Now() == Run(plan, start, es)
      ensures todo == {}
    {
      es := before;
      while todo != {}
        invariant todo <= backup.value.Keys
        invariant before <= es && Now() == Run(plan, start, es)
        decreases todo
      {
        var id :| id in todo;
        var r := backup.value[id];
        if !Blocked(plan, live, r, id) {
          live := live[id := Stored(plan, r, id)];
        }
        todo := todo - {id};
        es := Then(plan, start, es, Recover(id));
        es := Gap(start, es);
      }
    }

    /** Second pass: with a key to match on, every row of the backup is in the live table
        afterwards, or something there stands in its way. */
    method RecoverLate(ghost start: State, ghost before: seq<Event>) returns (ghost es: seq<Event>)
      requires Initial(plan, start) && at == ToRecover && swapped
      requires backup.Some? && todo <= backup.value.Keys
      requires Now() == Run(plan, start, before)
      modifies `live, `next, `ever, `late, `others, `todo, `at
      ensures before <= es && Now() == Run(plan, start, es)
      ensures at == ToDrop && todo == {}
      ensures CanCatchUp(plan) ==>
                forall i :: i in backup.value ==> i in live || Blocked(plan, live, backup.value[i], i)
    {
      es := PlaceAll(start, before);
      at := ToDrop;
      es := Then(plan, start, es, Advance);
      AllDealtWith(start, es);
    }

    lemma AllDealtWith(start: State, es: seq<Event>)
      requires Initial(plan, start) && Now() == Run(plan, start, es) && swapped && at == ToDrop
      ensures backup.Some?
      ensures CanCatchUp(plan) ==>
                forall i :: i in backup.value ==> i in live || Blocked(plan, live, backup.value[i], i)
    {
      RunKeeps(plan, start, es);
    }

    /** The copy, created and filled. */
    method BuildCopy(ghost start: State) returns (ok: bool, ghost es: seq<Event>)
      requires at == ToDropCopy && Now() == start
      modifies this
      ensures Now() == Run(plan, start, es)
      ensures at == if ok then ToCatchUp else Stopped
      ensures (ok ==> copy.Some?) && swapped == old(swapped)
    {
      es := DropLeftovers(start);
      es := Gap(start, es);
      ok, es := CreateCopy(start, es);
      if ok {
        es := Gap(start, es);
        ok, es := CopyRows(start, es);
      }
    }

    /** Everything up to the swap. */
    method Prepare(ghost start: State) returns (ok: bool, ghost es: seq<Event>)
      requires at == ToDropCopy && Now() == start
      modifies this
      ensures Now() == Run(plan, start, es)
      ensures at == if ok then ToSwap else Stopped
      ensures (ok ==> copy.Some?) && swapped == old(swapped)
    {
      ok, es := BuildCopy(start);
      if ok {
        es := Gap(start, es);
        ok, es := CatchUp(start, es);
      }
    }

    method DropBackup(ghost start: State, ghost before: seq<Event>) returns (ghost es: seq<Event>)
      requires at == ToDrop && Now() == Run(plan, start, before)
      modifies `at, `backup
      ensures es == before + [Advance] && Now() == Run(plan, start, es)
      ensures at == Over && backup == None
    {
      backup, at := None, Over;
      es := Then(plan, start, before, Advance);
    }

    /** From the swap on nothing stops the rebuild. */
    method Finish(ghost start: State, ghost before: seq<Event>) returns (ghost es: seq<Event>)
      requires Initial(plan, start) && at == ToSwap && copy.Some? && Now() == Run(plan, start, before)
      modifies this
      ensures Now() == Run(plan, start, es)
      ensures at == Over
    {
      es := Swap(start, before);
      es := Gap(start, es);
      es := RecoverLate(start, es);
      es := Gap(start, es);
      es := DropBackup(start, es);
    }

    /** The whole rebuild. It can fail only while the original table is in place and whole; once
        the swap is done it ends, and every row ever inserted is kept. */
    method ApplyRebuild() returns (ok: bool, ghost es: seq<Event>)
      requires Initial(plan, Now())
      modifies this
      ensures Now() == Run(plan, old(Now()), es)
      ensures at == if ok then Over else Stopped
      ensures !ok ==> !swapped && live == ever
      ensures ok && OnlyPrimaryKey(plan) ==> forall i :: i in ever ==> Kept(plan, Now(), i)
    {
      ghost var start := Now();
      ok, es := Prepare(start);
      if ok {
        es := Gap(start, es);
        es := Finish(start, es);
      }
      Outcome(start, es);
    }

    lemma Outcome(start: State, es: seq<Event>)
      requires Initial(plan, start) && Now() == Run(plan, start, es)
      ensures !swapped ==> live == ever
      ensures at == Over && OnlyPrimaryKey(plan) ==> forall i :: i in ever ==> Kept(plan, Now(), i)
    {
      NothingIsOutOfReach(plan, start, es);
      if at == Over && OnlyPrimaryKey(plan) {
        forall i | i in ever ensures Kept(plan, Now(), i) {
          NoInsertIsLost(plan, start, es, i);
        }
      }
    }
  }
}
