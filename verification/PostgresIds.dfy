/**
  PostgreSQL's generated ids and its optional statements: moving a sequence past the ids a table
  was filled with, and fencing a statement that may fail inside a transaction.
*/
module PostgresIds {
  import opened Common

  // ── Sequences ─────────────────────────────────────────────────────────────

  /** `isCalled`: `last` has been handed out. */
  datatype Sequence = Sequence(last: int, isCalled: bool)

  function Next(q: Sequence): int {
    if q.isCalled then q.last + 1 else q.last
  }

  function Created(): Sequence {
    Sequence(1, false)
  }

  function MaxOf(ids: seq<int>): (m: int)
    requires ids != []
    ensures m in ids && forall i :: i in ids ==> i <= m
  {
    var last := ids[|ids| - 1];
    if |ids| == 1 then last
    else
      var m := MaxOf(ids[..|ids| - 1]);
      assert forall i :: i in ids ==> i in ids[..|ids| - 1] || i == last;
      if m < last then last else m
  }

  /** `COALESCE(MAX(id), 0)`. */
  function Top(ids: seq<int>): int {
    if ids == [] then 0 else MaxOf(ids)
  }

  function Without(ids: seq<int>, id: int): seq<int> {
    if ids == [] then []
    else Without(ids[..|ids| - 1], id) + if ids[|ids| - 1] == id then [] else [ids[|ids| - 1]]
  }

  /** Where the sequence is moved to: past the highest id and, once it has handed out an id since it
      was last set, past that one too. */
  function Target(q: Sequence, ids: seq<int>): int {
    if q.isCalled && q.last > Top(ids) then q.last + 1 else Top(ids) + 1
  }

  /** A sequence that starts at 1 refuses a lower value. */
  function Synced(q: Sequence, ids: seq<int>): Option<Sequence> {
    if Target(q, ids) < 1 then None else Some(Sequence(Target(q, ids), false))
  }

  /** The next generated id is above every id of the table. */
  lemma NextIsAboveTheTable(q: Sequence, ids: seq<int>, i: int)
    requires Synced(q, ids).Some? && i in ids
    ensures i < Next(Synced(q, ids).value)
  {
    assert i <= MaxOf(ids);
  }

  /** "Never backwards" holds exactly when the sequence has been used since it was last set, or the
      table reaches as far as the sequence. */
  lemma NeverBackwardsExactly(q: Sequence, ids: seq<int>)
    requires Synced(q, ids).Some?
    ensures Next(Synced(q, ids).value) >= Next(q)
       <==> q.isCalled || q.last <= Top(ids) + 1
  {
  }

  // ── A column over its life ────────────────────────────────────────────────

  /** `ids` are the ids in the table, `issued` every id the sequence ever handed out. */
  datatype State = State(counter: Sequence, ids: seq<int>, issued: set<int>)

  /** An INSERT that leaves the id to the sequence, one that brings it, a DELETE, a sync. */
  datatype Event = Generate | Bring(id: int) | Remove(id: int) | Sync

  function Step(s: State, e: Event): State {
    match e
    case Generate =>
      var id := Next(s.counter);
      // A collision fails the INSERT; the sequence has moved all the same.
      State(Sequence(id, true), if id in s.ids then s.ids else s.ids + [id], s.issued + {id})
    case Bring(id) => if id in s.ids then s else s.(ids := s.ids + [id])
    case Remove(id) => s.(ids := Without(s.ids, id))
    case Sync => match Synced(s.counter, s.ids) case Some(q) => s.(counter := q) case None => s
  }

  function Run(s: State, es: seq<Event>): State {
    if es == [] then s else Step(Run(s, es[..|es| - 1]), es[|es| - 1])
  }

  function Start(): State {
    State(Created(), [], {})
  }

  ghost predicate AboveIssued(s: State) {
    forall i :: i in s.issued ==> i < Next(s.counter)
  }

  /** The sequence was used since it was last set, or every id it ever handed out is within what
      the table still holds. */
  predicate SafeSync(s: State) {
    s.counter.isCalled || forall i :: i in s.issued ==> i <= Top(s.ids)
  }

  /** A sync keeps the sequence above every id handed out exactly then. */
  lemma SyncIsSafeExactly(s: State)
    requires AboveIssued(s) && Synced(s.counter, s.ids).Some?
    ensures AboveIssued(Step(s, Sync)) <==> SafeSync(s)
  {
  }

  ghost predicate SyncsSafely(s: State, e: Event) {
    e == Sync && Synced(s.counter, s.ids).Some? ==> SafeSync(s)
  }

  lemma StepKeepsAboveIssued(s: State, e: Event)
    requires AboveIssued(s)
    ensures AboveIssued(Step(s, e)) <==> SyncsSafely(s, e)
  {
    if e == Sync && Synced(s.counter, s.ids).Some? {
      SyncIsSafeExactly(s);
    }
  }

  /** At every moment of this life the next id is above all that were handed out, so a new one. */
  ghost predicate NeverReissues(es: seq<Event>) {
    AboveIssued(Run(Start(), es)) && (es != [] ==> NeverReissues(es[..|es| - 1]))
  }

  /** Every sync of this life is safe where it comes. */
  ghost predicate SafeLife(es: seq<Event>) {
    es != [] ==> SafeLife(es[..|es| - 1]) && SyncsSafely(Run(Start(), es[..|es| - 1]), es[|es| - 1])
  }

  /** Over any life, deletes included: no id is ever handed out twice, the sequence staying above
      them all, exactly when every sync of it was safe. */
  lemma {:induction false} IdsAreNeverReissued(es: seq<Event>)
    ensures NeverReissues(es) <==> SafeLife(es)
    ensures SafeLife(es) ==> Next(Run(Start(), es).counter) !in Run(Start(), es).issued
  {
    if es != [] {
      var init := es[..|es| - 1];
      IdsAreNeverReissued(init);
      if AboveIssued(Run(Start(), init)) { StepKeepsAboveIssued(Run(Start(), init), es[|es| - 1]); }
    }
  }

  /** Two syncs in a row are enough to break it: the first leaves the sequence unused, the second
      forgets how far it was. */
  lemma SecondSyncReissues()
    ensures exists es :: Next(Run(Start(), es).counter) in Run(Start(), es).issued
  {
    var g, d, y := Generate, Remove(1), Sync;
    var a := Then([], g);
    var b := Then(a, d);
    var c := Then(b, y);
    var es := Then(c, y);
    assert Without([1], 1) == [] && Run(Start(), a) == State(Sequence(1, true), [1], {1});
    var used := Run(Start(), b);
    assert used == State(Sequence(1, true), [], {1});
    assert Run(Start(), c).counter == Sequence(2, false);
    assert Next(Run(Start(), es).counter) == 1;
  }

  lemma Then(es: seq<Event>, e: Event) returns (more: seq<Event>)
    ensures Run(Start(), more) == Step(Run(Start(), es), e)
  {
    more := es + [e];
    assert more[..|more| - 1] == es;
  }

  // ── Every column of a table ───────────────────────────────────────────────

  /** A generated column: the sequence it owns, if any, and the ids in it. */
  datatype Column = Column(owned: Option<Sequence>, ids: seq<int>)

  predicate Syncable(c: Column) {
    c.owned.Some? ==> Target(c.owned.value, c.ids) >= 1
  }

  class Table {
    var columns: seq<Column>

    constructor (cs: seq<Column>)
      ensures columns == cs
    {
      columns := cs;
    }

    /** Column by column; a sequence that refuses its value stops the pass there. */
    method SyncAutoincrement() returns (ok: bool, ghost reached: nat)
      modifies this
      ensures |columns| == |old(columns)| && reached <= |columns|
      ensures ok <==> forall c :: c in old(columns) ==> Syncable(c)
      ensures ok ==> reached == |columns|
      ensures forall k :: 0 <= k < |columns| ==>
                columns[k].ids == old(columns)[k].ids
                && columns[k].owned ==
                     if k < reached && old(columns)[k].owned.Some?
                     then Synced(old(columns)[k].owned.value, old(columns)[k].ids) else old(columns)[k].owned
      ensures ok ==> forall k, i :: 0 <= k < |columns| && columns[k].owned.Some? && i in columns[k].ids ==>
                i < Next(columns[k].owned.value)
    {
      ghost var was := columns;
      reached := 0;
      for k := 0 to |columns|
        invariant |columns| == |was| && reached == k
        invariant forall j :: 0 <= j < |was| ==>
                    columns[j] == if j < k && was[j].owned.Some?
                                  then Column(Synced(was[j].owned.value, was[j].ids), was[j].ids) else was[j]
        invariant forall j :: 0 <= j < k ==> Syncable(was[j])
      {
        if columns[k].owned.Some? {
          var q := Synced(columns[k].owned.value, columns[k].ids);
          if q.None? {
            assert !Syncable(was[k]);
            return false, reached;
          }
          columns := columns[k := Column(q, columns[k].ids)];
        }
        reached := k + 1;
      }
      ok := true;
      forall k, i | 0 <= k < |columns| && columns[k].owned.Some? && i in columns[k].ids
        ensures i < Next(columns[k].owned.value)
      {
        NextIsAboveTheTable(was[k].owned.value, was[k].ids, i);
      }
    }
  }

  // ── Optional statements in a transaction ──────────────────────────────────

  /** A statement, and whether the server takes it. */
  datatype Statement = Statement(text: string, works: bool)

  /** Once a statement fails, every other fails too, up to a rollback. `mark` is the savepoint. */
  datatype Transaction = Transaction(done: seq<string>, aborted: bool, mark: Option<seq<string>>)

  datatype Reply = Reply(tx: Transaction, raised: bool)

  function Execute(tx: Transaction, st: Statement): Reply {
    if tx.aborted || !st.works then Reply(tx.(aborted := true), true)
    else Reply(tx.(done := tx.done + [st.text]), false)
  }

  function Savepoint(tx: Transaction): Reply {
    if tx.aborted then Reply(tx, true) else Reply(tx.(mark := Some(tx.done)), false)
  }

  function RollbackTo(tx: Transaction): Reply {
    match tx.mark
    case None => Reply(tx.(aborted := true), true)
    case Some(done) => Reply(Transaction(done, false, tx.mark), false)
  }

  function Release(tx: Transaction): Reply {
    if tx.aborted || tx.mark.None? then Reply(tx.(aborted := true), true) else Reply(tx.(mark := None), false)
  }

  /** An aborted transaction commits nothing. */
  function CommittedBy(tx: Transaction): seq<string> {
    if tx.aborted then [] else tx.done
  }

  /** SAVEPOINT, the statement, and back to it on failure. */
  function Fenced(tx: Transaction, st: Statement): Reply {
    var a := Savepoint(tx);
    if a.raised then a
    else
      var b := Execute(a.tx, st);
      if b.raised then RollbackTo(b.tx) else Release(b.tx)
  }

  /** The error swallowed and nothing else. */
  function Unfenced(tx: Transaction, st: Statement): Transaction {
    Execute(tx, st).tx
  }

  function AllFenced(tx: Transaction, sts: seq<Statement>): Transaction {
    if sts == [] then tx else Fenced(AllFenced(tx, sts[..|sts| - 1]), sts[|sts| - 1]).tx
  }

  function AllUnfenced(tx: Transaction, sts: seq<Statement>): Transaction {
    if sts == [] then tx else Unfenced(AllUnfenced(tx, sts[..|sts| - 1]), sts[|sts| - 1])
  }

  function Working(sts: seq<Statement>): seq<string> {
    if sts == [] then []
    else Working(sts[..|sts| - 1]) + if sts[|sts| - 1].works then [sts[|sts| - 1].text] else []
  }

  /** Whichever of the optional statements fail, the transaction commits what came before and
      exactly the ones that work. */
  lemma {:induction false} FencedKeepsTheRest(tx: Transaction, sts: seq<Statement>)
    requires !tx.aborted
    ensures !AllFenced(tx, sts).aborted
    ensures CommittedBy(AllFenced(tx, sts)) == tx.done + Working(sts)
  {
    if sts == [] {
      assert tx.done + [] == tx.done;
    } else {
      FencedKeepsTheRest(tx, sts[..|sts| - 1]);
      var last := sts[|sts| - 1];
      var init := tx.done + Working(sts[..|sts| - 1]);
      assert last.works ==> init + [last.text] == tx.done + Working(sts);
      assert !last.works ==> Working(sts) == Working(sts[..|sts| - 1]);
    }
  }

  /** Without the fence, one failure and nothing of the transaction is left. */
  lemma {:induction false} UnfencedLosesAll(tx: Transaction, sts: seq<Statement>)
    requires !tx.aborted && tx.done != []
    ensures CommittedBy(AllUnfenced(tx, sts)) == tx.done + Working(sts)
       <==> forall st :: st in sts ==> st.works
    ensures CommittedBy(AllUnfenced(tx, sts)) == if AllUnfenced(tx, sts).aborted then [] else tx.done + Working(sts)
    ensures AllUnfenced(tx, sts).aborted <==> exists st :: st in sts && !st.works
  {
    if sts == [] {
      assert tx.done + [] == tx.done;
    } else {
      var init, last := sts[..|sts| - 1], sts[|sts| - 1];
      UnfencedLosesAll(tx, init);
      assert forall st :: st in sts <==> st in init || st == last;
      assert last.works ==> tx.done + Working(init) + [last.text] == tx.done + Working(sts);
      assert tx.done + Working(sts) != [];
    }
  }

  class Session {
    var tx: Transaction

    constructor (before: seq<string>)
      ensures tx == Transaction(before, false, None)
    {
      tx := Transaction(before, false, None);
    }

    method Run(r: Reply) returns (raised: bool)
      modifies this
      ensures tx == r.tx && raised == r.raised
    {
      tx := r.tx;
      raised := r.raised;
    }

    method ExecuteOptional(st: Statement) returns (ran: bool)
      requires !tx.aborted
      modifies this
      ensures tx == Fenced(old(tx), st).tx && ran == st.works
    {
      var raised := Run(Savepoint(tx));
      raised := Run(Execute(tx, st));
      if raised {
        raised := Run(RollbackTo(tx));
        return false;
      }
      raised := Run(Release(tx));
      return true;
    }

    /** The undeclared indexes of a rebuild, each tried on its own: the table and whichever of them
        can be created are what commits. */
    method RecreateExtras(sts: seq<Statement>)
      requires !tx.aborted
      modifies this
      ensures tx == AllFenced(old(tx), sts)
      ensures CommittedBy(tx) == old(tx).done + Working(sts)
    {
      for i := 0 to |sts|
        invariant tx == AllFenced(old(tx), sts[..i]) && !tx.aborted
      {
        assert sts[..i + 1][..i] == sts[..i];
        FencedKeepsTheRest(old(tx), sts[..i + 1]);
        var _ := ExecuteOptional(sts[i]);
      }
      assert sts[..|sts|] == sts;
      FencedKeepsTheRest(old(tx), sts);
    }
  }
}
