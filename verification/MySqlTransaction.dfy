/**
  The MySQL connector's transaction state: the flags `pending` and `explicit` decide when a
  statement may reconnect, when a read ends its transaction and when a failure rolls back.

  The server side of the session is modelled with it, and every outcome the server can give a
  statement, so that what ends up committed can be stated. Writes are identified by strings.
*/
module MySqlTransaction {

  /** `hasConn`: the thread has a connection. `alive`: the server still knows it. `open` and
      `work`: its transaction and the writes in it. */
  datatype State = State(
    autocommit: bool, hasConn: bool, alive: bool, open: bool, work: seq<string>,
    pending: bool, explicit: bool, committed: seq<string>)

  datatype Reply = Reply(s: State, raised: bool)

  /** What the server does with a statement. `Rejected`: an error, after `applied` of its rows.
      `Victim`: a deadlock, the whole transaction is undone. `Cut`: the connection is lost. */
  datatype Fate = Fine | Rejected(applied: nat) | Victim | Cut

  /** What becomes of a COMMIT: done, refused and undone, or the connection lost before or after
      the server did it. */
  datatype CommitFate = Committed | Refused | LostBefore | LostAfter

  datatype Op =
    | Begin
    | Exec(rows: seq<string>, fate: Fate)
    | Fetch(fate: Fate, end: CommitFate)
    | Ddl(fate: Fate, end: CommitFate)
    | Catalog
    | Commit(end: CommitFate)
    | Rollback(cut: bool)
    | Kill
    | Unreachable(op: Op)

  function Take(rows: seq<string>, n: nat): (r: seq<string>)
    ensures r <= rows
  {
    if n <= |rows| then rows[..n] else rows
  }

  // ── Server side ───────────────────────────────────────────────────────────

  /** The session is gone and its transaction with it. */
  function Dropped(s: State): State {
    s.(alive := false, open := false, work := [])
  }

  function Undone(s: State): State {
    s.(open := false, work := [])
  }

  function Stored(s: State): State {
    s.(open := false, work := [], committed := s.committed + s.work)
  }

  /** Rows reach the transaction, or the database at once under autocommit. */
  function Applied(s: State, rows: seq<string>): State {
    if s.autocommit then s.(committed := s.committed + rows)
    else s.(open := true, work := s.work + rows)
  }

  function Statement(s: State, rows: seq<string>, fate: Fate): Reply {
    if !s.alive then Reply(s, true)
    else match fate
      case Fine => Reply(Applied(s, rows), false)
      case Rejected(n) => Reply(Applied(s, Take(rows, n)), true)
      case Victim => Reply(Undone(s), true)
      case Cut => Reply(Dropped(s), true)
  }

  /** The server commits whatever is open before it looks at a DDL statement. */
  function ServerDdl(s: State, fate: Fate): Reply {
    Statement(if s.alive && fate != Cut then Stored(s) else s, [], fate)
  }

  function ServerCommit(s: State, fate: CommitFate): Reply {
    if !s.alive then Reply(s, true)
    else match fate
      case Committed => Reply(Stored(s), false)
      case Refused => Reply(Undone(s), true)
      case LostBefore => Reply(Dropped(s), true)
      case LostAfter => Reply(Dropped(Stored(s)), true)
  }

  // ── Connector ─────────────────────────────────────────────────────────────

  function Settled(s: State): State {
    s.(pending := false, explicit := false)
  }

  function Fresh(s: State): State {
    s.(hasConn := true, alive := true, open := false, work := [])
  }

  /** The connection a statement is given: a new one for a thread without, the one there is in
      the middle of a transaction, else one that answers a ping. */
  function Conn(s: State, reachable: bool): Reply {
    if !s.hasConn then (if reachable then Reply(Settled(Fresh(s)), false) else Reply(s, true))
    else if s.pending || s.explicit then Reply(s, false)
    else if s.alive then Reply(s, false)
    else if reachable then Reply(Fresh(s), false)
    else Reply(s, true)
  }

  /** A failed statement outside `begin()` rolls back and settles. */
  function Failed(s: State): State {
    if s.explicit then s else Settled(if s.alive then Undone(s) else s)
  }

  function EndRead(s: State, end: CommitFate): Reply {
    if !s.pending && !s.explicit && !s.autocommit then ServerCommit(s, end) else Reply(s, false)
  }

  function ExecStep(s: State, rows: seq<string>, fate: Fate, reachable: bool): Reply {
    var c := Conn(s, reachable);
    if c.raised then c
    else
      var r := Statement(c.s.(pending := true), rows, fate);
      if r.raised then Reply(Failed(r.s), true) else r
  }

  function FetchStep(s: State, fate: Fate, end: CommitFate, reachable: bool): Reply {
    var c := Conn(s, reachable);
    if c.raised then c
    else
      var r := Statement(c.s, [], fate);
      if r.raised then Reply(Failed(r.s), true) else EndRead(r.s, end)
  }

  /** A DDL statement on the connection at hand, and the commit after it. */
  function DdlOn(s: State, fate: Fate, end: CommitFate): Reply {
    var r := ServerDdl(s, fate);
    if r.raised then Reply(Failed(r.s), true)
    else
      var e := ServerCommit(r.s, end);
      if e.raised then e else Reply(Settled(e.s), false)
  }

  function DdlStep(s: State, fate: Fate, end: CommitFate, reachable: bool): Reply {
    var c := Conn(s, reachable);
    if c.raised then c else DdlOn(c.s, fate, end)
  }

  /** A catalog read (`list_columns`, `list_indexes`) never ends its transaction. */
  function CatalogStep(s: State, reachable: bool): Reply {
    var c := Conn(s, reachable);
    if c.raised then c else Statement(c.s, [], Fine)
  }

  function CommitStep(s: State, end: CommitFate, reachable: bool): Reply {
    var c := Conn(s, reachable);
    if c.raised then c
    else
      var e := ServerCommit(c.s, end);
      if e.raised then e else Reply(Settled(e.s), false)
  }

  /** Settled even when the driver raises. */
  function RollbackStep(s: State, cut: bool, reachable: bool): Reply {
    var c := Conn(s, reachable);
    if c.raised then Reply(Settled(c.s), true)
    else if !c.s.alive then Reply(Settled(c.s), true)
    else if cut then Reply(Settled(Dropped(c.s)), true)
    else Reply(Settled(Undone(c.s)), false)
  }

  function StepWith(s: State, op: Op, reachable: bool): Reply {
    match op
    case Begin => Reply(s.(explicit := true), false)
    case Exec(rows, fate) => ExecStep(s, rows, fate, reachable)
    case Fetch(fate, end) => FetchStep(s, fate, end, reachable)
    case Ddl(fate, end) => DdlStep(s, fate, end, reachable)
    case Catalog => CatalogStep(s, reachable)
    case Commit(end) => CommitStep(s, end, reachable)
    case Rollback(cut) => RollbackStep(s, cut, reachable)
    case Kill => Reply(Dropped(s), false)
    case Unreachable(inner) => StepWith(s, inner, false)
  }

  function Step(s: State, op: Op): Reply {
    StepWith(s, op, true)
  }

  function Run(s: State, ops: seq<Op>): State {
    if ops == [] then s else Step(Run(s, ops[..|ops| - 1]), ops[|ops| - 1]).s
  }

  // ── No idle transaction ───────────────────────────────────────────────────

  /** Writes are in an open transaction, and only a live session has one. */
  ghost predicate Sound(s: State) {
    && (s.work != [] ==> s.open)
    && (s.open ==> s.hasConn && s.alive && !s.autocommit)
  }

  /** With no flag set the session has no transaction, and one with writes has `pending` set. */
  ghost predicate NoIdle(s: State) {
    && Sound(s)
    && (s.work != [] ==> s.pending)
    && (!s.pending && !s.explicit ==> !s.open)
  }

  predicate ReadsCatalog(op: Op) {
    match op
    case Catalog => true
    case Unreachable(inner) => ReadsCatalog(inner)
    case _ => false
  }

  /** A thread that has not touched the database yet. */
  function Start(autocommit: bool, committed: seq<string>): State {
    State(autocommit, false, false, false, [], false, false, committed)
  }

  lemma ExecKeepsNoIdle(s: State, rows: seq<string>, fate: Fate, reachable: bool)
    requires NoIdle(s)
    ensures NoIdle(ExecStep(s, rows, fate, reachable).s)
  {
    var c := Conn(s, reachable);
    ConnKeepsNoIdle(s, reachable);
    var r := Statement(c.s.(pending := true), rows, fate);
    assert !c.raised ==> NoIdle(r.s) && r.s.pending;
  }

  lemma ConnKeepsNoIdle(s: State, reachable: bool)
    requires NoIdle(s)
    ensures NoIdle(Conn(s, reachable).s) && (!Conn(s, reachable).raised ==> Conn(s, reachable).s.hasConn)
  {
  }

  lemma ReadIsSound(s: State, fate: Fate)
    requires NoIdle(s) && s.hasConn
    ensures var r := Statement(s, [], fate); Sound(r.s) && (r.s.work != [] ==> r.s.pending)
  {
    assert s.work + [] == s.work;
  }

  lemma FailedKeepsNoIdle(s: State)
    requires Sound(s) && (s.work != [] ==> s.pending)
    ensures NoIdle(Failed(s))
  {
  }

  lemma EndReadKeepsNoIdle(s: State, end: CommitFate)
    requires Sound(s) && (s.work != [] ==> s.pending)
    ensures NoIdle(EndRead(s, end).s)
  {
  }

  lemma FetchKeepsNoIdle(s: State, fate: Fate, end: CommitFate, reachable: bool)
    requires NoIdle(s)
    ensures NoIdle(FetchStep(s, fate, end, reachable).s)
  {
    var c := Conn(s, reachable);
    ConnKeepsNoIdle(s, reachable);
    if !c.raised {
      var r := Statement(c.s, [], fate);
      ReadIsSound(c.s, fate);
      if r.raised { FailedKeepsNoIdle(r.s); } else { EndReadKeepsNoIdle(r.s, end); }
    }
  }

  lemma ServerDdlIsSound(s: State, fate: Fate)
    requires Sound(s) && s.hasConn
    ensures var r := ServerDdl(s, fate);
            && Sound(r.s) && r.s.pending == s.pending && r.s.explicit == s.explicit && r.s.work == []
  {
    assert Take([], 0) == [];
  }

  lemma DdlOnKeepsNoIdle(s: State, fate: Fate, end: CommitFate)
    requires NoIdle(s) && s.hasConn
    ensures NoIdle(DdlOn(s, fate, end).s)
  {
    ServerDdlIsSound(s, fate);
  }

  lemma DdlKeepsNoIdle(s: State, fate: Fate, end: CommitFate, reachable: bool)
    requires NoIdle(s)
    ensures NoIdle(DdlStep(s, fate, end, reachable).s)
  {
    ConnKeepsNoIdle(s, reachable);
    if !Conn(s, reachable).raised { DdlOnKeepsNoIdle(Conn(s, reachable).s, fate, end); }
  }

  lemma CommitKeepsNoIdle(s: State, end: CommitFate, reachable: bool)
    requires NoIdle(s)
    ensures NoIdle(CommitStep(s, end, reachable).s)
  {
    ConnKeepsNoIdle(s, reachable);
  }

  lemma RollbackKeepsNoIdle(s: State, cut: bool, reachable: bool)
    requires NoIdle(s)
    ensures NoIdle(RollbackStep(s, cut, reachable).s)
  {
    ConnKeepsNoIdle(s, reachable);
  }

  lemma {:induction false} StepKeepsNoIdle(s: State, op: Op, reachable: bool)
    requires NoIdle(s) && !ReadsCatalog(op)
    ensures NoIdle(StepWith(s, op, reachable).s)
  {
    match op
    case Exec(rows, fate) => ExecKeepsNoIdle(s, rows, fate, reachable);
    case Fetch(fate, end) => FetchKeepsNoIdle(s, fate, end, reachable);
    case Ddl(fate, end) => DdlKeepsNoIdle(s, fate, end, reachable);
    case Commit(end) => CommitKeepsNoIdle(s, end, reachable);
    case Rollback(cut) => RollbackKeepsNoIdle(s, cut, reachable);
    case Unreachable(inner) => StepKeepsNoIdle(s, inner, false);
    case _ =>
  }

  /** After any calls, whatever failed and whenever the server dropped the session, a thread
      with neither flag set holds no transaction open. */
  lemma {:induction false} NoIdleTransaction(autocommit: bool, committed: seq<string>, ops: seq<Op>)
    requires forall op :: op in ops ==> !ReadsCatalog(op)
    ensures NoIdle(Run(Start(autocommit, committed), ops))
  {
    if ops != [] {
      NoIdleTransaction(autocommit, committed, ops[..|ops| - 1]);
      StepKeepsNoIdle(Run(Start(autocommit, committed), ops[..|ops| - 1]), ops[|ops| - 1], true);
    }
  }

  /** A catalog read is why it is left out: alone it leaves the transaction open. */
  lemma CatalogReadStaysOpen(committed: seq<string>)
    ensures !NoIdle(Run(Start(false, committed), [Catalog]))
  {
    assert [Catalog][..0] == [];
  }

  // ── What a caller is owed ─────────────────────────────────────────────────

  /** The statement alone failed, inside `begin()`, and the session goes on. */
  predicate OnlyTheStatement(fate: Fate, r: Reply) {
    fate.Rejected? && r.s.explicit && r.s.alive
  }

  /** The writes the caller was told were taken and has heard nothing of since: no commit, no
      rollback, no error but one about another statement. A session that the server drops says
      nothing to the caller, and so takes nothing off. */
  function OwedAfter(s: State, op: Op, owed: seq<string>, r: Reply): seq<string> {
    match op
    case Begin => owed
    case Kill => owed
    case Exec(rows, fate) =>
      if s.autocommit then owed
      else if !r.raised then owed + rows
      else if OnlyTheStatement(fate, r) then owed + Take(rows, fate.applied)
      else []
    case Fetch(fate, _) => if !r.raised || OnlyTheStatement(fate, r) then owed else []
    case Catalog => if r.raised then [] else owed
    case Ddl(_, _) => []
    case Commit(_) => []
    case Rollback(_) => []
    case Unreachable(inner) => OwedAfter(s, inner, owed, r)
  }

  function Owed(s: State, ops: seq<Op>): seq<string> {
    if ops == [] then []
    else
      var before := Run(s, ops[..|ops| - 1]);
      OwedAfter(before, ops[|ops| - 1], Owed(s, ops[..|ops| - 1]), Step(before, ops[|ops| - 1]))
  }

  /** What is owed is flagged, and is exactly the work of the session while that lives. */
  ghost predicate Ledger(s: State, owed: seq<string>) {
    && Sound(s) && (s.alive ==> s.hasConn && s.work == owed)
    && (owed != [] ==> s.pending && s.hasConn && !s.autocommit)
  }

  lemma ConnKeepsLedger(s: State, owed: seq<string>, reachable: bool)
    requires Ledger(s, owed)
    ensures var c := Conn(s, reachable);
            && Ledger(c.s, owed) && c.s.autocommit == s.autocommit
            && (!c.raised ==> c.s.hasConn) && (c.raised ==> owed == [] && c.s == s)
            && (s.hasConn ==> c.s.explicit == s.explicit)
  {
  }

  lemma StatementOnLedger(s: State, owed: seq<string>, rows: seq<string>, fate: Fate)
    requires Ledger(s, owed) && s.hasConn && (s.pending || rows == [])
    ensures var r := Statement(s, rows, fate);
            && Sound(r.s) && r.s.hasConn && r.s.autocommit == s.autocommit
            && r.s.pending == s.pending && r.s.explicit == s.explicit
            && (!r.raised ==> r.s.alive && Ledger(r.s, if s.autocommit then owed else owed + rows))
            && (r.raised && r.s.alive && fate.Rejected? ==>
                  Ledger(r.s, if s.autocommit then owed else owed + Take(rows, fate.applied)))
            && (r.raised && r.s.alive && !fate.Rejected? ==> Ledger(r.s, []))
            && (r.raised && !r.s.alive ==> r.s.work == [])
  {
    assert rows == [] ==> owed + rows == owed && (fate.Rejected? ==> owed + Take(rows, fate.applied) == owed);
  }

  lemma ExecKeepsLedger(s: State, owed: seq<string>, rows: seq<string>, fate: Fate, reachable: bool)
    requires Ledger(s, owed)
    ensures var r := ExecStep(s, rows, fate, reachable); Ledger(r.s, OwedAfter(s, Exec(rows, fate), owed, r))
  {
    ConnKeepsLedger(s, owed, reachable);
    var c := Conn(s, reachable);
    if !c.raised { StatementOnLedger(c.s.(pending := true), owed, rows, fate); }
  }

  lemma FetchKeepsLedger(s: State, owed: seq<string>, fate: Fate, end: CommitFate, reachable: bool)
    requires Ledger(s, owed)
    ensures var r := FetchStep(s, fate, end, reachable); Ledger(r.s, OwedAfter(s, Fetch(fate, end), owed, r))
  {
    ConnKeepsLedger(s, owed, reachable);
    var c := Conn(s, reachable);
    assert owed + [] == owed;
    if !c.raised { StatementOnLedger(c.s, owed, [], fate); }
  }

  lemma DdlOnKeepsLedger(s: State, owed: seq<string>, fate: Fate, end: CommitFate)
    requires Ledger(s, owed) && s.hasConn
    ensures Ledger(DdlOn(s, fate, end).s, [])
  {
    ServerDdlIsSound(s, fate);
  }

  lemma DdlKeepsLedger(s: State, owed: seq<string>, fate: Fate, end: CommitFate, reachable: bool)
    requires Ledger(s, owed)
    ensures Ledger(DdlStep(s, fate, end, reachable).s, [])
  {
    ConnKeepsLedger(s, owed, reachable);
    var c := Conn(s, reachable);
    if !c.raised { DdlOnKeepsLedger(c.s, owed, fate, end); }
  }

  lemma CatalogKeepsLedger(s: State, owed: seq<string>, reachable: bool)
    requires Ledger(s, owed)
    ensures var r := CatalogStep(s, reachable); Ledger(r.s, OwedAfter(s, Catalog, owed, r))
  {
    ConnKeepsLedger(s, owed, reachable);
    var c := Conn(s, reachable);
    assert owed + [] == owed;
    if !c.raised { StatementOnLedger(c.s, owed, [], Fine); }
  }

  lemma EndKeepsLedger(s: State, owed: seq<string>, end: CommitFate, cut: bool, reachable: bool)
    requires Ledger(s, owed)
    ensures Ledger(CommitStep(s, end, reachable).s, []) && Ledger(RollbackStep(s, cut, reachable).s, [])
  {
    ConnKeepsLedger(s, owed, reachable);
  }

  lemma {:induction false} StepKeepsLedger(s: State, owed: seq<string>, op: Op, reachable: bool)
    requires Ledger(s, owed)
    ensures Ledger(StepWith(s, op, reachable).s, OwedAfter(s, op, owed, StepWith(s, op, reachable)))
  {
    match op
    case Begin =>
    case Kill =>
    case Exec(rows, fate) => ExecKeepsLedger(s, owed, rows, fate, reachable);
    case Fetch(fate, end) => FetchKeepsLedger(s, owed, fate, end, reachable);
    case Ddl(fate, end) => DdlKeepsLedger(s, owed, fate, end, reachable);
    case Catalog => CatalogKeepsLedger(s, owed, reachable);
    case Commit(end) => EndKeepsLedger(s, owed, end, false, reachable);
    case Rollback(cut) => EndKeepsLedger(s, owed, Committed, cut, reachable);
    case Unreachable(inner) => StepKeepsLedger(s, owed, inner, false);
  }

  lemma {:induction false} RunKeepsLedger(autocommit: bool, committed: seq<string>, ops: seq<Op>)
    ensures Ledger(Run(Start(autocommit, committed), ops), Owed(Start(autocommit, committed), ops))
  {
    if ops != [] {
      var init, s0 := ops[..|ops| - 1], Start(autocommit, committed);
      RunKeepsLedger(autocommit, committed, init);
      StepKeepsLedger(Run(s0, init), Owed(s0, init), ops[|ops| - 1], true);
    }
  }

  /** The connection handed out is another session than the one there was. */
  predicate Replaces(c: Reply, s: State) {
    !c.raised && c.s.alive && !s.alive
  }

  /** After any calls and drops: a session is replaced only when the caller is owed nothing. While
      something is owed and the session is gone, every write raises instead. */
  lemma ReconnectLosesNothing(autocommit: bool, committed: seq<string>, ops: seq<Op>, reachable: bool)
    ensures var s := Run(Start(autocommit, committed), ops);
            var owed := Owed(Start(autocommit, committed), ops);
            && (Replaces(Conn(s, reachable), s) ==> owed == [])
            && (owed != [] && !s.alive ==>
                  forall rows, fate :: ExecStep(s, rows, fate, reachable).raised)
  {
    RunKeepsLedger(autocommit, committed, ops);
  }

  /** And a commit that returns has stored everything that was owed, after any calls and drops. */
  lemma CommitStoresWhatIsOwed(autocommit: bool, committed: seq<string>, ops: seq<Op>, end: CommitFate, reachable: bool)
    ensures var s := Run(Start(autocommit, committed), ops);
            var r := CommitStep(s, end, reachable);
            !r.raised ==> r.s.committed == s.committed + Owed(Start(autocommit, committed), ops)
  {
    var s := Run(Start(autocommit, committed), ops);
    RunKeepsLedger(autocommit, committed, ops);
    ConnKeepsLedger(s, Owed(Start(autocommit, committed), ops), reachable);
  }

  /** The connector that pings whatever the flags say. */
  function AlwaysPing(s: State, reachable: bool): Reply {
    if s.hasConn && s.alive then Reply(s, false)
    else if !reachable then Reply(s, true)
    else if s.hasConn then Reply(Fresh(s), false)
    else Reply(Settled(Fresh(s)), false)
  }

  /** It would replace the session of every caller that is owed something and dropped, and a write
      and a commit after that would return, with what was owed not stored. */
  lemma AlwaysPingStoresHalf(autocommit: bool, committed: seq<string>, ops: seq<Op>, rows: seq<string>)
    requires Owed(Start(autocommit, committed), ops) != []
    ensures var start := Start(autocommit, committed);
            var s := Run(start, ops + [Kill]);
            var c := AlwaysPing(s, true);
            var w := Statement(c.s.(pending := true), rows, Fine);
            var e := ServerCommit(w.s, Committed);
            && Owed(start, ops + [Kill]) == Owed(start, ops) && Replaces(c, s)
            && !w.raised && !e.raised && e.s.committed == s.committed + rows
  {
    var start := Start(autocommit, committed);
    RunKeepsLedger(autocommit, committed, ops);
    assert (ops + [Kill])[..|ops|] == ops;
    var s := Run(start, ops + [Kill]);
    assert s == Dropped(Run(start, ops));
    assert [] + rows == rows;
  }

  // ── transaction() ─────────────────────────────────────────────────────────

  /** One step of a block: a call whose error the body swallows or lets out, an error of the
      body's own, or the server dropping the session in between. */
  datatype BodyStep = Write(rows: seq<string>, fate: Fate, swallowed: bool)
                    | Read(fate: Fate, end: CommitFate, swallowed: bool)
                    | Throw
                    | Lost

  function BodyStepReply(s: State, b: BodyStep): Reply {
    match b
    case Write(rows, fate, swallowed) =>
      var r := ExecStep(s, rows, fate, true); Reply(r.s, r.raised && !swallowed)
    case Read(fate, end, swallowed) =>
      var r := FetchStep(s, fate, end, true); Reply(r.s, r.raised && !swallowed)
    case Throw => Reply(s, true)
    case Lost => Reply(Dropped(s), false)
  }

  function RunBody(s: State, body: seq<BodyStep>): Reply {
    if body == [] then Reply(s, false)
    else
      var r := RunBody(s, body[..|body| - 1]);
      if r.raised then r else BodyStepReply(r.s, body[|body| - 1])
  }

  /** begin, the body, commit; on an error rollback, and the error goes on. */
  function Transaction(s: State, body: seq<BodyStep>, end: CommitFate, cut: bool): Reply {
    var r := RunBody(s.(explicit := true), body);
    var c := if r.raised then r else CommitStep(r.s, end, true);
    if c.raised then Reply(RollbackStep(c.s, cut, true).s, true) else c
  }

  /** The writes the server took, in order. */
  function Accepted(body: seq<BodyStep>): seq<string> {
    if body == [] then []
    else Accepted(body[..|body| - 1]) + AcceptedBy(body[|body| - 1])
  }

  function AcceptedBy(b: BodyStep): seq<string> {
    match b
    case Write(rows, Fine, _) => rows
    case Write(rows, Rejected(n), _) => Take(rows, n)
    case _ => []
  }

  predicate IsVictim(b: BodyStep) {
    (b.Write? || b.Read?) && b.fate == Victim
  }

  /** What is left in the transaction after the body, when the session is: a deadlock takes all
      that came before it. */
  function Surviving(before: seq<string>, body: seq<BodyStep>): seq<string> {
    if body == [] then before
    else if IsVictim(body[|body| - 1]) then []
    else Surviving(before, body[..|body| - 1]) + AcceptedBy(body[|body| - 1])
  }

  lemma BodyStepHolds(s: State, b: BodyStep)
    requires Sound(s) && s.hasConn && s.explicit && !s.autocommit
    ensures var u := BodyStepReply(s, b).s;
            && Sound(u) && u.hasConn && u.explicit && !u.autocommit && u.committed == s.committed
            && (u.alive ==> s.alive)
            && (u.alive ==> u.work == if IsVictim(b) then [] else s.work + AcceptedBy(b))
  {
    if b.Write? {
      assert AcceptedBy(b) == [] ==> s.work + AcceptedBy(b) == s.work;
      assert s.alive && b.fate.Rejected? ==>
        Statement(s.(pending := true), b.rows, b.fate).s.work == s.work + AcceptedBy(b);
    } else {
      assert s.work + [] == s.work;
    }
  }

  /** Inside the block the flags stay up, so the connection is never replaced: it is the one of
      the start, with all that survived, or it is dead for good. */
  lemma {:induction false} BodyHoldsItsSession(s: State, body: seq<BodyStep>)
    requires Sound(s) && s.hasConn && s.explicit && !s.autocommit
    ensures var u := RunBody(s, body).s;
            && Sound(u) && u.hasConn && u.explicit && !u.autocommit && u.committed == s.committed
            && (u.alive ==> s.alive)
            && (u.alive && !RunBody(s, body).raised ==> u.work == Surviving(s.work, body))
  {
    if body != [] {
      BodyHoldsItsSession(s, body[..|body| - 1]);
      var r := RunBody(s, body[..|body| - 1]);
      if !r.raised { BodyStepHolds(r.s, body[|body| - 1]); }
    }
  }

  /** What a block leaves in the database, for every body: if it returns, everything that
      survived to the commit; if it raises, nothing, unless only the answer to the commit was
      lost. */
  lemma BlockCommitsWhatSurvived(s: State, body: seq<BodyStep>, end: CommitFate, cut: bool)
    requires Sound(s) && s.hasConn && !s.autocommit
    ensures var r := Transaction(s, body, end, cut);
            && (!r.raised ==> r.s.committed == s.committed + Surviving(s.work, body))
            && (r.raised ==> r.s.committed == s.committed
                             || (end == LostAfter && r.s.committed == s.committed + Surviving(s.work, body)))
            && !r.s.pending && !r.s.explicit && !r.s.open && r.s.work == []
  {
    BodyHoldsItsSession(s.(explicit := true), body);
  }

  lemma {:induction false} WithoutVictimAllSurvives(before: seq<string>, body: seq<BodyStep>)
    requires forall b :: b in body ==> !IsVictim(b)
    ensures Surviving(before, body) == before + Accepted(body)
  {
    if body == [] {
      assert before + [] == before;
    } else {
      WithoutVictimAllSurvives(before, body[..|body| - 1]);
      var b := body[|body| - 1];
      assert before + Accepted(body[..|body| - 1]) + AcceptedBy(b)
          == before + (Accepted(body[..|body| - 1]) + AcceptedBy(b));
    }
  }

  /** All of the block if it returns, nothing if it raises; all as well when just the answer to
      the commit was lost. */
  ghost predicate Atomic(s: State, body: seq<BodyStep>, end: CommitFate, cut: bool) {
    var r := Transaction(s, body, end, cut);
    var all := s.committed + (s.work + Accepted(body));
    if r.raised then r.s.committed == s.committed || (end == LostAfter && r.s.committed == all)
    else r.s.committed == all
  }

  ghost predicate NoVictim(body: seq<BodyStep>) {
    forall b :: b in body ==> !IsVictim(b)
  }

  lemma BlockIsAtomic(s: State, body: seq<BodyStep>, end: CommitFate, cut: bool)
    requires Sound(s) && s.hasConn && !s.autocommit
    requires NoVictim(body)
    ensures Atomic(s, body, end, cut)
  {
    BlockCommitsWhatSurvived(s, body, end, cut);
    WithoutVictimAllSurvives(s.work, body);
  }

  /** A dead session is never replaced inside a block, so nothing of it is stored. */
  lemma {:induction false} DeadSessionStoresNothing(s: State, body: seq<BodyStep>)
    requires Sound(s) && s.hasConn && s.explicit && !s.alive
    ensures var u := RunBody(s, body).s;
            Sound(u) && u.hasConn && u.explicit && !u.alive && u.committed == s.committed
  {
    if body != [] { DeadSessionStoresNothing(s, body[..|body| - 1]); }
  }

  lemma RunBodySnoc(s: State, body: seq<BodyStep>, b: BodyStep)
    ensures RunBody(s, body + [b])
         == if RunBody(s, body).raised then RunBody(s, body) else BodyStepReply(RunBody(s, body).s, b)
  {
    assert (body + [b])[..|body + [b]| - 1] == body;
  }

  lemma AcceptedSnoc(body: seq<BodyStep>, b: BodyStep)
    ensures Accepted(body + [b]) == Accepted(body) + AcceptedBy(b)
  {
    assert (body + [b])[..|body + [b]| - 1] == body;
  }

  /** On a thread without a connection the first statement makes one and forgets that a block
      was begun, so a swallowed error rolls back half of it and the rest is committed. */
  lemma WithoutConnectionHalfIsCommitted(s: State)
    requires Sound(s) && !s.hasConn && !s.autocommit
    ensures exists body :: NoVictim(body) && !Atomic(s, body, Committed, false)
  {
    var a, b, c := Write(["a"], Fine, true), Write(["b"], Rejected(0), true), Write(["c"], Fine, true);
    var begun := s.(explicit := true);
    RunBodySnoc(begun, [], a);
    RunBodySnoc(begun, [a], b);
    RunBodySnoc(begun, [a, b], c);
    assert [] + [a] == [a] && [a] + [b] == [a, b] && [a, b] + [c] == [a, b, c];
    assert Transaction(s, [a, b, c], Committed, false).s.committed == s.committed + ["c"];
    AcceptedSnoc([], a);
    AcceptedSnoc([a], b);
    AcceptedSnoc([a, b], c);
    assert Accepted([a, b, c]) == ["a"] + Take(["b"], 0) + ["c"];
    assert NoVictim([a, b, c]) && !Atomic(s, [a, b, c], Committed, false) by {
      assert |s.committed + ["c"]| == |s.committed| + 1;
    }
  }

  lemma AutocommitBody(s: State)
    requires s.autocommit && (s.hasConn ==> s.alive)
    ensures var r := RunBody(s.(explicit := true), [Write(["a"], Fine, true), Throw]);
            r.raised && r.s.committed == s.committed + ["a"]
  {
    var a := Write(["a"], Fine, true);
    var begun := s.(explicit := true);
    assert [] + [a] == [a] && [a] + [Throw] == [a, Throw];
    RunBodySnoc(begun, [], a);
    RunBodySnoc(begun, [a], Throw);
  }

  lemma RollbackTouchesNothingStored(s: State, cut: bool)
    ensures RollbackStep(s, cut, true).s.committed == s.committed
  {
  }

  /** `begin()` sends nothing to the server, so under autocommit a write is stored at once. */
  lemma AutocommitStoresAtOnce(s: State)
    requires Sound(s) && s.autocommit && (s.hasConn ==> s.alive)
    ensures exists body :: NoVictim(body) && !Atomic(s, body, Committed, false)
  {
    var body := [Write(["a"], Fine, true), Throw];
    AutocommitBody(s);
    RollbackTouchesNothingStored(RunBody(s.(explicit := true), body).s, false);
    assert |s.committed + ["a"]| == |s.committed| + 1;
    assert NoVictim(body) && !Atomic(s, body, Committed, false);
  }

  /** Exactly when blocks without a deadlock are all or nothing. */
  lemma AtomicExactlyWhenConnected(s: State)
    requires Sound(s)
    ensures (forall body, end, cut :: NoVictim(body) ==> Atomic(s, body, end, cut))
       <==> s.hasConn && (!s.autocommit || !s.alive)
  {
    if s.hasConn && !s.autocommit {
      forall body, end, cut | NoVictim(body) ensures Atomic(s, body, end, cut) {
        BlockIsAtomic(s, body, end, cut);
      }
    } else if s.hasConn && !s.alive {
      forall body, end, cut | NoVictim(body) ensures Atomic(s, body, end, cut) {
        DeadSessionStoresNothing(s.(explicit := true), body);
      }
    } else if !s.autocommit {
      WithoutConnectionHalfIsCommitted(s);
    } else {
      AutocommitStoresAtOnce(s);
    }
  }

  // ── Deadlocks ─────────────────────────────────────────────────────────────

  /** How many of the block's writes the last deadlock of the body took. */
  function TakenByDeadlock(before: seq<string>, body: seq<BodyStep>): nat {
    if body == [] then 0
    else if IsVictim(body[|body| - 1]) then |before + Accepted(body)|
    else TakenByDeadlock(before, body[..|body| - 1])
  }

  lemma {:induction false} SurvivorsAreTheRest(before: seq<string>, body: seq<BodyStep>)
    ensures TakenByDeadlock(before, body) <= |before + Accepted(body)|
    ensures Surviving(before, body) == (before + Accepted(body))[TakenByDeadlock(before, body)..]
  {
    if body == [] {
      assert before + [] == before;
    } else {
      SurvivorsAreTheRest(before, body[..|body| - 1]);
      var b := body[|body| - 1];
      var k := TakenByDeadlock(before, body[..|body| - 1]);
      var all := before + Accepted(body[..|body| - 1]);
      assert before + Accepted(body) == all + AcceptedBy(b);
      assert (all + AcceptedBy(b))[k..] == all[k..] + AcceptedBy(b);
    }
  }

  /** A block whose body swallows a deadlock can return normally and have stored only the writes
      after it: exactly when some write came before. */
  lemma SwallowedDeadlock(s: State, body: seq<BodyStep>, end: CommitFate, cut: bool)
    requires Sound(s) && s.hasConn && !s.autocommit && !Transaction(s, body, end, cut).raised
    ensures var all := s.work + Accepted(body);
            var k := TakenByDeadlock(s.work, body);
            && k <= |all|
            && Transaction(s, body, end, cut).s.committed == s.committed + all[k..]
            && (Atomic(s, body, end, cut) <==> k == 0)
  {
    BlockCommitsWhatSurvived(s, body, end, cut);
    SurvivorsAreTheRest(s.work, body);
    var all := s.work + Accepted(body);
    var k := TakenByDeadlock(s.work, body);
    assert |s.committed + all[k..]| == |s.committed| + |all| - k;
    assert all[0..] == all;
  }
}
