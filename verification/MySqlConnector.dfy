/**
  The MySQL connector on one thread: its flags and its connection as fields, changed call by
  call. Each call is the step that `MySqlTransaction` has for it, so the theorems there are about
  these methods; the contracts say besides what a caller relies on.
*/
module MySqlConnector {
  import opened MySqlTransaction

  class Connector {
    const autocommit: bool
    // The thread's side.
    var hasConn: bool
    var pending: bool
    var explicit: bool
    // The server's side.
    var alive: bool
    var open: bool
    var work: seq<string>
    var committed: seq<string>

    constructor (readOnly: bool, stored: seq<string>)
      ensures Valid() && autocommit == readOnly && Now() == Start(readOnly, stored)
    {
      autocommit, hasConn, pending, explicit := readOnly, false, false, false;
      alive, open, work, committed := false, false, [], stored;
    }

    function Now(): State
      reads this
    {
      State(autocommit, hasConn, alive, open, work, pending, explicit, committed)
    }

    /** Writes are in an open transaction of a live session and are flagged, and a thread without
        a connection has nothing pending. Every call keeps this, and every call but a catalog read
        keeps `NoIdle`, so that with no flag set nothing is open. */
    ghost predicate Valid()
      reads this
    {
      Sound(Now()) && (work != [] ==> pending) && (pending ==> hasConn)
    }

    /** Nothing in the session and both flags down. */
    predicate AtRest()
      reads this
    {
      !open && work == [] && !pending && !explicit
    }

    // ── Server ──────────────────────────────────────────────────────────────

    /** The server drops the session. */
    method Drop()
      modifies `alive, `open, `work
      ensures Now() == Dropped(old(Now()))
      ensures old(Valid()) ==> Valid()
    {
      alive, open, work := false, false, [];
    }

    method Send(rows: seq<string>, fate: Fate) returns (raised: bool)
      modifies `alive, `open, `work, `committed
      ensures Reply(Now(), raised) == Statement(old(Now()), rows, fate)
    {
      if !alive { return true; }
      match fate {
        case Fine => Write(rows);
        case Rejected(n) => Write(Take(rows, n));
        case Victim => open, work := false, [];
        case Cut => Drop();
      }
      return fate != Fine;
    }

    method Write(rows: seq<string>)
      modifies `open, `work, `committed
      ensures Now() == Applied(old(Now()), rows)
    {
      if autocommit { committed := committed + rows; } else { open, work := true, work + rows; }
    }

    /** The server stores what is open before it looks at a DDL statement. */
    method SendDdl(fate: Fate) returns (raised: bool)
      requires Sound(Now()) && hasConn
      modifies `alive, `open, `work, `committed
      ensures Reply(Now(), raised) == ServerDdl(old(Now()), fate)
      ensures Sound(Now()) && work == []
      ensures if raised then committed == old(committed) || committed == old(committed) + old(work)
              else alive && committed == old(committed) + old(work)
    {
      assert committed + work + [] == committed + work;
      ServerDdlIsSound(Now(), fate);
      if alive && fate != Cut {
        open, work, committed := false, [], committed + work;
        assert Now() == Stored(old(Now()));
      }
      raised := Send([], fate);
    }

    method SendCommit(end: CommitFate) returns (raised: bool)
      modifies `alive, `open, `work, `committed
      ensures Reply(Now(), raised) == ServerCommit(old(Now()), end)
      ensures old(alive) ==> !open && work == []
      ensures committed == old(committed) || committed == old(committed) + old(work)
    {
      if !alive { return true; }
      if end == Committed || end == LostAfter { committed := committed + work; }
      open, work := false, [];
      if end == LostBefore || end == LostAfter { alive := false; }
      return end != Committed;
    }

    // ── Transaction state ───────────────────────────────────────────────────

    method Settle()
      modifies `pending, `explicit
      ensures Now() == Settled(old(Now()))
    {
      pending, explicit := false, false;
    }

    /** In the middle of a transaction the session is the same, alive or not; otherwise it is one
        that lives and has nothing in it, or the call raises and nothing has changed. Nothing is
        lost either way. */
    method GetConn(reachable: bool) returns (raised: bool)
      requires Valid()
      modifies this
      ensures Reply(Now(), raised) == Conn(old(Now()), reachable)
      ensures Valid() && committed == old(committed) && work == old(work)
      ensures old(hasConn && (pending || explicit)) ==> !raised && Now() == old(Now())
      ensures !old(hasConn && (pending || explicit)) && !raised ==>
                hasConn && alive && work == [] && !pending && !explicit
      ensures raised ==> !reachable && Now() == old(Now())
      ensures old(NoIdle(Now())) ==> NoIdle(Now())
    {
      if !hasConn {
        if !reachable { return true; }
        hasConn, alive, open, work := true, true, false, [];
        Settle();
        return false;
      }
      if pending || explicit { return false; }
      if !alive {
        if !reachable { return true; }
        alive, open, work := true, false, [];
      }
      return false;
    }

    method Begin()
      requires Valid()
      modifies `explicit
      ensures Valid() && Now() == old(Now()).(explicit := true)
      ensures old(NoIdle(Now())) ==> NoIdle(Now())
    {
      explicit := true;
    }

    /** Outside `begin()` a failure leaves nothing behind; inside, it is left to whoever began. */
    method OnFailure()
      requires Sound(Now()) && (work != [] ==> pending)
      modifies this
      ensures Now() == Failed(old(Now()))
      ensures committed == old(committed)
      ensures if old(explicit) then Now() == old(Now()) else AtRest()
    {
      if !explicit {
        if alive { open, work := false, []; }
        Settle();
      }
    }

    /** A read outside any transaction leaves none open. */
    method FinishRead(end: CommitFate) returns (raised: bool)
      requires Sound(Now()) && (work != [] ==> pending)
      modifies `alive, `open, `work, `committed
      ensures Reply(Now(), raised) == EndRead(old(Now()), end)
      ensures !pending && !explicit ==> !open
      ensures committed == old(committed) && work == old(work)
    {
      raised := false;
      if !pending && !explicit && !autocommit { raised := SendCommit(end); }
    }

    // ── Calls ───────────────────────────────────────────────────────────────

    /** A write that returns is in the transaction, flagged, behind what was there; one that raises
        outside `begin()` leaves nothing behind, not even earlier writes. */
    method Execute(rows: seq<string>, fate: Fate, reachable: bool) returns (raised: bool)
      requires Valid()
      modifies this
      ensures Reply(Now(), raised) == ExecStep(old(Now()), rows, fate, reachable)
      ensures Valid()
      ensures old(NoIdle(Now())) ==> NoIdle(Now())
      ensures !raised && !autocommit ==> alive && pending && work == old(work) + rows && committed == old(committed)
      ensures !raised && autocommit ==> committed == old(committed) + rows
      ensures raised && !old(explicit) ==> AtRest()
      ensures raised && !autocommit ==> committed == old(committed)
    {
      raised := GetConn(reachable);
      if raised { return; }
      pending := true;
      raised := Send(rows, fate);
      if raised { OnFailure(); }
    }

    /** A read that returns leaves writes and flags as they were, and outside a transaction leaves
        none open; one that raises outside `begin()` leaves nothing behind. It never commits a
        write. */
    method Fetch(fate: Fate, end: CommitFate, reachable: bool) returns (raised: bool)
      requires Valid()
      modifies this
      ensures Reply(Now(), raised) == FetchStep(old(Now()), fate, end, reachable)
      ensures Valid() && committed == old(committed)
      ensures old(NoIdle(Now())) ==> NoIdle(Now())
      ensures !raised ==> work == old(work)
      ensures !raised && old(!pending && !explicit) ==> AtRest()
      ensures raised && !old(explicit) ==> AtRest()
    {
      raised := GetConn(reachable);
      if raised { return; }
      raised := Send([], fate);
      if raised { OnFailure(); } else { raised := FinishRead(end); }
    }

    /** A catalog read leaves its transaction open, whatever the flags say; on a dead session it
        raises and nothing settles. */
    method ReadCatalog(reachable: bool) returns (raised: bool)
      requires Valid()
      modifies this
      ensures Reply(Now(), raised) == CatalogStep(old(Now()), reachable)
      ensures Valid() && committed == old(committed) && work == old(work)
      ensures !raised && !autocommit ==> open
    {
      raised := GetConn(reachable);
      if !raised { raised := Send([], Fine); }
    }

    method RunDdl(fate: Fate, end: CommitFate) returns (raised: bool)
      requires Valid() && hasConn
      modifies this
      ensures Reply(Now(), raised) == DdlOn(old(Now()), fate, end)
      ensures Valid()
      ensures old(NoIdle(Now())) ==> NoIdle(Now())
      ensures !raised ==> AtRest() && committed == old(committed) + old(work)
      ensures raised ==> committed == old(committed) || committed == old(committed) + old(work)
    {
      raised := SendDdl(fate);
      if raised {
        OnFailure();
        return;
      }
      raised := SendCommit(end);
      assert committed + [] == committed;
      if !raised { Settle(); }
    }

    /** DDL that returns has stored what was written before it and leaves nothing open; one that
        raises has stored that or nothing. */
    method ExecuteDdl(fate: Fate, end: CommitFate, reachable: bool) returns (raised: bool)
      requires Valid()
      modifies this
      ensures Reply(Now(), raised) == DdlStep(old(Now()), fate, end, reachable)
      ensures Valid()
      ensures old(NoIdle(Now())) ==> NoIdle(Now())
      ensures !raised ==> AtRest() && committed == old(committed) + old(work)
      ensures raised ==> committed == old(committed) || committed == old(committed) + old(work)
    {
      raised := GetConn(reachable);
      if !raised { raised := RunDdl(fate, end); }
    }

    /** A commit that returns has stored the transaction and leaves nothing open; one that raises has
        stored nothing, unless just the answer was lost. */
    method Commit(end: CommitFate, reachable: bool) returns (raised: bool)
      requires Valid()
      modifies this
      ensures Reply(Now(), raised) == CommitStep(old(Now()), end, reachable)
      ensures Valid()
      ensures old(NoIdle(Now())) ==> NoIdle(Now())
      ensures !raised ==> AtRest() && committed == old(committed) + old(work)
      ensures raised ==> committed == old(committed)
                         || (end == LostAfter && committed == old(committed) + old(work))
    {
      raised := GetConn(reachable);
      if raised { return; }
      raised := SendCommit(end);
      if !raised { Settle(); }
    }

    /** A rollback leaves nothing open and stores nothing, also when it raises. */
    method Rollback(cut: bool, reachable: bool) returns (raised: bool)
      requires Valid()
      modifies this
      ensures Reply(Now(), raised) == RollbackStep(old(Now()), cut, reachable)
      ensures Valid() && AtRest() && committed == old(committed)
    {
      raised := GetConn(reachable);
      if !raised {
        if !alive {
          raised := true;
        } else if cut {
          Drop();
          raised := true;
        } else {
          open, work := false, [];
        }
      }
      Settle();
    }

    /** One step of a block's body. */
    method BodyCall(b: BodyStep) returns (raised: bool)
      requires Valid()
      modifies this
      ensures Valid() && Reply(Now(), raised) == BodyStepReply(old(Now()), b)
    {
      match b {
        case Write(rows, fate, swallowed) =>
          raised := Execute(rows, fate, true);
          raised := raised && !swallowed;
        case Read(fate, end, swallowed) =>
          raised := Fetch(fate, end, true);
          raised := raised && !swallowed;
        case Throw => raised := true;
        case Lost => Drop(); raised := false;
      }
    }

    /** The body, up to the first error it lets out. */
    method RunAll(body: seq<BodyStep>) returns (raised: bool)
      requires Valid()
      modifies this
      ensures Valid() && Reply(Now(), raised) == RunBody(old(Now()), body)
    {
      raised := false;
      ghost var begun := Now();
      var i := 0;
      while i < |body| && !raised
        invariant Valid() && i <= |body| && Reply(Now(), raised) == RunBody(begun, body[..i])
      {
        assert body[..i + 1][..i] == body[..i];
        raised := BodyCall(body[i]);
        i := i + 1;
      }
      if raised { StopsThere(begun, body, i); }
      assert body[..|body|] == body;
    }

    /** The context manager around a body. It leaves nothing open, and on a thread that has its
        connection, without autocommit or deadlocks, it stores all of the block or none of it. */
    method InTransaction(body: seq<BodyStep>, end: CommitFate, cut: bool) returns (raised: bool)
      requires Valid()
      modifies this
      ensures Valid() && AtRest() && Reply(Now(), raised) == Transaction(old(Now()), body, end, cut)
      ensures old(hasConn && !autocommit) && NoVictim(body) ==>
                if raised
                then committed == old(committed)
                     || (end == LostAfter && committed == old(committed) + (old(work) + Accepted(body)))
                else committed == old(committed) + (old(work) + Accepted(body))
    {
      Begin();
      raised := RunAll(body);
      if !raised { raised := Commit(end, true); }
      if raised {
        var _ := Rollback(cut, true);
      }
      AllOrNothing(old(Now()), body, end, cut);
    }
  }

  lemma AllOrNothing(s: State, body: seq<BodyStep>, end: CommitFate, cut: bool)
    requires Sound(s)
    ensures s.hasConn && !s.autocommit && NoVictim(body) ==> Atomic(s, body, end, cut)
  {
    if s.hasConn && !s.autocommit && NoVictim(body) {
      BlockIsAtomic(s, body, end, cut);
    }
  }

  lemma {:induction false} StopsThere(s: State, body: seq<BodyStep>, i: nat)
    requires i <= |body| && RunBody(s, body[..i]).raised
    ensures RunBody(s, body) == RunBody(s, body[..i])
    decreases |body|
  {
    if i < |body| {
      assert body[..|body| - 1][..i] == body[..i];
      StopsThere(s, body[..|body| - 1], i);
    } else {
      assert body[..i] == body;
    }
  }
}
