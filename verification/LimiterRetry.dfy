/**
  What a denied client is told, and whether it is let through when it does as told.
*/
module LimiterRetry {
  import opened Common
  import opened RateLimiter

  /** The hits a recorded call counts: those in its window, and itself. */
  function Counted(log: Log, key: string, window: real, tag: string, now: real): (hs: seq<Hit>)
    ensures hs != []
  {
    After(Hits(log, key), now - window) + [Hit(now, tag)]
  }

  // ── Tails of hits in order ────────────────────────────────────────────────

  /** Of hits in order, the ones after a moment are the last so many. */
  lemma {:induction false} AfterIsATail(hs: seq<Hit>, clock: real, cutoff: real)
    requires Sorted(hs, clock)
    ensures |After(hs, cutoff)| <= |hs|
    ensures forall i :: 0 <= i < |hs| ==> (hs[i].at > cutoff <==> |hs| - |After(hs, cutoff)| <= i)
  {
    if hs != [] {
      var init := hs[..|hs| - 1];
      assert forall i :: 0 <= i < |init| ==> init[i] == hs[i];
      AfterIsATail(init, clock, cutoff);
    }
  }

  /** Fewer than `limit` are left exactly when the limit-th newest is out. */
  lemma FewAreLeft(hs: seq<Hit>, clock: real, cutoff: real, limit: int)
    requires Sorted(hs, clock) && 0 < limit <= |hs|
    ensures |After(hs, cutoff)| < limit <==> hs[|hs| - limit].at <= cutoff
  {
    AfterIsATail(hs, clock, cutoff);
  }

  lemma {:induction false} AfterOrdered(hs: seq<Hit>, cutoff: real, clock: real)
    requires Ordered(hs, clock)
    ensures Ordered(After(hs, cutoff), clock)
  {
    if hs != [] {
      var init, last := hs[..|hs| - 1], hs[|hs| - 1];
      assert hs == init + [last];
      AfterOrdered(init, cutoff, last.at);
      Snoc(init, last, "", cutoff);
      if last.at > cutoff { OrderedSnoc(After(init, cutoff), last); }
      OrderedLater(After(hs, cutoff), last.at, clock);
    }
  }

  lemma CountedIsSorted(hs: seq<Hit>, h: Hit, cutoff: real)
    requires Ordered(hs, h.at)
    ensures Sorted(After(hs, cutoff) + [h], h.at)
  {
    AfterOrdered(hs, cutoff, h.at);
    OrderedSnoc(After(hs, cutoff), h);
    OrderedIsSorted(After(hs, cutoff) + [h], h.at);
  }

  /** Later, of the whole history counts what is left of the hits counted now. */
  lemma CountedLater(hs: seq<Hit>, h: Hit, cutoff: real, later: real)
    requires cutoff <= later
    ensures After(hs + [h], later) == After(After(hs, cutoff) + [h], later)
  {
    AfterAfter(hs, cutoff, later);
    Snoc(hs, h, "", later);
    Snoc(After(hs, cutoff), h, "", later);
  }

  // ── On the history ────────────────────────────────────────────────────────

  /** A denied call that waits `wait` seconds and comes back, nobody else using the key meanwhile,
      is let through exactly when by then the limit-th newest of the hits it was denied for is
      out of the window. */
  lemma LetThroughExactly(log: Log, key: string, limit: int, window: real, tag: string, now: real, wait: real)
    requires limit > 0 && wait >= 0.0 && Ordered(Hits(log, key), now)
    requires !LogAnswer(log, Record(key, limit, window, tag, now)).allowed
    ensures var counted := Counted(log, key, window, tag, now);
            && |counted| > limit
            && (LogAnswer(LogStep(log, Record(key, limit, window, tag, now)),
                          Record(key, limit, window, tag, now + wait)).allowed
                <==> counted[|counted| - limit].at + window <= now + wait)
  {
    var hs, h := Hits(log, key), Hit(now, tag);
    var counted := Counted(log, key, window, tag, now);
    var cutoff, later := now - window, now + wait - window;
    assert Hits(LogStep(log, Record(key, limit, window, tag, now)), key) == hs + [h];
    assert counted == After(hs, cutoff) + [h];
    assert |counted| > limit;
    assert After(hs + [h], later) == After(counted, later) by { CountedLater(hs, h, cutoff, later); }
    assert |After(counted, later)| < limit <==> counted[|counted| - limit].at <= later by {
      CountedIsSorted(hs, h, cutoff);
      FewAreLeft(counted, now, later, limit);
    }
  }

  // ── On the limiter ────────────────────────────────────────────────────────

  lemma LastInOrder(ops: seq<Op>, op: Op)
    requires Timed(op) && InOrder(ops + [op])
    ensures InOrder(ops)
    ensures forall o :: o in ops && Timed(o) ==> o.now <= op.now && o.now - o.window <= op.now - op.window
  {
    forall i | 0 <= i < |ops| && Timed(ops[i])
      ensures ops[i].now <= op.now && ops[i].now - ops[i].window <= op.now - op.window
    {
      assert (ops + [op])[i] == ops[i] && (ops + [op])[|ops|] == op;
    }
    assert forall i :: 0 <= i < |ops| ==> (ops + [op])[i] == ops[i];
  }

  lemma LogIsOrdered(ops: seq<Op>, op: Op)
    requires Timed(op) && InOrder(ops + [op])
    ensures Ordered(Hits(LogRun(map[], ops), op.key), op.now)
  {
    LastInOrder(ops, op);
    RunAgrees(ops, op.now, op.now - op.window);
    assert AgreeOn(Run(Start(), ops), LogRun(map[], ops), op.now, op.now - op.window, op.key);
  }

  lemma StillInOrder(ops: seq<Op>, op: Op, again: Op)
    requires Timed(op) && Timed(again) && InOrder(ops + [op])
    requires op.now <= again.now && op.window == again.window
    ensures InOrder(ops + [op] + [again])
  {
    LastInOrder(ops, op);
    var all := ops + [op] + [again];
    forall i, j | 0 <= i < j < |all| && Timed(all[i]) && Timed(all[j])
      ensures all[i].now <= all[j].now && all[i].now - all[i].window <= all[j].now - all[j].window
    {
      assert i < |ops| ==> all[i] in ops && all[i] == ops[i];
      assert j < |ops| ==> all[j] == ops[j];
    }
  }

  lemma LastTwoAnswers(ops: seq<Op>, op: Op, again: Op)
    ensures LogAnswers(ops + [op] + [again])[|ops|] == LogAnswer(LogRun(map[], ops), op)
    ensures LogAnswers(ops + [op] + [again])[|ops| + 1] == LogAnswer(LogStep(LogRun(map[], ops), op), again)
  {
    var more := ops + [op];
    assert more[..|more| - 1] == ops;
    assert (more + [again])[..|more + [again]| - 1] == more;
  }

  lemma ToldToWait(log: Log, key: string, limit: int, window: real, tag: string, now: real)
    requires limit > 0 && !LogAnswer(log, Record(key, limit, window, tag, now)).allowed
    ensures var wait := LogAnswer(log, Record(key, limit, window, tag, now)).retryAfter;
            wait >= 1 && Counted(log, key, window, tag, now)[0].at + window < now + wait as real
  {
    var oldest := Counted(log, key, window, tag, now)[0].at;
    assert LogAnswer(log, Record(key, limit, window, tag, now)).retryAfter == RetryAfter(oldest, window, now);
    RetryCoversTheWindow(oldest, window, now);
  }

  /** The same call, `wait` seconds later. */
  predicate Again(op: Op, again: Op, wait: real) {
    op.Record? && again.Record? && again.key == op.key && again.limit == op.limit && again.window == op.window
    && again.tag == op.tag && again.now == op.now + wait
  }

  lemma DeniedOnTheHistory(log: Log, op: Op, again: Op, wait: real)
    requires op.Record? && op.limit > 0 && Ordered(Hits(log, op.key), op.now)
    requires !LogAnswer(log, op).allowed && wait == LogAnswer(log, op).retryAfter as real && Again(op, again, wait)
    ensures var counted := Counted(log, op.key, op.window, op.tag, op.now);
            && |counted| > op.limit && counted[0].at + op.window < op.now + wait
            && (LogAnswer(LogStep(log, op), again).allowed
                <==> counted[|counted| - op.limit].at + op.window <= again.now)
  {
    assert op == Record(op.key, op.limit, op.window, op.tag, op.now);
    ToldToWait(log, op.key, op.limit, op.window, op.tag, op.now);
    LetThroughExactly(log, op.key, op.limit, op.window, op.tag, op.now, wait);
  }

  lemma WaitIsForward(ops: seq<Op>, op: Op, again: Op)
    requires op.Record? && op.limit > 0 && InOrder(ops + [op])
    requires !Replies(ops + [op] + [again])[|ops|].allowed
    ensures Replies(ops + [op] + [again])[|ops|].retryAfter >= 1
  {
    var more := ops + [op];
    assert (more + [again])[..|more + [again]| - 1] == more;
    assert Replies(more + [again])[|ops|] == Replies(more)[|ops|];
    RepliesAreTheHistorys(more);
    LastTwoAnswers(ops, op, again);
    assert LogAnswers(more + [again])[|ops|] == LogAnswers(more)[|ops|];
    assert op == Record(op.key, op.limit, op.window, op.tag, op.now);
    ToldToWait(LogRun(map[], ops), op.key, op.limit, op.window, op.tag, op.now);
  }

  lemma AllAnswered(ops: seq<Op>, op: Op, again: Op, wait: real)
    requires op.Record? && op.limit > 0 && InOrder(ops + [op]) && Again(op, again, wait)
    requires var told := Replies(ops + [op] + [again])[|ops|]; !told.allowed && wait == told.retryAfter as real
    ensures Replies(ops + [op] + [again]) == LogAnswers(ops + [op] + [again])
  {
    WaitIsForward(ops, op, again);
    StillInOrder(ops, op, again);
    RepliesAreTheHistorys(ops + [op] + [again]);
  }

  /** In a run that ends with these two calls, what each is answered. */
  ghost predicate Answered(ops: seq<Op>, op: Op, again: Op, told: Answer, later: Answer) {
    var answers := Replies(ops + [op] + [again]);
    told == answers[|ops|] && later == answers[|ops| + 1]
  }

  lemma AnsweredByTheHistory(ops: seq<Op>, op: Op, again: Op, told: Answer, later: Answer)
    requires op.Record? && op.limit > 0 && InOrder(ops + [op]) && Again(op, again, told.retryAfter as real)
    requires Answered(ops, op, again, told, later) && !told.allowed
    ensures told == LogAnswer(LogRun(map[], ops), op) && later == LogAnswer(LogStep(LogRun(map[], ops), op), again)
    ensures Ordered(Hits(LogRun(map[], ops), op.key), op.now)
  {
    AllAnswered(ops, op, again, told.retryAfter as real);
    LastTwoAnswers(ops, op, again);
    LogIsOrdered(ops, op);
  }

  /** Over any run in order: the wait a denied call is told outlasts its oldest counted hit, and one
      that waits so and comes back is let through exactly when the limit-th newest of its counted
      hits has left the window as well. Of a first denial that is the second oldest. */
  lemma DeniedClientComesBack(ops: seq<Op>, op: Op, again: Op, told: Answer, later: Answer, log: Log)
    requires op.Record? && op.limit > 0 && InOrder(ops + [op]) && Again(op, again, told.retryAfter as real)
    requires Answered(ops, op, again, told, later) && !told.allowed && log == LogRun(map[], ops)
    ensures var counted := Counted(log, op.key, op.window, op.tag, op.now);
            && |counted| > op.limit && counted[0].at + op.window < op.now + told.retryAfter as real
            && (later.allowed <==> counted[|counted| - op.limit].at + op.window <= again.now)
  {
    AnsweredByTheHistory(ops, op, again, told, later);
    DeniedOnTheHistory(log, op, again, told.retryAfter as real);
  }

  lemma Counts(a: Hit, b: Hit, c: Hit)
    requires -30.0 < a.at <= b.at <= c.at <= 30.0
    ensures Counted(map["k" := [a, b, c]], "k", 60.0, "", 30.0) == [a, b, c, Hit(30.0, "")]
    ensures Ordered([a, b, c], 30.0)
  {
    AfterAll([a, b, c], -30.0);
    OrderedIsSorted([a, b, c], 30.0);
  }

  /** So the wait alone need not suffice: hits at 0, 10 and 20 and a denied one at 30, at most 3 in
      60 seconds, and at 61 three of them still count. */
  lemma WaitingMayNotSuffice()
    ensures exists log, key, limit, window: real, now: real ::
              var op := Record(key, limit, window, "", now);
              limit > 0 && Ordered(Hits(log, key), now) && !LogAnswer(log, op).allowed
              && !LogAnswer(LogStep(log, op), Record(key, limit, window, "", now + LogAnswer(log, op).retryAfter as real)).allowed
  {
    var a, b, c := Hit(0.0, ""), Hit(10.0, ""), Hit(20.0, "");
    var log := map["k" := [a, b, c]];
    var op := Record("k", 3, 60.0, "", 30.0);
    Counts(a, b, c);
    assert !LogAnswer(log, op).allowed && LogAnswer(log, op).retryAfter == RetryAfter(0.0, 60.0, 30.0);
    assert RetryAfter(0.0, 60.0, 30.0) == 31 by { RetryCoversTheWindow(0.0, 60.0, 30.0); }
    LetThroughExactly(log, "k", 3, 60.0, "", 30.0, 31.0);
    assert !LogAnswer(LogStep(log, op), Record("k", 3, 60.0, "", 30.0 + 31.0)).allowed;
  }
}
