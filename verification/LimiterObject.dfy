/**
  The rate limiter as an object: buckets and the moment of the last collection, updated in place
  by every call. Each call is the step and the answer that `RateLimiter` defines.
*/
module LimiterObject {
  import opened Common
  import opened RateLimiter

  class Limiter {
    var buckets: Log
    var lastGc: real

    constructor ()
      ensures Now() == Start()
    {
      buckets, lastGc := map[], 0.0;
    }

    function Now(): State
      reads this
    {
      State(buckets, lastGc)
    }

    /** Old hits popped from the left of a bucket. */
    method PopOld(hs: seq<Hit>, cutoff: real) returns (rest: seq<Hit>)
      ensures rest == Popped(hs, cutoff)
    {
      rest := hs;
      while rest != [] && rest[0].at <= cutoff
        invariant Popped(rest, cutoff) == Popped(hs, cutoff)
        decreases |rest|
      {
        rest := rest[1..];
      }
    }

    method Collect(now: real, window: real)
      modifies this
      ensures Now() == Collected(old(Now()), now, window)
    {
      if now - lastGc < Max(60.0, window) { return; }
      lastGc := now;
      ghost var was := buckets;
      var todo := set k | k in buckets && Stale(buckets[k], now - window);
      while todo != {}
        invariant lastGc == now && todo <= buckets.Keys <= was.Keys
        invariant forall k :: k in todo ==> Stale(was[k], now - window)
        invariant forall k :: k in was && k !in todo ==> (k in buckets <==> !Stale(was[k], now - window))
        invariant forall k :: k in buckets ==> buckets[k] == was[k]
        decreases todo
      {
        var k :| k in todo;
        buckets := buckets - {k};
        todo := todo - {k};
      }
    }

    method RecordHit(key: string, limit: int, window: real, tag: string, now: real) returns (answer: Answer)
      modifies this
      ensures Now() == Step(old(Now()), Record(key, limit, window, tag, now))
      ensures answer == Reply(old(Now()), Record(key, limit, window, tag, now))
    {
      if limit <= 0 { return Answer(true, 0); }
      Collect(now, window);
      var hs := if key in buckets then buckets[key] else [];
      hs := PopOld(hs, now - window);
      hs := hs + [Hit(now, tag)];
      buckets := buckets[key := hs];
      if |hs| > limit {
        return Answer(false, RetryAfter(hs[0].at, window, now));
      }
      return Answer(true, 0);
    }

    method PeekAt(key: string, limit: int, window: real, now: real) returns (answer: Answer)
      modifies `buckets
      ensures Now() == Step(old(Now()), Peek(key, limit, window, now))
      ensures answer == Reply(old(Now()), Peek(key, limit, window, now))
    {
      if limit <= 0 || key !in buckets || buckets[key] == [] { return Answer(true, 0); }
      var hs := PopOld(buckets[key], now - window);
      buckets := buckets[key := hs];
      if |hs| >= limit {
        return Answer(false, RetryAfter(hs[0].at, window, now));
      }
      return Answer(true, 0);
    }

    method ResetKey(key: string)
      modifies `buckets
      ensures Now() == Step(old(Now()), Reset(key))
    {
      buckets := buckets - {key};
    }

    method ForgetTag(key: string, tag: string)
      modifies `buckets
      ensures Now() == Step(old(Now()), Forget(key, tag))
    {
      if key !in buckets || buckets[key] == [] { return; }
      var hs := buckets[key];
      var kept := [];
      for i := 0 to |hs|
        invariant kept == Untagged(hs[..i], tag)
      {
        assert hs[..i + 1][..i] == hs[..i];
        if hs[i].tag != tag { kept := kept + [hs[i]]; }
      }
      assert hs[..|hs|] == hs;
      buckets := if kept != [] then buckets[key := kept] else buckets - {key};
    }

    method Call(op: Op) returns (answer: Answer)
      modifies this
      ensures Now() == Step(old(Now()), op) && answer == Reply(old(Now()), op)
    {
      match op {
        case Record(key, limit, window, tag, now) => answer := RecordHit(key, limit, window, tag, now);
        case Peek(key, limit, window, now) => answer := PeekAt(key, limit, window, now);
        case Reset(key) => ResetKey(key); answer := Answer(true, 0);
        case Forget(key, tag) => ForgetTag(key, tag); answer := Answer(true, 0);
      }
    }
  }

  /** A fresh limiter, used in order, gives the answers of a counter over the whole history. */
  method Serve(ops: seq<Op>) returns (answers: seq<Answer>)
    requires InOrder(ops)
    ensures answers == LogAnswers(ops)
  {
    var limiter := new Limiter();
    answers := [];
    for i := 0 to |ops|
      invariant answers == LogAnswers(ops[..i]) && limiter.Now() == Run(Start(), ops[..i])
    {
      NextAnswer(ops, i);
      var answer := limiter.Call(ops[i]);
      answers := answers + [answer];
    }
    assert ops[..|ops|] == ops;
  }

  lemma NextAnswer(ops: seq<Op>, i: nat)
    requires InOrder(ops) && i < |ops|
    ensures LogAnswers(ops[..i + 1]) == LogAnswers(ops[..i]) + [Reply(Run(Start(), ops[..i]), ops[i])]
    ensures Run(Start(), ops[..i + 1]) == Step(Run(Start(), ops[..i]), ops[i])
  {
    assert ops[..i] + [ops[i]] == ops[..i + 1];
    assert ops[..i + 1][..i] == ops[..i];
    AnswersAsTheHistory(ops[..i], ops[i]);
  }
}
