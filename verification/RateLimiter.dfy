/**
  The sliding-window rate limiter: buckets of hits that are emptied lazily and collected now and
  then, against the plain history that is never emptied.
*/
module RateLimiter {
  import opened Common

  datatype Hit = Hit(at: real, tag: string)
  datatype Answer = Answer(allowed: bool, retryAfter: int)

  type Log = map<string, seq<Hit>>

  function Hits(log: Log, key: string): seq<Hit> {
    if key in log then log[key] else []
  }

  /** Truncation toward zero, as `int()` does it. */
  function Trunc(x: real): int {
    if x >= 0.0 then x.Floor else -((-x).Floor)
  }

  function RetryAfter(oldest: real, window: real, now: real): int {
    var retry := Trunc(oldest + window - now) + 1;
    if retry < 1 then 1 else retry
  }

  /** A caller told to come back after this long comes back when the oldest hit is out of the
      window, and not a second later than needed. */
  lemma RetryCoversTheWindow(oldest: real, window: real, now: real)
    ensures RetryAfter(oldest, window, now) >= 1
    ensures oldest + window - now < RetryAfter(oldest, window, now) as real
    ensures oldest + window - now >= 0.0 ==>
              (RetryAfter(oldest, window, now) - 1) as real <= oldest + window - now
  {
    var x := oldest + window - now;
    if x < 0.0 {
      assert (-x).Floor >= 0;
    }
  }

  // ── The plain history ─────────────────────────────────────────────────────

  /** The hits after a moment. */
  function After(hs: seq<Hit>, cutoff: real): seq<Hit> {
    if hs == [] then []
    else After(hs[..|hs| - 1], cutoff) + if hs[|hs| - 1].at > cutoff then [hs[|hs| - 1]] else []
  }

  function Untagged(hs: seq<Hit>, tag: string): seq<Hit> {
    if hs == [] then []
    else Untagged(hs[..|hs| - 1], tag) + if hs[|hs| - 1].tag != tag then [hs[|hs| - 1]] else []
  }

  /** A call on the limiter, with the clock it reads. */
  datatype Op =
    | Record(key: string, limit: int, window: real, tag: string, now: real)
    | Peek(key: string, limit: int, window: real, now: real)
    | Reset(key: string)
    | Forget(key: string, tag: string)

  /** Whether a call looks at the clock at all: a limit of zero or less turns it off. */
  predicate Timed(op: Op) {
    (op.Record? || op.Peek?) && op.limit > 0
  }

  function LogStep(log: Log, op: Op): Log {
    match op
    case Record(key, limit, _, tag, now) =>
      if limit <= 0 then log else log[key := Hits(log, key) + [Hit(now, tag)]]
    case Peek(_, _, _, _) => log
    case Reset(key) => log - {key}
    case Forget(key, tag) => log[key := Untagged(Hits(log, key), tag)]
  }

  function AnswerFor(counted: seq<Hit>, over: bool, window: real, now: real): Answer
    requires over ==> counted != []
  {
    if over then Answer(false, RetryAfter(counted[0].at, window, now)) else Answer(true, 0)
  }

  /** The answer of a counter over the whole history, cut to the trailing window. */
  function LogAnswer(log: Log, op: Op): Answer {
    match op
    case Record(key, limit, window, tag, now) =>
      if limit <= 0 then Answer(true, 0)
      else
        var counted := After(Hits(log, key), now - window) + [Hit(now, tag)];
        AnswerFor(counted, |counted| > limit, window, now)
    case Peek(key, limit, window, now) =>
      if limit <= 0 then Answer(true, 0)
      else
        var counted := After(Hits(log, key), now - window);
        AnswerFor(counted, |counted| >= limit, window, now)
    case _ => Answer(true, 0)
  }

  function LogRun(log: Log, ops: seq<Op>): Log {
    if ops == [] then log else LogStep(LogRun(log, ops[..|ops| - 1]), ops[|ops| - 1])
  }

  /** The answers a run of calls gets. */
  function LogAnswers(ops: seq<Op>): (r: seq<Answer>)
    ensures |r| == |ops|
  {
    if ops == [] then []
    else LogAnswers(ops[..|ops| - 1]) + [LogAnswer(LogRun(map[], ops[..|ops| - 1]), ops[|ops| - 1])]
  }

  // ── The limiter ───────────────────────────────────────────────────────────

  datatype State = State(buckets: Log, lastGc: real)

  function Popped(hs: seq<Hit>, cutoff: real): seq<Hit> {
    if hs != [] && hs[0].at <= cutoff then Popped(hs[1..], cutoff) else hs
  }

  predicate Stale(hs: seq<Hit>, cutoff: real) {
    hs == [] || hs[|hs| - 1].at <= cutoff
  }

  function Max(a: real, b: real): real {
    if a < b then b else a
  }

  /** Every bucket whose last hit is out of the window goes, at most once in a while. */
  function Collected(s: State, now: real, window: real): State {
    if now - s.lastGc < Max(60.0, window) then s
    else State(map k | k in s.buckets && !Stale(s.buckets[k], now - window) :: s.buckets[k], now)
  }

  /** The bucket of a key with its old hits popped and the new one appended. */
  function Recorded(buckets: Log, key: string, window: real, tag: string, now: real): (hs: seq<Hit>)
    ensures hs != []
  {
    Popped(Hits(buckets, key), now - window) + [Hit(now, tag)]
  }

  function Step(s: State, op: Op): State {
    match op
    case Record(key, limit, window, tag, now) =>
      if limit <= 0 then s
      else
        var c := Collected(s, now, window);
        c.(buckets := c.buckets[key := Recorded(c.buckets, key, window, tag, now)])
    case Peek(key, limit, window, now) =>
      if limit <= 0 || Hits(s.buckets, key) == [] then s
      else s.(buckets := s.buckets[key := Popped(s.buckets[key], now - window)])
    case Reset(key) => s.(buckets := s.buckets - {key})
    case Forget(key, tag) =>
      if Hits(s.buckets, key) == [] then s
      else
        var kept := Untagged(s.buckets[key], tag);
        s.(buckets := if kept != [] then s.buckets[key := kept] else s.buckets - {key})
  }

  function Reply(s: State, op: Op): Answer {
    match op
    case Record(key, limit, window, tag, now) =>
      if limit <= 0 then Answer(true, 0)
      else
        var hs := Recorded(Collected(s, now, window).buckets, key, window, tag, now);
        AnswerFor(hs, |hs| > limit, window, now)
    case Peek(key, limit, window, now) =>
      if limit <= 0 then Answer(true, 0)
      else
        var hs := Popped(Hits(s.buckets, key), now - window);
        AnswerFor(hs, |hs| >= limit, window, now)
    case _ => Answer(true, 0)
  }

  function Run(s: State, ops: seq<Op>): State {
    if ops == [] then s else Step(Run(s, ops[..|ops| - 1]), ops[|ops| - 1])
  }

  function Start(): State {
    State(map[], 0.0)
  }

  /** The answers the limiter gives to a run of calls. */
  function Replies(ops: seq<Op>): (r: seq<Answer>)
    ensures |r| == |ops|
  {
    if ops == [] then []
    else Replies(ops[..|ops| - 1]) + [Reply(Run(Start(), ops[..|ops| - 1]), ops[|ops| - 1])]
  }

  // ── Windows over sorted hits ──────────────────────────────────────────────

  /** In order of time, none after `clock`. */
  ghost predicate Ordered(hs: seq<Hit>, clock: real) {
    hs == [] || (hs[|hs| - 1].at <= clock && Ordered(hs[..|hs| - 1], hs[|hs| - 1].at))
  }

  ghost predicate Sorted(hs: seq<Hit>, clock: real) {
    && (forall i, j :: 0 <= i < j < |hs| ==> hs[i].at <= hs[j].at)
    && forall i :: 0 <= i < |hs| ==> hs[i].at <= clock
  }

  lemma {:induction false} OrderedIsSorted(hs: seq<Hit>, clock: real)
    ensures Ordered(hs, clock) <==> Sorted(hs, clock)
  {
    if hs != [] {
      var init, last := hs[..|hs| - 1], hs[|hs| - 1];
      OrderedIsSorted(init, last.at);
      assert forall i :: 0 <= i < |init| ==> init[i] == hs[i];
    }
  }

  lemma OrderedLater(hs: seq<Hit>, clock: real, later: real)
    requires Ordered(hs, clock) && clock <= later
    ensures Ordered(hs, later)
  {
  }

  lemma OrderedSnoc(hs: seq<Hit>, h: Hit)
    requires Ordered(hs, h.at)
    ensures Ordered(hs + [h], h.at)
  {
    assert (hs + [h])[..|hs|] == hs;
  }

  lemma {:induction false} AfterAppend(a: seq<Hit>, b: seq<Hit>, cutoff: real)
    ensures After(a + b, cutoff) == After(a, cutoff) + After(b, cutoff)
  {
    if b == [] {
      assert a + b == a;
    } else {
      AfterAppend(a, b[..|b| - 1], cutoff);
      assert (a + b)[..|a + b| - 1] == a + b[..|b| - 1];
    }
  }

  lemma {:induction false} AfterAll(hs: seq<Hit>, cutoff: real)
    requires forall i :: 0 <= i < |hs| ==> hs[i].at > cutoff
    ensures After(hs, cutoff) == hs
  {
    if hs != [] {
      AfterAll(hs[..|hs| - 1], cutoff);
      assert hs == hs[..|hs| - 1] + [hs[|hs| - 1]];
    }
  }

  lemma {:induction false} AfterNone(hs: seq<Hit>, cutoff: real)
    requires forall i :: 0 <= i < |hs| ==> hs[i].at <= cutoff
    ensures After(hs, cutoff) == []
  {
    if hs != [] { AfterNone(hs[..|hs| - 1], cutoff); }
  }

  /** A window cut out of a wider window is the window. */
  lemma {:induction false} AfterAfter(hs: seq<Hit>, wide: real, cutoff: real)
    requires wide <= cutoff
    ensures After(After(hs, wide), cutoff) == After(hs, cutoff)
  {
    if hs != [] {
      AfterAfter(hs[..|hs| - 1], wide, cutoff);
      var last := hs[|hs| - 1];
      AfterAppend(After(hs[..|hs| - 1], wide), [last], cutoff);
      assert [last][..0] == [];
      assert After(hs[..|hs| - 1], wide) + [] == After(hs[..|hs| - 1], wide);
    }
  }

  lemma {:induction false} PoppedSorted(hs: seq<Hit>, cutoff: real, clock: real)
    requires Sorted(hs, clock)
    ensures Popped(hs, cutoff) == After(hs, cutoff) && Sorted(Popped(hs, cutoff), clock)
    decreases |hs|
  {
    if hs != [] && hs[0].at <= cutoff {
      var first, rest := hs[0], hs[1..];
      assert hs == [first] + rest;
      PoppedSorted(rest, cutoff, clock);
      AfterAppend([first], rest, cutoff);
      assert After([first], cutoff) == [] by { AfterNone([first], cutoff); }
    } else {
      AfterAll(hs, cutoff);
    }
  }

  lemma PoppedIsAfter(hs: seq<Hit>, cutoff: real, clock: real)
    requires Ordered(hs, clock)
    ensures Popped(hs, cutoff) == After(hs, cutoff) && Ordered(Popped(hs, cutoff), clock)
  {
    OrderedIsSorted(hs, clock);
    PoppedSorted(hs, cutoff, clock);
    OrderedIsSorted(Popped(hs, cutoff), clock);
  }

  lemma StaleHasNone(hs: seq<Hit>, cutoff: real, clock: real)
    requires Ordered(hs, clock) && Stale(hs, cutoff)
    ensures After(hs, cutoff) == []
  {
    OrderedIsSorted(hs, clock);
    AfterNone(hs, cutoff);
  }

  lemma Snoc(a: seq<Hit>, h: Hit, tag: string, cutoff: real)
    ensures After(a + [h], cutoff) == if h.at > cutoff then After(a, cutoff) + [h] else After(a, cutoff)
    ensures Untagged(a + [h], tag) == if h.tag != tag then Untagged(a, tag) + [h] else Untagged(a, tag)
  {
    assert (a + [h])[..|a + [h]| - 1] == a;
    assert After(a, cutoff) + [] == After(a, cutoff) && Untagged(a, tag) + [] == Untagged(a, tag);
  }

  lemma {:induction false} UntaggedAfter(hs: seq<Hit>, tag: string, cutoff: real)
    ensures After(Untagged(hs, tag), cutoff) == Untagged(After(hs, cutoff), tag)
  {
    if hs != [] {
      var init, last := hs[..|hs| - 1], hs[|hs| - 1];
      assert hs == init + [last];
      UntaggedAfter(init, tag, cutoff);
      Snoc(init, last, tag, cutoff);
      Snoc(Untagged(init, tag), last, tag, cutoff);
      Snoc(After(init, cutoff), last, tag, cutoff);
    }
  }

  lemma {:induction false} UntaggedOrdered(hs: seq<Hit>, tag: string, clock: real)
    requires Ordered(hs, clock)
    ensures Ordered(Untagged(hs, tag), clock)
  {
    if hs != [] {
      var init, last := hs[..|hs| - 1], hs[|hs| - 1];
      assert hs == init + [last];
      UntaggedOrdered(init, tag, last.at);
      Snoc(init, last, tag, 0.0);
      if last.tag != tag { OrderedSnoc(Untagged(init, tag), last); }
      OrderedLater(Untagged(hs, tag), last.at, clock);
    }
  }

  // ── The limiter answers as the history does ───────────────────────────────

  /** From `horizon` on, a bucket and the history are the same. */
  ghost predicate Same(hs: seq<Hit>, all: seq<Hit>, clock: real, horizon: real) {
    Ordered(hs, clock) && Ordered(all, clock) && After(hs, horizon) == After(all, horizon)
  }

  ghost predicate AgreeOn(s: State, log: Log, clock: real, horizon: real, k: string) {
    Same(Hits(s.buckets, k), Hits(log, k), clock, horizon)
  }

  ghost predicate Agree(s: State, log: Log, clock: real, horizon: real) {
    forall k :: AgreeOn(s, log, clock, horizon, k)
  }

  lemma SameLater(hs: seq<Hit>, all: seq<Hit>, clock: real, horizon: real, later: real, beyond: real)
    requires Same(hs, all, clock, horizon) && clock <= later && horizon <= beyond
    ensures Same(hs, all, later, beyond)
  {
    OrderedLater(hs, clock, later);
    OrderedLater(all, clock, later);
    AfterAfter(hs, horizon, beyond);
    AfterAfter(all, horizon, beyond);
  }

  lemma AgreeLater(s: State, log: Log, clock: real, horizon: real, later: real, beyond: real)
    requires Agree(s, log, clock, horizon) && clock <= later && horizon <= beyond
    ensures Agree(s, log, later, beyond)
  {
    forall k: string ensures AgreeOn(s, log, later, beyond, k) {
      assert AgreeOn(s, log, clock, horizon, k);
      SameLater(Hits(s.buckets, k), Hits(log, k), clock, horizon, later, beyond);
    }
  }

  /** Collecting takes nothing out of the window it is called with. */
  lemma CollectedSame(s: State, now: real, window: real, all: seq<Hit>, k: string)
    requires Same(Hits(s.buckets, k), all, now, now - window)
    ensures Same(Hits(Collected(s, now, window).buckets, k), all, now, now - window)
  {
    if Hits(Collected(s, now, window).buckets, k) != Hits(s.buckets, k) {
      StaleHasNone(s.buckets[k], now - window, now);
    }
  }

  lemma PoppedSame(hs: seq<Hit>, all: seq<Hit>, clock: real, cutoff: real)
    requires Same(hs, all, clock, cutoff)
    ensures Popped(hs, cutoff) == After(all, cutoff) && Same(Popped(hs, cutoff), all, clock, cutoff)
  {
    PoppedIsAfter(hs, cutoff, clock);
    AfterAfter(hs, cutoff, cutoff);
  }

  lemma AppendedSame(hs: seq<Hit>, all: seq<Hit>, h: Hit, cutoff: real)
    requires Same(hs, all, h.at, cutoff)
    ensures Same(hs + [h], all + [h], h.at, cutoff)
  {
    OrderedSnoc(hs, h);
    OrderedSnoc(all, h);
    Snoc(hs, h, "", cutoff);
    Snoc(all, h, "", cutoff);
  }

  /** The bucket after a recorded hit holds what the history counts for it. */
  lemma RecordedSame(buckets: Log, all: seq<Hit>, key: string, window: real, tag: string, now: real)
    requires Same(Hits(buckets, key), all, now, now - window)
    ensures Recorded(buckets, key, window, tag, now) == After(all, now - window) + [Hit(now, tag)]
    ensures Same(Recorded(buckets, key, window, tag, now), all + [Hit(now, tag)], now, now - window)
  {
    var hs, h, cutoff := Hits(buckets, key), Hit(now, tag), now - window;
    var kept := Popped(hs, cutoff);
    assert kept == After(all, cutoff) && Same(kept, all, now, cutoff) by {
      PoppedSame(hs, all, now, cutoff);
    }
    assert Same(kept + [h], all + [h], now, cutoff) by {
      AppendedSame(kept, all, h, cutoff);
    }
  }

  lemma RecordSame(s: State, log: Log, op: Op, cutoff: real)
    requires op.Record? && op.limit > 0 && cutoff == op.now - op.window && AgreeOn(s, log, op.now, cutoff, op.key)
    ensures AgreeOn(Step(s, op), LogStep(log, op), op.now, cutoff, op.key)
  {
    var c := Collected(s, op.now, op.window);
    CollectedSame(s, op.now, op.window, Hits(log, op.key), op.key);
    RecordedSame(c.buckets, Hits(log, op.key), op.key, op.window, op.tag, op.now);
    assert Hits(LogStep(log, op), op.key) == Hits(log, op.key) + [Hit(op.now, op.tag)];
    assert Hits(Step(s, op).buckets, op.key) == Recorded(c.buckets, op.key, op.window, op.tag, op.now);
  }

  lemma RecordElsewhere(s: State, log: Log, op: Op, cutoff: real, k: string)
    requires op.Record? && op.limit > 0 && cutoff == op.now - op.window && AgreeOn(s, log, op.now, cutoff, k)
    requires k != op.key
    ensures AgreeOn(Step(s, op), LogStep(log, op), op.now, cutoff, k)
  {
    CollectedSame(s, op.now, op.window, Hits(log, k), k);
  }

  lemma RecordAgrees(s: State, log: Log, op: Op, cutoff: real)
    requires op.Record? && op.limit > 0 && cutoff == op.now - op.window && Agree(s, log, op.now, cutoff)
    ensures Agree(Step(s, op), LogStep(log, op), op.now, cutoff)
  {
    forall k: string ensures AgreeOn(Step(s, op), LogStep(log, op), op.now, cutoff, k) {
      assert AgreeOn(s, log, op.now, cutoff, k);
      if k == op.key { RecordSame(s, log, op, cutoff); } else { RecordElsewhere(s, log, op, cutoff, k); }
    }
  }

  lemma HitsAfterPeek(s: State, op: Op, k: string)
    requires op.Peek? && op.limit > 0
    ensures Hits(Step(s, op).buckets, k)
         == if k == op.key then Popped(Hits(s.buckets, k), op.now - op.window) else Hits(s.buckets, k)
  {
  }

  lemma PeekAgreesOn(s: State, log: Log, op: Op, cutoff: real, k: string)
    requires op.Peek? && op.limit > 0 && cutoff == op.now - op.window && AgreeOn(s, log, op.now, cutoff, k)
    ensures AgreeOn(Step(s, op), LogStep(log, op), op.now, cutoff, k)
  {
    HitsAfterPeek(s, op, k);
    var hs, all := Hits(s.buckets, k), Hits(log, k);
    if k == op.key {
      assert Same(Popped(hs, cutoff), all, op.now, cutoff) by { PoppedSame(hs, all, op.now, cutoff); }
    }
  }

  lemma PeekAgrees(s: State, log: Log, op: Op, cutoff: real)
    requires op.Peek? && op.limit > 0 && cutoff == op.now - op.window && Agree(s, log, op.now, cutoff)
    ensures Agree(Step(s, op), LogStep(log, op), op.now, cutoff)
  {
    forall k: string ensures AgreeOn(Step(s, op), LogStep(log, op), op.now, cutoff, k) {
      assert AgreeOn(s, log, op.now, cutoff, k);
      PeekAgreesOn(s, log, op, cutoff, k);
    }
  }

  lemma SameRecordAnswer(s: State, log: Log, op: Op)
    requires op.Record? && op.limit > 0 && AgreeOn(s, log, op.now, op.now - op.window, op.key)
    ensures Reply(s, op) == LogAnswer(log, op)
  {
    CollectedSame(s, op.now, op.window, Hits(log, op.key), op.key);
    RecordedSame(Collected(s, op.now, op.window).buckets, Hits(log, op.key), op.key, op.window, op.tag, op.now);
  }

  lemma SamePeekAnswer(s: State, log: Log, op: Op)
    requires op.Peek? && op.limit > 0 && AgreeOn(s, log, op.now, op.now - op.window, op.key)
    ensures Reply(s, op) == LogAnswer(log, op)
  {
    PoppedSame(Hits(s.buckets, op.key), Hits(log, op.key), op.now, op.now - op.window);
  }

  lemma UntaggedSame(hs: seq<Hit>, all: seq<Hit>, tag: string, clock: real, horizon: real)
    requires Same(hs, all, clock, horizon)
    ensures Same(Untagged(hs, tag), Untagged(all, tag), clock, horizon)
  {
    UntaggedAfter(hs, tag, horizon);
    UntaggedAfter(all, tag, horizon);
    UntaggedOrdered(hs, tag, clock);
    UntaggedOrdered(all, tag, clock);
  }

  lemma HitsAfterForget(s: State, op: Op, k: string)
    requires op.Forget?
    ensures Hits(Step(s, op).buckets, k)
         == if k == op.key then Untagged(Hits(s.buckets, k), op.tag) else Hits(s.buckets, k)
  {
  }

  lemma UntimedAgreesOn(s: State, log: Log, op: Op, clock: real, horizon: real, k: string)
    requires !Timed(op) && AgreeOn(s, log, clock, horizon, k)
    ensures AgreeOn(Step(s, op), LogStep(log, op), clock, horizon, k)
  {
    if op.Forget? {
      HitsAfterForget(s, op, k);
      var hs, all := Hits(s.buckets, k), Hits(log, k);
      if k == op.key {
        assert Same(Untagged(hs, op.tag), Untagged(all, op.tag), clock, horizon) by {
          UntaggedSame(hs, all, op.tag, clock, horizon);
        }
      }
    } else if op.Reset? && k == op.key {
      assert Hits(Step(s, op).buckets, k) == [] && Hits(LogStep(log, op), k) == [];
    }
  }

  lemma UntimedAgrees(s: State, log: Log, op: Op, clock: real, horizon: real)
    requires !Timed(op) && Agree(s, log, clock, horizon)
    ensures Agree(Step(s, op), LogStep(log, op), clock, horizon)
  {
    forall k: string ensures AgreeOn(Step(s, op), LogStep(log, op), clock, horizon, k) {
      assert AgreeOn(s, log, clock, horizon, k);
      UntimedAgreesOn(s, log, op, clock, horizon, k);
    }
  }

  /** The clock never goes back, and neither does the start of the window looked at. */
  ghost predicate InOrder(ops: seq<Op>) {
    forall i, j :: 0 <= i < j < |ops| && Timed(ops[i]) && Timed(ops[j]) ==>
      ops[i].now <= ops[j].now && ops[i].now - ops[i].window <= ops[j].now - ops[j].window
  }

  lemma {:induction false} RunAgrees(ops: seq<Op>, clock: real, horizon: real)
    requires InOrder(ops)
    requires forall op :: op in ops && Timed(op) ==> op.now <= clock && op.now - op.window <= horizon
    ensures Agree(Run(Start(), ops), LogRun(map[], ops), clock, horizon)
  {
    if ops != [] {
      var init, last := ops[..|ops| - 1], ops[|ops| - 1];
      if Timed(last) {
        RunAgrees(init, last.now, last.now - last.window);
        if last.Record? {
          RecordAgrees(Run(Start(), init), LogRun(map[], init), last, last.now - last.window);
        } else {
          PeekAgrees(Run(Start(), init), LogRun(map[], init), last, last.now - last.window);
        }
        AgreeLater(Run(Start(), ops), LogRun(map[], ops), last.now, last.now - last.window, clock, horizon);
      } else {
        RunAgrees(init, clock, horizon);
        UntimedAgrees(Run(Start(), init), LogRun(map[], init), last, clock, horizon);
      }
    }
  }

  /** After any calls in order, every call is answered as by a counter over the whole history:
      lazy popping, bucket removal and collecting are never seen. */
  lemma AnswersAsTheHistory(ops: seq<Op>, op: Op)
    requires InOrder(ops + [op])
    ensures Reply(Run(Start(), ops), op) == LogAnswer(LogRun(map[], ops), op)
  {
    if Timed(op) {
      forall i | 0 <= i < |ops| && Timed(ops[i])
        ensures ops[i].now <= op.now && ops[i].now - ops[i].window <= op.now - op.window
      {
        assert (ops + [op])[i] == ops[i] && (ops + [op])[|ops|] == op;
      }
      assert InOrder(ops) by {
        assert forall i :: 0 <= i < |ops| ==> (ops + [op])[i] == ops[i];
      }
      RunAgrees(ops, op.now, op.now - op.window);
      assert AgreeOn(Run(Start(), ops), LogRun(map[], ops), op.now, op.now - op.window, op.key);
      if op.Record? {
        SameRecordAnswer(Run(Start(), ops), LogRun(map[], ops), op);
      } else {
        SamePeekAnswer(Run(Start(), ops), LogRun(map[], ops), op);
      }
    }
  }

  /** The whole run at once. */
  lemma {:induction false} RepliesAreTheHistorys(ops: seq<Op>)
    requires InOrder(ops)
    ensures Replies(ops) == LogAnswers(ops)
  {
    if ops != [] {
      var init, last := ops[..|ops| - 1], ops[|ops| - 1];
      assert ops == init + [last];
      RepliesAreTheHistorys(init);
      AnswersAsTheHistory(init, last);
    }
  }

  /** With one window for all calls, a clock that does not go back is all it takes. */
  lemma OneWindowIsInOrder(ops: seq<Op>, window: real)
    requires forall i :: 0 <= i < |ops| && Timed(ops[i]) ==> ops[i].window == window
    requires forall i, j :: 0 <= i < j < |ops| && Timed(ops[i]) && Timed(ops[j]) ==> ops[i].now <= ops[j].now
    ensures InOrder(ops)
  {
  }

  // ── How many hits get through ─────────────────────────────────────────────

  /** Recorded hits of a key answered as allowed at `from` or later, before a window has passed. */
  function AllowedIn(ops: seq<Op>, key: string, from: real, window: real): nat {
    if ops == [] then 0
    else
      var init, last := ops[..|ops| - 1], ops[|ops| - 1];
      AllowedIn(init, key, from, window)
      + if last.Record? && last.key == key && from <= last.now < from + window
           && Reply(Run(Start(), init), last).allowed then 1 else 0
  }

  function Since(hs: seq<Hit>, from: real): nat {
    if hs == [] then 0 else Since(hs[..|hs| - 1], from) + if hs[|hs| - 1].at >= from then 1 else 0
  }

  lemma {:induction false} SinceIsCounted(hs: seq<Hit>, from: real, cutoff: real)
    requires cutoff < from
    ensures Since(hs, from) <= |After(hs, cutoff)|
  {
    if hs != [] { SinceIsCounted(hs[..|hs| - 1], from, cutoff); }
  }

  /** The key is only ever recorded with this limit and window, and never reset or forgotten. */
  ghost predicate OnlyLimited(ops: seq<Op>, key: string, limit: int, window: real) {
    forall op :: op in ops && op.key == key ==>
      op.Peek? || (op.Record? && op.limit == limit && op.window == window)
  }

  lemma OneMoreAllowed(log: Log, op: Op, from: real)
    requires op.Record? && op.limit > 0
    ensures var hs := Hits(log, op.key);
            && Since(Hits(LogStep(log, op), op.key), from) == Since(hs, from) + (if op.now >= from then 1 else 0)
            && (op.now < from + op.window && LogAnswer(log, op).allowed ==> Since(hs, from) + 1 <= op.limit)
  {
    var hs, h := Hits(log, op.key), Hit(op.now, op.tag);
    assert (hs + [h])[..|hs|] == hs;
    if op.now < from + op.window { SinceIsCounted(hs, from, op.now - op.window); }
  }

  lemma {:induction false} AllowedAreBounded(ops: seq<Op>, key: string, limit: int, window: real, from: real)
    requires InOrder(ops) && OnlyLimited(ops, key, limit, window) && limit > 0
    ensures AllowedIn(ops, key, from, window) <= Since(Hits(LogRun(map[], ops), key), from)
    ensures AllowedIn(ops, key, from, window) <= limit
  {
    if ops != [] {
      var init, last := ops[..|ops| - 1], ops[|ops| - 1];
      assert ops == init + [last] && last in ops;
      AllowedAreBounded(init, key, limit, window, from);
      AnswersAsTheHistory(init, last);
      if last.key == key && last.Record? {
        OneMoreAllowed(LogRun(map[], init), last, from);
      } else {
        assert Hits(LogStep(LogRun(map[], init), last), key) == Hits(LogRun(map[], init), key);
      }
    }
  }

  /** The rate bound: over a whole run, with one limit and window for a key, no stretch of time as
      long as the window has more than `limit` of its hits let through. */
  lemma RateBound(ops: seq<Op>, key: string, limit: int, window: real, from: real)
    requires InOrder(ops) && OnlyLimited(ops, key, limit, window) && limit > 0
    ensures AllowedIn(ops, key, from, window) <= limit
  {
    AllowedAreBounded(ops, key, limit, window, from);
  }
}
