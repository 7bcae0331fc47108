/**
  Which windows one limiter can be used with. The buckets are popped and collected with the window
  of the call at hand, so a call with a short window throws away hits a longer one still counts.
*/
module LimiterWindows {
  import opened Common
  import opened RateLimiter

  /** The clock never goes back from one call to the next that reads it. */
  ghost predicate ClockOrdered(ops: seq<Op>) {
    forall i, j :: 0 <= i < j < |ops| && Timed(ops[i]) && Timed(ops[j]) ==> ops[i].now <= ops[j].now
  }

  /** Every call of the run is answered as by a counter over the whole history. */
  ghost predicate AsTheHistory(ops: seq<Op>) {
    forall i :: 0 <= i < |ops| ==> Reply(Run(Start(), ops[..i]), ops[i]) == LogAnswer(LogRun(map[], ops[..i]), ops[i])
  }

  /** Every call uses one of these windows. */
  ghost predicate Within(ops: seq<Op>, windows: set<real>) {
    forall op :: op in ops && Timed(op) ==> op.window in windows
  }

  /** Every key is used with its own window. */
  ghost predicate Keyed(ops: seq<Op>, windowOf: map<string, real>) {
    forall op :: op in ops && Timed(op) ==> op.key in windowOf && op.window == windowOf[op.key]
  }

  /** No window is shorter than one above zero: of windows above zero there is at most one. */
  ghost predicate OneLength(windows: set<real>) {
    forall v, w :: v in windows && w in windows && v < w ==> w <= 0.0
  }

  // ── One window is enough ──────────────────────────────────────────────────

  lemma AnswerAt(ops: seq<Op>, i: nat)
    requires InOrder(ops) && i < |ops|
    ensures Reply(Run(Start(), ops[..i]), ops[i]) == LogAnswer(LogRun(map[], ops[..i]), ops[i])
  {
    assert ops[..i] + [ops[i]] == ops[..i + 1];
    AnswersAsTheHistory(ops[..i], ops[i]);
  }

  lemma OneWindowAnswers(ops: seq<Op>, window: real)
    requires ClockOrdered(ops) && Within(ops, {window})
    ensures AsTheHistory(ops)
  {
    OneWindowIsInOrder(ops, window);
    forall i | 0 <= i < |ops|
      ensures Reply(Run(Start(), ops[..i]), ops[i]) == LogAnswer(LogRun(map[], ops[..i]), ops[i])
    {
      AnswerAt(ops, i);
    }
  }

  // ── Windows without length ────────────────────────────────────────────────

  lemma NoneAfterTheClock(hs: seq<Hit>, clock: real, horizon: real)
    requires Ordered(hs, clock) && clock <= horizon
    ensures After(hs, horizon) == []
  {
    OrderedIsSorted(hs, clock);
    AfterNone(hs, horizon);
  }

  /** From the clock on there is nothing to disagree about. */
  lemma AgreeFromTheClock(s: State, log: Log, clock: real, any: real, horizon: real)
    requires Agree(s, log, clock, any) && clock <= horizon
    ensures Agree(s, log, clock, horizon)
  {
    forall k: string ensures AgreeOn(s, log, clock, horizon, k) {
      assert AgreeOn(s, log, clock, any, k);
      NoneAfterTheClock(Hits(s.buckets, k), clock, horizon);
      NoneAfterTheClock(Hits(log, k), clock, horizon);
    }
  }

  lemma {:induction false} NoLengthAgrees(ops: seq<Op>, clock: real)
    requires ClockOrdered(ops) && forall op :: op in ops && Timed(op) ==> op.window <= 0.0 && op.now <= clock
    ensures Agree(Run(Start(), ops), LogRun(map[], ops), clock, clock)
  {
    if ops != [] {
      var init, last := ops[..|ops| - 1], ops[|ops| - 1];
      var s, log := Run(Start(), init), LogRun(map[], init);
      if Timed(last) {
        var cutoff := last.now - last.window;
        NoLengthAgrees(init, last.now);
        AgreeFromTheClock(s, log, last.now, last.now, cutoff);
        if last.Record? { RecordAgrees(s, log, last, cutoff); } else { PeekAgrees(s, log, last, cutoff); }
        AgreeFromTheClock(Run(Start(), ops), LogRun(map[], ops), last.now, cutoff, last.now);
        AgreeLater(Run(Start(), ops), LogRun(map[], ops), last.now, last.now, clock, clock);
      } else {
        NoLengthAgrees(init, clock);
        UntimedAgrees(s, log, last, clock, clock);
      }
    }
  }

  lemma NoLengthAnswer(ops: seq<Op>, op: Op)
    requires ClockOrdered(ops) && Timed(op) && op.window <= 0.0
    requires forall o :: o in ops && Timed(o) ==> o.window <= 0.0 && o.now <= op.now
    ensures Reply(Run(Start(), ops), op) == LogAnswer(LogRun(map[], ops), op)
  {
    var s, log := Run(Start(), ops), LogRun(map[], ops);
    NoLengthAgrees(ops, op.now);
    AgreeFromTheClock(s, log, op.now, op.now, op.now - op.window);
    assert AgreeOn(s, log, op.now, op.now - op.window, op.key);
    if op.Record? { SameRecordAnswer(s, log, op); } else { SamePeekAnswer(s, log, op); }
  }

  lemma ClockOrderedBefore(ops: seq<Op>, i: nat)
    requires ClockOrdered(ops) && i < |ops|
    ensures ClockOrdered(ops[..i])
    ensures Timed(ops[i]) ==> forall o :: o in ops[..i] && Timed(o) ==> o.now <= ops[i].now
  {
  }

  lemma NoLengthAnswers(ops: seq<Op>)
    requires ClockOrdered(ops) && forall op :: op in ops && Timed(op) ==> op.window <= 0.0
    ensures AsTheHistory(ops)
  {
    forall i | 0 <= i < |ops|
      ensures Reply(Run(Start(), ops[..i]), ops[i]) == LogAnswer(LogRun(map[], ops[..i]), ops[i])
    {
      if Timed(ops[i]) {
        ClockOrderedBefore(ops, i);
        NoLengthAnswer(ops[..i], ops[i]);
      }
    }
  }

  lemma OneLengthAnswers(ops: seq<Op>, windows: set<real>)
    requires ClockOrdered(ops) && Within(ops, windows) && OneLength(windows)
    ensures AsTheHistory(ops)
  {
    if w :| w in windows && w > 0.0 {
      forall op | op in ops && Timed(op) ensures op.window in {w} {
        assert op.window in windows;
      }
      OneWindowAnswers(ops, w);
    } else {
      NoLengthAnswers(ops);
    }
  }

  // ── Two are too many ──────────────────────────────────────────────────────

  function Later(v: real): real {
    if v > 0.0 then v else 0.0
  }

  lemma RunThree(a: Op, b: Op, c: Op)
    ensures Run(Start(), [a, b, c][..2]) == Step(Step(Start(), a), b)
    ensures LogRun(map[], [a, b, c][..2]) == LogStep(LogStep(map[], a), b)
  {
    assert [a, b, c][..2] == [a, b] && [a, b][..1] == [a] && [a][..0] == [];
    assert Run(Start(), [a]) == Step(Start(), a) && LogRun(map[], [a]) == LogStep(map[], a);
  }

  lemma ThreeInOrder(ops: seq<Op>)
    requires |ops| == 3 && ops[0].Record? && ops[1].Record? && ops[2].Record?
    requires ops[0].now <= ops[1].now <= ops[2].now
    ensures ClockOrdered(ops)
  {
  }

  /** One recorded hit, step by step: what is left of the key's bucket, and the answer. */
  lemma RecordKeeps(s: State, op: Op, kept: seq<Hit>)
    requires op.Record? && op.limit > 0
    requires Popped(Hits(s.buckets, op.key), op.now - op.window) == kept
    requires Stale(Hits(s.buckets, op.key), op.now - op.window) ==> kept == []
    ensures Hits(Step(s, op).buckets, op.key) == kept + [Hit(op.now, op.tag)]
    ensures |kept| < op.limit ==> Reply(s, op) == Answer(true, 0)
  {
    var c := Collected(s, op.now, op.window);
    assert Hits(c.buckets, op.key) == Hits(s.buckets, op.key) || Hits(c.buckets, op.key) == [];
    assert Hits(c.buckets, op.key) == [] ==> Popped(Hits(c.buckets, op.key), op.now - op.window) == kept;
  }

  lemma FirstHit(key: string, limit: int, window: real, now: real)
    requires limit > 0 && now - 0.0 < Max(60.0, window)
    ensures Step(Start(), Record(key, limit, window, "", now)) == State(map[key := [Hit(now, "")]], 0.0)
  {
    assert [] + [Hit(now, "")] == [Hit(now, "")];
  }

  /** A history of hits all in the window, as many as the limit, denies the next one. */
  lemma FullHistoryDenies(log: Log, op: Op)
    requires op.Record? && op.limit > 0 && |Hits(log, op.key)| >= op.limit
    requires forall i :: 0 <= i < |Hits(log, op.key)| ==> Hits(log, op.key)[i].at > op.now - op.window
    ensures !LogAnswer(log, op).allowed
  {
    AfterAll(Hits(log, op.key), op.now - op.window);
  }

  lemma ShorterPops(v: real, w: real, t: real)
    requires v < w && 0.0 < w && t == Later(v)
    ensures var s := Step(Step(Start(), Record("k", 2, w, "", 0.0)), Record("k", 2, v, "", t));
            Reply(s, Record("k", 2, w, "", t)) == Answer(true, 0)
  {
    var h, g := Hit(0.0, ""), Hit(t, "");
    FirstHit("k", 2, w, 0.0);
    var s1 := State(map["k" := [h]], 0.0);
    assert [h][1..] == [];
    RecordKeeps(s1, Record("k", 2, v, "", t), []);
    assert [] + [g] == [g];
    RecordKeeps(Step(s1, Record("k", 2, v, "", t)), Record("k", 2, w, "", t), [g]);
  }

  lemma LongerCounts(v: real, w: real, t: real)
    requires v < w && 0.0 < w && t == Later(v)
    ensures var log := LogStep(LogStep(map[], Record("k", 2, w, "", 0.0)), Record("k", 2, v, "", t));
            !LogAnswer(log, Record("k", 2, w, "", t)).allowed
  {
    var h, g := Hit(0.0, ""), Hit(t, "");
    var log := LogStep(LogStep(map[], Record("k", 2, w, "", 0.0)), Record("k", 2, v, "", t));
    assert [] + [h] == [h] && [h] + [g] == [h, g];
    assert Hits(log, "k") == [h, g];
    FullHistoryDenies(log, Record("k", 2, w, "", t));
  }

  lemma NotAsTheHistory(a: Op, b: Op, c: Op)
    requires Reply(Step(Step(Start(), a), b), c).allowed != LogAnswer(LogStep(LogStep(map[], a), b), c).allowed
    ensures !AsTheHistory([a, b, c])
  {
    RunThree(a, b, c);
    var ops := [a, b, c];
    assert Reply(Run(Start(), ops[..2]), ops[2]) != LogAnswer(LogRun(map[], ops[..2]), ops[2]);
  }

  lemma WindowsDisagree(v: real, w: real, t: real)
    requires v < w && 0.0 < w && t == Later(v)
    ensures !AsTheHistory([Record("k", 2, w, "", 0.0), Record("k", 2, v, "", t), Record("k", 2, w, "", t)])
  {
    var a, b, c := Record("k", 2, w, "", 0.0), Record("k", 2, v, "", t), Record("k", 2, w, "", t);
    assert Reply(Step(Step(Start(), a), b), c).allowed by { ShorterPops(v, w, t); }
    assert !LogAnswer(LogStep(LogStep(map[], a), b), c).allowed by { LongerCounts(v, w, t); }
    NotAsTheHistory(a, b, c);
  }

  /** Any two windows, the longer one above zero, on one key: the shorter one pops a hit the
      longer one still counts. */
  lemma AnyTwoWindowsForget(v: real, w: real) returns (ops: seq<Op>)
    requires v < w && 0.0 < w
    ensures ClockOrdered(ops) && Within(ops, {v, w}) && !AsTheHistory(ops)
  {
    var t := Later(v);
    ops := [Record("k", 2, w, "", 0.0), Record("k", 2, v, "", t), Record("k", 2, w, "", t)];
    ThreeInOrder(ops);
    WindowsDisagree(v, w, t);
  }

  lemma CollectedAway(j: string, k: string, v: real, w: real, t: real, u: real)
    requires j != k && t < Max(60.0, w) && t <= u - v && u >= Max(60.0, v)
    ensures var s := Step(Step(Start(), Record(k, 1, w, "", t)), Record(j, 1, v, "", u));
            Reply(s, Record(k, 1, w, "", u)) == Answer(true, 0)
  {
    FirstHit(k, 1, w, t);
    var s1 := State(map[k := [Hit(t, "")]], 0.0);
    var s := Step(s1, Record(j, 1, v, "", u));
    assert Stale([Hit(t, "")], u - v);
    assert Hits(s.buckets, k) == [];
    RecordKeeps(s, Record(k, 1, w, "", u), []);
  }

  lemma OtherKeyCounts(j: string, k: string, v: real, w: real, t: real, u: real)
    requires j != k && t > u - w
    ensures var log := LogStep(LogStep(map[], Record(k, 1, w, "", t)), Record(j, 1, v, "", u));
            !LogAnswer(log, Record(k, 1, w, "", u)).allowed
  {
    var log := LogStep(LogStep(map[], Record(k, 1, w, "", t)), Record(j, 1, v, "", u));
    assert [] + [Hit(t, "")] == [Hit(t, "")];
    assert Hits(log, k) == [Hit(t, "")];
    FullHistoryDenies(log, Record(k, 1, w, "", u));
  }

  lemma KeysDisagree(j: string, k: string, v: real, w: real, t: real, u: real)
    requires j != k && t < Max(60.0, w) && t <= u - v && u >= Max(60.0, v) && t > u - w
    ensures !AsTheHistory([Record(k, 1, w, "", t), Record(j, 1, v, "", u), Record(k, 1, w, "", u)])
  {
    var a, b, c := Record(k, 1, w, "", t), Record(j, 1, v, "", u), Record(k, 1, w, "", u);
    assert Reply(Step(Step(Start(), a), b), c).allowed by { CollectedAway(j, k, v, w, t, u); }
    assert !LogAnswer(LogStep(LogStep(map[], a), b), c).allowed by { OtherKeyCounts(j, k, v, w, t, u); }
    NotAsTheHistory(a, b, c);
  }

  /** The same with a window of its own for each key: the collection made by one key's call drops
      the other's bucket. */
  lemma AnyTwoKeysForget(j: string, k: string, v: real, w: real) returns (ops: seq<Op>)
    requires j != k && v < w && 0.0 < w
    ensures ClockOrdered(ops) && Keyed(ops, map[j := v, k := w]) && !AsTheHistory(ops)
  {
    var gap := if w > 60.0 then Later(v) else (Later(v) + w) / 2.0;
    var t := if w > 60.0 then 60.0 else 60.0 - gap;
    var u := t + gap;
    ops := [Record(k, 1, w, "", t), Record(j, 1, v, "", u), Record(k, 1, w, "", u)];
    ThreeInOrder(ops);
    KeysDisagree(j, k, v, w, t, u);
  }

  // ── Exactly ───────────────────────────────────────────────────────────────

  lemma {:induction false} CardMono(a: set<real>, b: set<real>)
    requires a <= b
    ensures |a| <= |b|
  {
    assert b == a + (b - a);
  }

  lemma AllSame<T>(s: set<T>)
    requires forall v, w :: v in s && w in s ==> v == w
    ensures |s| <= 1
  {
    if s != {} {
      var v :| v in s;
      forall w | w in s ensures w in {v} {
      }
      assert s == {v};
    }
  }

  /** Of windows above zero that is a set of at most one. */
  lemma LengthsAreOne(windows: set<real>)
    requires forall w :: w in windows ==> 0.0 < w
    ensures OneLength(windows) <==> |windows| <= 1
  {
    if OneLength(windows) {
      forall v, w | v in windows && w in windows ensures v == w {
        assert !(v < w) && !(w < v);
      }
      AllSame(windows);
    } else {
      var v, w :| v in windows && w in windows && v < w;
      assert {v, w} <= windows && |{v, w}| == 2;
      CardMono({v, w}, windows);
    }
  }

  /** Every run whose clock does not go back, over these windows, is answered as by the history
      exactly when none of them is shorter than one above zero. Of windows above zero: exactly when
      there is one at most. */
  lemma FaithfulExactlyWithOneWindow(windows: set<real>)
    ensures (forall ops :: ClockOrdered(ops) && Within(ops, windows) ==> AsTheHistory(ops)) <==> OneLength(windows)
    ensures (forall w :: w in windows ==> 0.0 < w) ==>
              ((forall ops :: ClockOrdered(ops) && Within(ops, windows) ==> AsTheHistory(ops)) <==> |windows| <= 1)
  {
    if forall w :: w in windows ==> 0.0 < w { LengthsAreOne(windows); }
    if OneLength(windows) {
      forall ops | ClockOrdered(ops) && Within(ops, windows) ensures AsTheHistory(ops) {
        OneLengthAnswers(ops, windows);
      }
    } else {
      var v, w :| v in windows && w in windows && v < w && w > 0.0;
      var ops := AnyTwoWindowsForget(v, w);
      assert Within(ops, windows);
    }
  }

  /** And no more is gained by giving each key a window of its own. */
  lemma FaithfulExactlyWithOneWindowForAllKeys(windowOf: map<string, real>)
    ensures (forall ops :: ClockOrdered(ops) && Keyed(ops, windowOf) ==> AsTheHistory(ops))
       <==> OneLength(windowOf.Values)
  {
    if OneLength(windowOf.Values) {
      forall ops | ClockOrdered(ops) && Keyed(ops, windowOf) ensures AsTheHistory(ops) {
        assert Within(ops, windowOf.Values);
        OneLengthAnswers(ops, windowOf.Values);
      }
    } else {
      var v, w :| v in windowOf.Values && w in windowOf.Values && v < w && w > 0.0;
      var j :| j in windowOf && windowOf[j] == v;
      var k :| k in windowOf && windowOf[k] == w;
      var ops := AnyTwoKeysForget(j, k, v, w);
      assert Keyed(ops, windowOf);
    }
  }
}
