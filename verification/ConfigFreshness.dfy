/**
  How fresh a cached configuration is. One process with many threads caches what it loaded under
  a key made of its own write counter and a stamp probed from the database at most once every
  `STAMP_TTL`; other processes commit at any moment.

  The content of the table is identified by the number of commits behind it, which is also what
  the stamp says, rows and counter being committed together.
*/
module ConfigFreshness {
  import opened Common

  const STAMP_TTL: real := 1.5

  /** Where a thread is. `began` is when its read began and `known` how many of the process's own
      writes had been counted by then. */
  datatype Phase =
    | Idle
    | HasVersion(began: real, known: nat, version: nat)
    | HasClock(began: real, known: nat, version: nat, at: real)
    | Probing(began: real, known: nat, version: nat, at: real)
    | Probed(began: real, known: nat, version: nat, at: real, stamp: nat)
    | HasKey(began: real, known: nat, version: nat, stamp: nat)
    | Loaded(began: real, known: nat, version: nat, stamp: nat, content: nat)
    | Returned(began: real, known: nat, content: nat)
    | Committed(row: nat)
    | Counted
    | Dropping

  datatype Probe = Probe(stamp: nat, at: real)
  datatype Cached = Cached(version: nat, stamp: nat, content: nat)

  /** `commits`: when each commit was made. `own`: for each counted write of this process, how
      many commits there were once it was in; the process's counter is its length. */
  datatype State = State(
    now: real, commits: seq<real>, own: seq<nat>,
    probe: Option<Probe>, cache: Option<Cached>, threads: map<nat, Phase>)

  /** `Tick`: time goes by. `Elsewhere`: another process commits. `BeginRead` and `BeginWrite`: an
      idle thread sets out, a write by committing. `Advance`: a thread takes its next step. */
  datatype Event = Tick(delta: real) | Elsewhere | BeginRead(t: nat) | BeginWrite(t: nat) | Advance(t: nat)

  function PhaseOf(s: State, t: nat): Phase {
    if t in s.threads then s.threads[t] else Idle
  }

  function At(s: State, t: nat, p: Phase): State {
    s.(threads := s.threads[t := p])
  }

  function AdvanceStep(s: State, t: nat): State {
    match PhaseOf(s, t)
    case HasVersion(began, known, v) => At(s, t, HasClock(began, known, v, s.now))
    case HasClock(began, known, v, at) =>
      if s.probe.Some? && at - s.probe.value.at < STAMP_TTL
      then At(s, t, HasKey(began, known, v, s.probe.value.stamp))
      else At(s, t, Probing(began, known, v, at))
    case Probing(began, known, v, at) => At(s, t, Probed(began, known, v, at, |s.commits|))
    case Probed(began, known, v, at, stamp) =>
      At(s.(probe := Some(Probe(stamp, at))), t, HasKey(began, known, v, stamp))
    case HasKey(began, known, v, stamp) =>
      if s.cache.Some? && s.cache.value.version == v && s.cache.value.stamp == stamp
      then At(s, t, Returned(began, known, s.cache.value.content))
      else At(s, t, Loaded(began, known, v, stamp, |s.commits|))
    case Loaded(began, known, v, stamp, content) =>
      At(s.(cache := Some(Cached(v, stamp, content))), t, Returned(began, known, content))
    case Returned(_, _, _) => At(s, t, Idle)
    case Committed(row) => At(s.(own := s.own + [row]), t, Counted)
    case Counted => At(s.(cache := None), t, Dropping)
    case Dropping => At(s.(probe := None), t, Idle)
    case Idle => s
  }

  function Step(s: State, e: Event): State {
    match e
    case Tick(d) => if d > 0.0 then s.(now := s.now + d) else s
    case Elsewhere => s.(commits := s.commits + [s.now])
    case BeginRead(t) => if PhaseOf(s, t).Idle? then At(s, t, HasVersion(s.now, |s.own|, |s.own|)) else s
    case BeginWrite(t) =>
      if PhaseOf(s, t).Idle?
      then At(s.(commits := s.commits + [s.now]), t, Committed(|s.commits| + 1)) else s
    case Advance(t) => AdvanceStep(s, t)
  }

  function Run(s: State, es: seq<Event>): State {
    if es == [] then s else Step(Run(s, es[..|es| - 1]), es[|es| - 1])
  }

  function Start(now: real): State {
    State(now, [], [], None, None, map[])
  }

  // ── The invariant ─────────────────────────────────────────────────────────

  /** Content `n` has every commit made before `t`. */
  ghost predicate Covers(commits: seq<real>, n: nat, t: real) {
    n <= |commits| && forall k :: 0 <= k < |commits| && commits[k] < t ==> k < n
  }

  /** Content `n` has the first `v` counted writes of this process. */
  ghost predicate HasOwn(own: seq<nat>, v: nat, n: nat) {
    v <= |own| && forall k :: 0 <= k < v ==> own[k] <= n
  }

  ghost predicate PhaseOk(s: State, p: Phase) {
    match p
    case Idle => true
    case HasVersion(began, known, v) => began <= s.now && known <= v <= |s.own|
    case HasClock(began, known, v, at) => began <= at <= s.now && known <= v <= |s.own|
    case Probing(began, known, v, at) => began <= at <= s.now && known <= v <= |s.own|
    case Probed(began, known, v, at, stamp) =>
      began <= at <= s.now && known <= v <= |s.own| && Covers(s.commits, stamp, at)
    case HasKey(began, known, v, stamp) =>
      began <= s.now && known <= v <= |s.own| && Covers(s.commits, stamp, began - STAMP_TTL)
    case Loaded(began, known, v, stamp, content) =>
      began <= s.now && known <= v && Covers(s.commits, stamp, began - STAMP_TTL)
      && stamp <= content <= |s.commits| && HasOwn(s.own, v, content)
    case Returned(began, known, content) =>
      began <= s.now && Covers(s.commits, content, began - STAMP_TTL) && HasOwn(s.own, known, content)
    case Committed(row) => row <= |s.commits|
    case Counted => true
    case Dropping => true
  }

  /** What is cached is never older than the key it is under. */
  ghost predicate CacheOk(s: State) {
    s.cache.Some? ==>
      s.cache.value.stamp <= s.cache.value.content <= |s.commits|
      && HasOwn(s.own, s.cache.value.version, s.cache.value.content)
  }

  ghost predicate Globals(s: State) {
    && (forall k :: 0 <= k < |s.commits| ==> s.commits[k] <= s.now)
    && (forall k :: 0 <= k < |s.own| ==> s.own[k] <= |s.commits|)
    && (s.probe.Some? ==> s.probe.value.at <= s.now && Covers(s.commits, s.probe.value.stamp, s.probe.value.at))
    && CacheOk(s)
  }

  ghost predicate Inv(s: State) {
    Globals(s) && forall t :: t in s.threads ==> PhaseOk(s, s.threads[t])
  }

  /** Time, commits and counted writes only grow, and a phase that was in order stays so. */
  lemma PhaseStays(s: State, u: State, p: Phase)
    requires PhaseOk(s, p) && s.now <= u.now
    requires s.commits <= u.commits && forall k :: |s.commits| <= k < |u.commits| ==> u.commits[k] >= s.now
    requires s.own <= u.own
    ensures PhaseOk(u, p)
  {
  }

  lemma PhasesStay(s: State, u: State, t: nat)
    requires forall k :: k in s.threads ==> PhaseOk(s, s.threads[k])
    requires s.now <= u.now
    requires s.commits <= u.commits && forall k :: |s.commits| <= k < |u.commits| ==> u.commits[k] >= s.now
    requires s.own <= u.own
    requires forall k :: k in u.threads && k != t ==> k in s.threads && u.threads[k] == s.threads[k]
    requires t in u.threads ==> PhaseOk(u, u.threads[t])
    ensures forall k :: k in u.threads ==> PhaseOk(u, u.threads[k])
  {
    forall k | k in u.threads && k != t ensures PhaseOk(u, u.threads[k]) {
      PhaseStays(s, u, s.threads[k]);
    }
  }

  /** The stamp a thread goes on with covers what it must, whether just probed or trusted. */
  lemma KeyIsGood(s: State, t: nat)
    requires Inv(s) && t in s.threads && (s.threads[t].HasClock? || s.threads[t].Probed?)
    ensures PhaseOk(AdvanceStep(s, t), AdvanceStep(s, t).threads[t])
  {
    assert PhaseOk(s, s.threads[t]);
  }

  lemma LoadIsGood(s: State, t: nat)
    requires Inv(s) && t in s.threads && (s.threads[t].HasKey? || s.threads[t].Loaded?)
    ensures PhaseOk(AdvanceStep(s, t), AdvanceStep(s, t).threads[t]) && CacheOk(AdvanceStep(s, t))
  {
    assert PhaseOk(s, s.threads[t]);
  }

  lemma CountKeepsCache(s: State, row: nat)
    requires CacheOk(s)
    ensures CacheOk(s.(own := s.own + [row]))
  {
  }

  lemma PhaseIsGood(s: State, t: nat)
    requires Inv(s) && t in s.threads
    ensures PhaseOk(AdvanceStep(s, t), AdvanceStep(s, t).threads[t])
  {
    assert PhaseOk(s, s.threads[t]);
    if s.threads[t].HasClock? || s.threads[t].Probed? {
      KeyIsGood(s, t);
    } else if s.threads[t].HasKey? || s.threads[t].Loaded? {
      LoadIsGood(s, t);
    }
  }

  lemma GlobalsStay(s: State, t: nat)
    requires Inv(s) && t in s.threads
    ensures Globals(AdvanceStep(s, t))
  {
    assert PhaseOk(s, s.threads[t]);
    if s.threads[t].Loaded? { LoadIsGood(s, t); }
    if s.threads[t].Committed? { CountKeepsCache(s, s.threads[t].row); }
  }

  lemma OnlyThisThreadMoves(s: State, t: nat)
    requires t in s.threads
    ensures var u := AdvanceStep(s, t);
            && u.now == s.now && u.commits == s.commits && s.own <= u.own
            && forall k :: k in u.threads && k != t ==> k in s.threads && u.threads[k] == s.threads[k]
  {
  }

  lemma AdvanceKeeps(s: State, t: nat)
    requires Inv(s) && t in s.threads
    ensures Inv(AdvanceStep(s, t))
  {
    OnlyThisThreadMoves(s, t);
    GlobalsStay(s, t);
    PhaseIsGood(s, t);
    PhasesStay(s, AdvanceStep(s, t), t);
  }

  lemma StepKeeps(s: State, e: Event)
    requires Inv(s)
    ensures Inv(Step(s, e))
  {
    match e
    case Tick(_) =>
      forall t | t in s.threads ensures PhaseOk(Step(s, e), s.threads[t]) {
        PhaseStays(s, Step(s, e), s.threads[t]);
      }
    case Elsewhere =>
      forall t | t in s.threads ensures PhaseOk(Step(s, e), s.threads[t]) {
        PhaseStays(s, Step(s, e), s.threads[t]);
      }
    case BeginRead(t) => PhasesStay(s, Step(s, e), t);
    case BeginWrite(t) => PhasesStay(s, Step(s, e), t);
    case Advance(t) => if t in s.threads { AdvanceKeeps(s, t); }
  }

  lemma {:induction false} RunKeeps(start: real, es: seq<Event>)
    ensures Inv(Run(Start(start), es))
  {
    if es != [] {
      RunKeeps(start, es[..|es| - 1]);
      StepKeeps(Run(Start(start), es[..|es| - 1]), es[|es| - 1]);
    }
  }

  /** Whatever the threads of this and the other processes do in between, and whichever load stores
      its result last: a read returns the table as it was after some number of commits, with every
      commit made more than `STAMP_TTL` before the read began, and with every write of this process
      that was counted by then. */
  lemma ReadsAreFresh(start: real, es: seq<Event>, t: nat)
    requires PhaseOf(Run(Start(start), es), t).Returned?
    ensures var s := Run(Start(start), es);
            var r := PhaseOf(s, t);
            && r.content <= |s.commits|
            && (forall k :: 0 <= k < |s.commits| && s.commits[k] < r.began - STAMP_TTL ==> k < r.content)
            && r.known <= |s.own| && (forall k :: 0 <= k < r.known ==> s.own[k] <= r.content)
  {
    RunKeeps(start, es);
    assert PhaseOk(Run(Start(start), es), PhaseOf(Run(Start(start), es), t));
  }

  /** Content is never filed under a key that promises more than it holds. */
  lemma CacheIsNeverOlderThanItsKey(start: real, es: seq<Event>)
    ensures var s := Run(Start(start), es);
            s.cache.Some? ==>
              s.cache.value.stamp <= s.cache.value.content
              && forall k :: 0 <= k < s.cache.value.version && k < |s.own| ==> s.own[k] <= s.cache.value.content
  {
    RunKeeps(start, es);
  }
}
