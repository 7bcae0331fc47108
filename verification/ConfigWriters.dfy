/**
  Several writers of one configuration: threads and processes that read, edit and save, their
  statements interleaved on the same table. A save is a patch against the saver's own read.

  Rows are in the clear here. The file is not shared state: each read comes with the file that
  thread found.
*/
module ConfigWriters {
  import opened Common
  import opened SecretTree
  import opened ConfigManager
  import opened Patches

  /** What one thread last read: the rows, the file, what that locks, and the config it was shown. */
  datatype Reading = Reading(rows: Leaves, file: Config, locked: set<Path>, shown: Config)

  /** `owing`: rows a save has decided to delete and not deleted yet. */
  datatype State = State(db: Leaves, readings: map<nat, Reading>, owing: map<nat, set<Path>>)

  /** A read; the writing half of a save (`set_many`); its deleting half (`delete_many`). */
  datatype Event = ReadBy(t: nat, file: Config) | SaveBy(t: nat, data: Config, file: Config) | FinishBy(t: nat)

  function ReadingOf(r: Registry, env: set<Path>, db: Leaves, file: Config): Reading {
    Reading(db, file, env + Locked(r, db, file), Without(Merge(db, file), r.obsolete))
  }

  /** The saver's own last read, or the table as it is for one that never read. */
  function BaselineOf(r: Registry, env: set<Path>, s: State, t: nat, file: Config): Reading {
    if t in s.readings then s.readings[t] else ReadingOf(r, env, s.db, file)
  }

  function Puts(b: Reading, data: Config): Leaves {
    Pick(LeavesOf(data), Changed(b.rows, data, b.locked))
  }

  function Step(r: Registry, env: set<Path>, s: State, e: Event): State {
    match e
    case ReadBy(t, file) =>
      if Resolvable(s.db, file) then s.(readings := s.readings[t := ReadingOf(r, env, s.db, file)]) else s
    case SaveBy(t, data, file) =>
      if t !in s.readings && !Resolvable(s.db, file) then s
      else
        var b := BaselineOf(r, env, s, t, file);
        State(s.db + Puts(b, data), s.readings - {t}, s.owing[t := Removed(b.rows, data, b.locked)])
    case FinishBy(t) =>
      if t in s.owing then State(s.db - s.owing[t], s.readings, s.owing - {t}) else s
  }

  function Run(r: Registry, env: set<Path>, s: State, es: seq<Event>): State {
    if es == [] then s else Step(r, env, Run(r, env, s, es[..|es| - 1]), es[|es| - 1])
  }

  /** Every reading is one that a read returned. */
  ghost predicate Genuine(r: Registry, env: set<Path>, b: Reading) {
    Resolvable(b.rows, b.file) && b == ReadingOf(r, env, b.rows, b.file)
  }

  ghost predicate Sound(r: Registry, env: set<Path>, s: State) {
    forall t :: t in s.readings ==> Genuine(r, env, s.readings[t])
  }

  // ── A save touches what was edited ────────────────────────────────────────

  /** The data has at this path what the thread was shown there. */
  predicate Unedited(b: Reading, data: Config, p: Path) {
    Lookup(LeavesOf(data), p) == Lookup(LeavesOf(b.shown), p)
  }

  /** The two paths a save changes without an edit: an obsolete row goes, and a file leaf that is
      neither registered nor in the table moves there. */
  predicate Housekeeping(r: Registry, b: Reading, p: Path) {
    if p in b.rows then p in r.obsolete else p in LeavesOf(b.file) && p !in r.obsolete
  }

  lemma ShownLeaf(r: Registry, env: set<Path>, b: Reading, p: Path)
    requires Genuine(r, env, b)
    ensures Lookup(LeavesOf(b.shown), p) ==
              if p in r.obsolete then None
              else if p in LeavesOf(b.file) then Some(LeavesOf(b.file)[p])
              else if p in b.rows && p.section !in FILE_ONLY_SECTIONS then Some(b.rows[p])
              else None
  {
    LeavesWithout(Merge(b.rows, b.file), r.obsolete);
    LeafOfMerge(b.rows, b.file, p);
  }

  /** The patch of a save: a path is written or deleted only if it may be edited and the data
      differs there from what this very thread was shown, housekeeping apart. */
  lemma SaveTouchesOnlyEdits(r: Registry, env: set<Path>, b: Reading, data: Config, p: Path)
    requires Genuine(r, env, b)
    ensures p in Puts(b, data) || p in Removed(b.rows, data, b.locked) ==>
              Editable(p, b.locked) && (!Unedited(b, data, p) || Housekeeping(r, b, p))
  {
    ShownLeaf(r, env, b, p);
  }

  /** Put on the baseline it was made against, the patch gives the data, wherever it may be edited. */
  lemma PatchGivesTheData(b: Reading, data: Config, p: Path)
    requires Editable(p, b.locked)
    ensures Lookup(b.rows + Puts(b, data) - Removed(b.rows, data, b.locked), p) == Lookup(LeavesOf(data), p)
  {
    if p in LeavesOf(data) {
      assert p in EditableIn(data, b.locked);
    }
  }

  // ── Runs ──────────────────────────────────────────────────────────────────

  lemma StepKeepsSound(r: Registry, env: set<Path>, s: State, e: Event)
    requires Sound(r, env, s)
    ensures Sound(r, env, Step(r, env, s, e))
  {
  }

  /** This event, in this state, is no edit of `p` by anybody. */
  ghost predicate LeavesAlone(r: Registry, env: set<Path>, s: State, e: Event, p: Path) {
    e.SaveBy? && (e.t in s.readings || Resolvable(s.db, e.file)) ==>
      var b := BaselineOf(r, env, s, e.t, e.file);
      !Editable(p, b.locked) || (Unedited(b, e.data, p) && !Housekeeping(r, b, p))
  }

  ghost predicate Settled(s: State, p: Path) {
    forall t :: t in s.owing ==> p !in s.owing[t]
  }

  lemma SaveLeavesAlone(r: Registry, env: set<Path>, s: State, e: Event, p: Path)
    requires e.SaveBy? && Sound(r, env, s) && Settled(s, p) && LeavesAlone(r, env, s, e, p)
    requires e.t in s.readings || Resolvable(s.db, e.file)
    ensures var u := Step(r, env, s, e); Settled(u, p) && Lookup(u.db, p) == Lookup(s.db, p)
  {
    var b := BaselineOf(r, env, s, e.t, e.file);
    assert Genuine(r, env, b);
    var put, gone := Puts(b, e.data), Removed(b.rows, e.data, b.locked);
    assert p !in put && p !in gone by { SaveTouchesOnlyEdits(r, env, b, e.data, p); }
    SavedState(r, env, s, e, put, gone);
    OwesNothingMore(s, State(s.db + put, s.readings - {e.t}, s.owing[e.t := gone]), e.t, put, gone, p);
  }

  lemma SavedState(r: Registry, env: set<Path>, s: State, e: Event, put: Leaves, gone: set<Path>)
    requires e.SaveBy? && (e.t in s.readings || Resolvable(s.db, e.file))
    requires var b := BaselineOf(r, env, s, e.t, e.file);
             put == Puts(b, e.data) && gone == Removed(b.rows, e.data, b.locked)
    ensures Step(r, env, s, e) == State(s.db + put, s.readings - {e.t}, s.owing[e.t := gone])
  {
  }

  lemma OwesNothingMore(s: State, u: State, t: nat, put: Leaves, gone: set<Path>, p: Path)
    requires Settled(s, p) && p !in put && p !in gone
    requires u == State(s.db + put, s.readings - {t}, s.owing[t := gone])
    ensures Settled(u, p) && Lookup(u.db, p) == Lookup(s.db, p)
  {
  }

  lemma StepLeavesAlone(r: Registry, env: set<Path>, s: State, e: Event, p: Path)
    requires Sound(r, env, s) && Settled(s, p) && LeavesAlone(r, env, s, e, p)
    ensures var u := Step(r, env, s, e);
            Sound(r, env, u) && Settled(u, p) && Lookup(u.db, p) == Lookup(s.db, p)
  {
    StepKeepsSound(r, env, s, e);
    if e.SaveBy? && (e.t in s.readings || Resolvable(s.db, e.file)) {
      SaveLeavesAlone(r, env, s, e, p);
    }
  }

  /** However many threads read and save, from however old a read and in whatever interleaving, a
      value none of them edits stays as the table has it: no stale save puts it back. */
  lemma {:induction false} NoLostUpdate(r: Registry, env: set<Path>, s: State, es: seq<Event>, p: Path)
    requires Sound(r, env, s) && Settled(s, p)
    requires forall i :: 0 <= i < |es| ==> LeavesAlone(r, env, Run(r, env, s, es[..i]), es[i], p)
    ensures var u := Run(r, env, s, es);
            Sound(r, env, u) && Settled(u, p) && Lookup(u.db, p) == Lookup(s.db, p)
  {
    if es != [] {
      var init := es[..|es| - 1];
      forall i | 0 <= i < |init| ensures LeavesAlone(r, env, Run(r, env, s, init[..i]), init[i], p) {
        assert init[..i] == es[..i];
      }
      NoLostUpdate(r, env, s, init, p);
      StepLeavesAlone(r, env, Run(r, env, s, init), es[|es| - 1], p);
    }
  }

  lemma SavedIsThere(r: Registry, env: set<Path>, s: State, t: nat, data: Config, file: Config, p: Path)
    requires Settled(s, p) && t in s.readings && Editable(p, s.readings[t].locked) && p in LeavesOf(data)
    requires Lookup(s.readings[t].rows, p) != Some(LeavesOf(data)[p])
    ensures var saved := Step(r, env, s, SaveBy(t, data, file));
            Settled(saved, p) && Lookup(saved.db, p) == Some(LeavesOf(data)[p])
  {
    var b := s.readings[t];
    assert p in EditableIn(data, b.locked);
    var put, gone := Puts(b, data), Removed(b.rows, data, b.locked);
    assert p in put && p !in gone;
    assert Step(r, env, s, SaveBy(t, data, file)) == State(s.db + put, s.readings - {t}, s.owing[t := gone]);
  }

  /** An edit that has been saved is in the table, and stays there until somebody edits that path. */
  lemma SavedEditStays(r: Registry, env: set<Path>, s: State, t: nat, data: Config, file: Config,
                       es: seq<Event>, p: Path)
    requires Sound(r, env, s) && Settled(s, p) && t in s.readings
    requires Editable(p, s.readings[t].locked) && p in LeavesOf(data)
    requires Lookup(s.readings[t].rows, p) != Some(LeavesOf(data)[p])
    requires var saved := Step(r, env, s, SaveBy(t, data, file));
             forall i :: 0 <= i < |es| ==> LeavesAlone(r, env, Run(r, env, saved, es[..i]), es[i], p)
    ensures Lookup(Run(r, env, Step(r, env, s, SaveBy(t, data, file)), es).db, p) == Some(LeavesOf(data)[p])
  {
    var saved := Step(r, env, s, SaveBy(t, data, file));
    StepKeepsSound(r, env, s, SaveBy(t, data, file));
    SavedIsThere(r, env, s, t, data, file, p);
    NoLostUpdate(r, env, saved, es, p);
  }

  /** Only this thread has yet to delete the row. */
  ghost predicate OwedBy(s: State, t: nat, p: Path) {
    t in s.owing && p in s.owing[t] && forall u :: u in s.owing && u != t ==> p !in s.owing[u]
  }

  lemma SavedDeletionIsOwed(r: Registry, env: set<Path>, s: State, t: nat, data: Config, file: Config, p: Path)
    requires Sound(r, env, s) && Settled(s, p) && t in s.readings
    requires Editable(p, s.readings[t].locked) && p !in LeavesOf(data) && p in s.readings[t].rows
    ensures var saved := Step(r, env, s, SaveBy(t, data, file)); Sound(r, env, saved) && OwedBy(saved, t, p)
  {
    StepKeepsSound(r, env, s, SaveBy(t, data, file));
    var b := s.readings[t];
    var put, gone := Puts(b, data), Removed(b.rows, data, b.locked);
    assert p in gone;
    assert Step(r, env, s, SaveBy(t, data, file)) == State(s.db + put, s.readings - {t}, s.owing[t := gone]);
  }

  lemma OwedStays(r: Registry, env: set<Path>, s: State, t: nat, e: Event, p: Path)
    requires Sound(r, env, s) && OwedBy(s, t, p) && e.t != t && LeavesAlone(r, env, s, e, p)
    ensures var u := Step(r, env, s, e); Sound(r, env, u) && OwedBy(u, t, p)
  {
    StepKeepsSound(r, env, s, e);
    if e.SaveBy? && (e.t in s.readings || Resolvable(s.db, e.file)) {
      var b := BaselineOf(r, env, s, e.t, e.file);
      assert Genuine(r, env, b);
      var put, gone := Puts(b, e.data), Removed(b.rows, e.data, b.locked);
      assert p !in gone by { SaveTouchesOnlyEdits(r, env, b, e.data, p); }
      assert Step(r, env, s, e) == State(s.db + put, s.readings - {e.t}, s.owing[e.t := gone]);
    }
  }

  lemma {:induction false} OwedThroughout(r: Registry, env: set<Path>, s: State, t: nat, es: seq<Event>, p: Path)
    requires Sound(r, env, s) && OwedBy(s, t, p)
    requires forall i :: 0 <= i < |es| ==> es[i].t != t && LeavesAlone(r, env, Run(r, env, s, es[..i]), es[i], p)
    ensures var u := Run(r, env, s, es); Sound(r, env, u) && OwedBy(u, t, p)
  {
    if es != [] {
      var init := es[..|es| - 1];
      forall i | 0 <= i < |init|
        ensures init[i].t != t && LeavesAlone(r, env, Run(r, env, s, init[..i]), init[i], p)
      {
        assert init[..i] == es[..i];
      }
      OwedThroughout(r, env, s, t, init, p);
      OwedStays(r, env, Run(r, env, s, init), t, es[|es| - 1], p);
    }
  }

  lemma FinishDeletes(r: Registry, env: set<Path>, s: State, t: nat, p: Path)
    requires Sound(r, env, s) && OwedBy(s, t, p)
    ensures var u := Step(r, env, s, FinishBy(t));
            Sound(r, env, u) && Settled(u, p) && Lookup(u.db, p) == None
  {
    StepKeepsSound(r, env, s, FinishBy(t));
  }

  /** An edit that takes a leaf out is in the table as soon as the save has finished, whatever the
      others do in between its two statements, and stays until somebody edits that path. */
  lemma SavedDeletionStays(r: Registry, env: set<Path>, s: State, t: nat, data: Config, file: Config,
                           between: seq<Event>, es: seq<Event>, p: Path)
    requires Sound(r, env, s) && Settled(s, p) && t in s.readings
    requires Editable(p, s.readings[t].locked) && p !in LeavesOf(data) && p in s.readings[t].rows
    requires var saved := Step(r, env, s, SaveBy(t, data, file));
             forall i :: 0 <= i < |between| ==>
               between[i].t != t && LeavesAlone(r, env, Run(r, env, saved, between[..i]), between[i], p)
    requires var done := Step(r, env, Run(r, env, Step(r, env, s, SaveBy(t, data, file)), between), FinishBy(t));
             forall i :: 0 <= i < |es| ==> LeavesAlone(r, env, Run(r, env, done, es[..i]), es[i], p)
    ensures var done := Step(r, env, Run(r, env, Step(r, env, s, SaveBy(t, data, file)), between), FinishBy(t));
            Lookup(Run(r, env, done, es).db, p) == None
  {
    var saved := Step(r, env, s, SaveBy(t, data, file));
    SavedDeletionIsOwed(r, env, s, t, data, file, p);
    OwedThroughout(r, env, saved, t, between, p);
    FinishDeletes(r, env, Run(r, env, saved, between), t, p);
    NoLostUpdate(r, env, Step(r, env, Run(r, env, saved, between), FinishBy(t)), es, p);
  }

  /** The statements of a save, as they reach the table: one that sets rows, one that deletes. */
  function Statements(t: nat, b: Reading, data: Config): seq<Op<Path, Json>> {
    [Put(t, Puts(b, data)), Delete(t, Removed(b.rows, data, b.locked))]
  }

  /** No path is edited in both saves. */
  ghost predicate DisjointEdits(r: Registry, x: Reading, dataX: Config, y: Reading, dataY: Config) {
    forall p :: Quiet(r, x, dataX, p) || Quiet(r, y, dataY, p)
  }

  predicate Quiet(r: Registry, b: Reading, data: Config, p: Path) {
    Unedited(b, data, p) && !Housekeeping(r, b, p)
  }

  /** A schedule of the statements of these two saves, writers 0 and 1. */
  ghost predicate ScheduleOf(ops: seq<Op<Path, Json>>, x: Reading, dataX: Config, y: Reading, dataY: Config) {
    && (forall op :: op in ops ==> op.writer == 0 || op.writer == 1)
    && Own(ops, 0) == Statements(0, x, dataX) && Own(ops, 1) == Statements(1, y, dataY)
  }

  lemma SaveOpTouchesEdits(r: Registry, env: set<Path>, b: Reading, data: Config, ops: seq<Op<Path, Json>>,
                           op: Op<Path, Json>, p: Path)
    requires Genuine(r, env, b) && op in ops && Own(ops, op.writer) == Statements(op.writer, b, data)
    requires op.Touches(p)
    ensures !Quiet(r, b, data, p)
  {
    OwnIsMine(ops, op.writer);
    SaveTouchesOnlyEdits(r, env, b, data, p);
  }

  lemma NoCommonTouch(r: Registry, env: set<Path>, x: Reading, y: Reading, dataX: Config, dataY: Config,
                      ops: seq<Op<Path, Json>>, a: Op<Path, Json>, b: Op<Path, Json>, p: Path)
    requires Genuine(r, env, x) && Genuine(r, env, y) && DisjointEdits(r, x, dataX, y, dataY)
    requires ScheduleOf(ops, x, dataX, y, dataY) && a in ops && b in ops && a.writer == 0 && b.writer == 1
    ensures !(a.Touches(p) && b.Touches(p))
  {
    if a.Touches(p) && b.Touches(p) {
      SaveOpTouchesEdits(r, env, x, dataX, ops, a, p);
      SaveOpTouchesEdits(r, env, y, dataY, ops, b, p);
    }
  }

  /** Two saves whose edits have no path in common leave the same table in every interleaving of
      their statements. */
  lemma DisjointSavesCommute(r: Registry, env: set<Path>, db: Leaves, x: Reading, y: Reading,
                             dataX: Config, dataY: Config, one: seq<Op<Path, Json>>, other: seq<Op<Path, Json>>)
    requires Genuine(r, env, x) && Genuine(r, env, y) && DisjointEdits(r, x, dataX, y, dataY)
    requires ScheduleOf(one, x, dataX, y, dataY) && ScheduleOf(other, x, dataX, y, dataY)
    ensures ApplyAll(db, one) == ApplyAll(db, other)
  {
    SchedulesHaveTheSameOwn(x, dataX, y, dataY, one, other);
    ScheduleIsDisjoint(r, env, x, y, dataX, dataY, one);
    DisjointWritersCommute(db, one, other);
  }

  lemma SameOwn(one: seq<Op<Path, Json>>, other: seq<Op<Path, Json>>, t: nat)
    requires forall op :: op in one || op in other ==> op.writer == 0 || op.writer == 1
    requires Own(one, 0) == Own(other, 0) && Own(one, 1) == Own(other, 1)
    ensures Own(one, t) == Own(other, t)
  {
    if t > 1 {
      NoneOfMine(one, t);
      NoneOfMine(other, t);
    } else if t == 1 {
      assert Own(one, 1) == Own(other, 1);
    }
  }

  lemma SchedulesHaveTheSameOwn(x: Reading, dataX: Config, y: Reading, dataY: Config,
                                one: seq<Op<Path, Json>>, other: seq<Op<Path, Json>>)
    requires ScheduleOf(one, x, dataX, y, dataY) && ScheduleOf(other, x, dataX, y, dataY)
    ensures forall t :: Own(one, t) == Own(other, t)
  {
    forall t: nat ensures Own(one, t) == Own(other, t) {
      SameOwn(one, other, t);
    }
  }

  lemma ScheduleIsDisjoint(r: Registry, env: set<Path>, x: Reading, y: Reading, dataX: Config, dataY: Config,
                           ops: seq<Op<Path, Json>>)
    requires Genuine(r, env, x) && Genuine(r, env, y) && DisjointEdits(r, x, dataX, y, dataY)
    requires ScheduleOf(ops, x, dataX, y, dataY)
    ensures DisjointWriters(ops)
  {
    forall a, b, p: Path | a in ops && b in ops && a.writer != b.writer && a.Touches(p) ensures !b.Touches(p) {
      if a.writer == 0 {
        NoCommonTouch(r, env, x, y, dataX, dataY, ops, a, b, p);
      } else {
        NoCommonTouch(r, env, x, y, dataX, dataY, ops, b, a, p);
      }
    }
  }
}
