/**
  The MySQL rebuild: copy, catch up, atomic RENAME, catch up again, drop the backup, while other
  sessions go on inserting into the table under its live name.

  A row is identified by the order in which it was inserted, so two equal rows are still two.
  `ever` and `late` are the history the theorems are about: every row ever inserted, and which
  of them went in after the swap.
*/
module MySqlRebuild {
  import opened Common
  import opened Schema
  import opened Engine
  import opened Reconcile

  type Rows = map<nat, Row>

  /** The rebuild at hand: the spec, the old table's columns and its unique keys. */
  datatype Plan = Plan(spec: TableSpec, oldCols: seq<ColumnInfo>, oldKeys: seq<seq<string>>)

  function PkList(spec: TableSpec): seq<string> {
    if spec.compositePk != [] then spec.compositePk else InlinePkNames(spec.columns)
  }

  /** The unique keys the new table is created with. */
  function NewKeys(spec: TableSpec): set<seq<string>> {
    {PkList(spec)} + (set c | c in spec.columns && c.unique :: [c.name])
    + (set u | u in spec.uniqueConstraints)
  }

  function NewCols(p: Plan): seq<ColumnInfo> {
    CreatedColumns(p.spec, ExtraColumns(p.oldCols, NameSet(SpecNames(p.spec.columns))))
  }

  /** There is a key to match late rows on: the new primary key, all of it in the old table. */
  predicate CanCatchUp(p: Plan) {
    PkList(p.spec) != [] && forall n :: n in PkList(p.spec) ==> n in Names(p.oldCols)
  }

  /** A row as the SELECT list of the copy carries it. */
  function Conv(p: Plan, r: Row, id: nat): Row {
    CopiedRow(p.spec, p.oldCols, r, id)
  }

  /** The value an IGNOREd statement puts where NOT NULL forbids a NULL. */
  function Implicit(t: ColType): Value {
    if t == TextType then Lit("") else Id(0)
  }

  /** What INSERT IGNORE stores: the row, its forbidden NULLs replaced. */
  function Placed(cols: seq<ColumnInfo>, r: Row): Row {
    map n | n in r :: if r[n] == Null && Find(cols, n).Some?
                         && (!Find(cols, n).value.nullable || Find(cols, n).value.pk)
                      then Implicit(Find(cols, n).value.ctype) else r[n]
  }

  predicate Clash(keys: set<seq<string>>, a: Row, b: Row) {
    exists k :: k in keys && k != [] && SameKey(a, b, k)
  }

  predicate Accepts(cols: seq<ColumnInfo>, keys: set<seq<string>>, rows: Rows, r: Row) {
    RowFits(r, cols) && forall i :: i in rows ==> !Clash(keys, rows[i], r)
  }

  /** The rows fit the columns, and no two share a key. */
  predicate Consistent(cols: seq<ColumnInfo>, keys: set<seq<string>>, rows: Rows) {
    && (forall i :: i in rows ==> RowFits(rows[i], cols))
    && (forall i, j :: i in rows && j in rows && i != j ==> !Clash(keys, rows[i], rows[j]))
  }

  function OldKeySet(p: Plan): set<seq<string>> {
    set k | k in p.oldKeys
  }

  // ── The protocol ──────────────────────────────────────────────────────────

  /** The statement the rebuilding process runs next; `Stopped` is an error or a crash. */
  datatype At = ToDropCopy | ToDropBackup | ToCreate | ToCopy | ToCatchUp | ToSwap
              | ToRecover | ToDrop | Over | Stopped

  datatype State = State(
    at: At, live: Rows, copy: Option<Rows>, backup: Option<Rows>, swapped: bool,
    todo: set<nat>, next: nat, ever: Rows, late: set<nat>)

  /** `Advance` is the process's next statement, `Recover` the placing of one late row by the
      second pass, `Insert` another session's committed INSERT, `Die` the end of the process. */
  datatype Event = Advance | Recover(id: nat) | Insert(row: Row) | Die

  function CopyAll(p: Plan, rows: Rows): Rows {
    map i | i in rows :: Conv(p, rows[i], i)
  }

  /** Nobody in `rows` breaks a constraint of the new table. */
  predicate Storable(p: Plan, rows: Rows) {
    Consistent(NewCols(p), NewKeys(p.spec), rows)
  }

  /** A row with this primary key is there (the NOT EXISTS of both passes, negated). */
  predicate KeyTaken(p: Plan, rows: Rows, r: Row) {
    exists i :: i in rows && SameKey(rows[i], r, PkList(p.spec))
  }

  /** First pass: the live rows whose key the copy lacks, added to it. */
  function CaughtUp(p: Plan, copy: Rows, live: Rows): Rows {
    copy + map i | i in live && !KeyTaken(p, copy, live[i]) :: Conv(p, live[i], i)
  }

  /** The late row as the second pass stores it. */
  function Stored(p: Plan, r: Row, id: nat): Row {
    Placed(NewCols(p), Conv(p, r, id))
  }

  /** Something in the live table stands in the way of this row. */
  predicate Blocked(p: Plan, live: Rows, r: Row, id: nat) {
    || KeyTaken(p, live, r)
    || exists i :: i in live && Clash(NewKeys(p.spec), live[i], Stored(p, r, id))
  }

  function AdvanceStep(p: Plan, s: State): State {
    match s.at
    case ToDropCopy => s.(at := ToDropBackup, copy := None)
    case ToDropBackup => s.(at := ToCreate, backup := None)
    case ToCreate =>
      if CreateAccepted(p.spec, ExtraColumns(p.oldCols, NameSet(SpecNames(p.spec.columns))))
      then s.(at := ToCopy, copy := Some(map[])) else s.(at := Stopped)
    case ToCopy =>
      var rows := CopyAll(p, s.live);
      if Storable(p, rows) then s.(at := ToCatchUp, copy := Some(rows)) else s.(at := Stopped)
    case ToCatchUp =>
      if s.copy.None? then s.(at := Stopped)
      else if !CanCatchUp(p) then s.(at := ToSwap)
      else
        var rows := CaughtUp(p, s.copy.value, s.live);
        if Storable(p, rows) then s.(at := ToSwap, copy := Some(rows)) else s.(at := Stopped)
    case ToSwap =>
      if s.copy.None? then s.(at := Stopped)
      else s.(at := ToRecover, live := s.copy.value, copy := None, backup := Some(s.live),
              swapped := true, todo := if CanCatchUp(p) then s.live.Keys else {})
    case ToRecover => if s.todo == {} then s.(at := ToDrop) else s
    case ToDrop => s.(at := Over, backup := None)
    case _ => s
  }

  /** The second pass reaches one row of the backup: NOT EXISTS on the primary key, then an
      INSERT that any other clash makes a no-op. */
  function RecoverStep(p: Plan, s: State, id: nat): State {
    if s.at != ToRecover || id !in s.todo || s.backup.None? || id !in s.backup.value then s
    else
      var r := s.backup.value[id];
      if Blocked(p, s.live, r, id) then s.(todo := s.todo - {id})
      else s.(todo := s.todo - {id}, live := s.live[id := Stored(p, r, id)])
  }

  /** Another session's INSERT goes to whatever table has the live name. */
  function InsertStep(p: Plan, s: State, r: Row): State {
    if !s.swapped && Accepts(p.oldCols, OldKeySet(p), s.live, r) then
      s.(live := s.live[s.next := r], ever := s.ever[s.next := r], next := s.next + 1)
    else if s.swapped && Accepts(NewCols(p), NewKeys(p.spec), s.live, r) then
      s.(live := s.live[s.next := r], ever := s.ever[s.next := r], next := s.next + 1,
         late := s.late + {s.next})
    else s
  }

  function Step(p: Plan, s: State, e: Event): State {
    match e
    case Advance => AdvanceStep(p, s)
    case Recover(id) => RecoverStep(p, s, id)
    case Insert(r) => InsertStep(p, s, r)
    case Die => if s.at == Over then s else s.(at := Stopped)
  }

  function Run(p: Plan, s: State, es: seq<Event>): State {
    if es == [] then s else Step(p, Run(p, s, es[..|es| - 1]), es[|es| - 1])
  }

  /** A rebuild about to start on a table with these rows. Leftovers of an earlier one may be
      lying around. */
  ghost predicate Initial(p: Plan, s: State) {
    && p.oldCols != []
    && s.at == ToDropCopy && !s.swapped && s.todo == {} && s.late == {} && s.ever == s.live
    && (forall i :: i in s.live ==> i < s.next)
    && Consistent(p.oldCols, OldKeySet(p), s.live)
  }

  // ── The invariant ─────────────────────────────────────────────────────────

  /** What was inserted before the swap. */
  function Early(ever: Rows, late: set<nat>): Rows {
    ever - late
  }

  ghost predicate History(p: Plan, s: State) {
    && s.late <= s.ever.Keys
    && (forall i :: i in s.ever ==> i < s.next)
    && (forall i :: i in s.live ==> i in s.ever)
    && Consistent(p.oldCols, OldKeySet(p), Early(s.ever, s.late))
  }

  /** The copy holds live rows only, converted, and they fit the new columns. */
  ghost predicate Faithful(p: Plan, copy: Rows, live: Rows) {
    forall i :: i in copy ==> i in live && copy[i] == Conv(p, live[i], i) && RowFits(copy[i], NewCols(p))
  }

  ghost predicate BeforeSwap(p: Plan, s: State) {
    && s.live == s.ever && s.late == {} && s.todo == {}
    && (s.at in {ToCatchUp, ToSwap} ==> s.copy.Some? && Faithful(p, s.copy.value, s.live))
    && s.at !in {ToRecover, ToDrop, Over}
  }

  ghost predicate Held(p: Plan, s: State) {
    && (forall i :: i in s.late ==> i in s.live && i in s.ever && s.live[i] == s.ever[i])
    && (forall i :: i in s.live && i !in s.late ==> i in s.ever && s.live[i] == Stored(p, s.ever[i], i))
  }

  /** The second pass has dealt with every early row outside `todo`. */
  ghost predicate Handled(p: Plan, s: State) {
    forall i :: i in s.ever && i !in s.late && i !in s.todo && i !in s.live
      ==> Blocked(p, s.live, s.ever[i], i)
  }

  ghost predicate AfterSwap(p: Plan, s: State) {
    && s.at in {ToRecover, ToDrop, Over, Stopped}
    && Held(p, s)
    && (s.at != Over ==> s.backup == Some(Early(s.ever, s.late)))
    && s.todo <= Early(s.ever, s.late).Keys
    && (s.at in {ToDrop, Over} ==> s.todo == {})
    && (CanCatchUp(p) ==> Handled(p, s))
  }

  ghost predicate Inv(p: Plan, s: State) {
    History(p, s) && if s.swapped then AfterSwap(p, s) else BeforeSwap(p, s)
  }

  lemma PlacedFits(cols: seq<ColumnInfo>, r: Row)
    requires RowFits(r, cols)
    ensures Placed(cols, r) == r
  {
    forall n | n in r ensures Placed(cols, r)[n] == r[n] {
      if Find(cols, n).Some? {
        assert Find(cols, n).value in cols;
      }
    }
  }

  lemma CopyIsFaithful(p: Plan, live: Rows)
    requires Storable(p, CopyAll(p, live))
    ensures Faithful(p, CopyAll(p, live), live)
  {
  }

  lemma CatchUpIsFaithful(p: Plan, copy: Rows, live: Rows)
    requires Faithful(p, copy, live) && Storable(p, CaughtUp(p, copy, live))
    ensures Faithful(p, CaughtUp(p, copy, live), live)
  {
    var rows := CaughtUp(p, copy, live);
    forall i | i in rows ensures i in live && rows[i] == Conv(p, live[i], i) && RowFits(rows[i], NewCols(p)) {
      assert i in copy || i in live;
    }
  }

  lemma SwapKeeps(p: Plan, s: State)
    requires Inv(p, s) && s.at == ToSwap
    ensures Inv(p, AdvanceStep(p, s))
  {
    var u := AdvanceStep(p, s);
    assert Early(s.ever, s.late) == s.ever;
    assert Held(p, u) by {
      forall i | i in u.live ensures i in u.ever && u.live[i] == Stored(p, u.ever[i], i) {
        PlacedFits(NewCols(p), s.copy.value[i]);
      }
    }
  }

  /** Before the swap a statement touches the copy and the backup only. */
  lemma CopyMoves(p: Plan, s: State, at: At, copy: Option<Rows>, backup: Option<Rows>)
    requires Inv(p, s) && !s.swapped && at !in {ToRecover, ToDrop, Over}
    requires at in {ToCatchUp, ToSwap} ==> copy.Some? && Faithful(p, copy.value, s.live)
    ensures Inv(p, s.(at := at, copy := copy, backup := backup))
  {
  }

  lemma CopyKeeps(p: Plan, s: State)
    requires Inv(p, s) && !s.swapped && s.at == ToCopy
    ensures Inv(p, AdvanceStep(p, s))
  {
    var rows := CopyAll(p, s.live);
    if Storable(p, rows) {
      CopyIsFaithful(p, s.live);
      CopyMoves(p, s, ToCatchUp, Some(rows), s.backup);
    } else {
      CopyMoves(p, s, Stopped, s.copy, s.backup);
    }
  }

  lemma CatchUpKeeps(p: Plan, s: State)
    requires Inv(p, s) && !s.swapped && s.at == ToCatchUp
    ensures Inv(p, AdvanceStep(p, s))
  {
    var rows := CaughtUp(p, s.copy.value, s.live);
    if !CanCatchUp(p) {
      CopyMoves(p, s, ToSwap, s.copy, s.backup);
    } else if Storable(p, rows) {
      CatchUpIsFaithful(p, s.copy.value, s.live);
      CopyMoves(p, s, ToSwap, Some(rows), s.backup);
    } else {
      CopyMoves(p, s, Stopped, s.copy, s.backup);
    }
  }

  lemma SetUpKeeps(p: Plan, s: State)
    requires Inv(p, s) && !s.swapped && s.at in {ToDropCopy, ToDropBackup, ToCreate}
    ensures Inv(p, AdvanceStep(p, s))
  {
    match s.at {
      case ToDropCopy => CopyMoves(p, s, ToDropBackup, None, s.backup);
      case ToDropBackup => CopyMoves(p, s, ToCreate, s.copy, None);
      case _ =>
        CopyMoves(p, s, ToCopy, Some(map[]), s.backup);
        CopyMoves(p, s, Stopped, s.copy, s.backup);
    }
  }

  lemma FinishKeeps(p: Plan, s: State)
    requires Inv(p, s) && s.swapped
    ensures Inv(p, AdvanceStep(p, s))
  {
    var u := AdvanceStep(p, s);
    HistoryStays(p, s, u);
    assert Held(p, u);
    if CanCatchUp(p) { assert Handled(p, u); }
  }

  lemma AdvanceKeeps(p: Plan, s: State)
    requires Inv(p, s)
    ensures Inv(p, AdvanceStep(p, s))
  {
    if s.swapped {
      FinishKeeps(p, s);
    } else {
      match s.at {
        case ToCopy => CopyKeeps(p, s);
        case ToCatchUp => CatchUpKeeps(p, s);
        case ToSwap => SwapKeeps(p, s);
        case Stopped =>
        case _ => SetUpKeeps(p, s);
      }
    }
  }

  /** More rows in the live table unblock nothing. */
  lemma BlockedStays(p: Plan, live: Rows, more: Rows, r: Row, id: nat)
    requires Blocked(p, live, r, id)
    requires forall i :: i in live ==> i in more && more[i] == live[i]
    ensures Blocked(p, more, r, id)
  {
    if KeyTaken(p, live, r) {
      var i :| i in live && SameKey(live[i], r, PkList(p.spec));
      assert i in more && SameKey(more[i], r, PkList(p.spec));
    } else {
      var i :| i in live && Clash(NewKeys(p.spec), live[i], Stored(p, r, id));
      assert i in more && Clash(NewKeys(p.spec), more[i], Stored(p, r, id));
    }
  }

  lemma HandledStays(p: Plan, s: State, u: State)
    requires Handled(p, s) && s.late <= s.ever.Keys
    requires forall i :: i in s.live ==> i in u.live && u.live[i] == s.live[i]
    requires forall i :: i in u.ever && i !in u.late ==> i in s.ever && i !in s.late && u.ever[i] == s.ever[i]
    requires forall i :: i in s.todo - u.todo && i !in u.live ==>
               i in s.ever && Blocked(p, u.live, s.ever[i], i)
    ensures Handled(p, u)
  {
    forall i | i in u.ever && i !in u.late && i !in u.todo && i !in u.live
      ensures Blocked(p, u.live, u.ever[i], i)
    {
      if i !in s.todo { BlockedStays(p, s.live, u.live, s.ever[i], i); }
    }
  }

  /** The same history, and more rows in the live table. */
  lemma HistoryStays(p: Plan, s: State, u: State)
    requires History(p, s)
    requires u.ever == s.ever && u.late == s.late && u.next == s.next
    requires forall i :: i in u.live ==> i in s.ever
    ensures History(p, u)
  {
  }

  lemma PlacingHolds(p: Plan, s: State, u: State, id: nat)
    requires Held(p, s) && id in s.ever && id !in s.late
    requires u.ever == s.ever && u.late == s.late && u.live == s.live[id := Stored(p, s.ever[id], id)]
    ensures Held(p, u)
  {
  }

  lemma PassedOverKeeps(p: Plan, s: State, u: State, id: nat)
    requires Inv(p, s) && s.swapped && id in s.todo && Blocked(p, s.live, s.ever[id], id)
    requires u == s.(todo := s.todo - {id})
    ensures Inv(p, u)
  {
    assert History(p, u) by { HistoryStays(p, s, u); }
    if CanCatchUp(p) {
      assert Handled(p, u) by { HandledStays(p, s, u); }
    }
  }

  lemma PlacedKeeps(p: Plan, s: State, u: State, id: nat)
    requires Inv(p, s) && s.swapped && id in s.todo && id in s.ever && id !in s.late
    requires u == s.(todo := s.todo - {id}, live := s.live[id := Stored(p, s.ever[id], id)])
    ensures Inv(p, u)
  {
    assert History(p, u) by { HistoryStays(p, s, u); }
    assert Held(p, u) by { PlacingHolds(p, s, u, id); }
    if CanCatchUp(p) {
      assert Handled(p, u) by { HandledStays(p, s, u); }
    }
  }

  lemma RecoverKeeps(p: Plan, s: State, id: nat)
    requires Inv(p, s) && RecoverStep(p, s, id) != s
    ensures Inv(p, RecoverStep(p, s, id))
  {
    assert s.swapped && id in s.ever && id !in s.late && s.backup.value[id] == s.ever[id];
    if Blocked(p, s.live, s.ever[id], id) {
      PassedOverKeeps(p, s, RecoverStep(p, s, id), id);
    } else {
      PlacedKeeps(p, s, RecoverStep(p, s, id), id);
    }
  }

  lemma ClashSymmetric(keys: set<seq<string>>, a: Row, b: Row)
    requires !Clash(keys, a, b)
    ensures !Clash(keys, b, a)
  {
    forall k | k in keys && k != [] ensures !SameKey(b, a, k) {
      assert !SameKey(a, b, k);
    }
  }

  lemma AcceptedIsConsistent(cols: seq<ColumnInfo>, keys: set<seq<string>>, rows: Rows, id: nat, r: Row)
    requires Consistent(cols, keys, rows) && Accepts(cols, keys, rows, r) && id !in rows
    ensures Consistent(cols, keys, rows[id := r])
  {
    var more := rows[id := r];
    assert forall i :: i in more ==> RowFits(more[i], cols);
    forall i, j | i in more && j in more && i != j ensures !Clash(keys, more[i], more[j]) {
      if i == id {
        assert !Clash(keys, rows[j], r);
        ClashSymmetric(keys, rows[j], r);
      } else if j == id {
        assert !Clash(keys, rows[i], r);
      } else {
        assert !Clash(keys, rows[i], rows[j]);
      }
    }
  }

  lemma EarlyInsertKeeps(p: Plan, s: State, r: Row)
    requires Inv(p, s) && !s.swapped
    ensures Inv(p, InsertStep(p, s, r))
  {
    var u := InsertStep(p, s, r);
    if u != s {
      assert Early(s.ever, s.late) == s.ever && Early(u.ever, u.late) == u.ever;
      AcceptedIsConsistent(p.oldCols, OldKeySet(p), s.ever, s.next, r);
    }
  }

  lemma LateInsertHolds(p: Plan, s: State, u: State, r: Row)
    requires Held(p, s) && s.next !in s.ever
    requires u.ever == s.ever[s.next := r] && u.live == s.live[s.next := r] && u.late == s.late + {s.next}
    ensures Held(p, u)
  {
  }

  lemma LateHistory(p: Plan, s: State, u: State, r: Row)
    requires History(p, s)
    requires u.ever == s.ever[s.next := r] && u.live == s.live[s.next := r] && u.late == s.late + {s.next}
    requires u.next == s.next + 1 && Early(u.ever, u.late) == Early(s.ever, s.late)
    ensures History(p, u)
  {
  }

  lemma LateHandled(p: Plan, s: State, u: State, r: Row)
    requires Handled(p, s) && s.late <= s.ever.Keys && s.next !in s.ever && s.next !in s.live
    requires u.ever == s.ever[s.next := r] && u.live == s.live[s.next := r] && u.late == s.late + {s.next}
    requires u.todo == s.todo
    ensures Handled(p, u)
  {
    HandledStays(p, s, u);
  }

  /** Whatever the late row is: the history of early rows does not see it. */
  lemma LateRowKeeps(p: Plan, s: State, u: State, r: Row)
    requires Inv(p, s) && s.swapped
    requires u == s.(live := s.live[s.next := r], ever := s.ever[s.next := r], next := s.next + 1,
                     late := s.late + {s.next})
    ensures Inv(p, u)
  {
    assert Early(u.ever, u.late) == Early(s.ever, s.late);
    assert s.next !in s.ever && s.next !in s.live;
    LateHistory(p, s, u, r);
    LateInsertHolds(p, s, u, r);
    if CanCatchUp(p) { LateHandled(p, s, u, r); }
  }

  lemma {:induction false} RunKeeps(p: Plan, s: State, es: seq<Event>)
    requires Initial(p, s)
    ensures Inv(p, Run(p, s, es))
  {
    if es == [] {
      assert Early(s.ever, s.late) == s.ever;
    } else {
      RunKeeps(p, s, es[..|es| - 1]);
      var u := Run(p, s, es[..|es| - 1]);
      match es[|es| - 1] {
        case Advance => AdvanceKeeps(p, u);
        case Recover(id) => if RecoverStep(p, u, id) != u { RecoverKeeps(p, u, id); }
        case Insert(r) =>
          if !u.swapped {
            EarlyInsertKeeps(p, u, r);
          } else if InsertStep(p, u, r) != u {
            LateRowKeeps(p, u, InsertStep(p, u, r), r);
          }
        case Die =>
      }
    }
  }

  // ── No insert is lost ─────────────────────────────────────────────────────

  /** Wherever a run stands, in between statements or cut short: before the swap the live table
      is the whole history, and until the backup is dropped the live rows and the backup
      together are. */
  lemma NothingIsOutOfReach(p: Plan, s: State, es: seq<Event>)
    requires Initial(p, s)
    ensures var u := Run(p, s, es);
            && (!u.swapped ==> u.live == u.ever)
            && (u.swapped && u.at != Over ==>
                  u.backup.Some? && forall i :: i in u.ever ==>
                    (i in u.late && i in u.live && u.live[i] == u.ever[i])
                    || (i in u.backup.value && u.backup.value[i] == u.ever[i]))
  {
    RunKeeps(p, s, es);
  }

  /** At the end of a run with a key to match on, every row ever inserted is in the live table,
      late ones as they are, earlier ones as the copy carries them, except an earlier one that
      something in the live table stands in the way of. */
  lemma OnlyBlockedRowsAreMissing(p: Plan, s: State, es: seq<Event>)
    requires Initial(p, s) && CanCatchUp(p) && Run(p, s, es).at == Over
    ensures var u := Run(p, s, es);
            forall i :: i in u.ever ==>
              if i in u.late then i in u.live && u.live[i] == u.ever[i]
              else if i in u.live then u.live[i] == Stored(p, u.ever[i], i)
              else Blocked(p, u.live, u.ever[i], i)
  {
    RunKeeps(p, s, es);
  }

  /** The old table is keyed by the primary key of the new one, and that is the new one's only
      unique key. */
  ghost predicate OnlyPrimaryKey(p: Plan) {
    && NewKeys(p.spec) == {PkList(p.spec)} && PkList(p.spec) != [] && PkList(p.spec) in p.oldKeys
    && forall n :: n in PkList(p.spec) ==>
         exists c :: c in p.oldCols && c.name == n && (c.pk || !c.nullable)
  }

  lemma KeyIsPresent(p: Plan, r: Row)
    requires OnlyPrimaryKey(p) && RowFits(r, p.oldCols)
    ensures forall n :: n in PkList(p.spec) ==> n in r && r[n] != Null && n in Names(p.oldCols)
  {
    forall n | n in PkList(p.spec) ensures n in r && r[n] != Null && n in Names(p.oldCols) {
      var c :| c in p.oldCols && c.name == n && (c.pk || !c.nullable);
      var k :| 0 <= k < |p.oldCols| && p.oldCols[k] == c;
      assert Names(p.oldCols)[k] == n;
    }
  }

  /** The stored form of a row has the row's own key. */
  lemma StoredKeepsKey(p: Plan, r: Row, id: nat)
    requires OnlyPrimaryKey(p) && RowFits(r, p.oldCols)
    ensures SameKey(Stored(p, r, id), r, PkList(p.spec))
  {
    KeyIsPresent(p, r);
    forall n | n in PkList(p.spec)
      ensures n in Stored(p, r, id) && n in r && Stored(p, r, id)[n] == r[n] && r[n] != Null
    {
      assert Conv(p, r, id)[n] == r[n];
    }
  }

  lemma SameKeyChain(a: Row, b: Row, c: Row, cols: seq<string>)
    requires SameKey(a, b, cols) && SameKey(a, c, cols)
    ensures SameKey(b, c, cols)
  {
  }

  /** The row is in the live table, itself or superseded: a row inserted after the swap has its
      key. */
  ghost predicate Kept(p: Plan, u: State, i: nat)
    requires i in u.ever
  {
    if i in u.late then i in u.live && u.live[i] == u.ever[i]
    else
      || (i in u.live && u.live[i] == Stored(p, u.ever[i], i)
          && SameKey(u.live[i], u.ever[i], PkList(p.spec)))
      || exists j :: j in u.late && j in u.live && SameKey(u.live[j], u.ever[i], PkList(p.spec))
  }

  /** The promise itself. With the primary key the only unique key, every key ever inserted is
      in the live table at the end, under every interleaving: with the very row, unless a row
      inserted after the swap took that key. */
  lemma NoInsertIsLost(p: Plan, s: State, es: seq<Event>, i: nat)
    requires Initial(p, s) && OnlyPrimaryKey(p) && Run(p, s, es).at == Over
    requires i in Run(p, s, es).ever
    ensures Kept(p, Run(p, s, es), i)
  {
    RunKeeps(p, s, es);
    var u := Run(p, s, es);
    var pk := PkList(p.spec);
    if i !in u.late {
      assert i in Early(u.ever, u.late) && RowFits(Early(u.ever, u.late)[i], p.oldCols);
      KeyIsPresent(p, u.ever[i]);
      StoredKeepsKey(p, u.ever[i], i);
      if i !in u.live {
        assert CanCatchUp(p);
        assert Blocked(p, u.live, u.ever[i], i);
        var j := Blocker(p, u.live, u.ever[i], i);
        if j !in u.late {
          assert j in Early(u.ever, u.late) && RowFits(Early(u.ever, u.late)[j], p.oldCols);
          StoredKeepsKey(p, u.ever[j], j);
          SameKeyChain(u.live[j], u.ever[j], u.ever[i], pk);
          assert Clash(OldKeySet(p), Early(u.ever, u.late)[j], Early(u.ever, u.late)[i]);
        }
      }
    }
  }

  lemma Blocker(p: Plan, live: Rows, r: Row, id: nat) returns (j: nat)
    requires OnlyPrimaryKey(p) && RowFits(r, p.oldCols) && Blocked(p, live, r, id)
    ensures j in live && SameKey(live[j], r, PkList(p.spec))
  {
    if KeyTaken(p, live, r) {
      j :| j in live && SameKey(live[j], r, PkList(p.spec));
    } else {
      j :| j in live && Clash(NewKeys(p.spec), live[j], Stored(p, r, id));
      StoredKeepsKey(p, r, id);
    }
  }

  lemma Then(p: Plan, s: State, es: seq<Event>, e: Event) returns (more: seq<Event>)
    ensures more == es + [e] && Run(p, s, more) == Step(p, Run(p, s, es), e)
  {
    more := es + [e];
    assert more[..|more| - 1] == es;
  }

  /** Two statements of the process, nothing in between. */
  lemma TwoAdvances(p: Plan, s: State, es: seq<Event>, t: State, u: State) returns (more: seq<Event>)
    requires Run(p, s, es) == t && AdvanceStep(p, AdvanceStep(p, t)) == u
    ensures Run(p, s, more) == u
  {
    more := Then(p, s, es, Advance);
    more := Then(p, s, more, Advance);
  }

  lemma WayIsCleared(p: Plan, s: State)
    requires s.at == ToDropCopy
    ensures AdvanceStep(p, AdvanceStep(p, s)) == s.(at := ToCreate, copy := None, backup := None)
  {
  }

  lemma CopyThenSkip(p: Plan, t: State)
    requires t.at == ToCopy && !CanCatchUp(p) && Storable(p, CopyAll(p, t.live))
    ensures AdvanceStep(p, AdvanceStep(p, t)) == t.(at := ToSwap, copy := Some(CopyAll(p, t.live)))
  {
  }

  lemma UpToTheSwap(p: Plan, s: State) returns (es: seq<Event>)
    requires Initial(p, s) && !CanCatchUp(p)
    requires CreateAccepted(p.spec, ExtraColumns(p.oldCols, NameSet(SpecNames(p.spec.columns))))
    requires Storable(p, CopyAll(p, s.live))
    ensures Run(p, s, es) == s.(at := ToSwap, copy := Some(CopyAll(p, s.live)), backup := None)
  {
    WayIsCleared(p, s);
    var t := s.(at := ToCreate, copy := None, backup := None);
    es := TwoAdvances(p, s, [], s, t);
    es := Then(p, s, es, Advance);
    var u := t.(at := ToCopy, copy := Some(map[]));
    CopyThenSkip(p, u);
    es := TwoAdvances(p, s, es, u, u.(at := ToSwap, copy := Some(CopyAll(p, u.live))));
  }

  lemma SwapLoses(p: Plan, s: State, before: seq<Event>, r: Row) returns (es: seq<Event>)
    requires !CanCatchUp(p)
    requires var t := Run(p, s, before);
             && t.at == ToSwap && t.copy.Some? && t.next !in t.copy.value && !t.swapped
             && Accepts(p.oldCols, OldKeySet(p), t.live, r)
    ensures var t, u := Run(p, s, before), Run(p, s, es);
            u.at == Over && t.next in u.ever && u.ever[t.next] == r && u.live == t.copy.value
  {
    var t := Run(p, s, before);
    es := Then(p, s, before, Insert(r));
    var u := t.(live := t.live[t.next := r], ever := t.ever[t.next := r], next := t.next + 1);
    assert Run(p, s, es) == u;
    es := Then(p, s, es, Advance);
    var v := u.(at := ToRecover, live := t.copy.value, copy := None, backup := Some(u.live),
                swapped := true, todo := {});
    assert Run(p, s, es) == v;
    es := Then(p, s, es, Advance);
    assert Run(p, s, es) == v.(at := ToDrop);
    es := Then(p, s, es, Advance);
  }

  /** Without a key to match on there is a run that loses a row: one inserted between the copy
      and the swap. */
  lemma WithoutKeyAnInsertIsLost(p: Plan, s: State, r: Row) returns (es: seq<Event>)
    requires Initial(p, s) && !CanCatchUp(p)
    requires CreateAccepted(p.spec, ExtraColumns(p.oldCols, NameSet(SpecNames(p.spec.columns))))
    requires Storable(p, CopyAll(p, s.live))
    requires Accepts(p.oldCols, OldKeySet(p), s.live, r)
    ensures var u := Run(p, s, es); u.at == Over && s.next in u.ever && u.ever[s.next] == r && s.next !in u.live
  {
    es := UpToTheSwap(p, s);
    es := SwapLoses(p, s, es, r);
  }
}
