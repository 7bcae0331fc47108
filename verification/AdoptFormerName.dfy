/**
  Taking over the rows of a table from one of its former names, and clearing what is left of the
  others.
*/
module AdoptFormerName {
  import opened Common

  type Row = string
  type Tables = map<string, seq<Row>>

  /** `count` is the row count of the table under the new name as far as it is known. */
  datatype State = State(tables: Tables, count: Option<nat>, adopted: bool)

  /** A count that cannot be taken comes back as 0. */
  function RowCount(tables: Tables, broken: set<string>, n: string): nat {
    if n in tables && n !in broken then |tables[n]| else 0
  }

  function Renamed(tables: Tables, was: string, becomes: string): Tables
    requires was in tables
  {
    (tables - {was})[becomes := tables[was]]
  }

  function StartState(tables: Tables, broken: set<string>, name: string): State {
    State(tables, if name in tables then Some(RowCount(tables, broken, name)) else None, false)
  }

  /** One former name. */
  function AdoptOne(s: State, broken: set<string>, name: string, former: string): State {
    if former == "" || former == name || former !in s.tables then s
    else
      var held := RowCount(s.tables, broken, former);
      if s.count.None? then State(Renamed(s.tables, former, name), Some(held), true)
      else if held == 0 then s.(tables := s.tables - {former})
      else if s.count.value == 0 then State(Renamed(s.tables - {name}, former, name), Some(held), true)
      else s
  }

  function AdoptAll(tables: Tables, broken: set<string>, name: string, formers: seq<string>): State {
    if formers == [] then StartState(tables, broken, name)
    else AdoptOne(AdoptAll(tables, broken, name, formers[..|formers| - 1]), broken, name, formers[|formers| - 1])
  }

  // ── Rows ──────────────────────────────────────────────────────────────────

  function RowsOf(tables: Tables, n: string): multiset<Row> {
    if n in tables then multiset(tables[n]) else multiset{}
  }

  function RowsOver(tables: Tables, names: seq<string>): multiset<Row> {
    if names == [] then multiset{} else RowsOver(tables, names[..|names| - 1]) + RowsOf(tables, names[|names| - 1])
  }

  lemma {:induction false} RowsOverAgree(a: Tables, b: Tables, names: seq<string>)
    requires forall n :: n in names ==> RowsOf(a, n) == RowsOf(b, n)
    ensures RowsOver(a, names) == RowsOver(b, names)
  {
    if names != [] {
      assert names[|names| - 1] in names;
      RowsOverAgree(a, b, names[..|names| - 1]);
    }
  }

  lemma {:induction false} RowsOverSplit(t: Tables, names: seq<string>, n: string)
    requires n in names && Distinct(names)
    ensures RowsOver(t, names) == RowsOver(t - {n}, names) + RowsOf(t, n)
  {
    var init, last := names[..|names| - 1], names[|names| - 1];
    if last == n {
      forall m | m in init ensures RowsOf(t, m) == RowsOf(t - {n}, m) {
        assert m != n;
      }
      RowsOverAgree(t, t - {n}, init);
    } else {
      RowsOverSplit(t, init, n);
    }
  }

  lemma DropEmptyKeepsRows(t: Tables, names: seq<string>, n: string)
    requires n in t && t[n] == []
    ensures RowsOver(t - {n}, names) == RowsOver(t, names)
  {
    RowsOverAgree(t, t - {n}, names);
  }

  lemma RenameKeepsRows(t: Tables, names: seq<string>, was: string, becomes: string)
    requires was in t && becomes !in t && was in names && becomes in names && Distinct(names)
    ensures RowsOver(Renamed(t, was, becomes), names) == RowsOver(t, names)
  {
    var u := Renamed(t, was, becomes);
    RowsOverSplit(t, names, was);
    RowsOverSplit(u, names, becomes);
    assert u - {becomes} == t - {was};
  }

  // ── What adoption keeps ───────────────────────────────────────────────────

  /** Every table with rows can be counted. */
  predicate Truthful(tables: Tables, broken: set<string>) {
    forall n :: n in tables && n in broken ==> tables[n] == []
  }

  /** The count is that of the table under the new name, and counts stay truthful. */
  ghost predicate Good(s: State, broken: set<string>, name: string) {
    && (s.count.Some? <==> name in s.tables)
    && (name in s.tables ==> s.count.value == |s.tables[name]|)
    && (forall n :: n in s.tables && n != name && n in broken ==> s.tables[n] == [])
  }

  /** This former name is settled: gone, or holding rows beside a new table that holds rows too. */
  ghost predicate Done(tables: Tables, name: string, former: string) {
    former == "" || former == name || former !in tables
    || (tables[former] != [] && name in tables && tables[name] != [])
  }

  lemma OneKeepsRows(s: State, broken: set<string>, name: string, former: string, names: seq<string>)
    requires Good(s, broken, name) && name in names && former in names && Distinct(names)
    ensures var u := AdoptOne(s, broken, name, former);
            && Good(u, broken, name) && Done(u.tables, name, former)
            && RowsOver(u.tables, names) == RowsOver(s.tables, names)
  {
    if former != "" && former != name && former in s.tables {
      var held := RowCount(s.tables, broken, former);
      assert held == |s.tables[former]|;
      if s.count.None? {
        RenameKeepsRows(s.tables, names, former, name);
      } else if held == 0 {
        DropEmptyKeepsRows(s.tables, names, former);
      } else if s.count.value == 0 {
        DropEmptyKeepsRows(s.tables, names, name);
        RenameKeepsRows(s.tables - {name}, names, former, name);
      }
    }
  }

  /** Later names unsettle nothing, and leave other tables alone. */
  lemma OneElsewhere(s: State, broken: set<string>, name: string, former: string, n: string)
    requires Good(s, broken, name)
    ensures var u := AdoptOne(s, broken, name, former);
            && (Done(s.tables, name, n) ==> Done(u.tables, name, n))
            && (n != name && n != former ==>
                  (n in u.tables <==> n in s.tables) && (n in s.tables ==> u.tables[n] == s.tables[n]))
  {
  }

  /** For any list of former names and truthful counts: no row is lost or made, tables under other
      names are untouched, and every former name is gone or was left alone with its rows beside a
      table that has rows as well. */
  lemma {:induction false} AdoptionConservesRows(tables: Tables, broken: set<string>, name: string,
                                                formers: seq<string>, names: seq<string>)
    requires Truthful(tables, broken)
    requires Distinct(names) && name in names && forall f :: f in formers ==> f in names
    ensures var s := AdoptAll(tables, broken, name, formers);
            && Good(s, broken, name)
            && RowsOver(s.tables, names) == RowsOver(tables, names)
            && (forall f :: f in formers ==> Done(s.tables, name, f))
            && (forall n :: n != name && n !in formers ==>
                  (n in s.tables <==> n in tables) && (n in tables ==> s.tables[n] == tables[n]))
  {
    if formers != [] {
      var init, last := formers[..|formers| - 1], formers[|formers| - 1];
      AdoptionConservesRows(tables, broken, name, init, names);
      var s := AdoptAll(tables, broken, name, init);
      OneKeepsRows(s, broken, name, last, names);
      forall f | f in formers && f in init ensures Done(AdoptAll(tables, broken, name, formers).tables, name, f) {
        OneElsewhere(s, broken, name, last, f);
      }
      forall n | n != name && n !in formers
        ensures var u := AdoptAll(tables, broken, name, formers);
                (n in u.tables <==> n in tables) && (n in tables ==> u.tables[n] == tables[n])
      {
        OneElsewhere(s, broken, name, last, n);
      }
    }
  }

  /** Nothing is left to do for a name that is settled. */
  lemma {:induction false} SettledNamesAreLeft(tables: Tables, broken: set<string>, name: string, formers: seq<string>)
    requires Good(StartState(tables, broken, name), broken, name)
    requires forall f :: f in formers ==> Done(tables, name, f)
    ensures AdoptAll(tables, broken, name, formers) == StartState(tables, broken, name)
  {
    if formers != [] {
      assert formers[|formers| - 1] in formers;
      SettledNamesAreLeft(tables, broken, name, formers[..|formers| - 1]);
    }
  }

  /** A second call finds nothing to do. */
  lemma SecondCallDoesNothing(tables: Tables, name: string, formers: seq<string>, names: seq<string>)
    requires Distinct(names) && name in names && forall f :: f in formers ==> f in names
    ensures var once := AdoptAll(tables, {}, name, formers).tables;
            AdoptAll(once, {}, name, formers) == StartState(once, {}, name)
  {
    AdoptionConservesRows(tables, {}, name, formers, names);
    SettledNamesAreLeft(AdoptAll(tables, {}, name, formers).tables, {}, name, formers);
  }

  // ── Where the rows end ────────────────────────────────────────────────────

  /** The one table with rows is `at`, among the names not yet dealt with, or already the new one. */
  ghost predicate OnlyHere(tables: Tables, names: set<string>, holder: string, rows: seq<Row>) {
    && holder in tables && tables[holder] == rows && rows != []
    && forall n :: n in names && n in tables && n != holder ==> tables[n] == []
  }

  /** If exactly one of the tables holds rows, they end under the new name. */
  lemma {:induction false} SoleRowsEndUnderTheNewName(tables: Tables, broken: set<string>, name: string,
                                                     formers: seq<string>, holder: string)
    requires Truthful(tables, broken)
    requires "" !in tables && holder in tables && holder in {name} + (set f | f in formers)
    requires OnlyHere(tables, {name} + (set f | f in formers), holder, tables[holder])
    ensures var s := AdoptAll(tables, broken, name, formers);
            name in s.tables && s.tables[name] == tables[holder]
  {
    SoleRowsMove(tables, broken, name, formers, {name} + (set f | f in formers), holder, tables[holder]);
  }

  /** Up to each name of the list: the rows are still where they were, or under the new name. */
  lemma {:induction false} SoleRowsMove(tables: Tables, broken: set<string>, name: string, formers: seq<string>,
                                       names: set<string>, holder: string, rows: seq<Row>)
    requires Truthful(tables, broken) && "" !in tables
    requires name in names && holder in names && forall f :: f in formers ==> f in names
    requires OnlyHere(tables, names, holder, rows)
    ensures var s := AdoptAll(tables, broken, name, formers);
            && Good(s, broken, name) && "" !in s.tables - {name}
            && (OnlyHere(s.tables, names, name, rows)
                || (holder != name && holder !in formers && OnlyHere(s.tables, names, holder, rows)))
  {
    if formers != [] {
      var init, last := formers[..|formers| - 1], formers[|formers| - 1];
      SoleRowsMove(tables, broken, name, init, names, holder, rows);
      var s := AdoptAll(tables, broken, name, init);
      assert last in names;
    }
  }

  // ── Counts that fail ──────────────────────────────────────────────────────

  /** A former name that is looked at, and is there. */
  predicate Present(tables: Tables, name: string, f: string) {
    f != "" && f != name && f in tables
  }

  /** The table that has the new name when the others are looked at: the one that has it already,
      or the first former one. */
  function Head(tables: Tables, name: string, formers: seq<string>): (h: Option<string>)
    ensures h.Some? ==> h.value in tables && (h.value == name || (h.value in formers && Present(tables, name, h.value)))
  {
    if formers == [] then (if name in tables then Some(name) else None)
    else
      var h := Head(tables, name, formers[..|formers| - 1]);
      if h.None? && Present(tables, name, formers[|formers| - 1]) then Some(formers[|formers| - 1]) else h
  }

  /** Full, and counted as empty. */
  predicate Unseen(tables: Tables, broken: set<string>, n: string) {
    n in tables && tables[n] != [] && n in broken
  }

  /** Full, and counted. */
  predicate Seen(tables: Tables, broken: set<string>, n: string) {
    n in tables && tables[n] != [] && n !in broken
  }

  /** Another former table than the head is full and counted as empty. */
  predicate OtherUnseen(tables: Tables, broken: set<string>, name: string, formers: seq<string>, h: string) {
    exists f :: f in formers && f != h && Present(tables, name, f) && Unseen(tables, broken, f)
  }

  /** Another former table than the head is full and counted. */
  predicate OtherSeen(tables: Tables, broken: set<string>, name: string, formers: seq<string>, h: string) {
    exists f :: f in formers && f != h && Present(tables, name, f) && Seen(tables, broken, f)
  }

  /** Rows are lost: with another former table that is full and counted as empty, or with a head
      that is, beside another former table that is full and counted. */
  predicate Loses(tables: Tables, broken: set<string>, name: string, formers: seq<string>) {
    var h := Head(tables, name, formers);
    h.Some? && (OtherUnseen(tables, broken, name, formers, h.value)
                || (Unseen(tables, broken, h.value) && OtherSeen(tables, broken, name, formers, h.value)))
  }

  /** This turn of the loop drops a full table. */
  predicate StepLoses(s: State, broken: set<string>, name: string, former: string) {
    Present(s.tables, name, former) && s.count.Some?
    && (Unseen(s.tables, broken, former)
        || (Seen(s.tables, broken, former) && s.count.value == 0 && name in s.tables && s.tables[name] != []))
  }

  lemma {:induction false} DropCounts(t: Tables, names: seq<string>, n: string)
    requires n in t && n in names && Distinct(names)
    ensures RowsOver(t - {n}, names) + RowsOf(t, n) == RowsOver(t, names)
    ensures t[n] != [] ==> |RowsOver(t - {n}, names)| < |RowsOver(t, names)|
  {
    RowsOverSplit(t, names, n);
    assert |multiset(t[n])| == |t[n]|;
  }

  /** The former table goes: a loss if it was full. */
  lemma DropRows(t: Tables, names: seq<string>, n: string)
    requires n in t && n in names && Distinct(names)
    ensures if t[n] == [] then RowsOver(t - {n}, names) == RowsOver(t, names)
            else |RowsOver(t - {n}, names)| < |RowsOver(t, names)|
  {
    if t[n] == [] { DropEmptyKeepsRows(t, names, n); } else { DropCounts(t, names, n); }
  }

  /** The table under the new name goes and the former one takes its place. */
  lemma SwapRows(t: Tables, names: seq<string>, name: string, former: string)
    requires name in t && former in t && name != former && name in names && former in names && Distinct(names)
    ensures var u := Renamed(t - {name}, former, name);
            if t[name] == [] then RowsOver(u, names) == RowsOver(t, names)
            else |RowsOver(u, names)| < |RowsOver(t, names)|
  {
    DropRows(t, names, name);
    RenameKeepsRows(t - {name}, names, former, name);
  }

  /** A turn keeps all rows, or it loses some. */
  lemma StepRows(s: State, broken: set<string>, name: string, former: string, names: seq<string>)
    requires name in names && former in names && Distinct(names) && (s.count.Some? <==> name in s.tables)
    ensures var before, after := RowsOver(s.tables, names), RowsOver(AdoptOne(s, broken, name, former).tables, names);
            if StepLoses(s, broken, name, former) then |after| < |before| else after == before
  {
    var u := AdoptOne(s, broken, name, former);
    if Present(s.tables, name, former) {
      var held := RowCount(s.tables, broken, former);
      if s.count.None? {
        assert u.tables == Renamed(s.tables, former, name);
        RenameKeepsRows(s.tables, names, former, name);
      } else if held == 0 {
        assert u.tables == s.tables - {former};
        assert StepLoses(s, broken, name, former) <==> s.tables[former] != [];
        DropRows(s.tables, names, former);
      } else if s.count.value == 0 {
        assert u.tables == Renamed(s.tables - {name}, former, name);
        assert StepLoses(s, broken, name, former) <==> s.tables[name] != [];
        SwapRows(s.tables, names, name, former);
      }
    }
  }

  /** What the loop has done with the tables so far. */
  ghost predicate Tracked(tables: Tables, broken: set<string>, name: string, formers: seq<string>, s: State) {
    var h := Head(tables, name, formers);
    && (s.count.Some? <==> name in s.tables) && (h.Some? <==> s.count.Some?)
    && (h.None? ==> s.tables == tables)
    && (forall n :: n != name && n !in formers ==>
          (n in s.tables <==> n in tables) && (n in tables ==> s.tables[n] == tables[n]))
    && (forall f :: f in formers && f != "" && f != name && f in s.tables ==>
          f in tables && s.tables[f] == tables[f] && h != Some(f) && Seen(tables, broken, f))
    && (h.Some? ==>
          (s.count.value == 0 <==>
             RowCount(tables, broken, h.value) == 0 && !OtherSeen(tables, broken, name, formers, h.value))
          && (s.count.value == 0 ==> s.tables[name] == tables[h.value]))
  }

  lemma {:induction false} NoHeadNonePresent(tables: Tables, name: string, formers: seq<string>)
    requires Head(tables, name, formers).None?
    ensures name !in tables && forall f :: f in formers ==> !Present(tables, name, f)
  {
    if formers != [] {
      NoHeadNonePresent(tables, name, formers[..|formers| - 1]);
    }
  }

  /** The turn for a name that is looked at finds the table as it was. */
  lemma FoundAsItWas(tables: Tables, broken: set<string>, name: string, init: seq<string>, s: State, last: string)
    requires Tracked(tables, broken, name, init, s) && Present(s.tables, name, last)
    ensures Present(tables, name, last) && s.tables[last] == tables[last]
    ensures Head(tables, name, init) != Some(last)
  {
  }

  /** A present name that the turn does not find has been looked at before. */
  lemma NotFoundIsOld(tables: Tables, broken: set<string>, name: string, init: seq<string>, s: State, last: string)
    requires Tracked(tables, broken, name, init, s) && Present(tables, name, last) && !Present(s.tables, name, last)
    ensures last in init && Head(tables, name, init).Some?
  {
    if Head(tables, name, init).None? { NoHeadNonePresent(tables, name, init); }
  }

  lemma OthersSnoc(tables: Tables, broken: set<string>, name: string, init: seq<string>, last: string, h: string)
    ensures OtherUnseen(tables, broken, name, init + [last], h) <==>
              OtherUnseen(tables, broken, name, init, h)
              || (last != h && Present(tables, name, last) && Unseen(tables, broken, last))
    ensures OtherSeen(tables, broken, name, init + [last], h) <==>
              OtherSeen(tables, broken, name, init, h)
              || (last != h && Present(tables, name, last) && Seen(tables, broken, last))
  {
    assert forall f :: f in init + [last] <==> f in init || f == last;
  }

  lemma HeadSnoc(tables: Tables, name: string, init: seq<string>, last: string)
    ensures Head(tables, name, init + [last]) ==
              if Head(tables, name, init).None? && Present(tables, name, last) then Some(last)
              else Head(tables, name, init)
  {
    assert (init + [last])[..|init + [last]| - 1] == init;
  }

  lemma NoOthersWithoutHead(tables: Tables, broken: set<string>, name: string, init: seq<string>, h: string)
    requires Head(tables, name, init).None?
    ensures !OtherUnseen(tables, broken, name, init, h) && !OtherSeen(tables, broken, name, init, h)
  {
    NoHeadNonePresent(tables, name, init);
  }

  /** The first former table takes the new name. */
  lemma TrackFirst(tables: Tables, broken: set<string>, name: string, init: seq<string>, s: State, last: string)
    requires Tracked(tables, broken, name, init, s) && Present(s.tables, name, last) && s.count.None?
    ensures Tracked(tables, broken, name, init + [last], AdoptOne(s, broken, name, last))
  {
    HeadSnoc(tables, name, init, last);
    NoHeadNonePresent(tables, name, init);
    NoOthersWithoutHead(tables, broken, name, init, last);
    OthersSnoc(tables, broken, name, init, last, last);
  }

  /** A former table counted as empty goes. */
  lemma TrackDrop(tables: Tables, broken: set<string>, name: string, init: seq<string>, s: State, last: string)
    requires Tracked(tables, broken, name, init, s) && Present(s.tables, name, last) && s.count.Some?
    requires RowCount(s.tables, broken, last) == 0
    ensures Tracked(tables, broken, name, init + [last], AdoptOne(s, broken, name, last))
  {
    FoundAsItWas(tables, broken, name, init, s, last);
    HeadSnoc(tables, name, init, last);
    OthersSnoc(tables, broken, name, init, last, Head(tables, name, init).value);
  }

  /** A former table that is full takes the place of one counted as empty. */
  lemma TrackSwap(tables: Tables, broken: set<string>, name: string, init: seq<string>, s: State, last: string)
    requires Tracked(tables, broken, name, init, s) && Present(s.tables, name, last) && s.count.Some?
    requires RowCount(s.tables, broken, last) > 0 && s.count.value == 0
    ensures Tracked(tables, broken, name, init + [last], AdoptOne(s, broken, name, last))
  {
    FoundAsItWas(tables, broken, name, init, s, last);
    HeadSnoc(tables, name, init, last);
    OthersSnoc(tables, broken, name, init, last, Head(tables, name, init).value);
  }

  /** Both are full and left alone. */
  lemma TrackLeave(tables: Tables, broken: set<string>, name: string, init: seq<string>, s: State, last: string)
    requires Tracked(tables, broken, name, init, s) && Present(s.tables, name, last) && s.count.Some?
    requires RowCount(s.tables, broken, last) > 0 && s.count.value != 0
    ensures Tracked(tables, broken, name, init + [last], AdoptOne(s, broken, name, last))
  {
    FoundAsItWas(tables, broken, name, init, s, last);
    HeadSnoc(tables, name, init, last);
    OthersSnoc(tables, broken, name, init, last, Head(tables, name, init).value);
  }

  /** A name not found is no table, or an old one. */
  lemma TrackSkip(tables: Tables, broken: set<string>, name: string, init: seq<string>, s: State, last: string)
    requires Tracked(tables, broken, name, init, s) && !Present(s.tables, name, last)
    ensures Tracked(tables, broken, name, init + [last], AdoptOne(s, broken, name, last))
  {
    HeadSnoc(tables, name, init, last);
    if Present(tables, name, last) { NotFoundIsOld(tables, broken, name, init, s, last); }
    if Head(tables, name, init).Some? {
      OthersSnoc(tables, broken, name, init, last, Head(tables, name, init).value);
    }
  }

  lemma TrackOne(tables: Tables, broken: set<string>, name: string, init: seq<string>, s: State, last: string)
    requires Tracked(tables, broken, name, init, s)
    ensures Tracked(tables, broken, name, init + [last], AdoptOne(s, broken, name, last))
  {
    if !Present(s.tables, name, last) {
      TrackSkip(tables, broken, name, init, s, last);
    } else if s.count.None? {
      TrackFirst(tables, broken, name, init, s, last);
    } else if RowCount(s.tables, broken, last) == 0 {
      TrackDrop(tables, broken, name, init, s, last);
    } else if s.count.value == 0 {
      TrackSwap(tables, broken, name, init, s, last);
    } else {
      TrackLeave(tables, broken, name, init, s, last);
    }
  }

  /** One name more loses rows exactly when its turn does, or rows were lost before. */
  lemma LosesSnoc(tables: Tables, broken: set<string>, name: string, init: seq<string>, s: State, last: string)
    requires Tracked(tables, broken, name, init, s)
    ensures Loses(tables, broken, name, init + [last])
       <==> Loses(tables, broken, name, init) || StepLoses(s, broken, name, last)
  {
    HeadSnoc(tables, name, init, last);
    var h := Head(tables, name, init);
    if h.None? {
      NoOthersWithoutHead(tables, broken, name, init, last);
      OthersSnoc(tables, broken, name, init, last, last);
    } else {
      OthersSnoc(tables, broken, name, init, last, h.value);
      if Present(s.tables, name, last) {
        FoundAsItWas(tables, broken, name, init, s, last);
      } else if Present(tables, name, last) {
        NotFoundIsOld(tables, broken, name, init, s, last);
      }
    }
  }

  lemma {:induction false} RowsKept(tables: Tables, broken: set<string>, name: string,
                                   formers: seq<string>, names: seq<string>)
    requires Distinct(names) && name in names && forall f :: f in formers ==> f in names
    ensures var s := AdoptAll(tables, broken, name, formers);
            && Tracked(tables, broken, name, formers, s)
            && (if Loses(tables, broken, name, formers) then |RowsOver(s.tables, names)| < |RowsOver(tables, names)|
                else RowsOver(s.tables, names) == RowsOver(tables, names))
  {
    if formers != [] {
      var init, last := formers[..|formers| - 1], formers[|formers| - 1];
      assert formers == init + [last] && last in formers;
      RowsKept(tables, broken, name, init, names);
      var s := AdoptAll(tables, broken, name, init);
      TrackOne(tables, broken, name, init, s, last);
      LosesSnoc(tables, broken, name, init, s, last);
      StepRows(s, broken, name, last, names);
    }
  }

  /** For any list of former names and any tables whose count fails: the rows are all kept exactly
      when no former table besides the head is full and counted as empty, and a head that is does
      not stand beside a former table that is full and counted. Otherwise rows are lost. */
  lemma RowsKeptExactly(tables: Tables, broken: set<string>, name: string, formers: seq<string>, names: seq<string>)
    requires Distinct(names) && name in names && forall f :: f in formers ==> f in names
    ensures RowsOver(AdoptAll(tables, broken, name, formers).tables, names) == RowsOver(tables, names)
       <==> !Loses(tables, broken, name, formers)
  {
    RowsKept(tables, broken, name, formers, names);
  }

  // ── The loop ──────────────────────────────────────────────────────────────

  class Database {
    var tables: Tables

    constructor (stored: Tables)
      ensures tables == stored
    {
      tables := stored;
    }

    method Drop(n: string)
      modifies this
      ensures tables == old(tables) - {n}
    {
      tables := tables - {n};
    }

    method Rename(was: string, becomes: string)
      requires was in tables
      modifies this
      ensures tables == Renamed(old(tables), was, becomes)
    {
      tables := (tables - {was})[becomes := tables[was]];
    }

    method AdoptFormer(name: string, formers: seq<string>, broken: set<string>) returns (adopted: bool)
      modifies this
      ensures tables == AdoptAll(old(tables), broken, name, formers).tables
      ensures adopted == AdoptAll(old(tables), broken, name, formers).adopted
      ensures Truthful(old(tables), broken) ==>
                forall names :: Distinct(names) && name in names && (forall f :: f in formers ==> f in names) ==>
                  RowsOver(tables, names) == RowsOver(old(tables), names)
    {
      ghost var before := tables;
      var count := if name in tables then Some(RowCount(tables, broken, name)) else None;
      adopted := false;
      for i := 0 to |formers|
        invariant State(tables, count, adopted) == AdoptAll(before, broken, name, formers[..i])
      {
        assert formers[..i + 1][..i] == formers[..i];
        var former := formers[i];
        if former == "" || former == name || former !in tables { continue; }
        var held := RowCount(tables, broken, former);
        if count.None? {
          Rename(former, name);
          count, adopted := Some(held), true;
        } else if held == 0 {
          Drop(former);
        } else if count.value == 0 {
          Drop(name);
          Rename(former, name);
          count, adopted := Some(held), true;
        }
      }
      assert formers[..|formers|] == formers;
      if Truthful(before, broken) {
        forall names | Distinct(names) && name in names && forall f :: f in formers ==> f in names
          ensures RowsOver(tables, names) == RowsOver(before, names)
        {
          AdoptionConservesRows(before, broken, name, formers, names);
        }
      }
    }
  }
}
