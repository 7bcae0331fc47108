/** Shared vocabulary: optional values and a few facts about sequences of names. */
module Common {
  datatype Option<+T> = None | Some(value: T)

  /** No name appears twice. */
  ghost predicate Distinct<T>(s: seq<T>) {
    forall i, j :: 0 <= i < j < |s| ==> s[i] != s[j]
  }

  /** The names of `s` that lie in `keep`, in the order of `s`. */
  function FilterIn(s: seq<string>, keep: set<string>): (r: seq<string>)
    ensures forall n :: n in r <==> n in s && n in keep
  {
    if s == [] then []
    else FilterIn(s[..|s| - 1], keep) + if s[|s| - 1] in keep then [s[|s| - 1]] else []
  }

  lemma {:induction false} FilterInConcat(a: seq<string>, b: seq<string>, keep: set<string>)
    ensures FilterIn(a + b, keep) == FilterIn(a, keep) + FilterIn(b, keep)
  {
    if b == [] {
      assert a + b == a;
    } else {
      var init, last := b[..|b| - 1], b[|b| - 1];
      assert (a + b)[..|a + b| - 1] == a + init && (a + b)[|a + b| - 1] == last;
      FilterInConcat(a, init, keep);
      var tail := if last in keep then [last] else [];
      Regroup(FilterIn(a, keep), FilterIn(init, keep), tail);
    }
  }

  lemma Regroup(a: seq<string>, b: seq<string>, c: seq<string>)
    ensures (a + b) + c == a + (b + c)
  {
  }

  lemma {:induction false} FilterInAll(s: seq<string>, keep: set<string>)
    requires forall n :: n in s ==> n in keep
    ensures FilterIn(s, keep) == s
  {
    if s != [] {
      var init, last := s[..|s| - 1], s[|s| - 1];
      assert s == init + [last] && last in keep;
      FilterInAll(init, keep);
    }
  }

  lemma {:induction false} FilterInNone(s: seq<string>, keep: set<string>)
    requires forall n :: n in s ==> n !in keep
    ensures FilterIn(s, keep) == []
  {
    if s != [] { FilterInNone(s[..|s| - 1], keep); }
  }

  /** Filtering looks only at membership of the names that occur. */
  lemma {:induction false} FilterInAgree(s: seq<string>, a: set<string>, b: set<string>)
    requires forall n :: n in s ==> (n in a <==> n in b)
    ensures FilterIn(s, a) == FilterIn(s, b)
  {
    if s != [] { FilterInAgree(s[..|s| - 1], a, b); }
  }
}
