/**
  Values at nested paths of a configuration: setting one, asking whether it is there, and the
  lookup that goes on past a missing segment.
*/
module ConfigPath {
  import opened Common
  import opened SecretTree

  // ── Lookups ───────────────────────────────────────────────────────────────

  function Child(x: Json, key: string): Option<Json> {
    if x.Dict? && key in x.fields then Some(x.fields[key]) else None
  }

  /** Segment by segment, nothing skipped. */
  function Strict(x: Json, path: seq<string>): Option<Json> {
    if path == [] then Some(x)
    else match Child(x, path[0]) case None => None case Some(y) => Strict(y, path[1..])
  }

  /** The search of `get_conf`: a segment that is not there is passed over at the same level. */
  function Greedy(x: Json, path: seq<string>): Option<Json> {
    if path == [] then None
    else match Child(x, path[0])
      case None => Greedy(x, path[1..])
      case Some(y) => if |path| == 1 then Some(y) else Greedy(y, path[1..])
  }

  // ── Setting ───────────────────────────────────────────────────────────────

  /** The value under its path, as nested dicts. */
  function Nested(path: seq<string>, v: Json): Json {
    if path == [] then v else Dict(map[path[0] := Nested(path[1..], v)])
  }

  /** Overrides laid over a source: dicts are merged, anything else replaces. */
  function Update(source: Json, over: Json): Json
    requires over.Dict?
    decreases over
  {
    if !source.Dict? then (if over.fields == map[] then source else over)
    else Dict(map k | k in source.fields.Keys + over.fields.Keys ::
      if k !in over.fields then source.fields[k]
      else if over.fields[k].Dict?
      then Update(if k in source.fields then source.fields[k] else Dict(map[]), over.fields[k])
      else over.fields[k])
  }

  function SetConf(x: Json, path: seq<string>, v: Json): Json
    requires path != []
  {
    Update(x, Nested(path, v))
  }

  /** Laid over nothing, overrides are themselves. */
  lemma {:induction false} UpdateNothing(over: Json)
    requires over.Dict?
    ensures Update(Dict(map[]), over) == over
  {
    forall k | k in over.fields && over.fields[k].Dict?
      ensures Update(Dict(map[]), over.fields[k]) == over.fields[k]
    {
      UpdateNothing(over.fields[k]);
    }
    assert Update(Dict(map[]), over).fields == over.fields;
  }

  /** One segment of a set: the child at its head is set, the other children stay. */
  lemma SetChild(x: Json, path: seq<string>, v: Json, key: string)
    requires path != []
    ensures SetConf(x, path, v).Dict?
    ensures Child(SetConf(x, path, v), key) ==
              if key != path[0] then Child(x, key)
              else if |path| > 1
              then Some(SetConf(if Child(x, key).Some? then Child(x, key).value else Dict(map[]), path[1..], v))
              else if v.Dict?
              then Some(Update(if Child(x, key).Some? then Child(x, key).value else Dict(map[]), v))
              else Some(v)
  {
    var over := Nested(path, v).fields;
    assert over == map[path[0] := Nested(path[1..], v)] && path[0] in over;
    if !x.Dict? && Nested(path[1..], v).Dict? {
      UpdateNothing(Nested(path[1..], v));
    }
  }

  /** What was set is there, and a lookup without skipping finds it; a dict is merged into what
      was there before. */
  lemma {:induction false} SetThenThere(x: Json, path: seq<string>, v: Json)
    requires path != [] && !v.Dict?
    ensures Strict(SetConf(x, path, v), path) == Some(v)
    decreases |path|
  {
    SetChild(x, path, v, path[0]);
    if |path| > 1 {
      SetThenThere(if Child(x, path[0]).Some? then Child(x, path[0]).value else Dict(map[]), path[1..], v);
    }
  }

  /** Every path that is neither above nor below the one that is set finds what it found before,
      also when a scalar on the way was replaced by a dict. */
  lemma {:induction false} SetElsewhereUnchanged(x: Json, path: seq<string>, v: Json, other: seq<string>)
    requires path != [] && !(path <= other) && !(other <= path)
    ensures Strict(SetConf(x, path, v), other) == Strict(x, other)
    decreases |path|
  {
    SetChild(x, path, v, other[0]);
    if other[0] == path[0] {
      var below := if Child(x, path[0]).Some? then Child(x, path[0]).value else Dict(map[]);
      assert |path| > 1 && |other| > 1;
      assert path[1..] <= other[1..] ==> path <= other;
      assert other[1..] <= path[1..] ==> other <= path;
      SetElsewhereUnchanged(below, path[1..], v, other[1..]);
    }
  }

  /** Setting twice is setting the second time. */
  lemma {:induction false} SetTwice(x: Json, path: seq<string>, v: Json, w: Json)
    requires path != [] && !v.Dict? && !w.Dict?
    ensures SetConf(SetConf(x, path, v), path, w) == SetConf(x, path, w)
    decreases |path|
  {
    var once, twice, direct := SetConf(x, path, v), SetConf(SetConf(x, path, v), path, w), SetConf(x, path, w);
    SetChild(x, path, v, path[0]);
    if |path| > 1 {
      SetTwice(if Child(x, path[0]).Some? then Child(x, path[0]).value else Dict(map[]), path[1..], v, w);
    }
    forall k ensures Child(twice, k) == Child(direct, k) {
      SetChild(x, path, v, k);
      SetChild(once, path, w, k);
      SetChild(x, path, w, k);
    }
    SameChildren(twice, direct);
  }

  lemma SameChildren(a: Json, b: Json)
    requires a.Dict? && b.Dict? && forall k :: Child(a, k) == Child(b, k)
    ensures a == b
  {
    forall k ensures k in a.fields <==> k in b.fields {
      assert Child(a, k) == Child(b, k);
    }
    forall k | k in a.fields ensures a.fields[k] == b.fields[k] {
      assert Child(a, k) == Child(b, k);
    }
    assert a.fields == b.fields;
  }

  // ── The lookup that skips ─────────────────────────────────────────────────

  /** Where the path is there, skipping changes nothing. */
  lemma {:induction false} GreedyFindsWhatIsThere(x: Json, path: seq<string>)
    requires path != [] && Strict(x, path).Some?
    ensures Greedy(x, path) == Strict(x, path)
    decreases |path|
  {
    if |path| > 1 { GreedyFindsWhatIsThere(Child(x, path[0]).value, path[1..]); }
  }

  /** The segments the search does not pass over. */
  function Followed(x: Json, path: seq<string>): seq<string> {
    if path == [] then []
    else match Child(x, path[0])
      case None => Followed(x, path[1..])
      case Some(y) => [path[0]] + Followed(y, path[1..])
  }

  /** What the search returns is what is strictly at the segments it followed, and it returns
      something exactly when the last segment is one of them. */
  lemma {:induction false} GreedyIsStrictOnWhatItFollowed(x: Json, path: seq<string>)
    requires path != []
    ensures Strict(x, Followed(x, path)).Some?
    ensures Greedy(x, path).Some? ==> Greedy(x, path) == Strict(x, Followed(x, path))
    ensures |Followed(x, path)| <= |path| && (|Followed(x, path)| == |path| <==> Strict(x, path).Some?)
    ensures Greedy(x, path).Some? <==> Child(Before(x, path), path[|path| - 1]).Some?
    decreases |path|
  {
    match Child(x, path[0])
    case None => if |path| > 1 { GreedyIsStrictOnWhatItFollowed(x, path[1..]); }
    case Some(y) =>
      if |path| > 1 {
        GreedyIsStrictOnWhatItFollowed(y, path[1..]);
        assert ([path[0]] + Followed(y, path[1..]))[1..] == Followed(y, path[1..]);
      } else {
        assert Followed(y, []) == [] && [path[0]] + [] == path;
      }
  }

  /** Where the search stands when it comes to the last segment. */
  function Before(x: Json, path: seq<string>): Json
    requires path != []
  {
    if |path| == 1 then x
    else match Child(x, path[0]) case None => Before(x, path[1..]) case Some(y) => Before(y, path[1..])
  }

  /** So the search can find a value for a path that is not there. */
  lemma GreedyFindsWhatIsNotThere()
    ensures exists x, path :: path != [] && Strict(x, path) == None && Greedy(x, path) == Some(Str("OK"))
  {
    var x := Dict(map["level1" := Str("OK")]);
    var path := ["missing", "level1"];
    assert path[1..] == ["level1"];
    assert Strict(x, path) == None && Greedy(x, path) == Some(Str("OK"));
  }

  // ── The object ────────────────────────────────────────────────────────────

  /** Overrides as they are laid over: key by key, a source that is no dict replaced by the first. */
  method UpdateInPlace(source: Json, over: Json) returns (r: Json)
    requires over.Dict?
    ensures r == Update(source, over)
    decreases over
  {
    var out := source;
    var todo := over.fields.Keys;
    ghost var before := if source.Dict? then source.fields else map[];
    ghost var done := if over.fields == map[] then map[] else Update(source, over).fields;
    while todo != {}
      invariant todo <= over.fields.Keys
      invariant if todo == over.fields.Keys then out == source else out.Dict?
      invariant out.Dict? ==> out.fields.Keys == before.Keys + (over.fields.Keys - todo)
      invariant out.Dict? ==> forall k :: k in out.fields ==>
                  out.fields[k] == if k in over.fields && k !in todo then done[k] else before[k]
      decreases todo
    {
      var key :| key in todo;
      var val := over.fields[key];
      if out.Dict? {
        if val.Dict? {
          var inner := UpdateInPlace(if key in out.fields then out.fields[key] else Dict(map[]), val);
          if !source.Dict? { UpdateNothing(val); }
          val := inner;
        }
        out := Dict(out.fields[key := val]);
      } else {
        out := Dict(map[key := val]);
      }
      todo := todo - {key};
    }
    if over.fields != map[] {
      assert out.fields == done;
    }
    r := out;
  }

  class Control {
    var data: Json
    var dirty: bool

    constructor (initial: Json)
      ensures data == initial && dirty
    {
      data, dirty := initial, true;
    }

    method Set(path: seq<string>, v: Json) returns (ok: bool)
      modifies this
      ensures ok <==> path != []
      ensures if ok then data == SetConf(old(data), path, v) && dirty else data == old(data) && dirty == old(dirty)
      ensures ok && !v.Dict? ==> Strict(data, path) == Some(v)
      ensures ok ==> forall other :: !(path <= other) && !(other <= path) ==>
                Strict(data, other) == Strict(old(data), other)
    {
      if path == [] { return false; }
      var updated := UpdateInPlace(data, Nested(path, v));
      if !v.Dict? { SetThenThere(data, path, v); }
      forall other | !(path <= other) && !(other <= path) ensures Strict(updated, other) == Strict(data, other) {
        SetElsewhereUnchanged(data, path, v, other);
      }
      data, dirty := updated, true;
      return true;
    }

    method Exists(path: seq<string>) returns (found: bool)
      ensures found <==> path != [] && Strict(data, path).Some?
    {
      var keys, at := path, data;
      while keys != []
        invariant path != [] && keys != [] ==> Strict(at, keys) == Strict(data, path)
        invariant keys == [] ==> path == []
        decreases |keys|
      {
        var target := keys[0];
        keys := keys[1..];
        if Child(at, target).None? { return false; }
        if keys == [] { return true; }
        at := Child(at, target).value;
      }
      found := false;
    }

    /** The value found, or the default where there is none or a null. */
    method Get(path: seq<string>, default_: Json) returns (v: Json)
      ensures v == match Greedy(data, path) case Some(y) => (if y == Null then default_ else y) case None => default_
      ensures path != [] && Strict(data, path).Some? && Strict(data, path).value != Null ==>
                Some(v) == Strict(data, path)
    {
      if path != [] && Strict(data, path).Some? { GreedyFindsWhatIsThere(data, path); }
      var keys, at := path, data;
      var found: Option<Json> := None;
      while keys != []
        invariant Greedy(at, keys) == Greedy(data, path) && found == None
        decreases |keys|
      {
        var target := keys[0];
        keys := keys[1..];
        if Child(at, target).Some? {
          if keys == [] {
            found := Child(at, target);
            break;
          }
          at := Child(at, target).value;
        }
      }
      v := if found.Some? && found.value != Null then found.value else default_;
    }

    /** What is set can be read back, unless it is null. */
    method SetAndGet(path: seq<string>, v: Json, default_: Json) returns (back: Json)
      requires path != [] && !v.Dict? && v != Null
      modifies this
      ensures back == v
    {
      var _ := Set(path, v);
      back := Get(path, default_);
    }
  }
}
