/**
  The configuration manager as an object: the two homes, the cache of what they resolve to, and
  what each thread last read. Its loops are proved against the functions of `ConfigManager`.
*/
module ConfigFacade {
  import opened Common
  import opened SecretTree
  import opened ConfigManager

  // ── The loops ─────────────────────────────────────────────────────────────

  method FileLeaves(cfg: Config) returns (out: Leaves)
    ensures out == LeavesOf(cfg)
  {
    out := map[];
    var sections := cfg.Keys;
    while sections != {}
      invariant sections <= cfg.Keys
      invariant forall p :: p in out <==> p in LeavesOf(cfg) && p.section !in sections
      invariant forall p :: p in out ==> out[p] == LeavesOf(cfg)[p]
      decreases sections
    {
      var s :| s in sections;
      sections := sections - {s};
      if cfg[s].Dict? {
        var fields := cfg[s].fields.Keys;
        while fields != {}
          invariant fields <= cfg[s].fields.Keys
          invariant forall p :: p in out <==>
                      p in LeavesOf(cfg) && p.section !in sections && (p.section == s ==> p.field !in fields)
          invariant forall p :: p in out ==> out[p] == LeavesOf(cfg)[p]
          decreases fields
        {
          var f :| f in fields;
          fields := fields - {f};
          out := out[Path(s, f) := cfg[s].fields[f]];
        }
      }
    }
  }

  /** A leaf set in a config whose section, if there, is a dict. */
  function PutLeaf(cfg: Config, p: Path, v: Json): Config {
    cfg[p.section := Dict(FieldsOf(cfg, p.section)[p.field := v])]
  }

  lemma LeafOfPut(cfg: Config, p: Path, v: Json, q: Path)
    requires p.section in cfg ==> cfg[p.section].Dict?
    ensures q in LeavesOf(PutLeaf(cfg, p, v)) <==> q == p || q in LeavesOf(cfg)
    ensures q in LeavesOf(PutLeaf(cfg, p, v)) ==>
              LeavesOf(PutLeaf(cfg, p, v))[q] == if q == p then v else LeavesOf(cfg)[q]
  {
    assert Path(p.section, p.field) == p && Path(q.section, q.field) == q;
  }

  lemma LeavesOfPut(cfg: Config, p: Path, v: Json)
    requires p.section in cfg ==> cfg[p.section].Dict?
    ensures LeavesOf(PutLeaf(cfg, p, v)) == LeavesOf(cfg)[p := v]
  {
    forall q ensures q in LeavesOf(PutLeaf(cfg, p, v)) <==> q == p || q in LeavesOf(cfg) {
      LeafOfPut(cfg, p, v, q);
    }
    forall q | q in LeavesOf(PutLeaf(cfg, p, v))
      ensures LeavesOf(PutLeaf(cfg, p, v))[q] == if q == p then v else LeavesOf(cfg)[q]
    {
      LeafOfPut(cfg, p, v, q);
    }
  }

  function Sections(ps: set<Path>): set<string> {
    set p | p in ps :: p.section
  }

  /** The leaves of the file with these DB leaves put in. */
  ghost predicate HoldsLeaves(now: Leaves, file: Leaves, db: Leaves, placed: set<Path>) {
    && now.Keys == file.Keys + placed && placed <= db.Keys
    && (forall p :: p in file ==> now[p] == file[p])
    && (forall p :: p in placed ==> now[p] == db[p])
  }

  lemma LeavesOneMore(now: Leaves, file: Leaves, db: Leaves, placed: set<Path>, p: Path)
    requires HoldsLeaves(now, file, db, placed) && p in db && p !in file
    ensures HoldsLeaves(now[p := db[p]], file, db, placed + {p})
  {
  }

  /** The sections of the file with these leaves put in. */
  ghost predicate HoldsSections(now: Config, file: Config, placed: set<Path>) {
    && now.Keys == file.Keys + Sections(placed)
    && (forall s :: s in now ==> if s in file && !file[s].Dict? then now[s] == file[s] else now[s].Dict?)
    && (forall s :: s in Sections(placed) && s in file ==> file[s].Dict?)
  }

  lemma SectionsOneMore(now: Config, file: Config, placed: set<Path>, p: Path, v: Json)
    requires HoldsSections(now, file, placed) && (p.section in file ==> file[p.section].Dict?)
    ensures HoldsSections(PutLeaf(now, p, v), file, placed + {p})
  {
    assert Sections(placed + {p}) == Sections(placed) + {p.section};
  }

  lemma MergeHasThoseSections(now: Config, file: Config, db: Leaves)
    requires HoldsSections(now, file, FromDb(db, file))
    ensures now.Keys == Merge(db, file).Keys
    ensures forall s :: s in now ==> (now[s].Dict? <==> Merge(db, file)[s].Dict?)
                                     && (!now[s].Dict? ==> now[s] == Merge(db, file)[s])
  {
    assert Sections(FromDb(db, file)) == set p | p in FromDb(db, file) :: p.section;
  }

  lemma HeldLeavesAreFixed(a: Leaves, b: Leaves, file: Leaves, db: Leaves, placed: set<Path>)
    requires HoldsLeaves(a, file, db, placed) && HoldsLeaves(b, file, db, placed)
    ensures a == b
  {
    forall p | p in a ensures a[p] == b[p] {
      assert p in file || p in placed;
    }
  }

  lemma MergeHasThoseLeaves(db: Leaves, file: Config)
    requires Resolvable(db, file)
    ensures HoldsLeaves(LeavesOf(Merge(db, file)), LeavesOf(file), db, FromDb(db, file))
  {
    LeavesOfMerge(db, file);
  }

  lemma AllPlacedIsMerge(now: Config, file: Config, db: Leaves)
    requires HoldsLeaves(LeavesOf(now), LeavesOf(file), db, FromDb(db, file))
    requires HoldsSections(now, file, FromDb(db, file))
    ensures Resolvable(db, file) && now == Merge(db, file)
  {
    assert Resolvable(db, file) by {
      forall p | p in FromDb(db, file) && p.section in file ensures file[p.section].Dict? {
        assert p.section in Sections(FromDb(db, file));
      }
    }
    MergeHasThoseLeaves(db, file);
    HeldLeavesAreFixed(LeavesOf(now), LeavesOf(Merge(db, file)), LeavesOf(file), db, FromDb(db, file));
    MergeHasThoseSections(now, file, db);
    SameConfig(now, Merge(db, file));
  }

  lemma ScalarInTheWay(now: Config, file: Config, db: Leaves, placed: set<Path>, p: Path)
    requires HoldsSections(now, file, placed) && p in FromDb(db, file)
    ensures p.section in now && !now[p.section].Dict? ==> !Resolvable(db, file)
    ensures (p.section in now ==> now[p.section].Dict?) ==> (p.section in file ==> file[p.section].Dict?)
  {
  }

  method PutOne(cfg: Config, file: Config, ghost leaves: Leaves, db: Leaves, ghost placed: set<Path>, p: Path)
    returns (out: Config)
    requires HoldsLeaves(LeavesOf(cfg), leaves, db, placed) && HoldsSections(cfg, file, placed)
    requires p in db && p !in leaves && (p.section in cfg ==> cfg[p.section].Dict?)
    requires p.section in file ==> file[p.section].Dict?
    ensures HoldsLeaves(LeavesOf(out), leaves, db, placed + {p}) && HoldsSections(out, file, placed + {p})
  {
    out := PutLeaf(cfg, p, db[p]);
    assert LeavesOf(out) == LeavesOf(cfg)[p := db[p]] by { LeavesOfPut(cfg, p, db[p]); }
    LeavesOneMore(LeavesOf(cfg), leaves, db, placed, p);
    SectionsOneMore(cfg, file, placed, p, db[p]);
  }

  /** The overlay after the paths in `seen`. */
  ghost predicate Overlaid(cfg: Config, locked: set<Path>, file: Config, db: Leaves, seen: set<Path>) {
    && HoldsLeaves(LeavesOf(cfg), LeavesOf(file), db, FromDb(db, file) * seen)
    && HoldsSections(cfg, file, FromDb(db, file) * seen)
    && locked == LeavesOf(file).Keys * seen
  }

  lemma NothingOverlaid(file: Config, db: Leaves)
    ensures Overlaid(file, {}, file, db, {})
  {
    assert FromDb(db, file) * {} == {} && Sections({}) == {};
  }

  lemma AllOverlaid(cfg: Config, locked: set<Path>, file: Config, db: Leaves, paths: set<Path>)
    requires Overlaid(cfg, locked, file, db, paths) && db.Keys <= paths
    ensures Resolve(db, file) == Some(cfg) && locked == LeavesOf(file).Keys * paths
  {
    assert FromDb(db, file) * paths == FromDb(db, file);
    AllPlacedIsMerge(cfg, file, db);
  }

  lemma SeenOneMore(of: set<Path>, seen: set<Path>, p: Path)
    ensures of * (seen + {p}) == if p in of then of * seen + {p} else of * seen
  {
  }

  /** One path of the overlay; not `ok` where the original raises. */
  method OverlayOne(cfg: Config, locked: set<Path>, file: Config, leaves: Leaves, db: Leaves,
                    ghost seen: set<Path>, p: Path)
    returns (ok: bool, out: Config, more: set<Path>)
    requires leaves == LeavesOf(file) && (p in db || p in leaves)
    requires Overlaid(cfg, locked, file, db, seen)
    ensures if ok then Overlaid(out, more, file, db, seen + {p}) else !Resolvable(db, file)
  {
    ghost var from := FromDb(db, file);
    SeenOneMore(from, seen, p);
    SeenOneMore(leaves.Keys, seen, p);
    ok, out, more := true, cfg, locked;
    if p in leaves {
      more := locked + {p};
    } else if p.section !in FILE_ONLY_SECTIONS {
      ScalarInTheWay(cfg, file, db, from * seen, p);
      if p.section in cfg && !cfg[p.section].Dict? {
        ok := false;
      } else {
        out := PutOne(cfg, file, leaves, db, from * seen, p);
      }
    }
  }

  /** The overlay after `seen`, or a leaf that makes it raise. */
  ghost predicate OverlaidOrNot(ok: bool, cfg: Config, locked: set<Path>, file: Config, db: Leaves, seen: set<Path>) {
    if ok then Overlaid(cfg, locked, file, db, seen) else !Resolvable(db, file)
  }

  lemma OneLess(seen: set<Path>, todo: set<Path>, p: Path)
    requires p in todo
    ensures (seen + {p}) + (todo - {p}) == seen + todo
  {
  }

  method OverlayNext(cfg: Config, locked: set<Path>, file: Config, leaves: Leaves, db: Leaves,
                     ghost seen: set<Path>, todo: set<Path>)
    returns (ok: bool, out: Config, more: set<Path>, ghost now: set<Path>, rest: set<Path>)
    requires leaves == LeavesOf(file) && todo != {} && forall p :: p in todo ==> p in db || p in leaves
    requires OverlaidOrNot(true, cfg, locked, file, db, seen)
    ensures rest < todo && now + rest == seen + todo
    ensures OverlaidOrNot(ok, out, more, file, db, now)
  {
    var p :| p in todo;
    ok, out, more := OverlayOne(cfg, locked, file, leaves, db, seen, p);
    now, rest := seen + {p}, todo - {p};
    OneLess(seen, todo, p);
  }

  method OverlayAll(file: Config, leaves: Leaves, db: Leaves, paths: set<Path>)
    returns (ok: bool, out: Config, locked: set<Path>)
    requires leaves == LeavesOf(file) && forall p :: p in paths ==> p in db || p in leaves
    ensures OverlaidOrNot(ok, out, locked, file, db, paths)
  {
    var todo := paths;
    ghost var seen := {};
    ok, out, locked := true, file, {};
    NothingOverlaid(file, db);
    while todo != {} && ok
      invariant todo <= paths && seen + todo == paths
      invariant OverlaidOrNot(ok, out, locked, file, db, seen)
      decreases todo
    {
      ok, out, locked, seen, todo := OverlayNext(out, locked, file, leaves, db, seen, todo);
    }
    assert ok ==> seen == paths;
  }

  /** The overlay: file leaves lock, DB leaves fill in, a DB leaf under a section that is no dict
      raises. */
  method ResolveConfig(r: Registry, db: Leaves, file: Config) returns (effective: Option<Config>, locked: set<Path>)
    ensures effective == Resolve(db, file)
    ensures effective.Some? ==> locked == Locked(r, db, file)
  {
    var leaves := FileLeaves(file);
    var paths := db.Keys + (leaves.Keys * r.registered);
    var ok, out;
    ok, out, locked := OverlayAll(file, leaves, db, paths);
    if ok { AllOverlaid(out, locked, file, db, paths); }
    effective := if ok then Some(out) else None;
  }

  predicate SameAt(a: Config, b: Config, s: string) {
    (s in a <==> s in b) && (s in a ==> a[s] == b[s])
  }

  lemma Same(a: Config, b: Config)
    requires forall s :: SameAt(a, b, s)
    ensures a == b
  {
    forall s ensures s in a <==> s in b {
      assert SameAt(a, b, s);
    }
    forall s | s in a ensures a[s] == b[s] {
      assert SameAt(a, b, s);
    }
  }

  lemma RestOneMore(cfg: Config, done: set<Path>, p: Path, s: string)
    ensures Rest(cfg, done + {p}, s)
         == if s == p.section then Rest(cfg, done, s) - {p.field} else Rest(cfg, done, s)
  {
    assert Path(p.section, p.field) == p;
  }

  /** A leaf popped from a config that others were popped from. */
  function Popped(cfg: Config, p: Path): Config {
    if HasDict(cfg, p.section) && p.field in cfg[p.section].fields
    then var left := cfg[p.section].fields - {p.field};
      if left == map[] then cfg - {p.section} else cfg[p.section := Dict(left)]
    else cfg
  }

  lemma PopOneAt(cfg: Config, done: set<Path>, p: Path, s: string)
    ensures SameAt(Without(cfg, done + {p}), Popped(Without(cfg, done), p), s)
  {
    RestOneMore(cfg, done, p, s);
    if s == p.section && HasDict(cfg, s) && p.field !in Rest(cfg, done, s) {
      assert Rest(cfg, done, s) - {p.field} == Rest(cfg, done, s);
    }
  }

  lemma PopOne(cfg: Config, done: set<Path>, p: Path)
    ensures Without(cfg, done + {p}) == Popped(Without(cfg, done), p)
  {
    forall s ensures SameAt(Without(cfg, done + {p}), Popped(Without(cfg, done), p), s) {
      PopOneAt(cfg, done, p, s);
    }
    Same(Without(cfg, done + {p}), Popped(Without(cfg, done), p));
  }

  lemma WithoutNothing(cfg: Config)
    ensures Without(cfg, {}) == cfg
  {
    forall s | s in cfg && cfg[s].Dict? ensures Rest(cfg, {}, s) == cfg[s].fields {
    }
  }

  /** Leaves popped one after the other, each section dropped when it empties. */
  method PopLeaves(cfg: Config, gone: set<Path>) returns (out: Config)
    ensures out == Without(cfg, gone)
  {
    out := cfg;
    var todo := gone;
    ghost var done: set<Path> := {};
    WithoutNothing(cfg);
    while todo != {}
      invariant todo <= gone && done == gone - todo
      invariant out == Without(cfg, done)
      decreases todo
    {
      var p :| p in todo;
      PopOne(cfg, done, p);
      todo, done := todo - {p}, done + {p};
      if HasDict(out, p.section) && p.field in out[p.section].fields {
        var left := out[p.section].fields - {p.field};
        out := if left == map[] then out - {p.section} else out[p.section := Dict(left)];
      }
    }
    assert done == gone;
  }

  // ── The manager ───────────────────────────────────────────────────────────

  /** The cached result of a load, or what a thread last read: the DB leaves it was made from and
      what the file locks. */
  datatype Loaded = Loaded(effective: Config, locked: set<Path>, rows: Leaves)

  function LoadOf(r: Registry, home: Home): Option<Loaded> {
    var rows, file := DecryptedLeaves(r, home.db), DecryptedConfig(r, home.file);
    match Read(r, home)
    case None => None
    case Some(cfg) => Some(Loaded(cfg, Locked(r, rows, file), rows))
  }

  class Manager {
    const registry: Registry
    var db: Leaves
    var file: Config
    var envLocked: set<Path>
    var fileLocked: set<Path>
    var cache: Option<Loaded>
    /** What each thread last read and has not written back yet. */
    var baselines: map<nat, Loaded>

    constructor (r: Registry, rows: Leaves, onDisk: Config)
      ensures registry == r && AtRest() == Home(rows, onDisk) && Valid() && baselines == map[]
    {
      registry, db, file, envLocked, fileLocked := r, rows, onDisk, {}, {};
      cache, baselines := None, map[];
    }

    function AtRest(): Home
      reads this
    {
      Home(db, file)
    }

    /** A cached load is a load of the homes as they are; other processes are not looked at here. */
    predicate Valid()
      reads this
    {
      cache.Some? ==> LoadOf(registry, AtRest()) == cache
    }

    method Load() returns (loaded: Option<Loaded>)
      requires Valid()
      modifies `cache, `fileLocked
      ensures Valid() && loaded == LoadOf(registry, AtRest())
      ensures fileLocked == if loaded.Some? then loaded.value.locked else old(fileLocked)
    {
      if cache.Some? {
        fileLocked := cache.value.locked;
        return cache;
      }
      var rows := DecryptedLeaves(registry, db);
      var effective, locked := ResolveConfig(registry, rows, DecryptedConfig(registry, file));
      if effective.None? { return None; }
      var shown := PopLeaves(effective.value, registry.obsolete);
      fileLocked := locked;
      cache := Some(Loaded(shown, locked, rows));
      return cache;
    }

    method ReadConfig(thread: nat) returns (cfg: Option<Config>)
      requires Valid()
      modifies `cache, `fileLocked, `baselines
      ensures Valid() && cfg == Read(registry, AtRest())
      ensures cfg.Some? ==> baselines == old(baselines)[thread := LoadOf(registry, AtRest()).value]
      ensures cfg.None? ==> baselines == old(baselines)
    {
      var loaded := Load();
      if loaded.None? { return None; }
      baselines := baselines[thread := loaded.value];
      return Some(loaded.value.effective);
    }

    /** This thread's last read, used up, or the database as it is. */
    method LoadBaseline(thread: nat) returns (base: Option<Leaves>)
      requires Valid()
      modifies `cache, `fileLocked, `baselines
      ensures Valid() && baselines == old(baselines) - {thread}
      ensures thread in old(baselines) ==>
                base == Some(old(baselines)[thread].rows) && fileLocked == old(baselines)[thread].locked
      ensures thread !in old(baselines) ==>
                if LoadOf(registry, AtRest()).None? then base == None
                else base == Some(LoadOf(registry, AtRest()).value.rows)
                     && fileLocked == LoadOf(registry, AtRest()).value.locked
    {
      if thread in baselines {
        base, fileLocked := Some(baselines[thread].rows), baselines[thread].locked;
        baselines := baselines - {thread};
      } else {
        assert baselines - {thread} == baselines;
        var loaded := Load();
        base := if loaded.Some? then Some(loaded.value.rows) else None;
      }
    }

    method Invalidate()
      modifies `cache
      ensures cache == None
    {
      cache := None;
    }

    /** Rows whose value differs from the baseline. */
    method RowsToWrite(base: Leaves, data: Config, editable: set<Path>, locked: set<Path>) returns (rows: Leaves)
      requires editable == EditableIn(data, locked)
      ensures rows == NewRows(registry, base, data, locked)
    {
      var plain := FileLeaves(data);
      var sealed := FileLeaves(EncryptedConfig(registry, data));
      rows := Pick(sealed, Differing(base, plain, editable));
    }

    /** Rows the data leaves out, where they may be edited. */
    method RowsToDelete(base: Leaves, plain: Leaves, data: Config, locked: set<Path>) returns (gone: set<Path>)
      requires plain == LeavesOf(data)
      ensures gone == Removed(base, data, locked)
    {
      gone := set p | p in base && p !in plain && Editable(p, locked);
    }

    /** Set the changed rows, delete the removed ones, save the rest to the file. */
    method Store(base: Leaves, data: Config, locked: set<Path>)
      modifies `db, `file
      ensures AtRest() == Write(registry, old(AtRest()), base, data, locked)
    {
      var plain := FileLeaves(data);
      var editable := set p | p in plain && Editable(p, locked);
      assert editable == EditableIn(data, locked);
      var rows := RowsToWrite(base, data, editable, locked);
      db := db + rows;
      var removed := RowsToDelete(base, plain, data, locked);
      db := db - removed;
      var rest := PopLeaves(data, editable);
      file := EncryptedConfig(registry, rest);
    }

    /** The write, against this thread's own last read, or, for one that never read, the database
        and the locks as they are. It raises, storing nothing, only in the second case and only
        where a read would raise; otherwise the homes are those of `Write`. */
    method WriteConfig(thread: nat, data: Config) returns (ok: bool, ghost base: Leaves)
      requires Valid()
      modifies this
      ensures Valid() && envLocked == old(envLocked) && baselines == old(baselines) - {thread}
      ensures thread in old(baselines) ==>
                ok && base == old(baselines)[thread].rows && fileLocked == old(baselines)[thread].locked
      ensures thread !in old(baselines) ==>
                (ok <==> LoadOf(registry, old(AtRest())).Some?)
                && (ok ==> base == LoadOf(registry, old(AtRest())).value.rows
                           && fileLocked == LoadOf(registry, old(AtRest())).value.locked)
      ensures !ok ==> AtRest() == old(AtRest())
      ensures ok ==> AtRest() == Write(registry, old(AtRest()), base, data, envLocked + fileLocked)
    {
      var loaded := LoadBaseline(thread);
      assert AtRest() == old(AtRest());
      if loaded.None? { return false, map[]; }
      base := loaded.value;
      Store(loaded.value, data, envLocked + fileLocked);
      Invalidate();
      ok := true;
    }

    /** A thread that has read writes and reads again, nobody else writing: it gets its data back,
        without obsolete leaves, exactly when the write is `Harmless` under the locks it read. */
    method WriteAndRead(thread: nat, data: Config) returns (cfg: Option<Config>)
      requires Valid() && thread in baselines && baselines[thread].rows == DecryptedLeaves(registry, db)
      requires Storable(registry, data)
      modifies this
      ensures Valid() && cfg == Read(registry, AtRest())
      ensures Inverts(registry.cipher) ==>
                (cfg == Some(Without(data, registry.obsolete))
                 <==> Harmless(registry, old(baselines)[thread].rows, data,
                               old(envLocked) + old(baselines)[thread].locked))
    {
      var _, _ := WriteConfig(thread, data);
      if Inverts(registry.cipher) {
        WriteThenRead(registry, old(AtRest()), data, envLocked + fileLocked);
      }
      cfg := ReadConfig(thread);
    }
  }
}
