/**
  The configuration: one dict of sections, kept half in a database table of `section|field`
  leaves and half in a file, resolved into one effective dict by a read and split again by a
  write.

  A path is a pair here, so a dict section's name has no '|' in it.
*/
module ConfigManager {
  import opened Common
  import opened SecretTree

  datatype Path = Path(section: string, field: string)

  /** A section is a `Dict` of fields, or any other value, which has no leaves. */
  type Config = map<string, Json>
  type Leaves = map<Path, Json>

  const FILE_ONLY_SECTIONS := {"database"}
  const CRED_PATHS := {Path("web_admin", "username"), Path("web_admin", "password")}

  /** What the field registry declares, and the cipher secrets are stored with. A cipher that
      always fails stands for none at all. */
  datatype Registry = Registry(registered: set<Path>, obsolete: set<Path>, secrets: set<string>, cipher: Cipher)

  /** The two homes as they are at rest. */
  datatype Home = Home(db: Leaves, file: Config)

  // ── Leaves ────────────────────────────────────────────────────────────────

  function LeavesOf(cfg: Config): Leaves {
    map s, f | s in cfg && cfg[s].Dict? && f in cfg[s].fields :: Path(s, f) := cfg[s].fields[f]
  }

  predicate HasDict(cfg: Config, s: string) {
    s in cfg && cfg[s].Dict?
  }

  function FieldsOf(cfg: Config, s: string): map<string, Json> {
    if HasDict(cfg, s) then cfg[s].fields else map[]
  }

  /** Two configs with the same sections, other values and leaves are the same. */
  lemma SameConfig(a: Config, b: Config)
    requires a.Keys == b.Keys
    requires forall s :: s in a ==> (a[s].Dict? <==> b[s].Dict?) && (!a[s].Dict? ==> a[s] == b[s])
    requires LeavesOf(a) == LeavesOf(b)
    ensures a == b
  {
    forall s | s in a && a[s].Dict? ensures a[s] == b[s] {
      forall f | f in a[s].fields ensures f in b[s].fields && a[s].fields[f] == b[s].fields[f] {
        assert Path(s, f) in LeavesOf(a) && Path(s, f) in LeavesOf(b);
      }
      forall f | f in b[s].fields ensures f in a[s].fields {
        assert Path(s, f) in LeavesOf(b) && Path(s, f) in LeavesOf(a);
      }
      assert a[s].fields == b[s].fields;
    }
  }

  /** Leaves taken out, and with them the sections that leaves empty. */
  function Without(cfg: Config, gone: set<Path>): Config {
    map s | s in cfg && (cfg[s].Dict? && cfg[s].fields != map[] ==> Rest(cfg, gone, s) != map[])
      :: if cfg[s].Dict? then Dict(Rest(cfg, gone, s)) else cfg[s]
  }

  function Rest(cfg: Config, gone: set<Path>, s: string): map<string, Json> {
    map f | f in FieldsOf(cfg, s) && Path(s, f) !in gone :: FieldsOf(cfg, s)[f]
  }

  lemma LeavesWithout(cfg: Config, gone: set<Path>)
    ensures LeavesOf(Without(cfg, gone)) == LeavesOf(cfg) - gone
  {
    forall p | p in LeavesOf(cfg) - gone ensures p in LeavesOf(Without(cfg, gone)) {
      assert p.field in Rest(cfg, gone, p.section);
    }
  }

  lemma WithoutTwice(cfg: Config, gone: set<Path>)
    ensures Without(Without(cfg, gone), gone) == Without(cfg, gone)
  {
    var once := Without(cfg, gone);
    forall s | s in once && once[s].Dict? ensures Rest(once, gone, s) == once[s].fields {
      assert once[s].fields == Rest(cfg, gone, s);
    }
    assert Without(once, gone).Keys == once.Keys;
  }

  // ── Resolving ─────────────────────────────────────────────────────────────

  /** The DB leaves that count: the file does not have them, and they may come from the DB. */
  function FromDb(db: Leaves, file: Config): set<Path> {
    set p | p in db && p !in LeavesOf(file) && p.section !in FILE_ONLY_SECTIONS
  }

  /** A leaf cannot be put into a section that is no dict: the original raises. */
  predicate Resolvable(db: Leaves, file: Config) {
    forall p :: p in FromDb(db, file) && p.section in file ==> file[p.section].Dict?
  }

  function MergedFields(db: Leaves, file: Config, s: string): map<string, Json> {
    map f | f in FieldsOf(file, s).Keys + (set p | p in FromDb(db, file) && p.section == s :: p.field)
      :: if f in FieldsOf(file, s) then FieldsOf(file, s)[f] else db[Path(s, f)]
  }

  /** The file as it is, with the DB leaves it lacks. */
  function Merge(db: Leaves, file: Config): Config {
    map s | s in file.Keys + (set p | p in FromDb(db, file) :: p.section)
      :: if s in file && !file[s].Dict? then file[s] else Dict(MergedFields(db, file, s))
  }

  function Resolve(db: Leaves, file: Config): Option<Config> {
    if Resolvable(db, file) then Some(Merge(db, file)) else None
  }

  /** File leaves that are registered, or shadow a DB row, cannot be edited. */
  function Locked(r: Registry, db: Leaves, file: Config): set<Path> {
    set p | p in LeavesOf(file) && (p in db || p in r.registered)
  }

  lemma LeafOfMerge(db: Leaves, file: Config, p: Path)
    requires Resolvable(db, file)
    ensures p in LeavesOf(Merge(db, file)) <==> p in LeavesOf(file) || p in FromDb(db, file)
    ensures p in LeavesOf(file) ==> LeavesOf(Merge(db, file))[p] == LeavesOf(file)[p]
    ensures p in FromDb(db, file) ==> LeavesOf(Merge(db, file))[p] == db[p]
  {
    var fields := MergedFields(db, file, p.section);
    assert Path(p.section, p.field) == p;
    assert p in LeavesOf(file) <==> p.field in FieldsOf(file, p.section);
    assert forall q :: q in FromDb(db, file) && q.section == p.section && q.field == p.field ==> q == p;
    if p in LeavesOf(Merge(db, file)) || p in LeavesOf(file) || p in FromDb(db, file) {
      assert p.section in Merge(db, file);
    }
  }

  lemma LeavesOfMerge(db: Leaves, file: Config)
    requires Resolvable(db, file)
    ensures LeavesOf(Merge(db, file)).Keys == LeavesOf(file).Keys + FromDb(db, file)
    ensures forall p :: p in LeavesOf(file) ==> LeavesOf(Merge(db, file))[p] == LeavesOf(file)[p]
    ensures forall p :: p in FromDb(db, file) ==> LeavesOf(Merge(db, file))[p] == db[p]
  {
    forall p ensures p in LeavesOf(Merge(db, file)) <==> p in LeavesOf(file) || p in FromDb(db, file) {
      LeafOfMerge(db, file, p);
    }
    forall p | p in LeavesOf(Merge(db, file))
      ensures LeavesOf(Merge(db, file))[p] == if p in LeavesOf(file) then LeavesOf(file)[p] else db[p]
    {
      LeafOfMerge(db, file, p);
    }
  }

  // ── Encryption of whole configs ───────────────────────────────────────────

  function EncryptedConfig(r: Registry, cfg: Config): Config {
    Encrypt(Dict(cfg), r.secrets, r.cipher, None).fields
  }

  function DecryptedConfig(r: Registry, cfg: Config): Config {
    Decrypt(Dict(cfg), r.cipher).fields
  }

  function DecryptedLeaves(r: Registry, db: Leaves): Leaves {
    map p | p in db :: Decrypt(db[p], r.cipher)
  }

  /** Storing and reading back changes nothing in it. */
  predicate Storable(r: Registry, cfg: Config) {
    TokensAreTheirOwn(Dict(cfg), r.cipher)
  }

  lemma StoredConfigReadsBack(r: Registry, cfg: Config)
    requires Inverts(r.cipher) && Storable(r, cfg)
    ensures DecryptedConfig(r, EncryptedConfig(r, cfg)) == cfg
  {
    DecryptUndoesEncrypt(Dict(cfg), r.secrets, r.cipher, None);
  }

  lemma StoredLeafReadsBack(r: Registry, cfg: Config, p: Path)
    requires Inverts(r.cipher) && Storable(r, cfg) && p in LeavesOf(cfg)
    ensures p in LeavesOf(EncryptedConfig(r, cfg))
    ensures Decrypt(LeavesOf(EncryptedConfig(r, cfg))[p], r.cipher) == LeavesOf(cfg)[p]
  {
    var section := cfg[p.section];
    assert TokensAreTheirOwn(section, r.cipher) && TokensAreTheirOwn(section.fields[p.field], r.cipher);
    DecryptUndoesEncrypt(section.fields[p.field], r.secrets, r.cipher, Some(p.field));
    var stored := EncryptedConfig(r, cfg)[p.section];
    assert stored == Encrypt(section, r.secrets, r.cipher, Some(p.section));
    assert stored.Dict?;
    assert stored.fields[p.field] == Encrypt(section.fields[p.field], r.secrets, r.cipher, Some(p.field));
    assert Path(p.section, p.field) == p;
  }

  lemma WithoutIsStorable(r: Registry, cfg: Config, gone: set<Path>)
    requires Storable(r, cfg)
    ensures Storable(r, Without(cfg, gone))
  {
    forall s | s in Without(cfg, gone) ensures TokensAreTheirOwn(Without(cfg, gone)[s], r.cipher) {
      assert TokensAreTheirOwn(cfg[s], r.cipher);
      if cfg[s].Dict? {
        forall f | f in Rest(cfg, gone, s) ensures TokensAreTheirOwn(Rest(cfg, gone, s)[f], r.cipher) {
          assert TokensAreTheirOwn(cfg[s].fields[f], r.cipher);
        }
      }
    }
  }

  // ── Read and write ────────────────────────────────────────────────────────

  /** What a read returns; None where it raises. */
  function Read(r: Registry, home: Home): Option<Config> {
    match Resolve(DecryptedLeaves(r, home.db), DecryptedConfig(r, home.file))
    case None => None
    case Some(cfg) => Some(Without(cfg, r.obsolete))
  }

  predicate Editable(p: Path, locked: set<Path>) {
    p.section !in FILE_ONLY_SECTIONS && p !in CRED_PATHS && p !in locked
  }

  function EditableIn(data: Config, locked: set<Path>): set<Path> {
    set p | p in LeavesOf(data) && Editable(p, locked)
  }

  /** The leaves among `ps` that are new or differ from the baseline. */
  function Differing(base: Leaves, plain: Leaves, ps: set<Path>): set<Path> {
    set p | p in ps && p in plain && (p !in base || base[p] != plain[p])
  }

  function Changed(base: Leaves, data: Config, locked: set<Path>): set<Path> {
    Differing(base, LeavesOf(data), EditableIn(data, locked))
  }

  function Pick(rows: Leaves, ps: set<Path>): Leaves {
    map p | p in ps && p in rows :: rows[p]
  }

  function Removed(base: Leaves, data: Config, locked: set<Path>): set<Path> {
    set p | p in base && p !in LeavesOf(data) && Editable(p, locked)
  }

  function NewRows(r: Registry, base: Leaves, data: Config, locked: set<Path>): Leaves {
    Pick(LeavesOf(EncryptedConfig(r, data)), Changed(base, data, locked))
  }

  /** The DB rows as a patch against `base`, the rest of the data to the file. */
  function Write(r: Registry, home: Home, base: Leaves, data: Config, locked: set<Path>): Home {
    Home(home.db + NewRows(r, base, data, locked) - Removed(base, data, locked),
         EncryptedConfig(r, Without(data, EditableIn(data, locked))))
  }

  /** DB leaves the write may not touch and the data does not have: they come back. */
  function Retained(base: Leaves, data: Config, locked: set<Path>): set<Path> {
    set p | p in base && p !in LeavesOf(data) && !Editable(p, locked) && p.section !in FILE_ONLY_SECTIONS
  }

  /** The guard of the law: a retained leaf is stripped by the next read, and leaves the data's
      sections as they are. */
  predicate Harmless(r: Registry, base: Leaves, data: Config, locked: set<Path>) {
    forall p :: p in Retained(base, data, locked) ==>
      p in r.obsolete && (p.section in data ==> data[p.section].Dict? && data[p.section].fields != map[])
  }

  /** One row after a write, in the clear: the data's where it may be edited, else as it was. */
  lemma RowAfterWrite(r: Registry, home: Home, data: Config, locked: set<Path>, p: Path)
    requires Inverts(r.cipher) && Storable(r, data)
    ensures var base := DecryptedLeaves(r, home.db);
            var db := DecryptedLeaves(r, Write(r, home, base, data, locked).db);
            if Editable(p, locked)
            then (p in db <==> p in LeavesOf(data)) && (p in db ==> db[p] == LeavesOf(data)[p])
            else (p in db <==> p in base) && (p in db ==> db[p] == base[p])
  {
    if p in LeavesOf(data) { StoredLeafReadsBack(r, data, p); }
  }

  /** Rows and file together hold the data's leaves and the retained ones. */
  lemma HomesAfterWrite(base: Leaves, db: Leaves, data: Config, locked: set<Path>)
    requires forall p :: p in db <==> if Editable(p, locked) then p in LeavesOf(data) else p in base
    ensures var file := Without(data, EditableIn(data, locked));
            FromDb(db, file) == EditableIn(data, locked) + Retained(base, data, locked)
  {
    LeavesWithout(data, EditableIn(data, locked));
  }

  /** The two homes as a read finds them after a write with this base, in the clear. */
  ghost predicate AfterWrite(base: Leaves, db: Leaves, file: Config, data: Config, locked: set<Path>) {
    && file == Without(data, EditableIn(data, locked))
    && (forall p :: p in db <==> if Editable(p, locked) then p in LeavesOf(data) else p in base)
    && (forall p :: p in db && Editable(p, locked) ==> p in LeavesOf(data) && db[p] == LeavesOf(data)[p])
  }

  lemma ResolvableAfterWrite(base: Leaves, db: Leaves, file: Config, data: Config, locked: set<Path>)
    requires AfterWrite(base, db, file, data, locked)
    ensures Resolvable(db, file)
       <==> forall p :: p in Retained(base, data, locked) && p.section in data ==> data[p.section].Dict?
  {
    HomesAfterWrite(base, db, data, locked);
    assert forall p :: p in EditableIn(data, locked) ==> HasDict(data, p.section);
    assert forall s :: s in data && !data[s].Dict? ==> s in file && file[s] == data[s];
  }

  /** `m` is the data with the retained leaves added. */
  ghost predicate WithRetained(m: Config, base: Leaves, data: Config, locked: set<Path>) {
    && LeavesOf(m).Keys == LeavesOf(data).Keys + Retained(base, data, locked)
    && (forall p :: p in LeavesOf(data) ==> LeavesOf(m)[p] == LeavesOf(data)[p])
    && (forall s :: s in m <==> s in data || exists p :: p in Retained(base, data, locked) && p.section == s)
    && (forall s :: s in m && s in data ==> if data[s].Dict? then m[s].Dict? else m[s] == data[s])
    && (forall s :: s in m && s !in data ==> m[s].Dict?)
  }

  lemma SectionAfterWrite(base: Leaves, db: Leaves, file: Config, data: Config, locked: set<Path>, s: string)
    requires AfterWrite(base, db, file, data, locked)
    ensures s in Merge(db, file) <==> s in data || exists p :: p in Retained(base, data, locked) && p.section == s
  {
    HomesAfterWrite(base, db, data, locked);
    if s in data && s !in file {
      var f :| f in data[s].fields;
      assert f !in Rest(data, EditableIn(data, locked), s);
      assert Path(s, f) in FromDb(db, file);
    }
  }

  lemma LeavesAfterWrite(base: Leaves, db: Leaves, file: Config, data: Config, locked: set<Path>, p: Path)
    requires AfterWrite(base, db, file, data, locked) && Resolvable(db, file)
    ensures p in LeavesOf(Merge(db, file)) <==> p in LeavesOf(data) || p in Retained(base, data, locked)
    ensures p in LeavesOf(data) ==> LeavesOf(Merge(db, file))[p] == LeavesOf(data)[p]
  {
    HomesAfterWrite(base, db, data, locked);
    LeavesWithout(data, EditableIn(data, locked));
    LeafOfMerge(db, file, p);
  }

  lemma ShapeAfterWrite(base: Leaves, db: Leaves, file: Config, data: Config, locked: set<Path>, s: string)
    requires AfterWrite(base, db, file, data, locked) && s in Merge(db, file)
    ensures if s in data && !data[s].Dict? then Merge(db, file)[s] == data[s] else Merge(db, file)[s].Dict?
  {
  }

  lemma MergedAfterWrite(base: Leaves, db: Leaves, file: Config, data: Config, locked: set<Path>, m: Config)
    requires AfterWrite(base, db, file, data, locked) && Resolvable(db, file) && m == Merge(db, file)
    ensures WithRetained(m, base, data, locked)
  {
    forall s ensures s in m <==> s in data || exists p :: p in Retained(base, data, locked) && p.section == s {
      SectionAfterWrite(base, db, file, data, locked, s);
    }
    forall s | s in m ensures if s in data && !data[s].Dict? then m[s] == data[s] else m[s].Dict? {
      ShapeAfterWrite(base, db, file, data, locked, s);
    }
    LeafSetAfterWrite(base, db, file, data, locked, m);
  }

  lemma LeafSetAfterWrite(base: Leaves, db: Leaves, file: Config, data: Config, locked: set<Path>, m: Config)
    requires AfterWrite(base, db, file, data, locked) && Resolvable(db, file) && m == Merge(db, file)
    ensures LeavesOf(m).Keys == LeavesOf(data).Keys + Retained(base, data, locked)
    ensures forall p :: p in LeavesOf(data) ==> LeavesOf(m)[p] == LeavesOf(data)[p]
  {
    forall p ensures (p in LeavesOf(m) <==> p in LeavesOf(data) || p in Retained(base, data, locked))
                     && (p in LeavesOf(data) ==> LeavesOf(m)[p] == LeavesOf(data)[p]) {
      LeavesAfterWrite(base, db, file, data, locked, p);
    }
  }

  lemma FieldsAreLeaves(cfg: Config, s: string)
    requires HasDict(cfg, s)
    ensures forall f :: f in cfg[s].fields <==> Path(s, f) in LeavesOf(cfg)
  {
  }

  lemma HarmlessSection(r: Registry, base: Leaves, m: Config, data: Config, locked: set<Path>, s: string)
    requires Harmless(r, base, data, locked) && WithRetained(m, base, data, locked) && s in m
    ensures s in Without(m, r.obsolete) <==> s in Without(data, r.obsolete)
  {
    SectionKept(m, r.obsolete, s);
    SectionKept(data, r.obsolete, s);
    if s !in data {
      FieldsAreLeaves(m, s);
      var p :| p in Retained(base, data, locked) && p.section == s;
      assert Path(s, p.field) in LeavesOf(m);
      forall f | f in m[s].fields ensures Path(s, f) in r.obsolete {
        assert Path(s, f) in Retained(base, data, locked);
      }
    } else if data[s].Dict? {
      FieldsAreLeaves(m, s);
      FieldsAreLeaves(data, s);
      forall f | f in m[s].fields && f !in data[s].fields
        ensures Path(s, f) in r.obsolete && data[s].fields != map[]
      {
        assert Path(s, f) in Retained(base, data, locked);
      }
    }
  }

  lemma HarmlessIsEnough(r: Registry, base: Leaves, m: Config, data: Config, locked: set<Path>)
    requires Harmless(r, base, data, locked) && WithRetained(m, base, data, locked)
    ensures Without(m, r.obsolete) == Without(data, r.obsolete)
  {
    var a, b := Without(m, r.obsolete), Without(data, r.obsolete);
    assert LeavesOf(a) == LeavesOf(b) by {
      LeavesWithout(m, r.obsolete);
      LeavesWithout(data, r.obsolete);
    }
    forall s ensures s in a <==> s in b {
      if s in m { HarmlessSection(r, base, m, data, locked, s); }
    }
    assert a.Keys == b.Keys;
    SameConfig(a, b);
  }

  /** A section stays if it is no dict, was empty, or has a leaf left. */
  lemma SectionKept(cfg: Config, gone: set<Path>, s: string)
    ensures s in Without(cfg, gone) <==>
              s in cfg && (cfg[s].Dict? && cfg[s].fields != map[] ==>
                exists f :: f in cfg[s].fields && Path(s, f) !in gone)
  {
    if s in cfg && cfg[s].Dict? {
      if f :| f in cfg[s].fields && Path(s, f) !in gone {
        assert f in Rest(cfg, gone, s);
      } else {
        assert Rest(cfg, gone, s) == map[];
      }
    }
  }

  /** What becomes of a section: one that stays a dict with fields keeps some. */
  lemma SectionShape(cfg: Config, gone: set<Path>, s: string)
    ensures s in Without(cfg, gone) && cfg[s].Dict? ==>
              Without(cfg, gone)[s].Dict? && (cfg[s].fields != map[] ==> Without(cfg, gone)[s].fields != map[])
    ensures s in cfg && (!cfg[s].Dict? || cfg[s].fields == map[]) ==>
              s in Without(cfg, gone) && Without(cfg, gone)[s] == cfg[s]
  {
    if s in cfg && cfg[s].Dict? && cfg[s].fields == map[] {
      assert Rest(cfg, gone, s) == map[];
    }
  }

  lemma HarmlessIsNeeded(r: Registry, base: Leaves, m: Config, data: Config, locked: set<Path>)
    requires forall p :: p in Retained(base, data, locked) ==> p in LeavesOf(m)
    requires Without(m, r.obsolete) == Without(data, r.obsolete)
    ensures Harmless(r, base, data, locked)
  {
    LeavesWithout(m, r.obsolete);
    LeavesWithout(data, r.obsolete);
    forall p | p in Retained(base, data, locked)
      ensures p in r.obsolete && (p.section in data ==> data[p.section].Dict? && data[p.section].fields != map[])
    {
      assert p !in LeavesOf(Without(data, r.obsolete));
      assert m[p.section].Dict? && p.field in m[p.section].fields;
      SectionShape(m, r.obsolete, p.section);
      SectionShape(data, r.obsolete, p.section);
    }
  }

  lemma HomesAreAsWritten(r: Registry, home: Home, data: Config, locked: set<Path>)
    requires Inverts(r.cipher) && Storable(r, data)
    ensures var base := DecryptedLeaves(r, home.db);
            var after := Write(r, home, base, data, locked);
            AfterWrite(base, DecryptedLeaves(r, after.db), DecryptedConfig(r, after.file), data, locked)
  {
    var base := DecryptedLeaves(r, home.db);
    var db := DecryptedLeaves(r, Write(r, home, base, data, locked).db);
    WithoutIsStorable(r, data, EditableIn(data, locked));
    StoredConfigReadsBack(r, Without(data, EditableIn(data, locked)));
    forall p ensures p in db <==> if Editable(p, locked) then p in LeavesOf(data) else p in base {
      RowAfterWrite(r, home, data, locked, p);
    }
    forall p | p in db && Editable(p, locked) ensures p in LeavesOf(data) && db[p] == LeavesOf(data)[p] {
      RowAfterWrite(r, home, data, locked, p);
    }
  }

  lemma ReadAfterWrite(r: Registry, base: Leaves, db: Leaves, file: Config, data: Config, locked: set<Path>)
    requires AfterWrite(base, db, file, data, locked)
    ensures Resolvable(db, file) && Without(Merge(db, file), r.obsolete) == Without(data, r.obsolete)
       <==> Harmless(r, base, data, locked)
  {
    ResolvableAfterWrite(base, db, file, data, locked);
    if Resolvable(db, file) {
      MergedAfterWrite(base, db, file, data, locked, Merge(db, file));
      if Harmless(r, base, data, locked) {
        HarmlessIsEnough(r, base, Merge(db, file), data, locked);
      } else if Without(Merge(db, file), r.obsolete) == Without(data, r.obsolete) {
        HarmlessIsNeeded(r, base, Merge(db, file), data, locked);
      }
    }
  }

  lemma ReadIs(r: Registry, home: Home, cfg: Config)
    ensures Read(r, home) == Some(cfg) <==>
              var db, file := DecryptedLeaves(r, home.db), DecryptedConfig(r, home.file);
              Resolvable(db, file) && Without(Merge(db, file), r.obsolete) == cfg
  {
  }

  /** Write, then read: what comes back is the data without its obsolete leaves, exactly when the
      DB holds nothing the write may not touch and the data leaves out. */
  lemma WriteThenRead(r: Registry, home: Home, data: Config, locked: set<Path>)
    requires Inverts(r.cipher) && Storable(r, data)
    ensures var base := DecryptedLeaves(r, home.db);
            Read(r, Write(r, home, base, data, locked)) == Some(Without(data, r.obsolete))
            <==> Harmless(r, base, data, locked)
  {
    var base := DecryptedLeaves(r, home.db);
    var after := Write(r, home, base, data, locked);
    HomesAreAsWritten(r, home, data, locked);
    ReadIs(r, after, Without(data, r.obsolete));
    ReadAfterWrite(r, base, DecryptedLeaves(r, after.db), DecryptedConfig(r, after.file), data, locked);
  }

  /** Writing back what was read leaves the effective config as it was, whatever is locked and
      whatever moves from the file to the DB. */
  lemma WriteBackChangesNothing(r: Registry, home: Home, locked: set<Path>)
    requires Inverts(r.cipher) && Read(r, home).Some? && Storable(r, Read(r, home).value)
    ensures Read(r, Write(r, home, DecryptedLeaves(r, home.db), Read(r, home).value, locked)) == Read(r, home)
  {
    var base, file := DecryptedLeaves(r, home.db), DecryptedConfig(r, home.file);
    var m := Merge(base, file);
    var data := Without(m, r.obsolete);
    LeavesOfMerge(base, file);
    LeavesWithout(m, r.obsolete);
    forall p | p in Retained(base, data, locked)
      ensures p in r.obsolete && (p.section in data ==> data[p.section].Dict? && data[p.section].fields != map[])
    {
      assert p in LeavesOf(m) && p.field in m[p.section].fields;
      SectionKept(m, r.obsolete, p.section);
    }
    WriteThenRead(r, home, data, locked);
    WithoutTwice(m, r.obsolete);
  }
}
