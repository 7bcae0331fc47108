/**
  Secrets inside nested configuration values: masking a copy for the client, restoring what the
  client did not send back, encrypting for storage and decrypting what was stored.
*/
module SecretTree {
  import opened Common

  datatype Json = Null | Bool(b: bool) | Num(n: int) | Str(s: string)
                | List(items: seq<Json>) | Dict(fields: map<string, Json>)
  {
    predicate Truthy() {
      match this
      case Null => false
      case Bool(b) => b
      case Num(n) => n != 0
      case Str(s) => s != ""
      case List(items) => items != []
      case Dict(fields) => fields != map[]
    }

    predicate Container() {
      List? || Dict?
    }
  }

  const ENC_PREFIX := "enc:"

  /** `encrypt` and `decrypt` say None where the library raises. */
  datatype Cipher = Cipher(encrypt: string -> Option<string>, decrypt: string -> Option<string>)

  // ── Mask and restore ──────────────────────────────────────────────────────

  function Mask(x: Json, keys: set<string>): Json {
    match x
    case Dict(fields) =>
      Dict(map k | k in fields :: if k in keys && fields[k].Truthy() then Null else Mask(fields[k], keys))
    case List(items) => List(seq(|items|, i requires 0 <= i < |items| => Mask(items[i], keys)))
    case _ => x
  }

  predicate LeftBlank(x: Json) {
    x == Null || x == Str("")
  }

  /** One field of a restored dict. */
  function RestoredField(k: string, nv: Json, ov: Json, keys: set<string>): Json
    decreases nv, 1
  {
    match nv
    case Dict(_) => Restore(nv, if ov.Dict? then ov else Dict(map[]), keys)
    case List(_) => Restore(nv, if ov.List? then ov else List([]), keys)
    case _ => if k in keys && LeftBlank(nv) && ov.Truthy() then ov else nv
  }

  /** What the client left blank comes back from the old value, list items by position. */
  function Restore(x: Json, old_: Json, keys: set<string>): Json
    decreases x, 0
  {
    match x
    case List(items) =>
      List(seq(|items|, i requires 0 <= i < |items| =>
        if items[i].Container()
        then Restore(items[i], if old_.List? && i < |old_.items| then old_.items[i] else Null, keys)
        else items[i]))
    case Dict(fields) =>
      if !old_.Dict? then x
      else Dict(map k | k in fields ::
        RestoredField(k, fields[k], if k in old_.fields then old_.fields[k] else Null, keys))
    case _ => x
  }

  /** Nothing under a sensitive name, at any depth, is set. */
  predicate Clean(x: Json, keys: set<string>) {
    match x
    case Dict(fields) => forall k :: k in fields ==> (k in keys ==> !fields[k].Truthy()) && Clean(fields[k], keys)
    case List(items) => forall i :: 0 <= i < |items| ==> Clean(items[i], keys)
    case _ => true
  }

  lemma {:induction false} MaskHidesSecrets(x: Json, keys: set<string>)
    ensures Clean(Mask(x, keys), keys)
  {
    match x
    case Dict(fields) =>
      forall k | k in fields
        ensures (k in keys ==> !Mask(x, keys).fields[k].Truthy()) && Clean(Mask(x, keys).fields[k], keys)
      {
        MaskHidesSecrets(fields[k], keys);
        MaskKeepsFalsy(fields[k], keys);
      }
    case List(items) =>
      forall i | 0 <= i < |items| ensures Clean(Mask(x, keys).items[i], keys) {
        MaskHidesSecrets(items[i], keys);
      }
    case _ =>
  }

  lemma MaskKeepsFalsy(x: Json, keys: set<string>)
    ensures !x.Truthy() ==> Mask(x, keys) == x
  {
    if x.Dict? && !x.Truthy() {
      assert Mask(x, keys).fields == map[];
    }
  }

  /** Restoring a masked copy against the original gives back the original. */
  lemma {:induction false} RestoreUndoesMask(x: Json, keys: set<string>)
    ensures Restore(Mask(x, keys), x, keys) == x
  {
    var m := Mask(x, keys);
    match x
    case Dict(fields) =>
      forall k | k in fields ensures RestoredField(k, m.fields[k], fields[k], keys) == fields[k] {
        RestoreUndoesMask(fields[k], keys);
        MaskKeepsFalsy(fields[k], keys);
      }
      assert Restore(m, x, keys).fields == fields;
    case List(items) =>
      forall i | 0 <= i < |items| ensures Restore(m, x, keys).items[i] == items[i] {
        RestoreUndoesMask(items[i], keys);
      }
      assert Restore(m, x, keys).items == items;
    case _ =>
  }

  // ── What a restore gives, leaf by leaf ────────────────────────────────────

  datatype Part = Key(k: string) | Position(i: nat)

  function At(x: Json, path: seq<Part>): Option<Json> {
    if path == [] then Some(x)
    else match (x, path[0])
      case (Dict(fields), Key(k)) => if k in fields then At(fields[k], path[1..]) else None
      case (List(items), Position(i)) => if i < |items| then At(items[i], path[1..]) else None
      case _ => None
  }

  /** What a submitted leaf ends as: the old value where a secret was left blank and there was
      one in the same place, else what was submitted. */
  function Expected(v: Json, was: Option<Json>, last: Part, keys: set<string>): Json {
    if last.Key? && last.k in keys && LeftBlank(v) && was.Some? && was.value.Truthy() then was.value else v
  }

  lemma {:induction false} RestoredLeaf(x: Json, old_: Json, path: seq<Part>, keys: set<string>)
    requires path != [] && At(x, path).Some? && !At(x, path).value.Container()
    ensures At(Restore(x, old_, keys), path)
         == Some(Expected(At(x, path).value, At(old_, path), path[|path| - 1], keys))
    decreases path
  {
    match x
    case Dict(fields) =>
      if old_.Dict? && |path| > 1 {
        var k := path[0].k;
        var ov := if k in old_.fields then old_.fields[k] else Null;
        var below := if fields[k].Dict? then (if ov.Dict? then ov else Dict(map[]))
                     else (if ov.List? then ov else List([]));
        RestoredLeaf(fields[k], below, path[1..], keys);
        assert RestoredField(k, fields[k], ov, keys) == Restore(fields[k], below, keys);
      }
    case List(items) =>
      if |path| > 1 {
        var i := path[0].i;
        var below := if old_.List? && i < |old_.items| then old_.items[i] else Null;
        RestoredLeaf(items[i], below, path[1..], keys);
      }
  }

  /** A restore as it runs, one item or one key after the other. */
  method RestoreSensitive(data: Json, old_: Json, keys: set<string>) returns (r: Json)
    ensures r == Restore(data, old_, keys)
    decreases data, 1
  {
    r := data;
    if data.List? {
      r := RestoreItems(data, old_, keys);
    } else if data.Dict? && old_.Dict? {
      r := RestoreFields(data, old_, keys);
    }
  }

  method RestoreItems(data: Json, old_: Json, keys: set<string>) returns (r: Json)
    requires data.List?
    ensures r == Restore(data, old_, keys)
    decreases data, 0
  {
    var items := data.items;
    var out := items;
    ghost var done := Restore(data, old_, keys).items;
    for i := 0 to |items|
      invariant |out| == |items|
      invariant forall j :: 0 <= j < |items| ==> out[j] == if j < i then done[j] else items[j]
    {
      if items[i].Container() {
        var v := RestoreSensitive(items[i], if old_.List? && i < |old_.items| then old_.items[i] else Null, keys);
        out := out[i := v];
      }
    }
    assert out == done;
    r := List(out);
  }

  method RestoreFields(data: Json, old_: Json, keys: set<string>) returns (r: Json)
    requires data.Dict? && old_.Dict?
    ensures r == Restore(data, old_, keys)
    decreases data, 0
  {
    var fields := data.fields;
    var out := fields;
    ghost var done := Restore(data, old_, keys).fields;
    var todo := fields.Keys;
    while todo != {}
      invariant todo <= fields.Keys && out.Keys == fields.Keys
      invariant forall k :: k in fields ==> out[k] == if k in todo then fields[k] else done[k]
      decreases todo
    {
      var k :| k in todo;
      var nv := fields[k];
      var ov := if k in old_.fields then old_.fields[k] else Null;
      assert done[k] == RestoredField(k, nv, ov, keys);
      if nv.Dict? {
        var v := RestoreSensitive(nv, if ov.Dict? then ov else Dict(map[]), keys);
        out := out[k := v];
      } else if nv.List? {
        var v := RestoreSensitive(nv, if ov.List? then ov else List([]), keys);
        out := out[k := v];
      } else if k in keys && LeftBlank(nv) && ov.Truthy() {
        out := out[k := ov];
      }
      todo := todo - {k};
    }
    assert out == done;
    r := Dict(out);
  }

  // ── Encrypt and decrypt ───────────────────────────────────────────────────

  predicate IsToken(s: string) {
    ENC_PREFIX <= s
  }

  function EncryptedString(s: string, c: Cipher): string {
    match c.encrypt(s) case Some(t) => ENC_PREFIX + t case None => s
  }

  function DecryptedString(s: string, c: Cipher): string {
    if !IsToken(s) then s
    else match c.decrypt(s[|ENC_PREFIX|..]) case Some(t) => t case None => s
  }

  /** `key` is the name the value is under; list items are under the name of the list. */
  function Encrypt(x: Json, keys: set<string>, c: Cipher, key: Option<string>): Json {
    match x
    case Dict(fields) => Dict(map k | k in fields :: Encrypt(fields[k], keys, c, Some(k)))
    case List(items) => List(seq(|items|, i requires 0 <= i < |items| => Encrypt(items[i], keys, c, key)))
    case Str(s) =>
      if key.Some? && key.value in keys && s != "" && !IsToken(s) then Str(EncryptedString(s, c)) else x
    case _ => x
  }

  function Decrypt(x: Json, c: Cipher): Json {
    match x
    case Dict(fields) => Dict(map k | k in fields :: Decrypt(fields[k], c))
    case List(items) => List(seq(|items|, i requires 0 <= i < |items| => Decrypt(items[i], c)))
    case Str(s) => Str(DecryptedString(s, c))
    case _ => x
  }

  /** The cipher takes back what it made. */
  ghost predicate Inverts(c: Cipher) {
    forall s :: c.encrypt(s).Some? ==> c.decrypt(c.encrypt(s).value) == Some(s)
  }

  /** Nothing that looks like a token reads as something else. */
  predicate TokensAreTheirOwn(x: Json, c: Cipher) {
    match x
    case Dict(fields) => forall k :: k in fields ==> TokensAreTheirOwn(fields[k], c)
    case List(items) => forall i :: 0 <= i < |items| ==> TokensAreTheirOwn(items[i], c)
    case Str(s) => IsToken(s) ==> DecryptedString(s, c) == s
    case _ => true
  }

  lemma TokenHasPrefix(t: string)
    ensures IsToken(ENC_PREFIX + t) && (ENC_PREFIX + t)[|ENC_PREFIX|..] == t
  {
  }

  /** What is stored decrypts to what was saved, exactly when no plaintext in it reads as a token
      of something else. */
  lemma {:induction false} DecryptUndoesEncrypt(x: Json, keys: set<string>, c: Cipher, key: Option<string>)
    requires Inverts(c)
    ensures Decrypt(Encrypt(x, keys, c, key), c) == x <==> TokensAreTheirOwn(x, c)
  {
    var d := Decrypt(Encrypt(x, keys, c, key), c);
    match x
    case Dict(fields) =>
      forall k | k in fields ensures d.fields[k] == fields[k] <==> TokensAreTheirOwn(fields[k], c) {
        DecryptUndoesEncrypt(fields[k], keys, c, Some(k));
      }
      assert d.fields == fields <==> forall k :: k in fields ==> d.fields[k] == fields[k];
    case List(items) =>
      forall i | 0 <= i < |items| ensures d.items[i] == items[i] <==> TokensAreTheirOwn(items[i], c) {
        DecryptUndoesEncrypt(items[i], keys, c, key);
      }
      assert d.items == items <==> forall i :: 0 <= i < |items| ==> d.items[i] == items[i];
    case Str(s) =>
      if c.encrypt(s).Some? { TokenHasPrefix(c.encrypt(s).value); }
    case _ =>
  }

  /** A second encryption, by any cipher that manages no more strings, changes nothing. */
  lemma {:induction false} EncryptTwice(x: Json, keys: set<string>, c: Cipher, again: Cipher, key: Option<string>)
    requires forall s :: c.encrypt(s).None? ==> again.encrypt(s).None?
    ensures Encrypt(Encrypt(x, keys, c, key), keys, again, key) == Encrypt(x, keys, c, key)
  {
    var e := Encrypt(x, keys, c, key);
    match x
    case Dict(fields) =>
      forall k | k in fields ensures Encrypt(e, keys, again, key).fields[k] == e.fields[k] {
        EncryptTwice(fields[k], keys, c, again, Some(k));
      }
      assert Encrypt(e, keys, again, key).fields == e.fields;
    case List(items) =>
      forall i | 0 <= i < |items| ensures Encrypt(e, keys, again, key).items[i] == e.items[i] {
        EncryptTwice(items[i], keys, c, again, key);
      }
      assert Encrypt(e, keys, again, key).items == e.items;
    case Str(s) =>
      if c.encrypt(s).Some? { TokenHasPrefix(c.encrypt(s).value); }
    case _ =>
  }

  /** Every set string under a sensitive name, or in lists under one, is a token. */
  predicate Sealed(x: Json, keys: set<string>, key: Option<string>) {
    match x
    case Dict(fields) => forall k :: k in fields ==> Sealed(fields[k], keys, Some(k))
    case List(items) => forall i :: 0 <= i < |items| ==> Sealed(items[i], keys, key)
    case Str(s) => key.Some? && key.value in keys && s != "" ==> IsToken(s)
    case _ => true
  }

  /** Nothing secret is stored in the clear, unless the cipher itself failed on it. */
  lemma {:induction false} EncryptSeals(x: Json, keys: set<string>, c: Cipher, key: Option<string>)
    requires forall s :: c.encrypt(s).Some?
    ensures Sealed(Encrypt(x, keys, c, key), keys, key)
  {
    match x
    case Dict(fields) =>
      forall k | k in fields ensures Sealed(Encrypt(x, keys, c, key).fields[k], keys, Some(k)) {
        EncryptSeals(fields[k], keys, c, Some(k));
      }
    case List(items) =>
      forall i | 0 <= i < |items| ensures Sealed(Encrypt(x, keys, c, key).items[i], keys, key) {
        EncryptSeals(items[i], keys, c, key);
      }
    case Str(s) => TokenHasPrefix(c.encrypt(s).value);
    case _ =>
  }

  /** Decryption as it runs, replacing the values of a dict and the items of a list in turn. */
  method DecryptAll(data: Json, c: Cipher) returns (r: Json)
    ensures r == Decrypt(data, c)
    decreases data
  {
    match data {
      case Dict(fields) =>
        var out := fields;
        var todo := fields.Keys;
        while todo != {}
          invariant todo <= fields.Keys && out.Keys == fields.Keys
          invariant forall k :: k in fields ==> out[k] == if k in todo then fields[k] else Decrypt(fields[k], c)
          decreases todo
        {
          var k :| k in todo;
          var v := DecryptAll(fields[k], c);
          out, todo := out[k := v], todo - {k};
        }
        r := Dict(out);
      case List(items) =>
        var out := items;
        for i := 0 to |items|
          invariant |out| == |items|
          invariant forall j :: 0 <= j < |items| ==> out[j] == if j < i then Decrypt(items[j], c) else items[j]
        {
          var v := DecryptAll(items[i], c);
          out := out[i := v];
        }
        r := List(out);
      case Str(s) => r := Str(DecryptedString(s, c));
      case _ => r := data;
    }
  }
}
