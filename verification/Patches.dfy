/**
  Several writers sending their statements to one keyed table, each statement atomic.
*/
module Patches {
  import opened Common

  function Lookup<K, V>(m: map<K, V>, p: K): Option<V> {
    if p in m then Some(m[p]) else None
  }

  /** The statements themselves, each atomic, with the writer that sent it. */
  datatype Op<K, V> = Put(writer: nat, rows: map<K, V>) | Delete(writer: nat, keys: set<K>)
  {
    predicate Touches(p: K) {
      match this case Put(_, rows) => p in rows case Delete(_, keys) => p in keys
    }
  }

  function Apply<K, V>(db: map<K, V>, op: Op<K, V>): map<K, V> {
    match op case Put(_, rows) => db + rows case Delete(_, keys) => db - keys
  }

  function ApplyAll<K, V>(db: map<K, V>, ops: seq<Op<K, V>>): map<K, V> {
    if ops == [] then db else Apply(ApplyAll(db, ops[..|ops| - 1]), ops[|ops| - 1])
  }

  /** One writer's statements, in their order. */
  function Own<K, V>(ops: seq<Op<K, V>>, t: nat): seq<Op<K, V>> {
    if ops == [] then []
    else Own(ops[..|ops| - 1], t) + if ops[|ops| - 1].writer == t then [ops[|ops| - 1]] else []
  }

  /** What ends at a key is what the one writer that touches it does there on its own. */
  lemma {:induction false} OwnerDecides<K, V>(db: map<K, V>, ops: seq<Op<K, V>>, t: nat, p: K)
    requires forall op :: op in ops && op.writer != t ==> !op.Touches(p)
    ensures Lookup(ApplyAll(db, ops), p) == Lookup(ApplyAll(db, Own(ops, t)), p)
  {
    if ops != [] {
      var init, last := ops[..|ops| - 1], ops[|ops| - 1];
      OwnerDecides(db, init, t, p);
      if last.writer == t {
        assert (Own(init, t) + [last])[..|Own(init, t)|] == Own(init, t);
      } else {
        assert Own(ops, t) == Own(init, t);
      }
    }
  }

  lemma {:induction false} UntouchedStays<K, V>(db: map<K, V>, ops: seq<Op<K, V>>, p: K)
    requires forall op :: op in ops ==> !op.Touches(p)
    ensures Lookup(ApplyAll(db, ops), p) == Lookup(db, p)
  {
    if ops != [] {
      assert !ops[|ops| - 1].Touches(p);
      UntouchedStays(db, ops[..|ops| - 1], p);
    }
  }

  ghost predicate DisjointWriters<K(!new), V(!new)>(ops: seq<Op<K, V>>) {
    forall a, b, p: K :: a in ops && b in ops && a.writer != b.writer && a.Touches(p) ==> !b.Touches(p)
  }

  lemma {:induction false} OwnIsMine<K, V>(ops: seq<Op<K, V>>, t: nat)
    ensures forall op :: op in Own(ops, t) <==> op in ops && op.writer == t
  {
    if ops != [] { OwnIsMine(ops[..|ops| - 1], t); }
  }

  /** Any two schedules of the same writers leave the same table, if no key has two writers. */
  lemma DisjointWritersCommute<K(!new), V(!new)>(db: map<K, V>, a: seq<Op<K, V>>, b: seq<Op<K, V>>)
    requires DisjointWriters(a) && forall t :: Own(a, t) == Own(b, t)
    ensures ApplyAll(db, a) == ApplyAll(db, b)
  {
    forall op ensures op in a <==> op in b {
      OwnIsMine(a, op.writer);
      OwnIsMine(b, op.writer);
      assert Own(a, op.writer) == Own(b, op.writer);
    }
    var x, y := ApplyAll(db, a), ApplyAll(db, b);
    forall p ensures Lookup(x, p) == Lookup(y, p) {
      if op :| op in a && op.Touches(p) {
        OwnerDecides(db, a, op.writer, p);
        OwnerDecides(db, b, op.writer, p);
        assert Own(a, op.writer) == Own(b, op.writer);
      } else {
        UntouchedStays(db, a, p);
        UntouchedStays(db, b, p);
      }
    }
    assert forall p :: p in x <==> Lookup(x, p).Some?;
    assert forall p :: p in y <==> Lookup(y, p).Some?;
    forall p | p in x ensures x[p] == y[p] {
      assert Lookup(x, p) == Lookup(y, p);
    }
  }

  lemma {:induction false} NoneOfMine<K, V>(ops: seq<Op<K, V>>, t: nat)
    requires forall op :: op in ops ==> op.writer != t
    ensures Own(ops, t) == []
  {
    if ops != [] {
      assert ops[|ops| - 1].writer != t;
      NoneOfMine(ops[..|ops| - 1], t);
    }
  }
}
