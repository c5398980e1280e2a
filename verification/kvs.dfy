/** The `KeyValueStore` interface (put / get / delete over byte strings) and
    its two in-memory backends, a hash map and an ordered map. Both backends
    are mathematical maps here; `Step` is the observable meaning of one
    operation, and each backend's methods are proved against it. */
module Kvs {
  import opened Common

  /** One call on the `KeyValueStore` interface. */
  datatype Op = Put(key: Bytes, value: Bytes) | Get(key: Bytes) | Delete(key: Bytes)

  /** What that call returns. */
  datatype Outcome = Wrote(existence: Existence) | Read(found: Option<Bytes>) | Removed(existence: Existence)

  /** The store after one operation, and the operation's result. */
  function Step(m: map<Bytes, Bytes>, op: Op): (r: (map<Bytes, Bytes>, Outcome))
    // only the key operated on can change
    ensures forall k | k != op.key :: (k in r.0 <==> k in m) && (k in r.0 ==> r.0[k] == m[k])
    // put binds the key to the value and reports whether it was bound before
    ensures op.Put? ==> op.key in r.0 && r.0[op.key] == op.value
                        && r.1.Wrote? && r.1.existence.Known() && (r.1.existence == Present <==> op.key in m)
    // get leaves the store alone and finds exactly the bound value
    ensures op.Get? ==> r.0 == m && r.1.Read? && (r.1.found.Some? <==> op.key in m)
                        && (r.1.found.Some? ==> r.1.found.value == m[op.key])
    // delete unbinds the key and reports whether it was bound before
    ensures op.Delete? ==> op.key !in r.0
                           && r.1.Removed? && r.1.existence.Known() && (r.1.existence == Present <==> op.key in m)
  {
    match op
    case Put(k, v) => (m[k := v], Wrote(NewExistence(k in m)))
    case Get(k) => (m, Read(if k in m then Some(m[k]) else None))
    case Delete(k) => (m - {k}, Removed(NewExistence(k in m)))
  }

  /** The store after a sequence of operations, and their results in order. */
  function Run(m: map<Bytes, Bytes>, ops: seq<Op>): (r: (map<Bytes, Bytes>, seq<Outcome>))
    ensures |r.1| == |ops|
  {
    if ops == [] then (m, [])
    else
      var (before, outcomes) := Run(m, ops[..|ops| - 1]);
      var (after, last) := Step(before, ops[|ops| - 1]);
      (after, outcomes + [last])
  }

  /** The `HashMap<Vec<u8>, Vec<u8>>` backend. */
  class HashMapStore {
    var entries: map<Bytes, Bytes>

    constructor ()
      ensures entries == map[]
    {
      entries := map[];
    }

    /** Reports whether `key` was bound, then binds it to `value`. */
    method Put(key: Bytes, value: Bytes) returns (e: Existence)
      modifies this
      ensures e == Present <==> key in old(entries)
      ensures e.Known()
      ensures key in entries && entries[key] == value
      ensures forall k | k != key :: (k in entries <==> k in old(entries)) && (k in entries ==> entries[k] == old(entries)[k])
      ensures (entries, Wrote(e)) == Step(old(entries), Op.Put(key, value))
    {
      var existed := key in entries;
      entries := entries[key := value];
      e := NewExistence(existed);
    }

    /** The value bound to `key`, if any; the map is left alone. */
    method Get(key: Bytes) returns (r: Option<Bytes>)
      ensures r.Some? <==> key in entries
      ensures r.Some? ==> r.value == entries[key]
      ensures (entries, Read(r)) == Step(entries, Op.Get(key))
    {
      r := if key in entries then Some(entries[key]) else None;
    }

    /** Reports whether `key` was bound, then unbinds it. */
    method Delete(key: Bytes) returns (e: Existence)
      modifies this
      ensures e == Present <==> key in old(entries)
      ensures e.Known()
      ensures key !in entries
      ensures forall k | k != key :: (k in entries <==> k in old(entries)) && (k in entries ==> entries[k] == old(entries)[k])
      ensures (entries, Removed(e)) == Step(old(entries), Op.Delete(key))
    {
      var existed := key in entries;
      entries := entries - {key};
      e := NewExistence(existed);
    }
  }

  /** The `BTreeMap<Vec<u8>, Vec<u8>>` backend. Key order is not observable
      through the interface, so it is the same map as the hash backend. */
  class BTreeMapStore {
    var entries: map<Bytes, Bytes>

    constructor ()
      ensures entries == map[]
    {
      entries := map[];
    }

    method Put(key: Bytes, value: Bytes) returns (e: Existence)
      modifies this
      ensures e == Present <==> key in old(entries)
      ensures e.Known()
      ensures key in entries && entries[key] == value
      ensures forall k | k != key :: (k in entries <==> k in old(entries)) && (k in entries ==> entries[k] == old(entries)[k])
      ensures (entries, Wrote(e)) == Step(old(entries), Op.Put(key, value))
    {
      var existed := key in entries;
      entries := entries[key := value];
      e := NewExistence(existed);
    }

    method Get(key: Bytes) returns (r: Option<Bytes>)
      ensures r.Some? <==> key in entries
      ensures r.Some? ==> r.value == entries[key]
      ensures (entries, Read(r)) == Step(entries, Op.Get(key))
    {
      r := if key in entries then Some(entries[key]) else None;
    }

    method Delete(key: Bytes) returns (e: Existence)
      modifies this
      ensures e == Present <==> key in old(entries)
      ensures e.Known()
      ensures key !in entries
      ensures forall k | k != key :: (k in entries <==> k in old(entries)) && (k in entries ==> entries[k] == old(entries)[k])
      ensures (entries, Removed(e)) == Step(old(entries), Op.Delete(key))
    {
      var existed := key in entries;
      entries := entries - {key};
      e := NewExistence(existed);
    }
  }

  /** `Run` extended by one operation is `Step` applied to its result. */
  lemma RunSnoc(m: map<Bytes, Bytes>, ops: seq<Op>, op: Op)
    ensures Run(m, ops + [op]) == (Step(Run(m, ops).0, op).0, Run(m, ops).1 + [Step(Run(m, ops).0, op).1])
  {
    assert (ops + [op])[..|ops|] == ops;
  }

  /** Drives a hash store and an ordered store that start equal through the
      same operations: every result and the final contents agree, and both
      follow `Run`. */
  method ReplayOnBoth(h: HashMapStore, b: BTreeMapStore, ops: seq<Op>) returns (hs: seq<Outcome>, bs: seq<Outcome>)
    requires h.entries == b.entries
    modifies h, b
    ensures hs == bs && h.entries == b.entries
    ensures (h.entries, hs) == Run(old(h.entries), ops)
  {
    ghost var start := h.entries;
    hs, bs := [], [];
    for i := 0 to |ops|
      invariant hs == bs && h.entries == b.entries
      invariant (h.entries, hs) == Run(start, ops[..i])
    {
      assert ops[..i + 1] == ops[..i] + [ops[i]];
      RunSnoc(start, ops[..i], ops[i]);
      var out1, out2;
      match ops[i] {
        case Put(k, v) =>
          var e1 := h.Put(k, v);
          var e2 := b.Put(k, v);
          out1, out2 := Wrote(e1), Wrote(e2);
        case Get(k) =>
          var r1 := h.Get(k);
          var r2 := b.Get(k);
          out1, out2 := Read(r1), Read(r2);
        case Delete(k) =>
          var e1 := h.Delete(k);
          var e2 := b.Delete(k);
          out1, out2 := Removed(e1), Removed(e2);
      }
      hs, bs := hs + [out1], bs + [out2];
    }
    assert ops[..|ops|] == ops;
  }

  /** Running two sequences one after the other is running their concatenation. */
  lemma {:induction false} RunAppend(m: map<Bytes, Bytes>, a: seq<Op>, b: seq<Op>)
    ensures Run(m, a + b).0 == Run(Run(m, a).0, b).0
    ensures Run(m, a + b).1 == Run(m, a).1 + Run(Run(m, a).0, b).1
    decreases |b|
  {
    if b == [] {
      assert a + b == a;
    } else {
      var b' := b[..|b| - 1];
      assert (a + b)[..|a + b| - 1] == a + b';
      RunAppend(m, a, b');
    }
  }

  /** Operations on other keys never change the binding of `k`. */
  lemma {:induction false} RunLeavesOtherKeys(m: map<Bytes, Bytes>, ops: seq<Op>, k: Bytes)
    requires forall i | 0 <= i < |ops| :: ops[i].key != k
    ensures k in Run(m, ops).0 <==> k in m
    ensures k in m ==> Run(m, ops).0[k] == m[k]
  {
    if ops != [] {
      RunLeavesOtherKeys(m, ops[..|ops| - 1], k);
    }
  }

  /** A put followed by a get of the same key reads the value written. */
  lemma PutThenGet(m: map<Bytes, Bytes>, k: Bytes, v: Bytes)
    ensures Run(m, [Op.Put(k, v), Op.Get(k)]).1 == [Wrote(NewExistence(k in m)), Read(Some(v))]
  {
    RunSnoc(m, [], Op.Put(k, v));
    RunSnoc(m, [Op.Put(k, v)], Op.Get(k));
  }

  /** Read-your-write across unrelated traffic: after `put(k, v)` and any
      operations on other keys, `get(k)` returns `v`. */
  lemma ReadYourWrite(m: map<Bytes, Bytes>, k: Bytes, v: Bytes, others: seq<Op>)
    requires forall i | 0 <= i < |others| :: others[i].key != k
    ensures var ops := [Op.Put(k, v)] + others + [Op.Get(k)];
            Run(m, ops).1[|ops| - 1] == Read(Some(v))
  {
    var ops := [Op.Put(k, v)] + others + [Op.Get(k)];
    assert ops[..|ops| - 1] == [Op.Put(k, v)] + others;
    RunAppend(m, [Op.Put(k, v)], others);
    assert [Op.Put(k, v)][..0] == [];
    RunLeavesOtherKeys(m[k := v], others, k);
  }

  /** Deleting a key twice: the second delete reports `Absent` and changes nothing. */
  lemma DeleteTwice(m: map<Bytes, Bytes>, k: Bytes)
    ensures Run(m, [Op.Delete(k), Op.Delete(k)]).1 == [Removed(NewExistence(k in m)), Removed(Absent)]
    ensures Run(m, [Op.Delete(k), Op.Delete(k)]).0 == Run(m, [Op.Delete(k)]).0 == m - {k}
  {
    RunSnoc(m, [], Op.Delete(k));
    RunSnoc(m, [Op.Delete(k)], Op.Delete(k));
  }
}
