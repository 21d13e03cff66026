/**
 * An abstract ordered key/value engine standing in for the RocksDB database the object
 * store drives.  It offers what the store uses: point lookup, put, remove, an atomic
 * write batch, a seek to the first key not below a given key with in-order iteration
 * from there, and `keyMayExist`.  The engine itself (files, caches, write-ahead log) is
 * not part of this model.
 */
module OrderedKv {
  import opened Wrappers
  import opened Bytes

  type Key = seq<byte>
  type Value = seq<byte>

  predicate StrictlySorted(s: seq<Key>) {
    forall i, j :: 0 <= i < j < |s| ==> Less(s[i], s[j])
  }

  /** Position of the first key of `keys` that is not below `p` (an iterator's `seek`). */
  function Seek(keys: seq<Key>, p: Key): (i: nat)
    ensures i <= |keys|
    decreases |keys|
  {
    if keys == [] || LessEq(p, keys[0]) then 0 else 1 + Seek(keys[1..], p)
  }

  /** Every key before the seek position is below `p`; the key at it, if any, is not. */
  lemma {:induction false} SeekSplits(keys: seq<Key>, p: Key)
    ensures forall j :: 0 <= j < Seek(keys, p) ==> Less(keys[j], p)
    ensures Seek(keys, p) < |keys| ==> LessEq(p, keys[Seek(keys, p)])
    decreases |keys|
  {
    if keys != [] && !LessEq(p, keys[0]) {
      LessTotal(p, keys[0]);
      SeekSplits(keys[1..], p);
      assert forall j :: 1 <= j < Seek(keys, p) ==> keys[j] == keys[1..][j - 1];
    }
  }

  /** In sorted keys, the keys before the seek position are below `p` and the rest are not. */
  lemma SeekSorted(keys: seq<Key>, p: Key)
    requires StrictlySorted(keys)
    ensures forall j :: 0 <= j < Seek(keys, p) ==> Less(keys[j], p)
    ensures forall j :: Seek(keys, p) <= j < |keys| ==> LessEq(p, keys[j])
  {
    SeekSplits(keys, p);
    var i := Seek(keys, p);
    forall j | i < j < |keys|
      ensures LessEq(p, keys[j])
    {
      if p != keys[i] {
        LessTransitive(p, keys[i], keys[j]);
      }
    }
  }

  /** In sorted keys a present key is found exactly at its seek position. */
  lemma SeekFindsPresent(keys: seq<Key>, k: Key)
    requires StrictlySorted(keys) && k in keys
    ensures Seek(keys, k) < |keys| && keys[Seek(keys, k)] == k
  {
    var i := Seek(keys, k);
    SeekSplits(keys, k);
    var j :| 0 <= j < |keys| && keys[j] == k;
    if j < i {
      LessIrreflexive(k);
    } else if j > i {
      assert Less(keys[i], k);
      if keys[i] != k {
        LessAsymmetric(k, keys[i]);
      }
    }
  }

  lemma InsertKeepsSorted(keys: seq<Key>, k: Key, i: nat)
    requires StrictlySorted(keys) && i == Seek(keys, k) && k !in keys
    ensures StrictlySorted(keys[..i] + [k] + keys[i..])
  {
    SeekSorted(keys, k);
    var s := keys[..i] + [k] + keys[i..];
    forall a, b | 0 <= a < b < |s|
      ensures Less(s[a], s[b])
    {
      if b < i {
        assert s[a] == keys[a] && s[b] == keys[b];
      } else if b == i {
        assert s[b] == k && s[a] == keys[a];
      } else if a < i {
        assert s[a] == keys[a] && s[b] == keys[b - 1];
        assert LessEq(k, keys[b - 1]) && k != keys[b - 1];
        LessTransitive(keys[a], k, keys[b - 1]);
      } else if a == i {
        assert s[a] == k && s[b] == keys[b - 1];
        assert LessEq(k, keys[b - 1]) && k != keys[b - 1];
      } else {
        assert s[a] == keys[a - 1] && s[b] == keys[b - 1];
      }
    }
  }

  lemma DeleteKeepsSorted(keys: seq<Key>, i: nat)
    requires StrictlySorted(keys) && i < |keys|
    ensures StrictlySorted(keys[..i] + keys[i + 1..])
    ensures forall k :: k in keys[..i] + keys[i + 1..] <==> k in keys && k != keys[i]
  {
    var s := keys[..i] + keys[i + 1..];
    forall a, b | 0 <= a < b < |s|
      ensures Less(s[a], s[b])
    {
      var a', b' := if a < i then a else a + 1, if b < i then b else b + 1;
      assert s[a] == keys[a'] && s[b] == keys[b'];
    }
    forall k | k in keys && k != keys[i]
      ensures k in s
    {
      var j :| 0 <= j < |keys| && keys[j] == k;
      if j < i {
        assert s[j] == k;
      } else {
        assert s[j - 1] == k;
      }
    }
    forall k | k in s
      ensures k != keys[i]
    {
      var j :| 0 <= j < |s| && s[j] == k;
      var j' := if j < i then j else j + 1;
      assert keys[j'] == k && j' != i;
      if j' < i {
        assert Less(keys[j'], keys[i]);
      } else {
        assert Less(keys[i], keys[j']);
      }
      LessIrreflexive(k);
    }
  }

  /**
   * The engine's state: the stored pairs, their keys in ascending order (for iterators)
   * and the set of keys its existence filter may answer "maybe" for.  The filter only
   * grows, so `MayExist` has false positives but never false negatives.
   */
  datatype Engine = Engine(keys: seq<Key>, vals: map<Key, Value>, filter: set<Key>) {

    ghost predicate Valid() {
      && StrictlySorted(keys)
      && (forall k :: k in vals <==> k in keys)
      && vals.Keys <= filter
    }

    /** `keyMayExist`: false only for a key that is certainly absent. */
    predicate MayExist(k: Key)
      requires Valid()
      ensures k in vals ==> MayExist(k)
    {
      k in filter
    }

    function Get(k: Key): (r: Option<Value>)
      ensures r.Some? <==> k in vals
      ensures r.Some? ==> r.value == vals[k]
    {
      if k in vals then Some(vals[k]) else None
    }

    function Put(k: Key, v: Value): (e: Engine)
      ensures e.vals == vals[k := v] && e.filter == filter + {k}
    {
      var i := Seek(keys, k);
      if i < |keys| && keys[i] == k then Engine(keys, vals[k := v], filter + {k})
      else Engine(keys[..i] + [k] + keys[i..], vals[k := v], filter + {k})
    }

    function Remove(k: Key): (e: Engine)
      ensures e.vals == vals - {k} && e.filter == filter
    {
      var i := Seek(keys, k);
      if i < |keys| && keys[i] == k then Engine(keys[..i] + keys[i + 1..], vals - {k}, filter)
      else Engine(keys, vals - {k}, filter)
    }

    /** A write batch, applied atomically, entry by entry in order (see WriteEffect). */
    function Write(batch: seq<(Key, Value)>): (e: Engine)
      decreases |batch|
    {
      if batch == [] then this else Put(batch[0].0, batch[0].1).Write(batch[1..])
    }
  }

  /** A put keeps the keys sorted, in step with the stored pairs, and covered by the filter. */
  lemma PutKeepsValid(e: Engine, k: Key, v: Value)
    requires e.Valid()
    ensures e.Put(k, v).Valid()
  {
    var i := Seek(e.keys, k);
    if !(i < |e.keys| && e.keys[i] == k) {
      assert k !in e.keys by {
        if k in e.keys { SeekFindsPresent(e.keys, k); }
      }
      InsertKeepsSorted(e.keys, k, i);
    }
  }

  /** A remove keeps the keys sorted, in step with the stored pairs, and covered by the filter. */
  lemma RemoveKeepsValid(e: Engine, k: Key)
    requires e.Valid()
    ensures e.Remove(k).Valid()
  {
    var i := Seek(e.keys, k);
    if i < |e.keys| && e.keys[i] == k {
      DeleteKeepsSorted(e.keys, i);
    } else {
      assert k !in e.keys by {
        if k in e.keys { SeekFindsPresent(e.keys, k); }
      }
    }
  }

  /** A write batch keeps the engine valid. */
  lemma {:induction false} WriteKeepsValid(e: Engine, batch: seq<(Key, Value)>)
    requires e.Valid()
    ensures e.Write(batch).Valid()
    decreases |batch|
  {
    if batch != [] {
      PutKeepsValid(e, batch[0].0, batch[0].1);
      WriteKeepsValid(e.Put(batch[0].0, batch[0].1), batch[1..]);
    }
  }

  /**
   * After a write batch the batch's keys are stored, each with the value of its last
   * occurrence in the batch, and every other key is as it was.
   */
  lemma {:induction false} WriteEffect(e: Engine, batch: seq<(Key, Value)>)
    ensures forall k :: k in e.Write(batch).vals <==> k in e.vals || k in BatchKeys(batch)
    ensures forall k :: k in e.vals && k !in BatchKeys(batch) ==> e.Write(batch).vals[k] == e.vals[k]
    ensures forall i :: 0 <= i < |batch| && IsLastWrite(batch, i) ==>
              batch[i].0 in e.Write(batch).vals && e.Write(batch).vals[batch[i].0] == batch[i].1
    decreases |batch|
  {
    if batch != [] {
      var first := e.Put(batch[0].0, batch[0].1);
      WriteEffect(first, batch[1..]);
      assert e.Write(batch) == first.Write(batch[1..]);
      assert forall i :: 1 <= i < |batch| && IsLastWrite(batch, i) ==> IsLastWrite(batch[1..], i - 1);
      assert forall k :: k in BatchKeys(batch) <==> k == batch[0].0 || k in BatchKeys(batch[1..]);
    }
  }

  function BatchKeys(batch: seq<(Key, Value)>): set<Key> {
    set i | 0 <= i < |batch| :: batch[i].0
  }

  lemma BatchKeysAppend(batch: seq<(Key, Value)>, w: (Key, Value))
    ensures BatchKeys(batch + [w]) == BatchKeys(batch) + {w.0}
  {
    var b := batch + [w];
    assert forall i :: 0 <= i < |batch| ==> b[i] == batch[i];
    assert b[|batch|] == w;
  }

  /** No later entry of the batch writes the same key as entry `i`. */
  predicate IsLastWrite(batch: seq<(Key, Value)>, i: nat)
    requires i < |batch|
  {
    forall j :: i < j < |batch| ==> batch[j].0 != batch[i].0
  }
}
