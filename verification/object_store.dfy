/**
 * The RocksDB-backed object store: a content-addressed map from raw object ids to
 * serialized revision objects, with an open/closed and read-only discipline, single
 * and bulk operations reporting per-object outcomes to a listener, and lookup of ids
 * by prefix.  The database is the ordered engine of module OrderedKv; the calls the
 * store makes on a `BulkOpListener` are recorded, in order, as a sequence of events.
 */
module ObjectStore {
  import opened Wrappers
  import opened Bytes
  import opened ObjectIds
  import opened RevObjects
  import opened OrderedKv

  /** One call the store makes on the caller's listener. */
  datatype Event =
    | Found(id: ObjectId, size: Option<nat>)
    | NotFound(id: ObjectId)
    | Inserted(id: ObjectId, length: nat)
    | Deleted(id: ObjectId)

  /** The exceptions the store raises. */
  datatype StoreError =
    | Closed                      // IllegalStateException: the database is closed
    | ReadOnly                    // IllegalStateException: the database is read only
    | NoSuchObject(id: ObjectId)  // IllegalArgumentException: a required object is missing
    | Unreadable(id: ObjectId)    // the serializer could not read the stored bytes

  /** Largest number of objects `putAll` writes in one batch. */
  const BATCH_SIZE: nat := 10000

  /** Every stored key is a raw object id. */
  ghost predicate KeysAreIds(e: Engine) {
    forall k :: k in e.vals ==> |k| == NUM_BYTES
  }

  /**
   * The store's private existence test: a cheap `keyMayExist` pre-check, then, only
   * when that says "maybe", a definitive lookup.  The pre-check loses nothing.
   */
  function Probe(e: Engine, key: Key): (r: bool)
    requires e.Valid()
    ensures r <==> key in e.vals
  {
    e.MayExist(key) && e.Get(key).Some?
  }

  // ---------------------------------------------------------------------------
  // getAll: one step of the pull iterator, and the whole iteration

  /** The listener call `getAll` makes for `id` when its stored bytes are readable. */
  function GetAllEvent(e: Engine, id: ObjectId, expected: Option<Kind>): (r: Event)
    ensures r.id == id
    ensures r.Found? <==> Yield(e, id, expected) != []
    ensures r.Found? ==> r.size == Some(|e.vals[id]|)
  {
    match e.Get(id)
    case None => NotFound(id)
    case Some(v) =>
      match Decode(id, v)
      case Some(o) => if IsInstance(o, expected) then Found(id, Some(|v|)) else NotFound(id)
      case None => NotFound(id)
  }

  /** The stored bytes of every requested id that is present can be read. */
  ghost predicate Readable(e: Engine, ids: seq<ObjectId>) {
    forall j :: 0 <= j < |ids| && ids[j] in e.vals ==> Decode(ids[j], e.vals[ids[j]]).Some?
  }

  /**
   * One `computeNext` over the ids not yet consumed: the listener calls it makes, what
   * it returns (an object, or None for end of data) and the ids left to consume.  Ids
   * that are missing or of another kind are reported as not found and skipped.
   */
  function Pull(e: Engine, ids: seq<ObjectId>, expected: Option<Kind>)
    : (p: (seq<Event>, Result<Option<RevObject>, StoreError>, seq<ObjectId>))
    ensures |p.2| <= |ids| && (p.1 != Ok(None) ==> |p.2| < |ids|)
    decreases |ids|
  {
    if ids == [] then ([], Ok(None), [])
    else
      var id := ids[0];
      match e.Get(id)
      case None =>
        var (ev, r, rest) := Pull(e, ids[1..], expected);
        ([NotFound(id)] + ev, r, rest)
      case Some(v) =>
        match Decode(id, v)
        case None => ([], Err(Unreadable(id)), ids[1..])
        case Some(o) =>
          if IsInstance(o, expected) then ([Found(id, Some(|v|))], Ok(Some(o)), ids[1..])
          else
            var (ev, r, rest) := Pull(e, ids[1..], expected);
            ([NotFound(id)] + ev, r, rest)
  }

  /** One pull consumes a prefix of the ids; it reaches the end of data only having consumed them all. */
  lemma {:induction false} PullConsumesPrefix(e: Engine, ids: seq<ObjectId>, expected: Option<Kind>)
    ensures var p := Pull(e, ids, expected);
            p.2 == ids[|ids| - |p.2|..] && (p.1 == Ok(None) ==> p.2 == [])
    decreases |ids|
  {
    if ids != [] {
      PullConsumesPrefix(e, ids[1..], expected);
      var p1 := Pull(e, ids[1..], expected);
      assert ids[1..][|ids[1..]| - |p1.2|..] == ids[|ids| - |p1.2|..];
    }
  }

  /**
   * One pull makes exactly one listener call per id it consumed, in order, except for an
   * unreadable id, which ends the pull with an error instead.
   */
  lemma {:induction false} PullEvents(e: Engine, ids: seq<ObjectId>, expected: Option<Kind>)
    ensures var p := Pull(e, ids, expected);
            |p.0| == |ids| - |p.2| - (if p.1.Err? then 1 else 0)
    ensures var p := Pull(e, ids, expected);
            forall j :: 0 <= j < |p.0| ==> p.0[j] == GetAllEvent(e, ids[j], expected)
    decreases |ids|
  {
    if ids != [] {
      PullEvents(e, ids[1..], expected);
      var p1 := Pull(e, ids[1..], expected);
      var id := ids[0];
      if id !in e.vals || (Decode(id, e.vals[id]).Some? && !IsInstance(Decode(id, e.vals[id]).value, expected)) {
        assert Pull(e, ids, expected) == ([NotFound(id)] + p1.0, p1.1, p1.2);
        forall j | 1 <= j < 1 + |p1.0|
          ensures ([NotFound(id)] + p1.0)[j] == GetAllEvent(e, ids[j], expected)
        {
          assert ids[1..][j - 1] == ids[j];
        }
      }
    }
  }

  /**
   * An object a pull returns is the decoding of the last id it consumed, which is stored
   * and of the expected kind; an error names the last id consumed, whose bytes are unreadable.
   */
  lemma {:induction false} PullResult(e: Engine, ids: seq<ObjectId>, expected: Option<Kind>)
    ensures var p := Pull(e, ids, expected);
            p.1.Err? ==> |p.2| < |ids| && p.1 == Err(Unreadable(ids[|ids| - |p.2| - 1]))
    ensures var p := Pull(e, ids, expected);
            p.1.Ok? && p.1.value.Some? ==>
              var id := ids[|ids| - |p.2| - 1];
              id in e.vals && Decode(id, e.vals[id]) == Some(p.1.value.value) && IsInstance(p.1.value.value, expected)
    decreases |ids|
  {
    if ids != [] {
      PullResult(e, ids[1..], expected);
      var p1 := Pull(e, ids[1..], expected);
      var id := ids[0];
      if id !in e.vals || (Decode(id, e.vals[id]).Some? && !IsInstance(Decode(id, e.vals[id]).value, expected)) {
        assert Pull(e, ids, expected) == ([NotFound(id)] + p1.0, p1.1, p1.2);
        if p1.1 != Ok(None) {
          assert ids[1..][|ids[1..]| - |p1.2| - 1] == ids[|ids| - |p1.2| - 1];
        }
      }
    }
  }

  /**
   * One step of a pull, after listener calls `done`: the first id either ends the pull
   * or is reported not found and the pull goes on with the rest.
   */
  lemma PullStep(e: Engine, ids: seq<ObjectId>, expected: Option<Kind>, done: seq<Event>)
    requires ids != []
    ensures var id, p, p1 := ids[0], Pull(e, ids, expected), Pull(e, ids[1..], expected);
            if id !in e.vals then
              (done + p.0, p.1, p.2) == ((done + [NotFound(id)]) + p1.0, p1.1, p1.2)
            else if Decode(id, e.vals[id]).None? then
              p == ([], Err(Unreadable(id)), ids[1..])
            else if IsInstance(Decode(id, e.vals[id]).value, expected) then
              p == ([Found(id, Some(|e.vals[id]|))], Ok(Some(Decode(id, e.vals[id]).value)), ids[1..])
            else
              (done + p.0, p.1, p.2) == ((done + [NotFound(id)]) + p1.0, p1.1, p1.2)
  {
    var id, p1 := ids[0], Pull(e, ids[1..], expected);
    if id !in e.vals || (Decode(id, e.vals[id]).Some? && !IsInstance(Decode(id, e.vals[id]).value, expected)) {
      assert Pull(e, ids, expected) == ([NotFound(id)] + p1.0, p1.1, p1.2);
      assert done + ([NotFound(id)] + p1.0) == (done + [NotFound(id)]) + p1.0;
    }
  }

  /**
   * Pulling until the end with the store unchanged: all listener calls, all objects
   * returned, and the error that stopped the iteration, if any.
   */
  ghost function Drain(e: Engine, ids: seq<ObjectId>, expected: Option<Kind>)
    : (seq<Event>, seq<RevObject>, Option<StoreError>)
    decreases |ids|
  {
    var (ev, r, rest) := Pull(e, ids, expected);
    match r
    case Err(err) => (ev, [], Some(err))
    case Ok(None) => (ev, [], None)
    case Ok(Some(o)) =>
      var (ev', os, err) := Drain(e, rest, expected);
      (ev + ev', [o] + os, err)
  }

  /** The object `getAll` yields for `id`, if any. */
  function Yield(e: Engine, id: ObjectId, expected: Option<Kind>): seq<RevObject> {
    if id in e.vals && Decode(id, e.vals[id]).Some? && IsInstance(Decode(id, e.vals[id]).value, expected)
    then [Decode(id, e.vals[id]).value] else []
  }

  /** The requested objects that are stored and of the expected kind, in request order. */
  ghost function Matching(e: Engine, ids: seq<ObjectId>, expected: Option<Kind>): seq<RevObject>
    decreases |ids|
  {
    if ids == [] then [] else Yield(e, ids[0], expected) + Matching(e, ids[1..], expected)
  }

  /** Draining is one listener call for the first id, then draining the rest. */
  lemma DrainStep(e: Engine, ids: seq<ObjectId>, expected: Option<Kind>)
    requires ids != [] && (ids[0] in e.vals ==> Decode(ids[0], e.vals[ids[0]]).Some?)
    ensures var d, d1 := Drain(e, ids, expected), Drain(e, ids[1..], expected);
            d == ([GetAllEvent(e, ids[0], expected)] + d1.0, Yield(e, ids[0], expected) + d1.1, d1.2)
  {
    var id := ids[0];
    var p1 := Pull(e, ids[1..], expected);
    if id in e.vals && IsInstance(Decode(id, e.vals[id]).value, expected) {
      assert Pull(e, ids, expected).2 == ids[1..];
    } else {
      assert Pull(e, ids, expected) == ([NotFound(id)] + p1.0, p1.1, p1.2);
      assert GetAllEvent(e, id, expected) == NotFound(id) && Yield(e, id, expected) == [];
      if !(p1.1.Ok? && p1.1.value.Some?) {
        var d1 := Drain(e, ids[1..], expected);
        assert d1 == (p1.0, [], d1.2);
        assert Drain(e, ids, expected) == ([NotFound(id)] + p1.0, [], d1.2);
        assert Yield(e, id, expected) + d1.1 == [];
      } else {
        var rest := Drain(e, p1.2, expected);
        assert Drain(e, ids[1..], expected) == (p1.0 + rest.0, [p1.1.value.value] + rest.1, rest.2);
        assert Drain(e, ids, expected) == (([NotFound(id)] + p1.0) + rest.0, [p1.1.value.value] + rest.1, rest.2);
        assert ([NotFound(id)] + p1.0) + rest.0 == [NotFound(id)] + (p1.0 + rest.0);
        assert [] + ([p1.1.value.value] + rest.1) == [p1.1.value.value] + rest.1;
      }
    }
  }

  /**
   * A complete `getAll` iteration over readable data yields exactly the stored objects of
   * the requested kind in the caller's order, and makes exactly one listener call per
   * requested id: `found` for each object yielded, `notFound` for every other id.
   */
  lemma {:induction false} DrainYieldsMatching(e: Engine, ids: seq<ObjectId>, expected: Option<Kind>)
    requires Readable(e, ids)
    ensures Drain(e, ids, expected).2 == None
    ensures Drain(e, ids, expected).1 == Matching(e, ids, expected)
    ensures |Drain(e, ids, expected).0| == |ids|
    ensures forall j :: 0 <= j < |ids| ==> Drain(e, ids, expected).0[j] == GetAllEvent(e, ids[j], expected)
    decreases |ids|
  {
    if ids != [] {
      assert Readable(e, ids[1..]) by {
        forall j | 0 <= j < |ids[1..]| && ids[1..][j] in e.vals
          ensures Decode(ids[1..][j], e.vals[ids[1..][j]]).Some?
        {
          assert ids[1..][j] == ids[j + 1];
        }
      }
      assert ids[0] in e.vals ==> Decode(ids[0], e.vals[ids[0]]).Some?;
      DrainYieldsMatching(e, ids[1..], expected);
      DrainStep(e, ids, expected);
    }
  }

  // ---------------------------------------------------------------------------
  // deleteAll

  /** `deleteAll` over `ids`: the engine afterwards and the listener calls made. */
  function DeleteAllSpec(e: Engine, ids: seq<ObjectId>, checkExists: bool): (p: (Engine, seq<Event>))
    ensures |p.1| == |ids|
    decreases |ids|
  {
    if ids == [] then (e, [])
    else
      var prev := DeleteAllSpec(e, ids[..|ids| - 1], checkExists);
      var step := DeleteOne(prev.0, ids[|ids| - 1], checkExists);
      (step.0, prev.1 + [step.1])
  }

  /**
   * `deleteAll` for one id: the id is removed, whether or not it was stored; the listener
   * hears `deleted` unless existence is checked and the id is absent.
   */
  function DeleteOne(e: Engine, id: ObjectId, checkExists: bool): (p: (Engine, Event))
    ensures p.0.vals == e.vals - {id}
    ensures p.1 == if !checkExists || id in e.vals then Deleted(id) else NotFound(id)
  {
    if !checkExists || id in e.vals then (e.Remove(id), Deleted(id)) else (e, NotFound(id))
  }

  /** `deleteAll` over the first `i + 1` ids is `deleteAll` over the first `i`, then id `i`. */
  lemma DeleteAllSnoc(e: Engine, ids: seq<ObjectId>, i: nat, checkExists: bool)
    requires i < |ids|
    ensures var prev := DeleteAllSpec(e, ids[..i], checkExists);
            var step := DeleteOne(prev.0, ids[i], checkExists);
            DeleteAllSpec(e, ids[..i + 1], checkExists) == (step.0, prev.1 + [step.1])
  {
    assert ids[..i + 1][..i] == ids[..i];
  }

  /** After `deleteAll` none of the ids is stored, and every other key keeps its value. */
  lemma {:induction false} DeleteAllState(e: Engine, ids: seq<ObjectId>, checkExists: bool)
    ensures var e' := DeleteAllSpec(e, ids, checkExists).0;
            forall k :: k in e'.vals <==> k in e.vals && k !in ids
    ensures var e' := DeleteAllSpec(e, ids, checkExists).0;
            forall k :: k in e'.vals ==> e'.vals[k] == e.vals[k]
    decreases |ids|
  {
    if ids != [] {
      var init := ids[..|ids| - 1];
      var id := ids[|ids| - 1];
      DeleteAllState(e, init, checkExists);
      var e1 := DeleteAllSpec(e, init, checkExists).0;
      assert DeleteAllSpec(e, ids, checkExists).0 == DeleteOne(e1, id, checkExists).0;
      assert forall k :: k in ids <==> k in init || k == id;
    }
  }

  /**
   * The listener calls of `deleteAll`, one per id in order.  With the no-op listener every
   * id is reported deleted; otherwise an id is reported deleted exactly when it was stored
   * and not already deleted earlier in the same call, and not found otherwise.
   */
  lemma {:induction false} DeleteAllEvents(e: Engine, ids: seq<ObjectId>, checkExists: bool)
    ensures var ev := DeleteAllSpec(e, ids, checkExists).1;
            forall j :: 0 <= j < |ids| ==>
              ev[j] == if !checkExists || (ids[j] in e.vals && ids[j] !in ids[..j])
                       then Deleted(ids[j]) else NotFound(ids[j])
    decreases |ids|
  {
    if ids != [] {
      var last := |ids| - 1;
      var init := ids[..last];
      DeleteAllEvents(e, init, checkExists);
      DeleteAllState(e, init, checkExists);
      var prev := DeleteAllSpec(e, init, checkExists);
      var ev := DeleteAllSpec(e, ids, checkExists).1;
      assert ev == prev.1 + [DeleteOne(prev.0, ids[last], checkExists).1];
      forall j | 0 <= j < |ids|
        ensures ev[j] == if !checkExists || (ids[j] in e.vals && ids[j] !in ids[..j])
                         then Deleted(ids[j]) else NotFound(ids[j])
      {
        if j < last {
          assert ev[j] == prev.1[j];
          assert ids[..j] == init[..j] && ids[j] == init[j];
        } else {
          assert ids[..j] == init;
        }
      }
    }
  }

  // ---------------------------------------------------------------------------
  // putAll

  /**
   * The listener call `putAll` makes for `o`, deciding existence against `stored`, the
   * keys of the engine as it stood before `o`'s batch was written.
   */
  function PutEvent(stored: set<Key>, o: RevObject, checkExists: bool): Event {
    if checkExists && o.id in stored then Found(o.id, None) else Inserted(o.id, |Encode(o)|)
  }

  /** The listener calls for one batch, in order. */
  function BatchEvents(stored: set<Key>, batch: seq<RevObject>, checkExists: bool): (r: seq<Event>)
    ensures |r| == |batch|
    ensures forall j :: 0 <= j < |batch| ==> r[j] == PutEvent(stored, batch[j], checkExists)
    decreases |batch|
  {
    if batch == [] then []
    else BatchEvents(stored, batch[..|batch| - 1], checkExists) + [PutEvent(stored, batch[|batch| - 1], checkExists)]
  }

  /** The writes one batch collects: every object not reported found, encoded under its id. */
  function BatchWrites(stored: set<Key>, batch: seq<RevObject>, checkExists: bool): (r: seq<(Key, Value)>)
    ensures |r| <= |batch|
    decreases |batch|
  {
    if batch == [] then []
    else
      var init := BatchWrites(stored, batch[..|batch| - 1], checkExists);
      var o := batch[|batch| - 1];
      if PutEvent(stored, o, checkExists).Found? then init else init + [(o.id, Encode(o))]
  }

  /** Every write of a batch stores one of its objects under its id. */
  lemma {:induction false} BatchWriteOrigin(stored: set<Key>, batch: seq<RevObject>, checkExists: bool, i: nat)
    requires i < |BatchWrites(stored, batch, checkExists)|
    ensures exists j :: 0 <= j < |batch| && BatchWrites(stored, batch, checkExists)[i] == (batch[j].id, Encode(batch[j]))
    decreases |batch|
  {
    var init := batch[..|batch| - 1];
    var o := batch[|batch| - 1];
    var w := BatchWrites(stored, init, checkExists);
    if i < |w| {
      BatchWriteOrigin(stored, init, checkExists, i);
      var j :| 0 <= j < |init| && w[i] == (init[j].id, Encode(init[j]));
      assert BatchWrites(stored, batch, checkExists)[i] == w[i] && init[j] == batch[j];
    } else {
      assert BatchWrites(stored, batch, checkExists)[i] == (o.id, Encode(o));
    }
  }

  /** Every object of a batch is either already stored or written. */
  lemma {:induction false} BatchWritesCover(stored: set<Key>, batch: seq<RevObject>, checkExists: bool)
    ensures var r := BatchWrites(stored, batch, checkExists);
            forall j :: 0 <= j < |batch| ==> batch[j].id in stored || batch[j].id in BatchKeys(r)
    decreases |batch|
  {
    if batch != [] {
      var init := batch[..|batch| - 1];
      var o := batch[|batch| - 1];
      var w := BatchWrites(stored, init, checkExists);
      BatchWritesCover(stored, init, checkExists);
      assert forall j :: 0 <= j < |init| ==> init[j] == batch[j];
      if PutEvent(stored, o, checkExists).Inserted? {
        BatchKeysAppend(w, (o.id, Encode(o)));
      }
    }
  }

  /** With existence checks, nothing already stored is written again. */
  lemma {:induction false} BatchWritesFresh(stored: set<Key>, batch: seq<RevObject>)
    ensures forall w <- BatchWrites(stored, batch, true) :: w.0 !in stored
    decreases |batch|
  {
    if batch != [] {
      var init := batch[..|batch| - 1];
      var o := batch[|batch| - 1];
      var w := BatchWrites(stored, init, true);
      BatchWritesFresh(stored, init);
      if o.id !in stored {
        assert BatchWrites(stored, batch, true) == w + [(o.id, Encode(o))];
      }
    }
  }

  /** The ids of a sequence of objects. */
  function IdsOf(objects: seq<RevObject>): set<Key> {
    set j | 0 <= j < |objects| :: objects[j].id
  }

  /** The ids of `objects[lo..hi]`, by position. */
  function IdsBetween(objects: seq<RevObject>, lo: nat, hi: nat): set<Key>
    requires lo <= hi <= |objects|
  {
    set j | lo <= j < hi :: objects[j].id
  }

  lemma IdsBetweenSplit(objects: seq<RevObject>, lo: nat, mid: nat, hi: nat)
    requires lo <= mid <= hi <= |objects|
    ensures IdsBetween(objects, lo, hi) == IdsBetween(objects, lo, mid) + IdsBetween(objects, mid, hi)
  {
  }

  lemma IdsOfSlice(objects: seq<RevObject>, lo: nat, hi: nat)
    requires lo <= hi <= |objects|
    ensures IdsOf(objects[lo..hi]) == IdsBetween(objects, lo, hi)
  {
    var slice := objects[lo..hi];
    forall k | k in IdsOf(slice) ensures k in IdsBetween(objects, lo, hi) {
      var j :| 0 <= j < |slice| && slice[j].id == k;
      assert objects[lo + j] == slice[j];
    }
    forall k | k in IdsBetween(objects, lo, hi) ensures k in IdsOf(slice) {
      var j :| lo <= j < hi && objects[j].id == k;
      assert slice[j - lo] == objects[j];
    }
  }

  /** Number of objects in the batch that starts with `remaining` objects still to write. */
  function BatchLen(remaining: nat): (n: nat)
    ensures n <= remaining && n <= BATCH_SIZE && (n < BATCH_SIZE ==> n == remaining)
  {
    if remaining < BATCH_SIZE then remaining else BATCH_SIZE
  }

  /** The batch `putAll` collects at position `s`: the next BATCH_SIZE objects, or all that remain. */
  function NextBatch(objects: seq<RevObject>, s: nat): (batch: seq<RevObject>)
    requires s < |objects|
    ensures 0 < |batch| == BatchLen(|objects| - s) && s + |batch| <= |objects|
  {
    objects[s..s + BatchLen(|objects| - s)]
  }

  /** The engine after one batch of `putAll` is collected against it and written atomically. */
  function WriteBatch(e: Engine, batch: seq<RevObject>, checkExists: bool): Engine {
    e.Write(BatchWrites(e.vals.Keys, batch, checkExists))
  }

  /** The engine after `putAll` has written the objects from position `s` on, batch by batch. */
  function PutAllState(e: Engine, objects: seq<RevObject>, s: nat, checkExists: bool): Engine
    requires s <= |objects|
    decreases |objects| - s
  {
    if s == |objects| then e
    else
      var batch := NextBatch(objects, s);
      PutAllState(WriteBatch(e, batch, checkExists), objects, s + |batch|, checkExists)
  }

  /**
   * The listener calls of `putAll` from position `s` on, when `stored` are the keys in the
   * engine at that point: each batch reports its objects against the keys stored before
   * it, and afterwards its ids are stored too (WriteBatchKeys).
   */
  function PutAllCalls(stored: set<Key>, objects: seq<RevObject>, s: nat, checkExists: bool): (calls: seq<Event>)
    requires s <= |objects|
    ensures |calls| == |objects| - s
    decreases |objects| - s
  {
    if s == |objects| then []
    else
      var batch := NextBatch(objects, s);
      BatchEvents(stored, batch, checkExists) + PutAllCalls(stored + IdsOf(batch), objects, s + |batch|, checkExists)
  }

  /** One batch of `putAll`: the engine after it is the one that batch's write leaves. */
  lemma PutAllStateStep(e: Engine, objects: seq<RevObject>, s: nat, checkExists: bool)
    requires s < |objects|
    ensures PutAllState(e, objects, s, checkExists)
            == PutAllState(WriteBatch(e, NextBatch(objects, s), checkExists), objects, s + |NextBatch(objects, s)|, checkExists)
  {
  }

  /** One batch of `putAll`: the calls after it are the batch's calls followed by those against the keys it leaves. */
  lemma PutAllCallsStep(stored: set<Key>, objects: seq<RevObject>, s: nat, checkExists: bool, done: seq<Event>)
    requires s < |objects|
    ensures var batch := NextBatch(objects, s);
            (done + BatchEvents(stored, batch, checkExists)) + PutAllCalls(stored + IdsOf(batch), objects, s + |batch|, checkExists)
            == done + PutAllCalls(stored, objects, s, checkExists)
  {
    var batch := NextBatch(objects, s);
    var first := BatchEvents(stored, batch, checkExists);
    var rest := PutAllCalls(stored + IdsOf(batch), objects, s + |batch|, checkExists);
    assert PutAllCalls(stored, objects, s, checkExists) == first + rest;
    assert (done + first) + rest == done + (first + rest);
  }

  /** `putAll` over `objects`: the engine afterwards and the listener calls made. */
  function PutAllSpec(e: Engine, objects: seq<RevObject>, checkExists: bool): (p: (Engine, seq<Event>))
    ensures |p.1| == |objects|
  {
    (PutAllState(e, objects, 0, checkExists), PutAllCalls(e.vals.Keys, objects, 0, checkExists))
  }

  /** Index of the first object of the batch that object `j` belongs to. */
  function BatchStart(j: nat): (s: nat)
    ensures s <= j && j - s < BATCH_SIZE && s % BATCH_SIZE == 0
  {
    j - j % BATCH_SIZE
  }

  /** A batch boundary `s` is the start of the batch of every object in the batch it opens, and of none after it. */
  lemma BatchStartFrom(s: nat, j: nat)
    requires s % BATCH_SIZE == 0 && s <= j
    ensures j < s + BATCH_SIZE ==> BatchStart(j) == s
    ensures j >= s + BATCH_SIZE ==> BatchStart(j) >= s + BATCH_SIZE
  {
    var q, r := j / BATCH_SIZE, s / BATCH_SIZE;
    assert BatchStart(j) == q * BATCH_SIZE && s == r * BATCH_SIZE;
    if j < s + BATCH_SIZE {
      assert j == r * BATCH_SIZE + (j - s);
    } else {
      assert q * BATCH_SIZE > r * BATCH_SIZE;
    }
  }

  /** Writing one batch stores exactly the old keys and the batch's ids. */
  lemma WriteBatchKeys(e: Engine, batch: seq<RevObject>, checkExists: bool)
    ensures WriteBatch(e, batch, checkExists).vals.Keys == e.vals.Keys + IdsOf(batch)
  {
    var writes := BatchWrites(e.vals.Keys, batch, checkExists);
    BatchWritesCover(e.vals.Keys, batch, checkExists);
    WriteEffect(e, writes);
    forall k | k in BatchKeys(writes) ensures k in IdsOf(batch) {
      var i :| 0 <= i < |writes| && writes[i].0 == k;
      BatchWriteOrigin(e.vals.Keys, batch, checkExists, i);
    }
    forall k | k in IdsOf(batch) ensures k in e.vals || k in BatchKeys(writes) {
      var j :| 0 <= j < |batch| && batch[j].id == k;
    }
  }

  /** With existence checks, writing one batch never rewrites a value already stored. */
  lemma WriteBatchKeeps(e: Engine, batch: seq<RevObject>)
    ensures var mid := WriteBatch(e, batch, true);
            forall k :: k in e.vals ==> k in mid.vals && mid.vals[k] == e.vals[k]
  {
    var writes := BatchWrites(e.vals.Keys, batch, true);
    BatchWritesFresh(e.vals.Keys, batch);
    WriteEffect(e, writes);
    forall k | k in e.vals ensures k !in BatchKeys(writes) {
      forall i | 0 <= i < |writes| ensures writes[i].0 != k {
        assert writes[i] in writes;
      }
    }
  }

  /** The index of the last write of the batch to the key written at `i`. */
  function LastWriteOf(batch: seq<(Key, Value)>, i: nat): (last: nat)
    requires i < |batch|
    ensures i <= last < |batch| && batch[last].0 == batch[i].0 && IsLastWrite(batch, last)
    decreases |batch| - i
  {
    if IsLastWrite(batch, i) then i
    else
      var j :| i < j < |batch| && batch[j].0 == batch[i].0;
      LastWriteOf(batch, j)
  }

  /** Writing one batch leaves every key it does not write as it was, and writes each of its keys with the encoding of an object of the batch having that id. */
  lemma WriteBatchValues(e: Engine, batch: seq<RevObject>, checkExists: bool)
    ensures var mid := WriteBatch(e, batch, checkExists);
            forall k :: k in mid.vals ==>
              (k in e.vals && mid.vals[k] == e.vals[k])
              || (exists j :: 0 <= j < |batch| && batch[j].id == k && mid.vals[k] == Encode(batch[j]))
  {
    var writes := BatchWrites(e.vals.Keys, batch, checkExists);
    var mid := e.Write(writes);
    WriteEffect(e, writes);
    forall k | k in mid.vals && k in BatchKeys(writes)
      ensures exists j :: 0 <= j < |batch| && batch[j].id == k && mid.vals[k] == Encode(batch[j])
    {
      var i :| 0 <= i < |writes| && writes[i].0 == k;
      var last := LastWriteOf(writes, i);
      BatchWriteOrigin(e.vals.Keys, batch, checkExists, last);
    }
  }

  /** `putAll` from position `s` adds the ids of the objects from `s` on and nothing else. */
  lemma {:induction false} PutAllStateKeys(e: Engine, objects: seq<RevObject>, s: nat, checkExists: bool)
    requires s <= |objects|
    ensures PutAllState(e, objects, s, checkExists).vals.Keys == e.vals.Keys + IdsBetween(objects, s, |objects|)
    decreases |objects| - s
  {
    if s < |objects| {
      var batch := NextBatch(objects, s);
      var n := |batch|;
      var mid := WriteBatch(e, batch, checkExists);
      calc {
        PutAllState(e, objects, s, checkExists).vals.Keys;
        PutAllState(mid, objects, s + n, checkExists).vals.Keys;
        { PutAllStateKeys(mid, objects, s + n, checkExists); }
        mid.vals.Keys + IdsBetween(objects, s + n, |objects|);
        { WriteBatchKeys(e, batch, checkExists); }
        e.vals.Keys + IdsOf(batch) + IdsBetween(objects, s + n, |objects|);
        { IdsOfSlice(objects, s, s + n); assert batch == objects[s..s + n]; }
        e.vals.Keys + IdsBetween(objects, s, s + n) + IdsBetween(objects, s + n, |objects|);
        { IdsBetweenSplit(objects, s, s + n, |objects|); }
        e.vals.Keys + IdsBetween(objects, s, |objects|);
      }
    }
  }

  /** With existence checks, `putAll` from position `s` never rewrites a value already stored. */
  lemma {:induction false} PutAllStateKeeps(e: Engine, objects: seq<RevObject>, s: nat)
    requires s <= |objects|
    ensures var e' := PutAllState(e, objects, s, true);
            forall k :: k in e.vals ==> k in e'.vals && e'.vals[k] == e.vals[k]
    decreases |objects| - s
  {
    if s < |objects| {
      var batch := NextBatch(objects, s);
      WriteBatchKeeps(e, batch);
      PutAllStateKeeps(WriteBatch(e, batch, true), objects, s + |batch|);
    }
  }

  /** Every value after `putAll` from position `s` is the old one or the encoding of an object from `s` on with that id. */
  lemma {:induction false} PutAllStateValues(e: Engine, objects: seq<RevObject>, s: nat, checkExists: bool)
    requires s <= |objects|
    ensures var e' := PutAllState(e, objects, s, checkExists);
            forall k :: k in e'.vals ==>
              (k in e.vals && e'.vals[k] == e.vals[k])
              || (exists j :: s <= j < |objects| && objects[j].id == k && e'.vals[k] == Encode(objects[j]))
    decreases |objects| - s
  {
    if s < |objects| {
      var batch := NextBatch(objects, s);
      var mid := WriteBatch(e, batch, checkExists);
      WriteBatchValues(e, batch, checkExists);
      PutAllStateValues(mid, objects, s + |batch|, checkExists);
      var e' := PutAllState(e, objects, s, checkExists);
      forall k | k in e'.vals
        ensures (k in e.vals && e'.vals[k] == e.vals[k])
                || (exists j :: s <= j < |objects| && objects[j].id == k && e'.vals[k] == Encode(objects[j]))
      {
        if k in mid.vals && e'.vals[k] == mid.vals[k] {
          if !(k in e.vals && mid.vals[k] == e.vals[k]) {
            var j :| 0 <= j < |batch| && batch[j].id == k && mid.vals[k] == Encode(batch[j]);
            assert s <= s + j < |objects| && objects[s + j].id == k && e'.vals[k] == Encode(objects[s + j]);
          }
        } else {
          var j :| s + |batch| <= j < |objects| && objects[j].id == k && e'.vals[k] == Encode(objects[j]);
          assert s <= j;
        }
      }
    }
  }

  /**
   * After `putAll` every object's id is stored and nothing else is added.  Every stored
   * value is either the old one or the encoding of an object with that id; when the
   * listener asks for existence checks, values already stored are never rewritten.
   */
  lemma PutAllEffect(e: Engine, objects: seq<RevObject>, checkExists: bool)
    ensures var e' := PutAllSpec(e, objects, checkExists).0;
            forall k :: k in e'.vals <==> k in e.vals || k in IdsOf(objects)
    ensures var e' := PutAllSpec(e, objects, checkExists).0;
            checkExists ==> forall k :: k in e.vals ==> k in e'.vals && e'.vals[k] == e.vals[k]
    ensures var e' := PutAllSpec(e, objects, checkExists).0;
            forall k :: k in e'.vals ==>
              (k in e.vals && e'.vals[k] == e.vals[k])
              || (exists j :: 0 <= j < |objects| && objects[j].id == k && e'.vals[k] == Encode(objects[j]))
  {
    PutAllStateKeys(e, objects, 0, checkExists);
    if checkExists {
      PutAllStateKeeps(e, objects, 0);
    }
    PutAllStateValues(e, objects, 0, checkExists);
    IdsOfSlice(objects, 0, |objects|);
    assert objects[0..|objects|] == objects;
  }

  /** `putAll` stores nothing but object ids. */
  lemma PutAllKeepsIds(e: Engine, objects: seq<RevObject>, checkExists: bool)
    requires KeysAreIds(e)
    ensures KeysAreIds(PutAllSpec(e, objects, checkExists).0)
  {
    PutAllEffect(e, objects, checkExists);
  }

  /**
   * What `putAll` stores for an object whose id was absent, and shared by no other
   * object of the call, reads back as that object, and `getAll` of its id yields it.
   */
  lemma PutAllReadBack(e: Engine, objects: seq<RevObject>, checkExists: bool, j: nat)
    requires j < |objects| && objects[j].id !in e.vals
    requires forall i :: 0 <= i < |objects| && objects[i].id == objects[j].id ==> objects[i] == objects[j]
    ensures var e' := PutAllSpec(e, objects, checkExists).0;
            objects[j].id in e'.vals && Decode(objects[j].id, e'.vals[objects[j].id]) == Some(objects[j])
    ensures Yield(PutAllSpec(e, objects, checkExists).0, objects[j].id, Some(objects[j].kind)) == [objects[j]]
  {
    var o := objects[j];
    var e' := PutAllSpec(e, objects, checkExists).0;
    PutAllEffect(e, objects, checkExists);
    assert o.id in IdsOf(objects);
    var i :| 0 <= i < |objects| && objects[i].id == o.id && e'.vals[o.id] == Encode(objects[i]);
    DecodeEncode(o);
  }

  /**
   * The listener call `putAll` makes for object `j` when `stored` were the keys in the
   * engine at position `s`: with existence checks, `found` exactly when its id was stored
   * at that point or belongs to an object from `s` up to the start of its own batch;
   * `inserted` otherwise.
   */
  function ExpectedPutEvent(stored: set<Key>, objects: seq<RevObject>, s: nat, j: nat, checkExists: bool): Event
    requires s <= j < |objects| && s <= BatchStart(j)
  {
    var id := objects[j].id;
    if checkExists && (id in stored || id in IdsBetween(objects, s, BatchStart(j)))
    then Found(id, None)
    else Inserted(id, |Encode(objects[j])|)
  }

  /** An object in the batch that opens at `s` is reported against the keys stored at `s`. */
  lemma FirstBatchEvent(stored: set<Key>, objects: seq<RevObject>, s: nat, j: nat, checkExists: bool)
    requires s % BATCH_SIZE == 0 && s <= j < |objects| && j < s + |NextBatch(objects, s)|
    ensures BatchStart(j) == s
    ensures BatchEvents(stored, NextBatch(objects, s), checkExists)[j - s] == ExpectedPutEvent(stored, objects, s, j, checkExists)
  {
    BatchStartFrom(s, j);
    assert IdsBetween(objects, s, s) == {};
  }

  /** An object after the batch that opens at `s` is reported alike whether its position is counted from `s` or from the next batch. */
  lemma LaterBatchEvent(stored: set<Key>, objects: seq<RevObject>, s: nat, j: nat, checkExists: bool)
    requires s % BATCH_SIZE == 0 && s < j < |objects| && s + |NextBatch(objects, s)| <= j
    ensures |NextBatch(objects, s)| == BATCH_SIZE && (s + BATCH_SIZE) % BATCH_SIZE == 0 && s + BATCH_SIZE <= BatchStart(j)
    ensures ExpectedPutEvent(stored + IdsOf(NextBatch(objects, s)), objects, s + |NextBatch(objects, s)|, j, checkExists)
            == ExpectedPutEvent(stored, objects, s, j, checkExists)
  {
    BatchStartFrom(s, j);
    IdsOfSlice(objects, s, s + BATCH_SIZE);
    IdsBetweenSplit(objects, s, s + BATCH_SIZE, BatchStart(j));
  }

  /** The listener call `putAll` from the batch boundary `s` makes for an object of the batch it opens. */
  lemma PutAllCallFirst(stored: set<Key>, objects: seq<RevObject>, s: nat, checkExists: bool, j: nat)
    requires s % BATCH_SIZE == 0 && s <= j < |objects| && j < s + |NextBatch(objects, s)|
    ensures s == BatchStart(j)
    ensures PutAllCalls(stored, objects, s, checkExists)[j - s] == ExpectedPutEvent(stored, objects, s, j, checkExists)
  {
    var batch := NextBatch(objects, s);
    var first := BatchEvents(stored, batch, checkExists);
    assert PutAllCalls(stored, objects, s, checkExists)
           == first + PutAllCalls(stored + IdsOf(batch), objects, s + |batch|, checkExists);
    FirstBatchEvent(stored, objects, s, j, checkExists);
  }

  /** The listener call `putAll` from the batch boundary `s` makes for an object of a later batch is the one it makes from the next boundary. */
  lemma PutAllCallLater(stored: set<Key>, objects: seq<RevObject>, s: nat, checkExists: bool, j: nat)
    requires s % BATCH_SIZE == 0 && s < j < |objects| && s + |NextBatch(objects, s)| <= j
    ensures PutAllCalls(stored, objects, s, checkExists)[j - s]
            == PutAllCalls(stored + IdsOf(NextBatch(objects, s)), objects, s + |NextBatch(objects, s)|, checkExists)
                 [j - (s + |NextBatch(objects, s)|)]
  {
    var batch := NextBatch(objects, s);
    var first := BatchEvents(stored, batch, checkExists);
    var rest := PutAllCalls(stored + IdsOf(batch), objects, s + |batch|, checkExists);
    assert PutAllCalls(stored, objects, s, checkExists) == first + rest;
    assert j - s == |first| + (j - (s + |batch|));
  }

  /** The listener call `putAll` from the batch boundary `s` makes for object `j`. */
  lemma {:induction false} PutAllCallAt(stored: set<Key>, objects: seq<RevObject>, s: nat, checkExists: bool, j: nat)
    requires s <= j < |objects| && s % BATCH_SIZE == 0
    ensures s <= BatchStart(j)
    ensures PutAllCalls(stored, objects, s, checkExists)[j - s] == ExpectedPutEvent(stored, objects, s, j, checkExists)
    decreases |objects| - s
  {
    var batch := NextBatch(objects, s);
    if j < s + |batch| {
      PutAllCallFirst(stored, objects, s, checkExists, j);
    } else {
      LaterBatchEvent(stored, objects, s, j, checkExists);
      PutAllCallLater(stored, objects, s, checkExists, j);
      PutAllCallAt(stored + IdsOf(batch), objects, s + |batch|, checkExists, j);
    }
  }

  /**
   * The listener calls of `putAll`, one per object in input order: with existence checks,
   * an object is reported found exactly when its id was stored before the call or belongs
   * to an object of an EARLIER batch; a duplicate inside the same batch is not seen,
   * because existence is checked against the store before the batch is written.  With
   * the no-op listener every object is reported inserted.
   */
  lemma PutAllEvents(e: Engine, objects: seq<RevObject>, checkExists: bool)
    ensures var calls := PutAllSpec(e, objects, checkExists).1;
            forall j :: 0 <= j < |objects| ==>
              calls[j] == if checkExists && (objects[j].id in e.vals || objects[j].id in IdsBetween(objects, 0, BatchStart(j)))
                          then Found(objects[j].id, None)
                          else Inserted(objects[j].id, |Encode(objects[j])|)
  {
    var calls := PutAllSpec(e, objects, checkExists).1;
    forall j | 0 <= j < |objects|
      ensures calls[j] == if checkExists && (objects[j].id in e.vals || objects[j].id in IdsBetween(objects, 0, BatchStart(j)))
                          then Found(objects[j].id, None)
                          else Inserted(objects[j].id, |Encode(objects[j])|)
    {
      PutAllCallAt(e.vals.Keys, objects, 0, checkExists, j);
    }
  }

  /**
   * Why `lookUpInternal` may stop at the first key lacking the prefix: in sorted keys,
   * the keys starting with `prefix` are exactly those from the first key not below
   * `prefix` up to, not including, the first key after it that lacks the prefix.
   */
  lemma PrefixRunIsAll(keys: seq<Key>, prefix: Key, start: nat, i: nat)
    requires StrictlySorted(keys) && start == Seek(keys, prefix) && start <= i <= |keys|
    requires forall j :: start <= j < i ==> IsPrefix(prefix, keys[j])
    requires i < |keys| ==> !IsPrefix(prefix, keys[i])
    ensures forall k :: k in keys[start..i] <==> k in keys && IsPrefix(prefix, k)
  {
    SeekSorted(keys, prefix);
    forall k | k in keys && IsPrefix(prefix, k)
      ensures k in keys[start..i]
    {
      var j :| 0 <= j < |keys| && keys[j] == k;
      if j < start {
        if prefix != k {
          ProperPrefixIsLess(prefix, k);
          LessAsymmetric(prefix, k);
        } else {
          LessIrreflexive(k);
        }
      } else if j >= i {
        if j > i {
          PrefixRunIsContiguous(prefix, keys[i], keys[j]);
        }
      } else {
        assert keys[start..i][j - start] == k;
      }
    }
    forall k | k in keys[start..i]
      ensures IsPrefix(prefix, k)
    {
      var j :| 0 <= j < i - start && keys[start..i][j] == k;
      assert keys[start + j] == k;
    }
  }

  /** A run of sorted keys is sorted. */
  lemma SortedSlice(keys: seq<Key>, lo: nat, hi: nat)
    requires StrictlySorted(keys) && lo <= hi <= |keys|
    ensures StrictlySorted(keys[lo..hi])
  {
    forall i, j | 0 <= i < j < hi - lo ensures Less(keys[lo..hi][i], keys[lo..hi][j]) {
      assert keys[lo..hi][i] == keys[lo + i] && keys[lo..hi][j] == keys[lo + j];
    }
  }

  /**
   * The iterator scan of `lookUpInternal` over sorted keys: seek to `prefix`, then collect
   * keys while they start with it.  The result is exactly the keys with that prefix, in order.
   */
  method ScanPrefix(keys: seq<Key>, prefix: Key) returns (matches: seq<Key>)
    requires StrictlySorted(keys)
    ensures StrictlySorted(matches)
    ensures forall k :: k in matches <==> k in keys && IsPrefix(prefix, k)
  {
    var start := Seek(keys, prefix);
    SeekSorted(keys, prefix);
    var i := start;
    matches := [];
    while i < |keys|
      invariant start <= i <= |keys|
      invariant matches == keys[start..i]
      invariant forall j :: start <= j < i ==> IsPrefix(prefix, keys[j])
    {
      var matching := KeyHasPrefix(prefix, keys[i]);
      if !matching {
        break;
      }
      assert keys[start..i + 1] == keys[start..i] + [keys[i]];
      matches := matches + [keys[i]];
      i := i + 1;
    }
    PrefixRunIsAll(keys, prefix, start, i);
    SortedSlice(keys, start, i);
  }

  /**
   * The byte-by-byte comparison `lookUpInternal` makes of a key the iterator reached
   * from `prefix`.  Such a key is never below `prefix`, so while it agrees with `prefix`
   * it is long enough to index: the comparison never runs off the end of the key.
   */
  method KeyHasPrefix(prefix: Key, key: Key) returns (b: bool)
    requires LessEq(prefix, key)
    ensures b <==> IsPrefix(prefix, key)
  {
    var m := 0;
    while m < |prefix|
      invariant m <= |prefix| && m <= |key| && key[..m] == prefix[..m]
    {
      AgreementStaysInBounds(prefix, key, m);
      if prefix[m] != key[m] {
        return false;
      }
      m := m + 1;
    }
    return true;
  }

  /** A RocksDB-backed object store over the database at one location. */
  class RocksdbObjectStore {
    var open: bool
    const readOnly: bool
    /** The contents of the database at the store's path; they outlive a close and reopen. */
    var db: Engine

    ghost predicate Valid()
      reads this
    {
      db.Valid() && KeysAreIds(db)
    }

    /** The store is created closed; `stored` is what the database at its path holds. */
    constructor (readOnly: bool, stored: Engine)
      requires stored.Valid() && KeysAreIds(stored)
      ensures Valid() && !open && this.readOnly == readOnly && db == stored
    {
      this.readOnly := readOnly;
      open := false;
      db := stored;
    }

    /** Opening an open store does nothing. */
    method Open()
      requires Valid()
      modifies this
      ensures Valid() && open && db == old(db)
    {
      if open {
        return;
      }
      open := true;
    }

    /** Closing a closed store does nothing; the data stays in the database. */
    method Close()
      requires Valid()
      modifies this
      ensures Valid() && !open && db == old(db)
    {
      if !open {
        return;
      }
      open := false;
    }

    /** `checkWritable`: the store must be open, and not read-only. */
    function CheckWritable(): (r: Outcome<StoreError>)
      reads this
      ensures r == Pass <==> open && !readOnly
      ensures !open ==> r == Fail(Closed)
      ensures open && readOnly ==> r == Fail(ReadOnly)
    {
      if !open then Fail(Closed) else if readOnly then Fail(ReadOnly) else Pass
    }

    /** `exists`: the filter pre-check never hides a stored key. */
    function Exists(id: ObjectId): (r: Result<bool, StoreError>)
      reads this
      requires Valid()
      ensures !open ==> r == Err(Closed)
      ensures open ==> r == Ok(id in db.vals)
    {
      if !open then Err(Closed) else Ok(Probe(db, id))
    }

    /** `getRawInternal`: the stored bytes; a missing object is an error only when asked for. */
    function GetRaw(id: ObjectId, failIfNotFound: bool): (r: Result<Option<Value>, StoreError>)
      reads this
      requires Valid()
      ensures !open ==> r == Err(Closed)
      ensures open && id in db.vals ==> r == Ok(Some(db.vals[id]))
      ensures open && id !in db.vals ==> r == if failIfNotFound then Err(NoSuchObject(id)) else Ok(None)
    {
      if !open then Err(Closed)
      else match db.Get(id)
        case Some(bytes) => Ok(Some(bytes))
        case None => if failIfNotFound then Err(NoSuchObject(id)) else Ok(None)
    }

    /**
     * `putInternal`: writes only an absent id and says whether it wrote; a stored value
     * is never replaced.  Afterwards the id reads back as stored.
     */
    method Put(id: ObjectId, raw: Value) returns (r: Result<bool, StoreError>)
      requires Valid()
      modifies this
      ensures Valid() && open == old(open)
      ensures old(CheckWritable()).Fail? ==> r == Err(old(CheckWritable()).error) && db == old(db)
      ensures old(CheckWritable()) == Pass ==> r == Ok(id !in old(db.vals))
      ensures db.vals == if r == Ok(true) then old(db.vals)[id := raw] else old(db.vals)
      ensures r.Ok? ==> Exists(id) == Ok(true) && GetRaw(id, true).Ok?
      ensures r == Ok(true) ==> GetRaw(id, true) == Ok(Some(raw))
    {
      var writable := CheckWritable();
      if writable.Fail? {
        return Err(writable.error);
      }
      var present := Probe(db, id);
      if !present {
        PutKeepsValid(db, id, raw);
        db := db.Put(id, raw);
      }
      return Ok(!present);
    }

    /** `delete`: removes the id if stored; an absent id is not an error; nothing else changes. */
    method Delete(id: ObjectId) returns (r: Outcome<StoreError>)
      requires Valid()
      modifies this
      ensures Valid() && open == old(open)
      ensures r == old(CheckWritable())
      ensures db.vals == if r == Pass then old(db.vals) - {id} else old(db.vals)
      ensures r == Pass ==> Exists(id) == Ok(false) && GetRaw(id, false) == Ok(None)
    {
      r := CheckWritable();
      if r.Fail? {
        return;
      }
      RemoveKeepsValid(db, id);
      db := db.Remove(id);
    }

    /** `getAll`: a lazy iterator over `ids`, reading objects of the `expected` kind (None: any kind). */
    method GetAll(ids: seq<ObjectId>, expected: Option<Kind>) returns (r: Result<GetAllIterator, StoreError>)
      requires Valid()
      ensures !open ==> r == Err(Closed)
      ensures open ==> r.Ok? && fresh(r.value)
      ensures r.Ok? ==> r.value.store == this && r.value.expected == expected
                        && r.value.oids == ids && r.value.notified == []
    {
      if !open {
        return Err(Closed);
      }
      var it := new GetAllIterator(this, ids, expected);
      return Ok(it);
    }

    /**
     * `deleteAll`: deletes every id; with a listener other than the no-op one each id is
     * first checked, and reported deleted or not found.
     */
    method DeleteAll(ids: seq<ObjectId>, noop: bool) returns (r: Outcome<StoreError>, events: seq<Event>)
      requires Valid()
      modifies this
      ensures Valid() && open == old(open)
      ensures r == old(CheckWritable())
      ensures r.Fail? ==> db == old(db) && events == []
      ensures r == Pass ==> (db, events) == DeleteAllSpec(old(db), ids, !noop)
    {
      events := [];
      r := CheckWritable();
      if r.Fail? {
        return;
      }
      var checkExists := !noop;
      var i := 0;
      while i < |ids|
        invariant 0 <= i <= |ids|
        invariant open == old(open)
        invariant db.Valid() && KeysAreIds(db)
        invariant (db, events) == DeleteAllSpec(old(db), ids[..i], checkExists)
      {
        DeleteAllSnoc(old(db), ids, i, checkExists);
        var event := DeleteId(ids[i], checkExists);
        events := events + [event];
        i := i + 1;
      }
      assert ids[..i] == ids;
    }

    /** The body of `deleteAll`'s loop for one id. */
    method DeleteId(id: ObjectId, checkExists: bool) returns (event: Event)
      requires db.Valid()
      modifies this
      ensures (db, event) == DeleteOne(old(db), id, checkExists)
      ensures db.Valid() && open == old(open)
    {
      if !checkExists || Probe(db, id) {
        RemoveKeepsValid(db, id);
        db := db.Remove(id);
        event := Deleted(id);
      } else {
        event := NotFound(id);
      }
    }

    /**
     * `lookUpInternal`: seeks to the first key not below `prefix` and collects keys while
     * they start with `prefix`.  The result is exactly the stored ids with that prefix,
     * in ascending key order.
     */
    method LookUp(prefix: seq<byte>) returns (r: Result<seq<ObjectId>, StoreError>)
      requires Valid()
      ensures !open ==> r == Err(Closed)
      ensures open ==> r.Ok?
      ensures r.Ok? ==> StrictlySorted(r.value)
      ensures r.Ok? ==> forall k :: k in r.value <==> k in db.vals && IsPrefix(prefix, k)
    {
      if !open {
        return Err(Closed);
      }
      var matches := ScanPrefix(db.keys, prefix);
      assert forall k :: k in matches ==> k in db.vals;
      return Ok(matches);
    }

    /**
     * `putAll`: writes the objects in batches of at most BATCH_SIZE, each batch as one
     * atomic write; with a listener other than the no-op one each object is first checked
     * against the store as it stood before its batch and reported found (and not written)
     * or inserted.
     */
    method PutAll(objects: seq<RevObject>, noop: bool) returns (r: Outcome<StoreError>, events: seq<Event>)
      requires Valid()
      modifies this
      ensures Valid() && open == old(open)
      ensures r == old(CheckWritable())
      ensures r.Fail? ==> db == old(db) && events == []
      ensures r == Pass ==> (db, events) == PutAllSpec(old(db), objects, !noop)
    {
      events := [];
      r := CheckWritable();
      if r.Fail? {
        return;
      }
      var checkExists := !noop;
      ghost var goal := PutAllSpec(db, objects, checkExists);
      PutAllKeepsIds(db, objects, checkExists);
      var s := 0;
      assert events + PutAllCalls(db.vals.Keys, objects, s, checkExists) == goal.1;
      while s < |objects|
        invariant 0 <= s <= |objects|
        invariant open == old(open)
        invariant db.Valid()
        invariant PutAllState(db, objects, s, checkExists) == goal.0
        invariant events + PutAllCalls(db.vals.Keys, objects, s, checkExists) == goal.1
        decreases |objects| - s
      {
        s, events := WriteNextBatch(objects, s, events, checkExists);
      }
      assert events + PutAllCalls(db.vals.Keys, objects, s, checkExists) == events;
    }

    /** One round of `putAll`'s loop: collect the batch at position `s`, then write it atomically. */
    method WriteNextBatch(objects: seq<RevObject>, s: nat, done: seq<Event>, checkExists: bool)
      returns (next: nat, calls: seq<Event>)
      requires db.Valid() && s < |objects|
      modifies this
      ensures db.Valid() && open == old(open)
      ensures s < next <= |objects|
      ensures PutAllState(db, objects, next, checkExists) == PutAllState(old(db), objects, s, checkExists)
      ensures calls + PutAllCalls(db.vals.Keys, objects, next, checkExists)
              == done + PutAllCalls(old(db).vals.Keys, objects, s, checkExists)
    {
      var batch := NextBatch(objects, s);
      var writes, batchEvents := CollectBatch(batch, checkExists);
      calls := done + batchEvents;
      WriteKeepsValid(db, writes);
      WriteBatchKeys(db, batch, checkExists);
      PutAllCallsStep(db.vals.Keys, objects, s, checkExists, done);
      PutAllStateStep(db, objects, s, checkExists);
      db := db.Write(writes);
      next := s + |batch|;
    }

    /**
     * One batch of `putAll`: the writes it collects and the listener calls it makes, with
     * existence decided against the store as it stands before the batch is written.
     */
    method CollectBatch(batch: seq<RevObject>, checkExists: bool) returns (writes: seq<(Key, Value)>, events: seq<Event>)
      requires db.Valid()
      ensures writes == BatchWrites(db.vals.Keys, batch, checkExists)
      ensures events == BatchEvents(db.vals.Keys, batch, checkExists)
    {
      writes, events := [], [];
      var t := 0;
      while t < |batch|
        invariant t <= |batch|
        invariant writes == BatchWrites(db.vals.Keys, batch[..t], checkExists)
        invariant events == BatchEvents(db.vals.Keys, batch[..t], checkExists)
      {
        var o := batch[t];
        assert batch[..t + 1][..t] == batch[..t];
        var found := if checkExists then Probe(db, o.id) else false;
        if found {
          events := events + [Found(o.id, None)];
        } else {
          writes := writes + [(o.id, Encode(o))];
          events := events + [Inserted(o.id, |Encode(o)|)];
        }
        t := t + 1;
      }
      assert batch[..t] == batch;
    }
  }

  /** The iterator `getAll` returns: the ids still to read, and the listener calls made so far. */
  class GetAllIterator {
    const store: RocksdbObjectStore
    const expected: Option<Kind>
    var oids: seq<ObjectId>
    var notified: seq<Event>

    constructor (store: RocksdbObjectStore, ids: seq<ObjectId>, expected: Option<Kind>)
      ensures this.store == store && this.expected == expected && oids == ids && notified == []
    {
      this.store := store;
      this.expected := expected;
      oids := ids;
      notified := [];
    }

    /**
     * `computeNext`: fails if the store was closed meanwhile; otherwise reads ids until one
     * is stored with the expected kind and returns it, reporting every skipped id as not
     * found; None marks the end of the data.
     */
    method ComputeNext() returns (r: Result<Option<RevObject>, StoreError>)
      requires store.Valid()
      modifies this
      ensures !store.open ==> r == Err(Closed) && oids == old(oids) && notified == old(notified)
      ensures store.open ==>
                var (ev, res, rest) := Pull(store.db, old(oids), expected);
                r == res && oids == rest && notified == old(notified) + ev
    {
      if !store.open {
        return Err(Closed);
      }
      ghost var start := notified;
      ghost var goal := Pull(store.db, oids, expected);
      while oids != []
        invariant start + goal.0 == notified + Pull(store.db, oids, expected).0
        invariant goal.1 == Pull(store.db, oids, expected).1 && goal.2 == Pull(store.db, oids, expected).2
        decreases |oids|
      {
        var id := oids[0];
        PullStep(store.db, oids, expected, notified);
        oids := oids[1..];
        var value := store.db.Get(id);
        if value.None? {
          notified := notified + [NotFound(id)];
          continue;
        }
        var obj := Decode(id, value.value);
        if obj.None? {
          return Err(Unreadable(id));
        }
        if IsInstance(obj.value, expected) {
          notified := notified + [Found(id, Some(|value.value|))];
          return Ok(Some(obj.value));
        }
        notified := notified + [NotFound(id)];
      }
      return Ok(None);
    }
  }
}
