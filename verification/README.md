# GeoGig storage core in Dafny

This project models GeoGig's storage layer. It has two parts.

**The in-memory ref database (`HeapRefDatabase`).** It is a mutable map from ref name to a stored string.
- A direct ref stores the 40-character hex text of an object id.
- A symbolic ref stores another ref's name behind the marker `"ref: "`.
- Reads either check the kind of ref (`getRef`, `getSymRef`) or strip the marker (`remove`, `getAll`).
- Namespaces are name prefixes. The unfiltered `getAll()` leaves out the `transactions/` namespace.
- `putAll` writes entries under the database lock. It stores a value in the `refs/` namespace as a symbolic ref and any other value as a direct ref.

Module `RefDatabase` (ref_database.dfy) models it. Queries are functions of the map. The operations that change the map are methods of the class `HeapRefDatabase`.

**The RocksDB object store (`RocksdbObjectStore`).** It maps raw 20-byte object ids to serialized revision objects.
- It has an open/closed and read-only discipline.
- Single operations: put-if-absent, get, exists, delete.
- Bulk operations: `getAll`, `deleteAll`, `putAll`. They report each object's outcome to a `BulkOpListener`.
- It looks up ids by byte prefix.

Module `ObjectStore` (object_store.dfy) models it as the class `RocksdbObjectStore` and the lazy iterator `GetAllIterator`. Other modules supply what the store runs on:
- `OrderedKv` (ordered_kv.dfy) stands in for RocksDB. It is an engine value with the stored map and the keys in unsigned bytewise order, which the iterator walks. It also has a filter set for `keyMayExist`. The filter only grows, so the pre-check can report "may exist" for an absent key but never "absent" for a stored one.
- `Bytes` (bytes.dfy) gives bytes and their lexicographic order.
- `ObjectIds` (object_ids.dfy) gives ids and their hex text.
- `RevObjects` (rev_objects.dfy) gives revision objects and a stand-in codec.

Listener calls are recorded, in order, as a sequence of `Event`s. The no-op listener matters in one way only: it switches off the existence checks (`checkExists`).

Bulk operations are specified by functions over the engine value: `DeleteAllSpec`, `PutAllSpec` and `Pull`. The methods are proved to compute exactly those functions. Lemmas then prove what the source promises about them.

The code and the design description differ in one place, and the model follows the code. The doc comment of `getAll()` says top-level refs such as `HEAD` are not included. The code keeps every name that does not start with `transactions/`, so `HEAD` is included (`RefDatabase.GetAllPartition`).

## Model

| member | source | states |
|---|---|---|
| RefDatabase.GetRef | src/core/src/main/java/org/locationtech/geogig/storage/memory/HeapRefDatabase.java:52-63 | An absent name gives nothing. A stored object id gives that value. Any other stored value is an error that carries the value. |
| RefDatabase.GetSymRef | src/core/src/main/java/org/locationtech/geogig/storage/memory/HeapRefDatabase.java:92-101 | An absent name gives nothing. A value without the marker is an error naming the ref and its value. A marked value is always read successfully, and the target returned is the stored value minus the marker. |
| RefDatabase.Unmask | src/core/src/main/java/org/locationtech/geogig/storage/memory/HeapRefDatabase.java:103-108 | A marked value is the marker followed by the result. Any other value is returned unchanged. |
| RefDatabase.UnmaskMarked | src/core/src/main/java/org/locationtech/geogig/storage/memory/HeapRefDatabase.java:103-118 | Unmasking undoes the marking `putSymRef` applies. |
| RefDatabase.StartsWith | src/core/src/main/java/org/locationtech/geogig/storage/memory/HeapRefDatabase.java:120-131 | The prefix test of `RefPrefixPredicate`: the prefix is no longer than the name and equals its first characters. Its uses are stated by `GetAllUnder` and `TransactionRefScoping`. |
| RefDatabase.MarkedIsNoId | src/core/src/main/java/org/locationtech/geogig/storage/memory/HeapRefDatabase.java:58-59 | No marked value is a valid object id, so `getRef` rejects every symbolic ref. |
| RefDatabase.GetAllMatching | src/core/src/main/java/org/locationtech/geogig/storage/memory/HeapRefDatabase.java:150-154 | It keeps exactly the names that pass the filter. A marked value comes back with the marker stripped; any other value comes back unchanged. |
| RefDatabase.GetAllUnder | src/core/src/main/java/org/locationtech/geogig/storage/memory/HeapRefDatabase.java:144-148 | It returns exactly the refs whose name starts with the prefix, with marked values stripped of the marker and other values unchanged. |
| RefDatabase.GetAll | src/core/src/main/java/org/locationtech/geogig/storage/memory/HeapRefDatabase.java:137-142 | It returns exactly the refs whose name is outside the transactions namespace. |
| RefDatabase.GetAllPartition | src/core/src/main/java/org/locationtech/geogig/storage/memory/HeapRefDatabase.java:137-154 | `getAll()` and `getAll("transactions/")` are disjoint and together cover every ref. Both hold unmasked values. `HEAD` is in `getAll()`. |
| RefDatabase.SymRefRoundTrip | src/core/src/main/java/org/locationtech/geogig/storage/memory/HeapRefDatabase.java:92-118 | After `putSymRef(n, t)`, `getSymRef(n)` returns `t` and `getRef(n)` fails. |
| RefDatabase.DirectRefRoundTrip | src/core/src/main/java/org/locationtech/geogig/storage/memory/HeapRefDatabase.java:52-99 | After `putRef(n, v)` with a valid id, `getRef(n)` returns `v` and `getSymRef(n)` fails. |
| RefDatabase.ReadersAgree | src/core/src/main/java/org/locationtech/geogig/storage/memory/HeapRefDatabase.java:52-108 | In a well-formed map, exactly one of `getRef` and `getSymRef` succeeds on each stored ref. What it returns is the unmasked value, which is what `remove` returns. |
| RefDatabase.StoredForm | src/core/src/main/java/org/locationtech/geogig/storage/memory/HeapRefDatabase.java:179-185 | A value in the refs namespace is stored marked as a symbolic ref. Any other value is stored as it is when it is an object id and rejected otherwise. |
| RefDatabase.StoredFormCases | src/core/src/main/java/org/locationtech/geogig/storage/memory/HeapRefDatabase.java:179-185 | `putAll` rejects exactly the values that are neither in `refs/` nor object ids. What it stores is well formed and unmasks back to the given value. |
| RefDatabase.PutAllSpec | src/core/src/main/java/org/locationtech/geogig/storage/memory/HeapRefDatabase.java:178-188 | `putAll` under the lock writes entries in order until the first rejected value; no ref it had is ever lost. |
| RefDatabase.FirstRejected | src/core/src/main/java/org/locationtech/geogig/storage/memory/HeapRefDatabase.java:179-185 | Every entry before the index is accepted, and the entry at the index is rejected. |
| RefDatabase.WrittenNames | src/core/src/main/java/org/locationtech/geogig/storage/memory/HeapRefDatabase.java:179-185 | The names `putAll` writes are exactly those of the entries before the first rejected one. |
| RefDatabase.PutAllOutcome | src/core/src/main/java/org/locationtech/geogig/storage/memory/HeapRefDatabase.java:178-188 | `putAll` succeeds exactly when no value is rejected. Otherwise it fails with the first rejected value's error. |
| RefDatabase.PutAllUnchanged | src/core/src/main/java/org/locationtech/geogig/storage/memory/HeapRefDatabase.java:178-188 | `putAll` adds only the written names. Every ref it does not write keeps its value, including the rejected entry and those after it. |
| RefDatabase.PutAllStored | src/core/src/main/java/org/locationtech/geogig/storage/memory/HeapRefDatabase.java:179-185 | Every entry before the first rejection is stored: symbolically when in `refs/`, directly otherwise. Writes made before a failure stay. |
| RefDatabase.PutAllKeepsWellFormed | src/core/src/main/java/org/locationtech/geogig/storage/memory/HeapRefDatabase.java:172-189 | `putAll` keeps every stored value an id or a marked name. |
| RefDatabase.TransactionRefScoping | src/core/src/main/java/org/locationtech/geogig/storage/memory/HeapRefDatabase.java:137-189 | A transaction ref written by `putAll` is missing from `getAll()`. `getAll(p)` lists it, with its value, for every prefix `p` of its name. |
| RefDatabase.HeapRefDatabase.constructor | src/core/src/main/java/org/locationtech/geogig/storage/memory/HeapRefDatabase.java:38-46 | A new database is empty and keeps its read-only flag. |
| RefDatabase.HeapRefDatabase.PutRef | src/core/src/main/java/org/locationtech/geogig/storage/memory/HeapRefDatabase.java:70-73 | It succeeds exactly for valid ids and then overwrites any previous value. On failure the map is unchanged. |
| RefDatabase.HeapRefDatabase.PutSymRef | src/core/src/main/java/org/locationtech/geogig/storage/memory/HeapRefDatabase.java:115-118 | It stores the marker followed by the target and replaces any previous value. |
| RefDatabase.HeapRefDatabase.Remove | src/core/src/main/java/org/locationtech/geogig/storage/memory/HeapRefDatabase.java:80-86 | It deletes only that name and returns the previous value with its marker stripped, or nothing. |
| RefDatabase.HeapRefDatabase.RemoveAll | src/core/src/main/java/org/locationtech/geogig/storage/memory/HeapRefDatabase.java:156-170 | It removes exactly the names in the namespace and returns them with raw, still-marked values. All other refs are unchanged. |
| RefDatabase.HeapRefDatabase.PutAll | src/core/src/main/java/org/locationtech/geogig/storage/memory/HeapRefDatabase.java:172-189 | A lock timeout fails with the map unchanged. Otherwise the result equals `PutAllSpec`. The lock is released on every path. |
| ObjectIds.ValueOf | src/core/src/main/java/org/locationtech/geogig/storage/memory/HeapRefDatabase.java:71 | The text parses to an id exactly when it is 40 hex digits. |
| ObjectIds.ValueOfToHex | src/core/src/main/java/org/locationtech/geogig/storage/memory/HeapRefDatabase.java:58 | Parsing an id's hex text gives back the id. |
| ObjectIds.ToHexValueOf | src/core/src/main/java/org/locationtech/geogig/storage/memory/HeapRefDatabase.java:71 | Lower-case id text survives a parse and print unchanged. |
| RevObjects.Encode | src/storage/rocksdb/src/main/java/org/locationtech/geogig/rocksdb/RocksdbObjectStore.java:326 | `serializer.write` gives a non-empty encoding; `DecodeEncode` proves it reads back as the object. |
| RevObjects.DecodeEncode | src/storage/rocksdb/src/main/java/org/locationtech/geogig/rocksdb/RocksdbObjectStore.java:233 | Reading back the written bytes of an object gives the object. |
| RevObjects.Decode | src/storage/rocksdb/src/main/java/org/locationtech/geogig/rocksdb/RocksdbObjectStore.java:233 | A successful read keeps the given id, and the bytes it reads are exactly the encoding of the object it returns. |
| Bytes.PrefixRunIsContiguous | src/storage/rocksdb/src/main/java/org/locationtech/geogig/rocksdb/RocksdbObjectStore.java:287-294 | Between a prefix and a key that starts with it, every key also starts with it. |
| Bytes.AgreementStaysInBounds | src/storage/rocksdb/src/main/java/org/locationtech/geogig/rocksdb/RocksdbObjectStore.java:290-291 | A key not below the prefix that agrees with it so far is long enough to index, so `key[i]` never runs off the end. |
| OrderedKv.Seek | src/storage/rocksdb/src/main/java/org/locationtech/geogig/rocksdb/RocksdbObjectStore.java:287 | `seek` gives a position within the keys; `SeekSplits` and `SeekSorted` state where it lands. |
| OrderedKv.SeekSplits | src/storage/rocksdb/src/main/java/org/locationtech/geogig/rocksdb/RocksdbObjectStore.java:287 | Every key before the seek position is below the target. The key at the position, if any, is not below it. |
| OrderedKv.SeekSorted | src/storage/rocksdb/src/main/java/org/locationtech/geogig/rocksdb/RocksdbObjectStore.java:287-297 | In sorted keys, every key from the seek position on is not below the target. |
| OrderedKv.Engine.Get | src/storage/rocksdb/src/main/java/org/locationtech/geogig/rocksdb/RocksdbObjectStore.java:154 | A get returns a value exactly when the key is stored, and then the stored value. |
| OrderedKv.Engine.MayExist | src/storage/rocksdb/src/main/java/org/locationtech/geogig/rocksdb/RocksdbObjectStore.java:172 | The `keyMayExist` pre-check holds for every stored key. |
| OrderedKv.Engine.Put | src/storage/rocksdb/src/main/java/org/locationtech/geogig/rocksdb/RocksdbObjectStore.java:128 | The key gets the value and enters the existence filter. No other key changes. |
| OrderedKv.PutKeepsValid | src/storage/rocksdb/src/main/java/org/locationtech/geogig/rocksdb/RocksdbObjectStore.java:128 | After a put the keys stay strictly sorted, in step with the stored pairs, and covered by the filter. |
| OrderedKv.Engine.Remove | src/storage/rocksdb/src/main/java/org/locationtech/geogig/rocksdb/RocksdbObjectStore.java:269 | The key is removed and nothing else changes, including the filter. |
| OrderedKv.RemoveKeepsValid | src/storage/rocksdb/src/main/java/org/locationtech/geogig/rocksdb/RocksdbObjectStore.java:189 | After a remove the keys stay strictly sorted and in step with the stored pairs. |
| OrderedKv.Engine.Write | src/storage/rocksdb/src/main/java/org/locationtech/geogig/rocksdb/RocksdbObjectStore.java:341 | An atomic batch write applies the entries in order; `WriteEffect` and `WriteKeepsValid` state its result. |
| OrderedKv.WriteKeepsValid | src/storage/rocksdb/src/main/java/org/locationtech/geogig/rocksdb/RocksdbObjectStore.java:341 | An atomic batch write keeps the engine valid. |
| OrderedKv.WriteEffect | src/storage/rocksdb/src/main/java/org/locationtech/geogig/rocksdb/RocksdbObjectStore.java:341 | An atomic batch write stores each batch key with its last value in the batch. Every other key is unchanged. |
| ObjectStore.Probe | src/storage/rocksdb/src/main/java/org/locationtech/geogig/rocksdb/RocksdbObjectStore.java:170-181 | The filter pre-check followed by a definitive get is true exactly when the key is stored. |
| ObjectStore.GetAllEvent | src/storage/rocksdb/src/main/java/org/locationtech/geogig/rocksdb/RocksdbObjectStore.java:225-239 | The call `getAll` makes for one id carries that id, and is `found` with the stored size exactly when the iteration yields the object for it. |
| ObjectStore.Pull | src/storage/rocksdb/src/main/java/org/locationtech/geogig/rocksdb/RocksdbObjectStore.java:219-245 | A pull never grows the ids left to read, and any pull that does not end the data consumes at least one id. |
| ObjectStore.PullConsumesPrefix | src/storage/rocksdb/src/main/java/org/locationtech/geogig/rocksdb/RocksdbObjectStore.java:222-244 | A pull consumes a prefix of the ids. It signals end of data only after consuming them all. |
| ObjectStore.PullEvents | src/storage/rocksdb/src/main/java/org/locationtech/geogig/rocksdb/RocksdbObjectStore.java:225-239 | A pull makes one listener call per consumed id, in order: `found` with the stored size, or `notFound`. An unreadable id ends the pull with no call. |
| ObjectStore.PullResult | src/storage/rocksdb/src/main/java/org/locationtech/geogig/rocksdb/RocksdbObjectStore.java:233-242 | A returned object is the decoding of the last consumed id, which is stored and of the requested kind. An error names the unreadable id. |
| ObjectStore.Drain | src/storage/rocksdb/src/main/java/org/locationtech/geogig/rocksdb/RocksdbObjectStore.java:201-247 | Pulling until the end of the data with the store unchanged; `DrainYieldsMatching` states what it yields and reports. |
| ObjectStore.DrainYieldsMatching | src/storage/rocksdb/src/main/java/org/locationtech/geogig/rocksdb/RocksdbObjectStore.java:201-247 | A full iteration over readable data yields exactly the stored objects of the requested kind, in the caller's order. It makes exactly one listener call per requested id. |
| ObjectStore.DeleteOne | src/storage/rocksdb/src/main/java/org/locationtech/geogig/rocksdb/RocksdbObjectStore.java:267-276 | Deleting one id removes it whether or not it was stored. The call is `deleted` unless checks are on and the id was absent, then `notFound`. |
| ObjectStore.DeleteAllSpec | src/storage/rocksdb/src/main/java/org/locationtech/geogig/rocksdb/RocksdbObjectStore.java:255-276 | `deleteAll` makes exactly one listener call per requested id. |
| ObjectStore.DeleteAllState | src/storage/rocksdb/src/main/java/org/locationtech/geogig/rocksdb/RocksdbObjectStore.java:264-277 | After `deleteAll` none of the ids is stored. Every other key keeps its value. |
| ObjectStore.DeleteAllEvents | src/storage/rocksdb/src/main/java/org/locationtech/geogig/rocksdb/RocksdbObjectStore.java:255-276 | There is one call per id. With the no-op listener every call is `deleted`. Otherwise an id gets `deleted` exactly when it was stored and not already deleted earlier in the call, and `notFound` if not. |
| ObjectStore.PutEvent | src/storage/rocksdb/src/main/java/org/locationtech/geogig/rocksdb/RocksdbObjectStore.java:331-337 | The call for one object: `found` when checks are on and its id is stored, `inserted` with the encoded length otherwise; `PutAllEvents` states it over the whole call. |
| ObjectStore.BatchEvents | src/storage/rocksdb/src/main/java/org/locationtech/geogig/rocksdb/RocksdbObjectStore.java:322-338 | A batch makes exactly one call per object, in order, each decided against the keys stored before the batch. |
| ObjectStore.BatchWrites | src/storage/rocksdb/src/main/java/org/locationtech/geogig/rocksdb/RocksdbObjectStore.java:322-338 | A batch collects at most one write per object; `BatchWriteOrigin`, `BatchWritesCover` and `BatchWritesFresh` state which. |
| ObjectStore.BatchWriteOrigin | src/storage/rocksdb/src/main/java/org/locationtech/geogig/rocksdb/RocksdbObjectStore.java:323-338 | Every write a batch collects stores one of its own objects, encoded, under that object's id. |
| ObjectStore.BatchWritesCover | src/storage/rocksdb/src/main/java/org/locationtech/geogig/rocksdb/RocksdbObjectStore.java:323-338 | Every object of a batch is already stored or among the keys the batch writes. |
| ObjectStore.BatchWritesFresh | src/storage/rocksdb/src/main/java/org/locationtech/geogig/rocksdb/RocksdbObjectStore.java:331-337 | With existence checks, no write of a batch targets a key stored before it. |
| ObjectStore.WriteBatchKeys | src/storage/rocksdb/src/main/java/org/locationtech/geogig/rocksdb/RocksdbObjectStore.java:323-341 | After a batch is written, the stored keys are exactly the old keys plus the batch's ids. |
| ObjectStore.WriteBatchKeeps | src/storage/rocksdb/src/main/java/org/locationtech/geogig/rocksdb/RocksdbObjectStore.java:326-341 | With existence checks, writing a batch never replaces a value already stored. |
| ObjectStore.WriteBatchValues | src/storage/rocksdb/src/main/java/org/locationtech/geogig/rocksdb/RocksdbObjectStore.java:323-341 | After a batch is written, every value is the old one or the encoding of an object of the batch with that id. |
| ObjectStore.PutAllState | src/storage/rocksdb/src/main/java/org/locationtech/geogig/rocksdb/RocksdbObjectStore.java:320-344 | The engine after writing the batches from a boundary on; `PutAllStateKeys`, `PutAllStateKeeps` and `PutAllStateValues` state its contents. |
| ObjectStore.PutAllCalls | src/storage/rocksdb/src/main/java/org/locationtech/geogig/rocksdb/RocksdbObjectStore.java:320-338 | From a batch boundary on, `putAll` makes exactly one call per remaining object. |
| ObjectStore.PutAllStateKeys | src/storage/rocksdb/src/main/java/org/locationtech/geogig/rocksdb/RocksdbObjectStore.java:320-344 | `putAll` from a batch boundary adds exactly the ids of the objects from there on. |
| ObjectStore.PutAllStateKeeps | src/storage/rocksdb/src/main/java/org/locationtech/geogig/rocksdb/RocksdbObjectStore.java:320-344 | With existence checks, `putAll` from a batch boundary keeps every stored value. |
| ObjectStore.PutAllStateValues | src/storage/rocksdb/src/main/java/org/locationtech/geogig/rocksdb/RocksdbObjectStore.java:320-344 | After `putAll` from a batch boundary, every value is the old one or the encoding of a later object with that id. |
| ObjectStore.PutAllSpec | src/storage/rocksdb/src/main/java/org/locationtech/geogig/rocksdb/RocksdbObjectStore.java:303-350 | `putAll` makes exactly one listener call per object. |
| ObjectStore.PutAllEffect | src/storage/rocksdb/src/main/java/org/locationtech/geogig/rocksdb/RocksdbObjectStore.java:320-344 | After `putAll` every object's id is stored and nothing else is added. With existence checks, found objects are not rewritten. Every value is the old one or the encoding of an object with that id. |
| ObjectStore.PutAllCallAt | src/storage/rocksdb/src/main/java/org/locationtech/geogig/rocksdb/RocksdbObjectStore.java:320-337 | The call for an object, counted from any batch boundary before it, is `found` exactly when checks are on and its id was stored at that boundary or belongs to an object between the boundary and its own batch. |
| ObjectStore.PutAllEvents | src/storage/rocksdb/src/main/java/org/locationtech/geogig/rocksdb/RocksdbObjectStore.java:309-337 | There is exactly one call per object, in order: `found` or `inserted` with the encoded length. `found` happens exactly when checks are on and the id was stored before the call or belongs to an earlier batch. A duplicate within the same batch is not seen. |
| ObjectStore.BatchStart | src/storage/rocksdb/src/main/java/org/locationtech/geogig/rocksdb/RocksdbObjectStore.java:321 | The start of an object's batch is a multiple of 10,000 and less than 10,000 before the object. |
| ObjectStore.PutAllReadBack | src/storage/rocksdb/src/main/java/org/locationtech/geogig/rocksdb/RocksdbObjectStore.java:326-341 | An object whose id was absent and is not shared by another object of the call reads back from the store as that object, and `getAll` of its id yields it. |
| ObjectStore.PutAllKeepsIds | src/storage/rocksdb/src/main/java/org/locationtech/geogig/rocksdb/RocksdbObjectStore.java:328-335 | `putAll` stores nothing but 20-byte ids. |
| ObjectStore.PrefixRunIsAll | src/storage/rocksdb/src/main/java/org/locationtech/geogig/rocksdb/RocksdbObjectStore.java:287-300 | The keys from the seek position up to the first mismatch are exactly the stored keys with the prefix, so stopping there loses nothing. |
| ObjectStore.KeyHasPrefix | src/storage/rocksdb/src/main/java/org/locationtech/geogig/rocksdb/RocksdbObjectStore.java:290-294 | The byte-by-byte comparison answers exactly whether the key starts with the prefix. |
| ObjectStore.ScanPrefix | src/storage/rocksdb/src/main/java/org/locationtech/geogig/rocksdb/RocksdbObjectStore.java:285-300 | The seek-and-scan returns exactly the keys with the prefix, strictly ascending. |
| ObjectStore.RocksdbObjectStore.constructor | src/storage/rocksdb/src/main/java/org/locationtech/geogig/rocksdb/RocksdbObjectStore.java:63-73 | A new store is closed and keeps its read-only flag. |
| ObjectStore.RocksdbObjectStore.Open | src/storage/rocksdb/src/main/java/org/locationtech/geogig/rocksdb/RocksdbObjectStore.java:76-87 | Afterwards the store is open with its data unchanged. Opening an open store does nothing. |
| ObjectStore.RocksdbObjectStore.Close | src/storage/rocksdb/src/main/java/org/locationtech/geogig/rocksdb/RocksdbObjectStore.java:90-101 | Afterwards the store is closed and the data stays. Closing a closed store does nothing. |
| ObjectStore.RocksdbObjectStore.CheckWritable | src/storage/rocksdb/src/main/java/org/locationtech/geogig/rocksdb/RocksdbObjectStore.java:108-117 | It passes exactly when the store is open and not read-only. A closed store fails as closed; an open read-only store fails as read-only. |
| ObjectStore.RocksdbObjectStore.Exists | src/storage/rocksdb/src/main/java/org/locationtech/geogig/rocksdb/RocksdbObjectStore.java:160-166 | On a closed store it fails. Otherwise it is true exactly when the id is stored. |
| ObjectStore.RocksdbObjectStore.GetRaw | src/storage/rocksdb/src/main/java/org/locationtech/geogig/rocksdb/RocksdbObjectStore.java:136-158 | It returns the stored bytes. A missing id is an error when `failIfNotFound` is set and nothing otherwise. |
| ObjectStore.RocksdbObjectStore.Put | src/storage/rocksdb/src/main/java/org/locationtech/geogig/rocksdb/RocksdbObjectStore.java:119-134 | It writes only an absent id and returns true exactly when it wrote. A stored value is never replaced. Afterwards the id exists. Guard failures change nothing. |
| ObjectStore.RocksdbObjectStore.Delete | src/storage/rocksdb/src/main/java/org/locationtech/geogig/rocksdb/RocksdbObjectStore.java:183-193 | It removes the id if stored, and an absent id is not an error. No other key changes. Afterwards the id does not exist. |
| ObjectStore.RocksdbObjectStore.GetAll | src/storage/rocksdb/src/main/java/org/locationtech/geogig/rocksdb/RocksdbObjectStore.java:200-216 | A closed store fails. Otherwise it returns a fresh iterator over the ids with no calls made yet. |
| ObjectStore.RocksdbObjectStore.DeleteAll | src/storage/rocksdb/src/main/java/org/locationtech/geogig/rocksdb/RocksdbObjectStore.java:249-281 | Guard failures change nothing. Otherwise the new engine and the listener calls equal `DeleteAllSpec`. |
| ObjectStore.RocksdbObjectStore.DeleteId | src/storage/rocksdb/src/main/java/org/locationtech/geogig/rocksdb/RocksdbObjectStore.java:267-276 | One round of the `deleteAll` loop equals `DeleteOne` and keeps the engine valid. |
| ObjectStore.RocksdbObjectStore.LookUp | src/storage/rocksdb/src/main/java/org/locationtech/geogig/rocksdb/RocksdbObjectStore.java:283-301 | It returns exactly the stored ids starting with the prefix, in ascending key order. |
| ObjectStore.RocksdbObjectStore.PutAll | src/storage/rocksdb/src/main/java/org/locationtech/geogig/rocksdb/RocksdbObjectStore.java:303-350 | Guard failures change nothing. Otherwise the new engine and the listener calls equal `PutAllSpec`, batch by batch. |
| ObjectStore.RocksdbObjectStore.WriteNextBatch | src/storage/rocksdb/src/main/java/org/locationtech/geogig/rocksdb/RocksdbObjectStore.java:320-342 | One round of the `putAll` loop moves to the next batch boundary and leaves the engine and calls that `PutAllSpec` still expects from there. |
| ObjectStore.RocksdbObjectStore.CollectBatch | src/storage/rocksdb/src/main/java/org/locationtech/geogig/rocksdb/RocksdbObjectStore.java:322-339 | The writes and listener calls of one batch equal `BatchWrites` and `BatchEvents`, checked against the store as it was before the batch. |
| ObjectStore.GetAllIterator.ComputeNext | src/storage/rocksdb/src/main/java/org/locationtech/geogig/rocksdb/RocksdbObjectStore.java:218-245 | A store closed in the meantime fails with no state change. Otherwise the result, the remaining ids and the new listener calls equal one `Pull`. |

## Left out

- RocksDB itself is replaced by the ordered engine value. Left out with it are its native handle, `ReadOptions`/`WriteOptions` tuning (fill cache, checksums, WAL, sync) and `RocksDBException`. These tuning flags have no observable effect on a single thread, and engine errors come from outside the model.
- `RocksConnectionManager` handle sharing and reference counting are not part of this model. Opening and closing only switch the `open` flag, and the data persists in `db` across a close.
- The constructor's repository path resolution is left out because it is platform I/O. So is the `Hints` lookup: the read-only flag is a constructor parameter.
- The `valueBuff` resizing in `computeNext` is left out: a get returns the whole value.
- The real serializer and SHA-1 hashing are not part of this model. A stand-in codec writes a kind tag followed by the body. Ids are given, not computed from content.
- `ObjectId.valueOf` is not part of this model. A valid id is modelled as exactly 40 hex digits in either case.
- `Ref.REFS_PREFIX` and `Ref.TRANSACTIONS_PREFIX` are not part of this model. They are taken to be `"refs/"` and `"transactions/"`.
- Argument null checks (`checkNotNull`, `@NonNull`) are left out because Dafny values are never null.
- Thread safety is left out: `synchronized`, `ConcurrentHashMap`, and the lock internals of the abstract ref database. The lock is modelled only as a `locked` flag, and a timeout is a parameter of `PutAll`.
- `HeapRefDatabase.putAll` takes a `Map`. The model takes a sequence of entries with distinct names, in the map's iteration order. Failure is tracked at the first rejected entry, whatever that order is.
- ObjectStore.RocksdbObjectStore.GetRaw: the source does not check that the store is open here. On a closed store it fails with a null-pointer error, which the model reports as the `Closed` error.
- ObjectStore.RocksdbObjectStore.LookUp: same as `GetRaw` — there is no open check in the source, and the null-pointer failure on a closed store is modelled as `Closed`.
- ObjectStore.GetAllIterator.ComputeNext: a serializer failure is modelled as `Unreadable(id)`. The `found` size is the full stored length.
- `getAll`'s `AbstractIterator` state machine (`hasNext`/`next` caching) is modelled as repeated calls of `ComputeNext`. The statement about a whole iteration (`DrainYieldsMatching`) assumes the store does not change during it.
- The read-only flag of `HeapRefDatabase` is kept, but no ref operation in the source checks it, so none in the model does.
