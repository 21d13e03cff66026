/**
 * The in-memory ref database: a mutable map from ref name to stored string.  A direct
 * ref stores the textual id of an object; a symbolic ref stores the name of another ref
 * behind the marker "ref: ".  Queries are functions of the map; the operations that
 * change it are methods of `HeapRefDatabase`.
 */
module RefDatabase {
  import opened Wrappers
  import opened ObjectIds

  /** The marker in front of a symbolic ref's target. */
  const SYMREF_MARKER: string := "ref: "
  /** The namespace of branches, tags and remotes; `putAll` takes values in it for symbolic targets. */
  const REFS_PREFIX: string := "refs/"
  /** The namespace of transaction refs, which the unfiltered `getAll` leaves out. */
  const TRANSACTIONS_PREFIX: string := "transactions/"

  type Refs = map<string, string>

  datatype RefError =
    | NotAnObjectId(value: string)           // ObjectId.valueOf rejected the value
    | NotSymbolic(name: string, value: string)  // getSymRef on a ref without the marker
    | LockTimeout                            // putAll could not take the lock

  /** `String.startsWith`, and `RefPrefixPredicate.apply` for the prefix `prefix`. */
  predicate StartsWith(s: string, prefix: string) {
    |prefix| <= |s| && s[..|prefix|] == prefix
  }

  /** The marker's first letter is not a hex digit, so no marked value is an object id. */
  lemma MarkedIsNoId(s: string)
    requires StartsWith(s, SYMREF_MARKER)
    ensures !IsValidId(s)
  {
    assert s[0] == SYMREF_MARKER[0] == 'r';
  }

  /** `unmask`: a marked value loses its marker; any other value is returned as it is. */
  function Unmask(value: string): (r: string)
    ensures StartsWith(value, SYMREF_MARKER) ==> SYMREF_MARKER + r == value
    ensures !StartsWith(value, SYMREF_MARKER) ==> r == value
  {
    if StartsWith(value, SYMREF_MARKER) then
      assert value == value[..|SYMREF_MARKER|] + value[|SYMREF_MARKER|..];
      value[|SYMREF_MARKER|..]
    else value
  }

  /** Unmasking undoes the marking `putSymRef` does. */
  lemma UnmaskMarked(target: string)
    ensures StartsWith(SYMREF_MARKER + target, SYMREF_MARKER)
    ensures Unmask(SYMREF_MARKER + target) == target
  {
    var v := SYMREF_MARKER + target;
    assert v[..|SYMREF_MARKER|] == SYMREF_MARKER;
    assert v[|SYMREF_MARKER|..] == target;
  }

  /**
   * `getRef`: nothing for an absent name; the stored value when it is an object id; an
   * error otherwise, in particular for a symbolic ref.
   */
  function GetRef(refs: Refs, name: string): (r: Result<Option<string>, RefError>)
    ensures name !in refs ==> r == Ok(None)
    ensures name in refs && IsValidId(refs[name]) ==> r == Ok(Some(refs[name]))
    ensures name in refs && !IsValidId(refs[name]) ==> r == Err(NotAnObjectId(refs[name]))
  {
    if name !in refs then Ok(None)
    else if ValueOf(refs[name]).None? then Err(NotAnObjectId(refs[name]))
    else Ok(Some(refs[name]))
  }

  /**
   * `getSymRef`: nothing for an absent name; the target for a marked value; an error
   * naming the ref and its value otherwise.
   */
  function GetSymRef(refs: Refs, name: string): (r: Result<Option<string>, RefError>)
    ensures name !in refs ==> r == Ok(None)
    ensures name in refs && !StartsWith(refs[name], SYMREF_MARKER) ==> r == Err(NotSymbolic(name, refs[name]))
    ensures name in refs && StartsWith(refs[name], SYMREF_MARKER) ==> r.Ok? && r.value.Some?
    ensures r.Ok? && r.value.Some? ==> name in refs && refs[name] == SYMREF_MARKER + r.value.value
  {
    if name !in refs then Ok(None)
    else if !StartsWith(refs[name], SYMREF_MARKER) then Err(NotSymbolic(name, refs[name]))
    else Ok(Some(Unmask(refs[name])))
  }

  /** `getAll(filter)`: a copy of the entries whose name passes `keep`, values unmasked. */
  function GetAllMatching(refs: Refs, keep: string -> bool): (r: Refs)
    ensures forall name :: name in r <==> name in refs && keep(name)
    ensures forall name :: name in r && StartsWith(refs[name], SYMREF_MARKER) ==> SYMREF_MARKER + r[name] == refs[name]
    ensures forall name :: name in r && !StartsWith(refs[name], SYMREF_MARKER) ==> r[name] == refs[name]
  {
    map name | name in refs && keep(name) :: Unmask(refs[name])
  }

  /** `getAll(prefix)`: the refs whose name starts with `prefix`, values unmasked. */
  function GetAllUnder(refs: Refs, prefix: string): (r: Refs)
    ensures forall name :: name in r <==> name in refs && StartsWith(name, prefix)
    ensures forall name :: name in r && StartsWith(refs[name], SYMREF_MARKER) ==> SYMREF_MARKER + r[name] == refs[name]
    ensures forall name :: name in r && !StartsWith(refs[name], SYMREF_MARKER) ==> r[name] == refs[name]
  {
    GetAllMatching(refs, name => StartsWith(name, prefix))
  }

  /** `getAll()`: every ref outside the transactions namespace, top-level ones such as HEAD included. */
  function GetAll(refs: Refs): (r: Refs)
    ensures forall name :: name in r <==> name in refs && !StartsWith(name, TRANSACTIONS_PREFIX)
  {
    GetAllMatching(refs, name => !StartsWith(name, TRANSACTIONS_PREFIX))
  }

  /** Every stored value is an object id or a marked ref name: what the writers below keep. */
  predicate WellFormed(refs: Refs) {
    forall name :: name in refs ==> IsValidId(refs[name]) || StartsWith(refs[name], SYMREF_MARKER)
  }

  /**
   * What `putAll` stores for `value`: a value in the refs namespace as a symbolic ref,
   * an object id as it is; any other value is rejected.
   */
  function StoredForm(value: string): (r: Option<string>)
    ensures StartsWith(value, REFS_PREFIX) ==> r == Some(SYMREF_MARKER + value)
    ensures !StartsWith(value, REFS_PREFIX) ==> r == if IsValidId(value) then Some(value) else None
  {
    if StartsWith(value, REFS_PREFIX) then Some(SYMREF_MARKER + value)
    else if ValueOf(value).Some? then Some(value)
    else None
  }

  /** `putAll` rejects exactly the values that are neither in the refs namespace nor ids; what it stores is well formed. */
  lemma StoredFormCases(value: string)
    ensures StoredForm(value).None? <==> !StartsWith(value, REFS_PREFIX) && !IsValidId(value)
    ensures StoredForm(value).Some? ==>
              IsValidId(StoredForm(value).value) || StartsWith(StoredForm(value).value, SYMREF_MARKER)
    ensures StoredForm(value).Some? ==> Unmask(StoredForm(value).value) == value
  {
    if StartsWith(value, REFS_PREFIX) {
      UnmaskMarked(value);
    } else if IsValidId(value) {
      assert value[0] != 'r';
    }
  }

  /** No two entries share a name, as in a map. */
  predicate DistinctNames(entries: seq<(string, string)>) {
    forall i, j :: 0 <= i < j < |entries| ==> entries[i].0 != entries[j].0
  }

  /** Index of the first entry whose value `putAll` rejects; the length when there is none. */
  function FirstRejected(entries: seq<(string, string)>): (f: nat)
    ensures f <= |entries|
    ensures forall i :: 0 <= i < f ==> StoredForm(entries[i].1).Some?
    ensures f < |entries| ==> StoredForm(entries[f].1).None?
    decreases |entries|
  {
    if entries == [] || StoredForm(entries[0].1).None? then 0
    else 1 + FirstRejected(entries[1..])
  }

  /**
   * `putAll` after taking the lock: entries are written one by one in order until the
   * first rejected value, which ends the call with its error; entries already written
   * stay written.
   */
  function PutAllSpec(refs: Refs, entries: seq<(string, string)>): (p: (Refs, Outcome<RefError>))
    ensures refs.Keys <= p.0.Keys
    decreases |entries|
  {
    if entries == [] then (refs, Pass)
    else match StoredForm(entries[0].1)
      case None => (refs, Fail(NotAnObjectId(entries[0].1)))
      case Some(stored) => PutAllSpec(refs[entries[0].0 := stored], entries[1..])
  }

  /** The names `putAll` writes: those of the entries before the first rejected one. */
  function Written(entries: seq<(string, string)>): set<string>
    decreases |entries|
  {
    if entries == [] || StoredForm(entries[0].1).None? then {}
    else {entries[0].0} + Written(entries[1..])
  }

  lemma {:induction false} WrittenNames(entries: seq<(string, string)>)
    ensures forall name :: name in Written(entries) <==>
              exists i :: 0 <= i < FirstRejected(entries) && entries[i].0 == name
    decreases |entries|
  {
    if entries != [] && StoredForm(entries[0].1).Some? {
      var rest := entries[1..];
      WrittenNames(rest);
      forall name | name in Written(entries)
        ensures exists i :: 0 <= i < FirstRejected(entries) && entries[i].0 == name
      {
        if name != entries[0].0 {
          assert name in Written(rest);
          var i :| 0 <= i < FirstRejected(rest) && rest[i].0 == name;
          assert entries[i + 1] == rest[i];
        }
      }
      forall name | exists i :: 0 <= i < FirstRejected(entries) && entries[i].0 == name
        ensures name in Written(entries)
      {
        var i :| 0 <= i < FirstRejected(entries) && entries[i].0 == name;
        if i > 0 {
          assert rest[i - 1] == entries[i];
        }
      }
    }
  }

  /** `putAll` fails exactly at the first rejected value, with that value's error. */
  lemma {:induction false} PutAllOutcome(refs: Refs, entries: seq<(string, string)>)
    ensures var f := FirstRejected(entries);
            PutAllSpec(refs, entries).1 == if f == |entries| then Pass else Fail(NotAnObjectId(entries[f].1))
    decreases |entries|
  {
    if entries != [] && StoredForm(entries[0].1).Some? {
      PutAllOutcome(refs[entries[0].0 := StoredForm(entries[0].1).value], entries[1..]);
    }
  }

  /**
   * `putAll` adds the written names and nothing else, and leaves every ref it does not
   * write as it was: the rejected entry and those after it are not written.
   */
  lemma {:induction false} PutAllUnchanged(refs: Refs, entries: seq<(string, string)>)
    ensures forall name :: name in PutAllSpec(refs, entries).0 <==> name in refs || name in Written(entries)
    ensures forall name :: name in refs && name !in Written(entries) ==> PutAllSpec(refs, entries).0[name] == refs[name]
    decreases |entries|
  {
    if entries != [] && StoredForm(entries[0].1).Some? {
      PutAllUnchanged(refs[entries[0].0 := StoredForm(entries[0].1).value], entries[1..]);
    }
  }

  /** With distinct names, every entry before the first rejected one is stored in its stored form. */
  lemma {:induction false} PutAllStored(refs: Refs, entries: seq<(string, string)>)
    requires DistinctNames(entries)
    ensures forall i :: 0 <= i < FirstRejected(entries) ==>
              entries[i].0 in PutAllSpec(refs, entries).0
              && PutAllSpec(refs, entries).0[entries[i].0] == StoredForm(entries[i].1).value
    decreases |entries|
  {
    if entries != [] && StoredForm(entries[0].1).Some? {
      var rest := entries[1..];
      var next := refs[entries[0].0 := StoredForm(entries[0].1).value];
      assert DistinctNames(rest) by {
        forall i, j | 0 <= i < j < |rest| ensures rest[i].0 != rest[j].0 {
          assert rest[i] == entries[i + 1] && rest[j] == entries[j + 1];
        }
      }
      PutAllStored(next, rest);
      PutAllUnchanged(next, rest);
      WrittenNames(rest);
      var out := PutAllSpec(refs, entries).0;
      assert out == PutAllSpec(next, rest).0;
      assert entries[0].0 !in Written(rest);
      forall i | 0 <= i < FirstRejected(entries)
        ensures entries[i].0 in out && out[entries[i].0] == StoredForm(entries[i].1).value
      {
        if i > 0 {
          assert entries[i] == rest[i - 1];
        }
      }
    }
  }

  /** Writing a stored form, or removing names, keeps the map well formed. */
  lemma {:induction false} PutAllKeepsWellFormed(refs: Refs, entries: seq<(string, string)>)
    requires WellFormed(refs)
    ensures WellFormed(PutAllSpec(refs, entries).0)
    decreases |entries|
  {
    if entries != [] && StoredForm(entries[0].1).Some? {
      StoredFormCases(entries[0].1);
      PutAllKeepsWellFormed(refs[entries[0].0 := StoredForm(entries[0].1).value], entries[1..]);
    }
  }

  /** After `putSymRef(name, target)` the ref reads back as `target` and is not a direct ref. */
  lemma SymRefRoundTrip(refs: Refs, name: string, target: string)
    ensures GetSymRef(refs[name := SYMREF_MARKER + target], name) == Ok(Some(target))
    ensures GetRef(refs[name := SYMREF_MARKER + target], name) == Err(NotAnObjectId(SYMREF_MARKER + target))
  {
    UnmaskMarked(target);
    MarkedIsNoId(SYMREF_MARKER + target);
  }

  /** After a successful `putRef(name, value)` the ref reads back as `value` and is not symbolic. */
  lemma DirectRefRoundTrip(refs: Refs, name: string, value: string)
    requires IsValidId(value)
    ensures GetRef(refs[name := value], name) == Ok(Some(value))
    ensures GetSymRef(refs[name := value], name) == Err(NotSymbolic(name, value))
  {
    if StartsWith(value, SYMREF_MARKER) {
      MarkedIsNoId(value);
    }
  }

  /**
   * In a well-formed map every stored ref is read by exactly one of `getRef` and
   * `getSymRef`, and what it reads is the unmasked value, which is what `remove` returns.
   */
  lemma ReadersAgree(refs: Refs, name: string)
    requires WellFormed(refs) && name in refs
    ensures GetRef(refs, name).Ok? != GetSymRef(refs, name).Ok?
    ensures GetRef(refs, name).Ok? ==> GetRef(refs, name) == Ok(Some(Unmask(refs[name])))
    ensures GetSymRef(refs, name).Ok? ==> GetSymRef(refs, name) == Ok(Some(Unmask(refs[name])))
  {
    if StartsWith(refs[name], SYMREF_MARKER) {
      MarkedIsNoId(refs[name]);
    }
  }

  /**
   * `getAll()` and `getAll(TRANSACTIONS_PREFIX)` split the refs between them, with the
   * same unmasked values; a top-level ref such as HEAD is in the former.
   */
  lemma GetAllPartition(refs: Refs)
    ensures GetAll(refs).Keys !! GetAllUnder(refs, TRANSACTIONS_PREFIX).Keys
    ensures GetAll(refs).Keys + GetAllUnder(refs, TRANSACTIONS_PREFIX).Keys == refs.Keys
    ensures forall name :: name in GetAll(refs) ==> GetAll(refs)[name] == Unmask(refs[name])
    ensures forall name :: name in GetAllUnder(refs, TRANSACTIONS_PREFIX) ==>
              GetAllUnder(refs, TRANSACTIONS_PREFIX)[name] == Unmask(refs[name])
    ensures "HEAD" in refs ==> "HEAD" in GetAll(refs)
  {
  }

  /**
   * A direct ref written by `putAll` under the transactions namespace is left out of
   * `getAll()` but listed, with its value, by `getAll(p)` for every prefix `p` of its name.
   */
  lemma TransactionRefScoping(refs: Refs, name: string, value: string, p: string)
    requires StartsWith(name, TRANSACTIONS_PREFIX) && StartsWith(name, p) && IsValidId(value)
    ensures var after := PutAllSpec(refs, [(name, value)]);
            after.1 == Pass && name !in GetAll(after.0)
            && name in GetAllUnder(after.0, p) && GetAllUnder(after.0, p)[name] == value
  {
    assert [(name, value)][1..] == [];
    assert value[0] != 'r';
  }

  /** The ref database kept on the heap. */
  class HeapRefDatabase {
    var refs: Refs
    const readOnly: bool
    /** Whether `putAll` holds the database lock. */
    ghost var locked: bool

    /** A new, empty database.  The heap database keeps the flag but no operation here checks it. */
    constructor (readOnly: bool)
      ensures refs == map[] && this.readOnly == readOnly && !locked
    {
      refs := map[];
      this.readOnly := readOnly;
      locked := false;
    }

    /** `putRef`: stores an object id under `name`, replacing any value; rejects anything else. */
    method PutRef(name: string, value: string) returns (r: Outcome<RefError>)
      modifies this
      ensures r == Pass <==> IsValidId(value)
      ensures r.Fail? ==> r.error == NotAnObjectId(value) && refs == old(refs)
      ensures r == Pass ==> refs == old(refs)[name := value]
      ensures WellFormed(old(refs)) ==> WellFormed(refs)
      ensures locked == old(locked)
    {
      if ValueOf(value).None? {
        return Fail(NotAnObjectId(value));
      }
      refs := refs[name := value];
      return Pass;
    }

    /** `putSymRef`: stores `target` behind the marker under `name`, replacing any value. */
    method PutSymRef(name: string, target: string)
      modifies this
      ensures refs == old(refs)[name := SYMREF_MARKER + target]
      ensures WellFormed(old(refs)) ==> WellFormed(refs)
      ensures locked == old(locked)
    {
      refs := refs[name := SYMREF_MARKER + target];
      UnmaskMarked(target);
    }

    /** `remove`: deletes `name` only, returning its value before removal with any marker stripped. */
    method Remove(name: string) returns (r: Option<string>)
      modifies this
      ensures refs == old(refs) - {name}
      ensures name !in old(refs) ==> r == None
      ensures name in old(refs) ==> r == Some(Unmask(old(refs)[name]))
      ensures WellFormed(old(refs)) ==> WellFormed(refs)
      ensures locked == old(locked)
    {
      if name !in refs {
        return None;
      }
      var oldValue := refs[name];
      refs := refs - {name};
      if StartsWith(oldValue, SYMREF_MARKER) {
        oldValue := Unmask(oldValue);
      }
      return Some(oldValue);
    }

    /**
     * `removeAll`: removes exactly the refs whose name starts with `namespace`, one key at
     * a time, and returns them with their stored values, markers included.
     */
    method RemoveAll(namespace: string) returns (removed: Refs)
      modifies this
      ensures forall name :: name in removed <==> name in old(refs) && StartsWith(name, namespace)
      ensures forall name :: name in removed ==> removed[name] == old(refs)[name]
      ensures forall name :: name in refs <==> name in old(refs) && !StartsWith(name, namespace)
      ensures forall name :: name in refs ==> refs[name] == old(refs)[name]
      ensures WellFormed(old(refs)) ==> WellFormed(refs)
      ensures locked == old(locked)
    {
      removed := map name | name in refs && StartsWith(name, namespace) :: refs[name];
      var pending := removed.Keys;
      while pending != {}
        invariant pending <= removed.Keys
        invariant refs == old(refs) - (removed.Keys - pending)
        invariant locked == old(locked)
        decreases pending
      {
        var name :| name in pending;
        refs := refs - {name};
        pending := pending - {name};
      }
    }

    /**
     * `putAll`: under the lock, stores each entry as a symbolic ref when its value is in
     * the refs namespace and as a direct ref otherwise.  A lock timeout fails before any
     * write; a rejected value ends the call, keeping earlier writes; the lock is released
     * either way.
     */
    method PutAll(entries: seq<(string, string)>, lockTimedOut: bool) returns (r: Outcome<RefError>)
      requires DistinctNames(entries) && !locked
      modifies this
      ensures lockTimedOut ==> r == Fail(LockTimeout) && refs == old(refs)
      ensures !lockTimedOut ==> (refs, r) == PutAllSpec(old(refs), entries)
      ensures WellFormed(old(refs)) ==> WellFormed(refs)
      ensures !locked
    {
      if lockTimedOut {
        return Fail(LockTimeout);
      }
      locked := true;
      if WellFormed(refs) {
        PutAllKeepsWellFormed(refs, entries);
      }
      ghost var goal := PutAllSpec(refs, entries);
      r := Pass;
      var i := 0;
      while i < |entries|
        invariant 0 <= i <= |entries|
        invariant locked && r == Pass
        invariant PutAllSpec(refs, entries[i..]) == goal
      {
        var (name, value) := entries[i];
        assert entries[i..][1..] == entries[i + 1..];
        if StartsWith(value, REFS_PREFIX) {
          PutSymRef(name, value);
        } else {
          r := PutRef(name, value);
          if r.Fail? {
            break;
          }
        }
        i := i + 1;
      }
      locked := false;
    }
  }
}
