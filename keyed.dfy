/** The invariant the manager relies on for both of its tables: live keys are
    unique and every live slot is filed under the key its record yields (the
    politician's name, the election's composite key). `keyOf` is a snapshot of that
    key for every record the manager has created. */
module Keyed {
  import opened Wrappers
  import opened Probing

  /** No live slot holds `v`. */
  ghost predicate Unheld<V>(s: seq<Slot<string, V>>, v: V) {
    forall j | 0 <= j < |s| && s[j].IsLive() :: s[j].value != v
  }

  /** Every record in a slot, live or tombstoned, belongs to `known`. */
  ghost predicate ValuesIn<V>(s: seq<Slot<string, V>>, known: set<V>) {
    forall j | 0 <= j < |s| && s[j].Full? :: s[j].value in known
  }

  /** `put` of a known record keeps every record known. */
  lemma PutValuesIn<V>(s: seq<Slot<string, V>>, hash: string -> int, k: string, v: V, known: set<V>)
    requires Terminates(s, hash, k, ForPut) && ValuesIn(s, known) && v in known
    ensures ValuesIn(PutSlots(s, hash, k, v), known)
  {
    var s' := PutSlots(s, hash, k, v);
    forall j | 0 <= j < |s'| && s'[j].Full?
      ensures s'[j].value in known
    {
      if j != ExitSlot(s, hash, k, ForPut) {
        assert s'[j] == s[j];
      }
    }
  }

  /** `remove` only turns a slot into a tombstone of the same record. */
  lemma RemoveValuesIn<V>(s: seq<Slot<string, V>>, hash: string -> int, k: string, known: set<V>)
    requires Terminates(s, hash, k, ForGet) && ValuesIn(s, known)
    ensures ValuesIn(RemoveSlots(s, hash, k), known)
  {
    var s' := RemoveSlots(s, hash, k);
    forall j | 0 <= j < |s'| && s'[j].Full?
      ensures s'[j].value in known
    {
      assert s[j].Full? && s'[j].value == s[j].value;
    }
  }

  ghost predicate KeyedBy<V>(s: seq<Slot<string, V>>, keyOf: map<V, string>) {
    && UniqueLive(s)
    && forall j | 0 <= j < |s| && s[j].IsLive() :: s[j].value in keyOf && keyOf[s[j].value] == s[j].key
  }

  /** A record not yet in the snapshot is in no live slot. */
  lemma UnknownIsUnheld<V>(s: seq<Slot<string, V>>, keyOf: map<V, string>, v: V)
    requires KeyedBy(s, keyOf) && v !in keyOf
    ensures Unheld(s, v)
  {
  }

  /** A record found under `k` is in no other live slot. */
  lemma {:induction false} FoundOnce<V>(s: seq<Slot<string, V>>, hash: string -> int, keyOf: map<V, string>, k: string)
    requires |s| > 0 && KeyedBy(s, keyOf) && Lookup(s, hash, k).Some?
    ensures Terminates(s, hash, k, ForGet)
    ensures var x := ExitSlot(s, hash, k, ForGet);
      forall j | 0 <= j < |s| && j != x && s[j].IsLive() :: s[j].value != s[x].value
  {
    LookupSound(s, hash, k);
    var x := ExitSlot(s, hash, k, ForGet);
    forall j | 0 <= j < |s| && j != x && s[j].IsLive()
      ensures s[j].value != s[x].value
    {
      assert s[j].key != s[x].key;
      assert keyOf[s[j].value] == s[j].key && keyOf[s[x].value] == s[x].key;
    }
  }

  /** `put` of a record held nowhere, under a key that is absent, files it under that key. */
  lemma KeyedAfterGuardedPut<V>(s: seq<Slot<string, V>>, hash: string -> int, keyOf: map<V, string>, k: string, v: V)
    requires Terminates(s, hash, k, ForPut) && ChainsIntact(s, hash) && KeyedBy(s, keyOf)
    requires Lookup(s, hash, k) == None && Unheld(s, v)
    ensures KeyedBy(PutSlots(s, hash, k, v), keyOf[v := k])
  {
    GuardedPutKeepsUnique(s, hash, k, v);
    var s' := PutSlots(s, hash, k, v);
    var p := ExitSlot(s, hash, k, ForPut);
    forall j | 0 <= j < |s'| && s'[j].IsLive()
      ensures s'[j].value in keyOf[v := k] && keyOf[v := k][s'[j].value] == s'[j].key
    {
      if j != p {
        assert s'[j] == s[j];
      }
    }
  }

  /** `remove` keeps the table keyed. */
  lemma KeyedAfterRemove<V>(s: seq<Slot<string, V>>, hash: string -> int, keyOf: map<V, string>, k: string)
    requires Terminates(s, hash, k, ForGet) && KeyedBy(s, keyOf)
    ensures KeyedBy(RemoveSlots(s, hash, k), keyOf)
  {
    RemoveKeepsUnique(s, hash, k);
    var s' := RemoveSlots(s, hash, k);
    assert forall j | 0 <= j < |s| && s'[j].IsLive() :: s'[j] == s[j];
  }

  /** Re-filing the record found under `k` under `k'` (remove, then put): the table
      stays keyed once the snapshot says `k'`, provided `k'` was free or is `k`. The
      record is then found under `k'` and nothing is found under `k` any more. */
  lemma KeyedAfterRename<V>(s: seq<Slot<string, V>>, hash: string -> int, keyOf: map<V, string>,
                            k: string, k': string, v: V)
    requires Terminates(s, hash, k, ForGet) && ChainsIntact(s, hash) && KeyedBy(s, keyOf)
    requires Lookup(s, hash, k) == Some(v)
    requires k' == k || Lookup(s, hash, k') == None
    ensures var s' := RenameSlots(s, hash, k, k', v);
      && KeyedBy(s', keyOf[v := k'])
      && Lookup(s', hash, k') == Some(v)
      && (k != k' ==> Lookup(s', hash, k) == None)
  {
    var s1 := RemoveSlots(s, hash, k);
    PutAfterRemoveTerminates(s, hash, k, k');
    var x := ExitSlot(s, hash, k, ForGet);
    FoundOnce(s, hash, keyOf, k);
    KeyedAfterRemove(s, hash, keyOf, k);
    RemoveKeepsChains(s, hash, k);
    LookupAfterRemove(s, hash, k);
    if k' != k {
      LookupOtherAfterRemove(s, hash, k, k');
    }
    assert Unheld(s1, v) by {
      forall j | 0 <= j < |s1| && s1[j].IsLive()
        ensures s1[j].value != v
      {
        assert j != x && s1[j] == s[j];
      }
    }
    KeyedAfterGuardedPut(s1, hash, keyOf, k', v);
    LookupAfterPut(s1, hash, k', v);
    if k != k' {
      LookupOtherAfterPut(s1, hash, k', v, k);
    }
  }

  /** The same re-filing seen as a map: the record moves from `k` to `k'`. */
  lemma MappingAfterRename<V>(s: seq<Slot<string, V>>, hash: string -> int, keyOf: map<V, string>,
                              k: string, k': string, v: V)
    requires Terminates(s, hash, k, ForGet) && ChainsIntact(s, hash) && KeyedBy(s, keyOf)
    requires Lookup(s, hash, k) == Some(v)
    requires k' == k || Lookup(s, hash, k') == None
    ensures UniqueLive(RenameSlots(s, hash, k, k', v))
    ensures Mapping(RenameSlots(s, hash, k, k', v)) == (Mapping(s) - {k})[k' := v]
  {
    var s1 := RemoveSlots(s, hash, k);
    PutAfterRemoveTerminates(s, hash, k, k');
    MappingAfterRemove(s, hash, k);
    RemoveKeepsChains(s, hash, k);
    LookupAfterRemove(s, hash, k);
    if k' != k {
      LookupOtherAfterRemove(s, hash, k, k');
    }
    MappingAfterGuardedPut(s1, hash, k', v);
  }
}
