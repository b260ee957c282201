/** The open-addressing table of elections/structures/HashTable.java as a class over
    an array of mutable `Entry` objects. The ghost `Slots` is the value-level view of
    the array; every method is proved to act on it as the functions of `Probing` say,
    and the lemmas there carry the properties over to the class. */
module HashTables {
  import opened Wrappers
  import opened Probing

  /** One stored pair; `deleted` marks a tombstone. The key is assigned only by the
      constructor. */
  class Entry<K, V> {
    const key: K
    var value: V
    var deleted: bool

    constructor (key: K, value: V)
      ensures this.key == key && this.value == value && !deleted
    {
      this.key := key;
      this.value := value;
      deleted := false;
    }
  }

  /** The value-level view of one array cell. */
  function SlotOf<K, V>(e: Entry?<K, V>): (sl: Slot<K, V>)
    reads e
    ensures sl.Empty? <==> e == null
    ensures e != null ==> sl == Full(e.key, e.value, e.deleted)
  {
    if e == null then Empty else Full(e.key, e.value, e.deleted)
  }

  class HashTable<K(==), V> {
    // public view
    ghost var Slots: seq<Slot<K, V>>
    ghost var Repr: set<object>

    /** `key.hashCode()`, supplied by the key type. */
    const hashCode: K -> int
    const capacity: nat
    const table: array<Entry?<K, V>>
    var size: nat

    /** The array matches `Slots` cell by cell, no entry object sits in two cells,
        `size` counts the live entries and every probe chain is intact. The
        footprint holds the table, its array and entries, and nothing else. */
    ghost predicate Valid()
      reads this, Repr
      ensures Valid() ==> this in Repr
    {
      && this in Repr && table in Repr
      && (forall o: object | o in Repr :: o == this || o == table || o is Entry<K, V>)
      && table.Length == capacity == |Slots| && capacity > 0
      && (forall i | 0 <= i < capacity && table[i] != null :: table[i] in Repr)
      && (forall i, j | 0 <= i < j < capacity && table[i] != null :: table[i] != table[j])
      && (forall i | 0 <= i < capacity :: Slots[i] == SlotOf(table[i]))
      && size == LiveCount(Slots)
      && ChainsIntact(Slots, hashCode)
    }

    /** The key/value map the table represents, once live keys are unique. */
    ghost function Map(): (m: map<K, V>)
      reads this, Repr
      requires Valid() && UniqueLive(Slots)
      ensures m == Mapping(Slots)
    {
      Mapping(Slots)
    }

    /** A table of `capacity` `null` slots. The source divides by the capacity on every
        access, so it must be positive. */
    constructor (capacity: nat, hashCode: K -> int)
      requires capacity > 0
      ensures Valid() && fresh(Repr)
      ensures this.capacity == capacity && this.hashCode == hashCode
      ensures Slots == EmptySlots(capacity) && size == 0
    {
      this.capacity := capacity;
      this.hashCode := hashCode;
      table := new Entry?<K, V>[capacity](_ => null);
      size := 0;
      Slots := EmptySlots(capacity);
      Repr := {this, table};
      new;
      EmptyTable<K, V>(capacity, hashCode);
    }

    /** Overwrites a live equal key met before the first `null` or tombstone, and
        otherwise writes a fresh entry into that slot. */
    method Put(key: K, value: V)
      requires Valid() && Terminates(Slots, hashCode, key, ForPut)
      modifies Repr
      ensures Valid() && fresh(Repr - old(Repr))
      ensures Slots == PutSlots(old(Slots), hashCode, key, value)
      ensures size == old(size) + if PutInserts(old(Slots), hashCode, key) then 1 else 0
    {
      ghost var home := Home(hashCode, key, capacity);
      ghost var d := ProbeEnd(Slots, hashCode, key, ForPut);
      ghost var t: nat := 0;
      var index := Home(hashCode, key, capacity);
      while table[index] != null && !table[index].deleted
        invariant unchanged(this) && unchanged(Repr)
        invariant t <= d && index == Pos(home, t, capacity)
        decreases d - t
      {
        if table[index].key == key {
          assert t == d;
          UpdateValue(key, index, value);
          return;
        }
        PosStep(home, t, capacity);
        index := (index + 1) % capacity;
        t := t + 1;
      }
      assert t == d;
      var e := new Entry(key, value);
      StoreEntry(key, index, e);
    }

    /** The in-place branch of `put`: the live entry for `key` at the probe's exit
        slot gets the new value. */
    method UpdateValue(key: K, index: nat, value: V)
      requires Valid() && Terminates(Slots, hashCode, key, ForPut)
      requires index == ExitSlot(Slots, hashCode, key, ForPut) && Slots[index].IsLive()
      modifies Repr
      ensures Valid() && Repr == old(Repr) && size == old(size)
      ensures Slots == PutSlots(old(Slots), hashCode, key, value)
    {
      LiveCountUpdate(Slots, index, Full(key, value, false));
      PutKeepsChains(Slots, hashCode, key, value);
      table[index].value := value;
      Slots := Slots[index := Full(key, value, false)];
      forall i | 0 <= i < capacity
        ensures Slots[i] == SlotOf(table[i])
      {
        if i != index {
          assert table[i] == null || table[i] != table[index];
        }
      }
    }

    /** The inserting branch of `put`: a fresh entry replaces the `null` or tombstone
        at the probe's exit slot and `size` grows by one. */
    method StoreEntry(key: K, index: nat, e: Entry<K, V>)
      requires Valid() && Terminates(Slots, hashCode, key, ForPut)
      requires index == ExitSlot(Slots, hashCode, key, ForPut) && !Slots[index].IsLive()
      requires e !in Repr && e.key == key && !e.deleted
      modifies Repr
      ensures Valid() && Repr == old(Repr) + {e} && size == old(size) + 1
      ensures Slots == PutSlots(old(Slots), hashCode, key, e.value)
    {
      LiveCountUpdate(Slots, index, Full(key, e.value, false));
      PutKeepsChains(Slots, hashCode, key, e.value);
      table[index] := e;
      size := size + 1;
      Slots := Slots[index := Full(key, e.value, false)];
      Repr := Repr + {e};
    }

    /** The value of the first live equal key on the probe path, or `null` on
        reaching a `null` slot. */
    method Get(key: K) returns (r: Option<V>)
      requires Valid() && Terminates(Slots, hashCode, key, ForGet)
      ensures r == Lookup(Slots, hashCode, key)
    {
      ghost var home := Home(hashCode, key, capacity);
      ghost var d := ProbeEnd(Slots, hashCode, key, ForGet);
      ghost var t: nat := 0;
      var index := Home(hashCode, key, capacity);
      while table[index] != null
        invariant t <= d && index == Pos(home, t, capacity)
        decreases d - t
      {
        if !table[index].deleted && table[index].key == key {
          assert t == d;
          return Some(table[index].value);
        }
        PosStep(home, t, capacity);
        index := (index + 1) % capacity;
        t := t + 1;
      }
      assert t == d;
      return None;
    }

    /** The value stored at one cell, `null` outside the array and for `null` or
        tombstoned cells. */
    function GetFromIndex(index: int): (r: Option<V>)
      reads this, Repr
      requires Valid()
      ensures r == SlotValue(Slots, index)
    {
      if index < 0 || index >= capacity then None
      else if table[index] == null || table[index].deleted then None
      else Some(table[index].value)
    }

    /** Marks the first live equal key on the probe path deleted; nothing happens
        when the probe reaches `null` first. */
    method Remove(key: K)
      requires Valid() && Terminates(Slots, hashCode, key, ForGet)
      modifies Repr
      ensures Valid() && Repr == old(Repr)
      ensures Slots == RemoveSlots(old(Slots), hashCode, key)
      ensures size == old(size) - if RemoveFinds(old(Slots), hashCode, key) then 1 else 0
    {
      ghost var home := Home(hashCode, key, capacity);
      ghost var d := ProbeEnd(Slots, hashCode, key, ForGet);
      ghost var t: nat := 0;
      var index := Home(hashCode, key, capacity);
      while table[index] != null
        invariant unchanged(this) && unchanged(Repr)
        invariant t <= d && index == Pos(home, t, capacity)
        decreases d - t
      {
        if !table[index].deleted && table[index].key == key {
          assert t == d;
          LiveCountAfterRemove(Slots, hashCode, key);
          RemoveKeepsChains(Slots, hashCode, key);
          table[index].deleted := true;
          size := size - 1;
          Slots := Slots[index := Slots[index].(deleted := true)];
          return;
        }
        PosStep(home, t, capacity);
        index := (index + 1) % capacity;
        t := t + 1;
      }
      assert t == d;
    }
  }
}
