/** Value-level model of the open-addressing table in elections/structures/HashTable.java:
    the slot array as a sequence, the start slot computed from a hash code, linear
    probing with wrap-around, and what `put`, `get` and `remove` do to the slots.
    The class `HashTables.HashTable` is proved to follow these functions; the lemmas
    here say what the functions guarantee. */
module Probing {
  import opened Wrappers

  // ---------------------------------------------------------------------------
  // Java int arithmetic used by `hash`
  // ---------------------------------------------------------------------------

  const IntMin: int := -0x8000_0000
  const IntMax: int := 0x7fff_ffff

  predicate IsInt(x: int) { IntMin <= x <= IntMax }

  /** `Math.abs` on a Java int: the negation of MIN_VALUE overflows back to MIN_VALUE. */
  function JavaAbs(x: int): (r: int)
    requires IsInt(x)
    ensures IsInt(r)
    ensures x != IntMin ==> 0 <= r && (r == x || r == -x)
    ensures x == IntMin ==> r < 0
  {
    if x == IntMin then IntMin else if x < 0 then -x else x
  }

  /** Java's `%`, which truncates toward zero: the remainder takes the sign of `a`. */
  function JavaRem(a: int, b: int): (r: int)
    requires b > 0
    ensures -b < r < b
    ensures a >= 0 ==> r >= 0
    ensures a < 0 ==> r <= 0
  {
    if a >= 0 then a % b else -((-a) % b)
  }

  /** The start slot exactly as written: `Math.abs(h) % capacity`. */
  function JavaStartSlot(h: int, capacity: nat): (r: int)
    requires IsInt(h) && capacity > 0
    ensures -(capacity as int) < r < capacity
    ensures r < 0 <==> h == IntMin && 0x8000_0000 % capacity != 0
  {
    JavaRem(JavaAbs(h), capacity)
  }

  /** The start slot as the doc-comment intends it: |h| mod capacity in unbounded
      arithmetic, always a valid index. Used by the rest of the model. */
  function StartSlot(h: int, capacity: nat): (r: nat)
    requires capacity > 0
    ensures r < capacity
  {
    (if h < 0 then -h else h) % capacity
  }

  /** For every hash code but MIN_VALUE the source computes the intended slot. */
  lemma StartSlotAgrees(h: int, capacity: nat)
    requires IsInt(h) && h != IntMin && capacity > 0
    ensures JavaStartSlot(h, capacity) == StartSlot(h, capacity)
    ensures 0 <= JavaStartSlot(h, capacity) < capacity
  {
    assert JavaAbs(h) == (if h < 0 then -h else h);
  }

  /** For MIN_VALUE the source's slot is negative unless the capacity divides 2^31;
      with the manager's capacity 100 it is -48 (an ArrayIndexOutOfBoundsException). */
  lemma JavaStartSlotAtMinValue(capacity: nat)
    requires capacity > 0
    ensures JavaStartSlot(IntMin, capacity) == -(0x8000_0000 % capacity)
    ensures JavaStartSlot(IntMin, capacity) < 0 <==> 0x8000_0000 % capacity != 0
    ensures JavaStartSlot(IntMin, 100) == -48
  {
  }

  // ---------------------------------------------------------------------------
  // Slots and linear probing
  // ---------------------------------------------------------------------------

  /** A table slot: `null`, or an `Entry` with its key, value and `deleted` flag
      (a deleted entry is a tombstone). */
  datatype Slot<K, V> = Empty | Full(key: K, value: V, deleted: bool)
  {
    predicate IsLive() { Full? && !deleted }
  }

  /** The two probe loops: `get`/`remove` stop at `null` or at a live equal key;
      `put` stops at `null`, at a tombstone, or at a live equal key. */
  datatype Probe = ForGet | ForPut

  predicate Stops<K(==), V>(sl: Slot<K, V>, k: K, mode: Probe) {
    match mode
    case ForGet => sl.Empty? || (sl.IsLive() && sl.key == k)
    case ForPut => sl.Empty? || sl.deleted || sl.key == k
  }

  /** The slot reached after `t` steps of `index = (index + 1) % n` from `start`. */
  function Pos(start: nat, t: nat, n: nat): (p: nat)
    requires start < n && t < n
    ensures p < n
  {
    if start + t < n then start + t else start + t - n
  }

  /** The number of steps from slot `a` forward to slot `b`. */
  function Offset(a: nat, b: nat, n: nat): (t: nat)
    requires a < n && b < n
    ensures t < n && Pos(a, t, n) == b
  {
    if a <= b then b - a else b + n - a
  }

  lemma PosInjective(start: nat, u: nat, w: nat, n: nat)
    requires start < n && u < n && w < n && u != w
    ensures Pos(start, u, n) != Pos(start, w, n)
  {
  }

  /** One step of `index = (index + 1) % n`. */
  lemma PosStep(start: nat, t: nat, n: nat)
    requires start < n && t + 1 < n
    ensures (Pos(start, t, n) + 1) % n == Pos(start, t + 1, n)
  {
  }

  lemma OffsetOfPos(start: nat, t: nat, n: nat)
    requires start < n && t < n
    ensures Offset(start, Pos(start, t, n), n) == t
  {
  }

  /** The first step, at `t` or later, where the probe stops; `|s|` when it never does
      (the Java loop then runs forever). */
  function Dist<K(==), V>(s: seq<Slot<K, V>>, k: K, mode: Probe, start: nat, t: nat): (d: nat)
    requires start < |s| && t <= |s|
    decreases |s| - t
    ensures t <= d <= |s|
    ensures d < |s| ==> Stops(s[Pos(start, d, |s|)], k, mode)
    ensures forall u | t <= u < d :: !Stops(s[Pos(start, u, |s|)], k, mode)
  {
    if t == |s| then |s|
    else if Stops(s[Pos(start, t, |s|)], k, mode) then t
    else Dist(s, k, mode, start, t + 1)
  }

  /** The first stop is unique: a step before which nothing stops and at which the
      probe stops is the value of `Dist`. */
  lemma DistIs<K, V>(s: seq<Slot<K, V>>, k: K, mode: Probe, start: nat, d: nat)
    requires start < |s| && d < |s|
    requires Stops(s[Pos(start, d, |s|)], k, mode)
    requires forall u | 0 <= u < d :: !Stops(s[Pos(start, u, |s|)], k, mode)
    ensures Dist(s, k, mode, start, 0) == d
  {
  }

  /** The home slot of a key: where every probe for it starts. */
  function Home<K>(hash: K -> int, k: K, n: nat): (h: nat)
    requires n > 0
    ensures h < n
  {
    StartSlot(hash(k), n)
  }

  function ProbeEnd<K(==), V>(s: seq<Slot<K, V>>, hash: K -> int, k: K, mode: Probe): (d: nat)
    requires |s| > 0
    ensures d <= |s|
  {
    Dist(s, k, mode, Home(hash, k, |s|), 0)
  }

  /** The probe loop for `k` ends (it meets a stop within one round of the table). */
  predicate Terminates<K(==), V>(s: seq<Slot<K, V>>, hash: K -> int, k: K, mode: Probe) {
    |s| > 0 && ProbeEnd(s, hash, k, mode) < |s|
  }

  /** The slot at which a terminating probe loop exits. */
  function ExitSlot<K(==), V>(s: seq<Slot<K, V>>, hash: K -> int, k: K, mode: Probe): (p: nat)
    requires Terminates(s, hash, k, mode)
    ensures p < |s|
    ensures Stops(s[p], k, mode)
  {
    Pos(Home(hash, k, |s|), ProbeEnd(s, hash, k, mode), |s|)
  }

  predicate HasEmpty<K, V>(s: seq<Slot<K, V>>) {
    exists i | 0 <= i < |s| :: s[i].Empty?
  }

  /** With a `null` slot anywhere, every probe loop ends. */
  lemma HasEmptyTerminates<K, V>(s: seq<Slot<K, V>>, hash: K -> int, k: K, mode: Probe)
    requires HasEmpty(s)
    ensures Terminates(s, hash, k, mode)
  {
    var i :| 0 <= i < |s| && s[i].Empty?;
    var home := Home(hash, k, |s|);
    var off := Offset(home, i, |s|);
    assert Stops(s[Pos(home, off, |s|)], k, mode);
    assert ProbeEnd(s, hash, k, mode) <= off;
  }

  /** A `null` cell or a tombstone stops every `put`, so once the table has one,
      `put`'s loop ends for every key. */
  lemma FreeSlotTerminates<K, V>(s: seq<Slot<K, V>>, hash: K -> int, k: K, p: nat)
    requires p < |s| && (s[p].Empty? || s[p].deleted)
    ensures Terminates(s, hash, k, ForPut)
  {
    var home := Home(hash, k, |s|);
    var off := Offset(home, p, |s|);
    assert Stops(s[Pos(home, off, |s|)], k, ForPut);
  }

  /** `put`'s loop stops wherever `get`'s does, if not earlier. */
  lemma GetStopsPut<K, V>(s: seq<Slot<K, V>>, hash: K -> int, k: K)
    requires Terminates(s, hash, k, ForGet)
    ensures Terminates(s, hash, k, ForPut)
  {
    var d := ProbeEnd(s, hash, k, ForGet);
    assert Stops(s[Pos(Home(hash, k, |s|), d, |s|)], k, ForPut);
  }

  // ---------------------------------------------------------------------------
  // The three operations on slots
  // ---------------------------------------------------------------------------

  /** `get(k)`: the value of the live equal key where the probe stops, or `null`. */
  function Lookup<K(==), V>(s: seq<Slot<K, V>>, hash: K -> int, k: K): (r: Option<V>)
    requires |s| > 0
  {
    var d := ProbeEnd(s, hash, k, ForGet);
    if d < |s| && s[Pos(Home(hash, k, |s|), d, |s|)].Full?
    then Some(s[Pos(Home(hash, k, |s|), d, |s|)].value)
    else None
  }

  /** `put(k, v)`: the slot where the probe stops gets a live entry for `k` holding `v`
      (an overwrite when it held live `k`, a fresh entry otherwise). */
  function PutSlots<K(==), V>(s: seq<Slot<K, V>>, hash: K -> int, k: K, v: V): (r: seq<Slot<K, V>>)
    requires Terminates(s, hash, k, ForPut)
    ensures |r| == |s|
  {
    s[ExitSlot(s, hash, k, ForPut) := Full(k, v, false)]
  }

  /** `put` writes a new entry (and increments `size`) unless it found a live equal key. */
  predicate PutInserts<K(==), V>(s: seq<Slot<K, V>>, hash: K -> int, k: K)
    requires Terminates(s, hash, k, ForPut)
  {
    !s[ExitSlot(s, hash, k, ForPut)].IsLive()
  }

  /** `remove(k)`: the live equal key where the probe stops becomes a tombstone;
      nothing changes when the probe reached `null`. Either way the exit cell then
      stops every `put`, so a `put` after a `remove` always ends. */
  function RemoveSlots<K(==), V>(s: seq<Slot<K, V>>, hash: K -> int, k: K): (r: seq<Slot<K, V>>)
    requires Terminates(s, hash, k, ForGet)
    ensures |r| == |s|
  {
    var p := ExitSlot(s, hash, k, ForGet);
    if s[p].Full? then s[p := s[p].(deleted := true)] else s
  }

  /** After `remove(k)` every `put` ends: the cell where the removal stopped is now a
      tombstone, or it was `null` already. */
  lemma PutAfterRemoveTerminates<K, V>(s: seq<Slot<K, V>>, hash: K -> int, k: K, k': K)
    requires Terminates(s, hash, k, ForGet)
    ensures Terminates(RemoveSlots(s, hash, k), hash, k', ForPut)
  {
    FreeSlotTerminates(RemoveSlots(s, hash, k), hash, k', ExitSlot(s, hash, k, ForGet));
  }

  /** `remove(k)` and then `put(k', v)`: how the manager re-files a renamed record. */
  function RenameSlots<K(==), V>(s: seq<Slot<K, V>>, hash: K -> int, k: K, k': K, v: V): (r: seq<Slot<K, V>>)
    requires Terminates(s, hash, k, ForGet)
    ensures |r| == |s|
  {
    PutAfterRemoveTerminates(s, hash, k, k');
    PutSlots(RemoveSlots(s, hash, k), hash, k', v)
  }

  predicate RemoveFinds<K(==), V>(s: seq<Slot<K, V>>, hash: K -> int, k: K)
    requires Terminates(s, hash, k, ForGet)
  {
    s[ExitSlot(s, hash, k, ForGet)].Full?
  }

  /** `getFromIndex(i)`: the stored value of a live slot, `null` for anything else. */
  function SlotValue<K, V>(s: seq<Slot<K, V>>, i: int): (r: Option<V>)
    ensures r.Some? <==> 0 <= i < |s| && s[i].IsLive()
    ensures r.Some? ==> r.value == s[i].value
  {
    if 0 <= i < |s| && s[i].IsLive() then Some(s[i].value) else None
  }

  // ---------------------------------------------------------------------------
  // Table invariants
  // ---------------------------------------------------------------------------

  /** Number of live entries: what the `size` field counts. */
  function LiveCount<K, V>(s: seq<Slot<K, V>>): (c: nat)
    ensures c <= |s|
  {
    if s == [] then 0 else LiveCount(s[..|s| - 1]) + (if s[|s| - 1].IsLive() then 1 else 0)
  }

  /** Every entry, live or tombstone, is reachable from its home slot without crossing `null`. */
  ghost predicate ChainsIntact<K, V>(s: seq<Slot<K, V>>, hash: K -> int) {
    forall j, t | 0 <= j < |s| && s[j].Full? && 0 <= t < Offset(Home(hash, s[j].key, |s|), j, |s|) ::
      s[Pos(Home(hash, s[j].key, |s|), t, |s|)].Full?
  }

  /** At most one live entry per key. */
  ghost predicate UniqueLive<K, V>(s: seq<Slot<K, V>>) {
    forall i, j | 0 <= i < |s| && 0 <= j < |s| && i != j && s[i].IsLive() && s[j].IsLive() ::
      s[i].key != s[j].key
  }

  ghost predicate LiveAt<K, V>(s: seq<Slot<K, V>>, j: int, k: K) {
    0 <= j < |s| && s[j].IsLive() && s[j].key == k
  }

  /** The keys that have a live entry. */
  ghost function LiveKeys<K, V>(s: seq<Slot<K, V>>): (r: set<K>)
    ensures forall j | 0 <= j < |s| && s[j].IsLive() :: s[j].key in r
    ensures forall k | k in r :: exists j :: LiveAt(s, j, k)
  {
    var r := set j | 0 <= j < |s| && s[j].IsLive() :: s[j].key;
    assert forall k | k in r :: exists j :: LiveAt(s, j, k) by {
      forall k | k in r
        ensures exists j :: LiveAt(s, j, k)
      {
        var j :| 0 <= j < |s| && s[j].IsLive() && s[j].key == k;
        assert LiveAt(s, j, k);
      }
    }
    r
  }

  /** The abstract map held by a table whose live keys are unique: each live key
      maps to the value of its entry. */
  ghost function Mapping<K, V>(s: seq<Slot<K, V>>): (m: map<K, V>)
    requires UniqueLive(s)
    ensures m.Keys == LiveKeys(s)
    ensures forall j | 0 <= j < |s| && s[j].IsLive() :: m[s[j].key] == s[j].value
  {
    map k | k in LiveKeys(s) :: var j :| LiveAt(s, j, k); s[j].value
  }

  // ---------------------------------------------------------------------------
  // Lemmas
  // ---------------------------------------------------------------------------

  /** The slots of a freshly constructed table. */
  function EmptySlots<K, V>(n: nat): (s: seq<Slot<K, V>>)
    ensures |s| == n && forall i | 0 <= i < n :: s[i].Empty?
  {
    seq(n, _ => Empty)
  }

  /** A new table: nothing live, every invariant holds, and (capacity > 0) a `null` slot. */
  lemma EmptyTable<K, V>(n: nat, hash: K -> int)
    ensures LiveCount(EmptySlots<K, V>(n)) == 0
    ensures ChainsIntact(EmptySlots<K, V>(n), hash) && UniqueLive(EmptySlots<K, V>(n))
    ensures n > 0 ==> HasEmpty(EmptySlots<K, V>(n))
  {
    var s := EmptySlots<K, V>(n);
    LiveCountNone(s);
    if n > 0 {
      assert s[0].Empty?;
    }
  }

  lemma {:induction false} LiveCountNone<K, V>(s: seq<Slot<K, V>>)
    requires forall i | 0 <= i < |s| :: !s[i].IsLive()
    ensures LiveCount(s) == 0
  {
    if s != [] {
      LiveCountNone(s[..|s| - 1]);
    }
  }

  /** Updating one slot changes the live count by the difference in liveness. */
  lemma {:induction false} LiveCountUpdate<K, V>(s: seq<Slot<K, V>>, i: nat, x: Slot<K, V>)
    requires i < |s|
    ensures LiveCount(s[i := x]) + (if s[i].IsLive() then 1 else 0)
         == LiveCount(s) + (if x.IsLive() then 1 else 0)
  {
    var n := |s|;
    if i == n - 1 {
      assert s[i := x][..n - 1] == s[..n - 1];
    } else {
      assert s[i := x][..n - 1] == s[..n - 1][i := x];
      LiveCountUpdate(s[..n - 1], i, x);
    }
  }

  /** What `get` returns is always the value of a live entry for the key. */
  lemma LookupSound<K, V>(s: seq<Slot<K, V>>, hash: K -> int, k: K)
    requires |s| > 0 && Lookup(s, hash, k).Some?
    ensures Terminates(s, hash, k, ForGet)
    ensures LiveAt(s, ExitSlot(s, hash, k, ForGet), k)
    ensures Lookup(s, hash, k).value == s[ExitSlot(s, hash, k, ForGet)].value
  {
  }

  /** With intact chains `get` never misses a live key: it reaches the key's slot
      or an earlier live entry of the same key. */
  lemma LookupComplete<K, V>(s: seq<Slot<K, V>>, hash: K -> int, j: nat)
    requires j < |s| && ChainsIntact(s, hash)
    ensures s[j].IsLive() ==> Terminates(s, hash, s[j].key, ForGet) && Lookup(s, hash, s[j].key).Some?
    ensures s[j].IsLive() && UniqueLive(s) ==> Lookup(s, hash, s[j].key) == Some(s[j].value)
  {
    if s[j].IsLive() {
      var k := s[j].key;
      var n := |s|;
      var home := Home(hash, k, n);
      var off := Offset(home, j, n);
      assert Stops(s[Pos(home, off, n)], k, ForGet);
      var d := ProbeEnd(s, hash, k, ForGet);
      assert d <= off;
      if d < off {
        assert s[Pos(home, d, n)].Full?;
        PosInjective(home, d, off, n);
      }
    }
  }

  /** A key without a live entry is not found. */
  lemma LookupAbsent<K, V>(s: seq<Slot<K, V>>, hash: K -> int, k: K)
    requires |s| > 0 && forall j :: !LiveAt(s, j, k)
    ensures Lookup(s, hash, k) == None
  {
    var d := ProbeEnd(s, hash, k, ForGet);
    if d < |s| {
      assert !LiveAt(s, Pos(Home(hash, k, |s|), d, |s|), k);
    }
  }

  /** Under both invariants `get` is exactly a lookup in the abstract map. */
  lemma LookupIsMapping<K, V>(s: seq<Slot<K, V>>, hash: K -> int, k: K)
    requires |s| > 0 && ChainsIntact(s, hash) && UniqueLive(s)
    ensures Lookup(s, hash, k) == if k in Mapping(s) then Some(Mapping(s)[k]) else None
  {
    if k in Mapping(s) {
      var j :| LiveAt(s, j, k);
      LookupComplete(s, hash, j);
    } else {
      LookupAbsent(s, hash, k);
    }
  }

  /** After `put(k, v)`, `get(k)` returns `v` (no invariant needed: the get probe
      passes the same live non-matching entries and stops where put wrote). */
  lemma LookupAfterPut<K, V>(s: seq<Slot<K, V>>, hash: K -> int, k: K, v: V)
    requires Terminates(s, hash, k, ForPut)
    ensures Terminates(PutSlots(s, hash, k, v), hash, k, ForGet)
    ensures Lookup(PutSlots(s, hash, k, v), hash, k) == Some(v)
  {
    var s' := PutSlots(s, hash, k, v);
    var n := |s|;
    var home := Home(hash, k, n);
    var d := ProbeEnd(s, hash, k, ForPut);
    forall u | 0 <= u < d
      ensures !Stops(s'[Pos(home, u, n)], k, ForGet)
    {
      PosInjective(home, u, d, n);
      assert !Stops(s[Pos(home, u, n)], k, ForPut);
    }
    DistIs(s', k, ForGet, home, d);
  }

  /** Probing for another key is not disturbed by `put` when chains are intact. */
  lemma LookupOtherAfterPut<K, V>(s: seq<Slot<K, V>>, hash: K -> int, k: K, v: V, k': K)
    requires Terminates(s, hash, k, ForPut) && ChainsIntact(s, hash) && k' != k
    ensures Lookup(PutSlots(s, hash, k, v), hash, k') == Lookup(s, hash, k')
  {
    var s' := PutSlots(s, hash, k, v);
    var n := |s|;
    var p := ExitSlot(s, hash, k, ForPut);
    var home := Home(hash, k', n);
    var d := ProbeEnd(s, hash, k', ForGet);
    if s[p].Full? {
      // a tombstone or a live entry of `k` became a live entry of `k`: no stop for `k'` either way
      forall u | 0 <= u < n
        ensures Stops(s'[Pos(home, u, n)], k', ForGet) == Stops(s[Pos(home, u, n)], k', ForGet)
      {
      }
      if d < n {
        DistIs(s', k', ForGet, home, d);
      } else {
        NeverStops(s', k', home);
      }
    } else if Lookup(s, hash, k').Some? {
      LookupSound(s, hash, k');
      var q := ExitSlot(s, hash, k', ForGet);
      forall u | 0 <= u <= d
        ensures s'[Pos(home, u, n)] == s[Pos(home, u, n)]
      {
        // every slot up to the live `k'` is full, while `p` held `null`
        if u < d {
          assert !Stops(s[Pos(home, u, n)], k', ForGet);
        } else {
          assert Pos(home, u, n) == q;
        }
        assert s[Pos(home, u, n)].Full?;
      }
      DistIs(s', k', ForGet, home, d);
    } else if Lookup(s', hash, k').Some? {
      LookupSound(s', hash, k');
      var q := ExitSlot(s', hash, k', ForGet);
      assert q != p;
      // the live `k'` at `q` was already in `s`, so `get` in `s` finds some live `k'`
      LookupComplete(s, hash, q);
    }
  }

  lemma NeverStops<K, V>(s: seq<Slot<K, V>>, k: K, start: nat)
    requires start < |s|
    requires forall u | 0 <= u < |s| :: !Stops(s[Pos(start, u, |s|)], k, ForGet)
    ensures Dist(s, k, ForGet, start, 0) == |s|
  {
  }

  /** `put` keeps every chain intact. */
  lemma PutKeepsChains<K, V>(s: seq<Slot<K, V>>, hash: K -> int, k: K, v: V)
    requires Terminates(s, hash, k, ForPut) && ChainsIntact(s, hash)
    ensures ChainsIntact(PutSlots(s, hash, k, v), hash)
  {
    var s' := PutSlots(s, hash, k, v);
    var n := |s|;
    var p := ExitSlot(s, hash, k, ForPut);
    var home := Home(hash, k, n);
    var d := ProbeEnd(s, hash, k, ForPut);
    forall j, t | 0 <= j < n && s'[j].Full? && 0 <= t < Offset(Home(hash, s'[j].key, n), j, n)
      ensures s'[Pos(Home(hash, s'[j].key, n), t, n)].Full?
    {
      if j == p {
        OffsetOfPos(home, d, n);
        assert !Stops(s[Pos(home, t, n)], k, ForPut);
      } else {
        assert s[j].Full? && s'[j].key == s[j].key;
      }
    }
  }

  /** `remove` keeps every chain intact: it only sets a `deleted` flag. */
  lemma RemoveKeepsChains<K, V>(s: seq<Slot<K, V>>, hash: K -> int, k: K)
    requires Terminates(s, hash, k, ForGet) && ChainsIntact(s, hash)
    ensures ChainsIntact(RemoveSlots(s, hash, k), hash)
  {
    var s' := RemoveSlots(s, hash, k);
    forall j, t | 0 <= j < |s| && s'[j].Full? && 0 <= t < Offset(Home(hash, s'[j].key, |s|), j, |s|)
      ensures s'[Pos(Home(hash, s'[j].key, |s|), t, |s|)].Full?
    {
      assert s[j].Full? && s'[j].key == s[j].key;
    }
  }

  /** After `remove(k)` with unique live keys, `get(k)` returns `null`. */
  lemma LookupAfterRemove<K, V>(s: seq<Slot<K, V>>, hash: K -> int, k: K)
    requires Terminates(s, hash, k, ForGet) && UniqueLive(s)
    ensures Lookup(RemoveSlots(s, hash, k), hash, k) == None
  {
    var s' := RemoveSlots(s, hash, k);
    var p := ExitSlot(s, hash, k, ForGet);
    if s[p].Full? {
      forall j
        ensures !LiveAt(s', j, k)
      {
        if 0 <= j < |s| && j != p {
          assert s'[j] == s[j];
        }
      }
      LookupAbsent(s', hash, k);
    }
  }

  /** `remove(k)` leaves every other key's lookup as it was (no invariant needed). */
  lemma LookupOtherAfterRemove<K, V>(s: seq<Slot<K, V>>, hash: K -> int, k: K, k': K)
    requires Terminates(s, hash, k, ForGet) && k' != k
    ensures Lookup(RemoveSlots(s, hash, k), hash, k') == Lookup(s, hash, k')
  {
    var s' := RemoveSlots(s, hash, k);
    var n := |s|;
    var home := Home(hash, k', n);
    forall u | 0 <= u < n
      ensures Stops(s'[Pos(home, u, n)], k', ForGet) == Stops(s[Pos(home, u, n)], k', ForGet)
    {
    }
    var d := ProbeEnd(s, hash, k', ForGet);
    if d < n {
      DistIs(s', k', ForGet, home, d);
    } else {
      NeverStops(s', k', home);
    }
  }

  /** `remove` keeps live keys unique. */
  lemma RemoveKeepsUnique<K, V>(s: seq<Slot<K, V>>, hash: K -> int, k: K)
    requires Terminates(s, hash, k, ForGet) && UniqueLive(s)
    ensures UniqueLive(RemoveSlots(s, hash, k))
  {
    var s' := RemoveSlots(s, hash, k);
    assert forall i | 0 <= i < |s| && s'[i].IsLive() :: s[i] == s'[i];
  }

  /** A `put` guarded by `get(k) == null` (as every insertion in the manager is)
      writes into `null` or a tombstone and keeps live keys unique. */
  lemma GuardedPutKeepsUnique<K, V>(s: seq<Slot<K, V>>, hash: K -> int, k: K, v: V)
    requires Terminates(s, hash, k, ForPut) && ChainsIntact(s, hash) && UniqueLive(s)
    requires Lookup(s, hash, k) == None
    ensures PutInserts(s, hash, k)
    ensures UniqueLive(PutSlots(s, hash, k, v))
  {
    var s' := PutSlots(s, hash, k, v);
    var p := ExitSlot(s, hash, k, ForPut);
    forall j | 0 <= j < |s| && s[j].IsLive()
      ensures s[j].key != k
    {
      LookupComplete(s, hash, j);
    }
    forall i, j | 0 <= i < |s| && 0 <= j < |s| && i != j && s'[i].IsLive() && s'[j].IsLive()
      ensures s'[i].key != s'[j].key
    {
      if i != p && j != p {
        assert s'[i] == s[i] && s'[j] == s[j];
      }
    }
  }

  /** The live count follows `put` and `remove`: one more for an insertion, one less
      for a removal that found its key. */
  lemma LiveCountAfterPut<K, V>(s: seq<Slot<K, V>>, hash: K -> int, k: K, v: V)
    requires Terminates(s, hash, k, ForPut)
    ensures LiveCount(PutSlots(s, hash, k, v)) == LiveCount(s) + (if PutInserts(s, hash, k) then 1 else 0)
  {
    LiveCountUpdate(s, ExitSlot(s, hash, k, ForPut), Full(k, v, false));
  }

  lemma LiveCountAfterRemove<K, V>(s: seq<Slot<K, V>>, hash: K -> int, k: K)
    requires Terminates(s, hash, k, ForGet)
    ensures RemoveFinds(s, hash, k) ==> LiveCount(s) > 0
    ensures LiveCount(RemoveSlots(s, hash, k)) == LiveCount(s) - (if RemoveFinds(s, hash, k) then 1 else 0)
  {
    var p := ExitSlot(s, hash, k, ForGet);
    if s[p].Full? {
      LiveCountUpdate(s, p, s[p].(deleted := true));
    }
  }

  /** The abstract map after a guarded `put` and after `remove`. */
  lemma MappingAfterGuardedPut<K, V>(s: seq<Slot<K, V>>, hash: K -> int, k: K, v: V)
    requires Terminates(s, hash, k, ForPut) && ChainsIntact(s, hash) && UniqueLive(s)
    requires Lookup(s, hash, k) == None
    ensures UniqueLive(PutSlots(s, hash, k, v))
    ensures Mapping(PutSlots(s, hash, k, v)) == Mapping(s)[k := v]
  {
    GuardedPutKeepsUnique(s, hash, k, v);
    LookupIsMapping(s, hash, k);
    var s' := PutSlots(s, hash, k, v);
    var p := ExitSlot(s, hash, k, ForPut);
    var m, m' := Mapping(s), Mapping(s');
    assert s'[p].IsLive() && s'[p].key == k;
    forall x | x in m
      ensures x in m' && m'[x] == m[x]
    {
      var j :| LiveAt(s, j, x);
      assert j != p && s'[j] == s[j];
    }
    forall x | x in m'
      ensures x == k || x in m
    {
      var j :| LiveAt(s', j, x);
      if j != p {
        assert LiveAt(s, j, x);
      }
    }
    assert m'.Keys == m.Keys + {k};
  }

  lemma MappingAfterRemove<K, V>(s: seq<Slot<K, V>>, hash: K -> int, k: K)
    requires Terminates(s, hash, k, ForGet) && ChainsIntact(s, hash) && UniqueLive(s)
    ensures UniqueLive(RemoveSlots(s, hash, k))
    ensures Mapping(RemoveSlots(s, hash, k)) == Mapping(s) - {k}
  {
    RemoveKeepsUnique(s, hash, k);
    var s' := RemoveSlots(s, hash, k);
    var p := ExitSlot(s, hash, k, ForGet);
    var m, m' := Mapping(s), Mapping(s');
    if s[p].Full? {
      forall x | x in m'
        ensures x in m && x != k && m'[x] == m[x]
      {
        var j :| LiveAt(s', j, x);
        assert j != p && s'[j] == s[j];
      }
      forall x | x in m && x != k
        ensures x in m'
      {
        var j :| LiveAt(s, j, x);
        assert LiveAt(s', j, x);
      }
      assert m'.Keys == m.Keys - {k};
    } else {
      LookupIsMapping(s, hash, k);
    }
  }

  /** The source's `put` stops at the first tombstone, so a key that is live further
      along the probe path gets a second live entry; a later `remove` then takes out
      only the first one and `get` returns the stale value again. Three slots, all keys
      hashing to slot 0: a tombstone for 1, then key 2 live. */
  lemma PutAfterTombstoneDuplicates()
    ensures var hash := (x: int) => 0;
      var s: seq<Slot<int, int>> := [Full(1, 10, true), Full(2, 20, false), Empty];
      && ChainsIntact(s, hash) && UniqueLive(s) && Lookup(s, hash, 2) == Some(20)
      && Terminates(s, hash, 2, ForPut)
      && var s' := PutSlots(s, hash, 2, 30);
      && !UniqueLive(s')
      && Lookup(s', hash, 2) == Some(30)
      && Terminates(s', hash, 2, ForGet)
      && Lookup(RemoveSlots(s', hash, 2), hash, 2) == Some(20)
  {
    var hash := (x: int) => 0;
    var s: seq<Slot<int, int>> := [Full(1, 10, true), Full(2, 20, false), Empty];
    assert Home(hash, 2, 3) == 0;
    assert Stops(s[Pos(0, 1, 3)], 2, ForGet);
    assert ProbeEnd(s, hash, 2, ForGet) == 1;
    assert ProbeEnd(s, hash, 2, ForPut) == 0;
    var s' := PutSlots(s, hash, 2, 30);
    assert s' == [Full(2, 30, false), Full(2, 20, false), Empty];
    assert ProbeEnd(s', hash, 2, ForGet) == 0;
    var s'' := RemoveSlots(s', hash, 2);
    assert s'' == [Full(2, 30, true), Full(2, 20, false), Empty];
    assert !Stops(s''[Pos(0, 0, 3)], 2, ForGet);
    assert ProbeEnd(s'', hash, 2, ForGet) == 1;
  }
}
