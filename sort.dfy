/** The in-place sorts of elections/structures/Sort.java. Each works on a `MyArray`
    through its bounds-checked `Get`/`Set`, so the array's length never changes, and
    each only reads the elements' fields.

    The proofs follow one pattern: the sort key of every element (a vote count, a
    name, a year) is read once into a ghost sequence kept position by position in
    step with the array, the ordering argument is made on that sequence of plain
    values, and the result is carried back to the objects at the end. */
module Sorting {
  import opened Wrappers
  import opened MyArrays
  import opened Text
  import opened Model

  // ---------------------------------------------------------------------------
  // Sort keys
  // ---------------------------------------------------------------------------

  function VotesOf(s: seq<CandidateEntry>): (r: seq<int>)
    reads s
    ensures |r| == |s| && forall k | 0 <= k < |s| :: r[k] == s[k].votes
  {
    if s == [] then [] else VotesOf(s[..|s| - 1]) + [s[|s| - 1].votes]
  }

  function NamesOf(s: seq<Politician>): (r: seq<string>)
    reads s
    ensures |r| == |s| && forall k | 0 <= k < |s| :: r[k] == s[k].name
  {
    if s == [] then [] else NamesOf(s[..|s| - 1]) + [s[|s| - 1].name]
  }

  function YearsOf(s: seq<Election>): (r: seq<int>)
    reads s
    ensures |r| == |s| && forall k | 0 <= k < |s| :: r[k] == s[k].year
  {
    if s == [] then [] else YearsOf(s[..|s| - 1]) + [s[|s| - 1].year]
  }

  /** `c` holds objects outside `repr` whose vote counts are `t`, position by position. */
  ghost predicate VotesAre(c: seq<CandidateEntry>, t: seq<int>, repr: set<object>)
    reads c
  {
    |c| == |t| && forall k | 0 <= k < |c| :: c[k] !in repr && c[k].votes == t[k]
  }

  ghost predicate NamesAre(c: seq<Politician>, t: seq<string>, repr: set<object>)
    reads c
  {
    |c| == |t| && forall k | 0 <= k < |c| :: c[k] !in repr && c[k].name == t[k]
  }

  ghost predicate YearsAre(c: seq<Election>, t: seq<int>, repr: set<object>)
    reads c
  {
    |c| == |t| && forall k | 0 <= k < |c| :: c[k] !in repr && c[k].year == t[k]
  }

  // ---------------------------------------------------------------------------
  // Orders
  // ---------------------------------------------------------------------------

  predicate IntsDescending(t: seq<int>) {
    forall i, j | 0 <= i < j < |t| :: t[i] >= t[j]
  }

  predicate IntsAscending(t: seq<int>) {
    forall i, j | 0 <= i < j < |t| :: t[i] <= t[j]
  }

  /** The names at `i` and `j` are in case-insensitive order. */
  predicate NameOrdered(t: seq<string>, i: int, j: int)
    requires 0 <= i < |t| && 0 <= j < |t|
  {
    NameLe(t[i], t[j])
  }

  /** The name at `k` sorts strictly after the name at `e`. */
  predicate NameAbove(t: seq<string>, k: int, e: int)
    requires 0 <= k < |t| && 0 <= e < |t|
  {
    CompareIgnoreCase(t[k], t[e]) > 0
  }

  predicate StringsAscending(t: seq<string>) {
    forall i, j | 0 <= i < j < |t| :: NameOrdered(t, i, j)
  }

  /** Most votes first. */
  predicate VotesDescending(s: seq<CandidateEntry>)
    reads s
  {
    IntsDescending(VotesOf(s))
  }

  /** Case-insensitive A to Z by name. */
  predicate NamesAscending(s: seq<Politician>)
    reads s
  {
    StringsAscending(NamesOf(s))
  }

  /** Earliest year first. */
  predicate YearsAscending(s: seq<Election>)
    reads s
  {
    IntsAscending(YearsOf(s))
  }

  /** Latest year first. */
  predicate YearsDescending(s: seq<Election>)
    reads s
  {
    IntsDescending(YearsOf(s))
  }

  lemma VotesAreOf(c: seq<CandidateEntry>, t: seq<int>, repr: set<object>)
    requires VotesAre(c, t, repr)
    ensures VotesOf(c) == t
  {
  }

  lemma NamesAreOf(c: seq<Politician>, t: seq<string>, repr: set<object>)
    requires NamesAre(c, t, repr)
    ensures NamesOf(c) == t
  {
  }

  lemma YearsAreOf(c: seq<Election>, t: seq<int>, repr: set<object>)
    requires YearsAre(c, t, repr)
    ensures YearsOf(c) == t
  {
  }

  // ---------------------------------------------------------------------------
  // Sequence facts behind the permutation proofs
  // ---------------------------------------------------------------------------

  function Swapped<T>(s: seq<T>, i: nat, j: nat): (r: seq<T>)
    requires i < |s| && j < |s|
    ensures |r| == |s| && r[i] == s[j] && r[j] == s[i]
    ensures forall k | 0 <= k < |s| && k != i && k != j :: r[k] == s[k]
  {
    s[i := s[j]][j := s[i]]
  }

  lemma SwapPermutes<T>(s: seq<T>, i: nat, j: nat)
    requires i < |s| && j < |s|
    ensures multiset(Swapped(s, i, j)) == multiset(s)
  {
  }

  /** The array during an insertion pass that started from `s` and has shifted
      `s[i..e]` one place right: position `i` still holds its old element. */
  function Shifted<T>(s: seq<T>, i: nat, e: nat): (r: seq<T>)
    requires i <= e < |s|
    ensures |r| == |s|
    ensures forall k | 0 <= k <= i :: r[k] == s[k]
    ensures forall k | i < k <= e :: r[k] == s[k - 1]
    ensures forall k | e < k < |s| :: r[k] == s[k]
  {
    s[..i + 1] + s[i..e] + s[e + 1..]
  }

  lemma ShiftedStart<T>(s: seq<T>, e: nat)
    requires e < |s|
    ensures Shifted(s, e, e) == s
  {
  }

  lemma ShiftedStep<T>(s: seq<T>, i: nat, e: nat)
    requires 0 < i <= e < |s|
    ensures Shifted(s, i, e)[i := s[i - 1]] == Shifted(s, i - 1, e)
  {
  }

  /** Dropping the pass's element into the hole at `i` permutes the array, and
      changes nothing when the hole is where the element came from. */
  lemma InsertPermutes<T>(s: seq<T>, i: nat, e: nat)
    requires i <= e < |s|
    ensures multiset(Shifted(s, i, e)[i := s[e]]) == multiset(s)
    ensures i == e ==> Shifted(s, i, e)[i := s[e]] == s
  {
    InsertMultiset(s, i, e);
    if i == e {
      ShiftedStart(s, e);
    }
  }

  lemma InsertMultiset<T>(s: seq<T>, i: nat, e: nat)
    requires i <= e < |s|
    ensures multiset(Shifted(s, i, e)[i := s[e]]) == multiset(s)
  {
    var r := Shifted(s, i, e)[i := s[e]];
    InsertLayout(s, i, e);
    assert s == s[..i] + s[i..e] + [s[e]] + s[e + 1..];
    assert multiset(r) == multiset(s[..i]) + multiset([s[e]]) + multiset(s[i..e]) + multiset(s[e + 1..]);
  }

  lemma InsertLayout<T>(s: seq<T>, i: nat, e: nat)
    requires i <= e < |s|
    ensures Shifted(s, i, e)[i := s[e]] == s[..i] + [s[e]] + s[i..e] + s[e + 1..]
  {
    var r := Shifted(s, i, e)[i := s[e]];
    var q := s[..i] + [s[e]] + s[i..e] + s[e + 1..];
    assert |r| == |q|;
    forall k | 0 <= k < |r|
      ensures r[k] == q[k]
    {
      if k < i {
      } else if k == i {
      } else if k <= e {
        assert q[k] == s[i..e][k - i - 1];
      } else {
        assert q[k] == s[e + 1..][k - e - 1];
      }
    }
  }

  // ---------------------------------------------------------------------------
  // Stability
  // ---------------------------------------------------------------------------

  /** The elements of `s` whose key in `t` (position by position) is `k`, in their
      order in `s`. A sort is stable when this is the same before and after it for
      every key. */
  function Keep<T, K(==)>(s: seq<T>, t: seq<K>, k: K): (r: seq<T>)
    requires |s| == |t|
    ensures |r| <= |s|
  {
    if s == [] then []
    else Keep(s[..|s| - 1], t[..|t| - 1], k) + (if t[|t| - 1] == k then [s[|s| - 1]] else [])
  }

  lemma {:induction false} KeepAppend<T, K>(s1: seq<T>, t1: seq<K>, s2: seq<T>, t2: seq<K>, k: K)
    requires |s1| == |t1| && |s2| == |t2|
    ensures Keep(s1 + s2, t1 + t2, k) == Keep(s1, t1, k) + Keep(s2, t2, k)
    decreases |s2|
  {
    if s2 == [] {
      assert s1 + s2 == s1 && t1 + t2 == t1;
    } else {
      var s2' := s2[..|s2| - 1];
      var t2' := t2[..|t2| - 1];
      assert (s1 + s2)[..|s1 + s2| - 1] == s1 + s2';
      assert (t1 + t2)[..|t1 + t2| - 1] == t1 + t2';
      KeepAppend(s1, t1, s2', t2', k);
    }
  }

  lemma {:induction false} KeepNone<T, K>(s: seq<T>, t: seq<K>, k: K)
    requires |s| == |t| && forall j | 0 <= j < |t| :: t[j] != k
    ensures Keep(s, t, k) == []
  {
    if s != [] {
      KeepNone(s[..|s| - 1], t[..|t| - 1], k);
    }
  }

  lemma KeepConcat4<T, K>(s1: seq<T>, t1: seq<K>, s2: seq<T>, t2: seq<K>,
                          s3: seq<T>, t3: seq<K>, s4: seq<T>, t4: seq<K>, k: K)
    requires |s1| == |t1| && |s2| == |t2| && |s3| == |t3| && |s4| == |t4|
    ensures Keep(s1 + s2 + s3 + s4, t1 + t2 + t3 + t4, k)
         == Keep(s1, t1, k) + Keep(s2, t2, k) + Keep(s3, t3, k) + Keep(s4, t4, k)
  {
    KeepAppend(s1 + s2 + s3, t1 + t2 + t3, s4, t4, k);
    KeepAppend(s1 + s2, t1 + t2, s3, t3, k);
    KeepAppend(s1, t1, s2, t2, k);
  }

  /** Moving `x` from after `moved` to before it changes no key's subsequence when
      no element of `moved` has the key of `x`. */
  lemma KeepPastOthers<T, K>(before: seq<T>, beforeKeys: seq<K>, moved: seq<T>, movedKeys: seq<K>,
                             x: T, xKey: K, after: seq<T>, afterKeys: seq<K>, k: K)
    requires |before| == |beforeKeys| && |moved| == |movedKeys| && |after| == |afterKeys|
    requires forall j | 0 <= j < |movedKeys| :: movedKeys[j] != xKey
    ensures Keep(before + [x] + moved + after, beforeKeys + [xKey] + movedKeys + afterKeys, k)
         == Keep(before + moved + [x] + after, beforeKeys + movedKeys + [xKey] + afterKeys, k)
  {
    KeepConcat4(before, beforeKeys, [x], [xKey], moved, movedKeys, after, afterKeys, k);
    KeepConcat4(before, beforeKeys, moved, movedKeys, [x], [xKey], after, afterKeys, k);
    KeepOne(x, xKey, k);
    if xKey == k {
      KeepNone(moved, movedKeys, k);
    }
    SwapAroundEmpty(Keep(before, beforeKeys, k), Keep([x], [xKey], k), Keep(moved, movedKeys, k), Keep(after, afterKeys, k));
  }

  lemma SwapAroundEmpty<T>(a: seq<T>, b: seq<T>, c: seq<T>, d: seq<T>)
    requires b == [] || c == []
    ensures a + b + c + d == a + c + b + d
  {
    if b == [] {
      assert a + b == a && a + c + b == a + c;
    } else {
      assert a + c == a && a + b + c == a + b;
    }
  }

  lemma KeepOne<T, K>(x: T, xKey: K, k: K)
    ensures Keep([x], [xKey], k) == if xKey == k then [x] else []
  {
    assert [x][..0] == [] && [xKey][..0] == [];
  }

  /** An insertion pass moves `s[e]` left past `s[i..e]`. When none of those has the
      key of `s[e]`, every key keeps its subsequence. */
  lemma InsertKeeps<T, K>(s: seq<T>, t: seq<K>, i: nat, e: nat, k: K)
    requires |s| == |t| && i <= e < |s|
    requires forall j | i <= j < e :: t[j] != t[e]
    ensures Keep(Shifted(s, i, e)[i := s[e]], Shifted(t, i, e)[i := t[e]], k) == Keep(s, t, k)
  {
    InsertLayout(s, i, e);
    InsertLayout(t, i, e);
    assert s == s[..i] + s[i..e] + [s[e]] + s[e + 1..];
    assert t == t[..i] + t[i..e] + [t[e]] + t[e + 1..];
    assert forall j | 0 <= j < |t[i..e]| :: t[i..e][j] == t[i + j];
    KeepPastOthers(s[..i], t[..i], s[i..e], t[i..e], s[e], t[e], s[e + 1..], t[e + 1..], k);
  }

  /** The names folded to lower case: the key under which the name sort compares. */
  function Folds(t: seq<string>): (r: seq<string>)
    ensures |r| == |t| && forall j | 0 <= j < |t| :: r[j] == LowerStr(t[j])
  {
    seq(|t|, j requires 0 <= j < |t| => LowerStr(t[j]))
  }

  lemma FoldsInsert(t: seq<string>, i: nat, e: nat)
    requires i <= e < |t|
    ensures Folds(Shifted(t, i, e)[i := t[e]]) == Shifted(Folds(t), i, e)[i := Folds(t)[e]]
  {
    var r := Shifted(t, i, e)[i := t[e]];
    var q := Shifted(Folds(t), i, e)[i := Folds(t)[e]];
    var f := Folds(t);
    assert |Folds(r)| == |q|;
    forall j | 0 <= j < |r|
      ensures Folds(r)[j] == q[j]
    {
      if j == i {
        assert r[j] == t[e] && q[j] == f[e];
      } else if j < i || e < j {
        assert r[j] == t[j] && q[j] == f[j];
      } else {
        assert r[j] == t[j - 1] && q[j] == f[j - 1];
      }
    }
  }

  /** The politicians of `s` whose names equal `k` ignoring case, in their order in `s`. */
  ghost function NamedAs(s: seq<Politician>, k: string): seq<Politician>
    reads s
  {
    Keep(s, Folds(NamesOf(s)), k)
  }

  /** The elections of `s` held in year `y`, in their order in `s`. */
  ghost function HeldIn(s: seq<Election>, y: int): seq<Election>
    reads s
  {
    Keep(s, YearsOf(s), y)
  }

  // ---------------------------------------------------------------------------
  // Selection sort, votes descending
  // ---------------------------------------------------------------------------

  /** The state a selection pass keeps: the first `sp` counts are in order and none
      of them is below a count after them. */
  predicate SelectedPrefix(t: seq<int>, sp: int) {
    && (forall i, j | 0 <= i < j < sp && j < |t| :: t[i] >= t[j])
    && (forall i, j | 0 <= i < sp <= j < |t| :: t[i] >= t[j])
  }

  /** Swapping a maximum of `t[sp..]` into `sp` extends the selected prefix by one. */
  lemma SelectionStep(t: seq<int>, sp: nat, h: nat)
    requires SelectedPrefix(t, sp) && sp <= h < |t|
    requires forall k | sp <= k < |t| :: t[k] <= t[h]
    ensures SelectedPrefix(Swapped(t, sp, h), sp + 1)
  {
    var r := Swapped(t, sp, h);
    forall i, j | 0 <= i < sp + 1 <= j < |t|
      ensures r[i] >= r[j]
    {
      if i < sp {
        assert r[i] == t[i];
        assert r[j] == t[j] || r[j] == t[sp];
      }
    }
  }

  /** Once at most one count is left outside the prefix the counts are sorted. */
  lemma SelectedAll(t: seq<int>, sp: nat)
    requires SelectedPrefix(t, sp) && |t| <= sp + 1
    ensures IntsDescending(t)
  {
    forall i, j | 0 <= i < j < |t|
      ensures t[i] >= t[j]
    {
      if j >= sp {
        assert i < sp;
      }
    }
  }

  /** Each pass selects the first maximum of the unsorted suffix and swaps it into
      the next sorted position. */
  method SortCandidatesByVotesDesc(a: MyArray<CandidateEntry>)
    requires a.Valid()
    modifies a.Repr
    ensures a.Valid() && a.Repr == old(a.Repr)
    ensures VotesDescending(a.Contents)
    ensures multiset(a.Contents) == multiset(old(a.Contents))
  {
    ghost var n := |a.Contents|;
    ghost var t := VotesOf(a.Contents);
    var sp := 0;
    while sp < a.Size() - 1
      invariant a.Valid() && a.Repr == old(a.Repr) && |a.Contents| == n
      invariant VotesAre(a.Contents, t, a.Repr)
      invariant 0 <= sp <= n || (n == 0 && sp == 0)
      invariant multiset(a.Contents) == multiset(old(a.Contents))
      invariant SelectedPrefix(t, sp)
    {
      t := SelectionPass(a, sp, t);
      sp := sp + 1;
    }
    SelectedAll(t, sp);
    VotesAreOf(a.Contents, t, a.Repr);
  }

  /** One pass of the selection sort: the first maximum of `[sp, size)` is swapped
      into `sp` unless it is already there. */
  method SelectionPass(a: MyArray<CandidateEntry>, sp: nat, ghost t: seq<int>) returns (ghost t': seq<int>)
    requires a.Valid() && VotesAre(a.Contents, t, a.Repr) && sp < |a.Contents|
    requires SelectedPrefix(t, sp)
    modifies a.Repr
    ensures a.Valid() && a.Repr == old(a.Repr) && |a.Contents| == old(|a.Contents|)
    ensures VotesAre(a.Contents, t', a.Repr)
    ensures multiset(a.Contents) == multiset(old(a.Contents))
    ensures SelectedPrefix(t', sp + 1)
  {
    var highestIndex := FindHighest(a, sp, t);
    SelectionStep(t, sp, highestIndex);
    if highestIndex != sp {
      SwapPermutes(a.Contents, sp, highestIndex);
      SwapEntries(a, sp, highestIndex, t);
      t' := Swapped(t, sp, highestIndex);
    } else {
      assert Swapped(t, sp, highestIndex) == t;
      t' := t;
    }
  }

  /** The inner loop of a selection pass: the index of the first maximal count at
      or after `sp`. */
  method FindHighest(a: MyArray<CandidateEntry>, sp: int, ghost t: seq<int>) returns (highestIndex: nat)
    requires a.Valid() && VotesAre(a.Contents, t, a.Repr) && 0 <= sp < |a.Contents|
    ensures sp <= highestIndex < |t|
    ensures forall k | sp <= k < |t| :: t[k] <= t[highestIndex]
    ensures forall k | sp <= k < highestIndex :: t[k] < t[highestIndex]
  {
    highestIndex := sp;
    var i := sp + 1;
    while i < a.Size()
      invariant sp < i <= |t| && sp <= highestIndex < i
      invariant forall k | sp <= k < i :: t[k] <= t[highestIndex]
      invariant forall k | sp <= k < highestIndex :: t[k] < t[highestIndex]
    {
      var candidate := a.Get(i);
      var highest := a.Get(highestIndex);
      if candidate.value.votes > highest.value.votes {
        highestIndex := i;
      }
      i := i + 1;
    }
  }

  /** The swap at the end of a selection pass, through `get` and `set`. */
  method SwapEntries(a: MyArray<CandidateEntry>, i: nat, j: nat, ghost t: seq<int>)
    requires a.Valid() && VotesAre(a.Contents, t, a.Repr) && i < |t| && j < |t|
    modifies a.Repr
    ensures a.Valid() && a.Repr == old(a.Repr)
    ensures a.Contents == Swapped(old(a.Contents), i, j)
    ensures VotesAre(a.Contents, Swapped(t, i, j), a.Repr)
  {
    var swap := a.Get(i);
    var highest := a.Get(j);
    var _ := a.Set(i, highest.value);
    var _ := a.Set(j, swap.value);
  }

  /** One step of an insertion pass's shifting loop: the element left of the hole
      moves into it. */
  method ShiftOne<T>(a: MyArray<T>, i: nat, e: nat, ghost s: seq<T>)
    requires a.Valid() && 0 < i <= e < |s| && a.Contents == Shifted(s, i, e)
    modifies a.Repr
    ensures a.Valid() && a.Repr == old(a.Repr) && a.Contents == Shifted(s, i - 1, e)
  {
    var prev := a.Get(i - 1);
    ShiftedStep(s, i, e);
    var _ := a.Set(i, prev.value);
  }

  // ---------------------------------------------------------------------------
  // Insertion sort by name
  // ---------------------------------------------------------------------------

  /** Case-insensitive A to Z. Pass `e` inserts the element at `e` into the sorted
      prefix `[0, e)`. An array already in order is left as it is. */
  method SortPoliticiansByName(a: MyArray<Politician>)
    requires a.Valid()
    modifies a.Repr
    ensures a.Valid() && a.Repr == old(a.Repr)
    ensures NamesAscending(a.Contents)
    ensures multiset(a.Contents) == multiset(old(a.Contents))
    ensures NamesAscending(old(a.Contents)) ==> a.Contents == old(a.Contents)
    ensures forall k :: NamedAs(a.Contents, k) == old(NamedAs(a.Contents, k))
  {
    ghost var n := |a.Contents|;
    ghost var names := NamesOf(a.Contents);
    ghost var t := names;
    var e := 1;
    while e < a.Size()
      invariant a.Valid() && a.Repr == old(a.Repr) && |a.Contents| == n
      invariant NamesAre(a.Contents, t, a.Repr)
      invariant 1 <= e && (n == 0 || e <= n)
      invariant multiset(a.Contents) == multiset(old(a.Contents))
      invariant e <= n ==> StringsAscending(t[..e])
      invariant StringsAscending(names) ==> a.Contents == old(a.Contents) && t == names
      invariant forall k :: Keep(a.Contents, Folds(t), k) == Keep(old(a.Contents), Folds(names), k)
    {
      t := InsertByName(a, e, t);
      e := e + 1;
    }
    if n > 0 {
      assert t[..e] == t;
    }
    NamesAreOf(a.Contents, t, a.Repr);
  }

  /** One pass of the name sort: shift the names of `[0, e)` that compare greater
      than the element taken from `e` one place right and drop it into the hole. */
  method InsertByName(a: MyArray<Politician>, e: nat, ghost t: seq<string>) returns (ghost t': seq<string>)
    requires a.Valid() && 1 <= e < |a.Contents| && NamesAre(a.Contents, t, a.Repr)
    requires StringsAscending(t[..e])
    modifies a.Repr
    ensures a.Valid() && a.Repr == old(a.Repr) && NamesAre(a.Contents, t', a.Repr)
    ensures |a.Contents| == old(|a.Contents|)
    ensures StringsAscending(t'[..e + 1])
    ensures multiset(a.Contents) == multiset(old(a.Contents))
    ensures NameOrdered(t, e - 1, e) ==> a.Contents == old(a.Contents) && t' == t
    ensures forall k :: Keep(a.Contents, Folds(t'), k) == Keep(old(a.Contents), Folds(t), k)
  {
    ghost var s := a.Contents;
    var got := a.Get(e);
    var elem := got.value;
    var i := ShiftGreaterNames(a, e, s, t);
    StringInsertion(t, i, e);
    InsertPermutes(s, i, e);
    InsertPermutes(t, i, e);
    var _ := a.Set(i, elem);
    ShiftedNames(s, t, i, e, a.Repr);
    t' := Shifted(t, i, e)[i := t[e]];
    NamePassKeeps(s, t, i, e);
  }

  /** A name pass is stable: the names it moves past compare greater, so none of
      them equals the inserted name ignoring case. */
  lemma NamePassKeeps(s: seq<Politician>, t: seq<string>, i: nat, e: nat)
    requires |s| == |t| && i <= e < |s| && AllAbove(t, i, e)
    ensures forall k :: Keep(Shifted(s, i, e)[i := s[e]], Folds(Shifted(t, i, e)[i := t[e]]), k) == Keep(s, Folds(t), k)
  {
    FoldsInsert(t, i, e);
    forall j | i <= j < e
      ensures Folds(t)[j] != Folds(t)[e]
    {
      assert NameAbove(t, j, e);
      CompareZeroIff(t[j], t[e]);
    }
    forall k
      ensures Keep(Shifted(s, i, e)[i := s[e]], Folds(Shifted(t, i, e)[i := t[e]]), k) == Keep(s, Folds(t), k)
    {
      InsertKeeps(s, Folds(t), i, e, k);
    }
  }

  /** The shifting loop of a name pass: moves right, one place each, the names
      before `e` that compare greater than the name at `e`, stopping at the first
      one that does not, and returns the hole it leaves. */
  method ShiftGreaterNames(a: MyArray<Politician>, e: nat, ghost s: seq<Politician>, ghost t: seq<string>)
      returns (i: nat)
    requires a.Valid() && 1 <= e < |a.Contents| && a.Contents == s && NamesAre(s, t, a.Repr)
    modifies a.Repr
    ensures a.Valid() && a.Repr == old(a.Repr) && NamesAre(s, t, a.Repr)
    ensures i <= e && a.Contents == Shifted(s, i, e)
    ensures i < e ==> NameAbove(t, e - 1, e)
    ensures AllAbove(t, i, e)
    ensures i > 0 ==> !NameAbove(t, i - 1, e)
  {
    var got := a.Get(e);
    var elem := got.value;
    i := e;
    ShiftedStart(s, e);
    while i >= 1
      invariant a.Valid() && a.Repr == old(a.Repr) && NamesAre(s, t, a.Repr)
      invariant 0 <= i <= e && a.Contents == Shifted(s, i, e)
      invariant AllAbove(t, i, e)
    {
      var prev := a.Get(i - 1);
      assert prev.value.name == t[i - 1] && elem.name == t[e];
      if CompareIgnoreCase(prev.value.name, elem.name) <= 0 {
        return;
      }
      AllAboveStep(t, i, e);
      ShiftOne(a, i, e, s);
      i := i - 1;
    }
  }

  predicate AllAbove(t: seq<string>, i: int, e: int)
    requires 0 <= i <= e < |t|
  {
    forall k | i <= k < e :: NameAbove(t, k, e)
  }

  lemma AllAboveStep(t: seq<string>, i: int, e: int)
    requires 0 < i <= e < |t| && AllAbove(t, i, e) && NameAbove(t, i - 1, e)
    ensures AllAbove(t, i - 1, e)
  {
  }

  lemma ShiftedNames(s: seq<Politician>, t: seq<string>, i: nat, e: nat, repr: set<object>)
    requires i <= e < |s| && NamesAre(s, t, repr)
    ensures NamesAre(Shifted(s, i, e)[i := s[e]], Shifted(t, i, e)[i := t[e]], repr)
  {
  }

  /** One insertion pass on a sequence of names: the prefix `[0, e]` ends up in order
      when the hole `i` sits right after the last name not above `t[e]`. */
  lemma StringInsertion(t: seq<string>, i: nat, e: nat)
    requires i <= e < |t| && StringsAscending(t[..e])
    requires AllAbove(t, i, e)
    requires i > 0 ==> !NameAbove(t, i - 1, e)
    ensures StringsAscending(Shifted(t, i, e)[i := t[e]][..e + 1])
  {
    var r := Shifted(t, i, e)[i := t[e]][..e + 1];
    forall p, q | 0 <= p < q < |r|
      ensures NameOrdered(r, p, q)
    {
      assert forall x | 0 <= x < e :: t[..e][x] == t[x];
      if p == i {
        assert NameAbove(t, q - 1, e);
        CompareAntisymmetric(t[q - 1], t[e]);
      } else if q == i {
        if p < i - 1 {
          assert NameOrdered(t[..e], p, i - 1);
          NameLeTransitive(t[p], t[i - 1], t[e]);
        }
      } else if p < i && i < q {
        assert NameOrdered(t[..e], p, q - 1);
      } else if p < q && q < i {
        assert NameOrdered(t[..e], p, q);
      } else {
        assert NameOrdered(t[..e], p - 1, q - 1);
      }
    }
  }

  // ---------------------------------------------------------------------------
  // Insertion sorts by year
  // ---------------------------------------------------------------------------

  /** Earliest year first; an array already in order is left as it is. */
  method SortElectionsByYearAsc(a: MyArray<Election>)
    requires a.Valid()
    modifies a.Repr
    ensures a.Valid() && a.Repr == old(a.Repr)
    ensures YearsAscending(a.Contents)
    ensures multiset(a.Contents) == multiset(old(a.Contents))
    ensures YearsAscending(old(a.Contents)) ==> a.Contents == old(a.Contents)
    ensures forall y :: HeldIn(a.Contents, y) == old(HeldIn(a.Contents, y))
  {
    ghost var n := |a.Contents|;
    ghost var years := YearsOf(a.Contents);
    ghost var t := years;
    var e := 1;
    while e < a.Size()
      invariant a.Valid() && a.Repr == old(a.Repr) && |a.Contents| == n
      invariant YearsAre(a.Contents, t, a.Repr)
      invariant 1 <= e && (n == 0 || e <= n)
      invariant multiset(a.Contents) == multiset(old(a.Contents))
      invariant e <= n ==> IntsAscending(t[..e])
      invariant IntsAscending(years) ==> a.Contents == old(a.Contents) && t == years
      invariant forall y :: Keep(a.Contents, t, y) == Keep(old(a.Contents), years, y)
    {
      t := InsertByYearAsc(a, e, t);
      e := e + 1;
    }
    if n > 0 {
      assert t[..e] == t;
    }
    YearsAreOf(a.Contents, t, a.Repr);
  }

  method InsertByYearAsc(a: MyArray<Election>, e: nat, ghost t: seq<int>) returns (ghost t': seq<int>)
    requires a.Valid() && 1 <= e < |a.Contents| && YearsAre(a.Contents, t, a.Repr)
    requires IntsAscending(t[..e])
    modifies a.Repr
    ensures a.Valid() && a.Repr == old(a.Repr) && YearsAre(a.Contents, t', a.Repr)
    ensures |a.Contents| == old(|a.Contents|)
    ensures IntsAscending(t'[..e + 1])
    ensures multiset(a.Contents) == multiset(old(a.Contents))
    ensures t[e - 1] <= t[e] ==> a.Contents == old(a.Contents) && t' == t
    ensures forall y :: Keep(a.Contents, t', y) == Keep(old(a.Contents), t, y)
  {
    ghost var s := a.Contents;
    var got := a.Get(e);
    var elem := got.value;
    var i := ShiftLaterYears(a, e, s, t);
    AscendingInsertion(t, i, e);
    InsertPermutes(s, i, e);
    InsertPermutes(t, i, e);
    var _ := a.Set(i, elem);
    ShiftedYears(s, t, i, e, a.Repr);
    t' := Shifted(t, i, e)[i := t[e]];
    forall y
      ensures Keep(a.Contents, t', y) == Keep(s, t, y)
    {
      InsertKeeps(s, t, i, e, y);
    }
  }

  /** Moves right the years before `e` that are later than the year at `e`. */
  method ShiftLaterYears(a: MyArray<Election>, e: nat, ghost s: seq<Election>, ghost t: seq<int>)
      returns (i: nat)
    requires a.Valid() && 1 <= e < |a.Contents| && a.Contents == s && YearsAre(s, t, a.Repr)
    modifies a.Repr
    ensures a.Valid() && a.Repr == old(a.Repr) && YearsAre(s, t, a.Repr)
    ensures i <= e && a.Contents == Shifted(s, i, e)
    ensures forall k | i <= k < e :: t[k] > t[e]
    ensures i > 0 ==> t[i - 1] <= t[e]
  {
    var got := a.Get(e);
    var elem := got.value;
    i := e;
    ShiftedStart(s, e);
    while i >= 1
      invariant a.Valid() && a.Repr == old(a.Repr) && YearsAre(s, t, a.Repr)
      invariant 0 <= i <= e && a.Contents == Shifted(s, i, e)
      invariant forall k | i <= k < e :: t[k] > t[e]
    {
      var prev := a.Get(i - 1);
      assert prev.value == s[i - 1] && elem == s[e];
      if prev.value.year <= elem.year {
        return;
      }
      ShiftOne(a, i, e, s);
      i := i - 1;
    }
  }

  /** Latest year first; an array already in order is left as it is. */
  method SortElectionsByYearDesc(a: MyArray<Election>)
    requires a.Valid()
    modifies a.Repr
    ensures a.Valid() && a.Repr == old(a.Repr)
    ensures YearsDescending(a.Contents)
    ensures multiset(a.Contents) == multiset(old(a.Contents))
    ensures YearsDescending(old(a.Contents)) ==> a.Contents == old(a.Contents)
    ensures forall y :: HeldIn(a.Contents, y) == old(HeldIn(a.Contents, y))
  {
    ghost var n := |a.Contents|;
    ghost var years := YearsOf(a.Contents);
    ghost var t := years;
    var e := 1;
    while e < a.Size()
      invariant a.Valid() && a.Repr == old(a.Repr) && |a.Contents| == n
      invariant YearsAre(a.Contents, t, a.Repr)
      invariant 1 <= e && (n == 0 || e <= n)
      invariant multiset(a.Contents) == multiset(old(a.Contents))
      invariant e <= n ==> IntsDescending(t[..e])
      invariant IntsDescending(years) ==> a.Contents == old(a.Contents) && t == years
      invariant forall y :: Keep(a.Contents, t, y) == Keep(old(a.Contents), years, y)
    {
      t := InsertByYearDesc(a, e, t);
      e := e + 1;
    }
    if n > 0 {
      assert t[..e] == t;
    }
    YearsAreOf(a.Contents, t, a.Repr);
  }

  method InsertByYearDesc(a: MyArray<Election>, e: nat, ghost t: seq<int>) returns (ghost t': seq<int>)
    requires a.Valid() && 1 <= e < |a.Contents| && YearsAre(a.Contents, t, a.Repr)
    requires IntsDescending(t[..e])
    modifies a.Repr
    ensures a.Valid() && a.Repr == old(a.Repr) && YearsAre(a.Contents, t', a.Repr)
    ensures |a.Contents| == old(|a.Contents|)
    ensures IntsDescending(t'[..e + 1])
    ensures multiset(a.Contents) == multiset(old(a.Contents))
    ensures t[e - 1] >= t[e] ==> a.Contents == old(a.Contents) && t' == t
    ensures forall y :: Keep(a.Contents, t', y) == Keep(old(a.Contents), t, y)
  {
    ghost var s := a.Contents;
    var got := a.Get(e);
    var elem := got.value;
    var i := ShiftEarlierYears(a, e, s, t);
    DescendingInsertion(t, i, e);
    InsertPermutes(s, i, e);
    InsertPermutes(t, i, e);
    var _ := a.Set(i, elem);
    ShiftedYears(s, t, i, e, a.Repr);
    t' := Shifted(t, i, e)[i := t[e]];
    forall y
      ensures Keep(a.Contents, t', y) == Keep(s, t, y)
    {
      InsertKeeps(s, t, i, e, y);
    }
  }

  /** Moves right the years before `e` that are earlier than the year at `e`. */
  method ShiftEarlierYears(a: MyArray<Election>, e: nat, ghost s: seq<Election>, ghost t: seq<int>)
      returns (i: nat)
    requires a.Valid() && 1 <= e < |a.Contents| && a.Contents == s && YearsAre(s, t, a.Repr)
    modifies a.Repr
    ensures a.Valid() && a.Repr == old(a.Repr) && YearsAre(s, t, a.Repr)
    ensures i <= e && a.Contents == Shifted(s, i, e)
    ensures forall k | i <= k < e :: t[k] < t[e]
    ensures i > 0 ==> t[i - 1] >= t[e]
  {
    var got := a.Get(e);
    var elem := got.value;
    i := e;
    ShiftedStart(s, e);
    while i >= 1
      invariant a.Valid() && a.Repr == old(a.Repr) && YearsAre(s, t, a.Repr)
      invariant 0 <= i <= e && a.Contents == Shifted(s, i, e)
      invariant forall k | i <= k < e :: t[k] < t[e]
    {
      var prev := a.Get(i - 1);
      assert prev.value == s[i - 1] && elem == s[e];
      if prev.value.year >= elem.year {
        return;
      }
      ShiftOne(a, i, e, s);
      i := i - 1;
    }
  }

  lemma ShiftedYears(s: seq<Election>, t: seq<int>, i: nat, e: nat, repr: set<object>)
    requires i <= e < |s| && YearsAre(s, t, repr)
    ensures YearsAre(Shifted(s, i, e)[i := s[e]], Shifted(t, i, e)[i := t[e]], repr)
  {
  }

  /** One ascending insertion pass on years. */
  lemma AscendingInsertion(t: seq<int>, i: nat, e: nat)
    requires i <= e < |t| && IntsAscending(t[..e])
    requires forall k | i <= k < e :: t[k] > t[e]
    requires i > 0 ==> t[i - 1] <= t[e]
    ensures IntsAscending(Shifted(t, i, e)[i := t[e]][..e + 1])
  {
    var r := Shifted(t, i, e)[i := t[e]][..e + 1];
    forall p, q | 0 <= p < q < |r|
      ensures r[p] <= r[q]
    {
      assert forall x | 0 <= x < e :: t[..e][x] == t[x];
    }
  }

  /** One descending insertion pass on years. */
  lemma DescendingInsertion(t: seq<int>, i: nat, e: nat)
    requires i <= e < |t| && IntsDescending(t[..e])
    requires forall k | i <= k < e :: t[k] < t[e]
    requires i > 0 ==> t[i - 1] >= t[e]
    ensures IntsDescending(Shifted(t, i, e)[i := t[e]][..e + 1])
  {
    var r := Shifted(t, i, e)[i := t[e]][..e + 1];
    forall p, q | 0 <= p < q < |r|
      ensures r[p] >= r[q]
    {
      assert forall x | 0 <= x < e :: t[..e][x] == t[x];
    }
  }
}
