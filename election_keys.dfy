/** The composite key under which the manager files an election: type, year and
    location joined by dashes (`buildElectionKey`). */
module ElectionKeys {
  import opened Text

  function ElectionKey(electionType: string, year: int, location: string): (key: string)
    ensures |key| == |electionType| + |IntToString(year)| + |location| + 2
    ensures key[..|electionType|] == electionType && key[|electionType|] == '-'
    ensures key[|key| - |location|..] == location
  {
    electionType + "-" + IntToString(year) + "-" + location
  }

  /** The position of the first dash at or after `from`, or the length. */
  function DashIndex(s: string, from: nat): (i: nat)
    requires from <= |s|
    ensures from <= i <= |s|
    ensures i < |s| ==> s[i] == '-'
    ensures forall k | from <= k < i :: s[k] != '-'
    decreases |s| - from
  {
    if from == |s| || s[from] == '-' then from else DashIndex(s, from + 1)
  }

  /** The first dash in `a + "-" + b` from `from` on is the one after `a` when `a`
      has none from there. */
  lemma {:induction false} DashIndexAfter(a: string, b: string, from: nat)
    requires from <= |a| && forall i | from <= i < |a| :: a[i] != '-'
    ensures DashIndex(a + "-" + b, from) == |a|
    decreases |a| - from
  {
    var key := a + "-" + b;
    if from < |a| {
      assert key[from] == a[from];
      DashIndexAfter(a, b, from + 1);
    } else {
      assert key[|a|] == '-';
    }
  }

  lemma FirstDash(a: string, b: string, a': string, b': string, from: nat)
    requires a + "-" + b == a' + "-" + b'
    requires from <= |a| && from <= |a'|
    requires forall i | from <= i < |a| :: a[i] != '-'
    requires forall i | from <= i < |a'| :: a'[i] != '-'
    ensures a == a' && b == b'
  {
    var key := a + "-" + b;
    DashIndexAfter(a, b, from);
    DashIndexAfter(a', b', from);
    assert a == key[..|a|] == a';
    assert b == key[|a| + 1..] == b';
  }

  lemma KeyAfterType(electionType: string, year: int, location: string)
    ensures ElectionKey(electionType, year, location) == electionType + "-" + (IntToString(year) + "-" + location)
  {
  }

  /** Elections whose types contain no dash get distinct keys whenever type, year or
      location differ: the year's text has a dash only in front. */
  lemma ElectionKeyInjective(t1: string, y1: int, l1: string, t2: string, y2: int, l2: string)
    requires forall i | 0 <= i < |t1| :: t1[i] != '-'
    requires forall i | 0 <= i < |t2| :: t2[i] != '-'
    requires ElectionKey(t1, y1, l1) == ElectionKey(t2, y2, l2)
    ensures t1 == t2 && y1 == y2 && l1 == l2
  {
    var r1, r2 := IntToString(y1) + "-" + l1, IntToString(y2) + "-" + l2;
    KeyAfterType(t1, y1, l1);
    KeyAfterType(t2, y2, l2);
    FirstDash(t1, r1, t2, r2, 0);
    IntToStringDashes(y1);
    IntToStringDashes(y2);
    FirstDash(IntToString(y1), l1, IntToString(y2), l2, 1);
    IntToStringInjective(y1, y2);
  }

  /** Without that condition two different elections can share a key, and the
      second `addElection` is refused. */
  lemma ElectionKeyCollision()
    ensures ElectionKey("A-1", 2, "x") == ElectionKey("A", 1, "2-x")
  {
    assert IntToString(2) == "2" && IntToString(1) == "1";
  }
}
