/** The politician/election link structure as values. A `CandidateEntry` names its
    politician and its election through fields no method ever reassigns, so the
    structure is fully described by two maps: each election to its candidate list and
    each politician to its candidacy list. The manager keeps such maps in step with
    the arrays; this module states the linkage invariant on them and what each
    candidate operation does to it. */
module Links {
  import opened Text
  import opened Model

  type Candidates = map<Election, seq<CandidateEntry>>
  type Candidacies = map<Politician, seq<CandidateEntry>>

  // ---------------------------------------------------------------------------
  // Positions in a list
  // ---------------------------------------------------------------------------

  /** The first position whose name equals `name` ignoring case, or -1: what
      `findCandidateIndex` computes over the candidates' politician names. */
  function FirstMatch(names: seq<string>, name: string): (i: int)
    ensures -1 <= i < |names|
    ensures i >= 0 ==> EqualsIgnoreCase(names[i], name)
    ensures i >= 0 ==> forall k | 0 <= k < i :: !EqualsIgnoreCase(names[k], name)
    ensures i == -1 <==> forall k | 0 <= k < |names| :: !EqualsIgnoreCase(names[k], name)
  {
    if names == [] then -1
    else if EqualsIgnoreCase(names[0], name) then 0
    else
      var j := FirstMatch(names[1..], name);
      assert forall k | 1 <= k < |names| :: names[k] == names[1..][k - 1];
      if j < 0 then -1 else j + 1
  }

  /** The first position of an entry for election `e`, or -1. */
  function ElectionIndex(s: seq<CandidateEntry>, e: Election): (i: int)
    ensures -1 <= i < |s|
    ensures i >= 0 ==> s[i].election == e && forall k | 0 <= k < i :: s[k].election != e
    ensures i == -1 <==> forall k | 0 <= k < |s| :: s[k].election != e
  {
    if s == [] then -1
    else if s[0].election == e then 0
    else
      var j := ElectionIndex(s[1..], e);
      assert forall k | 1 <= k < |s| :: s[k] == s[1..][k - 1];
      if j < 0 then -1 else j + 1
  }

  /** `MyArray.remove(i)` on values: later elements move one place left. */
  function RemoveAt<T>(s: seq<T>, i: nat): (r: seq<T>)
    requires i < |s|
    ensures |r| == |s| - 1
    ensures forall k | 0 <= k < i :: r[k] == s[k]
    ensures forall k | i <= k < |r| :: r[k] == s[k + 1]
  {
    s[..i] + s[i + 1..]
  }

  /** A politician's list after `deleteCandidate`'s second loop: the first entry for
      `e` is removed, and nothing happens when there is none. */
  function RemoveFirstFor(s: seq<CandidateEntry>, e: Election): (r: seq<CandidateEntry>)
    ensures ElectionIndex(s, e) < 0 ==> r == s
    ensures ElectionIndex(s, e) >= 0 ==> |r| == |s| - 1 && multiset(r) == multiset(s) - multiset{s[ElectionIndex(s, e)]}
  {
    var i := ElectionIndex(s, e);
    if i < 0 then s
    else
      assert s == s[..i] + [s[i]] + s[i + 1..];
      RemoveAt(s, i)
  }

  // ---------------------------------------------------------------------------
  // The linkage invariant
  // ---------------------------------------------------------------------------

  /** Every entry of an election's list names that election, and is in the list of
      the politician it names. */
  ghost predicate ElectionsLinked(cands: Candidates, cdcy: Candidacies) {
    forall e, c | e in cands && c in cands[e] ::
      c.election == e && c.politician in cdcy && c in cdcy[c.politician]
  }

  /** Every entry of a politician's list names that politician, and is in the list
      of the election it names. */
  ghost predicate PoliticiansLinked(cands: Candidates, cdcy: Candidacies) {
    forall p, c | p in cdcy && c in cdcy[p] ::
      c.politician == p && c.election in cands && c in cands[c.election]
  }

  /** No politician stands twice in one election. */
  ghost predicate OnePerPolitician(cands: Candidates) {
    forall e, i, j | e in cands && 0 <= i < j < |cands[e]| :: cands[e][i].politician != cands[e][j].politician
  }

  /** No politician has two candidacies in one election. */
  ghost predicate OnePerElection(cdcy: Candidacies) {
    forall p, i, j | p in cdcy && 0 <= i < j < |cdcy[p]| :: cdcy[p][i].election != cdcy[p][j].election
  }

  /** Each entry is in its election's list and in its politician's list, once. */
  ghost predicate Linked(cands: Candidates, cdcy: Candidacies) {
    && ElectionsLinked(cands, cdcy)
    && PoliticiansLinked(cands, cdcy)
    && OnePerPolitician(cands)
    && OnePerElection(cdcy)
  }

  lemma LinkedEmpty()
    ensures Linked(map[], map[])
  {
  }

  /** A new politician starts with no candidacies and no entry names it yet. */
  lemma LinkedAddPolitician(cands: Candidates, cdcy: Candidacies, p: Politician)
    requires Linked(cands, cdcy) && p !in cdcy
    ensures Linked(cands, cdcy[p := []])
  {
  }

  /** A new election starts with no candidates and no entry names it yet. */
  lemma LinkedAddElection(cands: Candidates, cdcy: Candidacies, e: Election)
    requires Linked(cands, cdcy) && e !in cands
    ensures Linked(cands[e := []], cdcy)
  {
  }

  /** `addCandidate`'s success path: one entry naming `p` and `e`, appended to both
      lists, keeps the structure linked when `e` did not list `p` yet. */
  lemma LinkedAddCandidate(cands: Candidates, cdcy: Candidacies, p: Politician, e: Election, c: CandidateEntry)
    requires Linked(cands, cdcy) && p in cdcy && e in cands
    requires c.politician == p && c.election == e
    requires forall k | 0 <= k < |cands[e]| :: cands[e][k].politician != p
    ensures Linked(cands[e := cands[e] + [c]], cdcy[p := cdcy[p] + [c]])
  {
    var cands', cdcy' := cands[e := cands[e] + [c]], cdcy[p := cdcy[p] + [c]];
    forall k | 0 <= k < |cdcy[p]|
      ensures cdcy[p][k].election != e
    {
      var d := cdcy[p][k];
      assert d in cdcy[p];
      assert d in cands[d.election] && d.politician == p;
      assert d !in cands[e];
    }
    forall e0: Election, d: CandidateEntry | e0 in cands' && d in cands'[e0]
      ensures d.election == e0 && d.politician in cdcy' && d in cdcy'[d.politician]
    {
      if d != c {
        assert d in cands[e0];
      }
    }
    forall p0: Politician, d: CandidateEntry | p0 in cdcy' && d in cdcy'[p0]
      ensures d.politician == p0 && d.election in cands' && d in cands'[d.election]
    {
      if d != c {
        assert d in cdcy[p0];
      }
    }
    assert OnePerPolitician(cands') by {
      forall e0, i, j | e0 in cands' && 0 <= i < j < |cands'[e0]|
        ensures cands'[e0][i].politician != cands'[e0][j].politician
      {
        if e0 == e && j == |cands[e]| {
          assert cands'[e0][i] == cands[e][i];
        } else {
          assert cands'[e0][i] == cands[e0][i] && cands'[e0][j] == cands[e0][j];
        }
      }
    }
    assert OnePerElection(cdcy') by {
      forall p0, i, j | p0 in cdcy' && 0 <= i < j < |cdcy'[p0]|
        ensures cdcy'[p0][i].election != cdcy'[p0][j].election
      {
        if p0 == p && j == |cdcy[p]| {
          assert cdcy'[p0][i] == cdcy[p][i];
        } else {
          assert cdcy'[p0][i] == cdcy[p0][i] && cdcy'[p0][j] == cdcy[p0][j];
        }
      }
    }
  }

  /** In a linked structure the entry at `i` of `e`'s list is the first (and only)
      entry for `e` in its politician's list. */
  lemma EntryFoundInCandidacies(cands: Candidates, cdcy: Candidacies, e: Election, i: nat)
    requires Linked(cands, cdcy) && e in cands && i < |cands[e]|
    ensures var c := cands[e][i]; c.politician in cdcy && ElectionIndex(cdcy[c.politician], e) >= 0
    ensures var c := cands[e][i]; cdcy[c.politician][ElectionIndex(cdcy[c.politician], e)] == c
  {
    var c := cands[e][i];
    assert c in cands[e];
    var q := c.politician;
    var m :| 0 <= m < |cdcy[q]| && cdcy[q][m] == c;
    OnlyElectionIndex(cdcy[q], e, m);
  }

  /** In a list with one entry per election, the entry for `e` is found where it is. */
  lemma OnlyElectionIndex(s: seq<CandidateEntry>, e: Election, m: nat)
    requires m < |s| && s[m].election == e
    requires forall a, b | 0 <= a < b < |s| :: s[a].election != s[b].election
    ensures ElectionIndex(s, e) == m
  {
  }

  predicate Distinct<T(==)>(s: seq<T>) {
    forall a, b | 0 <= a < b < |s| :: s[a] != s[b]
  }

  /** Removing a position from a list without repeats removes exactly that element. */
  lemma RemoveAtMembers<T>(s: seq<T>, i: nat)
    requires i < |s| && Distinct(s)
    ensures Distinct(RemoveAt(s, i))
    ensures forall x :: x in RemoveAt(s, i) <==> x in s && x != s[i]
  {
    var r := RemoveAt(s, i);
    forall a, b | 0 <= a < b < |r|
      ensures r[a] != r[b]
    {
      var a0 := if a < i then a else a + 1;
      var b0 := if b < i then b else b + 1;
      assert r[a] == s[a0] && r[b] == s[b0];
    }
    forall x
      ensures x in r <==> x in s && x != s[i]
    {
      if x in r {
        var k :| 0 <= k < |r| && r[k] == x;
        var k0 := if k < i then k else k + 1;
        assert s[k0] == x && k0 != i;
      }
      if x in s && x != s[i] {
        var k :| 0 <= k < |s| && s[k] == x;
        assert k != i;
        if k < i {
          assert r[k] == x;
        } else {
          assert r[k - 1] == x;
        }
      }
    }
  }

  /** Removing one position keeps any property of pairs. */
  lemma RemoveAtPairs(s: seq<CandidateEntry>, i: nat, a: nat, b: nat)
    requires i < |s| && a < b < |s| - 1
    ensures var a0, b0 := if a < i then a else a + 1, if b < i then b else b + 1;
      a0 < b0 < |s| && RemoveAt(s, i)[a] == s[a0] && RemoveAt(s, i)[b] == s[b0]
  {
  }

  /** `deleteCandidate` when the matched entry belongs to the politician found by
      exact name: the same entry leaves both lists and the structure stays linked. */
  lemma LinkedDeleteCandidate(cands: Candidates, cdcy: Candidacies, p: Politician, e: Election, i: nat)
    requires Linked(cands, cdcy) && p in cdcy && e in cands && i < |cands[e]|
    requires cands[e][i].politician == p
    ensures ElectionIndex(cdcy[p], e) >= 0 && cdcy[p][ElectionIndex(cdcy[p], e)] == cands[e][i]
    ensures Linked(cands[e := RemoveAt(cands[e], i)], cdcy[p := RemoveFirstFor(cdcy[p], e)])
  {
    EntryFoundInCandidacies(cands, cdcy, e, i);
    var c := cands[e][i];
    var j := ElectionIndex(cdcy[p], e);
    var es, ps := RemoveAt(cands[e], i), RemoveAt(cdcy[p], j);
    assert RemoveFirstFor(cdcy[p], e) == ps;
    RemoveAtMembers(cands[e], i);
    RemoveAtMembers(cdcy[p], j);
    DeleteKeepsElectionsLinked(cands, cdcy, p, e, c, es, ps);
    DeleteKeepsPoliticiansLinked(cands, cdcy, p, e, c, es, ps);
    var cands', cdcy' := cands[e := es], cdcy[p := ps];
    assert OnePerPolitician(cands') by {
      forall e0, a, b | e0 in cands' && 0 <= a < b < |cands'[e0]|
        ensures cands'[e0][a].politician != cands'[e0][b].politician
      {
        if e0 == e {
          RemoveAtPairs(cands[e], i, a, b);
        }
      }
    }
    assert OnePerElection(cdcy') by {
      forall p0, a, b | p0 in cdcy' && 0 <= a < b < |cdcy'[p0]|
        ensures cdcy'[p0][a].election != cdcy'[p0][b].election
      {
        if p0 == p {
          RemoveAtPairs(cdcy[p], j, a, b);
        }
      }
    }
  }

  lemma DeleteKeepsElectionsLinked(cands: Candidates, cdcy: Candidacies, p: Politician, e: Election,
                                   c: CandidateEntry, es: seq<CandidateEntry>, ps: seq<CandidateEntry>)
    requires ElectionsLinked(cands, cdcy) && p in cdcy && e in cands
    requires c.politician == p && c.election == e
    requires forall x :: x in es <==> x in cands[e] && x != c
    requires forall x :: x in ps <==> x in cdcy[p] && x != c
    ensures ElectionsLinked(cands[e := es], cdcy[p := ps])
  {
    var cands', cdcy' := cands[e := es], cdcy[p := ps];
    forall e0: Election, d: CandidateEntry | e0 in cands' && d in cands'[e0]
      ensures d.election == e0 && d.politician in cdcy' && d in cdcy'[d.politician]
    {
      assert d in cands[e0];
      assert d != c || e0 != e;
      assert d != c by {
        if e0 != e {
          assert d.election == e0;
        }
      }
    }
  }

  lemma DeleteKeepsPoliticiansLinked(cands: Candidates, cdcy: Candidacies, p: Politician, e: Election,
                                     c: CandidateEntry, es: seq<CandidateEntry>, ps: seq<CandidateEntry>)
    requires PoliticiansLinked(cands, cdcy) && p in cdcy && e in cands
    requires c.politician == p && c.election == e
    requires forall x :: x in es <==> x in cands[e] && x != c
    requires forall x :: x in ps <==> x in cdcy[p] && x != c
    ensures PoliticiansLinked(cands[e := es], cdcy[p := ps])
  {
    var cands', cdcy' := cands[e := es], cdcy[p := ps];
    forall p0: Politician, d: CandidateEntry | p0 in cdcy' && d in cdcy'[p0]
      ensures d.politician == p0 && d.election in cands' && d in cands'[d.election]
    {
      assert d in cdcy[p0];
      assert d != c by {
        if p0 != p {
          assert d.politician == p0;
        }
      }
    }
  }

  /** `deleteCandidate` when the name matched ignoring case names a different
      politician than the one found by exact name (for instance "alice" versus
      "Alice"): the entry leaves the election's list but stays in its own
      politician's list, so the structure is no longer linked. */
  lemma DanglingAfterMismatch(cands: Candidates, cdcy: Candidacies, p: Politician, e: Election, i: nat)
    requires Linked(cands, cdcy) && p in cdcy && e in cands && i < |cands[e]|
    requires cands[e][i].politician != p
    ensures var c := cands[e][i];
      var cands', cdcy' := cands[e := RemoveAt(cands[e], i)], cdcy[p := RemoveFirstFor(cdcy[p], e)];
      c.politician in cdcy' && c in cdcy'[c.politician] && c !in cands'[e]
    ensures !Linked(cands[e := RemoveAt(cands[e], i)], cdcy[p := RemoveFirstFor(cdcy[p], e)])
  {
    var c := cands[e][i];
    assert c in cands[e];
    RemoveAtMembers(cands[e], i);
    var cands', cdcy' := cands[e := RemoveAt(cands[e], i)], cdcy[p := RemoveFirstFor(cdcy[p], e)];
    assert cdcy'[c.politician] == cdcy[c.politician];
    assert c in cdcy'[c.politician] && c.election == e && c !in cands'[e];
  }
}
