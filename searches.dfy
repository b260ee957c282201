/** What the manager's listing and search loops select: each walks the table's cells
    in index order and keeps the live records that satisfy a test on their fields. */
module Searches {
  import opened Text
  import opened Probing
  import opened Model

  /** The tests of `getAllPoliticians` and the three politician searches. */
  datatype PoliticianQuery =
    | AllPoliticians
    | NameContains(part: string)
    | PartyIs(party: string)
    | CountyIs(county: string)

  /** The name search folds both strings to lower case and looks for a substring;
      party and county are compared ignoring case. */
  predicate PoliticianMatches(p: Politician, q: PoliticianQuery)
    reads p
  {
    match q
    case AllPoliticians => true
    case NameContains(part) => Contains(LowerStr(p.name), LowerStr(part))
    case PartyIs(party) => EqualsIgnoreCase(p.party, party)
    case CountyIs(county) => EqualsIgnoreCase(p.county, county)
  }

  /** The tests of `getAllElections` and the two election searches. */
  datatype ElectionQuery =
    | AllElections
    | YearIs(year: int)
    | TypeIs(electionType: string)

  predicate ElectionMatches(e: Election, q: ElectionQuery)
    reads e
  {
    match q
    case AllElections => true
    case YearIs(year) => e.year == year
    case TypeIs(electionType) => EqualsIgnoreCase(e.electionType, electionType)
  }

  ghost function Records<V>(s: seq<Slot<string, V>>): set<V> {
    set j | 0 <= j < |s| && s[j].Full? :: s[j].value
  }

  /** A prefix of the cells holds no record the whole does not. */
  lemma RecordsOfPrefix<V>(s: seq<Slot<string, V>>, i: nat)
    requires i <= |s|
    ensures Records(s[..i]) <= Records(s)
  {
    forall v | v in Records(s[..i])
      ensures v in Records(s)
    {
      var j :| 0 <= j < i && s[..i][j].Full? && s[..i][j].value == v;
      assert s[j] == s[..i][j];
    }
  }

  /** The politicians a scan of cells `s` keeps, in cell order. */
  ghost function PoliticianHits(s: seq<Slot<string, Politician>>, q: PoliticianQuery): seq<Politician>
    reads Records(s)
  {
    if s == [] then []
    else
      var last := s[|s| - 1];
      assert Records(s[..|s| - 1]) <= Records(s) by {
        forall p | p in Records(s[..|s| - 1])
          ensures p in Records(s)
        {
          var j :| 0 <= j < |s| - 1 && s[..|s| - 1][j].Full? && s[..|s| - 1][j].value == p;
          assert s[j] == s[..|s| - 1][j];
        }
      }
      PoliticianHits(s[..|s| - 1], q)
        + if last.IsLive() && PoliticianMatches(last.value, q) then [last.value] else []
  }

  /** The elections a scan of cells `s` keeps, in cell order. */
  ghost function ElectionHits(s: seq<Slot<string, Election>>, q: ElectionQuery): seq<Election>
    reads Records(s)
  {
    if s == [] then []
    else
      var last := s[|s| - 1];
      assert Records(s[..|s| - 1]) <= Records(s) by {
        forall e | e in Records(s[..|s| - 1])
          ensures e in Records(s)
        {
          var j :| 0 <= j < |s| - 1 && s[..|s| - 1][j].Full? && s[..|s| - 1][j].value == e;
          assert s[j] == s[..|s| - 1][j];
        }
      }
      ElectionHits(s[..|s| - 1], q)
        + if last.IsLive() && ElectionMatches(last.value, q) then [last.value] else []
  }

  /** One more cell scanned: its politician is appended when live and it passes. */
  lemma PoliticianHitsStep(s: seq<Slot<string, Politician>>, i: nat, q: PoliticianQuery)
    requires i < |s|
    ensures PoliticianHits(s[..i + 1], q) == PoliticianHits(s[..i], q)
      + if s[i].IsLive() && PoliticianMatches(s[i].value, q) then [s[i].value] else []
  {
    assert s[..i + 1][..i] == s[..i];
  }

  lemma ElectionHitsStep(s: seq<Slot<string, Election>>, i: nat, q: ElectionQuery)
    requires i < |s|
    ensures ElectionHits(s[..i + 1], q) == ElectionHits(s[..i], q)
      + if s[i].IsLive() && ElectionMatches(s[i].value, q) then [s[i].value] else []
  {
    assert s[..i + 1][..i] == s[..i];
  }

  /** A politician is in the result exactly when some live cell holds it and it
      passes the test. */
  lemma {:induction false} PoliticianHitsMembers(s: seq<Slot<string, Politician>>, q: PoliticianQuery, p: Politician)
    ensures p in PoliticianHits(s, q) <==>
      (exists j | 0 <= j < |s| :: s[j].IsLive() && s[j].value == p) && PoliticianMatches(p, q)
  {
    if s != [] {
      var s0 := s[..|s| - 1];
      PoliticianHitsMembers(s0, q, p);
      if exists j | 0 <= j < |s0| :: s0[j].IsLive() && s0[j].value == p {
        var j :| 0 <= j < |s0| && s0[j].IsLive() && s0[j].value == p;
        assert s[j] == s0[j];
      }
      if exists j | 0 <= j < |s| :: s[j].IsLive() && s[j].value == p {
        var j :| 0 <= j < |s| && s[j].IsLive() && s[j].value == p;
        if j < |s0| {
          assert s0[j] == s[j];
        }
      }
    }
  }

  lemma {:induction false} ElectionHitsMembers(s: seq<Slot<string, Election>>, q: ElectionQuery, e: Election)
    ensures e in ElectionHits(s, q) <==>
      (exists j | 0 <= j < |s| :: s[j].IsLive() && s[j].value == e) && ElectionMatches(e, q)
  {
    if s != [] {
      var s0 := s[..|s| - 1];
      ElectionHitsMembers(s0, q, e);
      if exists j | 0 <= j < |s0| :: s0[j].IsLive() && s0[j].value == e {
        var j :| 0 <= j < |s0| && s0[j].IsLive() && s0[j].value == e;
        assert s[j] == s0[j];
      }
      if exists j | 0 <= j < |s| :: s[j].IsLive() && s[j].value == e {
        var j :| 0 <= j < |s| && s[j].IsLive() && s[j].value == e;
        if j < |s0| {
          assert s0[j] == s[j];
        }
      }
    }
  }

  /** Listing everything yields one record per live cell: as many as the table's `size`. */
  lemma {:induction false} AllPoliticiansCount(s: seq<Slot<string, Politician>>)
    ensures |PoliticianHits(s, AllPoliticians)| == LiveCount(s)
  {
    if s != [] {
      AllPoliticiansCount(s[..|s| - 1]);
    }
  }

  lemma {:induction false} AllElectionsCount(s: seq<Slot<string, Election>>)
    ensures |ElectionHits(s, AllElections)| == LiveCount(s)
  {
    if s != [] {
      AllElectionsCount(s[..|s| - 1]);
    }
  }
}
