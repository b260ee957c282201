/** `ElectionSystemManager`: politicians filed by name and elections filed by
    composite key in two open-addressing tables of 100 cells, and candidate entries
    shared between a politician's candidacy list and an election's candidate list.

    The ghost maps `PoliticianLists` and `ElectionLists` record every politician and
    every election the manager ever created, with its current list; `NameOf` and
    `KeyOf` record each one's current key. `Valid` ties them to the records and
    keeps the two tables sound and apart, and holds after every operation. Each
    operation states its exact effect on the tables and the ghost maps; the lemmas
    of `Health` show that those effects keep the keying and the links intact. */
module Manager {
  import opened Wrappers
  import opened Text
  import opened MyArrays
  import opened Probing
  import opened HashTables
  import opened Model
  import opened Sorting
  import opened Links
  import opened ElectionKeys
  import opened Keyed
  import opened Searches
  import opened Health

  /** Cells of each table, and the bound of every scan loop. */
  const Capacity: nat := 100

  /** The names `names` gives the politicians standing in a candidate list, in
      list order. */
  function NamesVia(s: seq<CandidateEntry>, names: map<Politician, string>): (r: seq<string>)
    requires forall k | 0 <= k < |s| :: s[k].politician in names
    ensures |r| == |s| && forall k | 0 <= k < |s| :: r[k] == names[s[k].politician]
  {
    if s == [] then [] else [names[s[0].politician]] + NamesVia(s[1..], names)
  }

  /** Every entry in `cands` stands for a politician that `cdcy` and `names` know. */
  ghost predicate Standing(cands: Candidates, cdcy: Candidacies, names: map<Politician, string>) {
    forall e, k | e in cands && 0 <= k < |cands[e]| :: cands[e][k].politician in cdcy && cands[e][k].politician in names
  }

  /** Appending an entry for a known politician keeps every entry standing. */
  lemma StandingAfterAppend(cands: Candidates, cdcy: Candidacies, names: map<Politician, string>,
                            e: Election, c: CandidateEntry)
    requires Standing(cands, cdcy, names) && e in cands && c.politician in cdcy && c.politician in names
    ensures Standing(cands[e := cands[e] + [c]], cdcy, names)
  {
    var grown: Candidates := cands[e := cands[e] + [c]];
    forall f: Election, k: int | f in grown && 0 <= k < |grown[f]|
      ensures grown[f][k].politician in cdcy && grown[f][k].politician in names
    {
      if f == e && k == |cands[e]| {
        assert grown[f][k] == c;
      } else {
        assert grown[f][k] == cands[f][k];
      }
    }
  }

  /** Removing one entry from a list keeps every entry standing. */
  lemma StandingAfterRemove(cands: Candidates, cdcy: Candidacies, names: map<Politician, string>,
                            e: Election, i: nat)
    requires Standing(cands, cdcy, names) && e in cands && i < |cands[e]|
    ensures Standing(cands[e := RemoveAt(cands[e], i)], cdcy, names)
  {
    var shrunk: Candidates := cands[e := RemoveAt(cands[e], i)];
    forall f: Election, k: int | f in shrunk && 0 <= k < |shrunk[f]|
      ensures shrunk[f][k].politician in cdcy && shrunk[f][k].politician in names
    {
      if f == e {
        assert shrunk[f][k] == cands[e][if k < i then k else k + 1];
      } else {
        assert shrunk[f][k] == cands[f][k];
      }
    }
  }

  /** `addCandidate`'s guard keeps the links intact. In a healthy manager the
      politician found under `politicianName` bears that name, so when no candidate
      of the election is named so (even ignoring case), that politician has no
      entry in the election yet and the new entry joins both lists. */
  lemma HealthyAfterGuardedAdd(ps: seq<Slot<string, Politician>>, es: seq<Slot<string, Election>>,
                               names: map<Politician, string>, ekeys: map<Election, string>,
                               cands: Candidates, cdcy: Candidacies,
                               politicianName: string, p: Politician, e: Election, c: CandidateEntry)
    requires HealthyOf(ps, es, names, ekeys, cands, cdcy) && Standing(cands, cdcy, names)
    requires |ps| > 0 && Lookup(ps, JavaHashCode, politicianName) == Some(p) && p in cdcy && e in cands
    requires FirstMatch(NamesVia(cands[e], names), politicianName) < 0
    requires c.politician == p && c.election == e
    ensures HealthyOf(ps, es, names, ekeys, cands[e := cands[e] + [c]], cdcy[p := cdcy[p] + [c]])
  {
    FoundUnderOwnKey(ps, names, politicianName, p);
    var standing := NamesVia(cands[e], names);
    forall k | 0 <= k < |cands[e]|
      ensures cands[e][k].politician != p
    {
      assert standing[k] == names[cands[e][k].politician];
      assert !EqualsIgnoreCase(standing[k], politicianName);
    }
    HealthyAfterAddCandidate(ps, es, names, ekeys, cands, cdcy, p, e, c);
  }

  /** An index meeting `findCandidateIndex`'s loop exit conditions is `FirstMatch`. */
  lemma FirstMatchIs(names: seq<string>, name: string, i: int)
    requires -1 <= i < |names| && (0 <= i ==> EqualsIgnoreCase(names[i], name))
    requires forall k | 0 <= k < (if i < 0 then |names| else i) :: !EqualsIgnoreCase(names[k], name)
    ensures FirstMatch(names, name) == i
  {
  }

  /** `getCandidatesSortedByVotes` once the election is looked up: an empty array
      when it is missing; otherwise its candidates copied one by one into a new
      array, which is then sorted most votes first. */
  method SortedCandidates(e: Option<Election>) returns (out: MyArray<CandidateEntry>)
    ensures out.Valid() && fresh(out.Repr)
    ensures e.None? ==> out.Contents == []
    ensures e.Some? ==> multiset(out.Contents) == multiset(e.value.candidates)
    ensures VotesDescending(out.Contents)
  {
    out := new MyArray();
    if e.None? {
      return;
    }
    var original := e.value.candidates;
    for i := 0 to |original|
      invariant out.Valid() && fresh(out.Repr)
      invariant out.Contents == original[..i]
    {
      out.Add(original[i]);
    }
    assert original[..|original|] == original;
    SortCandidatesByVotesDesc(out);
  }

  /** The search in `deleteCandidate`'s loop over a candidacy list: the first
      position whose entry is for election `el`, or -1. */
  method FindCandidacy(pcs: seq<CandidateEntry>, el: Election) returns (i: int)
    ensures i == ElectionIndex(pcs, el)
  {
    i := 0;
    while i < |pcs|
      invariant 0 <= i <= |pcs|
      invariant forall k | 0 <= k < i :: pcs[k].election != el
    {
      if pcs[i].election == el {
        return i;
      }
      i := i + 1;
    }
    return -1;
  }

  /** The record found, as a set: what an update may modify. */
  function Found<T>(r: Option<T>): set<T> {
    if r.Some? then {r.value} else {}
  }

  class ElectionSystemManager {
    const politicians: HashTable<string, Politician>
    const elections: HashTable<string, Election>

    /** Every politician created so far, with its candidacy list. */
    ghost var PoliticianLists: Candidacies
    /** Every election created so far, with its candidate list. */
    ghost var ElectionLists: Candidates
    /** The current name of every politician created so far. */
    ghost var NameOf: map<Politician, string>
    /** The current composite key of every election created so far. */
    ghost var KeyOf: map<Election, string>

    ghost predicate Valid()
      reads this, politicians, elections, politicians.Repr, elections.Repr
      reads PoliticianLists.Keys, ElectionLists.Keys
    {
      TablesValid() && RecordsApart() && Recorded() && Mirrored() && Enrolled()
    }

    /** Both tables are sound, of 100 cells, hashed by `String.hashCode`, and apart. */
    ghost predicate TablesValid()
      reads politicians, elections, politicians.Repr, elections.Repr
    {
      && politicians.Valid() && elections.Valid()
      && politicians.capacity == Capacity && elections.capacity == Capacity
      && politicians.hashCode == JavaHashCode && elections.hashCode == JavaHashCode
      && politicians.Repr !! elections.Repr
    }

    /** The tables stay sound while nothing in their footprints changes. */
    twostate lemma TablesKept()
      requires old(TablesValid())
      requires unchanged(politicians, elections)
      requires unchanged(old(politicians.Repr)) && unchanged(old(elections.Repr))
      ensures TablesValid()
    {
    }

    /** The manager stays valid while nothing it reads changes. */
    twostate lemma ValidKept()
      requires old(Valid()) && unchanged(this, politicians, elections)
      requires unchanged(old(politicians.Repr)) && unchanged(old(elections.Repr))
      requires unchanged(old(PoliticianLists.Keys)) && unchanged(old(ElectionLists.Keys))
      ensures Valid()
    {
    }

    /** The manager stays valid when only one recorded election's candidate list
        changes, its ghost entry follows, and the entries still stand. */
    twostate lemma CandidatesKept(e: Election)
      requires old(Valid()) && old(e in ElectionLists)
      requires unchanged(politicians, elections)
      requires unchanged(old(politicians.Repr)) && unchanged(old(elections.Repr))
      requires unchanged(old(PoliticianLists.Keys))
      requires unchanged(this`PoliticianLists, this`NameOf, this`KeyOf)
      requires unchanged(e`electionType, e`year, e`location)
      requires forall x | x in old(ElectionLists) && x != e :: unchanged(x)
      requires ElectionLists == old(ElectionLists)[e := e.candidates]
      requires Enrolled()
      ensures Valid()
    {
      TablesKept();
    }

    /** No record the manager created lies in a table's footprint. */
    ghost predicate RecordsApart()
      reads this, politicians, elections
    {
      && (forall p | p in PoliticianLists :: p !in politicians.Repr && p !in elections.Repr)
      && (forall e | e in ElectionLists :: e !in politicians.Repr && e !in elections.Repr)
    }

    /** Every record in a table is one the manager created. */
    ghost predicate Recorded()
      reads this, politicians, elections
    {
      ValuesIn(politicians.Slots, PoliticianLists.Keys) && ValuesIn(elections.Slots, ElectionLists.Keys)
    }

    /** The ghost maps hold each record's current list and current key. */
    ghost predicate Mirrored()
      reads this, PoliticianLists.Keys, ElectionLists.Keys
    {
      && (forall p | p in PoliticianLists ::
            p.candidacies == PoliticianLists[p] && p in NameOf && NameOf[p] == p.name)
      && (forall e | e in ElectionLists ::
            e.candidates == ElectionLists[e] && e in KeyOf
            && KeyOf[e] == ElectionKey(e.electionType, e.year, e.location))
    }

    /** Every candidate entry of a recorded election stands for a recorded politician. */
    ghost predicate Enrolled()
      reads this
    {
      Standing(ElectionLists, PoliticianLists, NameOf)
    }

    // -------------------------------------------------------------------------
    // Abstract views
    // -------------------------------------------------------------------------

    /** What `politicians.get(name)` returns. */
    ghost function FindPolitician(name: string): Option<Politician>
      reads politicians
      requires |politicians.Slots| > 0
    {
      Lookup(politicians.Slots, JavaHashCode, name)
    }

    /** What `elections.get(key)` returns. */
    ghost function FindElection(key: string): Option<Election>
      reads elections
      requires |elections.Slots| > 0
    {
      Lookup(elections.Slots, JavaHashCode, key)
    }

    /** The names standing in the election found, through `NameOf`. */
    ghost function StandingNames(r: Option<Election>): seq<string>
      reads this
      requires Enrolled()
    {
      if r.Some? && r.value in ElectionLists then NamesVia(ElectionLists[r.value], NameOf) else []
    }

    /** Read through `NameOf`, the names standing in a recorded election are the
        names its entries' politicians bear. */
    lemma NamesAgree(e: Election)
      requires Mirrored() && Enrolled() && e in ElectionLists
      ensures var names := StandingNames(Some(e));
        |names| == |e.candidates| && forall k | 0 <= k < |names| :: names[k] == e.candidates[k].politician.name
    {
    }

    /** Both tables keyed and the links intact. */
    ghost predicate Healthy()
      reads this, politicians, elections
    {
      HealthyOf(politicians.Slots, elections.Slots, NameOf, KeyOf, ElectionLists, PoliticianLists)
    }

    constructor ()
      ensures Valid() && Healthy()
      ensures politicians.Slots == EmptySlots(Capacity) && elections.Slots == EmptySlots(Capacity)
      ensures PoliticianLists == map[] && ElectionLists == map[]
    {
      politicians := new HashTable(Capacity, JavaHashCode);
      elections := new HashTable(Capacity, JavaHashCode);
      PoliticianLists, ElectionLists := map[], map[];
      NameOf, KeyOf := map[], map[];
      new;
      EmptyTable<string, Politician>(Capacity, JavaHashCode);
      EmptyTable<string, Election>(Capacity, JavaHashCode);
      LinkedEmpty();
    }

    // -------------------------------------------------------------------------
    // Politicians
    // -------------------------------------------------------------------------

    /** `getPolitician`. The source loops for ever when the probe meets no `null`
        slot and no live `name`, so that is excluded. */
    method GetPolitician(name: string) returns (r: Option<Politician>)
      requires Valid() && Terminates(politicians.Slots, JavaHashCode, name, ForGet)
      ensures r == FindPolitician(name)
      ensures r.Some? ==> r.value in PoliticianLists
      ensures r.Some? && KeyedBy(politicians.Slots, NameOf) ==> r.value.name == name
    {
      r := politicians.Get(name);
      if r.Some? {
        LookupSound(politicians.Slots, JavaHashCode, name);
      }
    }

    /** `addPolitician`: refused when `get(name)` finds someone; otherwise a new
        politician with no candidacies is filed under `name`. */
    method AddPolitician(name: string, dateOfBirth: string, party: string, county: string, imageUrl: string)
      returns (added: bool)
      requires Valid() && Terminates(politicians.Slots, JavaHashCode, name, ForGet)
      modifies this, politicians.Repr
      ensures Valid()
      ensures added <==> old(FindPolitician(name)).None?
      ensures !added ==> unchanged(this, politicians)
      ensures added ==> FindPolitician(name).Some? && var p := FindPolitician(name).value;
        && fresh(p) && p !in old(PoliticianLists) && p !in old(NameOf)
        && p.name == name && p.dateOfBirth == dateOfBirth && p.party == party
        && p.county == county && p.imageUrl == imageUrl
        && politicians.Slots == PutSlots(old(politicians.Slots), JavaHashCode, name, p)
        && PoliticianLists == old(PoliticianLists)[p := []] && NameOf == old(NameOf)[p := name]
      ensures unchanged(this`ElectionLists, this`KeyOf) && unchanged(elections)
    {
      var existing := politicians.Get(name);
      if existing.Some? {
        return false;
      }
      GetStopsPut(politicians.Slots, JavaHashCode, name);
      var p := InsertPolitician(name, dateOfBirth, party, county, imageUrl);
      added := true;
    }

    /** `addPolitician` past its guard: `new Politician(...)`, then `put(name, p)`. */
    method InsertPolitician(name: string, dateOfBirth: string, party: string, county: string, imageUrl: string)
      returns (p: Politician)
      requires Valid() && Terminates(politicians.Slots, JavaHashCode, name, ForPut)
      modifies this, politicians.Repr
      ensures Valid() && FindPolitician(name) == Some(p)
      ensures fresh(p) && p !in old(PoliticianLists) && p !in old(NameOf)
      ensures p.name == name && p.dateOfBirth == dateOfBirth && p.party == party
      ensures p.county == county && p.imageUrl == imageUrl
      ensures politicians.Slots == PutSlots(old(politicians.Slots), JavaHashCode, name, p)
      ensures PoliticianLists == old(PoliticianLists)[p := []] && NameOf == old(NameOf)[p := name]
      ensures unchanged(this`ElectionLists, this`KeyOf) && unchanged(elections)
    {
      p := NewPolitician(name, dateOfBirth, party, county, imageUrl);
      LookupAfterPut(politicians.Slots, JavaHashCode, name, p);
      FilePolitician(name, p);
    }

    /** `new Politician(...)`, recorded with no candidacies; no table changes. */
    method NewPolitician(name: string, dateOfBirth: string, party: string, county: string, imageUrl: string)
      returns (p: Politician)
      requires Valid()
      modifies this
      ensures Valid() && fresh(p) && p !in old(PoliticianLists) && p !in old(NameOf)
      ensures p.name == name && p.dateOfBirth == dateOfBirth && p.party == party
      ensures p.county == county && p.imageUrl == imageUrl
      ensures PoliticianLists == old(PoliticianLists)[p := []] && NameOf == old(NameOf)[p := name]
      ensures unchanged(this`ElectionLists, this`KeyOf) && unchanged(politicians, elections)
    {
      ghost var lists, names := PoliticianLists, NameOf;
      p := new Politician(name, dateOfBirth, party, county, imageUrl);
      PoliticianLists, NameOf := lists[p := []], names[p := name];
      TablesKept();
      assert RecordsApart() && Recorded() && Mirrored();
    }

    /** `politicians.put(name, p)` for a recorded politician. */
    method FilePolitician(name: string, p: Politician)
      requires Valid() && p in PoliticianLists && Terminates(politicians.Slots, JavaHashCode, name, ForPut)
      modifies politicians.Repr
      ensures Valid()
      ensures politicians.Slots == PutSlots(old(politicians.Slots), JavaHashCode, name, p)
      ensures fresh(politicians.Repr - old(politicians.Repr)) && unchanged(this, elections)
    {
      PutValuesIn(politicians.Slots, JavaHashCode, name, p, PoliticianLists.Keys);
      politicians.Put(name, p);
    }

    /** `politicians.remove(name)`. */
    method UnfilePolitician(name: string)
      requires Valid() && Terminates(politicians.Slots, JavaHashCode, name, ForGet)
      modifies politicians.Repr
      ensures Valid()
      ensures politicians.Slots == RemoveSlots(old(politicians.Slots), JavaHashCode, name)
      ensures politicians.Repr == old(politicians.Repr) && unchanged(this, elections)
    {
      RemoveValuesIn(politicians.Slots, JavaHashCode, name, PoliticianLists.Keys);
      politicians.Remove(name);
    }

    /** `deletePolitician`: `false` when `get(name)` finds nobody; otherwise
        `remove(name)`. The politician's candidate entries stay where they are. */
    method DeletePolitician(name: string) returns (deleted: bool)
      requires Valid() && Terminates(politicians.Slots, JavaHashCode, name, ForGet)
      modifies politicians.Repr
      ensures Valid()
      ensures deleted <==> old(FindPolitician(name)).Some?
      ensures politicians.Slots ==
        if deleted then RemoveSlots(old(politicians.Slots), JavaHashCode, name) else old(politicians.Slots)
      ensures unchanged(this, elections)
    {
      var found := politicians.Get(name);
      if found.None? {
        return false;
      }
      UnfilePolitician(name);
      deleted := true;
    }

    /** `p.updateDetails(...)` on a recorded politician, with its new name noted. */
    method RenamePolitician(p: Politician, newName: string, dateOfBirth: string, party: string,
                            county: string, imageUrl: string)
      requires Valid() && p in PoliticianLists
      modifies this, p
      ensures Valid()
      ensures p.name == newName && p.dateOfBirth == dateOfBirth && p.party == party
      ensures p.county == county && p.imageUrl == imageUrl && p.candidacies == old(p.candidacies)
      ensures NameOf == old(NameOf)[p := newName]
      ensures unchanged(this`PoliticianLists, this`ElectionLists, this`KeyOf) && unchanged(politicians, elections)
    {
      ghost var names := NameOf;
      p.UpdateDetails(newName, dateOfBirth, party, county, imageUrl);
      NameOf := names[p := newName];
    }

    /** `updatePolitician`: `false` when `get(name)` finds nobody. Otherwise the
        politician's details are overwritten, and when the name changes it is first
        removed and afterwards put under the new name. */
    method UpdatePolitician(name: string, newName: string, dateOfBirth: string, party: string,
                            county: string, imageUrl: string)
      returns (updated: bool)
      requires Valid() && Terminates(politicians.Slots, JavaHashCode, name, ForGet)
      modifies this, politicians.Repr, Found(FindPolitician(name))
      ensures Valid()
      ensures updated <==> old(FindPolitician(name)).Some?
      ensures !updated ==> unchanged(this, politicians)
      ensures updated ==> var p := old(FindPolitician(name)).value;
        && p.name == newName && p.dateOfBirth == dateOfBirth && p.party == party
        && p.county == county && p.imageUrl == imageUrl && p.candidacies == old(p.candidacies)
        && NameOf == old(NameOf)[p := newName]
        && politicians.Slots == if name == newName then old(politicians.Slots)
           else RenameSlots(old(politicians.Slots), JavaHashCode, name, newName, p)
      ensures unchanged(this`PoliticianLists, this`ElectionLists, this`KeyOf) && unchanged(elections)
    {
      var found := politicians.Get(name);
      if found.None? {
        return false;
      }
      var p := found.value;
      LookupSound(politicians.Slots, JavaHashCode, name);
      assert p in PoliticianLists;
      if name != newName {
        ghost var removed := RemoveSlots(politicians.Slots, JavaHashCode, name);
        PutAfterRemoveTerminates(politicians.Slots, JavaHashCode, name, newName);
        UnfilePolitician(name);
        RenamePolitician(p, newName, dateOfBirth, party, county, imageUrl);
        assert politicians.Slots == removed;
        FilePolitician(newName, p);
      } else {
        RenamePolitician(p, newName, dateOfBirth, party, county, imageUrl);
      }
      updated := true;
    }
    // -------------------------------------------------------------------------
    // Listing and searching politicians
    // -------------------------------------------------------------------------

    /** The loop shared by `getAllPoliticians` and the three politician searches:
        cells 0 to 99 in order through `getFromIndex`, keeping each politician that
        passes `q`. */
    method ScanPoliticians(q: PoliticianQuery) returns (out: MyArray<Politician>)
      requires politicians.Valid() && politicians.capacity == Capacity
      ensures out.Valid() && fresh(out.Repr)
      ensures out.Contents == old(PoliticianHits(politicians.Slots, q))
    {
      ghost var s := politicians.Slots;
      out := new MyArray();
      for i := 0 to Capacity
        invariant out.Valid() && fresh(out.Repr)
        invariant out.Contents == old(PoliticianHits(s[..i], q))
      {
        var p := politicians.GetFromIndex(i);
        assert s[..i + 1][..i] == s[..i];
        ghost var hit := p.Some? && old(PoliticianMatches(p.value, q));
        assert old(PoliticianHits(s[..i + 1], q)) == old(PoliticianHits(s[..i], q)) + if hit then [p.value] else [];
        if p.Some? && PoliticianMatches(p.value, q) {
          out.Add(p.value);
        }
      }
      assert s[..Capacity] == s;
    }

    /** `getAllPoliticians`: every live politician, in cell order. */
    method GetAllPoliticians() returns (out: MyArray<Politician>)
      requires Valid()
      ensures out.Valid() && fresh(out.Repr)
      ensures out.Contents == old(PoliticianHits(politicians.Slots, AllPoliticians))
    {
      out := ScanPoliticians(AllPoliticians);
    }

    /** `searchPoliticiansByName`: names containing `part`, both folded to lower case. */
    method SearchPoliticiansByName(part: string) returns (out: MyArray<Politician>)
      requires Valid()
      ensures out.Valid() && fresh(out.Repr)
      ensures out.Contents == old(PoliticianHits(politicians.Slots, NameContains(part)))
    {
      out := ScanPoliticians(NameContains(part));
    }

    /** `searchPoliticiansByParty`: party equal to `party` ignoring case. */
    method SearchPoliticiansByParty(party: string) returns (out: MyArray<Politician>)
      requires Valid()
      ensures out.Valid() && fresh(out.Repr)
      ensures out.Contents == old(PoliticianHits(politicians.Slots, PartyIs(party)))
    {
      out := ScanPoliticians(PartyIs(party));
    }

    /** `searchPoliticiansByCounty`: county equal to `county` ignoring case. */
    method SearchPoliticiansByCounty(county: string) returns (out: MyArray<Politician>)
      requires Valid()
      ensures out.Valid() && fresh(out.Repr)
      ensures out.Contents == old(PoliticianHits(politicians.Slots, CountyIs(county)))
    {
      out := ScanPoliticians(CountyIs(county));
    }

    /** The three `...Sorted` searches: the same hits, sorted by name. The sort is
        stable, so politicians whose names are equal ignoring case stay in cell order. */
    method SearchPoliticiansSorted(q: PoliticianQuery) returns (out: MyArray<Politician>)
      requires Valid()
      ensures out.Valid() && fresh(out.Repr)
      ensures multiset(out.Contents) == multiset(old(PoliticianHits(politicians.Slots, q)))
      ensures NamesAscending(out.Contents)
      ensures forall k :: NamedAs(out.Contents, k) == old(NamedAs(PoliticianHits(politicians.Slots, q), k))
    {
      ghost var hits := PoliticianHits(politicians.Slots, q);
      ghost var names := NamesOf(hits);
      out := ScanPoliticians(q);
      assert NamesOf(out.Contents) == names;
      SortPoliticiansByName(out);
    }

    /** `searchPoliticiansByNameSorted`. */
    method SearchPoliticiansByNameSorted(part: string) returns (out: MyArray<Politician>)
      requires Valid()
      ensures out.Valid() && fresh(out.Repr)
      ensures multiset(out.Contents) == multiset(old(PoliticianHits(politicians.Slots, NameContains(part))))
      ensures NamesAscending(out.Contents)
      ensures forall k :: NamedAs(out.Contents, k) == old(NamedAs(PoliticianHits(politicians.Slots, NameContains(part)), k))
    {
      out := SearchPoliticiansSorted(NameContains(part));
    }

    /** `searchPoliticiansByPartySorted`. */
    method SearchPoliticiansByPartySorted(party: string) returns (out: MyArray<Politician>)
      requires Valid()
      ensures out.Valid() && fresh(out.Repr)
      ensures multiset(out.Contents) == multiset(old(PoliticianHits(politicians.Slots, PartyIs(party))))
      ensures NamesAscending(out.Contents)
      ensures forall k :: NamedAs(out.Contents, k) == old(NamedAs(PoliticianHits(politicians.Slots, PartyIs(party)), k))
    {
      out := SearchPoliticiansSorted(PartyIs(party));
    }

    /** `searchPoliticiansByCountySorted`. */
    method SearchPoliticiansByCountySorted(county: string) returns (out: MyArray<Politician>)
      requires Valid()
      ensures out.Valid() && fresh(out.Repr)
      ensures multiset(out.Contents) == multiset(old(PoliticianHits(politicians.Slots, CountyIs(county))))
      ensures NamesAscending(out.Contents)
      ensures forall k :: NamedAs(out.Contents, k) == old(NamedAs(PoliticianHits(politicians.Slots, CountyIs(county)), k))
    {
      out := SearchPoliticiansSorted(CountyIs(county));
    }

    // -------------------------------------------------------------------------
    // Elections
    // -------------------------------------------------------------------------

    /** `getElection`: `get` under `buildElectionKey(type, year, location)`. */
    method GetElection(electionType: string, year: int, location: string) returns (r: Option<Election>)
      requires Valid() && Terminates(elections.Slots, JavaHashCode, ElectionKey(electionType, year, location), ForGet)
      ensures r == FindElection(ElectionKey(electionType, year, location))
      ensures r.Some? ==> r.value in ElectionLists
      ensures r.Some? && KeyedBy(elections.Slots, KeyOf) ==>
        ElectionKey(r.value.electionType, r.value.year, r.value.location) == ElectionKey(electionType, year, location)
    {
      var key := ElectionKey(electionType, year, location);
      r := elections.Get(key);
      if r.Some? {
        LookupSound(elections.Slots, JavaHashCode, key);
      }
    }

    /** `addElection`: refused when the composite key is taken; otherwise a new
        election with no candidates is filed under it. */
    method AddElection(electionType: string, location: string, year: int, numberOfWinners: int)
      returns (added: bool)
      requires Valid() && Terminates(elections.Slots, JavaHashCode, ElectionKey(electionType, year, location), ForGet)
      modifies this, elections.Repr
      ensures Valid()
      ensures added <==> old(FindElection(ElectionKey(electionType, year, location))).None?
      ensures !added ==> unchanged(this, elections)
      ensures added ==> var key := ElectionKey(electionType, year, location);
        FindElection(key).Some? && var e := FindElection(key).value;
        && fresh(e) && e !in old(ElectionLists) && e !in old(KeyOf)
        && e.electionType == electionType && e.location == location
        && e.year == year && e.numberOfWinners == numberOfWinners
        && elections.Slots == PutSlots(old(elections.Slots), JavaHashCode, key, e)
        && ElectionLists == old(ElectionLists)[e := []] && KeyOf == old(KeyOf)[e := key]
      ensures unchanged(this`PoliticianLists, this`NameOf) && unchanged(politicians)
    {
      var key := ElectionKey(electionType, year, location);
      var existing := elections.Get(key);
      if existing.Some? {
        return false;
      }
      GetStopsPut(elections.Slots, JavaHashCode, key);
      var e := InsertElection(key, electionType, location, year, numberOfWinners);
      added := true;
    }

    /** `addElection` past its guard: `new Election(...)`, then `put(key, e)`. */
    method InsertElection(key: string, electionType: string, location: string, year: int, numberOfWinners: int)
      returns (e: Election)
      requires key == ElectionKey(electionType, year, location)
      requires Valid() && Terminates(elections.Slots, JavaHashCode, key, ForPut)
      modifies this, elections.Repr
      ensures Valid() && FindElection(key) == Some(e)
      ensures fresh(e) && e !in old(ElectionLists) && e !in old(KeyOf)
      ensures e.electionType == electionType && e.location == location
      ensures e.year == year && e.numberOfWinners == numberOfWinners
      ensures elections.Slots == PutSlots(old(elections.Slots), JavaHashCode, key, e)
      ensures ElectionLists == old(ElectionLists)[e := []] && KeyOf == old(KeyOf)[e := key]
      ensures unchanged(this`PoliticianLists, this`NameOf) && unchanged(politicians)
    {
      e := NewElection(key, electionType, location, year, numberOfWinners);
      LookupAfterPut(elections.Slots, JavaHashCode, key, e);
      FileElection(key, e);
    }

    /** `new Election(...)`, recorded with no candidates; no table changes. */
    method NewElection(key: string, electionType: string, location: string, year: int, numberOfWinners: int)
      returns (e: Election)
      requires key == ElectionKey(electionType, year, location)
      requires Valid()
      modifies this
      ensures Valid() && fresh(e) && e !in old(ElectionLists) && e !in old(KeyOf)
      ensures e.electionType == electionType && e.location == location
      ensures e.year == year && e.numberOfWinners == numberOfWinners
      ensures ElectionLists == old(ElectionLists)[e := []] && KeyOf == old(KeyOf)[e := key]
      ensures unchanged(this`PoliticianLists, this`NameOf) && unchanged(politicians, elections)
    {
      ghost var lists, keys := ElectionLists, KeyOf;
      e := new Election(electionType, location, year, numberOfWinners);
      ElectionLists, KeyOf := lists[e := []], keys[e := key];
      TablesKept();
      assert RecordsApart() && Recorded() && Mirrored();
    }

    /** `elections.put(key, e)` for a recorded election. */
    method FileElection(key: string, e: Election)
      requires Valid() && e in ElectionLists && Terminates(elections.Slots, JavaHashCode, key, ForPut)
      modifies elections.Repr
      ensures Valid()
      ensures elections.Slots == PutSlots(old(elections.Slots), JavaHashCode, key, e)
      ensures fresh(elections.Repr - old(elections.Repr)) && unchanged(this, politicians)
    {
      PutValuesIn(elections.Slots, JavaHashCode, key, e, ElectionLists.Keys);
      elections.Put(key, e);
    }

    /** `elections.remove(key)`. */
    method UnfileElection(key: string)
      requires Valid() && Terminates(elections.Slots, JavaHashCode, key, ForGet)
      modifies elections.Repr
      ensures Valid()
      ensures elections.Slots == RemoveSlots(old(elections.Slots), JavaHashCode, key)
      ensures elections.Repr == old(elections.Repr) && unchanged(this, politicians)
    {
      RemoveValuesIn(elections.Slots, JavaHashCode, key, ElectionLists.Keys);
      elections.Remove(key);
    }

    /** `deleteElection`: `false` when the key finds nothing; otherwise `remove`.
        The election's candidate entries stay in their politicians' lists. */
    method DeleteElection(electionType: string, year: int, location: string) returns (deleted: bool)
      requires Valid() && Terminates(elections.Slots, JavaHashCode, ElectionKey(electionType, year, location), ForGet)
      modifies elections.Repr
      ensures Valid()
      ensures deleted <==> old(FindElection(ElectionKey(electionType, year, location))).Some?
      ensures elections.Slots == if deleted
        then RemoveSlots(old(elections.Slots), JavaHashCode, ElectionKey(electionType, year, location))
        else old(elections.Slots)
      ensures unchanged(this, politicians)
    {
      var key := ElectionKey(electionType, year, location);
      var found := elections.Get(key);
      if found.None? {
        return false;
      }
      UnfileElection(key);
      deleted := true;
    }

    /** `e.updateDetails(...)` on a recorded election, with its new key noted. */
    method RekeyElection(e: Election, electionType: string, location: string, year: int, numberOfWinners: int)
      requires Valid() && e in ElectionLists
      modifies this, e
      ensures Valid()
      ensures e.electionType == electionType && e.location == location && e.year == year
      ensures e.numberOfWinners == numberOfWinners && e.candidates == old(e.candidates)
      ensures KeyOf == old(KeyOf)[e := ElectionKey(electionType, year, location)]
      ensures unchanged(this`PoliticianLists, this`ElectionLists, this`NameOf) && unchanged(politicians, elections)
    {
      ghost var keys := KeyOf;
      e.UpdateDetails(electionType, location, year, numberOfWinners);
      KeyOf := keys[e := ElectionKey(electionType, year, location)];
    }

    /** `updateElection`: `false` when the old key finds nothing. Otherwise the
        election is removed, its details are overwritten and it is put under the
        key built from the new details, even when that key is the old one. */
    method UpdateElection(electionType: string, year: int, location: string,
                          newType: string, newLocation: string, newYear: int, numberOfWinners: int)
      returns (updated: bool)
      requires Valid() && Terminates(elections.Slots, JavaHashCode, ElectionKey(electionType, year, location), ForGet)
      modifies this, elections.Repr, Found(FindElection(ElectionKey(electionType, year, location)))
      ensures Valid()
      ensures updated <==> old(FindElection(ElectionKey(electionType, year, location))).Some?
      ensures !updated ==> unchanged(this, elections)
      ensures updated ==> var e := old(FindElection(ElectionKey(electionType, year, location))).value;
        && e.electionType == newType && e.location == newLocation && e.year == newYear
        && e.numberOfWinners == numberOfWinners && e.candidates == old(e.candidates)
        && KeyOf == old(KeyOf)[e := ElectionKey(newType, newYear, newLocation)]
        && elections.Slots == RenameSlots(old(elections.Slots), JavaHashCode,
             ElectionKey(electionType, year, location), ElectionKey(newType, newYear, newLocation), e)
      ensures unchanged(this`PoliticianLists, this`ElectionLists, this`NameOf) && unchanged(politicians)
    {
      var oldKey := ElectionKey(electionType, year, location);
      var found := elections.Get(oldKey);
      if found.None? {
        return false;
      }
      var e := found.value;
      LookupSound(elections.Slots, JavaHashCode, oldKey);
      assert e in ElectionLists;
      ghost var removed := RemoveSlots(elections.Slots, JavaHashCode, oldKey);
      PutAfterRemoveTerminates(elections.Slots, JavaHashCode, oldKey, ElectionKey(newType, newYear, newLocation));
      UnfileElection(oldKey);
      RekeyElection(e, newType, newLocation, newYear, numberOfWinners);
      assert elections.Slots == removed;
      FileElection(ElectionKey(newType, newYear, newLocation), e);
      updated := true;
    }

    // -------------------------------------------------------------------------
    // Listing and searching elections
    // -------------------------------------------------------------------------

    /** The loop shared by `getAllElections` and the two election searches. */
    method ScanElections(q: ElectionQuery) returns (out: MyArray<Election>)
      requires elections.Valid() && elections.capacity == Capacity
      ensures out.Valid() && fresh(out.Repr)
      ensures out.Contents == old(ElectionHits(elections.Slots, q))
    {
      ghost var s := elections.Slots;
      out := new MyArray();
      for i := 0 to Capacity
        invariant out.Valid() && fresh(out.Repr)
        invariant out.Contents == old(ElectionHits(s[..i], q))
      {
        var e := elections.GetFromIndex(i);
        assert s[..i + 1][..i] == s[..i];
        ghost var hit := e.Some? && old(ElectionMatches(e.value, q));
        assert old(ElectionHits(s[..i + 1], q)) == old(ElectionHits(s[..i], q)) + if hit then [e.value] else [];
        if e.Some? && ElectionMatches(e.value, q) {
          out.Add(e.value);
        }
      }
      assert s[..Capacity] == s;
    }

    /** `getAllElections`: every live election, in cell order. */
    method GetAllElections() returns (out: MyArray<Election>)
      requires Valid()
      ensures out.Valid() && fresh(out.Repr)
      ensures out.Contents == old(ElectionHits(elections.Slots, AllElections))
    {
      out := ScanElections(AllElections);
    }

    /** `searchElectionsByYear`: elections of exactly that year. */
    method SearchElectionsByYear(year: int) returns (out: MyArray<Election>)
      requires Valid()
      ensures out.Valid() && fresh(out.Repr)
      ensures out.Contents == old(ElectionHits(elections.Slots, YearIs(year)))
    {
      out := ScanElections(YearIs(year));
    }

    /** `searchElectionsByType`: type equal to `electionType` ignoring case. */
    method SearchElectionsByType(electionType: string) returns (out: MyArray<Election>)
      requires Valid()
      ensures out.Valid() && fresh(out.Repr)
      ensures out.Contents == old(ElectionHits(elections.Slots, TypeIs(electionType)))
    {
      out := ScanElections(TypeIs(electionType));
    }

    // -------------------------------------------------------------------------
    // Candidates
    // -------------------------------------------------------------------------

    /** `findCandidateIndex`: the first candidate of `e` whose politician's name
        equals `politicianName` ignoring case, or -1. */
    method FindCandidateIndex(e: Election, politicianName: string) returns (i: int)
      ensures -1 <= i < |e.candidates|
      ensures 0 <= i ==> EqualsIgnoreCase(e.candidates[i].politician.name, politicianName)
      ensures forall k | 0 <= k < (if i < 0 then |e.candidates| else i) ::
        !EqualsIgnoreCase(e.candidates[k].politician.name, politicianName)
    {
      var cands := e.candidates;
      i := 0;
      while i < |cands|
        invariant 0 <= i <= |cands|
        invariant forall k | 0 <= k < i :: !EqualsIgnoreCase(cands[k].politician.name, politicianName)
      {
        if EqualsIgnoreCase(cands[i].politician.name, politicianName) {
          return i;
        }
        i := i + 1;
      }
      return -1;
    }

    /** `getElection`, then `findCandidateIndex` when the election exists: the
        first candidate named `politicianName` ignoring case, or -1 (also when the
        election is missing). Nothing changes. */
    method Spot(politicianName: string, electionType: string, year: int, location: string)
      returns (e: Option<Election>, idx: int)
      requires Valid() && Terminates(elections.Slots, JavaHashCode, ElectionKey(electionType, year, location), ForGet)
      ensures e == FindElection(ElectionKey(electionType, year, location))
      ensures e.Some? ==> e.value in ElectionLists
      ensures idx == FirstMatch(StandingNames(e), politicianName)
      ensures e.Some? ==> idx < |e.value.candidates| && e.value.candidates == ElectionLists[e.value]
      ensures e.Some? && idx >= 0 ==> NamedEntry(e, politicianName) == {e.value.candidates[idx]}
    {
      e := GetElection(electionType, year, location);
      idx := -1;
      if e.Some? {
        idx := FindCandidateIndex(e.value, politicianName);
        NamesAgree(e.value);
        FirstMatchIs(StandingNames(e), politicianName, idx);
      }
    }

    /** The lookups `addCandidate` and `deleteCandidate` start with: the politician
        by exact name, the election by composite key and, when both exist, the first
        candidate of the election named `politicianName` ignoring case (-1 when
        either is missing). Nothing changes. */
    method Locate(politicianName: string, electionType: string, year: int, location: string)
      returns (p: Option<Politician>, e: Option<Election>, idx: int)
      requires Valid() && Terminates(politicians.Slots, JavaHashCode, politicianName, ForGet)
      requires Terminates(elections.Slots, JavaHashCode, ElectionKey(electionType, year, location), ForGet)
      ensures Valid()
      ensures p == FindPolitician(politicianName) && e == FindElection(ElectionKey(electionType, year, location))
      ensures p.Some? ==> p.value in PoliticianLists
      ensures p.Some? && KeyedBy(politicians.Slots, NameOf) ==> p.value.name == politicianName
      ensures e.Some? ==> e.value in ElectionLists
      ensures idx == if p.Some? && e.Some? then FirstMatch(StandingNames(e), politicianName) else -1
      ensures p.Some? && e.Some? ==> idx < |e.value.candidates| && e.value.candidates == ElectionLists[e.value]
    {
      p := GetPolitician(politicianName);
      e, idx := Spot(politicianName, electionType, year, location);
      if p.None? {
        idx := -1;
      }
      ValidKept();
    }

    /** `new CandidateEntry(p, e, ...)` appended to the politician's list. */
    method Enlist(p: Politician, e: Election, partyAtTheTime: string, votes: int) returns (c: CandidateEntry)
      requires Valid() && p in PoliticianLists
      modifies this, p
      ensures Valid() && fresh(c)
      ensures c.politician == p && c.election == e && c.partyAtTheTime == partyAtTheTime && c.votes == votes
      ensures p.candidacies == old(p.candidacies) + [c]
      ensures PoliticianLists == old(PoliticianLists)[p := p.candidacies]
      ensures unchanged(this`ElectionLists, this`NameOf, this`KeyOf) && unchanged(politicians, elections)
      ensures unchanged(p`name, p`dateOfBirth, p`party, p`county, p`imageUrl)
    {
      ghost var lists := PoliticianLists;
      c := new CandidateEntry(p, e, partyAtTheTime, votes);
      p.AddCandidacy(c);
      PoliticianLists := lists[p := p.candidacies];
      TablesKept();
    }

    /** `e.addCandidate(c)` on a recorded election. */
    method Register(e: Election, c: CandidateEntry)
      requires Valid() && e in ElectionLists && c.politician in PoliticianLists
      modifies this, e
      ensures Valid()
      ensures e.candidates == old(e.candidates) + [c]
      ensures ElectionLists == old(ElectionLists)[e := e.candidates]
      ensures unchanged(this`PoliticianLists, this`NameOf, this`KeyOf) && unchanged(politicians, elections)
      ensures unchanged(e`electionType, e`location, e`year, e`numberOfWinners)
    {
      ghost var lists := ElectionLists;
      StandingAfterAppend(lists, PoliticianLists, NameOf, e, c);
      e.AddCandidate(c);
      ElectionLists := lists[e := e.candidates];
      TablesKept();
    }

    /** `addCandidate`: refused unless both the politician (by exact name) and the
        election exist and no candidate of the election has that name ignoring
        case; otherwise one new entry is appended to both lists. */
    method AddCandidate(politicianName: string, electionType: string, year: int, location: string,
                        partyAtTheTime: string, votes: int) returns (added: bool)
      requires Valid() && Terminates(politicians.Slots, JavaHashCode, politicianName, ForGet)
      requires Terminates(elections.Slots, JavaHashCode, ElectionKey(electionType, year, location), ForGet)
      modifies this, Found(FindPolitician(politicianName)), Found(FindElection(ElectionKey(electionType, year, location)))
      ensures Valid()
      ensures added <==>
        && old(FindPolitician(politicianName)).Some?
        && old(FindElection(ElectionKey(electionType, year, location))).Some?
        && FirstMatch(old(StandingNames(FindElection(ElectionKey(electionType, year, location)))), politicianName) < 0
      ensures !added ==>
        && unchanged(this)
        && unchanged(old(PoliticianLists.Keys), old(ElectionLists.Keys))
      ensures added ==>
        var p, e := old(FindPolitician(politicianName)).value, old(FindElection(ElectionKey(electionType, year, location))).value;
        && |e.candidates| > 0 && var c := e.candidates[|e.candidates| - 1];
        && fresh(c) && c.politician == p && c.election == e
        && c.partyAtTheTime == partyAtTheTime && c.votes == votes
        && e.candidates == old(e.candidates) + [c] && p.candidacies == old(p.candidacies) + [c]
        && PoliticianLists == old(PoliticianLists)[p := p.candidacies]
        && ElectionLists == old(ElectionLists)[e := e.candidates]
        && unchanged(p`name, p`dateOfBirth, p`party, p`county, p`imageUrl) && unchanged(e`electionType, e`location, e`year, e`numberOfWinners)
      ensures unchanged(this`NameOf, this`KeyOf) && unchanged(politicians, elections)
    {
      ghost var p0, e0 := FindPolitician(politicianName), FindElection(ElectionKey(electionType, year, location));
      ghost var names := StandingNames(e0);
      var p, e, idx := Locate(politicianName, electionType, year, location);
      assert p == p0 && e == e0 && StandingNames(e) == names;
      added := p.Some? && e.Some? && idx < 0;
      if added {
        Enroll(p.value, e.value, partyAtTheTime, votes);
      }
    }

    /** `addCandidate` past its guards, with the new entry named as the last of the
        election's list. */
    method Enroll(p: Politician, e: Election, partyAtTheTime: string, votes: int)
      requires Valid() && p in PoliticianLists && e in ElectionLists
      modifies this, p, e
      ensures Valid()
      ensures |e.candidates| > 0 && var c := e.candidates[|e.candidates| - 1];
        && fresh(c) && c.politician == p && c.election == e
        && c.partyAtTheTime == partyAtTheTime && c.votes == votes
        && e.candidates == old(e.candidates) + [c] && p.candidacies == old(p.candidacies) + [c]
        && PoliticianLists == old(PoliticianLists)[p := p.candidacies]
        && ElectionLists == old(ElectionLists)[e := e.candidates]
      ensures unchanged(this`NameOf, this`KeyOf) && unchanged(politicians, elections)
      ensures unchanged(p`name, p`dateOfBirth, p`party, p`county, p`imageUrl) && unchanged(e`electionType, e`location, e`year, e`numberOfWinners)
    {
      var c := EnrollCandidate(p, e, partyAtTheTime, votes);
      assert e.candidates[|e.candidates| - 1] == c;
    }

    /** `addCandidate` past its guards: `new CandidateEntry(p, e, ...)`, appended to
        the politician's list and then to the election's. */
    method EnrollCandidate(p: Politician, e: Election, partyAtTheTime: string, votes: int)
      returns (c: CandidateEntry)
      requires Valid() && p in PoliticianLists && e in ElectionLists
      modifies this, p, e
      ensures Valid() && fresh(c)
      ensures c.politician == p && c.election == e && c.partyAtTheTime == partyAtTheTime && c.votes == votes
      ensures e.candidates == old(e.candidates) + [c] && p.candidacies == old(p.candidacies) + [c]
      ensures PoliticianLists == old(PoliticianLists)[p := p.candidacies]
      ensures ElectionLists == old(ElectionLists)[e := e.candidates]
      ensures unchanged(this`NameOf, this`KeyOf) && unchanged(politicians, elections)
      ensures unchanged(p`name, p`dateOfBirth, p`party, p`county, p`imageUrl) && unchanged(e`electionType, e`location, e`year, e`numberOfWinners)
    {
      c := Enlist(p, e, partyAtTheTime, votes);
      label Enlisted:
      Register(e, c);
      assert unchanged@Enlisted(p);
    }

    /** The entry `updateCandidate` edits: the first candidate of the election found
        whose name equals `politicianName` ignoring case, if there is one. */
    ghost function NamedEntry(r: Option<Election>, politicianName: string): set<CandidateEntry>
      reads this
      requires Enrolled()
    {
      if r.Some? && r.value in ElectionLists && FirstMatch(StandingNames(r), politicianName) >= 0
      then {ElectionLists[r.value][FirstMatch(StandingNames(r), politicianName)]}
      else {}
    }

    /** `updateCandidate`: `false` when the election is missing or none of its
        candidates is named `politicianName` ignoring case; otherwise the first such
        entry gets the new party at the time and vote count. No list changes. */
    method UpdateCandidate(politicianName: string, electionType: string, year: int, location: string,
                           newPartyAtTheTime: string, newVotes: int) returns (updated: bool)
      requires Valid() && Terminates(elections.Slots, JavaHashCode, ElectionKey(electionType, year, location), ForGet)
      modifies NamedEntry(FindElection(ElectionKey(electionType, year, location)), politicianName)
      ensures Valid()
      ensures updated <==>
        && old(FindElection(ElectionKey(electionType, year, location))).Some?
        && FirstMatch(old(StandingNames(FindElection(ElectionKey(electionType, year, location)))), politicianName) >= 0
      ensures updated ==>
        var e := old(FindElection(ElectionKey(electionType, year, location))).value;
        var i := FirstMatch(old(StandingNames(FindElection(ElectionKey(electionType, year, location)))), politicianName);
        && i < |e.candidates|
        && e.candidates[i].partyAtTheTime == newPartyAtTheTime && e.candidates[i].votes == newVotes
    {
      var e, idx := Spot(politicianName, electionType, year, location);
      updated := e.Some? && idx >= 0;
      if updated {
        Amend(e.value.candidates[idx], newPartyAtTheTime, newVotes);
      }
    }

    /** `ce.setPartyAtTheTime(...)`, then `ce.setVotes(...)`. */
    method Amend(ce: CandidateEntry, newPartyAtTheTime: string, newVotes: int)
      requires Valid()
      modifies ce
      ensures Valid()
      ensures ce.partyAtTheTime == newPartyAtTheTime && ce.votes == newVotes
    {
      ce.SetPartyAtTheTime(newPartyAtTheTime);
      ce.SetVotes(newVotes);
      TablesKept();
    }

    /** `deleteCandidate`: `false` unless the election and the politician (by exact
        name) exist and a candidate of the election is named `politicianName`
        ignoring case. Otherwise the first such entry leaves the election's list by
        index, and the first entry of the found politician's list for the same
        election leaves that list; the entry removed from the election need not
        belong to that politician. */
    method DeleteCandidate(politicianName: string, electionType: string, year: int, location: string)
      returns (deleted: bool)
      requires Valid() && Terminates(politicians.Slots, JavaHashCode, politicianName, ForGet)
      requires Terminates(elections.Slots, JavaHashCode, ElectionKey(electionType, year, location), ForGet)
      modifies this, Found(FindPolitician(politicianName)), Found(FindElection(ElectionKey(electionType, year, location)))
      ensures Valid()
      ensures deleted <==>
        && old(FindPolitician(politicianName)).Some?
        && old(FindElection(ElectionKey(electionType, year, location))).Some?
        && FirstMatch(old(StandingNames(FindElection(ElectionKey(electionType, year, location)))), politicianName) >= 0
      ensures !deleted ==>
        && unchanged(this)
        && unchanged(old(PoliticianLists.Keys), old(ElectionLists.Keys))
      ensures deleted ==>
        var p, e := old(FindPolitician(politicianName)).value, old(FindElection(ElectionKey(electionType, year, location))).value;
        var i := FirstMatch(old(StandingNames(FindElection(ElectionKey(electionType, year, location)))), politicianName);
        && e in old(ElectionLists) && i < |old(ElectionLists[e])|
        && e.candidates == RemoveAt(old(ElectionLists[e]), i)
        && p.candidacies == RemoveFirstFor(old(p.candidacies), old(ElectionLists[e])[i].election)
        && ElectionLists == old(ElectionLists)[e := e.candidates]
        && PoliticianLists == old(PoliticianLists)[p := p.candidacies]
        && unchanged(p`name, p`dateOfBirth, p`party, p`county, p`imageUrl) && unchanged(e`electionType, e`location, e`year, e`numberOfWinners)
      ensures unchanged(this`NameOf, this`KeyOf) && unchanged(politicians, elections)
    {
      var p, e, idx := Locate(politicianName, electionType, year, location);
      deleted := p.Some? && e.Some? && idx >= 0;
      if deleted {
        DropCandidate(p.value, e.value, idx);
      }
    }

    /** `deleteCandidate` past its guards: entry `i` leaves the election's list, then
        the first entry of `p`'s list for that entry's election leaves `p`'s. */
    method DropCandidate(p: Politician, e: Election, i: nat)
      requires Valid() && p in PoliticianLists && e in ElectionLists && i < |e.candidates|
      modifies this, p, e
      ensures Valid()
      ensures e.candidates == RemoveAt(old(e.candidates), i)
      ensures p.candidacies == RemoveFirstFor(old(p.candidacies), old(e.candidates[i].election))
      ensures ElectionLists == old(ElectionLists)[e := e.candidates]
      ensures PoliticianLists == old(PoliticianLists)[p := p.candidacies]
      ensures unchanged(this`NameOf, this`KeyOf) && unchanged(politicians, elections)
      ensures unchanged(p`name, p`dateOfBirth, p`party, p`county, p`imageUrl) && unchanged(e`electionType, e`location, e`year, e`numberOfWinners)
    {
      var entry := e.candidates[i];
      Unregister(e, i);
      Withdraw(p, entry.election);
    }

    /** `e.getCandidates().remove(i)` on a recorded election: the getter hands out
        the election's own list. */
    method Unregister(e: Election, i: nat)
      requires Valid() && e in ElectionLists && i < |e.candidates|
      modifies this, e
      ensures Valid()
      ensures e.candidates == RemoveAt(old(e.candidates), i)
      ensures ElectionLists == old(ElectionLists)[e := e.candidates]
      ensures unchanged(this`PoliticianLists, this`NameOf, this`KeyOf) && unchanged(politicians, elections)
      ensures unchanged(e`electionType, e`location, e`year, e`numberOfWinners)
    {
      ghost var lists := ElectionLists;
      StandingAfterRemove(lists, PoliticianLists, NameOf, e, i);
      e.candidates := RemoveAt(e.candidates, i);
      ElectionLists := lists[e := e.candidates];
      CandidatesKept(e);
    }

    /** The loop of `deleteCandidate` over the politician's own list: the first
        entry for election `el`, if any, is removed. */
    method Withdraw(p: Politician, el: Election)
      requires Valid() && p in PoliticianLists
      modifies this, p
      ensures Valid()
      ensures p.candidacies == RemoveFirstFor(old(p.candidacies), el)
      ensures PoliticianLists == old(PoliticianLists)[p := p.candidacies]
      ensures unchanged(this`ElectionLists, this`NameOf, this`KeyOf) && unchanged(politicians, elections)
      ensures unchanged(p`name, p`dateOfBirth, p`party, p`county, p`imageUrl)
    {
      var i := FindCandidacy(p.candidacies, el);
      if i >= 0 {
        Strike(p, i);
      }
    }

    /** `pcs.remove(i)` on a recorded politician's own list. */
    method Strike(p: Politician, i: nat)
      requires Valid() && p in PoliticianLists && i < |p.candidacies|
      modifies this, p
      ensures Valid()
      ensures p.candidacies == RemoveAt(old(p.candidacies), i)
      ensures PoliticianLists == old(PoliticianLists)[p := p.candidacies]
      ensures unchanged(this`ElectionLists, this`NameOf, this`KeyOf) && unchanged(politicians, elections)
      ensures unchanged(p`name, p`dateOfBirth, p`party, p`county, p`imageUrl)
    {
      ghost var lists := PoliticianLists;
      p.candidacies := RemoveAt(p.candidacies, i);
      PoliticianLists := lists[p := p.candidacies];
      TablesKept();
    }

    /** `getCandidatesSortedByVotes`: a new array with the election's candidates,
        most votes first; an empty one when the election is missing. The election's
        own list is left as it was. */
    method GetCandidatesSortedByVotes(electionType: string, year: int, location: string)
      returns (out: MyArray<CandidateEntry>)
      requires Valid() && Terminates(elections.Slots, JavaHashCode, ElectionKey(electionType, year, location), ForGet)
      ensures out.Valid() && fresh(out.Repr)
      ensures FindElection(ElectionKey(electionType, year, location)).None? ==> out.Contents == []
      ensures FindElection(ElectionKey(electionType, year, location)).Some? ==>
        multiset(out.Contents) == multiset(FindElection(ElectionKey(electionType, year, location)).value.candidates)
      ensures VotesDescending(out.Contents)
    {
      var e := GetElection(electionType, year, location);
      out := SortedCandidates(e);
    }

  }
}
