/** What keeps the manager consistent, stated on values: both tables keyed by the
    records' current keys (unique live keys, each record filed under its own name or
    composite key) and the candidate entries linked both ways. Each lemma here says
    that one operation's effect on those values, as the operation's contract states
    it, keeps them so; the manager's methods are proved against those effects. */
module Health {
  import opened Wrappers
  import opened Text
  import opened Probing
  import opened Model
  import opened Links
  import opened Keyed

  ghost predicate HealthyOf(ps: seq<Slot<string, Politician>>, es: seq<Slot<string, Election>>,
                            names: map<Politician, string>, ekeys: map<Election, string>,
                            cands: Candidates, cdcy: Candidacies)
  {
    KeyedBy(ps, names) && KeyedBy(es, ekeys) && Linked(cands, cdcy)
  }

  /** A record found under `k` in a keyed table has `k` as its key. */
  lemma FoundUnderOwnKey<V>(s: seq<Slot<string, V>>, keyOf: map<V, string>, k: string, v: V)
    requires |s| > 0 && KeyedBy(s, keyOf) && Lookup(s, JavaHashCode, k) == Some(v)
    ensures v in keyOf && keyOf[v] == k
  {
    LookupSound(s, JavaHashCode, k);
  }

  /** `addPolitician` past its guard: a new politician with no candidacies, filed
      under a name nobody holds. */
  lemma HealthyAfterAddPolitician(ps: seq<Slot<string, Politician>>, es: seq<Slot<string, Election>>,
                                  names: map<Politician, string>, ekeys: map<Election, string>,
                                  cands: Candidates, cdcy: Candidacies, name: string, p: Politician)
    requires HealthyOf(ps, es, names, ekeys, cands, cdcy) && p !in names && p !in cdcy
    requires Terminates(ps, JavaHashCode, name, ForPut) && ChainsIntact(ps, JavaHashCode)
    requires Lookup(ps, JavaHashCode, name) == None
    ensures HealthyOf(PutSlots(ps, JavaHashCode, name, p), es, names[p := name], ekeys, cands, cdcy[p := []])
  {
    UnknownIsUnheld(ps, names, p);
    KeyedAfterGuardedPut(ps, JavaHashCode, names, name, p);
    LinkedAddPolitician(cands, cdcy, p);
  }

  /** `deletePolitician`: the table stays keyed and the name is no longer found. */
  lemma HealthyAfterDeletePolitician(ps: seq<Slot<string, Politician>>, es: seq<Slot<string, Election>>,
                                     names: map<Politician, string>, ekeys: map<Election, string>,
                                     cands: Candidates, cdcy: Candidacies, name: string)
    requires HealthyOf(ps, es, names, ekeys, cands, cdcy) && Terminates(ps, JavaHashCode, name, ForGet)
    ensures HealthyOf(RemoveSlots(ps, JavaHashCode, name), es, names, ekeys, cands, cdcy)
    ensures Lookup(RemoveSlots(ps, JavaHashCode, name), JavaHashCode, name) == None
  {
    KeyedAfterRemove(ps, JavaHashCode, names, name);
    LookupAfterRemove(ps, JavaHashCode, name);
  }

  /** `updatePolitician` on the politician `p` found under `name`: re-filed under
      `newName` when that differs (and is free), kept in place otherwise. Either way
      `p` is found under `newName` afterwards, and no longer under `name`. */
  lemma HealthyAfterUpdatePolitician(ps: seq<Slot<string, Politician>>, es: seq<Slot<string, Election>>,
                                     names: map<Politician, string>, ekeys: map<Election, string>,
                                     cands: Candidates, cdcy: Candidacies,
                                     name: string, newName: string, p: Politician)
    requires HealthyOf(ps, es, names, ekeys, cands, cdcy) && ChainsIntact(ps, JavaHashCode)
    requires Terminates(ps, JavaHashCode, name, ForGet) && Lookup(ps, JavaHashCode, name) == Some(p)
    requires name != newName ==> Lookup(ps, JavaHashCode, newName) == None
    ensures var ps' := if name == newName then ps else RenameSlots(ps, JavaHashCode, name, newName, p);
      && HealthyOf(ps', es, names[p := newName], ekeys, cands, cdcy)
      && Lookup(ps', JavaHashCode, newName) == Some(p)
      && (name != newName ==> Lookup(ps', JavaHashCode, name) == None)
  {
    if name == newName {
      FoundUnderOwnKey(ps, names, name, p);
      assert names[p := newName] == names;
    } else {
      KeyedAfterRename(ps, JavaHashCode, names, name, newName, p);
    }
  }

  /** `addElection` past its guard: a new election with no candidates, filed under
      a key nobody holds. */
  lemma HealthyAfterAddElection(ps: seq<Slot<string, Politician>>, es: seq<Slot<string, Election>>,
                                names: map<Politician, string>, ekeys: map<Election, string>,
                                cands: Candidates, cdcy: Candidacies, key: string, e: Election)
    requires HealthyOf(ps, es, names, ekeys, cands, cdcy) && e !in ekeys && e !in cands
    requires Terminates(es, JavaHashCode, key, ForPut) && ChainsIntact(es, JavaHashCode)
    requires Lookup(es, JavaHashCode, key) == None
    ensures HealthyOf(ps, PutSlots(es, JavaHashCode, key, e), names, ekeys[e := key], cands[e := []], cdcy)
  {
    UnknownIsUnheld(es, ekeys, e);
    KeyedAfterGuardedPut(es, JavaHashCode, ekeys, key, e);
    LinkedAddElection(cands, cdcy, e);
  }

  /** `deleteElection`: the table stays keyed and the key is no longer found. */
  lemma HealthyAfterDeleteElection(ps: seq<Slot<string, Politician>>, es: seq<Slot<string, Election>>,
                                   names: map<Politician, string>, ekeys: map<Election, string>,
                                   cands: Candidates, cdcy: Candidacies, key: string)
    requires HealthyOf(ps, es, names, ekeys, cands, cdcy) && Terminates(es, JavaHashCode, key, ForGet)
    ensures HealthyOf(ps, RemoveSlots(es, JavaHashCode, key), names, ekeys, cands, cdcy)
    ensures Lookup(RemoveSlots(es, JavaHashCode, key), JavaHashCode, key) == None
  {
    KeyedAfterRemove(es, JavaHashCode, ekeys, key);
    LookupAfterRemove(es, JavaHashCode, key);
  }

  /** `updateElection` on the election `e` found under `key`: always removed and
      put back under `newKey`, which must be free unless it is `key` itself. */
  lemma HealthyAfterUpdateElection(ps: seq<Slot<string, Politician>>, es: seq<Slot<string, Election>>,
                                   names: map<Politician, string>, ekeys: map<Election, string>,
                                   cands: Candidates, cdcy: Candidacies,
                                   key: string, newKey: string, e: Election)
    requires HealthyOf(ps, es, names, ekeys, cands, cdcy) && ChainsIntact(es, JavaHashCode)
    requires Terminates(es, JavaHashCode, key, ForGet) && Lookup(es, JavaHashCode, key) == Some(e)
    requires newKey == key || Lookup(es, JavaHashCode, newKey) == None
    ensures var es' := RenameSlots(es, JavaHashCode, key, newKey, e);
      && HealthyOf(ps, es', names, ekeys[e := newKey], cands, cdcy)
      && Lookup(es', JavaHashCode, newKey) == Some(e)
      && (key != newKey ==> Lookup(es', JavaHashCode, key) == None)
  {
    KeyedAfterRename(es, JavaHashCode, ekeys, key, newKey, e);
  }

  /** `addCandidate` past its guards: the new entry joins both lists, provided the
      politician had no entry in that election yet. */
  lemma HealthyAfterAddCandidate(ps: seq<Slot<string, Politician>>, es: seq<Slot<string, Election>>,
                                 names: map<Politician, string>, ekeys: map<Election, string>,
                                 cands: Candidates, cdcy: Candidacies,
                                 p: Politician, e: Election, c: CandidateEntry)
    requires HealthyOf(ps, es, names, ekeys, cands, cdcy) && p in cdcy && e in cands
    requires c.politician == p && c.election == e
    requires forall k | 0 <= k < |cands[e]| :: cands[e][k].politician != p
    ensures HealthyOf(ps, es, names, ekeys, cands[e := cands[e] + [c]], cdcy[p := cdcy[p] + [c]])
  {
    LinkedAddCandidate(cands, cdcy, p, e, c);
  }

  /** `deleteCandidate` when the entry it removes from the election belongs to the
      politician `p` it then edits: the matching candidacy goes too. */
  lemma HealthyAfterDeleteCandidate(ps: seq<Slot<string, Politician>>, es: seq<Slot<string, Election>>,
                                    names: map<Politician, string>, ekeys: map<Election, string>,
                                    cands: Candidates, cdcy: Candidacies,
                                    p: Politician, e: Election, i: nat)
    requires HealthyOf(ps, es, names, ekeys, cands, cdcy) && p in cdcy && e in cands && i < |cands[e]|
    requires cands[e][i].politician == p
    ensures HealthyOf(ps, es, names, ekeys,
                      cands[e := RemoveAt(cands[e], i)], cdcy[p := RemoveFirstFor(cdcy[p], cands[e][i].election)])
  {
    assert cands[e][i] in cands[e];
    LinkedDeleteCandidate(cands, cdcy, p, e, i);
  }
}
