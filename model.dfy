/** The three record classes of elections/model: a `Politician` and an `Election`
    each own a growable list of `CandidateEntry` references, and one entry, shared
    by both lists, links a politician to an election. Getters are plain field
    reads. Each record's list is a `MyArray` that only that record refers to and
    that is changed in place; here it is a sequence field that the record's
    owner reassigns. */
module Model {

  class CandidateEntry {
    /** Assigned only by the constructor (no setter exists for either link). */
    const politician: Politician
    const election: Election
    var partyAtTheTime: string
    var votes: int

    constructor (politician: Politician, election: Election, partyAtTheTime: string, votes: int)
      ensures this.politician == politician && this.election == election
      ensures this.partyAtTheTime == partyAtTheTime && this.votes == votes
    {
      this.politician := politician;
      this.election := election;
      this.partyAtTheTime := partyAtTheTime;
      this.votes := votes;
    }

    method SetVotes(newVotes: int)
      modifies this
      ensures votes == newVotes && partyAtTheTime == old(partyAtTheTime)
    {
      votes := newVotes;
    }

    method SetPartyAtTheTime(newParty: string)
      modifies this
      ensures partyAtTheTime == newParty && votes == old(votes)
    {
      partyAtTheTime := newParty;
    }
  }

  class Politician {
    var name: string
    var dateOfBirth: string
    var party: string
    var county: string
    var imageUrl: string
    /** The politician's elections, one entry per candidacy. */
    var candidacies: seq<CandidateEntry>

    constructor (name: string, dateOfBirth: string, party: string, county: string, imageUrl: string)
      ensures this.name == name && this.dateOfBirth == dateOfBirth && this.party == party
      ensures this.county == county && this.imageUrl == imageUrl
      ensures candidacies == []
    {
      this.name := name;
      this.dateOfBirth := dateOfBirth;
      this.party := party;
      this.county := county;
      this.imageUrl := imageUrl;
      candidacies := [];
    }

    /** Appends without any duplicate check. */
    method AddCandidacy(entry: CandidateEntry)
      modifies this
      ensures candidacies == old(candidacies) + [entry]
      ensures name == old(name) && dateOfBirth == old(dateOfBirth) && party == old(party)
      ensures county == old(county) && imageUrl == old(imageUrl)
    {
      candidacies := candidacies + [entry];
    }

    /** Overwrites the five scalar fields; the candidacy list is untouched. */
    method UpdateDetails(name: string, dateOfBirth: string, party: string, county: string, imageUrl: string)
      modifies this
      ensures this.name == name && this.dateOfBirth == dateOfBirth && this.party == party
      ensures this.county == county && this.imageUrl == imageUrl
      ensures candidacies == old(candidacies)
    {
      this.name := name;
      this.dateOfBirth := dateOfBirth;
      this.party := party;
      this.county := county;
      this.imageUrl := imageUrl;
    }
  }

  class Election {
    var electionType: string
    var location: string
    var year: int
    var numberOfWinners: int
    /** The election's candidates, in registration order. */
    var candidates: seq<CandidateEntry>

    constructor (electionType: string, location: string, year: int, numberOfWinners: int)
      ensures this.electionType == electionType && this.location == location
      ensures this.year == year && this.numberOfWinners == numberOfWinners
      ensures candidates == []
    {
      this.electionType := electionType;
      this.location := location;
      this.year := year;
      this.numberOfWinners := numberOfWinners;
      candidates := [];
    }

    /** Appends; earlier entries keep their positions. */
    method AddCandidate(entry: CandidateEntry)
      modifies this
      ensures candidates == old(candidates) + [entry]
      ensures electionType == old(electionType) && location == old(location)
      ensures year == old(year) && numberOfWinners == old(numberOfWinners)
    {
      candidates := candidates + [entry];
    }

    /** Overwrites the four scalar fields; the candidate list is untouched. */
    method UpdateDetails(electionType: string, location: string, year: int, numberOfWinners: int)
      modifies this
      ensures this.electionType == electionType && this.location == location
      ensures this.year == year && this.numberOfWinners == numberOfWinners
      ensures candidates == old(candidates)
    {
      this.electionType := electionType;
      this.location := location;
      this.year := year;
      this.numberOfWinners := numberOfWinners;
    }
  }
}
