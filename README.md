# Election system core, in Dafny

This project models the data layer of a small election-records application
written in Java. It has four parts.

- **`MyArray<T>`**: a growable array with bounds-checked `get`/`set`, an `add`
  that doubles the backing array when it is full, and a `remove` that shifts later
  elements left.
- **`HashTable<K, V>`**: an open-addressing table of fixed capacity with linear
  probing and tombstones. `put` stops at the first `null` or tombstone. `get` and
  `remove` stop only at `null`.
- **`Sort`**: a selection sort of candidate entries by votes (most first) and three
  insertion sorts. One sorts politicians by name ignoring case. The other two sort
  elections by year, ascending and descending.
- **`ElectionSystemManager`**: politicians filed by name and elections filed
  under a composite key (`type + "-" + year + "-" + location`), each in a table of
  100 cells. A `CandidateEntry` links one politician to one election. The same
  entry object sits both in the politician's candidacy list and in the
  election's candidate list.

The Dafny follows the shape of the Java code.

- Classes whose fields the Java code updates become `class`es with `modifies`
  frames: `MyArray`, the table and its `Entry`, `Politician`, `Election`,
  `CandidateEntry` and the manager.
- The table's slot array has a ghost value view `Slots`. The functions of module
  `Probing` say what `put`, `get` and `remove` do to it, and the lemmas there give
  the table's guarantees.
- Every loop of the source is a `while`/`for` loop with invariants, proved against
  a specification function: the sorts, the probes, the scans of 100 cells,
  `findCandidateIndex` and the copy loop of `getCandidatesSortedByVotes`.
- The manager keeps ghost maps in step with the records:
  - `PoliticianLists` and `ElectionLists` give every record it created, with its
    current list;
  - `NameOf` and `KeyOf` give each record's current key.

  Its `Valid()` holds after every operation. Each operation states its exact
  effect on the tables and ghost maps.
- The lemmas of `Health` and `Links` prove the central invariant on those values.
  Both tables are keyed by the records' own keys. Every entry in an election's
  list is in its politician's list and vice versa, once. Each lemma shows that one
  operation's stated effect keeps the invariant, and under which guard.

Module layout, one file each: `Wrappers`, `Text`, `MyArrays`, `Probing`,
`HashTables`, `Model`, `Sorting`, `ElectionKeys`, `Keyed`, `Links`, `Searches`,
`Health` and `Manager`. The source has a second copy of the growable array in
`src/main/java/com/example/ca22025dataalgorithmsandstructures/structures/MyArray.java`
with the same fields and bodies: `MyArrays.MyArray` models both copies.

## Model

| member | source | states |
|---|---|---|
| MyArrays.MyArray.constructor | src/main/java/elections/structures/MyArray.java:22-25 | A new array is empty and its backing array has length 10. |
| MyArrays.MyArray.Size | src/main/java/elections/structures/MyArray.java:30-32 | The size is the number of stored elements, not the capacity. |
| MyArrays.MyArray.Get | src/main/java/elections/structures/MyArray.java:39-43 | Succeeds exactly when 0 <= index < size and then yields the element at that index; otherwise it is the out-of-bounds error. |
| MyArrays.MyArray.Set | src/main/java/elections/structures/MyArray.java:50-54 | Succeeds exactly when the index is in range. On success only that position changes; on failure nothing changes. The size and the backing array never change. |
| MyArrays.MyArray.Add | src/main/java/elections/structures/MyArray.java:62-65 | The contents become the old contents plus the value at the end. The backing length doubles exactly when the array was full. |
| MyArrays.MyArray.Remove | src/main/java/elections/structures/MyArray.java:73-81 | When the index is in range, that element is removed and later ones move one place left; otherwise the error is returned and nothing changes. The backing array is kept. |
| MyArrays.MyArray.EnsureCapacity | src/main/java/elections/structures/MyArray.java:90-99 | The contents are kept and there is room for one more. Exactly when the array was full, the backing array is a fresh one of twice the length; otherwise it is the same array. |
| HashTables.Entry.constructor | src/main/java/elections/structures/HashTable.java:23-27 | A new entry holds the key and value and is not deleted. |
| HashTables.HashTable.constructor | src/main/java/elections/structures/HashTable.java:45-49 | A new table has `capacity` null cells and size 0. |
| HashTables.HashTable.Put | src/main/java/elections/structures/HashTable.java:67-84 | The cells become `PutSlots` of the old cells. The size grows by one exactly when no live equal key was met before the first null or tombstone. |
| HashTables.HashTable.UpdateValue | src/main/java/elections/structures/HashTable.java:74-77 | The live equal key where the probe exits gets the new value; the size is kept. |
| HashTables.HashTable.StoreEntry | src/main/java/elections/structures/HashTable.java:82-83 | A fresh entry replaces the null or tombstone where the probe exits, and the size grows by one. |
| HashTables.HashTable.Get | src/main/java/elections/structures/HashTable.java:94-105 | Returns `Lookup`: the value of the live equal key where the probe stops, or null when it stops at a null cell. |
| HashTables.HashTable.GetFromIndex | src/main/java/elections/structures/HashTable.java:115-119 | Returns a value exactly for an in-range live cell, and that cell's value; otherwise null. |
| HashTables.HashTable.Remove | src/main/java/elections/structures/HashTable.java:127-140 | The cells become `RemoveSlots` of the old cells: the first live equal key before a null cell is tombstoned. The size drops by one exactly when one was found. |
| Probing.JavaAbs | src/main/java/elections/structures/HashTable.java:58 | `Math.abs` on an int: non-negative and equal to x or -x, except that MIN_VALUE stays negative. |
| Probing.JavaRem | src/main/java/elections/structures/HashTable.java:58 | Java's `%`: below the divisor in magnitude, with the sign of the dividend. |
| Probing.JavaStartSlot | src/main/java/elections/structures/HashTable.java:57-59 | `hash` as written: the slot is below the capacity in magnitude. It is negative exactly for hash code MIN_VALUE with a capacity that does not divide 2^31. |
| Probing.StartSlot | src/main/java/elections/structures/HashTable.java:57-59 | The intended home slot is a valid index below the capacity. |
| Probing.StartSlotAgrees | src/main/java/elections/structures/HashTable.java:57-59 | For every hash code except MIN_VALUE, `Math.abs(h) % capacity` as written equals the intended slot and lies in range. |
| Probing.JavaStartSlotAtMinValue | src/main/java/elections/structures/HashTable.java:57-59 | For MIN_VALUE the slot as written is -(2^31 mod capacity). It is negative exactly when the capacity does not divide 2^31, and it is -48 for 100 cells. |
| Probing.PosStep | src/main/java/elections/structures/HashTable.java:79 | `index = (index + 1) % capacity` moves the probe one step along its path. |
| Probing.HasEmptyTerminates | src/main/java/elections/structures/HashTable.java:97-103 | With a null cell anywhere in the table, every probe loop ends within one round. |
| Probing.FreeSlotTerminates | src/main/java/elections/structures/HashTable.java:71-80 | A `null` cell or a tombstone anywhere in the table makes `put`'s loop end for every key. |
| Probing.PutAfterRemoveTerminates | src/main/java/elections/model/ElectionSystemManager.java:99-101 | After `remove(k)`, `put` ends for every key: the removal left a tombstone or stopped at a `null` cell. So the rename paths need no extra assumption. |
| Probing.GetStopsPut | src/main/java/elections/structures/HashTable.java:71-80 | `put`'s loop stops wherever `get`'s loop for the same key does, if not earlier. |
| Probing.SlotValue | src/main/java/elections/structures/HashTable.java:115-119 | A cell yields a value exactly when it is in range and live, and then yields its value. |
| Probing.EmptyTable | src/main/java/elections/structures/HashTable.java:45-49 | A new table has no live entry, intact chains and unique keys, and with positive capacity it has a null cell. |
| Probing.LookupSound | src/main/java/elections/structures/HashTable.java:94-105 | What `get` returns is the value of a live entry for the key, at the slot where the probe exits. |
| Probing.LookupComplete | src/main/java/elections/structures/HashTable.java:94-105 | With intact chains, `get` finds every live key. With unique keys it returns that key's value. |
| Probing.LookupAbsent | src/main/java/elections/structures/HashTable.java:94-105 | A key without a live entry is not found. |
| Probing.LookupIsMapping | src/main/java/elections/structures/HashTable.java:94-105 | With intact chains and unique keys, `get` is exactly a lookup in the table's map. |
| Probing.LookupAfterPut | src/main/java/elections/structures/HashTable.java:67-105 | After `put(k, v)`, `get(k)` returns v. |
| Probing.LookupOtherAfterPut | src/main/java/elections/structures/HashTable.java:67-105 | With intact chains, `put(k, v)` leaves `get` of every other key unchanged. |
| Probing.PutKeepsChains | src/main/java/elections/structures/HashTable.java:67-84 | `put` keeps every entry reachable from its home slot without crossing a null cell. |
| Probing.RemoveKeepsChains | src/main/java/elections/structures/HashTable.java:127-140 | `remove` keeps every chain intact, because it only sets the deleted flag. |
| Probing.LookupAfterRemove | src/main/java/elections/structures/HashTable.java:94-140 | With unique live keys, `get(k)` returns null after `remove(k)`. |
| Probing.LookupOtherAfterRemove | src/main/java/elections/structures/HashTable.java:94-140 | `remove(k)` leaves every other key's lookup unchanged. |
| Probing.RemoveKeepsUnique | src/main/java/elections/structures/HashTable.java:127-140 | `remove` keeps live keys unique. |
| Probing.GuardedPutKeepsUnique | src/main/java/elections/structures/HashTable.java:67-84 | A `put` guarded by `get(k) == null` inserts a new entry and keeps live keys unique. |
| Probing.LiveCountAfterPut | src/main/java/elections/structures/HashTable.java:82-83 | The live count, which `size` tracks, grows by one exactly when `put` inserts. |
| Probing.LiveCountAfterRemove | src/main/java/elections/structures/HashTable.java:134-135 | The live count drops by one exactly when `remove` finds the key. |
| Probing.MappingAfterGuardedPut | src/main/java/elections/structures/HashTable.java:67-84 | A guarded `put(k, v)` turns the map m into m[k := v]. |
| Probing.MappingAfterRemove | src/main/java/elections/structures/HashTable.java:127-140 | `remove(k)` turns the map m into m - {k}. |
| Probing.PutAfterTombstoneDuplicates | src/main/java/elections/structures/HashTable.java:71-82 | On a table where key 2 is live behind a tombstone, `put(2, 30)` writes a second live entry for 2. `get` then yields 30, and after one `remove` `get` still yields the old value 20. |
| Text.Lower | src/main/java/elections/model/ElectionSystemManager.java:139 | ASCII `toLowerCase` of one character: the result is never upper case, an upper-case letter moves by 32, and anything else is kept. |
| Text.LowerStr | src/main/java/elections/model/ElectionSystemManager.java:139 | `toLowerCase` keeps the length and folds each character. |
| Text.LowerStrIdempotent | src/main/java/elections/model/ElectionSystemManager.java:139 | Folding twice is folding once. |
| Text.EqualsIgnoreCaseIff | src/main/java/elections/model/ElectionSystemManager.java:154 | `equalsIgnoreCase` holds exactly for equal lengths and equal characters after folding. |
| Text.CompareAntisymmetric | src/main/java/elections/structures/Sort.java:72 | `compareToIgnoreCase(a, b)` is the negation of `compareToIgnoreCase(b, a)`. |
| Text.CompareZeroIff | src/main/java/elections/structures/Sort.java:72 | The comparison is zero exactly when the strings are equal ignoring case. |
| Text.NameLeTotal | src/main/java/elections/structures/Sort.java:72 | Any two names are ordered one way or the other. |
| Text.NameLeTransitive | src/main/java/elections/structures/Sort.java:72 | The "not after" order on names is transitive. |
| Text.Contains | src/main/java/elections/model/ElectionSystemManager.java:139 | `contains` holds exactly when the part occurs at some position. |
| Text.DigitsAreDigits | src/main/java/elections/model/ElectionSystemManager.java:218 | Every character of a decimal rendering is a digit. |
| Text.IntToStringDashes | src/main/java/elections/model/ElectionSystemManager.java:218 | The decimal rendering of a year holds a dash only at its front, and only for a negative year. |
| Text.DigitsRoundTrip | src/main/java/elections/model/ElectionSystemManager.java:218 | Reading back the digits of n yields n. |
| Text.IntToStringRoundTrip | src/main/java/elections/model/ElectionSystemManager.java:218 | Parsing the rendering of n yields n. |
| Text.IntToStringInjective | src/main/java/elections/model/ElectionSystemManager.java:218 | Different years render differently. |
| Text.WrapInt | src/main/java/elections/structures/HashTable.java:58 | Wrapping to a Java int gives a 32-bit value congruent to the input mod 2^32. |
| Text.Utf16 | src/main/java/elections/structures/HashTable.java:58 | The UTF-16 code units of a Java string for one character. Below U+10000 that is the character itself. Above it, a high surrogate and a low surrogate that decode back to the character. |
| Text.JavaHashCode | src/main/java/elections/structures/HashTable.java:58 | `String.hashCode` is a 32-bit int. |
| Text.HashCodeStep | src/main/java/elections/structures/HashTable.java:58 | Appending a character below U+10000 turns hash h into 31 * h + c, wrapped to 32 bits. A character above U+FFFF is two such steps, high surrogate first, as Java hashes the code units. |
| Text.HashCodeOfSupplementary | src/main/java/elections/structures/HashTable.java:58 | The one-character string U+1F600 hashes to 31 * 0xD83D + 0xDE00 = 1772899, the hash of its two surrogates. |
| Text.HashCodeReachesMinValue | src/main/java/elections/structures/HashTable.java:57-59 | The string "polygenelubricants" has hash code MIN_VALUE, so a politician name can reach the negative start slot. |
| ElectionKeys.ElectionKey | src/main/java/elections/model/ElectionSystemManager.java:217-219 | `buildElectionKey`: the key starts with the type and a dash and ends with the location, and its length is the three parts' lengths plus two dashes, the year written in decimal. |
| ElectionKeys.ElectionKeyInjective | src/main/java/elections/model/ElectionSystemManager.java:217-219 | When neither type contains a dash, equal composite keys mean equal type, year and location. |
| ElectionKeys.ElectionKeyCollision | src/main/java/elections/model/ElectionSystemManager.java:217-219 | Without that condition, two different elections share a key: ("A-1", 2, "x") and ("A", 1, "2-x"). |
| Model.CandidateEntry.constructor | src/main/java/elections/model/CandidateEntry.java:46-51 | A new entry holds its politician, election, party at the time and votes. |
| Model.CandidateEntry.SetVotes | src/main/java/elections/model/CandidateEntry.java:86-88 | Only the vote count changes. |
| Model.CandidateEntry.SetPartyAtTheTime | src/main/java/elections/model/CandidateEntry.java:95-97 | Only the party at the time changes. |
| Model.Politician.constructor | src/main/java/elections/model/Politician.java:42-54 | A new politician holds the five details and no candidacies. |
| Model.Politician.AddCandidacy | src/main/java/elections/model/Politician.java:107-109 | The entry is appended to the candidacies without a duplicate check; the details are kept. |
| Model.Politician.UpdateDetails | src/main/java/elections/model/Politician.java:117-126 | The five details are overwritten and the candidacies are kept. |
| Model.Election.constructor | src/main/java/elections/model/Election.java:58-66 | A new election holds the four details and no candidates. |
| Model.Election.AddCandidate | src/main/java/elections/model/Election.java:110-112 | The entry is appended to the candidates; the details are kept. |
| Model.Election.UpdateDetails | src/main/java/elections/model/Election.java:122-127 | The four details are overwritten and the candidates are kept. |
| Sorting.SortCandidatesByVotesDesc | src/main/java/elections/structures/Sort.java:28-48 | Afterwards the array is in non-increasing vote order and holds the same entries (as a multiset). |
| Sorting.SelectionPass | src/main/java/elections/structures/Sort.java:32-46 | One pass keeps the multiset and extends the selected prefix by one. |
| Sorting.FindHighest | src/main/java/elections/structures/Sort.java:32-39 | The index of the first maximal vote count in the unsorted suffix. |
| Sorting.SwapEntries | src/main/java/elections/structures/Sort.java:42-46 | Exchanges the two positions through `get` and `set`; nothing else moves. |
| Sorting.SwapPermutes | src/main/java/elections/structures/Sort.java:42-46 | A swap keeps the multiset. |
| Sorting.SelectionStep | src/main/java/elections/structures/Sort.java:31-47 | Swapping a maximum of the suffix into the sorted position extends the sorted prefix: it stays in order, and it is no smaller than the rest. |
| Sorting.SelectedAll | src/main/java/elections/structures/Sort.java:31 | Once at most one element is left outside the prefix, the whole array is sorted. |
| Sorting.SortPoliticiansByName | src/main/java/elections/structures/Sort.java:63-80 | Afterwards the names are in case-insensitive ascending order and the array holds the same politicians. The sort is stable: for every name, the politicians bearing it (ignoring case) keep their order. An array already in order is left unchanged, so sorting twice equals sorting once. |
| Sorting.InsertByName | src/main/java/elections/structures/Sort.java:66-79 | One pass extends the sorted prefix by one and keeps the multiset. For every name it keeps the order of the politicians bearing that name. When the new element is already in place, nothing changes. |
| Sorting.NamePassKeeps | src/main/java/elections/structures/Sort.java:71-78 | The pass moves the element only past names that compare greater, none of which equals it ignoring case. So every name keeps its subsequence. |
| Sorting.ShiftGreaterNames | src/main/java/elections/structures/Sort.java:71-75 | The shifting loop stops at the first position whose left neighbour is not greater. Every name it moved is greater. |
| Sorting.ShiftOne | src/main/java/elections/structures/Sort.java:74 | `a.set(i, a.get(i - 1))` widens the shifted block by one position. |
| Sorting.InsertPermutes | src/main/java/elections/structures/Sort.java:67-78 | Dropping the extracted element into the hole keeps the multiset. A pass that shifted nothing leaves the array as it was. |
| Sorting.StringInsertion | src/main/java/elections/structures/Sort.java:66-79 | Inserting at the loop's stopping point leaves the prefix, now one longer, in order. |
| Sorting.SortElectionsByYearAsc | src/main/java/elections/structures/Sort.java:91-102 | Afterwards the years ascend and the array holds the same elections. The sort is stable: for every year, the elections held in it keep their order. An array already in order is left unchanged. |
| Sorting.InsertByYearAsc | src/main/java/elections/structures/Sort.java:92-101 | One pass extends the ascending prefix by one and keeps the multiset. For every year it keeps the order of the elections held in it. |
| Sorting.InsertKeeps | src/main/java/elections/structures/Sort.java:97-100 | An insertion pass moves one element left past elements whose keys all differ from its own. Afterwards every key's subsequence is what it was. |
| Sorting.ShiftLaterYears | src/main/java/elections/structures/Sort.java:97-99 | The loop moves right exactly the later years before the element and stops at one that is not later. |
| Sorting.AscendingInsertion | src/main/java/elections/structures/Sort.java:92-101 | Inserting at that point leaves the longer prefix ascending. |
| Sorting.SortElectionsByYearDesc | src/main/java/elections/structures/Sort.java:113-124 | Afterwards the years descend and the array holds the same elections. The sort is stable: for every year, the elections held in it keep their order. An array already in order is left unchanged. |
| Sorting.InsertByYearDesc | src/main/java/elections/structures/Sort.java:114-123 | One pass extends the descending prefix by one and keeps the multiset. For every year it keeps the order of the elections held in it. |
| Sorting.ShiftEarlierYears | src/main/java/elections/structures/Sort.java:119-121 | The loop moves right exactly the earlier years before the element and stops at one that is not earlier. |
| Sorting.DescendingInsertion | src/main/java/elections/structures/Sort.java:114-123 | Inserting at that point leaves the longer prefix descending. |
| Searches.PoliticianHitsStep | src/main/java/elections/model/ElectionSystemManager.java:136-142 | Scanning one more cell appends its politician exactly when the cell is live and passes the test. |
| Searches.ElectionHitsStep | src/main/java/elections/model/ElectionSystemManager.java:299-305 | Scanning one more cell appends its election exactly when the cell is live and passes the test. |
| Searches.PoliticianHitsMembers | src/main/java/elections/model/ElectionSystemManager.java:114-174 | A politician is in a listing or search result exactly when a live cell holds it and it passes the test. |
| Searches.ElectionHitsMembers | src/main/java/elections/model/ElectionSystemManager.java:279-321 | An election is in a listing or search result exactly when a live cell holds it and it passes the test. |
| Searches.AllPoliticiansCount | src/main/java/elections/model/ElectionSystemManager.java:114-122 | `getAllPoliticians` yields as many politicians as the table has live entries. |
| Searches.AllElectionsCount | src/main/java/elections/model/ElectionSystemManager.java:279-287 | `getAllElections` yields as many elections as the table has live entries. |
| Keyed.FoundOnce | src/main/java/elections/model/ElectionSystemManager.java:69-71 | In a keyed table, the record found under k is in no other live cell. |
| Keyed.KeyedAfterGuardedPut | src/main/java/elections/model/ElectionSystemManager.java:53-64 | Filing a record held nowhere under an absent key keeps the table keyed, with that record's key recorded. |
| Keyed.KeyedAfterRemove | src/main/java/elections/model/ElectionSystemManager.java:78-82 | `remove` keeps the table keyed. |
| Keyed.KeyedAfterRename | src/main/java/elections/model/ElectionSystemManager.java:90-106 | Re-filing the found record under a free key (remove, then put) keeps the table keyed. The record is then found under the new key and not under the old one. |
| Keyed.MappingAfterRename | src/main/java/elections/model/ElectionSystemManager.java:262-274 | As a map, re-filing moves the record from the old key to the new one. |
| Links.FirstMatch | src/main/java/elections/model/ElectionSystemManager.java:356-367 | The first position whose name equals the given one ignoring case, or -1 exactly when there is none. |
| Links.ElectionIndex | src/main/java/elections/model/ElectionSystemManager.java:407-412 | The first position of an entry for the election, or -1 exactly when there is none. |
| Links.RemoveAt | src/main/java/elections/structures/MyArray.java:73-81 | Removing position i: one shorter, earlier elements kept, later ones moved one place left. |
| Links.RemoveFirstFor | src/main/java/elections/model/ElectionSystemManager.java:406-412 | The politician's list without its first entry for the election. With no such entry, the list is unchanged. |
| Links.LinkedEmpty | src/main/java/elections/model/ElectionSystemManager.java:36-40 | An empty manager is linked. |
| Links.LinkedAddPolitician | src/main/java/elections/model/ElectionSystemManager.java:53-64 | A new politician with no candidacies keeps the links intact. |
| Links.LinkedAddElection | src/main/java/elections/model/ElectionSystemManager.java:224-236 | A new election with no candidates keeps the links intact. |
| Links.LinkedAddCandidate | src/main/java/elections/model/ElectionSystemManager.java:345-347 | One entry appended to both lists keeps the links intact, when the politician had no entry in that election. |
| Links.EntryFoundInCandidacies | src/main/java/elections/model/ElectionSystemManager.java:402-412 | In a linked structure, the politician's first entry for the election is exactly the entry taken from the election's list. |
| Links.LinkedDeleteCandidate | src/main/java/elections/model/ElectionSystemManager.java:392-414 | When the matched entry belongs to the politician found by name, both removals take out that same entry and the links stay intact. |
| Links.DanglingAfterMismatch | src/main/java/elections/model/ElectionSystemManager.java:392-414 | When the entry matched ignoring case belongs to another politician, the links break: that entry is dropped from the election's list but stays in its politician's list. |
| Health.FoundUnderOwnKey | src/main/java/elections/model/ElectionSystemManager.java:69-71 | In a keyed table, a record found under k has k as its own key. |
| Health.HealthyAfterAddPolitician | src/main/java/elections/model/ElectionSystemManager.java:53-64 | `addPolitician` past its guard keeps both tables keyed and the links intact. |
| Health.HealthyAfterDeletePolitician | src/main/java/elections/model/ElectionSystemManager.java:78-82 | `deletePolitician` keeps the manager healthy, and the name is no longer found. |
| Health.HealthyAfterUpdatePolitician | src/main/java/elections/model/ElectionSystemManager.java:90-106 | `updatePolitician` onto an unchanged or free name keeps the manager healthy. The politician is found under the new name and no longer under the old one. |
| Health.HealthyAfterAddElection | src/main/java/elections/model/ElectionSystemManager.java:224-236 | `addElection` past its guard keeps the manager healthy. |
| Health.HealthyAfterDeleteElection | src/main/java/elections/model/ElectionSystemManager.java:248-254 | `deleteElection` keeps the manager healthy, and the key is no longer found. |
| Health.HealthyAfterUpdateElection | src/main/java/elections/model/ElectionSystemManager.java:262-274 | `updateElection` onto the same or a free key keeps the manager healthy. The election is found under the new key and no longer under the old one. |
| Health.HealthyAfterAddCandidate | src/main/java/elections/model/ElectionSystemManager.java:345-347 | Appending one entry to both lists keeps the manager healthy, when the politician had no entry in the election. |
| Health.HealthyAfterDeleteCandidate | src/main/java/elections/model/ElectionSystemManager.java:399-412 | `deleteCandidate` keeps the manager healthy when the matched entry belongs to the politician found by name. |
| Manager.HealthyAfterGuardedAdd | src/main/java/elections/model/ElectionSystemManager.java:333-349 | In a healthy manager, `addCandidate`'s guards imply that the politician has no entry in the election yet, so the addition keeps the manager healthy. |
| Manager.FirstMatchIs | src/main/java/elections/model/ElectionSystemManager.java:359-366 | An index that meets the loop's exit conditions is the first match. |
| Manager.FindCandidacy | src/main/java/elections/model/ElectionSystemManager.java:407-412 | The index the loop over the politician's list stops at is the first entry for the election, or -1. |
| Manager.SortedCandidates | src/main/java/elections/model/ElectionSystemManager.java:430-441 | A fresh array: empty when the election is missing, otherwise holding the same entries as the election's list, most votes first. |
| Manager.ElectionSystemManager.constructor | src/main/java/elections/model/ElectionSystemManager.java:36-40 | Two empty tables of 100 cells; the manager is valid and healthy. |
| Manager.ElectionSystemManager.GetPolitician | src/main/java/elections/model/ElectionSystemManager.java:69-71 | Returns what `get(name)` finds: a recorded politician who, in a keyed table, bears that name. |
| Manager.ElectionSystemManager.AddPolitician | src/main/java/elections/model/ElectionSystemManager.java:53-64 | Succeeds exactly when the name was not found. On success a fresh politician with the given details and no candidacies is put under the name; otherwise nothing changes. |
| Manager.ElectionSystemManager.InsertPolitician | src/main/java/elections/model/ElectionSystemManager.java:61-62 | The new politician is put under the name and found there afterwards. |
| Manager.ElectionSystemManager.NewPolitician | src/main/java/elections/model/ElectionSystemManager.java:61 | A fresh politician with the given details, recorded with no candidacies; the tables are untouched. |
| Manager.ElectionSystemManager.FilePolitician | src/main/java/elections/model/ElectionSystemManager.java:62 | The politician table becomes `PutSlots` of the old one; nothing else changes. |
| Manager.ElectionSystemManager.UnfilePolitician | src/main/java/elections/model/ElectionSystemManager.java:80 | The politician table becomes `RemoveSlots` of the old one; nothing else changes. |
| Manager.ElectionSystemManager.DeletePolitician | src/main/java/elections/model/ElectionSystemManager.java:78-82 | Succeeds exactly when the name was found, and then removes it. The politician's entries and the election table are left as they are. |
| Manager.ElectionSystemManager.RenamePolitician | src/main/java/elections/model/ElectionSystemManager.java:100 | The details are overwritten and the new name is noted; the candidacies are kept. |
| Manager.ElectionSystemManager.UpdatePolitician | src/main/java/elections/model/ElectionSystemManager.java:90-106 | Succeeds exactly when the name was found. The details are overwritten either way. When the name changed, the cells become remove-then-put under the new name; otherwise they stay as they were. |
| Manager.ElectionSystemManager.ScanPoliticians | src/main/java/elections/model/ElectionSystemManager.java:117-120 | The loop over cells 0 to 99 yields exactly the live politicians that pass the test, in cell order. |
| Manager.ElectionSystemManager.GetAllPoliticians | src/main/java/elections/model/ElectionSystemManager.java:114-122 | Every live politician, in cell order. |
| Manager.ElectionSystemManager.SearchPoliticiansByName | src/main/java/elections/model/ElectionSystemManager.java:133-144 | Exactly the live politicians whose lower-cased name contains the lower-cased part, in cell order. |
| Manager.ElectionSystemManager.SearchPoliticiansByParty | src/main/java/elections/model/ElectionSystemManager.java:149-159 | Exactly the live politicians whose party equals the given one ignoring case, in cell order. |
| Manager.ElectionSystemManager.SearchPoliticiansByCounty | src/main/java/elections/model/ElectionSystemManager.java:164-174 | Exactly the live politicians whose county equals the given one ignoring case, in cell order. |
| Manager.ElectionSystemManager.SearchPoliticiansSorted | src/main/java/elections/model/ElectionSystemManager.java:183-205 | The same hits as the unsorted search, in case-insensitive name order. Hits whose names are equal ignoring case stay in cell order. |
| Manager.ElectionSystemManager.SearchPoliticiansByNameSorted | src/main/java/elections/model/ElectionSystemManager.java:183-187 | The name-search hits, in name order. Hits with equal names stay in cell order. |
| Manager.ElectionSystemManager.SearchPoliticiansByPartySorted | src/main/java/elections/model/ElectionSystemManager.java:192-196 | The party-search hits, in name order. Hits with equal names stay in cell order. |
| Manager.ElectionSystemManager.SearchPoliticiansByCountySorted | src/main/java/elections/model/ElectionSystemManager.java:201-205 | The county-search hits, in name order. Hits with equal names stay in cell order. |
| Manager.ElectionSystemManager.GetElection | src/main/java/elections/model/ElectionSystemManager.java:241-243 | Returns what `get` finds under the composite key: a recorded election whose own key, in a keyed table, is that key. |
| Manager.ElectionSystemManager.AddElection | src/main/java/elections/model/ElectionSystemManager.java:224-236 | Succeeds exactly when the key was not found. On success a fresh election with the given details and no candidates is put under the key; otherwise nothing changes. |
| Manager.ElectionSystemManager.InsertElection | src/main/java/elections/model/ElectionSystemManager.java:233-234 | The new election is put under the key and found there afterwards. |
| Manager.ElectionSystemManager.NewElection | src/main/java/elections/model/ElectionSystemManager.java:233 | A fresh election with the given details, recorded with no candidates; the tables are untouched. |
| Manager.ElectionSystemManager.FileElection | src/main/java/elections/model/ElectionSystemManager.java:234 | The election table becomes `PutSlots` of the old one; nothing else changes. |
| Manager.ElectionSystemManager.UnfileElection | src/main/java/elections/model/ElectionSystemManager.java:252 | The election table becomes `RemoveSlots` of the old one; nothing else changes. |
| Manager.ElectionSystemManager.DeleteElection | src/main/java/elections/model/ElectionSystemManager.java:248-254 | Succeeds exactly when the key was found, and then removes it. The entries stay in the politicians' lists. |
| Manager.ElectionSystemManager.RekeyElection | src/main/java/elections/model/ElectionSystemManager.java:271 | The details are overwritten and the key they build is noted; the candidates are kept. |
| Manager.ElectionSystemManager.UpdateElection | src/main/java/elections/model/ElectionSystemManager.java:262-274 | Succeeds exactly when the old key was found. On success the election is removed, its details are overwritten and it is put under the key built from the new details, even when that key is the old one. |
| Manager.ElectionSystemManager.ScanElections | src/main/java/elections/model/ElectionSystemManager.java:282-285 | The loop over cells 0 to 99 yields exactly the live elections that pass the test, in cell order. |
| Manager.ElectionSystemManager.GetAllElections | src/main/java/elections/model/ElectionSystemManager.java:279-287 | Every live election, in cell order. |
| Manager.ElectionSystemManager.SearchElectionsByYear | src/main/java/elections/model/ElectionSystemManager.java:296-306 | Exactly the live elections of that year, in cell order. |
| Manager.ElectionSystemManager.SearchElectionsByType | src/main/java/elections/model/ElectionSystemManager.java:311-321 | Exactly the live elections whose type equals the given one ignoring case, in cell order. |
| Manager.ElectionSystemManager.FindCandidateIndex | src/main/java/elections/model/ElectionSystemManager.java:356-367 | The first candidate whose politician's name equals the given one ignoring case, with none before it; -1 exactly when there is none. |
| Manager.ElectionSystemManager.Spot | src/main/java/elections/model/ElectionSystemManager.java:376-379 | The election found under the key and the index of its first candidate matching the name, or -1. |
| Manager.ElectionSystemManager.Locate | src/main/java/elections/model/ElectionSystemManager.java:337-343 | The politician found by exact name, the election found by key and, when both exist, the first candidate matching the name ignoring case (-1 otherwise). |
| Manager.ElectionSystemManager.Enlist | src/main/java/elections/model/ElectionSystemManager.java:345-346 | A fresh entry for p and e, appended to p's list. The politician's name, date of birth, party, county and image URL are kept. |
| Manager.ElectionSystemManager.Register | src/main/java/elections/model/ElectionSystemManager.java:347 | The entry is appended to the election's list. The election's type, location, year and number of winners are kept. |
| Manager.ElectionSystemManager.AddCandidate | src/main/java/elections/model/ElectionSystemManager.java:333-349 | Succeeds exactly when the politician and the election exist and no candidate of the election matches the name ignoring case. On success one fresh entry with the given party and votes ends both lists, and both records keep their details. Otherwise the manager and every recorded politician and election are unchanged. |
| Manager.ElectionSystemManager.EnrollCandidate | src/main/java/elections/model/ElectionSystemManager.java:345-347 | One fresh entry linking p and e, appended to both lists. The details of both records are kept: the politician's five fields and the election's four. |
| Manager.ElectionSystemManager.Enroll | src/main/java/elections/model/ElectionSystemManager.java:345-347 | The guarded branch of `addCandidate`: the manager stays valid and the last entry of the election's list is a fresh one linking p and e with the given party and votes, appended to both lists. The details of both records are kept: the politician's five fields and the election's four. |
| Manager.ElectionSystemManager.UpdateCandidate | src/main/java/elections/model/ElectionSystemManager.java:372-386 | Succeeds exactly when the election exists and a candidate matches the name. On success the first matching entry gets the new party and votes; only that entry may change. |
| Manager.ElectionSystemManager.Amend | src/main/java/elections/model/ElectionSystemManager.java:382-384 | The entry's party at the time and votes are overwritten. |
| Manager.ElectionSystemManager.DeleteCandidate | src/main/java/elections/model/ElectionSystemManager.java:392-414 | Succeeds exactly when the election, the politician found by exact name and a matching candidate all exist. The matched entry's index is removed from the election's list. The found politician's first entry for that election is removed from its list. Both records keep their details. Otherwise the manager and every recorded politician and election are unchanged. |
| Manager.ElectionSystemManager.DropCandidate | src/main/java/elections/model/ElectionSystemManager.java:402-412 | Removes entry i from the election's list, then the politician's first entry for that entry's election. The details of both records are kept: the politician's five fields and the election's four. |
| Manager.ElectionSystemManager.Unregister | src/main/java/elections/model/ElectionSystemManager.java:403 | `remove(i)` on the election's own list. The election's type, location, year and number of winners are kept. |
| Manager.ElectionSystemManager.Withdraw | src/main/java/elections/model/ElectionSystemManager.java:406-412 | The politician's first entry for the election, if any, is removed from its list. The politician's name, date of birth, party, county and image URL are kept. |
| Manager.ElectionSystemManager.Strike | src/main/java/elections/model/ElectionSystemManager.java:409 | `remove(i)` on the politician's own list. The politician's name, date of birth, party, county and image URL are kept. |
| Manager.ElectionSystemManager.GetCandidatesSortedByVotes | src/main/java/elections/model/ElectionSystemManager.java:426-442 | A fresh array: empty when the election is missing, otherwise with the election's candidates sorted most votes first. The election's own list is untouched. |

## Left out

- Saving and loading (`saveToFile`, `loadFromFile`, lines 451-461 of the manager) are file I/O through an XML library that is not part of this model.
- The getters of `Politician`, `Election` and `CandidateEntry` are plain field reads in the model.
- A record's list is a `MyArray` that only its owner refers to. Here it is a `seq` field reassigned in place. `MyArray` itself is modelled with its array.
- Case folding, `equalsIgnoreCase`, `compareToIgnoreCase` and `toLowerCase` cover ASCII letters only. Java's Unicode case mapping is not modelled.
- Text.CompareIgnoreCase: strings are sequences of Unicode characters. Java compares UTF-16 code units, so a character above U+FFFF sorts before U+E000 to U+FFFF in the source but after them here. The sign of every other comparison is the same. `String.hashCode` is computed over the code units (`Text.Utf16`).
- Integers are unbounded except in `String.hashCode` and `Math.abs`, where the 32-bit behaviour matters and is written out. Vote counts, years and sizes do not wrap.
- Every lookup, insertion and removal requires that its probe loop ends (`Terminates`). The source loops for ever when a table has no `null` cell left, and the model does not capture that divergence.
- `Put` can store a second live entry for a key that is live behind a tombstone (`Probing.PutAfterTombstoneDuplicates`). The guarded insertions of `addPolitician` and `addElection` check `get(key) == null` first and cannot do this. The `put` after `remove` in `updatePolitician` and `updateElection` has no such guard, so a rename onto a key that is held can duplicate it. The guarantees that need unique keys state it as a premise.
- The scans walk cells 0 to 99 whatever the capacity. The model ties that bound to the table's capacity of 100, which the constructor sets.
- Election keys collide when a type contains a dash (`ElectionKeys.ElectionKeyCollision`). The injectivity lemma assumes dash-free types.
- Manager.ElectionSystemManager.UpdatePolitician: renaming onto a name that another politician holds is not refused by the source. As with `UpdateElection`, the `put` either overwrites the holder or stores a second live entry behind a tombstone. The method's contract states the resulting cells exactly; `Health.HealthyAfterUpdatePolitician` proves health only for a free or unchanged name.
- Manager.ElectionSystemManager.UpdateElection: a new key that another election holds is not refused by the source. The `put` overwrites the holder when the holder's cell comes before any tombstone on the probe path. Otherwise it stops at the tombstone and the key is held twice (`Probing.PutAfterTombstoneDuplicates`). The method's contract states the resulting cells exactly. Health (`Health.HealthyAfterUpdateElection`) is proved only for a free or unchanged key.
- Manager.ElectionSystemManager.DeletePolitician: the politician's entries stay in their elections' lists. The links are stated only over recorded records, which a delete does not forget. `DeleteElection` is the same.
- Manager.ElectionSystemManager.DeleteCandidate: when the candidate matched ignoring case belongs to another politician, the links break (`Links.DanglingAfterMismatch`). Health is proved only when the match is the found politician (`Health.HealthyAfterDeleteCandidate`).
- Manager.ElectionSystemManager.AddCandidate: the contracts of the manager's methods state their exact effects and `Valid()`. That the effects keep the manager healthy is proved by the `Health` lemmas and `Manager.HealthyAfterGuardedAdd`. It is not repeated as a postcondition of each method.
- Manager.ElectionSystemManager.UpdateCandidate: the name guards of this method, `AddCandidate` and `DeleteCandidate` read each candidate's name through the ghost map `NameOf`. `Valid()` keeps that map equal to the politicians' names.
- Manager.ElectionSystemManager.ScanPoliticians: the listings and searches are stated on the table as it was at the call. `ScanElections` is the same.
- Manager.ElectionSystemManager.Withdraw: the source's `for` loop with `break` is written as a search (`Manager.FindCandidacy`) followed by the removal, which has the same effect.
- HashTables.HashTable: every table computes home slots with the corrected `Probing.StartSlot`. So for a key whose hash code is MIN_VALUE, such as `addPolitician("polygenelubricants", …)`, the model files the key at slot 48. The source throws ArrayIndexOutOfBoundsException there (see "## Findings").
- Text.ParseInt is defined on every non-empty string. Only its value on the output of `IntToString` is specified.

## Findings

| source | as written | input that shows it | evidently intended | confidence | as-written member | corrected member |
|---|---|---|---|---|---|---|
| src/main/java/elections/structures/HashTable.java:57-59 | `hash` returns `Math.abs(key.hashCode()) % capacity`; for hash code Integer.MIN_VALUE, `Math.abs` stays negative and the slot is -48 for 100 cells, an out-of-range array index | a politician named "polygenelubricants" (hash code MIN_VALUE) passed to `addPolitician` | a slot in [0, capacity) for every key, as the doc comment says | not executed | Probing.JavaStartSlotAtMinValue | Probing.StartSlot |
