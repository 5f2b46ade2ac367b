# pdbdiff comparator, modelled in Dafny

`pdbdiff` compares two networks (autonomous systems) as recorded in the
PeeringDB registry. For each network it reads the list of facilities the
network is present at (`netfac_set`, keyed by `fac_id`) and the list of
exchange LANs it is connected to (`netixlan_set`, keyed by `ixlan_id`). It
then reports the facilities and exchanges unique to the first network, those
unique to the second, and those the two share. Command-line switches pick
which of these tables are printed.

This project models:

- the comparator class `PeeringDBDiff`:
  - the key sets built once in its constructor;
  - the helpers `__find`, `__unique` and `__common`;
  - the six accessors.
- the script's rule for which tables to print and in what order;
- the 60-character cut applied to facility names.

The source is pure, so the model is made of datatypes, functions and lemmas:

- `key_filter.dfy` (module `KeyFilter`): the key set of a list, and the
  filter that keeps the entries whose key is in a set. It is generic over the
  entry type, and a `key` function stands for the field name the source passes
  as a string (`fac_id` / `ixlan_id`).
- `pdb_diff.dfy` (module `PeeringDbDiff`): typed facility and exchange-LAN
  entries, the fetched record, the comparator state `Diff` with its four key
  sets, the six accessors, and the properties relating them.
- `report.dfy` (module `Report`): the flags, the tables they select, the
  printing order, the name truncation and the rows of each table.

Key facts proved:

- Every accessor result is a subsequence of its owning list: same relative
  order, duplicates kept.
- The first network's list splits exactly between its unique and its common
  entries.
- The unique key sets of the two networks are disjoint.
- The common key set is the same whichever network is first, although the
  common entries always come from the first network's list.
- The flags select exactly the tables the script's conditionals
  (pdbdiff.py:113-175) select, in the order exchanges, facilities, first,
  second. No other list of tables satisfies both of those conditions.
  The conditionals, not the help text, decide: in common mode `--first` and
  `--second` are ignored, although their help (pdbdiff.py:100-104) says they
  restrict the output to one network.

## Model

| member | source | states |
|---|---|---|
| `KeyFilter.KeySet` | pdbdiff.py:13-20 | a key is in the set exactly when some entry of the list carries it |
| `KeyFilter.Find` | pdbdiff.py:82-84 | the result is no longer than the list, and an entry is in it exactly when it is in the list and its key is one of the asked-for values |
| `KeyFilter.FindCounts` | pdbdiff.py:82-84 | each kept entry occurs in the result as many times as in the list (duplicates are kept, not merged); other entries occur zero times |
| `KeyFilter.FindAtKeptIndices` | pdbdiff.py:82-84 | the result is the list read at the strictly increasing positions whose key is asked for, and at all of them: source order is preserved |
| `KeyFilter.FindIsSubsequence` | pdbdiff.py:82-84 | the result is a subsequence of the list |
| `KeyFilter.FindPartition` | pdbdiff.py:64-80 | filtering by two disjoint key sets that cover the list's keys sends every entry to exactly one side; multisets and lengths add up to the list's |
| `KeyFilter.KeySetOfFind` | pdbdiff.py:82-84 | the keys of the result are the list's keys intersected with the asked-for values |
| `KeyFilter.UniqueAndCommonKeysCover` | pdbdiff.py:64-80 | when the first key set is the list's own key set, the keys kept by the difference filter and by the intersection filter together are exactly that key set |
| `KeyFilter.FindAll` | pdbdiff.py:82-84 | asking for every key of the list returns the whole list unchanged |
| `KeyFilter.FindNone` | pdbdiff.py:82-84 | asking for none of the list's keys returns the empty list |
| `KeyFilter.Unique` | pdbdiff.py:64-71 | an entry is kept exactly when it is in the list, its key is in the first key set and not in the second |
| `KeyFilter.Common` | pdbdiff.py:73-80 | an entry is kept exactly when it is in the list and its key is in both key sets |
| `PeeringDbDiff.NewDiff` | pdbdiff.py:7-20 | the comparator holds both records and both ASNs unchanged; each of its four key sets holds exactly the ids found in the corresponding list |
| `PeeringDbDiff.FirstUniqueFacilities` | pdbdiff.py:22-27 | a facility is returned exactly when it is in the first network's list with an id the first has and the second lacks |
| `PeeringDbDiff.SecondUniqueFacilities` | pdbdiff.py:29-34 | a facility is returned exactly when it is in the second network's list with an id the second has and the first lacks |
| `PeeringDbDiff.CommonFacilities` | pdbdiff.py:36-41 | a facility is returned exactly when it is in the first network's list with an id both have; it always comes from the first list |
| `PeeringDbDiff.FirstUniqueIxes` | pdbdiff.py:43-48 | an exchange LAN is returned exactly when it is in the first network's list with an id the first has and the second lacks |
| `PeeringDbDiff.SecondUniqueIxes` | pdbdiff.py:50-55 | an exchange LAN is returned exactly when it is in the second network's list with an id the second has and the first lacks |
| `PeeringDbDiff.CommonIxes` | pdbdiff.py:57-62 | an exchange LAN is returned exactly when it is in the first network's list with an id both have; it always comes from the first list |
| `PeeringDbDiff.AccessorsAreSubsequences` | pdbdiff.py:22-84 | each of the six accessors returns a subsequence of the list it filters |
| `PeeringDbDiff.FirstListPartition` | pdbdiff.py:22-80 | the first network's facility list (and exchange list) is split by first-unique and common: each entry lands in exactly one, multisets and lengths add up |
| `PeeringDbDiff.UniqueKeysDisjoint` | pdbdiff.py:64-71 | no facility id and no exchange-LAN id is among both the first network's unique results and the second's |
| `PeeringDbDiff.UniqueAndCommonKeysCoverFirst` | pdbdiff.py:64-80 | the ids of the first-unique and common results together are exactly the first network's ids |
| `PeeringDbDiff.CommonKeysSymmetric` | pdbdiff.py:73-80 | swapping the two networks leaves the id set of the common results unchanged: it is the intersection of the two id sets |
| `PeeringDbDiff.NoSharedKeys` | pdbdiff.py:64-84 | when the networks share no id of a kind, the common result of that kind is empty and each unique result is the network's whole list |
| `PeeringDbDiff.OverlappingFacilities` | pdbdiff.py:22-41 | with facility ids 1,2,3 against 2,3,4: first-unique returns the facility with id 1, common returns the first network's facilities 2 and 3 in order, second-unique returns the facility with id 4 |
| `Report.Sections` | pdbdiff.py:113-175 | a table is printed exactly when the flags select it (common tables in common mode; the kinds asked for, or both; in unique mode the sides asked for, or both), and the tables come out exchanges before facilities, first network before second |
| `Report.SectionsDetermined` | pdbdiff.py:113-175 | any list of tables holding exactly the selected ones in printing order is the printed list, so the two properties above fix the output completely |
| `Report.CommonModeIgnoresSides` | pdbdiff.py:113-133 | in common mode `--first` and `--second` make no difference |
| `Report.NoKindFlagShowsBothKinds` | pdbdiff.py:113-175 | without `--ix` and `--facility` an exchange table and a facility table are both printed, in either mode |
| `Report.NoSideFlagShowsBothSides` | pdbdiff.py:134-175 | in unique mode without `--first` and `--second`, each printed kind is printed for both networks |
| `Report.CommonExchangesOnly` | pdbdiff.py:113-133 | `--common --ix` prints only the common exchanges table |
| `Report.Truncate` | pdbdiff.py:130 | the printed name is a prefix of the name, of length 60 or the name's length if shorter |
| `Report.Render` | pdbdiff.py:113-175 | the report is the selected tables in printing order; each table has one row per entry of its accessor, in order; exchange rows show the name; facility rows show the name as cut by `Truncate` (its first min(60, length) characters), plus the city and country |

## Left out

- Fetching (`PeeringDBDiff.__fetch`, pdbdiff.py:86-89): an HTTP GET to the registry and JSON decoding. The two records are parameters of `NewDiff`. The failures of that step are not modelled: transport errors, an unknown ASN (empty `data` array), a malformed body.
- Missing fields: the source reads entries as untyped dictionaries, so a missing `fac_id`, `ixlan_id` or `name` raises a key error. The model uses typed entries, so every entry has every field.
- Argument parsing (pdbdiff.py:92-109): the parsed switches are the `Report.Flags` record, and the two ASNs are plain integers.
- Presentation: the header lines with the ASN, the column padding (`{name:60} {city:20} {country:5}`), the 89-dash separators and the blank lines. Only the choice of tables, the rows' contents and the 60-character name cut are modelled.
- The `set_key` argument of `__unique`, `__common` and `__find`: the source never uses it, so the model has no counterpart.
- Idempotence of the accessors: the comparator is an immutable value and the accessors are functions of it, so two calls return the same sequence by construction. No lemma states it, because it would only restate that equality is reflexive.
