/** The comparator: two network records from the peering registry, the
    facility and exchange-LAN key sets derived from them once, and the six
    accessors that report what is unique to each network and what they share. */
module PeeringDbDiff {
  import opened KeyFilter

  /** An element of `netfac_set`: a facility the network is present at. */
  datatype Facility = Facility(facId: int, name: string, city: string, country: string)

  /** An element of `netixlan_set`: an exchange LAN the network is connected to. */
  datatype ExchangeLan = ExchangeLan(ixlanId: int, name: string)

  /** The part of a fetched network record the comparator reads. */
  datatype NetRecord = NetRecord(netfacSet: seq<Facility>, netixlanSet: seq<ExchangeLan>)

  function FacId(f: Facility): int { f.facId }

  function IxlanId(x: ExchangeLan): int { x.ixlanId }

  /** The comparator's state, set once when it is built and never updated. */
  datatype Diff = Diff(
    first: NetRecord, second: NetRecord,
    firstAsn: int, secondAsn: int,
    firstFacIds: set<int>, secondFacIds: set<int>,
    firstIxlanIds: set<int>, secondIxlanIds: set<int>)

  /** The four key sets are those of the stored records. */
  ghost predicate Valid(d: Diff)
  {
    && d.firstFacIds == KeySet(d.first.netfacSet, FacId)
    && d.secondFacIds == KeySet(d.second.netfacSet, FacId)
    && d.firstIxlanIds == KeySet(d.first.netixlanSet, IxlanId)
    && d.secondIxlanIds == KeySet(d.second.netixlanSet, IxlanId)
  }

  /** Building the comparator from the two records already fetched. */
  function NewDiff(firstAsn: int, secondAsn: int, first: NetRecord, second: NetRecord): (d: Diff)
    ensures Valid(d)
    ensures d.first == first && d.second == second
    ensures d.firstAsn == firstAsn && d.secondAsn == secondAsn
    ensures forall k :: k in d.firstFacIds <==> exists f :: f in first.netfacSet && f.facId == k
    ensures forall k :: k in d.secondFacIds <==> exists f :: f in second.netfacSet && f.facId == k
    ensures forall k :: k in d.firstIxlanIds <==> exists x :: x in first.netixlanSet && x.ixlanId == k
    ensures forall k :: k in d.secondIxlanIds <==> exists x :: x in second.netixlanSet && x.ixlanId == k
  {
    Diff(first, second, firstAsn, secondAsn,
         KeySet(first.netfacSet, FacId), KeySet(second.netfacSet, FacId),
         KeySet(first.netixlanSet, IxlanId), KeySet(second.netixlanSet, IxlanId))
  }

  function FirstUniqueFacilities(d: Diff): (r: seq<Facility>)
    ensures forall f {:trigger f in r} :: f in r <==> f in d.first.netfacSet && f.facId in d.firstFacIds && f.facId !in d.secondFacIds
  {
    Unique(d.first.netfacSet, FacId, d.firstFacIds, d.secondFacIds)
  }

  function SecondUniqueFacilities(d: Diff): (r: seq<Facility>)
    ensures forall f {:trigger f in r} :: f in r <==> f in d.second.netfacSet && f.facId in d.secondFacIds && f.facId !in d.firstFacIds
  {
    Unique(d.second.netfacSet, FacId, d.secondFacIds, d.firstFacIds)
  }

  /** Shared facilities, always taken from the first record's list. */
  function CommonFacilities(d: Diff): (r: seq<Facility>)
    ensures forall f {:trigger f in r} :: f in r <==> f in d.first.netfacSet && f.facId in d.firstFacIds && f.facId in d.secondFacIds
  {
    Common(d.first.netfacSet, FacId, d.firstFacIds, d.secondFacIds)
  }

  function FirstUniqueIxes(d: Diff): (r: seq<ExchangeLan>)
    ensures forall x {:trigger x in r} :: x in r <==> x in d.first.netixlanSet && x.ixlanId in d.firstIxlanIds && x.ixlanId !in d.secondIxlanIds
  {
    Unique(d.first.netixlanSet, IxlanId, d.firstIxlanIds, d.secondIxlanIds)
  }

  function SecondUniqueIxes(d: Diff): (r: seq<ExchangeLan>)
    ensures forall x {:trigger x in r} :: x in r <==> x in d.second.netixlanSet && x.ixlanId in d.secondIxlanIds && x.ixlanId !in d.firstIxlanIds
  {
    Unique(d.second.netixlanSet, IxlanId, d.secondIxlanIds, d.firstIxlanIds)
  }

  /** Shared exchange LANs, always taken from the first record's list. */
  function CommonIxes(d: Diff): (r: seq<ExchangeLan>)
    ensures forall x {:trigger x in r} :: x in r <==> x in d.first.netixlanSet && x.ixlanId in d.firstIxlanIds && x.ixlanId in d.secondIxlanIds
  {
    Common(d.first.netixlanSet, IxlanId, d.firstIxlanIds, d.secondIxlanIds)
  }

  /** Every accessor keeps the relative order of the list it filters. */
  lemma AccessorsAreSubsequences(d: Diff)
    ensures IsSubsequence(FirstUniqueFacilities(d), d.first.netfacSet)
    ensures IsSubsequence(SecondUniqueFacilities(d), d.second.netfacSet)
    ensures IsSubsequence(CommonFacilities(d), d.first.netfacSet)
    ensures IsSubsequence(FirstUniqueIxes(d), d.first.netixlanSet)
    ensures IsSubsequence(SecondUniqueIxes(d), d.second.netixlanSet)
    ensures IsSubsequence(CommonIxes(d), d.first.netixlanSet)
  {
    FindIsSubsequence(d.first.netfacSet, FacId, d.firstFacIds - d.secondFacIds);
    FindIsSubsequence(d.second.netfacSet, FacId, d.secondFacIds - d.firstFacIds);
    FindIsSubsequence(d.first.netfacSet, FacId, d.firstFacIds * d.secondFacIds);
    FindIsSubsequence(d.first.netixlanSet, IxlanId, d.firstIxlanIds - d.secondIxlanIds);
    FindIsSubsequence(d.second.netixlanSet, IxlanId, d.secondIxlanIds - d.firstIxlanIds);
    FindIsSubsequence(d.first.netixlanSet, IxlanId, d.firstIxlanIds * d.secondIxlanIds);
  }

  /** The first record's lists are split between its unique and its common
      entries: each entry lands in exactly one, counts add up. */
  lemma FirstListPartition(d: Diff)
    requires Valid(d)
    ensures multiset(FirstUniqueFacilities(d)) + multiset(CommonFacilities(d)) == multiset(d.first.netfacSet)
    ensures |FirstUniqueFacilities(d)| + |CommonFacilities(d)| == |d.first.netfacSet|
    ensures forall f :: f in d.first.netfacSet ==> (f in FirstUniqueFacilities(d) <==> f !in CommonFacilities(d))
    ensures multiset(FirstUniqueIxes(d)) + multiset(CommonIxes(d)) == multiset(d.first.netixlanSet)
    ensures |FirstUniqueIxes(d)| + |CommonIxes(d)| == |d.first.netixlanSet|
    ensures forall x :: x in d.first.netixlanSet ==> (x in FirstUniqueIxes(d) <==> x !in CommonIxes(d))
  {
    FindPartition(d.first.netfacSet, FacId, d.firstFacIds - d.secondFacIds, d.firstFacIds * d.secondFacIds);
    FindPartition(d.first.netixlanSet, IxlanId, d.firstIxlanIds - d.secondIxlanIds, d.firstIxlanIds * d.secondIxlanIds);
  }

  /** No key is unique to both networks. */
  lemma UniqueKeysDisjoint(d: Diff)
    ensures KeySet(FirstUniqueFacilities(d), FacId) !! KeySet(SecondUniqueFacilities(d), FacId)
    ensures KeySet(FirstUniqueIxes(d), IxlanId) !! KeySet(SecondUniqueIxes(d), IxlanId)
  {
    KeySetOfFind(d.first.netfacSet, FacId, d.firstFacIds - d.secondFacIds);
    KeySetOfFind(d.second.netfacSet, FacId, d.secondFacIds - d.firstFacIds);
    KeySetOfFind(d.first.netixlanSet, IxlanId, d.firstIxlanIds - d.secondIxlanIds);
    KeySetOfFind(d.second.netixlanSet, IxlanId, d.secondIxlanIds - d.firstIxlanIds);
  }

  /** The keys unique to the first network and the shared keys together are
      the first network's keys. */
  lemma UniqueAndCommonKeysCoverFirst(d: Diff)
    requires Valid(d)
    ensures KeySet(FirstUniqueFacilities(d), FacId) + KeySet(CommonFacilities(d), FacId) == d.firstFacIds
    ensures KeySet(FirstUniqueIxes(d), IxlanId) + KeySet(CommonIxes(d), IxlanId) == d.firstIxlanIds
  {
    UniqueAndCommonKeysCover(d.first.netfacSet, FacId, d.firstFacIds, d.secondFacIds);
    UniqueAndCommonKeysCover(d.first.netixlanSet, IxlanId, d.firstIxlanIds, d.secondIxlanIds);
  }

  /** Swapping the two networks changes which list the common entries are
      read from, but not their keys: both are the shared keys. */
  lemma CommonKeysSymmetric(d: Diff, e: Diff)
    requires Valid(d) && Valid(e)
    requires e.first == d.second && e.second == d.first
    ensures KeySet(CommonFacilities(d), FacId) == KeySet(CommonFacilities(e), FacId) == d.firstFacIds * d.secondFacIds
    ensures KeySet(CommonIxes(d), IxlanId) == KeySet(CommonIxes(e), IxlanId) == d.firstIxlanIds * d.secondIxlanIds
  {
    assert e.firstFacIds == d.secondFacIds && e.secondFacIds == d.firstFacIds;
    assert e.firstIxlanIds == d.secondIxlanIds && e.secondIxlanIds == d.firstIxlanIds;
    KeySetOfFind(d.first.netfacSet, FacId, d.firstFacIds * d.secondFacIds);
    KeySetOfFind(e.first.netfacSet, FacId, e.firstFacIds * e.secondFacIds);
    KeySetOfFind(d.first.netixlanSet, IxlanId, d.firstIxlanIds * d.secondIxlanIds);
    KeySetOfFind(e.first.netixlanSet, IxlanId, e.firstIxlanIds * e.secondIxlanIds);
  }

  /** When the two networks share no key of a kind, nothing of that kind is
      common and each side's unique list is its whole list. */
  lemma NoSharedKeys(d: Diff)
    requires Valid(d)
    ensures d.firstFacIds !! d.secondFacIds ==>
      && CommonFacilities(d) == []
      && FirstUniqueFacilities(d) == d.first.netfacSet
      && SecondUniqueFacilities(d) == d.second.netfacSet
    ensures d.firstIxlanIds !! d.secondIxlanIds ==>
      && CommonIxes(d) == []
      && FirstUniqueIxes(d) == d.first.netixlanSet
      && SecondUniqueIxes(d) == d.second.netixlanSet
  {
    if d.firstFacIds !! d.secondFacIds {
      FindNone(d.first.netfacSet, FacId, d.firstFacIds * d.secondFacIds);
      FindAll(d.first.netfacSet, FacId, d.firstFacIds - d.secondFacIds);
      FindAll(d.second.netfacSet, FacId, d.secondFacIds - d.firstFacIds);
    }
    if d.firstIxlanIds !! d.secondIxlanIds {
      FindNone(d.first.netixlanSet, IxlanId, d.firstIxlanIds * d.secondIxlanIds);
      FindAll(d.first.netixlanSet, IxlanId, d.firstIxlanIds - d.secondIxlanIds);
      FindAll(d.second.netixlanSet, IxlanId, d.secondIxlanIds - d.firstIxlanIds);
    }
  }

  /** Facility ids {1, 2, 3} against {2, 3, 4}. */
  lemma OverlappingFacilities(asnA: int, asnB: int, f1: Facility, f2: Facility, f3: Facility, g2: Facility, g3: Facility, g4: Facility)
    requires f1.facId == 1 && f2.facId == 2 && f3.facId == 3
    requires g2.facId == 2 && g3.facId == 3 && g4.facId == 4
    ensures var d := NewDiff(asnA, asnB, NetRecord([f1, f2, f3], []), NetRecord([g2, g3, g4], []));
      && FirstUniqueFacilities(d) == [f1]
      && CommonFacilities(d) == [f2, f3]
      && SecondUniqueFacilities(d) == [g4]
  {
    OverlappingKeySets(f1, f2, f3, g2, g3, g4);
    OverlappingFinds(f1, f2, f3, g2, g3, g4);
  }

  lemma OverlappingKeySets(f1: Facility, f2: Facility, f3: Facility, g2: Facility, g3: Facility, g4: Facility)
    requires f1.facId == 1 && f2.facId == 2 && f3.facId == 3
    requires g2.facId == 2 && g3.facId == 3 && g4.facId == 4
    ensures KeySet([f1, f2, f3], FacId) - KeySet([g2, g3, g4], FacId) == {1}
    ensures KeySet([f1, f2, f3], FacId) * KeySet([g2, g3, g4], FacId) == {2, 3}
    ensures KeySet([g2, g3, g4], FacId) - KeySet([f1, f2, f3], FacId) == {4}
  {
    FacilityIdsOfThree(f1, f2, f3);
    FacilityIdsOfThree(g2, g3, g4);
    OverlappingIdSets(KeySet([f1, f2, f3], FacId), KeySet([g2, g3, g4], FacId));
  }

  lemma FacilityIdsOfThree(f1: Facility, f2: Facility, f3: Facility)
    ensures KeySet([f1, f2, f3], FacId) == {f1.facId, f2.facId, f3.facId}
  {
    KeySetOfThree(f1, f2, f3, FacId);
  }

  lemma OverlappingIdSets(a: set<int>, b: set<int>)
    requires a == {1, 2, 3} && b == {2, 3, 4}
    ensures a - b == {1} && a * b == {2, 3} && b - a == {4}
  {
  }

  lemma OverlappingFinds(f1: Facility, f2: Facility, f3: Facility, g2: Facility, g3: Facility, g4: Facility)
    requires f1.facId == 1 && f2.facId == 2 && f3.facId == 3
    requires g2.facId == 2 && g3.facId == 3 && g4.facId == 4
    ensures Find([f1, f2, f3], FacId, {1}) == [f1]
    ensures Find([f1, f2, f3], FacId, {2, 3}) == [f2, f3]
    ensures Find([g2, g3, g4], FacId, {4}) == [g4]
  {
    FindOfThree(f1, f2, f3, FacId, {1});
    FindOfThree(f1, f2, f3, FacId, {2, 3});
    FindOfThree(g2, g3, g4, FacId, {4});
  }

  lemma KeySetOfThree<T(!new)>(x1: T, x2: T, x3: T, key: T -> int)
    ensures KeySet([x1, x2, x3], key) == {key(x1), key(x2), key(x3)}
  {
    assert [x1] == [] + [x1];
    KeySetSnoc([], x1, key);
    assert KeySet([x1], key) == {key(x1)};
    assert [x1, x2] == [x1] + [x2];
    KeySetSnoc([x1], x2, key);
    assert KeySet([x1, x2], key) == {key(x1), key(x2)};
    assert [x1, x2, x3] == [x1, x2] + [x3];
    KeySetSnoc([x1, x2], x3, key);
  }

  lemma FindOfThree<T(!new)>(x1: T, x2: T, x3: T, key: T -> int, values: set<int>)
    ensures Find([x1, x2, x3], key, values) ==
      (if key(x1) in values then [x1] else []) + (if key(x2) in values then [x2] else []) + (if key(x3) in values then [x3] else [])
  {
    assert [x1, x2, x3] == [x1, x2] + [x3];
    FindSnoc([x1, x2], x3, key, values);
    FindOfTwo(x1, x2, key, values);
  }

  lemma FindOfTwo<T(!new)>(x1: T, x2: T, key: T -> int, values: set<int>)
    ensures Find([x1, x2], key, values) ==
      (if key(x1) in values then [x1] else []) + (if key(x2) in values then [x2] else [])
  {
    assert [x1] == [] + [x1];
    FindSnoc([], x1, key, values);
    var p1 := if key(x1) in values then [x1] else [];
    assert Find([x1], key, values) == p1;
    assert [x1, x2] == [x1] + [x2];
    FindSnoc([x1], x2, key, values);
  }
}
