/** The key-based helpers the comparator is built on: the key set of a
    membership list, and the filter that keeps, in list order and with any
    duplicates, the entries whose key lies in a given set of keys.

    Entries are generic; `key` plays the part of the field name
    (`fac_id` or `ixlan_id`) that the comparator looks up in each entry. */
module KeyFilter {

  /** The keys of a membership list: the list of keys turned into a set. */
  function KeySet<T(!new)>(entries: seq<T>, key: T -> int): (ks: set<int>)
    ensures forall x {:trigger x in entries} :: x in entries ==> key(x) in ks
    ensures forall k :: k in ks ==> exists x :: x in entries && key(x) == k
    decreases |entries|
  {
    if entries == [] then {}
    else
      var init := entries[..|entries| - 1];
      var last := entries[|entries| - 1];
      assert entries == init + [last];
      KeySet(init, key) + {key(last)}
  }

  /** The entries whose key is in `values`, in the order of `entries`.
      Each kept entry occurs as often as in `entries`; every other entry
      is dropped. The list is built from the front, each kept entry
      appended after the ones before it. */
  function Find<T(!new)>(entries: seq<T>, key: T -> int, values: set<int>): (r: seq<T>)
    ensures |r| <= |entries|
    ensures forall x {:trigger x in r} :: x in r <==> x in entries && key(x) in values
    decreases |entries|
  {
    if entries == [] then []
    else
      var init := entries[..|entries| - 1];
      var last := entries[|entries| - 1];
      assert entries == init + [last];
      var kept := Find(init, key, values);
      if key(last) in values then kept + [last] else kept
  }

  /** Each entry whose key is asked for is kept as many times as it occurs,
      duplicates included; every other entry is dropped. */
  lemma {:induction false} FindCounts<T(!new)>(entries: seq<T>, key: T -> int, values: set<int>)
    ensures forall x :: multiset(Find(entries, key, values))[x] == if key(x) in values then multiset(entries)[x] else 0
    decreases |entries|
  {
    if entries != [] {
      var init, last := entries[..|entries| - 1], entries[|entries| - 1];
      assert entries == init + [last];
      FindCounts(init, key, values);
    }
  }

  /** Appending one entry to the list adds its key to the key set. */
  lemma KeySetSnoc<T(!new)>(init: seq<T>, last: T, key: T -> int)
    ensures KeySet(init + [last], key) == KeySet(init, key) + {key(last)}
  {
    assert (init + [last])[..|init|] == init;
  }

  /** Appending one entry to the list appends it to the result exactly when
      its key is asked for. */
  lemma FindSnoc<T(!new)>(init: seq<T>, last: T, key: T -> int, values: set<int>)
    ensures Find(init + [last], key, values) == if key(last) in values then Find(init, key, values) + [last] else Find(init, key, values)
  {
    assert (init + [last])[..|init|] == init;
  }

  /** The positions of `entries` that `Find` keeps, in increasing order. */
  function KeptIndices<T(!new)>(entries: seq<T>, key: T -> int, values: set<int>): (idx: seq<nat>)
    ensures forall j :: 0 <= j < |idx| ==> idx[j] < |entries| && key(entries[idx[j]]) in values
    ensures forall j, j' :: 0 <= j < j' < |idx| ==> idx[j] < idx[j']
    ensures forall i :: 0 <= i < |entries| && key(entries[i]) in values ==> i in idx
    decreases |entries|
  {
    if entries == [] then []
    else
      var n := |entries| - 1;
      var kept := KeptIndices(entries[..n], key, values);
      if key(entries[n]) in values then kept + [n] else kept
  }

  /** `r` is `s` read at the strictly increasing positions `idx`. */
  ghost predicate EmbedsAt<T(!new)>(r: seq<T>, s: seq<T>, idx: seq<nat>)
  {
    && |idx| == |r|
    && (forall j :: 0 <= j < |idx| ==> idx[j] < |s| && r[j] == s[idx[j]])
    && (forall j, j' :: 0 <= j < j' < |idx| ==> idx[j] < idx[j'])
  }

  /** `r` is a subsequence of `s`: same relative order, nothing invented. */
  ghost predicate IsSubsequence<T(!new)>(r: seq<T>, s: seq<T>)
  {
    exists idx: seq<nat> :: EmbedsAt(r, s, idx)
  }

  /** Set difference of the two key sets, then the filter (`__unique`). */
  function Unique<T(!new)>(entries: seq<T>, key: T -> int, firstKeys: set<int>, secondKeys: set<int>): (r: seq<T>)
    ensures forall x {:trigger x in r} :: x in r <==> x in entries && key(x) in firstKeys && key(x) !in secondKeys
  {
    Find(entries, key, firstKeys - secondKeys)
  }

  /** Intersection of the two key sets, then the filter (`__common`). */
  function Common<T(!new)>(entries: seq<T>, key: T -> int, firstKeys: set<int>, secondKeys: set<int>): (r: seq<T>)
    ensures forall x {:trigger x in r} :: x in r <==> x in entries && key(x) in firstKeys && key(x) in secondKeys
  {
    Find(entries, key, firstKeys * secondKeys)
  }

  /** The filter's result is exactly the entries at the kept positions,
      in the same order. */
  lemma {:induction false} FindAtKeptIndices<T(!new)>(entries: seq<T>, key: T -> int, values: set<int>)
    ensures EmbedsAt(Find(entries, key, values), entries, KeptIndices(entries, key, values))
    decreases |entries|
  {
    if entries != [] {
      var n := |entries| - 1;
      var init := entries[..n];
      FindAtKeptIndices(init, key, values);
      var r, idx := Find(entries, key, values), KeptIndices(entries, key, values);
      var r0, idx0 := Find(init, key, values), KeptIndices(init, key, values);
      assert r == if key(entries[n]) in values then r0 + [entries[n]] else r0;
      assert idx == if key(entries[n]) in values then idx0 + [n] else idx0;
      forall j | 0 <= j < |idx|
        ensures idx[j] < |entries| && r[j] == entries[idx[j]]
      {
        if j < |idx0| {
          assert r[j] == r0[j] && idx[j] == idx0[j];
        }
      }
    }
  }

  lemma FindIsSubsequence<T(!new)>(entries: seq<T>, key: T -> int, values: set<int>)
    ensures IsSubsequence(Find(entries, key, values), entries)
  {
    FindAtKeptIndices(entries, key, values);
  }

  /** Filtering one list by two disjoint key sets that together cover its
      keys splits the list: every entry goes to exactly one side. */
  lemma FindPartition<T(!new)>(entries: seq<T>, key: T -> int, v: set<int>, w: set<int>)
    requires v !! w
    requires KeySet(entries, key) <= v + w
    ensures multiset(Find(entries, key, v)) + multiset(Find(entries, key, w)) == multiset(entries)
    ensures |Find(entries, key, v)| + |Find(entries, key, w)| == |entries|
    ensures forall x :: x in entries ==> (x in Find(entries, key, v) <==> x !in Find(entries, key, w))
  {
    var a, b := Find(entries, key, v), Find(entries, key, w);
    FindCounts(entries, key, v);
    FindCounts(entries, key, w);
    forall x
      ensures (multiset(a) + multiset(b))[x] == multiset(entries)[x]
    {
      if multiset(entries)[x] > 0 {
        assert x in entries;
      }
    }
    assert multiset(a) + multiset(b) == multiset(entries);
    assert |multiset(a) + multiset(b)| == |multiset(entries)|;
  }

  /** The keys of a filtered list are the list's keys that were asked for. */
  lemma KeySetOfFind<T(!new)>(entries: seq<T>, key: T -> int, values: set<int>)
    ensures KeySet(Find(entries, key, values), key) == KeySet(entries, key) * values
  {
    var r := Find(entries, key, values);
    forall k | k in KeySet(entries, key) * values
      ensures k in KeySet(r, key)
    {
      var x :| x in entries && key(x) == k;
      assert x in r;
    }
  }

  /** The keys kept by the difference filter and by the intersection
      filter together are all the keys of the list. */
  lemma UniqueAndCommonKeysCover<T(!new)>(entries: seq<T>, key: T -> int, firstKeys: set<int>, secondKeys: set<int>)
    requires firstKeys == KeySet(entries, key)
    ensures KeySet(Unique(entries, key, firstKeys, secondKeys), key) + KeySet(Common(entries, key, firstKeys, secondKeys), key) == firstKeys
  {
    KeySetOfFind(entries, key, firstKeys - secondKeys);
    KeySetOfFind(entries, key, firstKeys * secondKeys);
  }

  /** A filter that asks for every key of the list returns the list. */
  lemma {:induction false} FindAll<T(!new)>(entries: seq<T>, key: T -> int, values: set<int>)
    requires KeySet(entries, key) <= values
    ensures Find(entries, key, values) == entries
    decreases |entries|
  {
    if entries != [] {
      var n := |entries| - 1;
      var init := entries[..n];
      assert entries == init + [entries[n]];
      assert KeySet(init, key) <= KeySet(entries, key);
      FindAll(init, key, values);
    }
  }

  /** A filter that asks for none of the list's keys returns nothing. */
  lemma FindNone<T(!new)>(entries: seq<T>, key: T -> int, values: set<int>)
    requires KeySet(entries, key) !! values
    ensures Find(entries, key, values) == []
  {
  }
}
