/** Removing exact duplicates from the ground-truth dataset
    (`clean_duplicate_entries` of `data/ground_truth/clean_ground_truth_dataset.py`).
    An entry is kept when no earlier entry has the same canonical key; the
    source's key is the entry serialised with sorted keys, here any
    function `key` of the entry. */
module Deduplication {

  /** The keys of the entries of `xs`. */
  function KeysOf<E, K(==)>(key: E -> K, xs: seq<E>): set<K> {
    set i | 0 <= i < |xs| :: key(xs[i])
  }

  lemma KeysOfAppend<E, K>(key: E -> K, xs: seq<E>, x: E)
    ensures KeysOf(key, xs + [x]) == KeysOf(key, xs) + {key(x)}
  {
    var ys := xs + [x];
    assert forall i :: 0 <= i < |xs| ==> ys[i] == xs[i];
    assert ys[|xs|] == x;
  }

  /** No two entries of `xs` share a key. */
  predicate DistinctKeys<E, K(==)>(key: E -> K, xs: seq<E>) {
    forall i, j :: 0 <= i < j < |xs| ==> key(xs[i]) != key(xs[j])
  }

  /** `data[i]` is the first entry with its key. */
  predicate IsFirst<E, K(==)>(key: E -> K, data: seq<E>, i: nat)
    requires i < |data|
  {
    forall h :: 0 <= h < i ==> key(data[h]) != key(data[i])
  }

  /** The entries that open their key, in their original order. */
  function FirstOccurrences<E, K(==)>(key: E -> K, data: seq<E>): (unique: seq<E>)
    ensures |unique| <= |data|
    ensures KeysOf(key, unique) == KeysOf(key, data)
    ensures DistinctKeys(key, unique)
    decreases |data|
  {
    if data == [] then []
    else
      var front := data[..|data| - 1];
      var last := data[|data| - 1];
      var rest := FirstOccurrences(key, front);
      KeysOfAppend(key, front, last);
      assert data == front + [last];
      if key(last) in KeysOf(key, front) then rest
      else
        KeysOfAppend(key, rest, last);
        rest + [last]
  }

  /** `clean_duplicate_entries`' loop: the kept entries and the number dropped. */
  method Deduplicate<E, K(==)>(data: seq<E>, key: E -> K) returns (unique: seq<E>, duplicates: nat)
    ensures unique == FirstOccurrences(key, data)
    ensures |data| == |unique| + duplicates
  {
    unique := [];
    var seen: set<K> := {};
    duplicates := 0;
    for i := 0 to |data|
      invariant unique == FirstOccurrences(key, data[..i])
      invariant seen == KeysOf(key, data[..i])
      invariant i == |unique| + duplicates
    {
      var entry := data[i];
      var canonical := key(entry);
      assert data[..i + 1] == data[..i] + [entry];
      KeysOfAppend(key, data[..i], entry);
      if canonical !in seen {
        seen := seen + {canonical};
        unique := unique + [entry];
      } else {
        duplicates := duplicates + 1;
      }
    }
    assert data[..|data|] == data;
  }

  /** A dataset without duplicates is left as it is. */
  lemma {:induction false} DistinctUnchanged<E, K>(key: E -> K, xs: seq<E>)
    requires DistinctKeys(key, xs)
    ensures FirstOccurrences(key, xs) == xs
    decreases |xs|
  {
    if xs != [] {
      var front := xs[..|xs| - 1];
      var last := xs[|xs| - 1];
      assert DistinctKeys(key, front);
      DistinctUnchanged(key, front);
      assert xs == front + [last];
    }
  }

  /** Cleaning a cleaned dataset drops nothing more. */
  lemma DeduplicateIdempotent<E, K>(key: E -> K, data: seq<E>)
    ensures FirstOccurrences(key, FirstOccurrences(key, data)) == FirstOccurrences(key, data)
  {
    DistinctUnchanged(key, FirstOccurrences(key, data));
  }

  /** Nothing is dropped exactly when no two entries share a key. */
  lemma NoDuplicatesIff<E, K>(key: E -> K, data: seq<E>)
    ensures |FirstOccurrences(key, data)| == |data| <==> DistinctKeys(key, data)
  {
    if DistinctKeys(key, data) {
      DistinctUnchanged(key, data);
    }
    if |FirstOccurrences(key, data)| == |data| {
      FullLengthDistinct(key, data);
    }
  }

  lemma {:induction false} FullLengthDistinct<E, K>(key: E -> K, data: seq<E>)
    requires |FirstOccurrences(key, data)| == |data|
    ensures FirstOccurrences(key, data) == data
    decreases |data|
  {
    if data != [] {
      var front := data[..|data| - 1];
      var last := data[|data| - 1];
      assert |FirstOccurrences(key, front)| <= |front|;
      assert key(last) !in KeysOf(key, front);
      FullLengthDistinct(key, front);
      assert data == front + [last];
    }
  }

  /** The positions of the first entry of each key, in increasing order. */
  ghost function FirstIndices<E, K>(key: E -> K, data: seq<E>): (indices: seq<nat>)
    ensures forall j :: 0 <= j < |indices| ==> indices[j] < |data| && IsFirst(key, data, indices[j])
    ensures forall j1, j2 :: 0 <= j1 < j2 < |indices| ==> indices[j1] < indices[j2]
    ensures forall i :: 0 <= i < |data| && IsFirst(key, data, i) ==> i in indices
    decreases |data|
  {
    if data == [] then []
    else
      var front := data[..|data| - 1];
      var rest := FirstIndices(key, front);
      assert forall i :: 0 <= i < |front| ==> (IsFirst(key, front, i) <==> IsFirst(key, data, i));
      if IsFirst(key, data, |data| - 1) then rest + [|data| - 1] else rest
  }

  /** The kept entries are exactly the entries at those positions: the
      cleaned dataset is the subsequence of first occurrences. */
  lemma {:induction false} KeptAtFirstIndices<E, K>(key: E -> K, data: seq<E>)
    ensures |FirstIndices(key, data)| == |FirstOccurrences(key, data)|
    ensures forall j :: 0 <= j < |FirstIndices(key, data)| ==>
      FirstOccurrences(key, data)[j] == data[FirstIndices(key, data)[j]]
    decreases |data|
  {
    if data != [] {
      var front := data[..|data| - 1];
      KeptAtFirstIndices(key, front);
      KeptIffFirst(key, data);
    }
  }

  /** The last entry is kept exactly when it opens its key. */
  lemma KeptIffFirst<E, K>(key: E -> K, data: seq<E>)
    requires data != []
    ensures key(data[|data| - 1]) !in KeysOf(key, data[..|data| - 1]) <==> IsFirst(key, data, |data| - 1)
  {
    var front := data[..|data| - 1];
    var last := data[|data| - 1];
    if key(last) in KeysOf(key, front) {
      var h :| 0 <= h < |front| && key(front[h]) == key(last);
      assert key(data[h]) == key(data[|data| - 1]);
    } else {
      forall h | 0 <= h < |data| - 1
        ensures key(data[h]) != key(last)
      {
        assert key(front[h]) in KeysOf(key, front);
      }
    }
  }
}
