/**
 * The two sorts the listings use. `sort_unstable_by_key` on a name key promises only
 * that the result is ordered by the key and holds the same elements; an insertion sort
 * meets that promise. `sort_by` with a comparator that tells only directories from the
 * rest is a stable sort on a two-valued key, so it is exactly a stable partition.
 */
module Sorting {
  import opened Bytes

  /** Every earlier element's key is at most every later element's key. */
  predicate SortedBy<T>(s: seq<T>, key: T -> Str) {
    forall i, j :: 0 <= i < j < |s| ==> LexLeq(key(s[i]), key(s[j]))
  }

  /** Neighbours are in order; for a transitive order this is the same as `SortedBy`. */
  predicate AdjacentSorted<T>(s: seq<T>, key: T -> Str) {
    forall i :: 0 < i < |s| ==> LexLeq(key(s[i - 1]), key(s[i]))
  }

  lemma {:induction false} AdjacentSortedIsSorted<T>(s: seq<T>, key: T -> Str)
    requires AdjacentSorted(s, key)
    ensures SortedBy(s, key)
    decreases |s|
  {
    if |s| > 1 {
      var init := s[..|s| - 1];
      assert AdjacentSorted(init, key);
      AdjacentSortedIsSorted(init, key);
      forall i | 0 <= i < |s| - 1 ensures LexLeq(key(s[i]), key(s[|s| - 1])) {
        if i < |s| - 2 {
          assert LexLeq(key(init[i]), key(init[|s| - 2]));
          LexLeqTransitive(key(s[i]), key(s[|s| - 2]), key(s[|s| - 1]));
        }
      }
    }
  }

  /** The first `n` elements are in order, neighbour by neighbour. */
  predicate PrefixSorted<T>(s: seq<T>, n: nat, key: T -> Str)
    requires n <= |s|
  {
    forall k :: 0 < k < n ==> LexLeq(key(s[k - 1]), key(s[k]))
  }

  /**
   * The insertion state: the first `i + 1` elements are in order except between `j - 1`
   * and `j`, where the element being inserted sits, and its neighbours are in order
   * with each other.
   */
  predicate Inserting<T>(s: seq<T>, i: nat, j: nat, key: T -> Str)
    requires j <= i < |s|
  {
    && (forall k :: 0 < k <= i && k != j ==> LexLeq(key(s[k - 1]), key(s[k])))
    && (0 < j < i ==> LexLeq(key(s[j - 1]), key(s[j + 1])))
  }

  /** Swapping the inserted element with a larger left neighbour moves the gap one place left. */
  lemma SwapStep<T>(s: seq<T>, i: nat, j: nat, key: T -> Str)
    requires 0 < j <= i < |s| && Inserting(s, i, j, key) && !LexLeq(key(s[j - 1]), key(s[j]))
    ensures Inserting(s[j - 1 := s[j]][j := s[j - 1]], i, j - 1, key)
  {
    var t := s[j - 1 := s[j]][j := s[j - 1]];
    LexLeqTotal(key(s[j - 1]), key(s[j]));
    forall k | 0 < k <= i && k != j - 1 ensures LexLeq(key(t[k - 1]), key(t[k])) {
      if k == j + 1 {
        assert t[k - 1] == s[j - 1] && t[k] == s[j + 1];
      } else if k != j {
        assert t[k - 1] == s[k - 1] && t[k] == s[k];
      }
    }
    if 0 < j - 1 {
      assert t[j - 2] == s[j - 2] && t[j] == s[j - 1];
    }
  }

  /** Swapping two neighbours keeps the elements. */
  lemma SwapKeepsElements<T>(s: seq<T>, j: nat)
    requires 0 < j < |s|
    ensures multiset(s[j - 1 := s[j]][j := s[j - 1]]) == multiset(s)
  {
    var u := s[j - 1 := s[j]];
    assert multiset(u) == multiset(s) - multiset{s[j - 1]} + multiset{s[j]};
    assert multiset(u[j := s[j - 1]]) == multiset(u) - multiset{s[j]} + multiset{s[j - 1]};
  }

  /**
   * `sort_unstable_by_key(key)` with a byte-string key, here an insertion sort on the
   * array: afterwards the keys are ascending and the array holds the same elements.
   */
  method SortUnstableByKey<T>(a: array<T>, key: T -> Str)
    modifies a
    ensures SortedBy(a[..], key)
    ensures multiset(a[..]) == multiset(old(a[..]))
  {
    if a.Length == 0 {
      return;
    }
    var i := 1;
    while i < a.Length
      invariant 1 <= i <= a.Length
      invariant PrefixSorted(a[..], i, key)
      invariant multiset(a[..]) == multiset(old(a[..]))
    {
      var j := i;
      while j > 0 && !LexLeq(key(a[j - 1]), key(a[j]))
        invariant 0 <= j <= i
        invariant Inserting(a[..], i, j, key)
        invariant multiset(a[..]) == multiset(old(a[..]))
      {
        ghost var s := a[..];
        SwapStep(s, i, j, key);
        SwapKeepsElements(s, j);
        a[j - 1], a[j] := a[j], a[j - 1];
        assert a[..] == s[j - 1 := s[j]][j := s[j - 1]];
        j := j - 1;
      }
      i := i + 1;
    }
    AdjacentSortedIsSorted(a[..], key);
  }

  // ---------------------------------------------------------------------------
  // Stable partition

  /** The elements of `s` that satisfy `p`, in their order in `s`. */
  function Filter<T>(p: T -> bool, s: seq<T>): (r: seq<T>)
    ensures |r| <= |s|
    ensures forall i :: 0 <= i < |r| ==> p(r[i])
  {
    if s == [] then []
    else Filter(p, s[..|s| - 1]) + (if p(s[|s| - 1]) then [s[|s| - 1]] else [])
  }

  function Not<T>(p: T -> bool): T -> bool {
    x => !p(x)
  }

  /**
   * `sort_by` with a comparator under which every element that satisfies `p` is less
   * than every element that does not, and all others are equal: being stable, it keeps
   * the order inside each of the two groups.
   */
  method StablePartition<T>(a: array<T>, p: T -> bool)
    modifies a
    ensures a[..] == Filter(p, old(a[..])) + Filter(Not(p), old(a[..]))
  {
    var firsts: seq<T> := [];
    var rest: seq<T> := [];
    for i := 0 to a.Length
      invariant firsts == Filter(p, a[..i])
      invariant rest == Filter(Not(p), a[..i])
      invariant a[..] == old(a[..])
    {
      assert a[..i + 1][..i] == a[..i];
      if p(a[i]) {
        firsts := firsts + [a[i]];
      } else {
        rest := rest + [a[i]];
      }
    }
    assert a[..a.Length] == a[..];
    var result := firsts + rest;
    FilterSplitsLength(p, a[..]);
    forall i | 0 <= i < a.Length {
      a[i] := result[i];
    }
  }

  lemma {:induction false} FilterSplitsLength<T>(p: T -> bool, s: seq<T>)
    ensures |Filter(p, s)| + |Filter(Not(p), s)| == |s|
  {
    if s != [] {
      FilterSplitsLength(p, s[..|s| - 1]);
    }
  }

  /** The two groups of a partition together hold the elements of the input. */
  lemma {:induction false} FilterSplitsMultiset<T>(p: T -> bool, s: seq<T>)
    ensures multiset(Filter(p, s)) + multiset(Filter(Not(p), s)) == multiset(s)
  {
    if s != [] {
      var init, last := s[..|s| - 1], s[|s| - 1];
      FilterSplitsMultiset(p, init);
      assert s == init + [last];
      if p(last) {
        assert Filter(p, s) == Filter(p, init) + [last];
        assert Filter(Not(p), s) == Filter(Not(p), init);
      } else {
        assert Filter(p, s) == Filter(p, init);
        assert Filter(Not(p), s) == Filter(Not(p), init) + [last];
      }
    }
  }

  /** Every element the filter keeps is an element of the input. */
  lemma {:induction false} FilterSubset<T>(p: T -> bool, s: seq<T>, x: T)
    requires x in Filter(p, s)
    ensures x in s && p(x)
  {
    var init := s[..|s| - 1];
    if x in Filter(p, init) {
      FilterSubset(p, init, x);
    }
  }

  /** An element of the input that satisfies `p` is kept. */
  lemma {:induction false} FilterKeeps<T>(p: T -> bool, s: seq<T>, x: T)
    requires x in s && p(x)
    ensures x in Filter(p, s)
  {
    var init := s[..|s| - 1];
    if x != s[|s| - 1] {
      assert x in init;
      FilterKeeps(p, init, x);
    }
  }

  /** Filtering keeps relative order, so a sorted input gives a sorted group. */
  lemma {:induction false} FilterKeepsSorted<T>(p: T -> bool, s: seq<T>, key: T -> Str)
    requires SortedBy(s, key)
    ensures SortedBy(Filter(p, s), key)
  {
    if s != [] {
      var init, last := s[..|s| - 1], s[|s| - 1];
      assert SortedBy(init, key);
      FilterKeepsSorted(p, init, key);
      var f := Filter(p, init);
      if p(last) {
        forall i | 0 <= i < |f| ensures LexLeq(key(f[i]), key(last)) {
          FilterSubset(p, init, f[i]);
          var k :| 0 <= k < |init| && init[k] == f[i];
          assert s[k] == f[i];
        }
        assert Filter(p, s) == f + [last];
      }
    }
  }

  /** After the partition, once an element outside the group appears, all later ones are outside too. */
  lemma PartitionGroupsFirst<T>(p: T -> bool, s: seq<T>)
    ensures var r := Filter(p, s) + Filter(Not(p), s);
      forall i, j :: 0 <= i < j < |r| && !p(r[i]) ==> !p(r[j])
  {
    var first, second := Filter(p, s), Filter(Not(p), s);
    var r := first + second;
    forall i, j | 0 <= i < j < |r| && !p(r[i]) ensures !p(r[j]) {
      assert i >= |first|;
      assert r[j] == second[j - |first|];
      assert Not(p)(second[j - |first|]);
    }
  }

  /** Partitioning a sorted sequence leaves each group sorted. */
  lemma PartitionKeepsGroupsSorted<T>(p: T -> bool, s: seq<T>, key: T -> Str)
    requires SortedBy(s, key)
    ensures var r := Filter(p, s) + Filter(Not(p), s);
      forall i, j :: 0 <= i < j < |r| && (p(r[i]) <==> p(r[j])) ==> LexLeq(key(r[i]), key(r[j]))
  {
    var first, second := Filter(p, s), Filter(Not(p), s);
    FilterKeepsSorted(p, s, key);
    FilterKeepsSorted(Not(p), s, key);
    var r := first + second;
    assert forall k :: |first| <= k < |r| ==> r[k] == second[k - |first|] && Not(p)(second[k - |first|]);
    forall i, j | 0 <= i < j < |r| && (p(r[i]) <==> p(r[j])) ensures LexLeq(key(r[i]), key(r[j])) {
      if i < |first| {
        assert r[i] == first[i] && r[j] == first[j];
      } else {
        assert r[i] == second[i - |first|] && r[j] == second[j - |first|];
      }
    }
  }
}
