/**
 * The standard algorithms that `remove_at` and `unique_value_sequence`
 * run on their `std::array<std::size_t, N>` buffers: `std::ranges::sort`,
 * `std::ranges::binary_search` and `std::unique`.  Only the results the
 * C++ standard promises are modelled, not the library's own strategy.
 */
module Algorithms {

  /** Non-decreasing order. */
  ghost predicate Sorted(s: seq<int>)
  {
    forall i, j :: 0 <= i < j < |s| ==> s[i] <= s[j]
  }

  /** Strictly increasing order: sorted without repeats. */
  ghost predicate StrictlyIncreasing(s: seq<int>)
  {
    forall i, j :: 0 <= i < j < |s| ==> s[i] < s[j]
  }

  /** The sequence with every run of equal adjacent elements collapsed to one element. */
  function Dedup(s: seq<nat>): (r: seq<nat>)
    ensures |r| <= |s|
    ensures |s| > 0 ==> |r| > 0 && r[|r| - 1] == s[|s| - 1]
    ensures forall x :: x in r ==> x in s
  {
    if |s| <= 1 then s
    else if s[|s| - 1] == s[|s| - 2] then Dedup(s[..|s| - 1])
    else Dedup(s[..|s| - 1]) + [s[|s| - 1]]
  }

  /** Exchanges two elements of an array. */
  method Swap(a: array<nat>, i: nat, j: nat)
    requires i < a.Length && j < a.Length
    modifies a
    ensures a[i] == old(a[j]) && a[j] == old(a[i])
    ensures forall k :: 0 <= k < a.Length && k != i && k != j ==> a[k] == old(a[k])
    ensures multiset(a[..]) == multiset(old(a[..]))
  {
    a[i], a[j] := a[j], a[i];
  }

  /** `std::ranges::sort`: puts the array in non-decreasing order, a permutation of what it held. */
  method Sort(a: array<nat>)
    modifies a
    ensures Sorted(a[..])
    ensures multiset(a[..]) == multiset(old(a[..]))
  {
    var i := 0;
    while i < a.Length
      invariant 0 <= i <= a.Length
      invariant Sorted(a[..i])
      invariant multiset(a[..]) == multiset(old(a[..]))
    {
      var j := i;
      while 0 < j && a[j] < a[j - 1]
        invariant 0 <= j <= i
        invariant forall p, q :: 0 <= p < q <= i && p != j && q != j ==> a[p] <= a[q]
        invariant forall q :: j < q <= i ==> a[j] <= a[q]
        invariant multiset(a[..]) == multiset(old(a[..]))
      {
        Swap(a, j - 1, j);
        j := j - 1;
      }
      i := i + 1;
    }
  }

  /**
   * `std::ranges::binary_search` on a sorted array: finds the first
   * position not below `v` (a lower bound) and reports whether it holds `v`.
   */
  method BinarySearch(a: array<nat>, v: nat) returns (found: bool)
    requires Sorted(a[..])
    ensures found <==> v in a[..]
  {
    var lo, hi := 0, a.Length;
    while lo < hi
      invariant 0 <= lo <= hi <= a.Length
      invariant forall k :: 0 <= k < lo ==> a[k] < v
      invariant forall k :: hi <= k < a.Length ==> v <= a[k]
    {
      var mid := lo + (hi - lo) / 2;
      if a[mid] < v {
        lo := mid + 1;
      } else {
        hi := mid;
      }
    }
    found := lo < a.Length && !(v < a[lo]);
  }

  /**
   * `std::unique`: moves the first element of every run of equal adjacent
   * elements to the front, in order, and returns how many there are.
   */
  method UniqueInPlace(a: array<nat>) returns (count: nat)
    modifies a
    ensures count <= a.Length
    ensures a[..count] == Dedup(old(a[..]))
  {
    if a.Length == 0 {
      return 0;
    }
    ghost var original := a[..];
    var result := 0;
    var first := 1;
    while first < a.Length
      invariant 1 <= first <= a.Length
      invariant result < first
      invariant forall k :: first <= k < a.Length ==> a[k] == original[k]
      invariant a[..result + 1] == Dedup(original[..first])
      invariant a[result] == original[first - 1]
    {
      assert a[first] == original[first];
      assert original[..first + 1][..first] == original[..first];
      if a[result] != a[first] {
        result := result + 1;
        a[result] := a[first];
      }
      first := first + 1;
    }
    assert original[..first] == original;
    count := result + 1;
  }

  /** Every element of a sorted sequence is at most its last one. */
  lemma SortedBelowLast(s: seq<int>, y: int)
    requires Sorted(s) && y in s
    ensures y <= s[|s| - 1]
  {
    var k :| 0 <= k < |s| && s[k] == y;
  }

  /** Appending a value above every element keeps a sequence strictly increasing. */
  lemma StrictlyIncreasingSnoc(d: seq<int>, x: int)
    requires StrictlyIncreasing(d)
    requires forall y :: y in d ==> y < x
    ensures StrictlyIncreasing(d + [x])
  {
    forall i, j | 0 <= i < j < |d| + 1
      ensures (d + [x])[i] < (d + [x])[j]
    {
      if j == |d| {
        assert d[i] in d;
      }
    }
  }

  /** A sorted sequence with its runs collapsed is strictly increasing and holds the same elements. */
  lemma {:induction false} DedupOfSorted(s: seq<nat>)
    requires Sorted(s)
    ensures StrictlyIncreasing(Dedup(s))
    ensures forall x :: x in Dedup(s) <==> x in s
  {
    if |s| > 1 {
      var p, x := s[..|s| - 1], s[|s| - 1];
      forall i, j | 0 <= i < j < |p|
        ensures p[i] <= p[j]
      {
        assert p[i] == s[i] && p[j] == s[j];
      }
      assert p[|p| - 1] <= x by {
        assert p[|p| - 1] == s[|s| - 2];
      }
      DedupOfSorted(p);
      var d := Dedup(p);
      assert forall y :: y in s <==> y in p || y == x by {
        assert s == p + [x];
      }
      if x == p[|p| - 1] {
        assert Dedup(s) == d;
      } else {
        assert Dedup(s) == d + [x];
        forall y | y in d
          ensures y < x
        {
          SortedBelowLast(p, y);
        }
        StrictlyIncreasingSnoc(d, x);
      }
    }
  }

  /** Two strictly increasing sequences with the same elements are equal. */
  lemma {:induction false} StrictlyIncreasingUnique(a: seq<int>, b: seq<int>)
    requires StrictlyIncreasing(a) && StrictlyIncreasing(b)
    requires forall x :: x in a <==> x in b
    ensures a == b
  {
    assert |a| > 0 ==> a[0] in a && a[0] in b;
    assert |b| > 0 ==> b[0] in b && b[0] in a;
    if |a| > 0 && |b| > 0 {
      assert a[0] == b[0] by {
        assert b[0] in a && a[0] in b;
      }
      forall x
        ensures x in a[1..] <==> x in b[1..]
      {
        if x in a[1..] {
          assert x in b && x != b[0];
        }
        if x in b[1..] {
          assert x in a && x != a[0];
        }
      }
      StrictlyIncreasingUnique(a[1..], b[1..]);
      assert a == [a[0]] + a[1..] && b == [b[0]] + b[1..];
    } else if |a| > 0 {
      assert false;
    } else if |b| > 0 {
      assert false;
    }
  }
}
