/**
 * `unique_value_sequence_t`: for every constant the source stores the
 * index `find` returns for it (the position of its first equal
 * constant), sorts those indices, collapses adjacent duplicates with
 * `std::unique`, and indexes the sequence by what is left.  The result
 * holds the first occurrence of every distinct value, in ascending
 * original position.
 */
module Uniqueness {
  import opened Callables
  import opened Queries
  import opened Algorithms
  import opened Structure

  /** No value occurs twice. */
  ghost predicate Distinct<T>(s: seq<T>)
  {
    forall i, j :: 0 <= i < j < |s| ==> s[i] != s[j]
  }

  /** The positions that hold the first occurrence of their value, in ascending order. */
  function FirstOccurrences<T(==)>(s: seq<T>): (r: seq<nat>)
    ensures |r| <= |s|
    ensures InBounds(r, |s|)
  {
    if |s| == 0 then []
    else FirstOccurrences(s[..|s| - 1]) + (if s[|s| - 1] in s[..|s| - 1] then [] else [|s| - 1])
  }

  /** The sequence reduced to the first occurrence of every value, in their original order. */
  function Unique<T(==)>(s: seq<T>): (r: seq<T>)
    ensures |r| <= |s|
  {
    Indexed(s, FirstOccurrences(s))
  }

  /** The index `find` returns for the constant at position i. */
  function FirstIndexOf<T(==,!new)>(s: seq<T>, i: nat): nat
    requires i < |s|
  {
    FirstMatch(s, ValueComparer(s[i], EqualTo()), Identity())
  }

  /** `find(s[i])` lands on the first position holding s[i], which is a first occurrence at or before i. */
  lemma FirstIndexOfSpec<T(!new)>(s: seq<T>, i: nat)
    requires i < |s|
    ensures FirstIndexOf(s, i) <= i
    ensures s[FirstIndexOf(s, i)] == s[i]
    ensures s[FirstIndexOf(s, i)] !in s[..FirstIndexOf(s, i)]
    ensures s[i] !in s[..i] ==> FirstIndexOf(s, i) == i
  {
    var r := FirstIndexOf(s, i);
    var pred := ValueComparer(s[i], EqualTo());
    assert pred(Identity()(s[i]));
  }

  /** The first occurrences ascend strictly. */
  lemma {:induction false} FirstOccurrencesIncreasing<T>(s: seq<T>)
    ensures StrictlyIncreasing(FirstOccurrences(s))
  {
    if |s| > 0 {
      var n := |s|;
      var p := s[..n - 1];
      FirstOccurrencesIncreasing(p);
      var fo := FirstOccurrences(p);
      if s[n - 1] !in p {
        assert FirstOccurrences(s) == fo + [n - 1];
        assert forall y :: y in fo ==> y < n - 1;
        StrictlyIncreasingSnoc(fo, n - 1);
      }
    }
  }

  /** The first occurrences ascend strictly and are exactly the positions whose value does not occur earlier. */
  lemma {:induction false} FirstOccurrencesSpec<T>(s: seq<T>)
    ensures StrictlyIncreasing(FirstOccurrences(s))
    ensures forall j :: j in FirstOccurrences(s) <==> 0 <= j < |s| && s[j] !in s[..j]
  {
    FirstOccurrencesIncreasing(s);
    if |s| > 0 {
      var n := |s|;
      var p := s[..n - 1];
      FirstOccurrencesSpec(p);
      var fo := FirstOccurrences(p);
      var last := if s[n - 1] in p then [] else [n - 1];
      assert FirstOccurrences(s) == fo + last;
      forall j
        ensures j in FirstOccurrences(s) <==> 0 <= j < n && s[j] !in s[..j]
      {
        assert j in FirstOccurrences(s) <==> j in fo || j in last;
        if 0 <= j < n - 1 {
          assert p[j] == s[j] && p[..j] == s[..j];
          assert j !in last;
        } else if j == n - 1 {
          assert j !in fo;
          assert s[..j] == p;
        }
      }
    }
  }

  /** No value occurs twice in the result. */
  lemma UniqueIsDistinct<T>(s: seq<T>)
    ensures Distinct(Unique(s))
  {
    var fo := FirstOccurrences(s);
    FirstOccurrencesSpec(s);
    var u := Unique(s);
    forall i, j | 0 <= i < j < |u|
      ensures u[i] != u[j]
    {
      assert fo[i] < fo[j] && fo[j] in fo;
      assert s[fo[i]] == s[..fo[j]][fo[i]];
    }
  }

  /** The result holds exactly the values of the sequence. */
  lemma UniqueSameValues<T>(s: seq<T>)
    ensures forall x :: x in Unique(s) <==> x in s
  {
    var fo := FirstOccurrences(s);
    FirstOccurrencesSpec(s);
    var u := Unique(s);
    forall x | x in s
      ensures x in u
    {
      var j := FirstMatch(s, (y: T) => y == x, Identity());
      assert s[j] !in s[..j];
      assert j in fo;
      var k :| 0 <= k < |fo| && fo[k] == j;
      assert u[k] == x;
    }
  }

  /** In a sequence without repeated values no constant occurs before its own position. */
  lemma DistinctNoEarlier<T>(s: seq<T>, j: nat)
    requires Distinct(s) && j < |s|
    ensures s[j] !in s[..j]
  {
    forall k | 0 <= k < j
      ensures s[..j][k] != s[j]
    {
    }
  }

  /** On a sequence without repeated values every position is a first occurrence. */
  lemma DistinctPositionIsFirst<T>(s: seq<T>, j: nat)
    requires Distinct(s) && j < |s|
    ensures j in FirstOccurrences(s)
  {
    DistinctNoEarlier(s, j);
    FirstOccurrencesSpec(s);
  }

  /** On a sequence without repeated values the first occurrences are all the positions. */
  lemma FirstOccurrencesOfDistinct<T>(s: seq<T>)
    requires Distinct(s)
    ensures FirstOccurrences(s) == seq(|s|, k requires 0 <= k < |s| => k)
  {
    var iota: seq<nat> := seq(|s|, k requires 0 <= k < |s| => k);
    var fo := FirstOccurrences(s);
    FirstOccurrencesIncreasing(s);
    forall j
      ensures j in fo <==> j in iota
    {
      if 0 <= j < |s| {
        assert iota[j] == j;
        DistinctPositionIsFirst(s, j);
      }
    }
    StrictlyIncreasingUnique(fo, iota);
  }

  /** On a sequence without repeated values `unique` changes nothing. */
  lemma UniqueOfDistinct<T>(s: seq<T>)
    requires Distinct(s)
    ensures Unique(s) == s
  {
    FirstOccurrencesOfDistinct(s);
    var u := Unique(s);
    forall k | 0 <= k < |s|
      ensures u[k] == s[k]
    {
      assert FirstOccurrences(s)[k] == k;
    }
  }

  /** Applying `unique` twice is applying it once. */
  lemma UniqueIdempotent<T>(s: seq<T>)
    ensures Unique(Unique(s)) == Unique(s)
  {
    UniqueIsDistinct(s);
    UniqueOfDistinct(Unique(s));
  }

  /** The indices `find` returns for the constants are exactly the first occurrences. */
  lemma FoundAreFirstOccurrences<T(!new)>(s: seq<T>, found: seq<nat>)
    requires |found| == |s|
    requires forall k :: 0 <= k < |s| ==> found[k] == FirstIndexOf(s, k)
    ensures forall x :: x in found <==> x in FirstOccurrences(s)
  {
    FirstOccurrencesSpec(s);
    forall x
      ensures x in found <==> x in FirstOccurrences(s)
    {
      if x in found {
        var k :| 0 <= k < |found| && found[k] == x;
        FirstIndexOfSpec(s, k);
      }
      if x in FirstOccurrences(s) {
        FirstIndexOfSpec(s, x);
        assert found[x] == x;
      }
    }
  }

  /** `filtered_indices`: the first occurrences, found, sorted and collapsed as the source does. */
  method FilteredIndices<T(==,!new)>(s: seq<T>) returns (res: array<nat>, count: nat)
    ensures res.Length == |s| && count <= |s|
    ensures res[..count] == FirstOccurrences(s)
  {
    res := new nat[|s|];
    var i := 0;
    while i < |s|
      invariant 0 <= i <= |s|
      invariant forall k :: 0 <= k < i ==> res[k] == FirstIndexOf(s, k)
    {
      res[i] := Find(s, s[i], EqualTo(), Identity());
      i := i + 1;
    }
    ghost var found := res[..];
    FoundAreFirstOccurrences(s, found);
    Sort(res);
    ghost var sorted := res[..];
    count := UniqueInPlace(res);
    DedupOfSorted(sorted);
    FirstOccurrencesSpec(s);
    forall x
      ensures x in Dedup(sorted) <==> x in FirstOccurrences(s)
    {
      assert x in sorted <==> x in multiset(sorted);
      assert x in found <==> x in multiset(found);
    }
    StrictlyIncreasingUnique(Dedup(sorted), FirstOccurrences(s));
  }

  /** `unique_value_sequence_t`: `indexed_t` of the filtered indices. */
  method UniqueValueSequence<T(==,!new)>(s: seq<T>) returns (r: seq<T>)
    ensures r == Unique(s)
    ensures |r| <= |s|
    ensures Distinct(r)
    ensures forall x :: x in r <==> x in s
  {
    var res, count := FilteredIndices(s);
    r := Indexed(s, res[..count]);
    UniqueIsDistinct(s);
    UniqueSameValues(s);
  }
}
