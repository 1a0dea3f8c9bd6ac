/**
 * `remove_at_t<Index...>`: the sequence without the constants at the
 * given positions.  The source sorts the indices, walks the candidate
 * positions 0 .. size() - 1 and copies every position that a binary
 * search does not find among the indices into a result buffer, counting
 * them; the new sequence is `indexed_t` of that buffer's filled prefix.
 */
module Removal {
  import opened Algorithms
  import opened Structure

  /** The positions below `n` that are not listed in `removed`, in ascending order. */
  function KeptIndices(n: nat, removed: seq<nat>): (r: seq<nat>)
    ensures InBounds(r, n)
  {
    if n == 0 then []
    else KeptIndices(n - 1, removed) + (if n - 1 in removed then [] else [n - 1])
  }

  /** The kept positions ascend strictly and are exactly the unlisted positions below `n`. */
  lemma {:induction false} KeptIndicesSpec(n: nat, removed: seq<nat>)
    ensures StrictlyIncreasing(KeptIndices(n, removed))
    ensures forall i :: i in KeptIndices(n, removed) <==> 0 <= i < n && i !in removed
  {
    if n > 0 {
      KeptIndicesSpec(n - 1, removed);
    }
  }

  /** The distinct listed positions that designate a constant of a sequence of length `n`. */
  ghost function RemovedInRange(n: nat, removed: seq<nat>): set<nat>
  {
    set i: nat | i in removed && i < n
  }

  /** Every listed position below `n` is removed, once; the others are kept. */
  lemma {:induction false} KeptIndicesLength(n: nat, removed: seq<nat>)
    ensures |KeptIndices(n, removed)| + |RemovedInRange(n, removed)| == n
  {
    if n > 0 {
      KeptIndicesLength(n - 1, removed);
      var m: nat := n - 1;
      if m in removed {
        assert RemovedInRange(n, removed) == RemovedInRange(m, removed) + {m};
      } else {
        assert RemovedInRange(n, removed) == RemovedInRange(m, removed);
      }
    }
  }

  /**
   * The sequence without the listed positions: the survivors in their
   * original relative order; repeated positions count once and positions
   * past the end are ignored.
   */
  function RemoveAt<T>(s: seq<T>, removed: seq<nat>): (r: seq<T>)
    ensures |r| == |s| - |RemovedInRange(|s|, removed)|
  {
    KeptIndicesLength(|s|, removed);
    Indexed(s, KeptIndices(|s|, removed))
  }

  /**
   * The array `select_indices` computes: the kept positions in its first
   * `index` slots.  The source's `std::array excepted = {Index...}` cannot
   * deduce its type from an empty list, so at least one index is needed.
   */
  method SelectIndices(n: nat, removed: seq<nat>) returns (res: array<nat>, index: nat)
    requires |removed| > 0
    ensures res.Length == n
    ensures index <= n
    ensures res[..index] == KeptIndices(n, removed)
  {
    res := new nat[n];
    var excepted := new nat[|removed|](k requires 0 <= k < |removed| => removed[k]);
    assert excepted[..] == removed;
    index := 0;
    Sort(excepted);
    ghost var sortedExcepted := excepted[..];
    var candidates := new nat[n](k requires 0 <= k < n => k);
    var c := 0;
    while c < n
      invariant 0 <= c <= n
      invariant index <= c
      invariant res[..index] == KeptIndices(c, removed)
      invariant excepted[..] == sortedExcepted
      invariant forall k :: 0 <= k < n ==> candidates[k] == k
    {
      var v := candidates[c];
      var excluded := BinarySearch(excepted, v);
      assert excluded <==> v in removed by {
        assert v in excepted[..] <==> v in multiset(excepted[..]);
      }
      assert KeptIndices(c + 1, removed) == KeptIndices(c, removed) + (if excluded then [] else [c]);
      if !excluded {
        ghost var kept := res[..index];
        res[index] := v;
        assert res[..index + 1] == kept + [v];
        index := index + 1;
      }
      c := c + 1;
    }
  }

  /** `remove_at_t<Index...>`: `indexed_t` of the selected positions. */
  method RemoveAtIndices<T>(s: seq<T>, removed: seq<nat>) returns (r: seq<T>)
    requires |removed| > 0
    ensures r == RemoveAt(s, removed)
    ensures |r| == |s| - |RemovedInRange(|s|, removed)|
    ensures forall x :: x in r ==> x in s
  {
    var res, index := SelectIndices(|s|, removed);
    r := Indexed(s, res[..index]);
  }

  /** Only the set of in-range listed positions matters: duplicates and positions past the end change nothing. */
  lemma RemoveAtDependsOnlyOnInRangeSet<T>(s: seq<T>, removed: seq<nat>, removed': seq<nat>)
    requires forall i :: 0 <= i < |s| ==> (i in removed <==> i in removed')
    ensures RemoveAt(s, removed) == RemoveAt(s, removed')
  {
    KeptIndicesSpec(|s|, removed);
    KeptIndicesSpec(|s|, removed');
    StrictlyIncreasingUnique(KeptIndices(|s|, removed), KeptIndices(|s|, removed'));
  }

  /** Removing the single position `index` keeps every position below it and shifts the rest down by one. */
  lemma KeptAllBut(n: nat, index: nat)
    requires index < n
    ensures KeptIndices(n, [index]) == seq(n - 1, k requires 0 <= k < n - 1 => if k < index then k else k + 1)
  {
    var expected: seq<nat> := seq(n - 1, k requires 0 <= k < n - 1 => if k < index then k else k + 1);
    assert StrictlyIncreasing(expected);
    forall i
      ensures i in expected <==> 0 <= i < n && i !in [index]
    {
      if 0 <= i < n && i != index {
        assert expected[if i < index then i else i - 1] == i;
      }
    }
    KeptIndicesSpec(n, [index]);
    StrictlyIncreasingUnique(KeptIndices(n, [index]), expected);
  }

  /** Removing the position just inserted gives back the original sequence. */
  lemma RemoveAtUndoesInsert<T>(s: seq<T>, index: nat, x: T)
    requires index <= |s|
    ensures RemoveAt(Insert(s, index, [x]), [index]) == s
  {
    var t := Insert(s, index, [x]);
    assert t == s[..index] + [x] + s[index..];
    KeptAllBut(|t|, index);
    var r := RemoveAt(t, [index]);
    forall k | 0 <= k < |s|
      ensures r[k] == s[k]
    {
      if k < index {
        assert r[k] == t[k];
      } else {
        assert r[k] == t[k + 1];
      }
    }
  }
}
