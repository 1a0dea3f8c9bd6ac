/**
 * The query members of `value_sequence`: `for_each`, `for_each_n`,
 * `find_if`, `find_if_not`, `find`, `count_if`, `count_if_not`, `count`,
 * `all_of`, `any_of`, `none_of`, `contains` and `adjacent_find`.
 *
 * The sequence's constants are a `seq<T>`; a projection is a `T -> U`.
 * Each loop of the source becomes a method proved equal to a
 * specification function (FirstMatch, MatchCount, Fold),
 * and the lemmas below state what those functions mean.
 */
module Queries {
  import opened Wrappers
  import opened Callables

  // ---------------------------------------------------------------------
  // Specification functions
  // ---------------------------------------------------------------------

  /** Index of the first element whose projection satisfies `pred`, or |s| when there is none. */
  function FirstMatch<T, U>(s: seq<T>, pred: U -> bool, proj: T -> U): (r: nat)
    ensures r <= |s|
    ensures r < |s| ==> pred(proj(s[r]))
    ensures forall k :: 0 <= k < r ==> !pred(proj(s[k]))
  {
    if |s| == 0 then 0
    else if pred(proj(s[0])) then 0
    else 1 + FirstMatch(s[1..], pred, proj)
  }

  /** Number of elements whose projection satisfies `pred`. */
  function MatchCount<T, U>(s: seq<T>, pred: U -> bool, proj: T -> U): (r: nat)
    ensures r <= |s|
  {
    if |s| == 0 then 0
    else MatchCount(s[..|s| - 1], pred, proj) + (if pred(proj(s[|s| - 1])) then 1 else 0)
  }

  /** The positions whose projected element satisfies `pred`. */
  ghost function MatchingIndices<T, U>(s: seq<T>, pred: U -> bool, proj: T -> U): set<nat>
  {
    set k: nat | k < |s| && pred(proj(s[k]))
  }

  /**
   * The state of a callable `func` after it has been invoked on the
   * projection of every element of `s`, in index order; `call` gives the
   * callable's state after one invocation.
   */
  function Fold<T, U, F>(s: seq<T>, call: (F, U) -> F, func: F, proj: T -> U): F
  {
    if |s| == 0 then func
    else call(Fold(s[..|s| - 1], call, func, proj), proj(s[|s| - 1]))
  }

  /** How many elements `for_each_n` hands to the callable: a count that starts negative never reaches 0. */
  function ProcessedCount(count: int, size: nat): (n: nat)
    ensures n <= size
    ensures 0 <= count ==> n == if count < size then count else size
    ensures count < 0 ==> n == size
  {
    if 0 <= count < size then count else size
  }

  /** The callable `count_if` hands to `for_each`: it increments the captured counter on a match. */
  function CountingCall<U(!new)>(pred: U -> bool): (call: (nat, U) -> nat)
    ensures forall i: nat, u: U :: i <= call(i, u) <= i + 1
    ensures forall i: nat, u: U :: call(i, u) == i + 1 <==> pred(u)
  {
    (i: nat, u: U) => if pred(u) then i + 1 else i
  }

  /** `by_index<I>`: the pair (i, i + 1) matches; a comparator that is not invocable there does not match. */
  predicate PairMatches<T, U>(s: seq<T>, comp: Comparator<U, U>, proj: T -> U, i: nat): (b: bool)
    requires i + 1 < |s|
    ensures b <==> comp(proj(s[i]), proj(s[i + 1])).Some? && comp(proj(s[i]), proj(s[i + 1])).value
    ensures comp(proj(s[i]), proj(s[i + 1])).None? ==> !b
  {
    comp(proj(s[i]), proj(s[i + 1])) == Some(true)
  }

  /** Number of non-matching pairs (i, i + 1), lo <= i < hi, scanned before the first matching one. */
  function PairsBeforeMatch<T, U>(s: seq<T>, comp: Comparator<U, U>, proj: T -> U, lo: nat, hi: nat): (r: nat)
    requires lo <= hi < |s|
    ensures lo + r <= hi
    ensures lo + r < hi ==> PairMatches(s, comp, proj, lo + r)
    ensures forall k :: lo <= k < lo + r ==> !PairMatches(s, comp, proj, k)
    decreases hi - lo
  {
    if lo == hi then 0
    else if PairMatches(s, comp, proj, lo) then 0
    else 1 + PairsBeforeMatch(s, comp, proj, lo + 1, hi)
  }

  /**
   * What `adjacent_find` returns, as written.  The index pack `I...` of
   * `impl` appears only in a parameter whose default argument is used, so
   * it is deduced empty and the fold over the pairs has no terms: the
   * count stays 0.  The defaulted `make_index_sequence<size() - 2>` can
   * initialise that empty `index_sequence<>` only when size() == 2, so
   * three or more elements do not compile.  Fewer than two elements take
   * the overload that returns size().
   */
  function AdjacentScan<T, U>(s: seq<T>, comp: Comparator<U, U>, proj: T -> U): (r: nat)
    requires |s| <= 2
    ensures |s| < 2 ==> r == |s|
    ensures |s| == 2 ==> r == 0
  {
    if |s| < 2 then |s| else 0
  }

  /**
   * What `adjacent_find` is evidently meant to return: the index of the
   * first pair (i, i + 1) that matches, every pair examined, and size()
   * when none does.
   */
  function AdjacentFindIntended<T, U>(s: seq<T>, comp: Comparator<U, U>, proj: T -> U): (r: nat)
    ensures r <= |s|
    ensures r < |s| ==> r + 1 < |s| && PairMatches(s, comp, proj, r)
    ensures forall k :: 0 <= k < r && k + 1 < |s| ==> !PairMatches(s, comp, proj, k)
    ensures r == |s| <==> forall k :: 0 <= k < |s| - 1 ==> !PairMatches(s, comp, proj, k)
  {
    if |s| < 2 then |s|
    else
      var r := PairsBeforeMatch(s, comp, proj, 0, |s| - 1);
      if r == |s| - 1 then |s| else r
  }

  // ---------------------------------------------------------------------
  // Lemmas about the specification functions
  // ---------------------------------------------------------------------

  /** `count_if` counts exactly the satisfying positions. */
  lemma {:induction false} MatchCountIsCardinality<T, U>(s: seq<T>, pred: U -> bool, proj: T -> U)
    ensures MatchCount(s, pred, proj) == |MatchingIndices(s, pred, proj)|
  {
    if |s| > 0 {
      var p := s[..|s| - 1];
      MatchCountIsCardinality(p, pred, proj);
      var last: nat := |s| - 1;
      if pred(proj(s[last])) {
        assert MatchingIndices(s, pred, proj) == MatchingIndices(p, pred, proj) + {last};
      } else {
        assert MatchingIndices(s, pred, proj) == MatchingIndices(p, pred, proj);
      }
    }
  }

  /** `count_if(p) + count_if_not(p) == size()`. */
  lemma {:induction false} MatchCountComplement<T, U(!new)>(s: seq<T>, pred: U -> bool, proj: T -> U)
    ensures MatchCount(s, pred, proj) + MatchCount(s, ValuePredicator(pred), proj) == |s|
  {
    if |s| > 0 {
      MatchCountComplement(s[..|s| - 1], pred, proj);
    }
  }

  /** `count_if` is 0 exactly when no element satisfies the predicate, i.e. when `find_if` returns size(). */
  lemma {:induction false} MatchCountZeroIff<T, U>(s: seq<T>, pred: U -> bool, proj: T -> U)
    ensures MatchCount(s, pred, proj) == 0 <==> forall k :: 0 <= k < |s| ==> !pred(proj(s[k]))
    ensures MatchCount(s, pred, proj) == 0 <==> FirstMatch(s, pred, proj) == |s|
  {
    if |s| > 0 {
      var p := s[..|s| - 1];
      MatchCountZeroIff(p, pred, proj);
      assert forall k :: 0 <= k < |p| ==> p[k] == s[k];
    }
  }

  /** Running the counting callable through `for_each` yields MatchCount: how `count_if` is built. */
  lemma {:induction false} CountingFoldIsMatchCount<T, U(!new)>(s: seq<T>, pred: U -> bool, proj: T -> U)
    ensures Fold(s, CountingCall(pred), 0, proj) == MatchCount(s, pred, proj)
  {
    if |s| > 0 {
      CountingFoldIsMatchCount(s[..|s| - 1], pred, proj);
    }
  }

  /** `for_each` over `append_t` is `for_each` over the second part, started from the callable the first part returned. */
  lemma {:induction false} FoldAppend<T, U, F>(a: seq<T>, b: seq<T>, call: (F, U) -> F, func: F, proj: T -> U)
    ensures Fold(a + b, call, func, proj) == Fold(b, call, Fold(a, call, func, proj), proj)
  {
    if |b| == 0 {
      assert a + b == a;
    } else {
      var b' := b[..|b| - 1];
      assert (a + b)[..|a + b| - 1] == a + b';
      FoldAppend(a, b', call, func, proj);
    }
  }

  /** `find_if` and `count_if` agree: the first match is inside the sequence exactly when the count is positive. */
  lemma FirstMatchFoundIffCounted<T, U>(s: seq<T>, pred: U -> bool, proj: T -> U)
    ensures FirstMatch(s, pred, proj) < |s| <==> MatchCount(s, pred, proj) > 0
  {
    MatchCountZeroIff(s, pred, proj);
  }

  // ---------------------------------------------------------------------
  // The algorithms
  // ---------------------------------------------------------------------

  /** `for_each`: invokes the callable on every projected element in index order and returns it. */
  method ForEach<T, U, F>(s: seq<T>, call: (F, U) -> F, func: F, proj: T -> U) returns (after: F)
    ensures after == Fold(s, call, func, proj)
  {
    after := func;
    var i := 0;
    while i < |s|
      invariant 0 <= i <= |s|
      invariant after == Fold(s[..i], call, func, proj)
    {
      assert s[..i + 1][..i] == s[..i];
      after := call(after, proj(s[i]));
      i := i + 1;
    }
    assert s[..i] == s;
  }

  /**
   * `for_each_n`: invokes the callable on the first elements while the
   * remaining count is not 0, decrementing it after each call.
   */
  method ForEachN<T, U, F>(s: seq<T>, count: int, call: (F, U) -> F, func: F, proj: T -> U) returns (after: F)
    ensures after == Fold(s[..ProcessedCount(count, |s|)], call, func, proj)
    ensures count == 0 ==> after == func
    ensures (count < 0 || |s| <= count) ==> after == Fold(s, call, func, proj)
  {
    after := func;
    var remaining := count;
    var i := 0;
    while i < |s| && remaining != 0
      invariant 0 <= i <= |s|
      invariant remaining == count - i
      invariant 0 <= count ==> i <= count
      invariant after == Fold(s[..i], call, func, proj)
    {
      assert s[..i + 1][..i] == s[..i];
      after := call(after, proj(s[i]));
      remaining := remaining - 1;
      i := i + 1;
    }
    assert s[..|s|] == s;
  }

  /** `find_if`: counts the elements before the first one whose projection satisfies `pred`. */
  method FindIf<T, U>(s: seq<T>, pred: U -> bool, proj: T -> U) returns (i: nat)
    ensures i == FirstMatch(s, pred, proj)
    ensures i <= |s|
    ensures i < |s| ==> pred(proj(s[i]))
    ensures forall k :: 0 <= k < i ==> !pred(proj(s[k]))
  {
    i := 0;
    while i < |s| && !pred(proj(s[i]))
      invariant i <= |s|
      invariant forall k :: 0 <= k < i ==> !pred(proj(s[k]))
    {
      i := i + 1;
    }
  }

  /** `find_if_not`: `find_if` with the predicate's truth value inverted. */
  method FindIfNot<T, U(!new)>(s: seq<T>, pred: U -> bool, proj: T -> U) returns (i: nat)
    ensures i == FirstMatch(s, ValuePredicator(pred), proj)
    ensures i <= |s|
    ensures i < |s| ==> !pred(proj(s[i]))
    ensures forall k :: 0 <= k < i ==> pred(proj(s[k]))
  {
    i := FindIf(s, ValuePredicator(pred), proj);
  }

  /**
   * `find`: `find_if` with the predicate `x -> comp(proj(x), value)`; the
   * searched value is the right operand and is never projected, and an
   * element the comparator cannot take is a non-match.
   */
  method Find<T, U(!new), V>(s: seq<T>, value: V, comp: Comparator<U, V>, proj: T -> U) returns (i: nat)
    ensures i == FirstMatch(s, ValueComparer(value, comp), proj)
    ensures i <= |s|
    ensures i < |s| ==> comp(proj(s[i]), value) == Some(true)
    ensures forall k :: 0 <= k < i ==> comp(proj(s[k]), value) != Some(true)
  {
    i := FindIf(s, ValueComparer(value, comp), proj);
  }

  /** `count_if`: `for_each` with a callable that increments a counter on every match. */
  method CountIf<T, U(!new)>(s: seq<T>, pred: U -> bool, proj: T -> U) returns (n: nat)
    ensures n == MatchCount(s, pred, proj)
    ensures n == |MatchingIndices(s, pred, proj)|
  {
    n := ForEach(s, CountingCall(pred), 0, proj);
    CountingFoldIsMatchCount(s, pred, proj);
    MatchCountIsCardinality(s, pred, proj);
  }

  /** `count_if_not`: `count_if` with the predicate's truth value inverted. */
  method CountIfNot<T, U(!new)>(s: seq<T>, pred: U -> bool, proj: T -> U) returns (n: nat)
    ensures n == MatchCount(s, ValuePredicator(pred), proj)
    ensures n == |s| - MatchCount(s, pred, proj)
  {
    n := CountIf(s, ValuePredicator(pred), proj);
    MatchCountComplement(s, pred, proj);
  }

  /** `count`: `count_if` with the predicate `x -> comp(proj(x), value)`. */
  method Count<T, U(!new), V>(s: seq<T>, value: V, comp: Comparator<U, V>, proj: T -> U) returns (n: nat)
    ensures n == MatchCount(s, ValueComparer(value, comp), proj)
    ensures n == |set k: nat | k < |s| && comp(proj(s[k]), value) == Some(true)|
  {
    n := CountIf(s, ValueComparer(value, comp), proj);
    assert MatchingIndices(s, ValueComparer(value, comp), proj)
        == set k: nat | k < |s| && comp(proj(s[k]), value) == Some(true);
  }

  /** `all_of`: `find_if_not` reaches size(). */
  method AllOf<T, U(!new)>(s: seq<T>, pred: U -> bool, proj: T -> U) returns (b: bool)
    ensures b <==> FirstMatch(s, ValuePredicator(pred), proj) == |s|
    ensures b <==> forall k :: 0 <= k < |s| ==> pred(proj(s[k]))
  {
    var i := FindIfNot(s, pred, proj);
    b := i == |s|;
  }

  /** `any_of`: `find_if` stops before size(). */
  method AnyOf<T, U>(s: seq<T>, pred: U -> bool, proj: T -> U) returns (b: bool)
    ensures b <==> FirstMatch(s, pred, proj) != |s|
    ensures b <==> exists k :: 0 <= k < |s| && pred(proj(s[k]))
  {
    var i := FindIf(s, pred, proj);
    b := i != |s|;
  }

  /** `none_of`: `find_if` reaches size(). */
  method NoneOf<T, U>(s: seq<T>, pred: U -> bool, proj: T -> U) returns (b: bool)
    ensures b <==> FirstMatch(s, pred, proj) == |s|
    ensures b <==> forall k :: 0 <= k < |s| ==> !pred(proj(s[k]))
  {
    var i := FindIf(s, pred, proj);
    b := i == |s|;
  }

  /**
   * `contains(value, comp)`: `find(value, comp)` stops before size().  The
   * second argument fills `find`'s comparator slot and there is no slot
   * left for a projection, so the elements are compared unprojected.
   */
  method Contains<T(!new), V>(s: seq<T>, value: V, comp: Comparator<T, V>) returns (b: bool)
    ensures b <==> FirstMatch(s, ValueComparer(value, comp), Identity()) != |s|
    ensures b <==> exists k :: 0 <= k < |s| && comp(s[k], value) == Some(true)
  {
    var i := Find(s, value, comp, Identity());
    b := i != |s|;
  }

  /**
   * `contains(value)` as written: the missing comparator defaults to
   * `std::identity`, which no pair of arguments can invoke, so no element
   * ever matches.
   */
  method ContainsWithoutComparator<T(!new), V>(s: seq<T>, value: V) returns (b: bool)
    ensures !b
  {
    b := Contains(s, value, NotInvocable());
  }

  /** `contains(value)` as evidently intended: the comparator defaults to `equal_to`. */
  method ContainsValue<T(==,!new)>(s: seq<T>, value: T) returns (b: bool)
    ensures b <==> value in s
  {
    b := Contains(s, value, EqualTo());
  }

  /**
   * `adjacent_find`, as written: fewer than two elements return size();
   * two elements return the count the empty fold leaves, 0, without calling
   * the comparator.  Three or more elements do not compile.
   */
  method AdjacentFind<T, U>(s: seq<T>, comp: Comparator<U, U>, proj: T -> U) returns (res: nat)
    requires |s| <= 2
    ensures res == AdjacentScan(s, comp, proj)
    ensures res == |s| <==> |s| < 2
    ensures res < |s| ==> res + 1 < |s|
  {
    if |s| < 2 {
      return |s|;
    }
    res := 0;
  }

  /**
   * Where `adjacent_find` compiles, it agrees with the intended search
   * exactly when there is no pair or the one pair matches; the comparator
   * never changes its answer.
   */
  lemma AdjacentScanAgreesIff<T, U>(s: seq<T>, comp: Comparator<U, U>, comp': Comparator<U, U>, proj: T -> U)
    requires |s| <= 2
    ensures AdjacentScan(s, comp, proj) == AdjacentScan(s, comp', proj)
    ensures AdjacentScan(s, comp, proj) == AdjacentFindIntended(s, comp, proj)
      <==> |s| < 2 || PairMatches(s, comp, proj, 0)
  {
    if |s| == 2 {
      assert PairsBeforeMatch(s, comp, proj, 0, 1) == if PairMatches(s, comp, proj, 0) then 0 else 1;
    }
  }

  /**
   * The discrepancy in `adjacent_find`: on [1, 2] it returns 0 although
   * the pair (0, 1) does not match; the intended answer is size().
   */
  lemma AdjacentFindMisreportsNoMatch()
    ensures AdjacentScan([1, 2], EqualTo(), Identity()) == 0
    ensures !PairMatches([1, 2], EqualTo(), Identity(), 0)
    ensures AdjacentFindIntended([1, 2], EqualTo(), Identity()) == 2
  {
    AdjacentScanAgreesIff([1, 2], EqualTo(), EqualTo(), Identity());
  }
}
