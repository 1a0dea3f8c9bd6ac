/**
 * The structural members of `value_sequence`, each of which builds a new
 * sequence: `get`, `indexed_t`, `select_range_indexed_t`, `front_t`,
 * `back_t`, `append_t`, `append_front_t`, `insert_t`, `replace_t`,
 * `transform`, and the generator `make_value_sequence_t` together with
 * `reverse_value_sequence_t`, which is built on it.
 *
 * In the C++ source these are type aliases evaluated by the compiler; an
 * index out of range does not compile, so it is a precondition here.
 */
module Structure {

  /** Every index of `idx` designates an element of a sequence of length `n`. */
  predicate InBounds(idx: seq<int>, n: nat)
  {
    forall k :: 0 <= k < |idx| ==> 0 <= idx[k] < n
  }

  /** `get<I>()`: the constant at position I. */
  function Get<T>(s: seq<T>, i: nat): (r: T)
    requires i < |s|
    ensures s == s[..i] + [r] + s[i + 1..]
  {
    s[i]
  }

  /** `indexed_t<I...>`: the sequence `get<I>()...`, one element per index, in the order given. */
  function Indexed<T>(s: seq<T>, idx: seq<int>): (r: seq<T>)
    requires InBounds(idx, |s|)
    ensures |r| == |idx|
    ensures forall k :: 0 <= k < |idx| ==> r[k] == Get(s, idx[k])
  {
    seq(|idx|, k requires 0 <= k < |idx| => s[idx[k]])
  }

  /** `make_value_sequence_t<From, Size, PlusF>`: the values `PlusF(From, I)` for I = 0 .. Size - 1. */
  function MakeValueSequence<X>(from: X, size: nat, plus: (X, nat) -> X): (r: seq<X>)
    ensures |r| == size
    ensures forall i: nat :: i < size ==> r[i] == plus(from, i)
  {
    seq(size, i requires 0 <= i < size => plus(from, i))
  }

  /** `select_range_indexed_t<From, Size>`: indexing by the progression From, From + 1, ... is the slice. */
  function SelectRange<T>(s: seq<T>, from: nat, size: nat): (r: seq<T>)
    requires from + size <= |s|
    ensures r == s[from..from + size]
  {
    Indexed(s, MakeValueSequence(from, size, (a: int, i: nat) => a + i))
  }

  /** `front_t<Size>`: the first Size constants. */
  function Front<T>(s: seq<T>, size: nat): (r: seq<T>)
    requires size <= |s|
    ensures r == s[..size]
  {
    SelectRange(s, 0, size)
  }

  /** `back_t<Size>`: the last Size constants. */
  function Back<T>(s: seq<T>, size: nat): (r: seq<T>)
    requires size <= |s|
    ensures r == s[|s| - size..]
  {
    SelectRange(s, |s| - size, size)
  }

  /** `append_t<Others...>`: the constants followed by the others. */
  function Append<T>(s: seq<T>, others: seq<T>): (r: seq<T>)
    ensures |r| == |s| + |others|
    ensures Front(r, |s|) == s && Back(r, |others|) == others
  {
    s + others
  }

  /** `append_front_t<Others...>`: the others followed by the constants. */
  function AppendFront<T>(s: seq<T>, others: seq<T>): (r: seq<T>)
    ensures |r| == |s| + |others|
    ensures Front(r, |others|) == others && Back(r, |s|) == s
  {
    others + s
  }

  /** `insert_t<Index, Others...>`: `front_t<Index>`, then the others, then `back_t<size() - Index>`. */
  function Insert<T>(s: seq<T>, index: nat, others: seq<T>): (r: seq<T>)
    requires index <= |s|
    ensures |r| == |s| + |others|
    ensures r[..index] == s[..index]
    ensures r[index..index + |others|] == others
    ensures r[index + |others|..] == s[index..]
  {
    Append(Append(Front(s, index), others), Back(s, |s| - index))
  }

  /** `replace_t<Index, Other>`: `front_t<Index>`, then Other, then `back_t<size() - Index - 1>`. */
  function Replace<T>(s: seq<T>, index: nat, other: T): (r: seq<T>)
    requires index < |s|
    ensures |r| == |s|
    ensures r[index] == other
    ensures forall k :: 0 <= k < |s| && k != index ==> r[k] == s[k]
  {
    var front, back := Front(s, index), Back(s, |s| - index - 1);
    assert back == s[index + 1..];
    Append(Append(front, [other]), back)
  }

  /**
   * `transform<Func...>`: one callable applied to every constant, or one
   * callable per slot when there are as many as constants (any other
   * count does not compile).
   */
  function Transform<T, R>(s: seq<T>, fs: seq<T -> R>): (r: seq<R>)
    requires |fs| == 1 || |fs| == |s|
    ensures |r| == |s|
    ensures forall i :: 0 <= i < |s| ==> r[i] == (if |fs| == 1 then fs[0] else fs[i])(s[i])
  {
    if |fs| == 1 then seq(|s|, i requires 0 <= i < |s| => fs[0](s[i]))
    else seq(|s|, i requires 0 <= i < |s| => fs[i](s[i]))
  }

  /** `reverse_value_sequence_t`: the constants indexed by the progression size() - 1, size() - 2, ..., 0. */
  function Reverse<T>(s: seq<T>): (r: seq<T>)
    ensures |r| == |s|
    ensures forall i :: 0 <= i < |s| ==> r[i] == s[|s| - 1 - i]
  {
    Indexed(s, MakeValueSequence(|s| - 1, |s|, (a: int, i: nat) => a - i))
  }

  // ---------------------------------------------------------------------
  // Lemmas relating the operations
  // ---------------------------------------------------------------------

  /** Indexing twice is indexing once by the composed index sequence. */
  lemma IndexedComposition<T>(s: seq<T>, outer: seq<int>, inner: seq<int>)
    requires InBounds(outer, |s|) && InBounds(inner, |outer|)
    ensures InBounds(Indexed(outer, inner), |s|)
    ensures Indexed(Indexed(s, outer), inner) == Indexed(s, Indexed(outer, inner))
  {
  }

  /** `front_t<K> ++ back_t<size() - K>` is the sequence itself. */
  lemma FrontBackSplit<T>(s: seq<T>, k: nat)
    requires k <= |s|
    ensures Front(s, k) + Back(s, |s| - k) == s
  {
    assert s[..k] + s[k..] == s;
  }

  /** Inserting at the back is `append_t`; inserting at the front is `append_front_t`. */
  lemma InsertAtEnds<T>(s: seq<T>, others: seq<T>)
    ensures Insert(s, |s|, others) == Append(s, others)
    ensures Insert(s, 0, others) == AppendFront(s, others)
  {
    var r := Insert(s, |s|, others);
    assert r == r[..|s|] + r[|s|..|s| + |others|] + r[|s| + |others|..];
    var q := Insert(s, 0, others);
    assert q == q[..0] + q[0..|others|] + q[|others|..];
  }

  /** Replacing at I with the constant that was there undoes an earlier replacement. */
  lemma ReplaceRestores<T>(s: seq<T>, index: nat, other: T)
    requires index < |s|
    ensures Replace(Replace(s, index, other), index, s[index]) == s
  {
  }

  /** Reversing twice gives back the original sequence. */
  lemma ReverseInvolutive<T>(s: seq<T>)
    ensures Reverse(Reverse(s)) == s
  {
  }

  /** Reversal and a shared transform commute. */
  lemma TransformCommutesWithReverse<T, R>(s: seq<T>, f: T -> R)
    ensures Transform(Reverse(s), [f]) == Reverse(Transform(s, [f]))
  {
  }

  /** A shared transform distributes over `append_t`. */
  lemma TransformAppend<T, R>(a: seq<T>, b: seq<T>, f: T -> R)
    ensures Transform(Append(a, b), [f]) == Append(Transform(a, [f]), Transform(b, [f]))
  {
    var lhs, ta, tb := Transform(Append(a, b), [f]), Transform(a, [f]), Transform(b, [f]);
    forall i | 0 <= i < |lhs|
      ensures lhs[i] == (ta + tb)[i]
    {
      if i < |a| {
        assert (a + b)[i] == a[i];
      } else {
        assert (a + b)[i] == b[i - |a|];
      }
    }
    assert lhs == ta + tb;
  }
}
