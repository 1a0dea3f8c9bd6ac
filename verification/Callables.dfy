/**
 * The callables the value-sequence algorithms pass around.
 *
 * In the C++ source a comparator may simply not be invocable for the
 * types of a given pair of operands; the algorithms then treat the pair
 * as a non-match instead of failing.  With a single element type that
 * choice is made explicit: a comparator returns `None` where the C++
 * overload set would have no viable candidate.
 */
module Callables {
  import opened Wrappers

  /** A binary comparator; `None` means "not invocable for these operands". */
  type Comparator<!L, !R> = (L, R) -> Option<bool>

  /** `std::ranges::equal_to`, invocable on every pair of one element type. */
  function EqualTo<X(==)>(): Comparator<X, X>
  {
    (a: X, b: X) => Some(a == b)
  }

  /** A callable that accepts no pair of arguments, such as `std::identity` asked to take two. */
  function NotInvocable<L, R>(): Comparator<L, R>
  {
    (a: L, b: R) => None
  }

  /** `std::identity`, the default projection. */
  function Identity<X>(): X -> X
  {
    x => x
  }

  /**
   * `value_comparer`: fixes the searched value as the RIGHT operand of the
   * comparator; an element for which the comparator is not invocable
   * does not match.
   */
  function ValueComparer<U(!new), V>(value: V, comp: Comparator<U, V>): (p: U -> bool)
    ensures forall u :: p(u) <==> comp(u, value) == Some(true)
    ensures forall u :: comp(u, value) == None ==> !p(u)
  {
    u => match comp(u, value)
         case Some(b) => b
         case None => false
  }

  /** `make_value_predicator`: the predicate with its truth value inverted. */
  function ValuePredicator<U(!new)>(pred: U -> bool): (p: U -> bool)
    ensures forall u :: p(u) != pred(u)
  {
    u => !pred(u)
  }
}
