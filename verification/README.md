# value_sequence — a Dafny model

This project models `stdsharp::type_traits::value_sequence`
(`include/type_traits/value_sequence.h`): a fixed, ordered list of
constants with a closed set of algorithms. The constants and every
structural edit are fixed at compile time. The queries are `constexpr`
call operators and run at compile time or at run time, depending on the
callable. The behaviour underneath is ordinary sequence logic, and that
is what the model states and proves.

- The constants are a `seq<T>` with a single element type `T`.
- A projection is a function `T -> U` and a predicate is a `U -> bool`.
- A comparator is a `(L, R) -> Option<bool>` (`Callables.Comparator`).
  `None` means that the comparator cannot be invoked for that pair of
  operands. The C++ code chooses an overload that answers `false` in that
  case (`value_comparer`, `by_index`), so such an element never matches
  and never causes an error.
- A callable that `for_each` and `for_each_n` invoke and then return is a
  state `F` together with a step `(F, U) -> F`. What they return is the
  state after the calls.

Modules:

- `Callables`: `value_comparer`, `make_value_predicator`, `equal_to`,
  `identity`.
- `Queries`: `for_each`, `for_each_n`, the `find`/`count` families,
  `all_of`/`any_of`/`none_of`/`contains`, `adjacent_find`.
- `Structure`: `get`, `indexed_t`, `make_value_sequence_t`,
  `select_range_indexed_t`, `front_t`/`back_t`, `append_t`/`append_front_t`,
  `insert_t`, `replace_t`, `transform`, `reverse_value_sequence_t`.
- `Algorithms`: the standard algorithms that the source runs on its index
  arrays (`std::ranges::sort`, `std::ranges::binary_search`,
  `std::unique`).
- `Removal`: `remove_at_t`.
- `Uniqueness`: `unique_value_sequence_t`.

The source's loops and in-place array updates are methods with loop
invariants:

- the captured counters of `find_if`, `count_if` and `for_each_n`;
- the `copy_if` into `std::array res` in `remove_at`;
- the sort followed by `std::unique` in `unique_value_sequence`.

Each method is proved equal to a specification function, and lemmas state
what those functions mean. The pure aliases are Dafny functions.

Three behaviours of the code that a reader may not expect; the model
follows the code:

- `adjacent_find` compiles only for at most two elements. Its index pack
  is deduced empty, so for two elements it returns 0 without calling the
  comparator, even when the pair does not match.
- `for_each_n` with a negative count processes every element. The count
  is decremented and never reaches 0.
- `contains(v)` with no comparator is always false.

## Model

| member | source | states |
|---|---|---|
| Callables.ValueComparer | include/type_traits/value_sequence.h:116-143 | The predicate holds of `u` exactly when `comp(u, value)` is invocable and true. The searched value is the right operand. A non-invocable comparator gives a non-match. |
| Callables.ValuePredicator | include/type_traits/value_sequence.h:26-34 | The predicate's truth value is inverted at every argument. |
| Queries.FirstMatch | include/type_traits/value_sequence.h:376-404 | The result is at most size(). When below size(), the element there satisfies the predicate after projection. No earlier element does. So the result is 0 on an empty sequence. |
| Queries.FindIf | include/type_traits/value_sequence.h:376-404 | The counter loop returns FirstMatch: the index of the first satisfying element, or size(). |
| Queries.FindIfNot | include/type_traits/value_sequence.h:270-283 | `find_if` with the inverted predicate: the first element that fails the predicate, or size(). |
| Queries.Find | include/type_traits/value_sequence.h:285-318 | `find_if` with `x -> comp(proj(x), v)`: the first element whose projection compares true against `v`, or size(). Non-invocable elements are skipped. |
| Queries.ForEach | include/type_traits/value_sequence.h:336-349 | The returned callable is the given one after one call per projected element, in index order (Fold). |
| Queries.ForEachN | include/type_traits/value_sequence.h:351-374 | Only the first `count` elements are processed, all of them when `count` is at least size() or negative. Count 0 returns the callable untouched. |
| Queries.CountIf | include/type_traits/value_sequence.h:410-430 | Built on ForEach with a counting callable. Returns MatchCount, which equals the number of satisfying positions. |
| Queries.CountIfNot | include/type_traits/value_sequence.h:432 | Counts the failing elements, which is size() minus `count_if`. |
| Queries.Count | include/type_traits/value_sequence.h:434 | Counts the positions whose projection compares true against `v`. |
| Queries.AllOf | include/type_traits/value_sequence.h:436 | True iff `find_if_not` returns size(), iff every projected element satisfies the predicate. |
| Queries.AnyOf | include/type_traits/value_sequence.h:438 | True iff `find_if` returns something other than size(), iff some element satisfies the predicate. |
| Queries.NoneOf | include/type_traits/value_sequence.h:440 | True iff `find_if` returns size(), iff no element satisfies the predicate. Hence any_of == !none_of. |
| Queries.Contains | include/type_traits/value_sequence.h:320-333 | True iff `find(v, comp)` returns something other than size(), iff some unprojected element compares true against `v`. The second argument lands in the comparator slot. |
| Queries.ContainsWithoutComparator | include/type_traits/value_sequence.h:325-329 | As written, `contains(v)` passes `std::identity` as the comparator. It is not binary-invocable, so the result is always false. |
| Queries.ContainsValue | include/type_traits/value_sequence.h:442 | Corrected: with `equal_to` as the comparator, `contains(v)` is true iff `v` is in the sequence. |
| Queries.AdjacentScan | include/type_traits/value_sequence.h:473-489 | Defined for at most two elements, the only sizes that compile. Fewer than two give size(). Two give 0, because the fold over the deduced-empty pack `I...` leaves the count at its initial value. |
| Queries.AdjacentFind | include/type_traits/value_sequence.h:444-507 | Returns AdjacentScan. The result is size() iff there are fewer than two elements, and otherwise it names the one pair. |
| Queries.AdjacentScanAgreesIff | include/type_traits/value_sequence.h:475-488 | Where `adjacent_find` compiles, the comparator never changes its answer. It agrees with the intended search iff there is no pair or the one pair matches. |
| Queries.AdjacentFindIntended | include/type_traits/value_sequence.h:479 | Corrected: the first matching pair over all pairs, and size() exactly when no pair matches. |
| Queries.AdjacentFindMisreportsNoMatch | include/type_traits/value_sequence.h:479 | On [1, 2] the source returns 0 although 1 != 2. The corrected version returns size(), 2. |
| Queries.PairMatches | include/type_traits/value_sequence.h:447-471 | The pair (i, i+1) matches iff the comparator can be called on the projected pair and returns true. When it cannot be called, the fallback overload answers false. |
| Queries.CountingCall | include/type_traits/value_sequence.h:418-424 | The counting callable raises the captured counter by at most one per call, and by exactly one iff the element satisfies the predicate. |
| Queries.MatchCountIsCardinality | include/type_traits/value_sequence.h:416-428 | `count_if` equals the number of satisfying positions. |
| Queries.MatchCountComplement | include/type_traits/value_sequence.h:432 | count_if(p) + count_if_not(p) == size(). |
| Queries.MatchCountZeroIff | include/type_traits/value_sequence.h:436-440 | The count is 0 iff no element satisfies the predicate, iff `find_if` returns size(). |
| Queries.FirstMatchFoundIffCounted | include/type_traits/value_sequence.h:376-430 | `find_if` stops inside the sequence iff `count_if` is positive. |
| Queries.CountingFoldIsMatchCount | include/type_traits/value_sequence.h:416-428 | Running the counting callable through `for_each` from 0 yields the match count. |
| Queries.FoldAppend | include/type_traits/value_sequence.h:343-348 | `for_each` over a + b is `for_each` over b, started from the callable that `for_each` over a returned. |
| Structure.Get | include/type_traits/value_sequence.h:188-201 | The sequence is front_t<I> ++ [get<I>()] ++ the rest. |
| Structure.Indexed | include/type_traits/value_sequence.h:235-236 | One element per index, in the order given. Element k is get<idx[k]>(). |
| Structure.MakeValueSequence | include/type_traits/value_sequence.h:19-24 | Size elements, element I being PlusF(From, I). These are the progressions that select_range and reverse index by. |
| Structure.SelectRange | include/type_traits/value_sequence.h:265-268 | Indexing by From + I for I < Size is the slice s[From..From+Size]. |
| Structure.Front | include/type_traits/value_sequence.h:525-526 | front_t<K> is s[..K]. |
| Structure.Back | include/type_traits/value_sequence.h:522-523 | back_t<K> is the last K elements. |
| Structure.Append | include/type_traits/value_sequence.h:528-529 | Length N + M. Its front N elements are the sequence and its back M elements are the others. |
| Structure.AppendFront | include/type_traits/value_sequence.h:534-535 | Length N + M. Its front M elements are the others and its back N elements are the sequence. |
| Structure.Insert | include/type_traits/value_sequence.h:540-549 | The result is s[..I] ++ Os ++ s[I..], of length N + \|Os\|. |
| Structure.Replace | include/type_traits/value_sequence.h:614-618 | Length N. Holds O at position I and leaves every other position unchanged. |
| Structure.Transform | include/type_traits/value_sequence.h:251-263 | Same length. Element i is the shared callable, or the i-th callable, applied to element i. |
| Structure.Reverse | include/type_traits/value_sequence.h:51-65 | Built by indexing with N-1, N-2, ..., 0. Same length, with element i equal to s[N-1-i]. |
| Structure.IndexedComposition | include/type_traits/value_sequence.h:247-248 | Indexing by a sequence of indices, then by another, is indexing once by the composed indices. |
| Structure.FrontBackSplit | include/type_traits/value_sequence.h:522-526 | front_t<K> ++ back_t<N-K> == s. |
| Structure.InsertAtEnds | include/type_traits/value_sequence.h:540-549 | insert_t at N is append_t. insert_t at 0 is append_front_t. |
| Structure.ReplaceRestores | include/type_traits/value_sequence.h:614-618 | Replacing position I again with its original constant undoes a replacement. |
| Structure.ReverseInvolutive | include/type_traits/value_sequence.h:170-171 | Reversing twice gives back the original sequence. |
| Structure.TransformCommutesWithReverse | include/type_traits/value_sequence.h:509-513 | A shared transform commutes with reversal. |
| Structure.TransformAppend | include/type_traits/value_sequence.h:256-261 | A shared transform distributes over append_t. |
| Algorithms.Sort | include/type_traits/value_sequence.h:560 | The index array ends up sorted and is a permutation of what it held. |
| Algorithms.BinarySearch | include/type_traits/value_sequence.h:584 | On a sorted array, true iff the value occurs in it. |
| Algorithms.UniqueInPlace | include/type_traits/value_sequence.h:80 | The returned count is at most the length. The prefix of that length is the input with adjacent duplicates collapsed. |
| Algorithms.Dedup | include/type_traits/value_sequence.h:80 | Collapsing runs never lengthens a sequence, keeps its last element, and adds no value. |
| Algorithms.DedupOfSorted | include/type_traits/value_sequence.h:77-80 | A sorted sequence with its runs collapsed is strictly increasing and holds the same values. |
| Removal.KeptIndices | include/type_traits/value_sequence.h:574-591 | Every kept position designates an element. |
| Removal.KeptIndicesSpec | include/type_traits/value_sequence.h:574-591 | The kept positions ascend strictly and are exactly the positions below N that are not listed. |
| Removal.KeptIndicesLength | include/type_traits/value_sequence.h:551-599 | Kept plus distinct in-range listed positions equals N. |
| Removal.RemoveAt | include/type_traits/value_sequence.h:594-598 | The length is N minus the number of distinct in-range listed positions. |
| Removal.SelectIndices | include/type_traits/value_sequence.h:554-592 | Sort the listed indices, then copy every candidate that binary search does not find. The result is the kept positions in the array's first `index` slots. |
| Removal.RemoveAtIndices | include/type_traits/value_sequence.h:608-609 | Equals RemoveAt: the survivors in original order, with length N minus the distinct in-range indices. |
| Removal.RemoveAtDependsOnlyOnInRangeSet | include/type_traits/value_sequence.h:557-560 | Duplicate indices and indices at or past N change nothing. |
| Removal.RemoveAtUndoesInsert | include/type_traits/value_sequence.h:602-609 | remove_at_t<I> after insert_t<I, X> gives back the original sequence. |
| Uniqueness.FirstOccurrences | include/type_traits/value_sequence.h:72-81 | At most N positions, each designating an element. |
| Uniqueness.FirstOccurrencesSpec | include/type_traits/value_sequence.h:72-81 | The positions ascend strictly and are exactly those whose value does not occur earlier. |
| Uniqueness.FirstOccurrencesIncreasing | include/type_traits/value_sequence.h:77-80 | The first-occurrence positions ascend strictly, which is the order sort and unique leave them in. |
| Uniqueness.FoundAreFirstOccurrences | include/type_traits/value_sequence.h:74-76 | The indices `find` returns for the constants are, as a set, exactly the first-occurrence positions. |
| Uniqueness.FirstOccurrencesOfDistinct | include/type_traits/value_sequence.h:72-81 | Without repeated values, every position 0 .. N-1 is kept, in order. |
| Uniqueness.FirstIndexOfSpec | include/type_traits/value_sequence.h:74-76 | find(s[i]) lands at or before i, on an equal value that is a first occurrence. It lands on i itself when s[i] is one. |
| Uniqueness.Unique | include/type_traits/value_sequence.h:89-91 | The output length is at most N. |
| Uniqueness.UniqueIsDistinct | include/type_traits/value_sequence.h:67-92 | No two output elements are equal. |
| Uniqueness.UniqueSameValues | include/type_traits/value_sequence.h:67-92 | The output holds exactly the values of the input. |
| Uniqueness.UniqueOfDistinct | include/type_traits/value_sequence.h:67-92 | On a sequence without repeats, unique changes nothing. |
| Uniqueness.UniqueIdempotent | include/type_traits/value_sequence.h:173-174 | Applying unique twice is applying it once. |
| Uniqueness.FilteredIndices | include/type_traits/value_sequence.h:72-81 | `find` for every element, then sort, then `std::unique`. Leaves exactly the first-occurrence positions, ascending, in the array's prefix. |
| Uniqueness.UniqueValueSequence | include/type_traits/value_sequence.h:83-91 | Equals Unique. Distinct, the same values as the input, and no longer than it. |

## Findings

| source | as written | input that shows it | evidently intended | confidence | as-written member | corrected member |
|---|---|---|---|---|---|---|
| include/type_traits/value_sequence.h:479 | `impl`'s index pack `I...` (:475) appears only in the defaulted parameter at :479, so it is deduced empty. The fold at :486 has no terms and returns 0 for two elements without comparing them. `make_index_sequence<size() - 2>` cannot initialise `index_sequence<>` for three or more elements, so those do not compile. | [1, 2] with `equal_to` gives 0 although 1 != 2. [3, 1, 4, 1, 5] does not compile. | Examine every pair and return size() when none matches, as the size() < 2 overload does. | not executed; high | Queries.AdjacentFindMisreportsNoMatch | Queries.AdjacentFindIntended |
| include/type_traits/value_sequence.h:325-329 | `contains(v)` forwards its defaulted second argument, `std::identity`, into `find`'s comparator slot. Identity cannot take two arguments, so every element is a non-match. | [3] with contains(3) gives false. | Default to `equal_to`, so that contains(3) on [3] is true. | not executed; high | Queries.ContainsWithoutComparator | Queries.ContainsValue |

## Left out

- `include/functional/projection.h`: `projected_invoke` and the
  `projector` adapter are not part of this model. Projection appears only
  as the `proj` argument of the algorithms. The customization-point
  override that `projected_invoke` consults (`cpo.h`) is not visible.
- `include/stdsharp/functional/invoke.h`: `optional_invoke`,
  `conditional_invoke`, `invoke_r`, `returnable_invoke` and `merge_invoke`
  are not part of this model. They concern C++ overload selection and
  result types.
- `tests/src/property/property_test.cpp` is not part of this model. It
  tests the property wrappers, not the value sequence.
- C++ type machinery is not modelled:
  - `noexcept` specifications and concept checks;
  - `as_value_sequence_t`, `apply_t`, `invoke_fn`;
  - the `*_by_seq_t` aliases (the same operations fed by another sequence);
  - the `std::tuple_size`/`std::tuple_element` specialisations;
  - the `_MSC_VER` branch of `remove_at`, which computes the same array
    without the candidate buffer.
- Per-slot heterogeneous types: a single element type is used. A type
  that a comparator cannot accept is expressed as the comparator returning
  `None`.
- Compile-time failures are preconditions:
  - `get` and `replace_t` out of range;
  - ranges outside [0, N];
  - a `transform` arity other than 1 or N;
  - `remove_at_t` with no index. `std::array excepted = {Index...}`
    cannot deduce its type from an empty list.
  - `adjacent_find` on three or more elements (Queries.AdjacentScan,
    Queries.AdjacentFind). The intended search over every pair is
    Queries.AdjacentFindIntended.
- Callables are pure functions. Side effects of a user callable, other
  than the state a stateful callable returns, and exceptions it raises
  are not modelled.
- `adjacent_find` for fewer than two elements: the model follows the
  body at `value_sequence.h:501-506` and returns size() without calling
  the comparator. In C++ the overload at 493-499 is viable there too, so
  the call may be ambiguous and fail to compile. That is not modelled.
- Algorithms.Sort, Algorithms.BinarySearch, Algorithms.UniqueInPlace: the
  library's own strategy is not modelled. Only the result the C++
  standard guarantees is stated, and a simple algorithm reaches it.
- Queries.ForEachN: the count is modelled as an integer. The source's
  `auto for_each_n_count` also accepts a non-integral count such as 1.5,
  which never equals 0 and so processes every element, like a negative
  integer count.
- `size_t` arithmetic is unbounded here. Where the source would wrap
  (size() - 1 on an empty sequence), no element is produced in either
  case.
