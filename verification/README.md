# Shape descriptors (`extents`) in Dafny

This project models the shape-descriptor engine of a header-only C++
multidimensional-array library, and proves properties of the model. A shape,
`extents<dims, StaticExtents...>`, lists one spec per axis. A spec of `-1`
(`dynamic_extent`) means the axis gets its size at run time. Any other spec is
the fixed size of that axis. From these specs the library derives the rank,
the number of dynamic axes, per-axis sizes, suffix products and an
index-bounds check. It also provides range algorithms over the axes.

The model has four modules, one per header:

- `AxisSeq` (`seqs.dfy`, from `includes/seq.h`). A type-level pack
  `seq<Is...>` becomes a `seq<int>` value. Its `dims` is the length and its
  `is_empty` is `s == []`. The module has concatenation, the balanced
  all-dynamic builder, `make_seq`, `compare_seq_equal`, `get` and
  `remove_item`.
- `ExtentsImpl` (`engine.dfy`, from `includes/mdspan_helper.h`). The chain of
  `extents_impl<R, Seq>` nodes becomes a `seq<Axis>`. `DynamicAxis(n)` stores
  a run-time size and `StaticAxis(sn)` has size `sn`. Each query recurses
  down the chain and passes along the node position `r`, just as the
  template parameter `R` is passed. When the index matches no axis, the
  recursion reaches the base, which answers 1. Type-level queries (`Rank`,
  `DynamicRank`, `static_extent`) take the spec sequence. Instance queries
  and constructors work on the chain.
- `Mdspan` (`mdspan.dfy`, from `includes/mdspan.h`). The public wrapper. A
  value records its template arguments next to its chain. `Valid` is the
  invariant that the chain was built over `make_seq_t<dims, StaticExtents...>`.
- `ExtentsAlgorithm` (`algorithms.dfy`, from `includes/extents_algorithm.h`).
  `all_of`, `any_of`, `none_of`, both `accumulate` forms, `find` and
  `find_if` are methods with loops. Each one is proved against a quantified
  or fold-based reference.

Modelling notes:

- Compile-time rejections become `requires` clauses. These cover the
  `static_assert`s, argument packs that match no specialisation, and
  template recursions that never terminate. For example,
  `make_seq_dynamic_t<0>` splits the range [0, -1] forever, so `MakeSeq`
  needs a positive rank or the `-2` sentinel when no extents are given.
- The base node names its overloads `in_bound`, but the axis nodes call
  `next::in_bounds`, so as written the call never resolves and `in_bounds`
  on a shape with at least one axis is rejected at compile time. There is
  no run-time behaviour to model as written. The model reads
  the base's overloads as the intended terminator. That terminator is true on
  no indices. Any index beyond the last axis is checked against the base's
  `N` of 1.
- The algorithms read sizes through `e.at(i)`, but the `extents` type in
  `includes/mdspan.h` does not declare `at`, so as written every algorithm
  is rejected at compile time. The model reads `at` as `extent`, so an index
  past the last axis reads 1; the `find` finding below rests on that
  reading.
- A fixed node has two constructors that accept a pointer: the variadic one
  and `extents_impl(T const*)`. Which one runs depends on whether the
  pointer is to const, so the model has one pointer constructor for each
  case; see the first finding below.
- The first template parameter `T` of `find_if` cannot be deduced from its
  arguments. The model ignores that parameter, since it plays no part in
  the result.
- `extent(k)` has no bounds check. For an index that names no axis, the
  code falls through to the base and returns 1, and the model does the same.
- The variadic constructor is meant to take one size per dynamic axis. The
  code also accepts fewer sizes and sets the remaining dynamic axes to 0;
  the model follows the code. More sizes than dynamic axes reach the base,
  which has no matching constructor, so the model excludes that case with
  a `requires`.
- Sizes are mathematical integers.

## Model

| member | source | states |
|---|---|---|
| AxisSeq.Concat | includes/seq.h:50-53 | the result has `dims(S1) + dims(S2)` entries: S1's entries first, then S2's |
| AxisSeq.MakeSeqDynamicImpl | includes/seq.h:55-64 | splitting [first, last] at the midpoint and concatenating gives exactly `last - first + 1` entries, all `dynamic_extent`; needs `0 <= first <= last` |
| AxisSeq.MakeSeqDynamic | includes/seq.h:41-42 | for `dims >= 1`, `make_seq_dynamic_t<dims>` has exactly `dims` entries, all dynamic |
| AxisSeq.SplitDepthLogarithmic | includes/seq.h:55-59 | the balanced split builds `n` axes with nesting depth `d` such that `2^d < 2n`, so depth grows logarithmically with rank |
| AxisSeq.MakeSeq | includes/seq.h:66-91 | `make_seq<-2>` is empty; `make_seq<dims>` is `dims` dynamic axes; one explicit extent is taken as given whatever `dims` is; two or more must number `dims` and are returned in order |
| AxisSeq.CompareSeqEqual | includes/seq.h:100-120 | true exactly when both packs have the same length and agree entry by entry; empty vs non-empty is false both ways |
| AxisSeq.Get | includes/seq.h:126-156 | for `0 <= index < dims`, `get<index>` is the entry at that position |
| AxisSeq.RemoveItem | includes/seq.h:160-194 | the result has `dims - 1` entries; entries before `index` are unchanged and later ones shift down by one; index 0 of the empty pack gives the empty pack |
| AxisSeq.RemoveItemMultiset | includes/seq.h:179-189 | removal takes out exactly the entry at `index` and keeps every other entry |
| ExtentsImpl.Rank | includes/mdspan_helper.h:53 | `Rank` counts the nodes, so it is the number of axis specs |
| ExtentsImpl.DynamicRank | includes/mdspan_helper.h:54 | `DynamicRank` is at most the number of axes |
| ExtentsImpl.DynamicRankCounts | includes/mdspan_helper.h:103-104 | `DynamicRank` is the number of `-1` specs; it is 0 exactly when there are none, and it equals `Rank` exactly when every axis is dynamic |
| ExtentsImpl.ConcatRanks | includes/seq.h:50-53 | concatenating spec packs adds their ranks and their dynamic ranks |
| ExtentsImpl.RemoveItemRanks | includes/seq.h:179-189 | removing an axis lowers the rank by one; it lowers the dynamic rank by one exactly when the removed spec was `-1` |
| ExtentsImpl.StaticExtentFrom | includes/mdspan_helper.h:59-61 | `static_extent(k)` is axis `k`'s spec (`-1` for a dynamic axis) when `k` names an axis; otherwise the base answers 1 |
| ExtentsImpl.ExtentFrom | includes/mdspan_helper.h:63-65 | `extent(k)` is the stored `N` of axis `k` when `k` names an axis; otherwise it is 1, because there is no bounds check |
| ExtentsImpl.Size | includes/mdspan_helper.h:71-73 | `size()` is 0 exactly when some axis is 0, and positive when every axis is positive |
| ExtentsImpl.SizeFrom | includes/mdspan_helper.h:67-69 | `size(k)` is `size()` of the chain from axis `k` onward; for a `k` that names no axis it is 1 |
| ExtentsImpl.SizeIsProduct | includes/mdspan_helper.h:116-122 | `size()` is the product of `extent(i)` over all axes; `size(k)` is the product for `i` in [k, Rank); any other `k` gives 1 |
| ExtentsImpl.SizeConcat | includes/mdspan_helper.h:71-73 | the size of two chains joined is the product of their sizes; the empty chain contributes 1 |
| ExtentsImpl.BaseInBound | includes/mdspan_helper.h:26-29 | the base's terminator is true on no indices; each further index must be 0, the only value below the base's `N` of 1 |
| ExtentsImpl.InBounds | includes/mdspan_helper.h:91-93 | `in_bounds(idx...)` holds exactly when every `idx_i` satisfies `0 <= idx_i < extent(i)`, checked in axis order |
| ExtentsImpl.DefaultChain | includes/mdspan_helper.h:75 | default construction keeps every spec; every dynamic axis holds 0 |
| ExtentsImpl.FromDynamicExtents | includes/mdspan_helper.h:79-81 | the variadic constructor gives the arguments to the dynamic axes in axis order; fixed axes take none; dynamic axes past the last argument hold 0 |
| ExtentsImpl.FromRange | includes/mdspan_helper.h:83-85 | the iterator-pair constructor advances only on dynamic axes, so those axes hold consecutive input values |
| ExtentsImpl.LeadingFixed | includes/mdspan_helper.h:99-138 | the count of fixed specs before the first `-1`: every spec below it is fixed, and the spec at it, if any, is `-1` |
| ExtentsImpl.FromConstPointer | includes/mdspan_helper.h:87-89 | on a pointer to const every node advances the pointer (a fixed node through `extents_impl(T const*)`), so dynamic axis `k` holds `DN[k]` |
| ExtentsImpl.FromMutablePointer | includes/mdspan_helper.h:87-89 | on a pointer to non-const the constructor builds a chain over exactly the given specs, and needs a slot for each dynamic axis counted from the first one |
| ExtentsImpl.MutablePointerReads | includes/mdspan_helper.h:128-138 | on a pointer to non-const, dynamic axis `k` holds `DN[k - LeadingFixed]`: a fixed node before the first dynamic axis takes the variadic constructor and does not advance |
| ExtentsImpl.MutablePointerLags | includes/mdspan_helper.h:87-89 | a pointer to non-const builds the chain a pointer to const builds from `LeadingFixed` slots earlier, whatever those slots hold |
| ExtentsImpl.ConstPointerShift | includes/mdspan_helper.h:87-89 | on a pointer to const only the position relative to the start counts: one more leading slot and one more step give the same chain |
| ExtentsImpl.PointerNonConstMisreads | includes/mdspan_helper.h:128-138 | on the shape [3, -1, -1] and the input {10, 20, 30}, a pointer to non-const stores 10 and 20, and a pointer to const stores 20 and 30 |
| ExtentsImpl.PointerSkipsFixedSlots | includes/mdspan_helper.h:136-138 | on a pointer to const the pointer constructor equals the iterator-pair constructor applied to the slots at dynamic positions only: a fixed axis skips a slot |
| ExtentsImpl.ChainDetermined | includes/mdspan_helper.h:100-106 | two chains with the same specs and the same dynamic sizes are equal, since a fixed node stores nothing of its own |
| ExtentsImpl.FromDynamicExtentsRoundTrip | includes/mdspan_helper.h:79-81 | passing a chain's own dynamic sizes to the variadic constructor rebuilds that chain |
| ExtentsImpl.DynamicAxisSlot | includes/mdspan_helper.h:128-130 | dynamic axis `k` holds the entry whose slot is the number of dynamic axes before `k` |
| Mdspan.Rank | includes/mdspan.h:16-18 | `rank()` is the length of `make_seq_t<dims, StaticExtents...>`: `dims` with no static extents, 0 for `-2`, otherwise the number of static extents |
| Mdspan.RankDynamic | includes/mdspan.h:19-21 | `rank_dyanmic()` is at most `rank()`; it equals `rank()` for an all-dynamic `extents<dims>`; with explicit extents it is 0 exactly when none of them is `-1` |
| Mdspan.StaticExtent | includes/mdspan.h:22-24 | `static_extent(k)` is the `k`-th explicit extent, or `-1` for `extents<dims>`; it is 1 off-range |
| Mdspan.Extent | includes/mdspan.h:26-28 | `extent(k)` is the size held by axis `k`; on a fixed axis it equals `static_extent(k)`; it is 1 off-range |
| Mdspan.SizeFrom | includes/mdspan.h:30-32 | `size(k)` is the product of `extent(i)` for `i` in [k, rank()); it is 1 for `k` off-range |
| Mdspan.Size | includes/mdspan.h:34-36 | `size()` is the product of all extents, and is 0 exactly when some extent is 0 |
| Mdspan.Default | includes/mdspan.h:38 | a default-constructed `extents` is valid, and each of its dynamic axes holds 0 |
| Mdspan.New | includes/mdspan.h:42-44 | the variadic constructor passes its arguments to the engine: the dynamic sizes are the arguments in order, padded with 0 |
| Mdspan.NewFillsDynamicAxesInOrder | includes/mdspan.h:42-44 | the `j`-th dynamic axis holds the `j`-th argument, or 0 when there are fewer arguments |
| Mdspan.FromRange | includes/mdspan.h:42-44 | the forwarding constructor given an iterator pair passes it to the engine: the dynamic sizes are the first `rank_dyanmic()` input values, in order |
| Mdspan.RangeFillsDynamicAxesInOrder | includes/mdspan.h:42-44 | given an iterator pair, the `j`-th dynamic axis holds the `j`-th input value |
| Mdspan.FromConstPointer | includes/mdspan.h:42-44 | given a pointer to const, dynamic axis `k` holds `DN[k]` |
| Mdspan.FromMutablePointer | includes/mdspan.h:42-44 | given a pointer to non-const, the value holds the engine's non-const pointer chain over `make_seq_t<dims, StaticExtents...>` |
| Mdspan.MutablePointerExtent | includes/mdspan.h:42-44 | given a pointer to non-const, dynamic axis `k` holds `DN[k - LeadingFixed]`: one slot early for every fixed axis ahead of the first dynamic one |
| Mdspan.AllFixedExtentIsStatic | includes/mdspan.h:22-28 | for an all-fixed shape, `extent(k) == static_extent(k)` for every `k` |
| ExtentsAlgorithm.CountIfAll | includes/extents_algorithm.h:11-17 | the count of satisfying indices equals `end - begin` exactly when every index in the range satisfies `f` |
| ExtentsAlgorithm.AllOfRange | includes/extents_algorithm.h:10-18 | `all_of(e, b, end, f)` is true exactly when every size in [b, end) satisfies `f`; it is true on an empty range |
| ExtentsAlgorithm.AllOf | includes/extents_algorithm.h:20-23 | `all_of(e, f)` is `all_of` over [0, rank()) |
| ExtentsAlgorithm.NoneOfRange | includes/extents_algorithm.h:30-33 | as written, `none_of(e, b, end, f)` is true exactly when some size in the range fails `f` |
| ExtentsAlgorithm.NoneOf | includes/extents_algorithm.h:25-28 | as written, `none_of(e, f)` is true exactly when some axis fails `f` |
| ExtentsAlgorithm.NoneOfRangeIntended | includes/extents_algorithm.h:30-33 | corrected `none_of` on a range: true exactly when no size in the range satisfies `f` |
| ExtentsAlgorithm.NoneOfIntended | includes/extents_algorithm.h:25-28 | corrected `none_of(e, f)`: true exactly when no axis satisfies `f` |
| ExtentsAlgorithm.NoneOfMisreports | includes/extents_algorithm.h:25-28 | on the shape [2, 3] with `f = (x == 2)`, the as-written `none_of` answers true and the corrected one answers false |
| ExtentsAlgorithm.AnyOfRange | includes/extents_algorithm.h:35-42 | `any_of(e, b, end, f)` is true exactly when some size in [b, end) satisfies `f`; it is false on an empty range |
| ExtentsAlgorithm.AnyOf | includes/extents_algorithm.h:44-47 | `any_of(e, f)` is `any_of` over [0, rank()) |
| ExtentsAlgorithm.AccumulateRange | includes/extents_algorithm.h:49-55 | `accumulate` with a binary function is the left fold of the function over the sizes in [b, end), in index order, starting from `initial` |
| ExtentsAlgorithm.Accumulate | includes/extents_algorithm.h:57-60 | the full-range form is the left fold over [0, rank()) |
| ExtentsAlgorithm.AccumulateSumRange | includes/extents_algorithm.h:62-68 | `accumulate` without a function returns `initial` plus the sum of the sizes in [b, end) |
| ExtentsAlgorithm.AccumulateSum | includes/extents_algorithm.h:70-73 | the full-range form returns `initial` plus the sum of all extents |
| ExtentsAlgorithm.FoldAddIsSum | includes/extents_algorithm.h:49-68 | folding with `+` equals `initial` plus the sum, so both `accumulate` forms agree when the function is addition |
| ExtentsAlgorithm.Find | includes/extents_algorithm.h:75-81 | as written, `find(e, v)` scans [0, rank()] inclusive; it is true exactly when some axis has size `v`, or `v == 1` (the extra read at `rank()` returns 1) |
| ExtentsAlgorithm.FindIntended | includes/extents_algorithm.h:75-81 | corrected `find(e, v)`: true exactly when some axis in [0, rank()) has size `v` |
| ExtentsAlgorithm.FindMisreportsOne | includes/extents_algorithm.h:75-81 | on the shape [2, 3], the as-written `find(e, 1)` is true and the corrected one is false |
| ExtentsAlgorithm.FindIf | includes/extents_algorithm.h:83-89 | `find_if(e, f)` scans [0, rank()); it is true exactly when some axis satisfies `f`, the same answer as `any_of(e, f)` |

## Findings

| source | as written | input that shows it | evidently intended | confidence | as-written member | corrected member |
|---|---|---|---|---|---|---|
| includes/extents_algorithm.h:25-33 | `none_of` returns `!all_of(...)`, which is true when some axis FAILS `f` | `extents<2,2,3>` with `f = (x == 2)`: returns true, yet axis 0 has size 2 (shown by `ExtentsAlgorithm.NoneOfMisreports`) | true exactly when no axis in the range satisfies `f`, that is `!any_of(...)` | not executed; high | ExtentsAlgorithm.NoneOf | ExtentsAlgorithm.NoneOfIntended |
| includes/mdspan_helper.h:128-138 | a fixed node has both the variadic constructor and `extents_impl(T const*)`; for a pointer to non-const the variadic one is an exact match and is chosen, so the fixed nodes ahead of the first dynamic axis do not advance the pointer | `ptrdiff_t dn[] = {10, 20, 30}` passed as `ptrdiff_t*` to the shape [3, -1, -1]: axes 1 and 2 hold 10 and 20 (shown by `ExtentsImpl.PointerNonConstMisreads`) | every fixed axis skips its slot, so axes 1 and 2 hold 20 and 30, as they do for a pointer to const | not executed; high | ExtentsImpl.FromMutablePointer | ExtentsImpl.FromConstPointer |
| includes/extents_algorithm.h:75-81 | the loop runs while `i < e.rank() + 1`, so it reads `at(rank())`, which falls through to the base and returns 1 | `extents<2,2,3>` with `value = 1`: returns true, yet no axis has size 1 (shown by `ExtentsAlgorithm.FindMisreportsOne`) | scan [0, rank()) as `find_if` does | not executed; high | ExtentsAlgorithm.Find | ExtentsAlgorithm.FindIntended |

## Left out

- `includes/storage_policy.h`: the storage back-end is a stub. Its members are declared but never defined, and it wraps `std::unordered_map`.
- `includes/tensor.h`: an empty wrapper with no operations. It uses names that no header under `includes/` defines.
- `main.cpp`: a console demo. It uses features that the headers do not provide (iteration over extents, `is_tensor`, `dynamic_dims`). No header implements squeeze, shape concatenation, shape classification, `valid()`, shape equality or a dynamic-rank shape, so none of these is modelled.
- `is_seq`: a type trait with no behaviour beyond recognising a pack.
- Copy construction, assignment and destruction (all defaulted), and `constexpr`/`noexcept`: values here are immutable.
- The default member initialiser `N{-1}` of a dynamic node: every constructor overwrites it.
- The iterator-pair and pointer constructors are declared on the engine's nodes. The public `extents` type reaches them through its forwarding constructor, which passes any argument types on unchanged; the `Mdspan` wrappers `FromRange`, `FromConstPointer` and `FromMutablePointer` model those calls.
- The end iterator of the iterator-pair constructor is never read; the model drops it and requires enough input for every dynamic axis.
- Predicates and binary functions are pure, total Dafny functions. A stateful functor could tell apart how many sizes an early-exit algorithm (`any_of`, `find_if`) reads; the model only states the result.
- ExtentsAlgorithm.AccumulateSumRange: the source adds sizes to an `initial` of any type `T`; the model takes `T` to be an unbounded integer.
- ExtentsImpl.Size: the source multiplies in `ptrdiff_t`, which can overflow. The model multiplies unbounded integers. The same holds for `SizeFrom` and the wrapper's `Size`/`SizeFrom`.
- ExtentsAlgorithm.AllOfRange: the source counts in a 32-bit unsigned `all`, and `end - begin` wraps when `begin > end`. The model requires `begin <= end` and counts without bound.
- ExtentsAlgorithm.Find: the source compares a value of any type `T` with the sizes. The model takes `T` to be an integer.
