/** The recursive per-axis engine `extents_impl<R, Seq>`.

    The source builds one node per axis: a node for a dynamic axis stores
    its size `N`, a node for a fixed axis has `N` equal to its spec, and
    the chain ends in an empty base whose `N` is 1. Each query answers for
    its own axis when the requested index equals the node's position `R`
    and otherwise delegates to the next node. Here the chain is a
    `seq<Axis>`, and each query recurses over it with the position `r`
    of the head node passed along, exactly as the template parameter `R`
    is. Queries that only depend on the type (`Rank`, `DynamicRank`,
    `static_extent`) take the axis specs, the others take the chain.
 */
module ExtentsImpl {
  import opened AxisSeq

  /** One node of the chain. */
  datatype Axis = DynamicAxis(n: int) | StaticAxis(sn: int)
  {
    /** `staticN`: the spec this node was instantiated with. */
    function Spec(): int
    {
      if DynamicAxis? then DynamicExtent else sn
    }

    /** `N`: the resolved size of the axis. */
    function N(): int
    {
      if DynamicAxis? then n else sn
    }
  }

  /** A spec equal to `DynamicExtent` always selects the dynamic node, so a
      fixed node never carries that value. */
  predicate WellFormed(axes: seq<Axis>)
  {
    forall k :: 0 <= k < |axes| && axes[k].StaticAxis? ==> axes[k].sn != DynamicExtent
  }

  /** The axis specs (the `Seq` template argument) a chain was built from. */
  function Specs(axes: seq<Axis>): (s: seq<int>)
    ensures |s| == |axes|
    ensures forall k :: 0 <= k < |axes| ==> s[k] == axes[k].Spec()
  {
    if axes == [] then [] else [axes[0].Spec()] + Specs(axes[1..])
  }

  // ---------------------------------------------------------------------
  // Type-level queries
  // ---------------------------------------------------------------------

  /** `Rank`: one per node, 0 at the base. */
  function Rank(specs: seq<int>): (r: nat)
    ensures r == |specs|
  {
    if specs == [] then 0 else 1 + Rank(specs[1..])
  }

  /** `DynamicRank`: a dynamic node adds 1, a fixed node adds 0. */
  function DynamicRank(specs: seq<int>): (r: nat)
    ensures r <= |specs|
  {
    if specs == [] then 0
    else (if specs[0] == DynamicExtent then 1 else 0) + DynamicRank(specs[1..])
  }

  /** `DynamicRank` counts the `DynamicExtent` entries: it is 0 exactly when
      there are none and equals `Rank` exactly when every axis is dynamic. */
  lemma {:induction false} DynamicRankCounts(specs: seq<int>)
    ensures DynamicRank(specs) == multiset(specs)[DynamicExtent]
    ensures DynamicRank(specs) == 0 <==> DynamicExtent !in specs
    ensures DynamicRank(specs) == |specs| <==>
      forall i :: 0 <= i < |specs| ==> specs[i] == DynamicExtent
  {
    if specs != [] {
      DynamicRankCounts(specs[1..]);
      assert specs == [specs[0]] + specs[1..];
      assert multiset(specs) == multiset{specs[0]} + multiset(specs[1..]);
      assert forall i :: 1 <= i < |specs| ==> specs[1..][i - 1] == specs[i];
    }
  }

  /** `static_extent(k)` asked of the node at position `r`: the spec of
      axis `k` when `k` names one of the remaining axes, otherwise the
      base's 1. */
  function StaticExtentFrom(specs: seq<int>, r: int, k: int): (s: int)
    ensures r <= k < r + |specs| ==> s == specs[k - r]
    ensures !(r <= k < r + |specs|) ==> s == 1
  {
    if specs == [] then 1
    else if k == r then specs[0]
    else StaticExtentFrom(specs[1..], r + 1, k)
  }

  /** `static_extent(k)` of the root node (position 0). */
  function StaticExtent(specs: seq<int>, k: int): (s: int)
    ensures 0 <= k < |specs| ==> s == specs[k]
    ensures !(0 <= k < |specs|) ==> s == 1
  {
    StaticExtentFrom(specs, 0, k)
  }

  // ---------------------------------------------------------------------
  // Instance queries
  // ---------------------------------------------------------------------

  /** `extent(k)` asked of the node at position `r`. No bounds check: an
      index that names no axis reaches the base and yields 1. */
  function ExtentFrom(axes: seq<Axis>, r: int, k: int): (e: int)
    ensures r <= k < r + |axes| ==> e == axes[k - r].N()
    ensures !(r <= k < r + |axes|) ==> e == 1
  {
    if axes == [] then 1
    else if k == r then axes[0].N()
    else ExtentFrom(axes[1..], r + 1, k)
  }

  /** `extent(k)` of the root node. */
  function Extent(axes: seq<Axis>, k: int): (e: int)
    ensures 0 <= k < |axes| ==> e == axes[k].N()
    ensures !(0 <= k < |axes|) ==> e == 1
  {
    ExtentFrom(axes, 0, k)
  }

  /** `size()`: this node's `N` times the rest of the chain; 1 at the base. */
  function Size(axes: seq<Axis>): (s: int)
    ensures s == 0 <==> exists k :: 0 <= k < |axes| && axes[k].N() == 0
    ensures (forall k :: 0 <= k < |axes| ==> axes[k].N() > 0) ==> s > 0
  {
    if axes == [] then 1
    else
      assert forall k :: 1 <= k < |axes| ==> axes[1..][k - 1] == axes[k];
      axes[0].N() * Size(axes[1..])
  }

  /** `size(k)` asked of the node at position `r`: the node at position
      `k` answers with its `N` times `size()` of the nodes after it; an
      index naming no axis reaches the base and yields 1. */
  function SizeFrom(axes: seq<Axis>, r: int, k: int): (s: int)
    ensures r <= k < r + |axes| ==> s == Size(axes[k - r..])
    ensures !(r <= k < r + |axes|) ==> s == 1
  {
    if axes == [] then 1
    else if k == r then
      assert axes[k - r..] == axes;
      axes[0].N() * Size(axes[1..])
    else
      assert r + 1 <= k < r + |axes| ==> axes[1..][k - (r + 1)..] == axes[k - r..];
      SizeFrom(axes[1..], r + 1, k)
  }

  /** Product of `extent(i)` for `i` in [lo, hi), multiplied in index order. */
  function ExtentProduct(axes: seq<Axis>, lo: int, hi: int): int
    requires lo <= hi
    decreases hi - lo
  {
    if lo == hi then 1 else ExtentProduct(axes, lo, hi - 1) * Extent(axes, hi - 1)
  }

  lemma {:induction false} ExtentProductFront(axes: seq<Axis>, lo: int, hi: int)
    requires lo < hi
    ensures ExtentProduct(axes, lo, hi) == Extent(axes, lo) * ExtentProduct(axes, lo + 1, hi)
    decreases hi - lo
  {
    if hi - 1 > lo {
      ExtentProductFront(axes, lo, hi - 1);
      var a, p, z := Extent(axes, lo), ExtentProduct(axes, lo + 1, hi - 1), Extent(axes, hi - 1);
      assert (a * p) * z == a * (p * z);
    }
  }

  /** `size()` of the chain from axis `k` on is the product of the extents
      of axes k .. Rank-1. */
  lemma {:induction false} SuffixSizeIsProduct(axes: seq<Axis>, k: int)
    requires 0 <= k <= |axes|
    ensures Size(axes[k..]) == ExtentProduct(axes, k, |axes|)
    decreases |axes| - k
  {
    if k < |axes| {
      SuffixSizeIsProduct(axes, k + 1);
      assert axes[k..][1..] == axes[k + 1..];
      ExtentProductFront(axes, k, |axes|);
    }
  }

  /** `size()` is the product of every extent, and `size(k)` the product of
      the extents from axis `k` to the last; any other `k` gives 1. */
  lemma {:induction false} SizeIsProduct(axes: seq<Axis>, k: int)
    ensures Size(axes) == ExtentProduct(axes, 0, |axes|)
    ensures 0 <= k <= |axes| ==> SizeFrom(axes, 0, k) == ExtentProduct(axes, k, |axes|)
    ensures !(0 <= k < |axes|) ==> SizeFrom(axes, 0, k) == 1
  {
    SuffixSizeIsProduct(axes, 0);
    assert axes[0..] == axes;
    if 0 <= k <= |axes| {
      SuffixSizeIsProduct(axes, k);
    }
  }

  /** The size of two chains joined is the product of their sizes. */
  lemma {:induction false} SizeConcat(a: seq<Axis>, b: seq<Axis>)
    ensures Size(a + b) == Size(a) * Size(b)
  {
    if a == [] {
      assert a + b == b;
    } else {
      var ab := a + b;
      assert ab != [] && ab[0] == a[0] && ab[1..] == a[1..] + b;
      SizeConcat(a[1..], b);
      MulAssoc(a[0].N(), Size(a[1..]), Size(b));
    }
  }

  lemma MulAssoc(x: int, y: int, z: int)
    ensures x * (y * z) == (x * y) * z
  {
  }

  /** The base node's `in_bound(idx, args...)`: each index left over after
      the last axis is checked against the base's `N` of 1; on no
      arguments it is true. */
  function BaseInBound(idx: seq<int>): (b: bool)
    ensures b <==> forall i :: 0 <= i < |idx| ==> 0 <= idx[i] < 1
  {
    if idx == [] then true
    else
      assert forall i :: 1 <= i < |idx| ==> idx[1..][i - 1] == idx[i];
      0 <= idx[0] < 1 && BaseInBound(idx[1..])
  }

  /** `in_bounds(idx_0, idx_1, ...)`: every node checks the first index
      against its own `N`, in axis order, and passes the rest on. A node
      has no overload for an empty argument list, so there is at least one
      index per axis. */
  function InBounds(axes: seq<Axis>, idx: seq<int>): (b: bool)
    requires |idx| >= |axes|
    ensures b <==> forall i :: 0 <= i < |idx| ==> 0 <= idx[i] < Extent(axes, i)
  {
    if axes == [] then BaseInBound(idx)
    else
      assert forall i :: 1 <= i < |idx| ==>
        idx[1..][i - 1] == idx[i] && Extent(axes[1..], i - 1) == Extent(axes, i);
      0 <= idx[0] < axes[0].N() && InBounds(axes[1..], idx[1..])
  }

  // ---------------------------------------------------------------------
  // Construction
  // ---------------------------------------------------------------------

  /** The sizes held by the dynamic axes, in axis order. */
  function DynamicValues(axes: seq<Axis>): (v: seq<int>)
    ensures WellFormed(axes) ==> |v| == DynamicRank(Specs(axes))
  {
    if axes == [] then []
    else
      assert Specs(axes)[1..] == Specs(axes[1..]);
      assert forall k :: 1 <= k < |axes| ==> axes[1..][k - 1] == axes[k];
      (if axes[0].DynamicAxis? then [axes[0].n] else []) + DynamicValues(axes[1..])
  }

  /** Putting a node built for `specs[0]` in front of a chain built for
      the rest of `specs` gives a chain built for `specs`; a dynamic node
      adds its size in front of the dynamic sizes. */
  lemma ConsChain(specs: seq<int>, head: Axis, tail: seq<Axis>)
    requires specs != [] && head.Spec() == specs[0]
    requires head.StaticAxis? ==> head.sn != DynamicExtent
    requires WellFormed(tail) && Specs(tail) == specs[1..]
    ensures WellFormed([head] + tail) && Specs([head] + tail) == specs
    ensures DynamicValues([head] + tail) ==
      (if head.DynamicAxis? then [head.n] else []) + DynamicValues(tail)
    ensures DynamicRank(specs) == (if head.DynamicAxis? then 1 else 0) + DynamicRank(specs[1..])
  {
  }

  function Zeros(n: nat): (z: seq<int>)
    ensures |z| == n
    ensures forall i :: 0 <= i < n ==> z[i] == 0
  {
    seq(n, _ => 0)
  }

  /** The default constructor: a dynamic node sets its `N` to 0, a fixed
      node keeps its spec. */
  function DefaultChain(specs: seq<int>): (axes: seq<Axis>)
    ensures WellFormed(axes) && Specs(axes) == specs
    ensures DynamicValues(axes) == Zeros(DynamicRank(specs))
  {
    if specs == [] then []
    else
      var head := if specs[0] == DynamicExtent then DynamicAxis(0) else StaticAxis(specs[0]);
      var axes := [head] + DefaultChain(specs[1..]);
      assert axes[1..] == DefaultChain(specs[1..]);
      assert specs == [specs[0]] + specs[1..];
      axes
  }

  /** The variadic constructor: a dynamic node takes the first remaining
      argument and passes the rest on, a fixed node passes all of them on.
      Once the arguments run out every remaining node is default
      constructed. The base has no constructor taking sizes, so there are
      never more arguments than dynamic axes. */
  function FromDynamicExtents(specs: seq<int>, args: seq<int>): (axes: seq<Axis>)
    requires |args| <= DynamicRank(specs)
    ensures WellFormed(axes) && Specs(axes) == specs
    ensures DynamicValues(axes) == args + Zeros(DynamicRank(specs) - |args|)
  {
    if args == [] then
      assert args + Zeros(DynamicRank(specs)) == Zeros(DynamicRank(specs));
      DefaultChain(specs)
    else if specs[0] == DynamicExtent then
      var tail := FromDynamicExtents(specs[1..], args[1..]);
      ConsChain(specs, DynamicAxis(args[0]), tail);
      ConsFront(args, Zeros(DynamicRank(specs) - |args|));
      [DynamicAxis(args[0])] + tail
    else
      var tail := FromDynamicExtents(specs[1..], args);
      ConsChain(specs, StaticAxis(specs[0]), tail);
      assert [] + DynamicValues(tail) == DynamicValues(tail);
      [StaticAxis(specs[0])] + tail
  }

  lemma ConsFront(s: seq<int>, z: seq<int>)
    requires s != []
    ensures [s[0]] + (s[1..] + z) == s + z
  {
  }

  lemma TakeFront(s: seq<int>, n: nat)
    requires 1 <= n <= |s|
    ensures s[..n] == [s[0]] + s[1..][..n - 1]
  {
  }

  /** The iterator-pair constructor; `it` is the input from the current
      iterator position on. A dynamic node reads the current element and
      advances, a fixed node neither reads nor advances. The end iterator
      is never consulted, so the input must hold a value for every dynamic
      axis. */
  function FromRange(specs: seq<int>, it: seq<int>): (axes: seq<Axis>)
    requires DynamicRank(specs) <= |it|
    ensures WellFormed(axes) && Specs(axes) == specs
    ensures DynamicValues(axes) == it[..DynamicRank(specs)]
  {
    if specs == [] then []
    else if specs[0] == DynamicExtent then
      var tail := FromRange(specs[1..], it[1..]);
      ConsChain(specs, DynamicAxis(it[0]), tail);
      TakeFront(it, DynamicRank(specs));
      [DynamicAxis(it[0])] + tail
    else
      var tail := FromRange(specs[1..], it);
      ConsChain(specs, StaticAxis(specs[0]), tail);
      assert [] + DynamicValues(tail) == DynamicValues(tail);
      [StaticAxis(specs[0])] + tail
  }

  /** The number of fixed specs before the first `DynamicExtent`. */
  function LeadingFixed(specs: seq<int>): (r: nat)
    ensures r <= |specs|
    ensures forall k :: 0 <= k < r ==> specs[k] != DynamicExtent
    ensures r < |specs| ==> specs[r] == DynamicExtent
  {
    if specs == [] || specs[0] == DynamicExtent then 0
    else
      assert forall k :: 1 <= k < |specs| ==> specs[1..][k - 1] == specs[k];
      1 + LeadingFixed(specs[1..])
  }

  /** The pointer constructor on a pointer to const, reading `dn` from
      position `p`: every node, fixed or dynamic, advances the pointer by
      one, and only a dynamic node reads from it. */
  function FromConstPointer(specs: seq<int>, dn: seq<int>, p: nat): (axes: seq<Axis>)
    requires forall k :: 0 <= k < |specs| && specs[k] == DynamicExtent ==> p + k < |dn|
    ensures WellFormed(axes) && Specs(axes) == specs
    ensures forall k :: 0 <= k < |specs| && specs[k] == DynamicExtent ==>
      axes[k] == DynamicAxis(dn[p + k])
  {
    if specs == [] then []
    else
      assert forall k :: 1 <= k < |specs| ==> specs[1..][k - 1] == specs[k];
      var head := if specs[0] == DynamicExtent then DynamicAxis(dn[p]) else StaticAxis(specs[0]);
      var tail := FromConstPointer(specs[1..], dn, p + 1);
      ConsChain(specs, head, tail);
      assert forall k :: 1 <= k < |specs| && specs[k] == DynamicExtent ==>
        ([head] + tail)[k] == DynamicAxis(dn[p + k]) by {
        forall k | 1 <= k < |specs| && specs[k] == DynamicExtent
          ensures ([head] + tail)[k] == DynamicAxis(dn[p + k])
        {
          assert ([head] + tail)[k] == tail[k - 1];
        }
      }
      [head] + tail
  }

  /** The pointer constructor on a pointer to non-const. A fixed node has
      two candidate constructors: the variadic one, which passes its
      arguments on unchanged, and `extents_impl(T const*)`, which
      advances. For a pointer to non-const the variadic one is an identity
      match and wins over the qualification conversion the other needs, so
      the pointer is not advanced. A dynamic node has only the pointer
      constructor; it reads the current slot and hands on `DN + 1`, a
      pointer to const, so the rest of the chain is built as by
      `FromConstPointer`. Only the fixed axes ahead of the first dynamic
      axis fail to advance: dynamic axis `k` holds
      `dn[p + k - LeadingFixed(specs)]`. */
  function FromMutablePointer(specs: seq<int>, dn: seq<int>, p: nat): (axes: seq<Axis>)
    requires forall k :: 0 <= k < |specs| && specs[k] == DynamicExtent ==>
      p + k < |dn| + LeadingFixed(specs)
    ensures WellFormed(axes) && Specs(axes) == specs
  {
    if specs == [] then []
    else if specs[0] == DynamicExtent then
      MutablePointerStep(specs, dn, p);
      var tail := FromConstPointer(specs[1..], dn, p + 1);
      ConsChain(specs, DynamicAxis(dn[p]), tail);
      [DynamicAxis(dn[p])] + tail
    else
      MutablePointerStep(specs, dn, p);
      var tail := FromMutablePointer(specs[1..], dn, p);
      ConsChain(specs, StaticAxis(specs[0]), tail);
      [StaticAxis(specs[0])] + tail
  }

  /** The slots the rest of the chain reads exist once the first node has
      chosen its constructor. */
  lemma MutablePointerStep(specs: seq<int>, dn: seq<int>, p: nat)
    requires specs != []
    requires forall k :: 0 <= k < |specs| && specs[k] == DynamicExtent ==>
      p + k < |dn| + LeadingFixed(specs)
    ensures specs[0] == DynamicExtent ==> LeadingFixed(specs) == 0 && p < |dn|
    ensures specs[0] == DynamicExtent ==>
      forall k :: 0 <= k < |specs[1..]| && specs[1..][k] == DynamicExtent ==> p + 1 + k < |dn|
    ensures specs[0] != DynamicExtent ==> LeadingFixed(specs) == 1 + LeadingFixed(specs[1..])
    ensures specs[0] != DynamicExtent ==>
      forall k :: 0 <= k < |specs[1..]| && specs[1..][k] == DynamicExtent ==>
        p + k < |dn| + LeadingFixed(specs[1..])
  {
    assert forall k :: 0 <= k < |specs[1..]| ==> specs[1..][k] == specs[k + 1];
  }

  // ---------------------------------------------------------------------
  // Properties of construction
  // ---------------------------------------------------------------------

  /** A well-formed chain is determined by its specs and its dynamic sizes. */
  lemma {:induction false} ChainDetermined(a: seq<Axis>, b: seq<Axis>)
    requires WellFormed(a) && WellFormed(b)
    requires Specs(a) == Specs(b) && DynamicValues(a) == DynamicValues(b)
    ensures a == b
  {
    if a != [] {
      SplitChain(a);
      SplitChain(b);
      assert a[0].Spec() == Specs(a)[0] == Specs(b)[0] == b[0].Spec();
      var ha: seq<int> := if a[0].DynamicAxis? then [a[0].n] else [];
      var hb: seq<int> := if b[0].DynamicAxis? then [b[0].n] else [];
      assert |ha| == |hb| && ha + DynamicValues(a[1..]) == hb + DynamicValues(b[1..]);
      assert ha == (ha + DynamicValues(a[1..]))[..|ha|];
      assert hb == (hb + DynamicValues(b[1..]))[..|hb|];
      assert DynamicValues(a[1..]) == (ha + DynamicValues(a[1..]))[|ha|..];
      assert DynamicValues(b[1..]) == (hb + DynamicValues(b[1..]))[|hb|..];
      ChainDetermined(a[1..], b[1..]);
    }
  }

  /** A non-empty well-formed chain is its first node in front of a
      well-formed chain for the remaining specs. */
  lemma SplitChain(axes: seq<Axis>)
    requires WellFormed(axes) && axes != []
    ensures axes == [axes[0]] + axes[1..]
    ensures WellFormed(axes[1..]) && Specs(axes[1..]) == Specs(axes)[1..]
    ensures axes[0].StaticAxis? ==> axes[0].sn != DynamicExtent
    ensures DynamicValues(axes) ==
      (if axes[0].DynamicAxis? then [axes[0].n] else []) + DynamicValues(axes[1..])
  {
  }

  /** Feeding a chain's own dynamic sizes to the variadic constructor of
      its specs rebuilds the chain. */
  lemma {:induction false} FromDynamicExtentsRoundTrip(axes: seq<Axis>)
    requires WellFormed(axes)
    ensures FromDynamicExtents(Specs(axes), DynamicValues(axes)) == axes
  {
    var specs, vals := Specs(axes), DynamicValues(axes);
    var r := FromDynamicExtents(specs, vals);
    assert DynamicValues(r) == vals + Zeros(0) == vals;
    ChainDetermined(r, axes);
  }

  /** The number of dynamic axes before position `k`. */
  function DynamicSlot(specs: seq<int>, k: int): nat
    requires 0 <= k <= |specs|
  {
    DynamicRank(specs[..k])
  }

  /** Dynamic axis `k` holds the value in slot `DynamicSlot(k)` of the
      dynamic sizes: the variadic and iterator-pair constructors fill the
      dynamic axes in axis order. */
  lemma {:induction false} DynamicAxisSlot(axes: seq<Axis>, k: int)
    requires WellFormed(axes)
    requires 0 <= k < |axes| && axes[k].DynamicAxis?
    ensures DynamicSlot(Specs(axes), k) < |DynamicValues(axes)|
    ensures axes[k].n == DynamicValues(axes)[DynamicSlot(Specs(axes), k)]
  {
    SplitChain(axes);
    var specs, tail := Specs(axes), axes[1..];
    var h: seq<int> := if axes[0].DynamicAxis? then [axes[0].n] else [];
    if k == 0 {
      assert specs[..0] == [];
    } else {
      DynamicAxisSlot(tail, k - 1);
      DynamicSlotStep(specs, k);
      assert DynamicSlot(specs, k) == |h| + DynamicSlot(Specs(tail), k - 1);
    }
  }

  /** Each dynamic spec before position `k` takes one slot. */
  lemma DynamicSlotStep(specs: seq<int>, k: int)
    requires 1 <= k <= |specs|
    ensures DynamicSlot(specs, k) ==
      (if specs[0] == DynamicExtent then 1 else 0) + DynamicSlot(specs[1..], k - 1)
  {
    assert specs[..k][1..] == specs[1..][..k - 1];
  }

  /** The values the pointer constructor on a pointer to const reads:
      `dn[p + k]` for each dynamic axis `k`, in axis order. */
  function PointerSlots(specs: seq<int>, dn: seq<int>, p: nat): (v: seq<int>)
    requires forall k :: 0 <= k < |specs| && specs[k] == DynamicExtent ==> p + k < |dn|
    ensures |v| == DynamicRank(specs)
  {
    if specs == [] then []
    else
      assert specs == [specs[0]] + specs[1..];
      assert forall k :: 1 <= k < |specs| ==> specs[1..][k - 1] == specs[k];
      (if specs[0] == DynamicExtent then [dn[p]] else []) + PointerSlots(specs[1..], dn, p + 1)
  }

  /** On a pointer to const the pointer constructor skips a slot for every
      fixed axis, so it is the iterator-pair constructor applied to the
      gathered slots only. */
  lemma {:induction false} PointerSkipsFixedSlots(specs: seq<int>, dn: seq<int>, p: nat)
    requires forall k :: 0 <= k < |specs| && specs[k] == DynamicExtent ==> p + k < |dn|
    ensures FromConstPointer(specs, dn, p) == FromRange(specs, PointerSlots(specs, dn, p))
  {
    var slots := PointerSlots(specs, dn, p);
    var a, b := FromConstPointer(specs, dn, p), FromRange(specs, slots);
    PointerValues(specs, dn, p);
    assert slots[..DynamicRank(specs)] == slots;
    ChainDetermined(a, b);
  }

  lemma {:induction false} PointerValues(specs: seq<int>, dn: seq<int>, p: nat)
    requires forall k :: 0 <= k < |specs| && specs[k] == DynamicExtent ==> p + k < |dn|
    ensures DynamicValues(FromConstPointer(specs, dn, p)) == PointerSlots(specs, dn, p)
  {
    if specs != [] {
      assert forall k :: 1 <= k < |specs| ==> specs[1..][k - 1] == specs[k];
      PointerValues(specs[1..], dn, p + 1);
      SplitChain(FromConstPointer(specs, dn, p));
    }
  }

  /** Two well-formed chains over the same specs whose dynamic axes agree
      are equal. */
  lemma SameDynamicAxes(a: seq<Axis>, b: seq<Axis>)
    requires WellFormed(a) && WellFormed(b) && Specs(a) == Specs(b)
    requires forall k :: 0 <= k < |a| && Specs(a)[k] == DynamicExtent ==> a[k] == b[k]
    ensures a == b
  {
    forall k | 0 <= k < |a|
      ensures a[k] == b[k]
    {
      assert a[k].Spec() == Specs(a)[k] == Specs(b)[k] == b[k].Spec();
    }
  }

  /** Putting one more slot in front of the input and starting one slot
      later builds the same chain. */
  lemma ConstPointerShift(specs: seq<int>, x: seq<int>, p: nat, v: int)
    requires forall k :: 0 <= k < |specs| && specs[k] == DynamicExtent ==> p + k < |x|
    ensures FromConstPointer(specs, x, p) == FromConstPointer(specs, [v] + x, p + 1)
  {
    var y := [v] + x;
    var a, b := FromConstPointer(specs, x, p), FromConstPointer(specs, y, p + 1);
    assert forall k :: 0 <= k < |a| && Specs(a)[k] == DynamicExtent ==> a[k] == b[k] by {
      forall k | 0 <= k < |a| && Specs(a)[k] == DynamicExtent
        ensures a[k] == b[k]
      {
        assert specs[k] == DynamicExtent;
        assert a[k] == DynamicAxis(x[p + k]) && b[k] == DynamicAxis(y[p + 1 + k]);
        assert y[p + 1 + k] == x[p + k];
      }
    }
    SameDynamicAxes(a, b);
  }

  /** A pointer to non-const behaves like a pointer to const that starts
      `LeadingFixed(specs)` slots earlier, whatever those slots hold: the
      leading fixed axes are the only ones that do not step over their
      slot. */
  lemma {:induction false} MutablePointerLags(specs: seq<int>, dn: seq<int>, p: nat, pre: seq<int>)
    requires forall k :: 0 <= k < |specs| && specs[k] == DynamicExtent ==>
      p + k < |dn| + LeadingFixed(specs)
    requires |pre| == LeadingFixed(specs)
    ensures FromMutablePointer(specs, dn, p) == FromConstPointer(specs, pre + dn, p)
  {
    if specs != [] {
      MutablePointerStep(specs, dn, p);
      if specs[0] == DynamicExtent {
        assert pre + dn == dn;
      } else {
        var rest := pre[1..] + dn;
        MutablePointerLags(specs[1..], dn, p, pre[1..]);
        ConstPointerShift(specs[1..], rest, p, pre[0]);
        assert [pre[0]] + rest == pre + dn;
      }
    }
  }

  /** On a pointer to non-const, dynamic axis `k` holds
      `dn[p + k - LeadingFixed(specs)]`. */
  lemma {:induction false} MutablePointerReads(specs: seq<int>, dn: seq<int>, p: nat, k: int)
    requires forall k :: 0 <= k < |specs| && specs[k] == DynamicExtent ==>
      p + k < |dn| + LeadingFixed(specs)
    requires 0 <= k < |specs| && specs[k] == DynamicExtent
    ensures LeadingFixed(specs) <= p + k < |dn| + LeadingFixed(specs)
    ensures FromMutablePointer(specs, dn, p)[k] == DynamicAxis(dn[p + k - LeadingFixed(specs)])
  {
    MutablePointerStep(specs, dn, p);
    if specs[0] == DynamicExtent {
      var tail := FromConstPointer(specs[1..], dn, p + 1);
      assert FromMutablePointer(specs, dn, p) == [DynamicAxis(dn[p])] + tail;
      if k > 0 {
        assert specs[1..][k - 1] == specs[k];
      }
    } else {
      var tail := FromMutablePointer(specs[1..], dn, p);
      assert FromMutablePointer(specs, dn, p) == [StaticAxis(specs[0])] + tail;
      assert specs[1..][k - 1] == specs[k];
      MutablePointerReads(specs[1..], dn, p, k - 1);
    }
  }

  /** On the shape [3, dynamic, dynamic] and the input {10, 20, 30}, a
      pointer to non-const gives the dynamic axes 10 and 20, because the
      leading fixed axis does not advance it; a pointer to const gives 20
      and 30, skipping the fixed axis's slot as intended. */
  lemma PointerNonConstMisreads()
    ensures var a := FromMutablePointer([3, -1, -1], [10, 20, 30], 0);
      a[1] == DynamicAxis(10) && a[2] == DynamicAxis(20)
    ensures var c := FromConstPointer([3, -1, -1], [10, 20, 30], 0);
      c[1] == DynamicAxis(20) && c[2] == DynamicAxis(30)
  {
    var specs: seq<int> := [3, -1, -1];
    assert specs[1..] == [-1, -1];
    assert LeadingFixed(specs) == 1;
  }

  /** Removing an axis spec removes one axis, and one dynamic axis exactly
      when the removed spec was `DynamicExtent`. */
  lemma {:induction false} RemoveItemRanks(index: int, specs: seq<int>)
    requires 0 <= index < |specs|
    ensures Rank(RemoveItem(index, specs)) == Rank(specs) - 1
    ensures DynamicRank(RemoveItem(index, specs)) ==
      DynamicRank(specs) - (if specs[index] == DynamicExtent then 1 else 0)
  {
    RemoveItemMultiset(index, specs);
    DynamicRankCounts(specs);
    DynamicRankCounts(RemoveItem(index, specs));
  }

  /** Concatenating spec packs adds their ranks and their dynamic ranks. */
  lemma ConcatRanks(s1: seq<int>, s2: seq<int>)
    ensures Rank(Concat(s1, s2)) == Rank(s1) + Rank(s2)
    ensures DynamicRank(Concat(s1, s2)) == DynamicRank(s1) + DynamicRank(s2)
  {
    DynamicRankCounts(s1);
    DynamicRankCounts(s2);
    DynamicRankCounts(s1 + s2);
    assert multiset(s1 + s2) == multiset(s1) + multiset(s2);
  }
}
