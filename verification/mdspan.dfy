/** The public `extents<dims, StaticExtents...>` type.

    The type derives its axis specs with `make_seq_t<dims, StaticExtents...>`
    and holds the per-axis chain built over them; every query forwards to
    the root node of that chain. A value here records the template
    arguments next to the chain, and `Valid` is the invariant every value
    of the type has: the chain was built over exactly those specs.
 */
module Mdspan {
  import opened AxisSeq
  import E = ExtentsImpl

  /** A value of type `extents<dims, StaticExtents...>`. */
  datatype Extents = Extents(dims: int, staticExtents: seq<int>, axes: seq<E.Axis>)

  /** The template arguments name a type: `make_seq_t` accepts them. */
  predicate Declarable(dims: int, staticExtents: seq<int>)
  {
    MakeSeqDefined(dims, staticExtents)
  }

  /** Every value of the type holds a chain over the type's axis specs. */
  predicate Valid(e: Extents)
  {
    && Declarable(e.dims, e.staticExtents)
    && E.WellFormed(e.axes)
    && E.Specs(e.axes) == MakeSeq(e.dims, e.staticExtents)
  }

  /** `rank()`. */
  function Rank(dims: int, staticExtents: seq<int>): (r: nat)
    requires Declarable(dims, staticExtents)
    ensures r == |MakeSeq(dims, staticExtents)|
    ensures staticExtents == [] && dims >= 1 ==> r == dims
    ensures staticExtents == [] && dims == StaticDims ==> r == 0
    ensures staticExtents != [] ==> r == |staticExtents|
  {
    E.Rank(MakeSeq(dims, staticExtents))
  }

  /** `rank()` of the type a value belongs to. */
  function RankOf(e: Extents): (r: nat)
    requires Valid(e)
    ensures r == |e.axes|
  {
    Rank(e.dims, e.staticExtents)
  }

  /** `rank_dyanmic()` (so spelled in the source): the number of dynamic
      axes. It equals `rank()` when no static extents are given and is 0
      exactly when none of the given extents is `DynamicExtent`. */
  function RankDynamic(dims: int, staticExtents: seq<int>): (r: nat)
    requires Declarable(dims, staticExtents)
    ensures r <= Rank(dims, staticExtents)
    ensures staticExtents == [] ==> r == Rank(dims, staticExtents)
    ensures staticExtents != [] ==> (r == 0 <==> DynamicExtent !in staticExtents)
  {
    var specs := MakeSeq(dims, staticExtents);
    E.DynamicRankCounts(specs);
    E.DynamicRank(specs)
  }

  /** `static_extent(k)`: the spec of axis `k` (`DynamicExtent` for a
      dynamic axis), or 1 when `k` names no axis. */
  function StaticExtent(dims: int, staticExtents: seq<int>, k: int): (s: int)
    requires Declarable(dims, staticExtents)
    ensures 0 <= k < Rank(dims, staticExtents) ==> s == MakeSeq(dims, staticExtents)[k]
    ensures staticExtents != [] && 0 <= k < Rank(dims, staticExtents) ==> s == staticExtents[k]
    ensures staticExtents == [] && 0 <= k < Rank(dims, staticExtents) ==> s == DynamicExtent
    ensures !(0 <= k < Rank(dims, staticExtents)) ==> s == 1
  {
    E.StaticExtent(MakeSeq(dims, staticExtents), k)
  }

  /** `extent(k)`: the size held by axis `k`, which for a fixed axis is its
      static extent; 1 when `k` names no axis (there is no bounds check). */
  function Extent(e: Extents, k: int): (x: int)
    requires Valid(e)
    ensures 0 <= k < RankOf(e) ==> x == e.axes[k].N()
    ensures 0 <= k < RankOf(e) && StaticExtent(e.dims, e.staticExtents, k) != DynamicExtent ==>
      x == StaticExtent(e.dims, e.staticExtents, k)
    ensures !(0 <= k < RankOf(e)) ==> x == 1
  {
    assert 0 <= k < |e.axes| ==> E.Specs(e.axes)[k] == e.axes[k].Spec();
    E.Extent(e.axes, k)
  }

  /** `size(k)`: the product of the extents of axes k .. rank()-1, and 1
      when `k` names no axis. */
  function SizeFrom(e: Extents, k: int): (x: int)
    requires Valid(e)
    ensures 0 <= k <= RankOf(e) ==> x == E.ExtentProduct(e.axes, k, RankOf(e))
    ensures !(0 <= k < RankOf(e)) ==> x == 1
  {
    E.SizeIsProduct(e.axes, k);
    E.SizeFrom(e.axes, 0, k)
  }

  /** `size()`: the product of all extents; 0 exactly when some axis is 0. */
  function Size(e: Extents): (x: int)
    requires Valid(e)
    ensures x == E.ExtentProduct(e.axes, 0, RankOf(e))
    ensures x == 0 <==> exists k :: 0 <= k < RankOf(e) && Extent(e, k) == 0
  {
    E.SizeIsProduct(e.axes, 0);
    assert forall k :: 0 <= k < RankOf(e) ==> Extent(e, k) == e.axes[k].N();
    E.Size(e.axes)
  }

  /** The default constructor: every dynamic axis holds 0. */
  function Default(dims: int, staticExtents: seq<int>): (e: Extents)
    requires Declarable(dims, staticExtents)
    ensures Valid(e) && e.dims == dims && e.staticExtents == staticExtents
    ensures forall k :: 0 <= k < RankOf(e) && StaticExtent(dims, staticExtents, k) == DynamicExtent ==>
      Extent(e, k) == 0
  {
    var specs := MakeSeq(dims, staticExtents);
    var axes := E.DefaultChain(specs);
    assert forall k :: 0 <= k < |axes| && axes[k].DynamicAxis? ==> axes[k].n == 0 by {
      forall k | 0 <= k < |axes| && axes[k].DynamicAxis?
        ensures axes[k].n == 0
      {
        E.DynamicAxisSlot(axes, k);
      }
    }
    Extents(dims, staticExtents, axes)
  }

  /** The variadic constructor `extents(DynamicExtents...)`: the arguments
      go to the dynamic axes in axis order, and dynamic axes past the last
      argument hold 0. */
  function New(dims: int, staticExtents: seq<int>, args: seq<int>): (e: Extents)
    requires Declarable(dims, staticExtents)
    requires |args| <= RankDynamic(dims, staticExtents)
    ensures Valid(e) && e.dims == dims && e.staticExtents == staticExtents
    ensures E.DynamicValues(e.axes) == args + E.Zeros(RankDynamic(dims, staticExtents) - |args|)
  {
    var specs := MakeSeq(dims, staticExtents);
    Extents(dims, staticExtents, E.FromDynamicExtents(specs, args))
  }

  /** The forwarding constructor given an iterator pair `(p, q)`: `it` is
      the input from `p` on. The dynamic axes take the first
      `RankDynamic` values in axis order; `q` is never consulted. */
  function FromRange(dims: int, staticExtents: seq<int>, it: seq<int>): (e: Extents)
    requires Declarable(dims, staticExtents)
    requires RankDynamic(dims, staticExtents) <= |it|
    ensures Valid(e) && e.dims == dims && e.staticExtents == staticExtents
    ensures E.DynamicValues(e.axes) == it[..RankDynamic(dims, staticExtents)]
  {
    var specs := MakeSeq(dims, staticExtents);
    Extents(dims, staticExtents, E.FromRange(specs, it))
  }

  /** The `j`-th dynamic axis of a value built from an iterator pair holds
      the `j`-th input value. */
  lemma RangeFillsDynamicAxesInOrder(dims: int, staticExtents: seq<int>, it: seq<int>, k: int)
    requires Declarable(dims, staticExtents)
    requires RankDynamic(dims, staticExtents) <= |it|
    requires 0 <= k < Rank(dims, staticExtents)
    requires StaticExtent(dims, staticExtents, k) == DynamicExtent
    ensures E.DynamicSlot(MakeSeq(dims, staticExtents), k) < RankDynamic(dims, staticExtents)
    ensures Extent(FromRange(dims, staticExtents, it), k) == it[E.DynamicSlot(MakeSeq(dims, staticExtents), k)]
  {
    var e := FromRange(dims, staticExtents, it);
    assert E.Specs(e.axes)[k] == e.axes[k].Spec();
    E.DynamicAxisSlot(e.axes, k);
  }

  /** The forwarding constructor given a pointer to const `dn`: axis `k`
      owns slot `dn[k]`, and each dynamic axis takes the value in its slot. */
  function FromConstPointer(dims: int, staticExtents: seq<int>, dn: seq<int>): (e: Extents)
    requires Declarable(dims, staticExtents)
    requires var specs := MakeSeq(dims, staticExtents);
      forall k :: 0 <= k < |specs| && specs[k] == DynamicExtent ==> k < |dn|
    ensures Valid(e) && e.dims == dims && e.staticExtents == staticExtents
    ensures forall k :: 0 <= k < RankOf(e) && StaticExtent(dims, staticExtents, k) == DynamicExtent ==>
      Extent(e, k) == dn[k]
  {
    var specs := MakeSeq(dims, staticExtents);
    Extents(dims, staticExtents, E.FromConstPointer(specs, dn, 0))
  }

  /** The forwarding constructor given a pointer to non-const `dn`: the
      fixed axes ahead of the first dynamic axis do not step over their
      slot, so dynamic axis `k` takes `dn[k - LeadingFixed]`. */
  function FromMutablePointer(dims: int, staticExtents: seq<int>, dn: seq<int>): (e: Extents)
    requires Declarable(dims, staticExtents)
    requires var specs := MakeSeq(dims, staticExtents);
      forall k :: 0 <= k < |specs| && specs[k] == DynamicExtent ==> k < |dn| + E.LeadingFixed(specs)
    ensures Valid(e) && e.dims == dims && e.staticExtents == staticExtents
    ensures e.axes == E.FromMutablePointer(MakeSeq(dims, staticExtents), dn, 0)
  {
    var specs := MakeSeq(dims, staticExtents);
    Extents(dims, staticExtents, E.FromMutablePointer(specs, dn, 0))
  }

  /** Dynamic axis `k` of a value built from a pointer to non-const holds
      `dn[k - LeadingFixed]`: one slot earlier than a pointer to const for
      every fixed axis ahead of the first dynamic axis. */
  lemma MutablePointerExtent(dims: int, staticExtents: seq<int>, dn: seq<int>, k: int)
    requires Declarable(dims, staticExtents)
    requires var specs := MakeSeq(dims, staticExtents);
      forall k :: 0 <= k < |specs| && specs[k] == DynamicExtent ==> k < |dn| + E.LeadingFixed(specs)
    requires 0 <= k < Rank(dims, staticExtents) && StaticExtent(dims, staticExtents, k) == DynamicExtent
    ensures E.LeadingFixed(MakeSeq(dims, staticExtents)) <= k
    ensures Extent(FromMutablePointer(dims, staticExtents, dn), k) ==
      dn[k - E.LeadingFixed(MakeSeq(dims, staticExtents))]
  {
    var specs := MakeSeq(dims, staticExtents);
    var e := FromMutablePointer(dims, staticExtents, dn);
    assert E.LeadingFixed(specs) <= k < |dn| + E.LeadingFixed(specs) &&
      e.axes[k] == E.DynamicAxis(dn[k - E.LeadingFixed(specs)]) by {
      assert specs[k] == DynamicExtent;
      MutablePointerAxis(specs, dn, k);
    }
    assert Extent(e, k) == e.axes[k].N();
  }

  /** The engine fact behind `MutablePointerExtent`, for a chain read from
      the start of `dn`. */
  lemma MutablePointerAxis(specs: seq<int>, dn: seq<int>, k: int)
    requires forall k :: 0 <= k < |specs| && specs[k] == DynamicExtent ==> k < |dn| + E.LeadingFixed(specs)
    requires 0 <= k < |specs| && specs[k] == DynamicExtent
    ensures E.LeadingFixed(specs) <= k < |dn| + E.LeadingFixed(specs)
    ensures E.FromMutablePointer(specs, dn, 0)[k] == E.DynamicAxis(dn[k - E.LeadingFixed(specs)])
  {
    E.MutablePointerReads(specs, dn, 0, k);
  }

  /** The `j`-th dynamic axis of a value built by `New` holds the `j`-th
      argument, or 0 when there are fewer than `j + 1` arguments. */
  lemma NewFillsDynamicAxesInOrder(dims: int, staticExtents: seq<int>, args: seq<int>, k: int)
    requires Declarable(dims, staticExtents)
    requires |args| <= RankDynamic(dims, staticExtents)
    requires 0 <= k < Rank(dims, staticExtents)
    requires StaticExtent(dims, staticExtents, k) == DynamicExtent
    ensures var j := E.DynamicSlot(MakeSeq(dims, staticExtents), k);
      Extent(New(dims, staticExtents, args), k) == (if j < |args| then args[j] else 0)
  {
    var e := New(dims, staticExtents, args);
    assert E.Specs(e.axes)[k] == e.axes[k].Spec();
    E.DynamicAxisSlot(e.axes, k);
  }

  /** For a shape whose every axis is fixed, `extent(k)` equals
      `static_extent(k)` for every `k`. */
  lemma AllFixedExtentIsStatic(e: Extents)
    requires Valid(e)
    requires e.staticExtents != [] && DynamicExtent !in e.staticExtents
    ensures forall k :: Extent(e, k) == StaticExtent(e.dims, e.staticExtents, k)
  {
    forall k
      ensures Extent(e, k) == StaticExtent(e.dims, e.staticExtents, k)
    {
      if 0 <= k < RankOf(e) {
        assert e.staticExtents[k] in e.staticExtents;
      }
    }
  }
}
