/** Axis-spec sequences.

    The library encodes the per-axis specification of a shape as a
    compile-time pack `seq<Is...>` of signed integers. Here a pack is a
    value of type `seq<int>`: an entry equal to `DynamicExtent` marks an
    axis whose size is supplied at run time, any other entry is the fixed
    size of that axis. The pack's `dims` is the sequence length and its
    `is_empty` flag is `s == []`.
 */
module AxisSeq {

  /** Axis spec meaning "size supplied at run time". */
  const DynamicExtent: int := -1

  /** Rank argument that selects the empty axis sequence. */
  const StaticDims: int := -2

  /** `concat_seq`: the axes of `s1` followed by those of `s2`. */
  function Concat(s1: seq<int>, s2: seq<int>): (r: seq<int>)
    ensures |r| == |s1| + |s2|
    ensures r[..|s1|] == s1 && r[|s1|..] == s2
  {
    s1 + s2
  }

  /** `make_seq_dynamic_impl<first, last>`: the all-dynamic sequence for the
      index range [first, last], built by splitting the range at its
      midpoint and concatenating the two halves. The source only ever
      instantiates it with `first >= 0`; for a negative range the
      truncating midpoint does not shrink it and the recursion never ends. */
  function MakeSeqDynamicImpl(first: int, last: int): (r: seq<int>)
    requires 0 <= first <= last
    ensures |r| == last - first + 1
    ensures forall i :: 0 <= i < |r| ==> r[i] == DynamicExtent
    decreases last - first
  {
    if first == last then [DynamicExtent]
    else
      var mid := (first + last) / 2;
      Concat(MakeSeqDynamicImpl(first, mid), MakeSeqDynamicImpl(mid + 1, last))
  }

  /** `make_seq_dynamic_t<dims>`: `dims` dynamic axes. For `dims == 0` the
      source instantiates the range [0, -1], whose split never terminates. */
  function MakeSeqDynamic(dims: int): (r: seq<int>)
    requires dims >= 1
    ensures |r| == dims
    ensures forall i :: 0 <= i < |r| ==> r[i] == DynamicExtent
  {
    MakeSeqDynamicImpl(0, dims - 1)
  }

  /** Nesting depth of the template instantiations made by the balanced split. */
  function SplitDepth(first: int, last: int): nat
    requires 0 <= first <= last
    decreases last - first
  {
    if first == last then 0
    else
      var mid := (first + last) / 2;
      var dl := SplitDepth(first, mid);
      var dr := SplitDepth(mid + 1, last);
      1 + (if dl < dr then dr else dl)
  }

  function Pow2(n: nat): nat
  {
    if n == 0 then 1 else 2 * Pow2(n - 1)
  }

  /** The balanced split keeps the instantiation depth logarithmic:
      a range of n axes is built with depth d where 2^d < 2n. */
  lemma {:induction false} SplitDepthLogarithmic(first: int, last: int)
    requires 0 <= first <= last
    ensures Pow2(SplitDepth(first, last)) < 2 * (last - first + 1)
    decreases last - first
  {
    if first != last {
      var mid := (first + last) / 2;
      var n := last - first + 1;
      assert 2 * mid <= first + last <= 2 * mid + 1;
      SplitDepthLogarithmic(first, mid);
      SplitDepthLogarithmic(mid + 1, last);
      var dl, dr := SplitDepth(first, mid), SplitDepth(mid + 1, last);
      HalfBelow(dl, mid - first + 1, n);
      HalfBelow(dr, last - mid, n);
    }
  }

  /** A power of two below twice the larger half of n (n >= 2) is below n. */
  lemma HalfBelow(d: nat, half: int, n: int)
    requires n >= 2 && 2 * half <= n + 1 && Pow2(d) < 2 * half
    ensures Pow2(d) < n
  {
    if d > 0 {
      assert Pow2(d) == 2 * Pow2(d - 1);
    }
  }

  /** The argument lists `make_seq<dims, Extents...>` accepts. With no
      extents, `dims` is either the `StaticDims` sentinel or a positive
      rank; one extent is accepted whatever `dims` says; two or more
      must be exactly `dims` many (the source's static_assert). */
  predicate MakeSeqDefined(dims: int, extents: seq<int>)
  {
    if |extents| == 0 then dims >= 1 || dims == StaticDims
    else |extents| == 1 || dims == |extents|
  }

  /** `make_seq_t<dims, Extents...>`: the axis specs an `extents` type uses. */
  function MakeSeq(dims: int, extents: seq<int>): (r: seq<int>)
    requires MakeSeqDefined(dims, extents)
    ensures extents == [] && dims == StaticDims ==> r == []
    ensures extents == [] && dims >= 1 ==>
      |r| == dims && forall i :: 0 <= i < |r| ==> r[i] == DynamicExtent
    ensures extents != [] ==> r == extents
    ensures |extents| >= 2 ==> |r| == dims
  {
    if |extents| == 0 then
      if dims == StaticDims then [] else MakeSeqDynamic(dims)
    else extents
  }

  /** `compare_seq_equal`: head-by-head comparison of two packs. */
  function CompareSeqEqual(s1: seq<int>, s2: seq<int>): (r: bool)
    ensures r <==> s1 == s2
  {
    if s1 == [] && s2 == [] then true
    else if s1 == [] || s2 == [] then false
    else s1[0] == s2[0] && CompareSeqEqual(s1[1..], s2[1..])
  }

  /** `get<index>`: walks `index` steps down the pack. */
  function Get(index: int, s: seq<int>): (r: int)
    requires 0 <= index < |s|
    ensures r == s[index]
  {
    if index == 0 then s[0] else Get(index - 1, s[1..])
  }

  /** `remove_item<index>`: the pack without its entry at `index`. Index 0
      of the empty pack is accepted and yields the empty pack. */
  function RemoveItem(index: int, s: seq<int>): (r: seq<int>)
    requires 0 <= index < |s| || (index == 0 && s == [])
    ensures s == [] ==> r == []
    ensures s != [] ==> |r| == |s| - 1
    ensures forall i :: 0 <= i < index && i < |r| ==> r[i] == s[i]
    ensures forall i :: index <= i < |r| ==> r[i] == s[i + 1]
  {
    if index == 0 then
      if s == [] then [] else s[1..]
    else Concat([s[0]], RemoveItem(index - 1, s[1..]))
  }

  /** Removing an entry takes exactly that entry out of the pack's contents. */
  lemma {:induction false} RemoveItemMultiset(index: int, s: seq<int>)
    requires 0 <= index < |s|
    ensures multiset(RemoveItem(index, s)) + multiset{s[index]} == multiset(s)
  {
    var r := RemoveItem(index, s);
    var a, b := s[..index], s[index + 1..];
    assert r == a + b by {
      assert |r| == |a + b|;
      forall i | 0 <= i < |r|
        ensures r[i] == (a + b)[i]
      {
        if i < index { assert r[i] == s[i]; } else { assert r[i] == s[i + 1]; }
      }
    }
    assert s == a + [s[index]] + b;
    assert multiset(s) == multiset(a) + multiset{s[index]} + multiset(b);
  }
}
