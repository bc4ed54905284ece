/** Range algorithms over the axes of an `extents` value.

    Each algorithm scans axis indices in increasing order and reads the
    axis size through `e.at(i)`, which the `extents` type does not
    declare; it is read here as `extent(i)`, so an index past the last axis
    reads 1. The ranged forms take the half-open index range [b, end);
    the full forms use [0, rank()).
 */
module ExtentsAlgorithm {
  import opened Mdspan

  /** The sizes `e.at(i)` reads for `i` in [b, end), in index order. */
  function Window(e: Extents, b: nat, end: nat): (w: seq<int>)
    requires Valid(e) && b <= end
    ensures |w| == end - b
    ensures forall i :: 0 <= i < |w| ==> w[i] == Extent(e, b + i)
  {
    seq(end - b, i requires 0 <= i < end - b => Extent(e, b + i))
  }

  /** The number of indices `i` in [b, end) whose size satisfies `f`. */
  function CountIf(e: Extents, b: nat, end: nat, f: int -> bool): nat
    requires Valid(e) && b <= end
    decreases end - b
  {
    if end == b then 0
    else CountIf(e, b, end - 1, f) + (if f(Extent(e, end - 1)) then 1 else 0)
  }

  /** The count reaches the length of the range exactly when every index
      in it satisfies `f`. */
  lemma {:induction false} CountIfAll(e: Extents, b: nat, end: nat, f: int -> bool)
    requires Valid(e) && b <= end
    ensures CountIf(e, b, end, f) <= end - b
    ensures CountIf(e, b, end, f) == end - b <==> forall i :: b <= i < end ==> f(Extent(e, i))
    decreases end - b
  {
    if end > b {
      CountIfAll(e, b, end - 1, f);
    }
  }

  /** Left fold of `func` over `s`, starting from `init`. */
  function FoldLeft<T>(func: (T, int) -> T, init: T, s: seq<int>): T
  {
    if s == [] then init else func(FoldLeft(func, init, s[..|s| - 1]), s[|s| - 1])
  }

  /** Sum of the elements of `s`. */
  function Sum(s: seq<int>): int
  {
    if s == [] then 0 else s[0] + Sum(s[1..])
  }

  lemma {:induction false} SumAppend(s: seq<int>, x: int)
    ensures Sum(s + [x]) == Sum(s) + x
  {
    if s != [] {
      assert (s + [x])[1..] == s[1..] + [x];
      SumAppend(s[1..], x);
    }
  }

  /** Folding with addition from `init` adds the sum of the elements. */
  lemma {:induction false} FoldAddIsSum(init: int, s: seq<int>)
    ensures FoldLeft((a: int, x: int) => a + x, init, s) == init + Sum(s)
  {
    if s != [] {
      var p := s[..|s| - 1];
      FoldAddIsSum(init, p);
      SumAppend(p, s[|s| - 1]);
      assert p + [s[|s| - 1]] == s;
    }
  }

  lemma WindowStep(e: Extents, b: nat, i: nat)
    requires Valid(e) && b <= i
    ensures Window(e, b, i + 1) == Window(e, b, i) + [Extent(e, i)]
  {
  }

  /** `all_of(e, b, end, f)`: counts the indices whose size satisfies `f`
      and compares the count with the length of the range. */
  method AllOfRange(e: Extents, b: nat, end: nat, f: int -> bool) returns (r: bool)
    requires Valid(e) && b <= end
    ensures r <==> forall i :: b <= i < end ==> f(Extent(e, i))
  {
    var all := 0;
    var i := b;
    while i < end
      invariant b <= i <= end
      invariant all == CountIf(e, b, i, f)
    {
      if f(Extent(e, i)) {
        all := all + 1;
      }
      i := i + 1;
    }
    CountIfAll(e, b, end, f);
    r := all == end - b;
  }

  /** `all_of(e, f)`: `all_of` over [0, rank()). */
  method AllOf(e: Extents, f: int -> bool) returns (r: bool)
    requires Valid(e)
    ensures r <==> forall i :: 0 <= i < RankOf(e) ==> f(Extent(e, i))
  {
    r := AllOfRange(e, 0, RankOf(e), f);
  }

  /** `none_of(e, b, end, f)` as the source defines it, `!all_of(...)`:
      true when SOME index in the range fails `f`. */
  method NoneOfRange(e: Extents, b: nat, end: nat, f: int -> bool) returns (r: bool)
    requires Valid(e) && b <= end
    ensures r <==> exists i :: b <= i < end && !f(Extent(e, i))
  {
    var all := AllOfRange(e, b, end, f);
    r := !all;
  }

  /** `none_of(e, f)` as the source defines it, `!all_of(e, f)`. */
  method NoneOf(e: Extents, f: int -> bool) returns (r: bool)
    requires Valid(e)
    ensures r <==> exists i :: 0 <= i < RankOf(e) && !f(Extent(e, i))
  {
    r := NoneOfRange(e, 0, RankOf(e), f);
  }

  /** `none_of` as its name promises: no index in the range satisfies `f`. */
  method NoneOfRangeIntended(e: Extents, b: nat, end: nat, f: int -> bool) returns (r: bool)
    requires Valid(e) && b <= end
    ensures r <==> forall i :: b <= i < end ==> !f(Extent(e, i))
  {
    var any := AnyOfRange(e, b, end, f);
    r := !any;
  }

  /** `none_of(e, f)` as its name promises, over [0, rank()). */
  method NoneOfIntended(e: Extents, f: int -> bool) returns (r: bool)
    requires Valid(e)
    ensures r <==> forall i :: 0 <= i < RankOf(e) ==> !f(Extent(e, i))
  {
    r := NoneOfRangeIntended(e, 0, RankOf(e), f);
  }

  /** On the fixed shape [2, 3] with "the size is 2", the source's
      `none_of` answers true although axis 0 has size 2; the intended
      `none_of` answers false. */
  method NoneOfMisreports() returns (asWritten: bool, intended: bool)
    ensures asWritten && !intended
  {
    var e := Default(2, [2, 3]);
    var isTwo := (x: int) => x == 2;
    assert Extent(e, 0) == 2 && Extent(e, 1) == 3;
    asWritten := NoneOf(e, isTwo);
    intended := NoneOfIntended(e, isTwo);
  }

  /** `any_of(e, b, end, f)`: stops at the first index whose size
      satisfies `f`. */
  method AnyOfRange(e: Extents, b: nat, end: nat, f: int -> bool) returns (r: bool)
    requires Valid(e) && b <= end
    ensures r <==> exists i :: b <= i < end && f(Extent(e, i))
  {
    var i := b;
    while i < end
      invariant b <= i <= end
      invariant forall j :: b <= j < i ==> !f(Extent(e, j))
    {
      if f(Extent(e, i)) {
        return true;
      }
      i := i + 1;
    }
    return false;
  }

  /** `any_of(e, f)`: `any_of` over [0, rank()). */
  method AnyOf(e: Extents, f: int -> bool) returns (r: bool)
    requires Valid(e)
    ensures r <==> exists i :: 0 <= i < RankOf(e) && f(Extent(e, i))
  {
    r := AnyOfRange(e, 0, RankOf(e), f);
  }

  /** `accumulate(e, b, end, initial, func)`: folds `func` over the sizes
      of the range from left to right. */
  method AccumulateRange<T>(e: Extents, b: nat, end: nat, initial: T, func: (T, int) -> T)
    returns (r: T)
    requires Valid(e) && b <= end
    ensures r == FoldLeft(func, initial, Window(e, b, end))
  {
    r := initial;
    var i := b;
    assert Window(e, b, b) == [];
    while i < end
      invariant b <= i <= end
      invariant r == FoldLeft(func, initial, Window(e, b, i))
    {
      WindowStep(e, b, i);
      assert Window(e, b, i + 1)[..i - b] == Window(e, b, i);
      r := func(r, Extent(e, i));
      i := i + 1;
    }
  }

  /** `accumulate(e, initial, func)`: `accumulate` over [0, rank()). */
  method Accumulate<T>(e: Extents, initial: T, func: (T, int) -> T) returns (r: T)
    requires Valid(e)
    ensures r == FoldLeft(func, initial, Window(e, 0, RankOf(e)))
  {
    r := AccumulateRange(e, 0, RankOf(e), initial, func);
  }

  /** `accumulate(e, b, end, initial)`: adds the sizes of the range to
      `initial`. */
  method AccumulateSumRange(e: Extents, b: nat, end: nat, initial: int) returns (r: int)
    requires Valid(e) && b <= end
    ensures r == initial + Sum(Window(e, b, end))
  {
    r := initial;
    var i := b;
    assert Window(e, b, b) == [];
    while i < end
      invariant b <= i <= end
      invariant r == initial + Sum(Window(e, b, i))
    {
      WindowStep(e, b, i);
      SumAppend(Window(e, b, i), Extent(e, i));
      r := r + Extent(e, i);
      i := i + 1;
    }
  }

  /** `accumulate(e, initial)`: `initial` plus the sum of all extents. */
  method AccumulateSum(e: Extents, initial: int) returns (r: int)
    requires Valid(e)
    ensures r == initial + Sum(Window(e, 0, RankOf(e)))
  {
    r := AccumulateSumRange(e, 0, RankOf(e), initial);
  }

  /** `find(e, value)` as the source writes it: the scan runs over
      [0, rank()] inclusive, and the extra read at `rank()` yields 1, so a
      search for 1 always succeeds. */
  method Find(e: Extents, value: int) returns (found: bool)
    requires Valid(e)
    ensures found <==> exists i :: 0 <= i <= RankOf(e) && Extent(e, i) == value
    ensures found <==> value == 1 || exists i :: 0 <= i < RankOf(e) && Extent(e, i) == value
  {
    var i := 0;
    while i < RankOf(e) + 1
      invariant 0 <= i <= RankOf(e) + 1
      invariant forall j :: 0 <= j < i ==> Extent(e, j) != value
    {
      if Extent(e, i) == value {
        return true;
      }
      i := i + 1;
    }
    assert Extent(e, RankOf(e)) == 1;
    return false;
  }

  /** `find(e, value)` scanning [0, rank()) as intended: true exactly when
      some axis has size `value`. */
  method FindIntended(e: Extents, value: int) returns (found: bool)
    requires Valid(e)
    ensures found <==> exists i :: 0 <= i < RankOf(e) && Extent(e, i) == value
  {
    var i := 0;
    while i < RankOf(e)
      invariant 0 <= i <= RankOf(e)
      invariant forall j :: 0 <= j < i ==> Extent(e, j) != value
    {
      if Extent(e, i) == value {
        return true;
      }
      i := i + 1;
    }
    return false;
  }

  /** On the fixed shape [2, 3], the source's `find` reports a size 1 that
      no axis has; the intended `find` does not. */
  method FindMisreportsOne() returns (asWritten: bool, intended: bool)
    ensures asWritten && !intended
  {
    var e := Default(2, [2, 3]);
    assert Extent(e, 0) == 2 && Extent(e, 1) == 3;
    asWritten := Find(e, 1);
    intended := FindIntended(e, 1);
  }

  /** `find_if(e, f)`: scans [0, rank()) for a size satisfying `f`; it
      answers what `any_of(e, f)` answers. */
  method FindIf(e: Extents, f: int -> bool) returns (found: bool)
    requires Valid(e)
    ensures found <==> exists i :: 0 <= i < RankOf(e) && f(Extent(e, i))
  {
    var i := 0;
    while i < RankOf(e)
      invariant 0 <= i <= RankOf(e)
      invariant forall j :: 0 <= j < i ==> !f(Extent(e, j))
    {
      if f(Extent(e, i)) {
        return true;
      }
      i := i + 1;
    }
    return false;
  }
}
