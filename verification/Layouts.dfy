/** Dense array shapes and the offset of a logical index in the flat buffer
    (xla/index_util.h, xla/layout_util.cc). */
module Layouts {
  import opened MixedRadix
  import opened Permutations

  /** An array shape: dimension sizes (upper bounds where `dynamic`) and the layout,
      a permutation listing the dimensions from most minor to most major. */
  datatype Shape = Shape(dims: seq<nat>, minorToMajor: seq<int>, dynamic: seq<bool>) {
    ghost predicate Valid() {
      |minorToMajor| == |dims| == |dynamic| && IsPerm(minorToMajor)
    }

    function Rank(): nat { |dims| }

    predicate IsStatic() { forall d :: 0 <= d < |dynamic| ==> !dynamic[d] }

    predicate IsZeroElementArray() { exists d :: 0 <= d < |dims| && dims[d] == 0 }
  }

  /** The element count, xla/shape_util.h `ElementsIn`. */
  function ElementsIn(sh: Shape): nat { Product(sh.dims) }

  /** Dynamic sizes stay within the bounds, as `SetDynamicSize` checks. */
  ghost predicate SizesFit(sh: Shape, sizes: seq<int>) {
    && sh.Valid() && |sizes| == |sh.dims|
    && forall d :: 0 <= d < |sizes| && sh.dynamic[d] ==> sizes[d] <= sh.dims[d]
  }

  ghost function Radices(sh: Shape): (r: seq<nat>)
    requires sh.Valid()
    ensures |r| == |sh.dims|
  {
    Gather(sh.dims, sh.minorToMajor)
  }

  /** The meaning of a layout: where the element at a logical index is stored. */
  ghost function Offset(sh: Shape, index: seq<int>): int
    requires sh.Valid() && |index| == |sh.dims|
  {
    Value(Gather(index, sh.minorToMajor), Radices(sh))
  }

  /** The logical index stored at a buffer position. */
  ghost function IndexAt(sh: Shape, p: int): (index: seq<int>)
    requires sh.Valid() && AllPositive(Radices(sh))
    ensures |index| == |sh.dims|
  {
    var digits := Digits(p, Radices(sh));
    seq(|sh.dims|, d requires 0 <= d < |sh.dims| => digits[PositionOf(sh.minorToMajor, d)])
  }

  /** Distance in the buffer between neighbours along dimension `d`. */
  ghost function Stride(sh: Shape, d: int): nat
    requires sh.Valid() && 0 <= d < |sh.dims|
  {
    Product(Radices(sh)[..PositionOf(sh.minorToMajor, d)])
  }

  // ---- a layout is a bijection between in-bounds indices and positions ----

  lemma GatherRange(index: seq<int>, dims: seq<nat>, p: seq<int>)
    requires |index| == |dims| == |p| && IsPerm(p)
    ensures InRange(index, dims) <==> InRange(Gather(index, p), Gather(dims, p))
  {
    if InRange(Gather(index, p), Gather(dims, p)) {
      forall d | 0 <= d < |dims| ensures 0 <= index[d] < dims[d] {
        var k := PositionOf(p, d);
        assert Gather(index, p)[k] == index[d] && Gather(dims, p)[k] == dims[d];
      }
    }
  }

  lemma DropEntry(p: seq<int>, j: nat)
    requires IsPerm(p) && j < |p| && p[j] == |p| - 1
    ensures IsPerm(p[..j] + p[j + 1..])
  {
    var q := p[..j] + p[j + 1..];
    forall k | 0 <= k < |q| ensures 0 <= q[k] < |q| {
      assert q[k] == p[if k < j then k else k + 1];
    }
  }

  /** Gathering with the position of the last entry taken out and put back. */
  lemma GatherDrop<T>(s: seq<T>, p: seq<int>, j: nat)
    requires |s| == |p| && IsPerm(p) && j < |p| && p[j] == |p| - 1
    ensures IsPerm(p[..j] + p[j + 1..])
    ensures
      var g := Gather(s[..|p| - 1], p[..j] + p[j + 1..]);
      Gather(s, p) == g[..j] + [s[|p| - 1]] + g[j..]
  {
    DropEntry(p, j);
    var g := Gather(s[..|p| - 1], p[..j] + p[j + 1..]);
    forall k | 0 <= k < |p| ensures Gather(s, p)[k] == (g[..j] + [s[|p| - 1]] + g[j..])[k] {
      if k > j { assert g[j..][k - j - 1] == g[k - 1]; }
    }
  }

  lemma MulRotate(a: int, x: int, b: int)
    ensures a * x * b == a * b * x
  {}

  lemma ProductMoveToEnd(a: seq<nat>, x: nat, b: seq<nat>)
    ensures Product(a + [x] + b) == Product(a + b) * x
  {
    ProductConcat(a + [x], b);
    ProductConcat(a, [x]);
    ProductConcat(a, b);
    assert Product([x]) == x by { assert [x][1..] == []; }
    MulRotate(Product(a), x, Product(b));
  }

  /** Permuting the factors keeps the product, so the layout does not change the size. */
  lemma {:induction false} ProductGather(s: seq<nat>, p: seq<int>)
    requires |s| == |p| && IsPerm(p)
    ensures Product(Gather(s, p)) == Product(s)
    decreases |p|
  {
    if p != [] {
      var n := |p| - 1;
      var j := PositionOf(p, n);
      GatherDrop(s, p, j);
      var g := Gather(s[..n], p[..j] + p[j + 1..]);
      ProductGather(s[..n], p[..j] + p[j + 1..]);
      ProductMoveToEnd(g[..j], s[n], g[j..]);
      assert g[..j] + g[j..] == g;
      ProductStep(s, n);
      assert s == s[..n + 1];
    }
  }

  lemma OffsetBound(sh: Shape, index: seq<int>)
    requires sh.Valid() && InRange(index, sh.dims)
    ensures 0 <= Offset(sh, index) < ElementsIn(sh)
  {
    GatherRange(index, sh.dims, sh.minorToMajor);
    ValueBound(Gather(index, sh.minorToMajor), Radices(sh));
    ProductGather(sh.dims, sh.minorToMajor);
  }

  lemma GatherEq(a: seq<int>, b: seq<int>, p: seq<int>)
    requires |a| == |b| == |p| && IsPerm(p) && Gather(a, p) == Gather(b, p)
    ensures a == b
  {
    forall d | 0 <= d < |a| ensures a[d] == b[d] {
      var k := PositionOf(p, d);
      assert Gather(a, p)[k] == Gather(b, p)[k];
    }
  }

  lemma OffsetInjective(sh: Shape, a: seq<int>, b: seq<int>)
    requires sh.Valid() && InRange(a, sh.dims) && InRange(b, sh.dims)
    requires Offset(sh, a) == Offset(sh, b)
    ensures a == b
  {
    var p := sh.minorToMajor;
    GatherRange(a, sh.dims, p);
    GatherRange(b, sh.dims, p);
    ValueInjective(Gather(a, p), Gather(b, p), Radices(sh));
    GatherEq(a, b, p);
  }

  lemma GatherIndexAt(sh: Shape, p: int)
    requires sh.Valid() && AllPositive(Radices(sh))
    ensures Gather(IndexAt(sh, p), sh.minorToMajor) == Digits(p, Radices(sh))
  {
    var m := sh.minorToMajor;
    forall k | 0 <= k < |m| ensures PositionOf(m, m[k]) == k {
      if PositionOf(m, m[k]) < k {} else if PositionOf(m, m[k]) > k {}
    }
  }

  /** Positions decode to in-bounds indices, and encoding them again gives the position. */
  lemma OffsetOfIndexAt(sh: Shape, p: int)
    requires sh.Valid() && 0 <= p < ElementsIn(sh)
    ensures AllPositive(Radices(sh))
    ensures InRange(IndexAt(sh, p), sh.dims) && Offset(sh, IndexAt(sh, p)) == p
  {
    ProductGather(sh.dims, sh.minorToMajor);
    ValueOfDigits(p, Radices(sh));
    GatherIndexAt(sh, p);
    GatherRange(IndexAt(sh, p), sh.dims, sh.minorToMajor);
  }

  lemma IndexAtOfOffset(sh: Shape, index: seq<int>)
    requires sh.Valid() && InRange(index, sh.dims)
    ensures AllPositive(Radices(sh)) && IndexAt(sh, Offset(sh, index)) == index
  {
    OffsetBound(sh, index);
    OffsetOfIndexAt(sh, Offset(sh, index));
    OffsetInjective(sh, index, IndexAt(sh, Offset(sh, index)));
  }

  lemma ZeroElements(sh: Shape)
    ensures sh.IsZeroElementArray() <==> ElementsIn(sh) == 0
  {
    ProductPositive(sh.dims);
  }

  /** Moving along one dimension moves the offset by that dimension's stride. */
  lemma OffsetUpdate(sh: Shape, index: seq<int>, d: int, x: int)
    requires sh.Valid() && |index| == |sh.dims| && 0 <= d < |index|
    ensures Offset(sh, index[d := x]) == Offset(sh, index) + (x - index[d]) * Stride(sh, d)
  {
    var p := sh.minorToMajor;
    var k := PositionOf(p, d);
    assert Gather(index[d := x], p) == Gather(index, p)[k := x];
    ValueUpdate(Gather(index, p), Radices(sh), k, x);
  }

  lemma StrideAt(sh: Shape, k: nat)
    requires sh.Valid() && k < |sh.dims|
    ensures Stride(sh, sh.minorToMajor[k]) == Product(Radices(sh)[..k])
  {
    var m := sh.minorToMajor;
    if PositionOf(m, m[k]) < k {} else if PositionOf(m, m[k]) > k {}
  }

  lemma VectorOffset(sh: Shape, x: seq<int>)
    requires sh.Valid() && |sh.dims| == 1 == |x|
    ensures Offset(sh, x) == x[sh.minorToMajor[0]] && ElementsIn(sh) == sh.dims[sh.minorToMajor[0]]
  {
    var a, r := Gather(x, sh.minorToMajor), Radices(sh);
    assert a[1..] == [] && r[1..] == [] && sh.dims[1..] == [];
    assert Value(a[1..], r[1..]) == 0 && Product(sh.dims[1..]) == 1;
  }

  // ---- row-major order ----

  function RowMajor(n: nat): (p: seq<int>)
    ensures |p| == n && IsPerm(p)
  {
    seq(n, k => n - 1 - k)
  }

  /** The shape with the default, descending layout. */
  function RowMajorShape(dims: seq<nat>): (sh: Shape)
    ensures sh.Valid() && sh.IsStatic()
  {
    Shape(dims, RowMajor(|dims|), seq(|dims|, _ => false))
  }

  ghost function RowRank(index: seq<int>, dims: seq<nat>): int
    requires |index| == |dims|
  {
    Offset(RowMajorShape(dims), index)
  }

  lemma RankInTwo(index: seq<int>, dims: seq<nat>)
    requires |index| == |dims| == 2
    ensures RowRank(index, dims) == index[0] * dims[1] + index[1]
  {
    var a, r := Gather(index, RowMajor(2)), Gather(dims, RowMajor(2));
    assert a == [index[1], index[0]] && r == [dims[1], dims[0]];
    assert a[1..] == [index[0]] && r[1..] == [dims[0]];
    assert Value(a[1..], r[1..]) == index[0];
  }

  /** `a` and `b` agree before `k` and `a` is smaller at `k`. */
  ghost predicate LexLessAt(a: seq<int>, b: seq<int>, k: int) {
    |a| == |b| && 0 <= k < |a| && a[..k] == b[..k] && a[k] < b[k]
  }

  ghost predicate LexLess(a: seq<int>, b: seq<int>) {
    exists k :: LexLessAt(a, b, k)
  }

  lemma LexTotal(a: seq<int>, b: seq<int>)
    requires |a| == |b|
    ensures a == b || LexLess(a, b) || LexLess(b, a)
  {
    var k := 0;
    while k < |a| && a[k] == b[k]
      invariant 0 <= k <= |a| && a[..k] == b[..k]
    {
      k := k + 1;
    }
    if k < |a| {
      assert LexLessAt(a, b, k) || LexLessAt(b, a, k);
    } else {
      assert a == a[..k] && b == b[..k];
    }
  }

  lemma LexLessMeansLowerRank(a: seq<int>, b: seq<int>, dims: seq<nat>)
    requires InRange(a, dims) && InRange(b, dims) && LexLess(a, b)
    ensures RowRank(a, dims) < RowRank(b, dims)
  {
    var k :| LexLessAt(a, b, k);
    var n := |dims|;
    var p := RowMajor(n);
    var j := n - 1 - k;
    GatherRange(a, dims, p);
    GatherRange(b, dims, p);
    var ga, gb := Gather(a, p), Gather(b, p);
    assert ga[j + 1..] == gb[j + 1..] by {
      forall i | j + 1 <= i < n ensures ga[i] == gb[i] {
        assert ga[i] == a[..k][n - 1 - i] && gb[i] == b[..k][n - 1 - i];
      }
    }
    ValueOrder(ga, gb, Gather(dims, p), j);
  }

  /** Row-major rank orders indices lexicographically. */
  lemma RowRankOrder(a: seq<int>, b: seq<int>, dims: seq<nat>)
    requires InRange(a, dims) && InRange(b, dims)
    ensures LexLess(a, b) <==> RowRank(a, dims) < RowRank(b, dims)
  {
    LexTotal(a, b);
    if LexLess(a, b) { LexLessMeansLowerRank(a, b, dims); }
    if LexLess(b, a) { LexLessMeansLowerRank(b, a, dims); }
  }

  /** The only descending permutation is the default layout, so the sortedness test of
      `IsMonotonicWithDim0Major` recognises exactly that layout. */
  lemma DescendingIsRowMajor(p: seq<int>)
    requires IsPerm(p) && forall k :: 0 <= k < |p| - 1 ==> p[k] >= p[k + 1]
    ensures p == RowMajor(|p|)
  {
    var n := |p|;
    for k := 0 to n
      invariant forall j :: 0 <= j < k ==> p[j] <= n - 1 - j
    {
      if k > 0 { assert p[k - 1] >= p[k - 1 + 1] && p[k - 1] != p[k]; }
    }
    for k := n downto 0
      invariant forall j :: k <= j < n ==> p[j] >= n - 1 - j
    {
      if k + 1 < n { assert p[k] != p[k + 1]; }
    }
  }
}
