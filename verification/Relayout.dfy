/** Layout-changing operations on literals: element copy, relayout, reshape and transpose
    (xla/literal.cc). */
module Relayouts {
  import opened MixedRadix
  import opened Permutations
  import opened Layouts
  import opened IndexUtil
  import opened Literals
  import opened Arrays

  /** Two buffers hold the same element at one logical index. */
  ghost predicate SameAt<T>(a: seq<T>, sa: Shape, b: seq<T>, sb: Shape, index: seq<int>)
    requires sa.Valid() && sb.Valid() && |sa.dims| == |sb.dims| == |index|
  {
    && 0 <= Offset(sa, index) < |a| && 0 <= Offset(sb, index) < |b|
    && a[Offset(sa, index)] == b[Offset(sb, index)]
  }

  ghost predicate Comparable<T>(a: seq<T>, sa: Shape, b: seq<T>, sb: Shape) {
    sa.Valid() && sb.Valid() && sa.dims == sb.dims && |a| == ElementsIn(sa) && |b| == ElementsIn(sb)
  }

  /** ... at every index among the first `t` in row-major order. */
  ghost predicate SameBelow<T>(a: seq<T>, sa: Shape, b: seq<T>, sb: Shape, t: int)
    requires Comparable(a, sa, b, sb)
  {
    forall index :: InRange(index, sa.dims) && RowRank(index, sa.dims) < t ==> SameAt(a, sa, b, sb, index)
  }

  /** ... at every index. */
  ghost predicate SameElements<T>(a: seq<T>, sa: Shape, b: seq<T>, sb: Shape) {
    && Comparable(a, sa, b, sb)
    && forall index :: InRange(index, sa.dims) ==> SameAt(a, sa, b, sb, index)
  }

  lemma SameToTheEnd<T>(a: seq<T>, sa: Shape, b: seq<T>, sb: Shape)
    requires Comparable(a, sa, b, sb) && SameBelow(a, sa, b, sb, ElementsIn(sa))
    ensures SameElements(a, sa, b, sb)
  {
    forall index | InRange(index, sa.dims) ensures SameAt(a, sa, b, sb, index) {
      RowRankBound(index, sa.dims);
    }
  }

  lemma SameFromStart<T>(a: seq<T>, sa: Shape, b: seq<T>, sb: Shape)
    requires Comparable(a, sa, b, sb)
    ensures SameBelow(a, sa, b, sb, 0)
  {
    forall index | InRange(index, sa.dims) ensures RowRank(index, sa.dims) >= 0 {
      RowRankBound(index, sa.dims);
    }
  }

  lemma SameBuffer<T>(a: seq<T>, sh: Shape)
    requires sh.Valid() && |a| == ElementsIn(sh)
    ensures SameElements(a, sh, a, sh)
  {
    forall index | InRange(index, sh.dims) ensures SameAt(a, sh, a, sh, index) {
      OffsetBound(sh, index);
    }
  }

  /** A literal is determined by its shape and its elements. */
  lemma ElementsDetermineBuffer<T>(a: seq<T>, b: seq<T>, sh: Shape)
    requires SameElements(a, sh, b, sh)
    ensures a == b
  {
    forall p | 0 <= p < |a| ensures a[p] == b[p] {
      OffsetOfIndexAt(sh, p);
      assert SameAt(a, sh, b, sh, IndexAt(sh, p));
    }
  }

  /** Changing the layout and changing it back restores the buffer. */
  lemma RelayoutRoundTrip<T>(a: seq<T>, sa: Shape, b: seq<T>, sb: Shape, c: seq<T>)
    requires SameElements(b, sb, a, sa) && SameElements(c, sa, b, sb)
    ensures c == a
  {
    forall index | InRange(index, sa.dims) ensures SameAt(c, sa, a, sa, index) {
      assert SameAt(b, sb, a, sa, index) && SameAt(c, sa, b, sb, index);
    }
    ElementsDetermineBuffer(c, a, sa);
  }

  /** Writing one element disturbs no other index. */
  lemma OtherIndexKept<T>(a: seq<T>, sa: Shape, b: seq<T>, sb: Shape, index: seq<int>, x: T, i: seq<int>)
    requires sa.Valid() && sb.Valid() && |sa.dims| == |sb.dims| && InRange(index, sa.dims) && InRange(i, sa.dims)
    requires SameAt(a, sa, b, sb, i) && i != index && 0 <= Offset(sa, index) < |a|
    ensures SameAt(a[Offset(sa, index) := x], sa, b, sb, i)
  {
    if Offset(sa, i) == Offset(sa, index) { OffsetInjective(sa, i, index); }
  }

  lemma SameExtends<T>(a: seq<T>, sa: Shape, b: seq<T>, sb: Shape, t: int)
    requires Comparable(a, sa, b, sb) && 0 <= t < ElementsIn(sa) && SameBelow(a, sa, b, sb, t)
    ensures
      var index := RowIndex(sa.dims, t);
      && 0 <= Offset(sa, index) < |a| && 0 <= Offset(sb, index) < |b|
      && SameBelow(a[Offset(sa, index) := b[Offset(sb, index)]], sa, b, sb, t + 1)
  {
    var index := RowIndex(sa.dims, t);
    OffsetBound(sa, index);
    OffsetBound(sb, index);
    var x := b[Offset(sb, index)];
    forall i | InRange(i, sa.dims) && RowRank(i, sa.dims) < t + 1
      ensures SameAt(a[Offset(sa, index) := x], sa, b, sb, i)
    {
      if i != index {
        RowRankBound(i, sa.dims);
        OtherIndexKept(a, sa, b, sb, index, x, i);
      }
    }
  }

  /** Copies element by element along the row-major odometer. */
  method CopyElementsBetween<T>(dest: array<T>, src: array<T>, destShape: Shape, srcShape: Shape)
    requires destShape.Valid() && srcShape.Valid() && destShape.dims == srcShape.dims && dest != src
    requires dest.Length == ElementsIn(destShape) && src.Length == ElementsIn(srcShape)
    modifies dest
    ensures SameElements(dest[..], destShape, src[..], srcShape)
  {
    var dims := destShape.dims;
    ZeroElements(destShape);
    if destShape.IsZeroElementArray() { return; }
    ProductPositive(dims);
    var index := Origin(dims);
    ghost var from := src[..];
    ghost var t := 0;
    SameFromStart(dest[..], destShape, from, srcShape);
    var more := true;
    while more
      invariant fresh(index) && src[..] == from && 0 <= t <= Product(dims)
      invariant more ==> t < Product(dims) && index[..] == RowIndex(dims, t)
      invariant !more ==> t == Product(dims)
      invariant SameBelow(dest[..], destShape, from, srcShape, t)
      decreases Product(dims) - t, more
    {
      SameExtends(dest[..], destShape, from, srcShape, t);
      var d := MultidimensionalIndexToLinearIndex(destShape, index[..]);
      var s := MultidimensionalIndexToLinearIndex(srcShape, index[..]);
      dest[d] := src[s];
      more := BumpScan(dims, index, t);
      t := t + 1;
    }
    SameToTheEnd(dest[..], destShape, from, srcShape);
  }

  /** memcpy of a whole buffer. */
  method CopyBuffer<T>(dest: array<T>, src: array<T>)
    requires dest.Length == src.Length && dest != src
    modifies dest
    ensures dest[..] == src[..]
  {
    for i := 0 to src.Length
      invariant dest[..i] == src[..i]
    {
      dest[i] := src[i];
      assert dest[..i + 1] == dest[..i] + [src[i]];
    }
  }

  /** `Piece::CopyFrom` for known arrays: equal shapes are copied as raw memory, others
      element by element. */
  method CopyFrom<T(0)>(dest: Literal<T>, src: Literal<T>)
    requires dest.Valid() && src.Valid() && dest != src && dest.data != src.data
    requires dest.shape.dims == src.shape.dims
    modifies dest`dynamicSizes, dest.data
    ensures dest.Valid() && SameElements(dest.data[..], dest.shape, src.data[..], src.shape)
    ensures dest.dynamicSizes ==
              if dest.shape.IsStatic() || src.shape.IsStatic() then old(dest.dynamicSizes) else src.dynamicSizes
  {
    if dest.shape == src.shape {
      CopyBuffer(dest.data, src.data);
      SameBuffer(src.data[..], src.shape);
    } else {
      CopyElementsBetween(dest.data, src.data, dest.shape, src.shape);
    }
    if !dest.shape.IsStatic() && !src.shape.IsStatic() {
      dest.dynamicSizes := src.dynamicSizes;
    }
  }

  /** The same elements under another layout. */
  method Relayout<T(0)>(literal: Literal<T>, layout: seq<int>) returns (result: Literal<T>)
    requires literal.Valid() && IsPerm(layout) && |layout| == |literal.shape.dims|
    ensures result.Valid() && fresh(result) && fresh(result.data)
    ensures result.shape == literal.shape.(minorToMajor := layout)
    ensures SameElements(result.data[..], result.shape, literal.data[..], literal.shape)
    ensures !literal.shape.IsStatic() ==> result.dynamicSizes == literal.dynamicSizes
  {
    result := new Literal(literal.shape.(minorToMajor := layout));
    CopyFrom(result, literal);
  }

  /** Dimension 0 is most major: the layout is sorted in descending order. */
  method IsMonotonicWithDim0Major(layout: seq<int>) returns (sorted: bool)
    requires IsPerm(layout)
    ensures sorted <==> layout == RowMajor(|layout|)
  {
    var k := 1;
    while k < |layout|
      invariant 1 <= k && forall j :: 0 <= j < k - 1 && j + 1 < |layout| ==> layout[j] >= layout[j + 1]
    {
      if layout[k - 1] < layout[k] {
        return false;
      }
      k := k + 1;
    }
    DescendingIsRowMajor(layout);
    return true;
  }

  datatype ReshapeResult<T(0)> = Reshaped(literal: Literal<T>) | Unimplemented | InvalidArgument

  /** The element of row-major rank `r` keeps rank `r`, whatever layout it starts from. */
  method Reshape<T(0)>(literal: Literal<T>, dims: seq<nat>) returns (result: ReshapeResult<T>)
    requires literal.Valid()
    ensures result.Unimplemented? <==> !literal.shape.IsStatic()
    ensures result.Reshaped? <==> literal.shape.IsStatic() && Product(dims) == ElementsIn(literal.shape)
    ensures result.Reshaped? ==>
      && fresh(result.literal) && result.literal.Valid() && result.literal.shape == RowMajorShape(dims)
      && forall i, j ::
           InRange(i, literal.shape.dims) && InRange(j, dims) && RowRank(i, literal.shape.dims) == RowRank(j, dims) ==>
             result.literal.At(j) == literal.At(i)
  {
    if !literal.shape.IsStatic() { return Unimplemented; }
    var n := |literal.shape.dims|;
    var monotonic := IsMonotonicWithDim0Major(literal.shape.minorToMajor);
    var output;
    if !monotonic {
      output := Relayout(literal, RowMajor(n));
    } else {
      output := Relayout(literal, literal.shape.minorToMajor);  // Clone
    }
    ghost var rowMajor := output.shape;
    output.shape := RowMajorShape(dims);
    if ElementsIn(literal.shape) != ElementsIn(output.shape) { return InvalidArgument; }
    output.dynamicSizes := seq(|dims|, _ => 0);
    ghost var a, b := output.data[..], literal.data[..];
    forall i, j | InRange(i, literal.shape.dims) && InRange(j, dims) && RowRank(i, literal.shape.dims) == RowRank(j, dims)
      ensures output.At(j) == literal.At(i)
    {
      assert SameAt(a, rowMajor, b, literal.shape, i);
    }
    return Reshaped(output);
  }

  // ---- Transpose ----

  /** Dimensions permuted, layout rewritten through the inverse so that the buffer stays put. */
  ghost function TransposedShape(sh: Shape, p: seq<int>): (t: Shape)
    requires sh.Valid() && IsPerm(p) && |p| == |sh.dims|
    ensures t.Valid()
  {
    var inverse := InverseOf(p);
    ComposedPermutation(inverse, sh.minorToMajor);
    Shape(Gather(sh.dims, p), Gather(inverse, sh.minorToMajor), Gather(sh.dynamic, p))
  }

  lemma ComposedPermutation(p: seq<int>, q: seq<int>)
    requires IsPerm(p) && IsPerm(q) && |p| == |q|
    ensures IsPerm(Gather(p, q))
  {
    var g := Gather(p, q);
    forall j, k | 0 <= j < k < |g| ensures g[j] != g[k] {
      assert q[j] != q[k];
      if q[j] < q[k] {} else {}
    }
  }

  /** The transposed shape puts index `Gather(i, p)` exactly where `i` was. */
  lemma TransposeKeepsOffsets(sh: Shape, p: seq<int>, index: seq<int>)
    requires sh.Valid() && IsPerm(p) && |p| == |sh.dims| == |index|
    ensures Offset(TransposedShape(sh, p), Gather(index, p)) == Offset(sh, index)
    ensures ElementsIn(TransposedShape(sh, p)) == ElementsIn(sh)
  {
    var t, inverse := TransposedShape(sh, p), InverseOf(p);
    assert Gather(Gather(index, p), t.minorToMajor) == Gather(index, sh.minorToMajor);
    assert Radices(t) == Radices(sh);
    ProductGather(sh.dims, p);
  }

  /** Transposing back with the inverse permutation restores the shape and, as the buffer never
      moves, the literal. */
  lemma TransposeInverse(sh: Shape, p: seq<int>)
    requires sh.Valid() && IsPerm(p) && |p| == |sh.dims|
    ensures IsPerm(InverseOf(p)) && TransposedShape(TransposedShape(sh, p), InverseOf(p)) == sh
  {
    var q, t := InverseOf(p), TransposedShape(sh, p);
    GatherBack(sh.dims, p);
    GatherBack(sh.dynamic, p);
    var u := TransposedShape(t, q);
    GatherEqInverse(q, p);
    assert u.minorToMajor == sh.minorToMajor;
  }

  lemma GatherBack<T>(s: seq<T>, p: seq<int>)
    requires IsPerm(p) && |p| == |s|
    ensures Gather(Gather(s, p), InverseOf(p)) == s
  {}

  /** Transposing by moving no data yields, at every logical index, the element that the
      cell-by-cell `Array::TransposeDimensions` puts there. */
  lemma TransposeAgreesWithArray<T>(data: seq<T>, sh: Shape, p: seq<int>, v: seq<T>, j: seq<int>)
    requires sh.Valid() && IsPerm(p) && |p| == |sh.dims|
    requires SameElements(v, RowMajorShape(sh.dims), data, sh)
    requires InRange(j, Gather(sh.dims, p))
    ensures ElementsIn(TransposedShape(sh, p)) == |data|
    ensures SameAt(TransposedValues(v, sh.dims, p), RowMajorShape(Gather(sh.dims, p)), data, TransposedShape(sh, p), j)
  {
    var i := Untransposed(j, p);
    UntransposedInRange(j, p, sh.dims);
    TransposeKeepsOffsets(sh, p, i);
    assert SameAt(v, RowMajorShape(sh.dims), data, sh, i);
    RowRankBound(j, Gather(sh.dims, p));
    OffsetBound(TransposedShape(sh, p), j);
  }

  /** `PermuteDimensions` and the affine layout built after it. */
  method PermuteShape(sh: Shape, p: seq<int>) returns (t: Shape, inverse: seq<int>)
    requires sh.Valid() && IsPerm(p) && |p| == |sh.dims|
    ensures t == TransposedShape(sh, p) && inverse == InverseOf(p)
  {
    inverse := InversePermutation(p);
    GatherEqInverse(p, inverse);
    var layout := ComposePermutations(inverse, sh.minorToMajor);
    t := Shape(Gather(sh.dims, p), layout, Gather(sh.dynamic, p));
  }

  /** Moves the dynamic size of every dynamic dimension along with the dimension. */
  method PermuteDynamicSizes(p: seq<int>, inverse: seq<int>, dynamic: seq<bool>, sizes: seq<int>, initial: seq<int>)
    returns (permuted: seq<int>)
    requires Inverses(p, inverse) && |p| == |dynamic| == |sizes| == |initial|
    ensures |permuted| == |p| && forall d :: 0 <= d < |p| && dynamic[p[d]] ==> permuted[d] == sizes[p[d]]
  {
    permuted := initial;
    for i := 0 to |p|
      invariant |permuted| == |p|
      invariant forall k :: 0 <= k < i && dynamic[k] ==> permuted[inverse[k]] == sizes[k]
    {
      if dynamic[i] {
        forall k | 0 <= k < i ensures inverse[k] != inverse[i] { assert p[inverse[k]] == k && p[inverse[i]] == i; }
        permuted := permuted[inverse[i] := sizes[i]];
      }
    }
    forall d | 0 <= d < |p| && dynamic[p[d]] ensures permuted[d] == sizes[p[d]] {
      assert inverse[p[d]] == d;
    }
  }

  method Transpose<T(0)>(literal: Literal<T>, p: seq<int>) returns (result: Literal<T>)
    requires literal.Valid() && IsPerm(p) && |p| == |literal.shape.dims|
    ensures result.Valid() && fresh(result) && fresh(result.data)
    ensures result.shape == TransposedShape(literal.shape, p) && result.data[..] == literal.data[..]
    ensures forall d :: 0 <= d < |p| ==>
              result.shape.dims[d] == literal.shape.dims[p[d]] && result.shape.dynamic[d] == literal.shape.dynamic[p[d]]
    ensures forall k :: 0 <= k < |p| ==> p[result.shape.minorToMajor[k]] == literal.shape.minorToMajor[k]
    ensures forall d :: 0 <= d < |p| && result.shape.dynamic[d] ==>
              result.dynamicSizes[d] == literal.dynamicSizes[p[d]]
    ensures forall i :: InRange(i, literal.shape.dims) ==>
              InRange(Gather(i, p), result.shape.dims) && result.At(Gather(i, p)) == literal.At(i)
  {
    var shape, inverse := PermuteShape(literal.shape, p);
    result := new Literal(shape);
    TransposeKeepsOffsets(literal.shape, p, seq(|p|, _ => 0));
    result.dynamicSizes :=
      PermuteDynamicSizes(p, inverse, literal.shape.dynamic, literal.dynamicSizes, result.dynamicSizes);
    CopyBuffer(result.data, literal.data);
    forall i | InRange(i, literal.shape.dims)
      ensures InRange(Gather(i, p), result.shape.dims) && result.At(Gather(i, p)) == literal.At(i)
    {
      GatherRange(i, literal.shape.dims, p);
      TransposeKeepsOffsets(literal.shape, p, i);
      OffsetBound(literal.shape, i);
      ghost var o := Offset(literal.shape, i);
      assert result.data[o] == result.data[..][o] == literal.data[..][o];
    }
  }

  lemma GatherEqInverse(p: seq<int>, q: seq<int>)
    requires IsPerm(p) && Inverses(p, q)
    ensures q == InverseOf(p)
  {
    var r := InverseOf(p);
    forall d | 0 <= d < |p| ensures q[d] == r[d] {
      assert p[q[d]] == d && r[p[q[d]]] == q[d];
    }
  }
}
