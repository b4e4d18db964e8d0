/** Conversion between static literals and literals with bounded dynamic dimensions
    (xla/literal.cc `ToBoundedDynamic`, `ToStatic`, `CopyElementsWithDynamicBound`). */
module BoundedDynamic {
  import opened MixedRadix
  import opened Layouts
  import opened IndexUtil
  import opened Literals
  import opened Arrays
  import opened Relayouts

  const INT32_LIMIT: int := 0x8000_0000

  /** Conversion to the 32-bit type of dynamic sizes. */
  function ToInt32(x: int): int { (x + INT32_LIMIT) % (2 * INT32_LIMIT) - INT32_LIMIT }

  lemma Int32Exact(x: nat)
    ensures ToInt32(x) == x <==> x < 0x8000_0000
    ensures -0x8000_0000 <= ToInt32(x) < 0x8000_0000 && (x - ToInt32(x)) % 0x1_0000_0000 == 0
  {}

  /** `Piece::GetDynamicSize`: the stored size of a dynamic dimension, the (truncated)
      extent of a static one. */
  function DynamicSize(sh: Shape, sizes: seq<int>, d: int): int
    requires 0 <= d < |sh.dims| == |sh.dynamic| == |sizes|
  {
    if sh.dynamic[d] then sizes[d] else ToInt32(sh.dims[d])
  }

  /** `index` is inside the dynamic extent of both sides in every dimension. */
  ghost predicate InBoth(index: seq<int>, a: Shape, aSizes: seq<int>, b: Shape, bSizes: seq<int>)
    requires |a.dims| == |a.dynamic| == |aSizes| == |b.dims| == |b.dynamic| == |bSizes|
  {
    && |index| == |a.dims|
    && forall d :: 0 <= d < |index| ==>
         0 <= index[d] && index[d] < DynamicSize(a, aSizes, d) && index[d] < DynamicSize(b, bSizes, d)
  }

  lemma SizeWithinExtent(sh: Shape, sizes: seq<int>, d: int)
    requires SizesFit(sh, sizes) && 0 <= d < |sizes|
    ensures DynamicSize(sh, sizes, d) <= sh.dims[d]
  {}

  lemma InBothInRange(index: seq<int>, a: Shape, aSizes: seq<int>, b: Shape, bSizes: seq<int>)
    requires SizesFit(a, aSizes) && SizesFit(b, bSizes) && |a.dims| == |b.dims| && InBoth(index, a, aSizes, b, bSizes)
    ensures InRange(index, a.dims) && InRange(index, b.dims)
  {
    forall d | 0 <= d < |index| ensures index[d] < a.dims[d] && index[d] < b.dims[d] {
      SizeWithinExtent(a, aSizes, d);
      SizeWithinExtent(b, bSizes, d);
    }
  }

  /** The inner bound test of the copy loop. */
  method WithinBounds(index: seq<int>, a: Shape, aSizes: seq<int>, b: Shape, bSizes: seq<int>) returns (within: bool)
    requires |index| == |a.dims| == |a.dynamic| == |aSizes| == |b.dims| == |b.dynamic| == |bSizes|
    requires forall d :: 0 <= d < |index| ==> index[d] >= 0
    ensures within <==> InBoth(index, a, aSizes, b, bSizes)
  {
    within := true;
    for i := 0 to |index|
      invariant within <==> forall d :: 0 <= d < i ==>
                  index[d] < DynamicSize(a, aSizes, d) && index[d] < DynamicSize(b, bSizes, d)
    {
      if index[i] >= DynamicSize(a, aSizes, i) || index[i] >= DynamicSize(b, bSizes, i) {
        within := false;
      }
    }
  }

  /** Cells of `a` outside the common extent still hold what `was` held. */
  ghost predicate OutsideKept<T>(was: seq<T>, a: seq<T>, sa: Shape, aSizes: seq<int>, sb: Shape, bSizes: seq<int>)
    requires SizesFit(sa, aSizes) && SizesFit(sb, bSizes) && |sa.dims| == |sb.dims|
  {
    forall i :: InRange(i, sa.dims) && !InBoth(i, sa, aSizes, sb, bSizes) ==> SameAt(a, sa, was, sa, i)
  }

  lemma OutsideKeptStart<T>(a: seq<T>, sa: Shape, aSizes: seq<int>, sb: Shape, bSizes: seq<int>)
    requires SizesFit(sa, aSizes) && SizesFit(sb, bSizes) && |sa.dims| == |sb.dims| && |a| == ElementsIn(sa)
    ensures OutsideKept(a, a, sa, aSizes, sb, bSizes)
  {
    forall i | InRange(i, sa.dims) ensures SameAt(a, sa, a, sa, i) { OffsetBound(sa, i); }
  }

  /** Everything inside both dynamic extents whose row-major rank in `bound` is below `t` is copied. */
  ghost predicate CopiedBelow<T>(a: seq<T>, sa: Shape, aSizes: seq<int>, b: seq<T>, sb: Shape, bSizes: seq<int>,
                                 bound: seq<nat>, t: int) {
    && SizesFit(sa, aSizes) && SizesFit(sb, bSizes) && |sa.dims| == |sb.dims| == |bound|
    && |a| == ElementsIn(sa) && |b| == ElementsIn(sb)
    && forall index :: InBoth(index, sa, aSizes, sb, bSizes) && RowRank(index, bound) < t ==> SameAt(a, sa, b, sb, index)
  }

  ghost predicate Copied<T>(a: seq<T>, sa: Shape, aSizes: seq<int>, b: seq<T>, sb: Shape, bSizes: seq<int>) {
    && SizesFit(sa, aSizes) && SizesFit(sb, bSizes) && |sa.dims| == |sb.dims|
    && forall index :: InBoth(index, sa, aSizes, sb, bSizes) ==> SameAt(a, sa, b, sb, index)
  }

  /** The scan goes through one of the two shapes: every copied index is in its range. */
  ghost predicate Bounds(bound: seq<nat>, sa: Shape, sb: Shape) {
    bound == Scanned(sa.dims) || bound == Scanned(sb.dims)
  }

  /** One more element copied, or none: what was equal before stays equal. */
  lemma StaysCopied<T>(a: seq<T>, sa: Shape, aSizes: seq<int>, b: seq<T>, sb: Shape, bSizes: seq<int>, index: seq<int>, i: seq<int>)
    requires SizesFit(sa, aSizes) && SizesFit(sb, bSizes) && |sa.dims| == |sb.dims| && |a| == ElementsIn(sa)
    requires InBoth(index, sa, aSizes, sb, bSizes) && InBoth(i, sa, aSizes, sb, bSizes)
    requires 0 <= Offset(sa, index) < |a| && 0 <= Offset(sb, index) < |b|
    requires i == index || SameAt(a, sa, b, sb, i)
    ensures SameAt(a[Offset(sa, index) := b[Offset(sb, index)]], sa, b, sb, i)
  {
    InBothInRange(i, sa, aSizes, sb, bSizes);
    InBothInRange(index, sa, aSizes, sb, bSizes);
    if i != index { OtherIndexKept(a, sa, b, sb, index, b[Offset(sb, index)], i); }
  }

  lemma RankBelow(i: seq<int>, sa: Shape, aSizes: seq<int>, sb: Shape, bSizes: seq<int>, bound: seq<nat>, t: int)
    requires SizesFit(sa, aSizes) && SizesFit(sb, bSizes) && |sa.dims| == |sb.dims| && Bounds(bound, sa, sb)
    requires InBoth(i, sa, aSizes, sb, bSizes) && 0 <= t < Product(bound)
    ensures 0 <= RowRank(i, bound) < Product(bound) && (RowRank(i, bound) == t <==> i == RowIndex(bound, t))
  {
    InBothInRange(i, sa, aSizes, sb, bSizes);
    RowRankBound(i, bound);
  }

  lemma CopiedStep<T>(a: seq<T>, sa: Shape, aSizes: seq<int>, b: seq<T>, sb: Shape, bSizes: seq<int>, bound: seq<nat>, t: int, x: seq<T>)
    requires CopiedBelow(a, sa, aSizes, b, sb, bSizes, bound, t) && 0 <= t < Product(bound) && Bounds(bound, sa, sb)
    requires
      var index := RowIndex(bound, t);
      if InBoth(index, sa, aSizes, sb, bSizes) then
        && 0 <= Offset(sa, index) < |a| && 0 <= Offset(sb, index) < |b|
        && x == a[Offset(sa, index) := b[Offset(sb, index)]]
      else x == a
    ensures CopiedBelow(x, sa, aSizes, b, sb, bSizes, bound, t + 1)
  {
    var index := RowIndex(bound, t);
    forall i | InBoth(i, sa, aSizes, sb, bSizes) && RowRank(i, bound) < t + 1
      ensures SameAt(x, sa, b, sb, i)
    {
      RankBelow(i, sa, aSizes, sb, bSizes, bound, t);
      if InBoth(index, sa, aSizes, sb, bSizes) { StaysCopied(a, sa, aSizes, b, sb, bSizes, index, i); }
    }
  }

  lemma OutsideKeptStep<T>(was: seq<T>, a: seq<T>, sa: Shape, aSizes: seq<int>, sb: Shape, bSizes: seq<int>, index: seq<int>, x: T)
    requires SizesFit(sa, aSizes) && SizesFit(sb, bSizes) && |sa.dims| == |sb.dims|
    requires |was| == |a| == ElementsIn(sa) && OutsideKept(was, a, sa, aSizes, sb, bSizes)
    requires InBoth(index, sa, aSizes, sb, bSizes) && InRange(index, sa.dims) && 0 <= Offset(sa, index) < |a|
    ensures OutsideKept(was, a[Offset(sa, index) := x], sa, aSizes, sb, bSizes)
  {
    forall i | InRange(i, sa.dims) && !InBoth(i, sa, aSizes, sb, bSizes)
      ensures SameAt(a[Offset(sa, index) := x], sa, was, sa, i)
    {
      OtherIndexKept(a, sa, was, sa, index, x, i);
    }
  }

  lemma CopiedAll<T>(a: seq<T>, sa: Shape, aSizes: seq<int>, b: seq<T>, sb: Shape, bSizes: seq<int>, bound: seq<nat>)
    requires CopiedBelow(a, sa, aSizes, b, sb, bSizes, bound, Product(bound)) && Bounds(bound, sa, sb)
    ensures Copied(a, sa, aSizes, b, sb, bSizes)
  {
    forall i | InBoth(i, sa, aSizes, sb, bSizes) ensures SameAt(a, sa, b, sb, i) {
      InBothInRange(i, sa, aSizes, sb, bSizes);
      RowRankBound(i, bound);
    }
  }

  lemma NothingCopied<T>(a: seq<T>, sa: Shape, aSizes: seq<int>, b: seq<T>, sb: Shape, bSizes: seq<int>, bound: seq<nat>)
    requires SizesFit(sa, aSizes) && SizesFit(sb, bSizes) && |sa.dims| == |sb.dims| == |bound| && Bounds(bound, sa, sb)
    requires |a| == ElementsIn(sa) && |b| == ElementsIn(sb)
    ensures CopiedBelow(a, sa, aSizes, b, sb, bSizes, bound, 0)
  {
    forall i | InBoth(i, sa, aSizes, sb, bSizes) ensures RowRank(i, bound) >= 0 {
      InBothInRange(i, sa, aSizes, sb, bSizes);
      RowRankBound(i, bound);
    }
  }

  /** The general path: walks the bounding shape and copies what lies inside both extents. */
  method CopyByBound<T(0)>(dest: Literal<T>, src: Literal<T>, dims: seq<nat>)
    requires dest.Valid() && src.Valid() && dest.data != src.data && |dest.shape.dims| == |src.shape.dims|
    requires SizesFit(dest.shape, dest.dynamicSizes) && SizesFit(src.shape, src.dynamicSizes)
    requires dims == dest.shape.dims || dims == src.shape.dims
    modifies dest.data
    ensures Copied(dest.data[..], dest.shape, dest.dynamicSizes, src.data[..], src.shape, src.dynamicSizes)
    ensures OutsideKept(old(dest.data[..]), dest.data[..], dest.shape, dest.dynamicSizes, src.shape, src.dynamicSizes)
  {
    var index := Origin(dims);
    ghost var bound := Scanned(dims);
    ghost var was, from := dest.data[..], src.data[..];
    OutsideKeptStart(was, dest.shape, dest.dynamicSizes, src.shape, src.dynamicSizes);
    ghost var t := 0;
    NothingCopied(dest.data[..], dest.shape, dest.dynamicSizes, from, src.shape, src.dynamicSizes, bound);
    var more := true;
    while more
      invariant fresh(index) && src.data[..] == from && 0 <= t <= Product(bound)
      invariant more ==> t < Product(bound) && index[..] == RowIndex(bound, t)
      invariant !more ==> t == Product(bound)
      invariant CopiedBelow(dest.data[..], dest.shape, dest.dynamicSizes, from, src.shape, src.dynamicSizes, bound, t)
      invariant OutsideKept(was, dest.data[..], dest.shape, dest.dynamicSizes, src.shape, src.dynamicSizes)
      decreases Product(bound) - t, more
    {
      more := CopyAndBump(dest, src, index, dims, t, was);
      t := t + 1;
    }
    CopiedAll(dest.data[..], dest.shape, dest.dynamicSizes, from, src.shape, src.dynamicSizes, bound);
  }

  method CopyAndBump<T(0)>(dest: Literal<T>, src: Literal<T>, index: array<int>, dims: seq<nat>, ghost t: int, ghost before: seq<T>)
    returns (more: bool)
    requires dest.Valid() && src.Valid() && dest.data != src.data && |dest.shape.dims| == |src.shape.dims|
    requires (index as object) != dest.data && (index as object) != src.data
    requires Bounds(Scanned(dims), dest.shape, src.shape) && 0 <= t < Product(Scanned(dims)) && index[..] == RowIndex(Scanned(dims), t)
    requires CopiedBelow(dest.data[..], dest.shape, dest.dynamicSizes, src.data[..], src.shape, src.dynamicSizes, Scanned(dims), t)
    requires |before| == dest.data.Length
    requires OutsideKept(before, dest.data[..], dest.shape, dest.dynamicSizes, src.shape, src.dynamicSizes)
    modifies dest.data, index
    ensures src.data[..] == old(src.data[..])
    ensures OutsideKept(before, dest.data[..], dest.shape, dest.dynamicSizes, src.shape, src.dynamicSizes)
    ensures CopiedBelow(dest.data[..], dest.shape, dest.dynamicSizes, src.data[..], src.shape, src.dynamicSizes, Scanned(dims), t + 1)
    ensures more <==> t + 1 < Product(Scanned(dims))
    ensures more ==> index[..] == RowIndex(Scanned(dims), t + 1)
  {
    CopyOne(dest, src, index[..], Scanned(dims), t, before);
    more := BumpScan(dims, index, t);
  }

  method CopyOne<T(0)>(dest: Literal<T>, src: Literal<T>, index: seq<int>, ghost bound: seq<nat>, ghost t: int, ghost before: seq<T>)
    requires dest.Valid() && src.Valid() && dest.data != src.data && |dest.shape.dims| == |src.shape.dims|
    requires Bounds(bound, dest.shape, src.shape) && 0 <= t < Product(bound) && index == RowIndex(bound, t)
    requires CopiedBelow(dest.data[..], dest.shape, dest.dynamicSizes, src.data[..], src.shape, src.dynamicSizes, bound, t)
    requires |before| == dest.data.Length
    requires OutsideKept(before, dest.data[..], dest.shape, dest.dynamicSizes, src.shape, src.dynamicSizes)
    modifies dest.data
    ensures src.data[..] == old(src.data[..])
    ensures OutsideKept(before, dest.data[..], dest.shape, dest.dynamicSizes, src.shape, src.dynamicSizes)
    ensures CopiedBelow(dest.data[..], dest.shape, dest.dynamicSizes, src.data[..], src.shape, src.dynamicSizes, bound, t + 1)
  {
    ghost var was := dest.data[..];
    var within := WithinBounds(index, dest.shape, dest.dynamicSizes, src.shape, src.dynamicSizes);
    if within {
      InBothInRange(index, dest.shape, dest.dynamicSizes, src.shape, src.dynamicSizes);
      var d := MultidimensionalIndexToLinearIndex(dest.shape, index);
      var s := MultidimensionalIndexToLinearIndex(src.shape, index);
      OutsideKeptStep(before, was, dest.shape, dest.dynamicSizes, src.shape, src.dynamicSizes, index, src.data[s]);
      dest.data[d] := src.data[s];
    }
    CopiedStep(was, dest.shape, dest.dynamicSizes, src.data[..], src.shape, src.dynamicSizes, bound, t, dest.data[..]);
  }

  /** The rank-1 fast path: one contiguous copy. */
  method CopyVector<T(0)>(dest: Literal<T>, src: Literal<T>)
    requires dest.Valid() && src.Valid() && dest.data != src.data && |dest.shape.dims| == |src.shape.dims| == 1
    requires SizesFit(dest.shape, dest.dynamicSizes) && SizesFit(src.shape, src.dynamicSizes)
    modifies dest.data
    ensures Copied(dest.data[..], dest.shape, dest.dynamicSizes, src.data[..], src.shape, src.dynamicSizes)
    ensures OutsideKept(old(dest.data[..]), dest.data[..], dest.shape, dest.dynamicSizes, src.shape, src.dynamicSizes)
  {
    var a := DynamicSize(dest.shape, dest.dynamicSizes, 0);
    var b := DynamicSize(src.shape, src.dynamicSizes, 0);
    var count := if a < b then a else b;
    VectorOffset(dest.shape, [0]);
    VectorOffset(src.shape, [0]);
    SizeWithinExtent(dest.shape, dest.dynamicSizes, 0);
    SizeWithinExtent(src.shape, src.dynamicSizes, 0);
    var i := 0;
    while i < count
      invariant 0 <= i && (i == 0 || i <= count)
      invariant forall k :: 0 <= k < dest.data.Length ==>
                  dest.data[k] == if k < i then src.data[k] else old(dest.data[k])
    {
      dest.data[i] := src.data[i];
      i := i + 1;
    }
    forall index | InBoth(index, dest.shape, dest.dynamicSizes, src.shape, src.dynamicSizes)
      ensures SameAt(dest.data[..], dest.shape, src.data[..], src.shape, index)
    {
      VectorOffset(dest.shape, index);
      VectorOffset(src.shape, index);
    }
    forall i | InRange(i, dest.shape.dims) && !InBoth(i, dest.shape, dest.dynamicSizes, src.shape, src.dynamicSizes)
      ensures SameAt(dest.data[..], dest.shape, old(dest.data[..]), dest.shape, i)
    {
      VectorOffset(dest.shape, i);
    }
  }

  /** One side must be static; the other one bounds the iteration. */
  method CopyElementsWithDynamicBound<T(0)>(dest: Literal<T>, src: Literal<T>)
    requires dest.Valid() && src.Valid() && dest.data != src.data && |dest.shape.dims| == |src.shape.dims|
    requires dest.shape.IsStatic() || src.shape.IsStatic()
    requires SizesFit(dest.shape, dest.dynamicSizes) && SizesFit(src.shape, src.dynamicSizes)
    modifies dest.data
    ensures Copied(dest.data[..], dest.shape, dest.dynamicSizes, src.data[..], src.shape, src.dynamicSizes)
    ensures OutsideKept(old(dest.data[..]), dest.data[..], dest.shape, dest.dynamicSizes, src.shape, src.dynamicSizes)
  {
    var bound := if dest.shape.IsStatic() then src.shape.dims else dest.shape.dims;
    ZeroElements(dest.shape);
    ZeroElements(src.shape);
    if dest.shape.IsZeroElementArray() {
      NothingInside(dest.shape, dest.dynamicSizes, src.shape, src.dynamicSizes);
      OutsideKeptStart(dest.data[..], dest.shape, dest.dynamicSizes, src.shape, src.dynamicSizes);
      return;
    }
    if |dest.shape.dims| == 1 {
      CopyVector(dest, src);
    } else {
      CopyByBound(dest, src, bound);
    }
  }

  lemma NothingInside(a: Shape, aSizes: seq<int>, b: Shape, bSizes: seq<int>)
    requires SizesFit(a, aSizes) && SizesFit(b, bSizes) && |a.dims| == |b.dims| && a.IsZeroElementArray()
    ensures forall index :: !InBoth(index, a, aSizes, b, bSizes)
  {
    forall index | InBoth(index, a, aSizes, b, bSizes) ensures false {
      InBothInRange(index, a, aSizes, b, bSizes);
    }
  }

  // ---- the conversions ----

  /** The array's extents as the dynamic literal sees them. */
  ghost predicate FitsBounded(dims: seq<nat>, bounded: Shape) {
    && bounded.Valid() && |dims| == |bounded.dims|
    && forall d :: 0 <= d < |dims| ==> if bounded.dynamic[d] then dims[d] <= bounded.dims[d] else dims[d] == bounded.dims[d]
  }

  ghost predicate AllInt32(dims: seq<nat>) {
    forall d :: 0 <= d < |dims| ==> dims[d] < INT32_LIMIT
  }

  /** `literal` has the dynamic extent `dims`. */
  ghost predicate HasExtent(sh: Shape, sizes: seq<int>, dims: seq<nat>) {
    && FitsBounded(dims, sh) && |sizes| == |dims|
    && forall d :: 0 <= d < |dims| && sh.dynamic[d] ==> sizes[d] == dims[d]
  }

  lemma ExtentIsSize(sh: Shape, sizes: seq<int>, dims: seq<nat>)
    requires HasExtent(sh, sizes, dims) && AllInt32(dims)
    ensures SizesFit(sh, sizes) && forall d :: 0 <= d < |dims| ==> DynamicSize(sh, sizes, d) == dims[d]
  {
    forall d | 0 <= d < |dims| ensures DynamicSize(sh, sizes, d) == dims[d] { Int32Exact(dims[d]); }
  }

  lemma SameExtents(a: Shape, aSizes: seq<int>, b: Shape, bSizes: seq<int>, dims: seq<nat>, index: seq<int>)
    requires HasExtent(a, aSizes, dims) && HasExtent(b, bSizes, dims) && AllInt32(dims)
    ensures InBoth(index, a, aSizes, b, bSizes) <==> InRange(index, dims)
  {
    ExtentIsSize(a, aSizes, dims);
    ExtentIsSize(b, bSizes, dims);
  }

  /** The sizes that `ToBoundedDynamic` stores: the extents cut down to 32 bits. */
  ghost predicate HasTruncatedSizes(bounded: Shape, sizes: seq<int>, dims: seq<nat>) {
    && FitsBounded(dims, bounded) && |sizes| == |dims|
    && forall d :: 0 <= d < |dims| && bounded.dynamic[d] ==> sizes[d] == ToInt32(dims[d])
  }

  lemma TruncatedSizes(bounded: Shape, sizes: seq<int>, dims: seq<nat>)
    requires HasTruncatedSizes(bounded, sizes, dims)
    ensures SizesFit(bounded, sizes)
    ensures forall d :: 0 <= d < |dims| ==> DynamicSize(bounded, sizes, d) == ToInt32(dims[d])
    ensures AllInt32(dims) ==> HasExtent(bounded, sizes, dims)
  {
    forall d | 0 <= d < |dims| ensures AllInt32(dims) ==> ToInt32(dims[d]) == dims[d] { Int32Exact(dims[d]); }
  }

  /** What the copy between a static array and its bounded dynamic form reaches. */
  lemma ReachedExtent(bounded: Shape, sizes: seq<int>, sh: Shape, shSizes: seq<int>, index: seq<int>)
    requires HasTruncatedSizes(bounded, sizes, sh.dims) && sh.Valid() && sh.IsStatic() && |shSizes| == |sh.dims| == |index|
    ensures InBoth(index, bounded, sizes, sh, shSizes) <==> forall d :: 0 <= d < |index| ==> 0 <= index[d] < ToInt32(sh.dims[d])
  {
    TruncatedSizes(bounded, sizes, sh.dims);
  }

  /** The 32-bit sizes are the exact limit: between a static array and its bounded dynamic form
      every element is copied if and only if the array is empty or all extents are below 2^31. */
  lemma {:induction false} Int32Needed(bounded: Shape, sizes: seq<int>, sh: Shape, shSizes: seq<int>)
    requires HasTruncatedSizes(bounded, sizes, sh.dims) && sh.Valid() && sh.IsStatic() && |shSizes| == |sh.dims|
    ensures (forall index :: InRange(index, sh.dims) ==> InBoth(index, bounded, sizes, sh, shSizes))
       <==> AllInt32(sh.dims) || sh.IsZeroElementArray()
  {
    TruncatedSizes(bounded, sizes, sh.dims);
    if sh.IsZeroElementArray() {
    } else if d :| 0 <= d < |sh.dims| && sh.dims[d] >= INT32_LIMIT {
      var last := seq(|sh.dims|, k requires 0 <= k < |sh.dims| => sh.dims[k] - 1);
      assert InRange(last, sh.dims) && last[d] >= DynamicSize(bounded, sizes, d);
    } else {
      forall index | InRange(index, sh.dims) ensures InBoth(index, bounded, sizes, sh, shSizes) {
        ReachedExtent(bounded, sizes, sh, shSizes, index);
        forall d | 0 <= d < |index| ensures ToInt32(sh.dims[d]) == sh.dims[d] { Int32Exact(sh.dims[d]); }
      }
    }
  }

  /** A vector of 2^31 elements gets the dynamic size -2^31, and nothing at all is copied. */
  lemma HugeVectorLost(index: seq<int>)
    ensures
      var bounded, sh := Shape([0x8000_0000], [0], [true]), Shape([0x8000_0000], [0], [false]);
      && HasTruncatedSizes(bounded, [-0x8000_0000], sh.dims) && sh.Valid() && InRange([0], sh.dims)
      && !InBoth(index, bounded, [-0x8000_0000], sh, [0])
  {
    var bounded := Shape([0x8000_0000], [0], [true]);
    assert DynamicSize(bounded, [-0x8000_0000], 0) == -0x8000_0000;
    assert |index| == 1 ==> index[0] < 0 || index[0] >= DynamicSize(bounded, [-0x8000_0000], 0);
  }

  /** One element past 2^32 leaves a single copied element. */
  lemma WrappedVectorLost(index: seq<int>)
    ensures
      var bounded, sh := Shape([0x1_0000_0001], [0], [true]), Shape([0x1_0000_0001], [0], [false]);
      && HasTruncatedSizes(bounded, [1], sh.dims) && sh.Valid() && InRange([1], sh.dims)
      && (InBoth(index, bounded, [1], sh, [0]) <==> index == [0])
  {}

  /** Copies a static array into a literal with the given bounds; its extents, cut down to
      32 bits, become the dynamic sizes and limit the copy. `initial` is the new buffer before
      the copy. */
  method ToBoundedDynamic<T(0)>(literal: Literal<T>, bounded: Shape) returns (result: Literal<T>, ghost initial: seq<T>)
    requires literal.Valid() && literal.shape.IsStatic() && !bounded.IsStatic()
    requires FitsBounded(literal.shape.dims, bounded)
    ensures result.Valid() && fresh(result) && fresh(result.data) && result.shape == bounded
    ensures HasTruncatedSizes(bounded, result.dynamicSizes, literal.shape.dims)
    ensures SizesFit(literal.shape, literal.dynamicSizes) && SizesFit(bounded, result.dynamicSizes)
    ensures Copied(result.data[..], bounded, result.dynamicSizes, literal.data[..], literal.shape, literal.dynamicSizes)
    ensures OutsideKept(initial, result.data[..], bounded, result.dynamicSizes, literal.shape, literal.dynamicSizes)
    ensures AllInt32(literal.shape.dims) ==>
              && HasExtent(bounded, result.dynamicSizes, literal.shape.dims)
              && forall index :: InRange(index, literal.shape.dims) ==>
                   SameAt(result.data[..], bounded, literal.data[..], literal.shape, index)
  {
    var dims := literal.shape.dims;
    result := new Literal(bounded);
    for i := 0 to |dims|
      invariant result.Valid() && result.shape == bounded && fresh(result) && fresh(result.data)
      invariant forall d :: 0 <= d < i && bounded.dynamic[d] ==> result.dynamicSizes[d] == ToInt32(dims[d])
    {
      if bounded.dynamic[i] {
        result.dynamicSizes := result.dynamicSizes[i := ToInt32(dims[i])];
      }
    }
    TruncatedSizes(bounded, result.dynamicSizes, dims);
    initial := result.data[..];
    CopyElementsWithDynamicBound(result, literal);
    if AllInt32(dims) {
      AllReached(bounded, result.dynamicSizes, result.data[..], literal.shape, literal.dynamicSizes, literal.data[..], dims);
    }
  }

  lemma AllReached<T>(a: Shape, aSizes: seq<int>, x: seq<T>, b: Shape, bSizes: seq<int>, y: seq<T>, dims: seq<nat>)
    requires HasExtent(a, aSizes, dims) && HasExtent(b, bSizes, dims) && AllInt32(dims) && Copied(x, a, aSizes, y, b, bSizes)
    ensures forall index :: InRange(index, dims) ==> SameAt(x, a, y, b, index)
  {
    forall index | InRange(index, dims) ensures SameAt(x, a, y, b, index) { SameExtents(a, aSizes, b, bSizes, dims, index); }
  }

  /** A static literal of exactly the dynamic extent and the same layout. A literal that is
      static already is copied as raw memory; otherwise the 32-bit sizes limit the copy. */
  method ToStatic<T(0)>(literal: Literal<T>, ghost dims: seq<nat>) returns (result: Literal<T>)
    requires literal.Valid() && HasExtent(literal.shape, literal.dynamicSizes, dims)
    ensures result.Valid() && fresh(result) && fresh(result.data)
    ensures result.shape.IsStatic() && result.shape.dims == dims
    ensures result.shape.minorToMajor == literal.shape.minorToMajor
    ensures SizesFit(result.shape, result.dynamicSizes) && SizesFit(literal.shape, literal.dynamicSizes)
    ensures Copied(result.data[..], result.shape, result.dynamicSizes, literal.data[..], literal.shape, literal.dynamicSizes)
    ensures literal.shape.IsStatic() || AllInt32(dims) ==> forall index :: InRange(index, dims) ==>
              SameAt(result.data[..], result.shape, literal.data[..], literal.shape, index)
  {
    var sh := literal.shape;
    for i := 0 to |sh.dims|
      invariant sh.Valid() && sh.minorToMajor == literal.shape.minorToMajor && |sh.dims| == |literal.shape.dims|
      invariant forall d :: 0 <= d < |sh.dims| ==>
        && sh.dynamic[d] == (d >= i && literal.shape.dynamic[d])
        && sh.dims[d] == (if d < i then dims[d] else literal.shape.dims[d])
    {
      if sh.dynamic[i] {
        sh := sh.(dynamic := sh.dynamic[i := false], dims := sh.dims[i := literal.dynamicSizes[i]]);
      }
    }
    assert sh.dims == dims;
    result := new Literal(sh);
    if literal.shape.IsStatic() { assert sh.dims == literal.shape.dims && sh.dynamic == literal.shape.dynamic; }
    if result.shape == literal.shape {
      CopyBuffer(result.data, literal.data);
      SameBuffer(literal.data[..], literal.shape);
      SameIsCopied(result.data[..], literal.shape, result.dynamicSizes, literal.dynamicSizes);
    } else {
      CopyElementsWithDynamicBound(result, literal);
      if AllInt32(dims) {
        AllReached(result.shape, result.dynamicSizes, result.data[..], literal.shape, literal.dynamicSizes, literal.data[..], dims);
      }
    }
  }

  lemma SameIsCopied<T>(a: seq<T>, sh: Shape, aSizes: seq<int>, bSizes: seq<int>)
    requires SizesFit(sh, aSizes) && SizesFit(sh, bSizes) && |a| == ElementsIn(sh)
    ensures Copied(a, sh, aSizes, a, sh, bSizes)
  {
    forall index | InBoth(index, sh, aSizes, sh, bSizes) ensures SameAt(a, sh, a, sh, index) {
      InBothInRange(index, sh, aSizes, sh, bSizes);
      OffsetBound(sh, index);
    }
  }

  /** The sizes of the dynamic dimensions survive the 32-bit type, and so do all extents unless
      the array is empty. */
  predicate TripKeeps(sh: Shape, bounded: Shape)
    requires |sh.dims| == |bounded.dynamic|
  {
    && (forall d :: 0 <= d < |sh.dims| && bounded.dynamic[d] ==> sh.dims[d] < INT32_LIMIT)
    && (sh.IsZeroElementArray() || forall d :: 0 <= d < |sh.dims| ==> sh.dims[d] < INT32_LIMIT)
  }

  /** This is exactly when the stored sizes are the extents and every element is copied. */
  lemma {:induction false} RoundTripExactly(bounded: Shape, sizes: seq<int>, sh: Shape, shSizes: seq<int>)
    requires HasTruncatedSizes(bounded, sizes, sh.dims) && sh.Valid() && sh.IsStatic() && |shSizes| == |sh.dims|
    ensures TripKeeps(sh, bounded) <==>
              && HasExtent(bounded, sizes, sh.dims)
              && forall index :: InRange(index, sh.dims) ==> InBoth(index, bounded, sizes, sh, shSizes)
  {
    Int32Needed(bounded, sizes, sh, shSizes);
    forall d | 0 <= d < |sh.dims| ensures ToInt32(sh.dims[d]) == sh.dims[d] <==> sh.dims[d] < INT32_LIMIT { Int32Exact(sh.dims[d]); }
  }

  /** Going through a bounded dynamic literal of any layout and back loses nothing. */
  method RoundTrip<T(0)>(literal: Literal<T>, bounded: Shape) returns (result: Literal<T>)
    requires literal.Valid() && literal.shape.IsStatic() && !bounded.IsStatic()
    requires FitsBounded(literal.shape.dims, bounded) && TripKeeps(literal.shape, bounded)
    ensures result.Valid() && result.shape.IsStatic() && result.shape.dims == literal.shape.dims
    ensures forall index :: InRange(index, literal.shape.dims) ==> result.At(index) == literal.At(index)
  {
    ghost var initial;
    var dynamic;
    dynamic, initial := ToBoundedDynamic(literal, bounded);
    RoundTripExactly(bounded, dynamic.dynamicSizes, literal.shape, literal.dynamicSizes);
    result := ToStatic(dynamic, literal.shape.dims);
    forall index | InRange(index, literal.shape.dims) ensures result.At(index) == literal.At(index) {
      assert AllInt32(literal.shape.dims);
      assert SameAt(dynamic.data[..], dynamic.shape, literal.data[..], literal.shape, index);
      assert SameAt(result.data[..], result.shape, dynamic.data[..], dynamic.shape, index);
    }
  }
}
