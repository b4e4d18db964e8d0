/** N-dimensional arrays stored in row-major order (xla/array.h). */
module Arrays {
  import opened MixedRadix
  import opened Permutations
  import opened Layouts
  import opened IndexUtil
  import opened CopySlice

  // ---- specification ----

  /** The index at row-major position `p`. */
  ghost function RowIndex(dims: seq<nat>, p: int): (index: seq<int>)
    requires 0 <= p < Product(dims)
    ensures InRange(index, dims) && RowRank(index, dims) == p
  {
    OffsetOfIndexAt(RowMajorShape(dims), p);
    IndexAt(RowMajorShape(dims), p)
  }

  lemma RowRankBound(index: seq<int>, dims: seq<nat>)
    requires InRange(index, dims)
    ensures 0 <= RowRank(index, dims) < Product(dims)
    ensures RowIndex(dims, RowRank(index, dims)) == index
  {
    OffsetBound(RowMajorShape(dims), index);
    IndexAtOfOffset(RowMajorShape(dims), index);
  }

  /** Cells of the window at `starts`, listed in the window's own row-major order. */
  ghost function SliceOf<T>(v: seq<T>, dims: seq<nat>, starts: seq<int>, size: seq<nat>): (s: seq<T>)
    requires |v| == Product(dims) && Fits(starts, size, dims)
    ensures |s| == Product(size)
  {
    seq(Product(size), q requires 0 <= q < Product(size) =>
      var index := Plus(RowIndex(size, q), starts);
      RowRankBound(index, dims);
      v[RowRank(index, dims)])
  }

  /** `v` with the window at `starts` replaced by `from`. */
  ghost function Updated<T>(v: seq<T>, dims: seq<nat>, from: seq<T>, starts: seq<int>, size: seq<nat>): (s: seq<T>)
    requires |v| == Product(dims) && |from| == Product(size) && Fits(starts, size, dims)
    ensures |s| == |v|
  {
    seq(|v|, p requires 0 <= p < |v| =>
      var rel := Minus(RowIndex(dims, p), starts);
      if InRange(rel, size) then RowRankBound(rel, size); from[RowRank(rel, size)] else v[p])
  }

  // ---- windows that reach outside the array ----

  function Clamp(x: int, n: nat): nat {
    if x < 0 then 0 else if n < x then n else x
  }

  /** Where the part of a window that lies in the array starts, and its size. */
  function ClipStart(starts: seq<int>, dims: seq<nat>): (s: seq<int>)
    requires |starts| == |dims|
    ensures |s| == |dims|
  {
    seq(|dims|, d requires 0 <= d < |dims| => Clamp(starts[d], dims[d]))
  }

  function ClipSize(starts: seq<int>, size: seq<nat>, dims: seq<nat>): (s: seq<nat>)
    requires |starts| == |size| == |dims|
    ensures |s| == |dims| && forall d :: 0 <= d < |dims| ==> s[d] <= size[d]
  {
    seq(|dims|, d requires 0 <= d < |dims| => Clamp(starts[d] + size[d], dims[d]) - Clamp(starts[d], dims[d]))
  }

  /** The cells of the window in the array form the window of size `inside` at `base`. */
  ghost predicate Clipped(dims: seq<nat>, starts: seq<int>, size: seq<nat>, base: seq<int>, inside: seq<nat>) {
    && |starts| == |size| == |dims| && Fits(base, inside, dims)
    && forall index :: InRange(index, dims) ==> (InWindow(index, starts, size) <==> InWindow(index, base, inside))
  }

  lemma ClippedWindow(dims: seq<nat>, starts: seq<int>, size: seq<nat>)
    requires |starts| == |size| == |dims|
    ensures Clipped(dims, starts, size, ClipStart(starts, dims), ClipSize(starts, size, dims))
    ensures Fits(starts, size, dims) ==> ClipStart(starts, dims) == starts && ClipSize(starts, size, dims) == size
  {}

  lemma WindowTest(index: seq<int>, starts: seq<int>, size: seq<nat>, limits: seq<int>)
    requires |index| == |starts| == |size| && limits == Plus(size, starts)
    ensures InWindow(index, starts, size) <==> forall d :: 0 <= d < |index| ==> starts[d] <= index[d] < limits[d]
  {}

  lemma {:induction false} ProductLe(a: seq<nat>, b: seq<nat>)
    requires |a| == |b| && forall k :: 0 <= k < |a| ==> a[k] <= b[k]
    ensures Product(a) <= Product(b)
  {
    if a != [] {
      forall k | 0 <= k < |a| - 1 ensures a[1..][k] <= b[1..][k] { assert a[k + 1] <= b[k + 1]; }
      ProductLe(a[1..], b[1..]);
      MulLe(a[0], Product(a[1..]), Product(b[1..]));
      MulLe(Product(b[1..]), a[0], b[0]);
    }
  }

  /** The cells that `Slice` finds, closed up. */
  ghost function Packed<T>(v: seq<T>, dims: seq<nat>, starts: seq<int>, size: seq<nat>): (s: seq<T>)
    requires |v| == Product(dims) && |starts| == |size| == |dims|
    ensures |s| <= Product(size) && (Fits(starts, size, dims) ==> s == SliceOf(v, dims, starts, size))
  {
    ClippedWindow(dims, starts, size);
    ProductLe(ClipSize(starts, size, dims), size);
    SliceOf(v, dims, ClipStart(starts, dims), ClipSize(starts, size, dims))
  }

  /** The array with its part of the window overwritten by the first elements of `from`. */
  ghost function Overlaid<T>(v: seq<T>, dims: seq<nat>, from: seq<T>, starts: seq<int>, size: seq<nat>): (s: seq<T>)
    requires |v| == Product(dims) && |from| == Product(size) && |starts| == |size| == |dims|
    ensures |s| == |v| && (Fits(starts, size, dims) ==> s == Updated(v, dims, from, starts, size))
  {
    var inside := ClipSize(starts, size, dims);
    ClippedWindow(dims, starts, size);
    ProductLe(inside, size);
    assert from[..|from|] == from;
    Updated(v, dims, from[..Product(inside)], ClipStart(starts, dims), inside)
  }

  /** Cell `p` after an array has been written over itself: a window cell holds what the cell
      holds whose rank in the array is its rank in the window. */
  ghost predicate SelfCell<T>(was: seq<T>, now: seq<T>, dims: seq<nat>, base: seq<int>, inside: seq<nat>, p: int)
    requires |was| == |now| == Product(dims) && Fits(base, inside, dims) && 0 <= p < |was|
  {
    var index := RowIndex(dims, p);
    var c := RowRank(Minus(index, base), inside);
    if InWindow(index, base, inside) && c != p then 0 <= c < p && now[p] == now[c] else now[p] == was[p]
  }

  ghost predicate SelfCells<T>(was: seq<T>, now: seq<T>, dims: seq<nat>, base: seq<int>, inside: seq<nat>, n: int) {
    && |was| == |now| == Product(dims) && Fits(base, inside, dims) && n <= |was|
    && forall p :: 0 <= p < n ==> SelfCell(was, now, dims, base, inside, p)
  }

  /** An array after it has been written over itself from `starts` on. */
  ghost predicate SelfOverlaid<T>(was: seq<T>, now: seq<T>, dims: seq<nat>, starts: seq<int>) {
    |starts| == |dims| && SelfCells(was, now, dims, ClipStart(starts, dims), ClipSize(starts, dims, dims), |was|)
  }

  /** This determines the result. */
  lemma {:induction false} SelfCellsUnique<T>(was: seq<T>, a: seq<T>, b: seq<T>, dims: seq<nat>, base: seq<int>, inside: seq<nat>, n: nat)
    requires SelfCells(was, a, dims, base, inside, n) && SelfCells(was, b, dims, base, inside, n)
    ensures a[..n] == b[..n]
  {
    if n > 0 {
      var p := n - 1;
      SelfCellsUnique(was, a, b, dims, base, inside, p);
      assert SelfCell(was, a, dims, base, inside, p) && SelfCell(was, b, dims, base, inside, p);
      var c := RowRank(Minus(RowIndex(dims, p), base), inside);
      if 0 <= c < p { assert a[c] == a[..p][c] == b[..p][c] == b[c]; }
      assert a[..n] == a[..p] + [a[p]] && b[..n] == b[..p] + [b[p]];
    }
  }

  lemma {:induction false} SelfOverlaidUnique<T>(was: seq<T>, a: seq<T>, b: seq<T>, dims: seq<nat>, starts: seq<int>)
    requires SelfOverlaid(was, a, dims, starts) && SelfOverlaid(was, b, dims, starts)
    ensures a == b
  {
    SelfCellsUnique(was, a, b, dims, ClipStart(starts, dims), ClipSize(starts, dims, dims), |was|);
    assert a[..|was|] == a && b[..|was|] == b;
  }

  /** Slicing reads `a(starts + idx)` at every window index. */
  lemma SliceReads<T>(v: seq<T>, dims: seq<nat>, starts: seq<int>, size: seq<nat>, idx: seq<int>)
    requires |v| == Product(dims) && Fits(starts, size, dims) && InRange(idx, size)
    ensures 0 <= RowRank(idx, size) < Product(size) && 0 <= RowRank(Plus(idx, starts), dims) < |v|
    ensures SliceOf(v, dims, starts, size)[RowRank(idx, size)] == v[RowRank(Plus(idx, starts), dims)]
  {
    RowRankBound(idx, size);
    RowRankBound(Plus(idx, starts), dims);
  }

  /** An updated window reads back the new contents; every other cell keeps its value. */
  lemma UpdateReads<T>(v: seq<T>, dims: seq<nat>, from: seq<T>, starts: seq<int>, size: seq<nat>, index: seq<int>)
    requires |v| == Product(dims) && |from| == Product(size) && Fits(starts, size, dims) && InRange(index, dims)
    ensures 0 <= RowRank(index, dims) < |v|
    ensures InWindow(index, starts, size) ==> 0 <= RowRank(Minus(index, starts), size) < |from|
    ensures Updated(v, dims, from, starts, size)[RowRank(index, dims)] ==
              if InWindow(index, starts, size) then from[RowRank(Minus(index, starts), size)] else v[RowRank(index, dims)]
  {
    RowRankBound(index, dims);
    if InWindow(index, starts, size) { RowRankBound(Minus(index, starts), size); }
  }

  lemma SliceOfUpdate<T>(v: seq<T>, dims: seq<nat>, from: seq<T>, starts: seq<int>, size: seq<nat>)
    requires |v| == Product(dims) && |from| == Product(size) && Fits(starts, size, dims)
    ensures SliceOf(Updated(v, dims, from, starts, size), dims, starts, size) == from
  {
    var u := Updated(v, dims, from, starts, size);
    forall q | 0 <= q < |from| ensures SliceOf(u, dims, starts, size)[q] == from[q] {
      var idx := RowIndex(size, q);
      SliceReads(u, dims, starts, size, idx);
      UpdateReads(v, dims, from, starts, size, Plus(idx, starts));
      PlusMinus(idx, starts);
    }
  }

  lemma UpdateWithOwnSlice<T>(v: seq<T>, dims: seq<nat>, starts: seq<int>, size: seq<nat>)
    requires |v| == Product(dims) && Fits(starts, size, dims)
    ensures Updated(v, dims, SliceOf(v, dims, starts, size), starts, size) == v
  {
    var s := SliceOf(v, dims, starts, size);
    forall p | 0 <= p < |v| ensures Updated(v, dims, s, starts, size)[p] == v[p] {
      var index := RowIndex(dims, p);
      UpdateReads(v, dims, s, starts, size, index);
      if InWindow(index, starts, size) {
        SliceReads(v, dims, starts, size, Minus(index, starts));
        PlusMinus(index, starts);
      }
    }
  }

  lemma MinusOrigin(index: seq<int>, starts: seq<int>)
    requires |index| == |starts| && forall d :: 0 <= d < |starts| ==> starts[d] == 0
    ensures Minus(index, starts) == index
  {}

  /** Updating an array with itself in place changes nothing. */
  lemma SelfUpdate<T>(v: seq<T>, now: seq<T>, dims: seq<nat>, starts: seq<int>)
    requires SelfOverlaid(v, now, dims, starts) && Fits(starts, dims, dims)
    ensures now == v == Updated(v, dims, v, starts, dims)
  {
    ClippedWindow(dims, starts, dims);
    forall p | 0 <= p < |v| ensures SelfCell(v, v, dims, starts, dims, p) && Updated(v, dims, v, starts, dims)[p] == v[p] {
      UpdateReads(v, dims, v, starts, dims, RowIndex(dims, p));
      MinusOrigin(RowIndex(dims, p), starts);
    }
    SelfOverlaidUnique(v, now, v, dims, starts);
  }

  /** The row-major rank by Horner's rule, one dimension at a time. */
  lemma HornerStep(indexes: seq<int>, dims: seq<nat>, i: nat)
    requires |indexes| == |dims| && i < |dims|
    ensures RowRank(indexes[..i + 1], dims[..i + 1]) == RowRank(indexes[..i], dims[..i]) * dims[i] + indexes[i]
  {
    GatherRowMajor(indexes, i);
    GatherRowMajor(dims, i);
  }

  lemma GatherRowMajor<T>(s: seq<T>, i: nat)
    requires i < |s|
    ensures Gather(s[..i + 1], RowMajor(i + 1))[0] == s[i]
    ensures Gather(s[..i + 1], RowMajor(i + 1))[1..] == Gather(s[..i], RowMajor(i))
  {}

  /** The first `i` entries taken from `spec`, the others from `was`. */
  function Replaced<T>(spec: seq<T>, was: seq<T>, i: nat): (r: seq<T>)
    requires |spec| == |was| && i <= |was|
    ensures |r| == |was|
  {
    spec[..i] + was[i..]
  }

  lemma ReplacedStep<T>(spec: seq<T>, was: seq<T>, i: nat)
    requires |spec| == |was| && i < |was|
    ensures Replaced(spec, was, i)[i := spec[i]] == Replaced(spec, was, i + 1) && Replaced(spec, was, i)[i] == was[i]
  {}

  lemma ReplacedAll<T>(spec: seq<T>, was: seq<T>)
    requires |spec| == |was|
    ensures Replaced(spec, was, 0) == was && Replaced(spec, was, |was|) == spec
  {}

  // ---- why one running counter is enough ----

  lemma ShiftKeepsOrder(a: seq<int>, b: seq<int>, starts: seq<int>)
    requires |a| == |b| == |starts| && LexLess(a, b)
    ensures LexLess(Minus(a, starts), Minus(b, starts))
  {
    var k :| LexLessAt(a, b, k);
    forall d | 0 <= d < k ensures a[d] == b[d] {
      assert a[d] == a[..k][d] && b[d] == b[..k][d];
    }
    assert LexLessAt(Minus(a, starts), Minus(b, starts), k);
  }

  /** Window cells come in the same order in the window as in the whole array. */
  lemma WindowOrder(a: seq<int>, b: seq<int>, dims: seq<nat>, starts: seq<int>, size: seq<nat>)
    requires InRange(a, dims) && InRange(b, dims) && InWindow(a, starts, size) && InWindow(b, starts, size)
    ensures RowRank(a, dims) < RowRank(b, dims)
       <==> RowRank(Minus(a, starts), size) < RowRank(Minus(b, starts), size)
  {
    RowRankOrder(a, b, dims);
    RowRankOrder(b, a, dims);
    RowRankOrder(Minus(a, starts), Minus(b, starts), size);
    LexTotal(a, b);
    if LexLess(a, b) { ShiftKeepsOrder(a, b, starts); }
    if LexLess(b, a) {
      ShiftKeepsOrder(b, a, starts);
      RowRankOrder(Minus(b, starts), Minus(a, starts), size);
    }
  }

  /** `c` window cells lie before position `i`: those of window rank below `c`. */
  ghost predicate Counted(dims: seq<nat>, starts: seq<int>, size: seq<nat>, i: int, c: int) {
    && Fits(starts, size, dims) && 0 <= c <= Product(size)
    && forall idx :: InRange(idx, size) ==> (RowRank(idx, size) < c <==> RowRank(Plus(idx, starts), dims) < i)
  }

  lemma CountStart(dims: seq<nat>, starts: seq<int>, size: seq<nat>)
    requires Fits(starts, size, dims)
    ensures Counted(dims, starts, size, 0, 0)
  {
    forall idx | InRange(idx, size)
      ensures RowRank(idx, size) >= 0 && RowRank(Plus(idx, starts), dims) >= 0
    {
      RowRankBound(idx, size);
      RowRankBound(Plus(idx, starts), dims);
    }
  }

  lemma SameWindowOrder(a: seq<int>, b: seq<int>, dims: seq<nat>, starts: seq<int>, size: seq<nat>)
    requires Fits(starts, size, dims) && InRange(a, size) && InRange(b, size)
    ensures RowRank(a, size) < RowRank(b, size)
       <==> RowRank(Plus(a, starts), dims) < RowRank(Plus(b, starts), dims)
  {
    PlusMinus(a, starts);
    PlusMinus(b, starts);
    WindowOrder(Plus(a, starts), Plus(b, starts), dims, starts, size);
  }

  /** The counter equals the window rank of every window cell at the moment it is reached. */
  lemma CounterIsRank(dims: seq<nat>, starts: seq<int>, size: seq<nat>, i: int, c: int)
    requires 0 <= i < Product(dims) && Counted(dims, starts, size, i, c)
    requires InWindow(RowIndex(dims, i), starts, size)
    ensures RowRank(Minus(RowIndex(dims, i), starts), size) == c < Product(size)
  {
    var index := RowIndex(dims, i);
    var rel := Minus(index, starts);
    PlusMinus(index, starts);
    RowRankBound(rel, size);
    if c < RowRank(rel, size) {
      SameWindowOrder(RowIndex(size, c), rel, dims, starts, size);
    }
  }

  lemma CountHit(dims: seq<nat>, starts: seq<int>, size: seq<nat>, i: int, c: int)
    requires 0 <= i < Product(dims) && Counted(dims, starts, size, i, c)
    requires InWindow(RowIndex(dims, i), starts, size)
    ensures Counted(dims, starts, size, i + 1, c + 1)
  {
    var rel := Minus(RowIndex(dims, i), starts);
    PlusMinus(RowIndex(dims, i), starts);
    CounterIsRank(dims, starts, size, i, c);
    forall idx | InRange(idx, size)
      ensures RowRank(idx, size) < c + 1 <==> RowRank(Plus(idx, starts), dims) < i + 1
    {
      SameWindowOrder(rel, idx, dims, starts, size);
    }
  }

  lemma CountMiss(dims: seq<nat>, starts: seq<int>, size: seq<nat>, i: int, c: int)
    requires 0 <= i < Product(dims) && Counted(dims, starts, size, i, c)
    requires !InWindow(RowIndex(dims, i), starts, size)
    ensures Counted(dims, starts, size, i + 1, c)
  {
    forall idx | InRange(idx, size) ensures RowRank(Plus(idx, starts), dims) != i {
      RowRankBound(Plus(idx, starts), dims);
      PlusMinus(idx, starts);
    }
  }

  lemma CountEnd(dims: seq<nat>, starts: seq<int>, size: seq<nat>, c: int)
    requires Counted(dims, starts, size, Product(dims), c)
    ensures c == Product(size)
  {
    if c < Product(size) { RowRankBound(Plus(RowIndex(size, c), starts), dims); }
  }

  /** One step of `Slice`: a window cell lands on the next free position of the result. */
  lemma SliceStep<T>(v: seq<T>, dims: seq<nat>, starts: seq<int>, size: seq<nat>, i: int, c: int)
    requires 0 <= i < |v| == Product(dims) && Counted(dims, starts, size, i, c)
    ensures
      if InWindow(RowIndex(dims, i), starts, size) then
        c < Product(size) && SliceOf(v, dims, starts, size)[c] == v[i] && Counted(dims, starts, size, i + 1, c + 1)
      else Counted(dims, starts, size, i + 1, c)
  {
    var index := RowIndex(dims, i);
    if InWindow(index, starts, size) {
      CounterIsRank(dims, starts, size, i, c);
      CountHit(dims, starts, size, i, c);
      SliceReads(v, dims, starts, size, Minus(index, starts));
      PlusMinus(index, starts);
    } else {
      CountMiss(dims, starts, size, i, c);
    }
  }

  /** One step of `UpdateSlice`. */
  lemma UpdateStep<T>(v: seq<T>, dims: seq<nat>, from: seq<T>, starts: seq<int>, size: seq<nat>, i: int, c: int)
    requires 0 <= i < |v| == Product(dims) && |from| == Product(size) && Counted(dims, starts, size, i, c)
    ensures
      if InWindow(RowIndex(dims, i), starts, size) then
        c < |from| && Updated(v, dims, from, starts, size)[i] == from[c] && Counted(dims, starts, size, i + 1, c + 1)
      else Updated(v, dims, from, starts, size)[i] == v[i] && Counted(dims, starts, size, i + 1, c)
  {
    var index := RowIndex(dims, i);
    UpdateReads(v, dims, from, starts, size, index);
    if InWindow(index, starts, size) {
      CounterIsRank(dims, starts, size, i, c);
      CountHit(dims, starts, size, i, c);
    } else {
      CountMiss(dims, starts, size, i, c);
    }
  }

  /** One step of `UpdateSlice` on the array itself. */
  lemma SelfStep<T>(was: seq<T>, now: seq<T>, dims: seq<nat>, base: seq<int>, inside: seq<nat>, i: int, c: int)
    requires SelfCells(was, now, dims, base, inside, i) && 0 <= c <= i < |was| && now[i..] == was[i..]
    requires Counted(dims, base, inside, i, c)
    ensures
      var found := InWindow(RowIndex(dims, i), base, inside);
      var next := if found then now[i := now[c]] else now;
      && SelfCells(was, next, dims, base, inside, i + 1) && next[i + 1..] == was[i + 1..]
      && Counted(dims, base, inside, i + 1, if found then c + 1 else c)
  {
    assert now[i] == now[i..][0] == was[i..][0] == was[i];
    assert now[i + 1..] == now[i..][1..] == was[i + 1..];
    var next := now;
    if InWindow(RowIndex(dims, i), base, inside) {
      CounterIsRank(dims, base, inside, i, c);
      CountHit(dims, base, inside, i, c);
      next := now[i := now[c]];
    } else {
      CountMiss(dims, base, inside, i, c);
    }
    forall p | 0 <= p < i + 1 ensures SelfCell(was, next, dims, base, inside, p) {
      if p < i { assert SelfCell(was, now, dims, base, inside, p); }
    }
  }

  // ---- transposition, cell by cell ----

  ghost function InverseOf(p: seq<int>): (q: seq<int>)
    requires IsPerm(p)
    ensures Inverses(p, q) && IsPerm(q)
  {
    var q := seq(|p|, d requires 0 <= d < |p| => PositionOf(p, d));
    forall k | 0 <= k < |p| ensures q[p[k]] == k { PositionAt(p, k); }
    InverseIsPermutation(p, q);
    q
  }

  /** Index `j` of the transposed array is read at source index `s` with `s[p[k]] == j[k]`. */
  ghost function Untransposed(j: seq<int>, p: seq<int>): (s: seq<int>)
    requires IsPerm(p) && |j| == |p|
    ensures |s| == |p| && Gather(s, p) == j
  {
    Gather(j, InverseOf(p))
  }

  lemma UntransposedInRange(j: seq<int>, p: seq<int>, dims: seq<nat>)
    requires IsPerm(p) && |p| == |dims| && InRange(j, Gather(dims, p))
    ensures InRange(Untransposed(j, p), dims)
  {
    GatherRange(Untransposed(j, p), dims, p);
  }

  ghost function TransposedValues<T>(v: seq<T>, dims: seq<nat>, p: seq<int>): (s: seq<T>)
    requires |v| == Product(dims) && IsPerm(p) && |p| == |dims|
    ensures |s| == Product(Gather(dims, p))
  {
    var pd := Gather(dims, p);
    seq(Product(pd), i requires 0 <= i < Product(pd) =>
      var source := Untransposed(RowIndex(pd, i), p);
      UntransposedInRange(RowIndex(pd, i), p, dims);
      RowRankBound(source, dims);
      v[RowRank(source, dims)])
  }

  /** The loop index of a row-major scan: the origin, ready for `NextIndex`. */
  method Origin(dims: seq<nat>) returns (index: array<int>)
    ensures fresh(index) && index.Length == |dims|
    ensures index[..] == RowIndex(Scanned(dims), 0)
    ensures Product(dims) > 0 ==> index[..] == RowIndex(dims, 0)
  {
    index := new int[|dims|](_ => 0);
    OffsetOfOrigin(RowMajorShape(Scanned(dims)), index[..]);
    RowRankBound(index[..], Scanned(dims));
    ProductPositive(dims);
  }

  /** `BumpIndices` inside a scan that has reached position `t`. */
  method BumpScan(dims: seq<nat>, index: array<int>, ghost t: int) returns (more: bool)
    requires 0 <= t < Product(Scanned(dims)) && index[..] == RowIndex(Scanned(dims), t)
    modifies index
    ensures more <==> t + 1 < Product(Scanned(dims))
    ensures more ==> index[..] == RowIndex(Scanned(dims), t + 1)
  {
    more := BumpIndices(dims, index);
    RowRankBound(index[..], Scanned(dims));
  }

  class Array<T(0)> {
    var sizes: seq<nat>
    var values: array<T>

    ghost predicate Valid()
      reads this
    {
      values.Length == Product(sizes)
    }

    ghost function At(index: seq<int>): T
      requires Valid() && InRange(index, sizes)
      reads this, values
    {
      RowRankBound(index, sizes);
      values[RowRank(index, sizes)]
    }

    constructor (sizes: seq<nat>)
      ensures Valid() && this.sizes == sizes && fresh(values)
    {
      this.sizes := sizes;
      values := new T[Product(sizes)];
    }

    /** Horner's rule from the most major dimension down. */
    method CalculateIndex(indexes: seq<int>) returns (index: int)
      requires |indexes| == |sizes|
      ensures index == RowRank(indexes, sizes)
    {
      index := 0;
      for i := 0 to |sizes|
        invariant index == RowRank(indexes[..i], sizes[..i])
      {
        HornerStep(indexes, sizes, i);
        index := index * sizes[i];
        index := index + indexes[i];
      }
      assert indexes[..|sizes|] == indexes && sizes[..|sizes|] == sizes;
    }

    static lemma BumpedIsNext(dims: seq<nat>, was: seq<int>, k: nat)
      requires InRange(was, dims) && k < |was| && LowMaxed(RowMajorShape(dims), was, k)
      requires was[RowMajor(|was|)[k]] + 1 < dims[RowMajor(|was|)[k]]
      ensures 0 <= RowRank(was, dims) < RowRank(was, dims) + 1 < Product(dims)
      ensures Bumped(RowMajorShape(dims), was, k) == RowIndex(dims, RowRank(was, dims) + 1)
    {
      Successor(RowMajorShape(dims), was, k);
      RowRankBound(was, dims);
      RowRankBound(Bumped(RowMajorShape(dims), was, k), dims);
    }

    static lemma WrappedToOrigin(dims: seq<nat>, was: seq<int>)
      requires InRange(was, dims) && LowMaxed(RowMajorShape(dims), was, |was|)
      ensures RowRank(was, dims) + 1 == Product(dims)
      ensures
        var z := ZeroLow(RowMajorShape(dims), was, |was|);
        InRange(z, dims) && RowRank(z, dims) == 0
    {
      LastIndex(RowMajorShape(dims), was);
      OffsetOfOrigin(RowMajorShape(dims), ZeroLow(RowMajorShape(dims), was, |was|));
    }

    /** One digit: bumped if there is room, otherwise reset with a carry. */
    method BumpDigit(index: array<int>, i: nat, ghost was: seq<int>) returns (done: bool)
      requires InRange(was, sizes) && i < |was| == index.Length
      requires LowMaxed(RowMajorShape(sizes), was, |was| - 1 - i)
      requires index[..] == ZeroLow(RowMajorShape(sizes), was, |was| - 1 - i)
      modifies index
      ensures 0 <= RowRank(was, sizes)
      ensures done ==> RowRank(was, sizes) + 1 < Product(sizes) && index[..] == RowIndex(sizes, RowRank(was, sizes) + 1)
      ensures !done ==> LowMaxed(RowMajorShape(sizes), was, |was| - i)
      ensures !done ==> index[..] == ZeroLow(RowMajorShape(sizes), was, |was| - i)
    {
      ghost var sh, k := RowMajorShape(sizes), |was| - 1 - i;
      RowRankBound(was, sizes);
      assert sh.minorToMajor[k] == i;
      ZeroLowStep(sh, was, k);
      index[i] := index[i] + 1;
      done := index[i] < sizes[i];
      if done {
        BumpedIsNext(sizes, was, k);
        assert index[..] == Bumped(sh, was, k);
      } else {
        index[i] := 0;
        assert index[..] == ZeroLow(sh, was, k + 1);
      }
    }

    /** Advances in row-major order; at the last index it wraps to the origin. */
    method NextIndex(index: array<int>) returns (more: bool)
      requires InRange(index[..], sizes)
      modifies index
      ensures more <==> old(RowRank(index[..], sizes)) + 1 < Product(sizes)
      ensures InRange(index[..], sizes)
      ensures RowRank(index[..], sizes) == if more then old(RowRank(index[..], sizes)) + 1 else 0
      ensures 0 <= old(RowRank(index[..], sizes))
      ensures more ==> index[..] == RowIndex(sizes, old(RowRank(index[..], sizes)) + 1)
    {
      var n := index.Length;
      ghost var sh, was := RowMajorShape(sizes), index[..];
      RowRankBound(was, sizes);
      RowPositions(n);
      var i := n - 1;
      while i >= 0
        invariant -1 <= i < n
        invariant LowMaxed(sh, was, n - 1 - i) && index[..] == ZeroLow(sh, was, n - 1 - i)
      {
        var done := BumpDigit(index, i, was);
        if done { return true; }
        i := i - 1;
      }
      assert i == -1 && LowMaxed(sh, was, n) && index[..] == ZeroLow(sh, was, n);
      WrappedToOrigin(sizes, was);
      return false;
    }

    /** `NextIndex` inside a scan that has reached position `i`. */
    method Advance(index: array<int>, ghost i: int)
      requires 0 <= i < Product(sizes) && index[..] == RowIndex(sizes, i)
      modifies index
      ensures i + 1 < Product(sizes) ==> index[..] == RowIndex(sizes, i + 1)
    {
      var _ := NextIndex(index);
    }

    static method AllInsideRange(values: seq<int>, starts: seq<int>, ends: seq<int>) returns (inside: bool)
      requires |values| == |starts| == |ends|
      ensures inside <==> forall d :: 0 <= d < |values| ==> starts[d] <= values[d] < ends[d]
    {
      for i := 0 to |values|
        invariant forall d :: 0 <= d < i ==> starts[d] <= values[d] < ends[d]
      {
        if values[i] < starts[i] || values[i] >= ends[i] { return false; }
      }
      return true;
    }

    /** Where the window reaches outside the array, the cells inside close up at the front of the
        result and the others keep what `new` left there. */
    method Slice(starts: seq<int>, limits: seq<int>) returns (result: Array<T>)
      requires Valid() && |starts| == |limits| == |sizes|
      requires forall d :: 0 <= d < |sizes| ==> starts[d] <= limits[d]
      ensures result.Valid() && fresh(result) && fresh(result.values)
      ensures result.sizes == Minus(limits, starts)
      ensures
        var packed := Packed(values[..], sizes, starts, result.sizes);
        result.values[..|packed|] == packed
      ensures Fits(starts, result.sizes, sizes) ==> result.values[..] == SliceOf(values[..], sizes, starts, result.sizes)
    {
      var size: seq<nat> := seq(|starts|, d requires 0 <= d < |starts| => limits[d] - starts[d]);
      assert limits == Plus(size, starts);
      result := new Array(size);
      ghost var packed := Packed(values[..], sizes, starts, size);
      ClippedWindow(sizes, starts, size);
      ProductLe(ClipSize(starts, size, sizes), size);
      FillSlice(result, starts, limits, ClipStart(starts, sizes), ClipSize(starts, size, sizes));
      assert Fits(starts, size, sizes) ==> result.values[..|packed|] == result.values[..];
    }

    /** The scan of `Slice`, writing successive positions of `result`. */
    method FillSlice(result: Array<T>, starts: seq<int>, limits: seq<int>, ghost base: seq<int>, ghost inside: seq<nat>)
      requires Valid() && result.Valid() && result.values != values
      requires Clipped(sizes, starts, result.sizes, base, inside) && Product(inside) <= result.values.Length
      requires limits == Plus(result.sizes, starts)
      modifies result.values
      ensures result.values[..Product(inside)] == SliceOf(values[..], sizes, base, inside)
    {
      ghost var spec := SliceOf(values[..], sizes, base, inside);
      var index := Origin(sizes);
      var sliceI := 0;
      CountStart(sizes, base, inside);
      for i := 0 to values.Length
        invariant fresh(index)
        invariant i < values.Length ==> index[..] == RowIndex(sizes, i)
        invariant Counted(sizes, base, inside, i, sliceI)
        invariant result.values[..sliceI] == spec[..sliceI]
      {
        sliceI := SliceNext(result, starts, limits, index, i, sliceI, base, inside);
      }
      CountEnd(sizes, base, inside, sliceI);
      assert spec[..sliceI] == spec;
    }

    /** One round of the `Slice` scan; returns the advanced result counter. */
    method SliceNext(result: Array<T>, starts: seq<int>, limits: seq<int>, index: array<int>, i: int, sliceI: int,
                     ghost base: seq<int>, ghost inside: seq<nat>) returns (nextI: int)
      requires Valid() && result.Valid() && result.values != values
      requires (index as object) != values && (index as object) != result.values
      requires Clipped(sizes, starts, result.sizes, base, inside) && Product(inside) <= result.values.Length
      requires limits == Plus(result.sizes, starts)
      requires 0 <= i < values.Length && index[..] == RowIndex(sizes, i)
      requires Counted(sizes, base, inside, i, sliceI)
      requires result.values[..sliceI] == SliceOf(values[..], sizes, base, inside)[..sliceI]
      modifies result.values, index
      ensures Counted(sizes, base, inside, i + 1, nextI)
      ensures result.values[..nextI] == SliceOf(values[..], sizes, base, inside)[..nextI]
      ensures i + 1 < values.Length ==> index[..] == RowIndex(sizes, i + 1)
    {
      nextI := SliceCell(result, starts, limits, index[..], i, sliceI, base, inside);
      Advance(index, i);
    }

    /** Its body. */
    method SliceCell(result: Array<T>, starts: seq<int>, limits: seq<int>, index: seq<int>, i: int, sliceI: int,
                     ghost base: seq<int>, ghost inside: seq<nat>) returns (nextI: int)
      requires Valid() && result.Valid() && result.values != values
      requires Clipped(sizes, starts, result.sizes, base, inside) && Product(inside) <= result.values.Length
      requires limits == Plus(result.sizes, starts)
      requires 0 <= i < values.Length && index == RowIndex(sizes, i)
      requires Counted(sizes, base, inside, i, sliceI)
      requires result.values[..sliceI] == SliceOf(values[..], sizes, base, inside)[..sliceI]
      modifies result.values
      ensures Counted(sizes, base, inside, i + 1, nextI)
      ensures result.values[..nextI] == SliceOf(values[..], sizes, base, inside)[..nextI]
    {
      nextI := sliceI;
      var found := AllInsideRange(index, starts, limits);
      WindowTest(index, starts, result.sizes, limits);
      SliceStep(values[..], sizes, base, inside, i, sliceI);
      if found {
        result.values[nextI] := values[i];
        nextI := nextI + 1;
        assert result.values[..nextI] == result.values[..sliceI] + [values[i]];
      }
    }

    /** In-place update of the window at `starts`; `from` may be this array. The scan is the
        same either way: it is written twice for the sake of what it leaves unchanged. */
    method UpdateSlice(from: Array<T>, starts: seq<int>)
      requires Valid() && from.Valid() && (from == this || from.values != values)
      requires |starts| == |from.sizes| == |sizes|
      modifies values
      ensures Valid() && from.Valid()
      ensures from != this ==> from.values[..] == old(from.values[..])
      ensures from != this ==> values[..] == Overlaid(old(values[..]), sizes, old(from.values[..]), starts, from.sizes)
      ensures from == this ==> SelfOverlaid(old(values[..]), values[..], sizes, starts)
      ensures Fits(starts, from.sizes, sizes) ==>
                values[..] == Updated(old(values[..]), sizes, old(from.values[..]), starts, from.sizes)
    {
      if from == this {
        ClippedWindow(sizes, starts, sizes);
        UpdateFromSelf(starts, ClipStart(starts, sizes), ClipSize(starts, sizes, sizes));
        if Fits(starts, sizes, sizes) { SelfUpdate(old(values[..]), values[..], sizes, starts); }
      } else {
        ClippedWindow(sizes, starts, from.sizes);
        ProductLe(ClipSize(starts, from.sizes, sizes), from.sizes);
        UpdateFrom(from, starts, ClipStart(starts, sizes), ClipSize(starts, from.sizes, sizes));
      }
    }

    method UpdateFrom(from: Array<T>, starts: seq<int>, ghost base: seq<int>, ghost inside: seq<nat>)
      requires Valid() && from.Valid() && from.values != values
      requires Clipped(sizes, starts, from.sizes, base, inside) && Product(inside) <= from.values.Length
      modifies values
      ensures from.values[..] == old(from.values[..])
      ensures values[..] == Updated(old(values[..]), sizes, from.values[..Product(inside)], base, inside)
    {
      ghost var was := values[..];
      ghost var spec := Updated(was, sizes, from.values[..Product(inside)], base, inside);
      var limits := Plus(from.sizes, starts);
      var index := Origin(sizes);
      var fromI := 0;
      CountStart(sizes, base, inside);
      ReplacedAll(spec, was);
      for i := 0 to values.Length
        invariant fresh(index) && from.values[..] == old(from.values[..])
        invariant i < values.Length ==> index[..] == RowIndex(sizes, i)
        invariant Counted(sizes, base, inside, i, fromI)
        invariant values[..] == Replaced(spec, was, i)
      {
        fromI := UpdateNext(from, starts, limits, index, i, fromI, was, spec, base, inside);
      }
    }

    /** The counter never gets ahead of the scan, so what it reads is final already. */
    method UpdateFromSelf(starts: seq<int>, ghost base: seq<int>, ghost inside: seq<nat>)
      requires Valid() && Clipped(sizes, starts, sizes, base, inside)
      modifies values
      ensures SelfCells(old(values[..]), values[..], sizes, base, inside, values.Length)
    {
      ghost var was := values[..];
      var limits := Plus(sizes, starts);
      var index := Origin(sizes);
      var fromI := 0;
      CountStart(sizes, base, inside);
      for i := 0 to values.Length
        invariant fresh(index) && fromI <= i
        invariant i < values.Length ==> index[..] == RowIndex(sizes, i)
        invariant Counted(sizes, base, inside, i, fromI)
        invariant SelfCells(was, values[..], sizes, base, inside, i) && values[i..] == was[i..]
      {
        fromI := UpdateOwnNext(starts, limits, index, i, fromI, was, base, inside);
      }
    }

    /** One round of that scan. */
    method UpdateOwnNext(starts: seq<int>, limits: seq<int>, index: array<int>, i: int, fromI: int,
                         ghost was: seq<T>, ghost base: seq<int>, ghost inside: seq<nat>) returns (nextI: int)
      requires Valid() && Clipped(sizes, starts, sizes, base, inside) && limits == Plus(sizes, starts)
      requires (index as object) != values
      requires 0 <= fromI <= i < |was| == values.Length && index[..] == RowIndex(sizes, i)
      requires Counted(sizes, base, inside, i, fromI)
      requires values[i..] == was[i..] && SelfCells(was, values[..], sizes, base, inside, i)
      modifies values, index
      ensures Counted(sizes, base, inside, i + 1, nextI) && nextI <= i + 1
      ensures values[i + 1..] == was[i + 1..] && SelfCells(was, values[..], sizes, base, inside, i + 1)
      ensures i + 1 < values.Length ==> index[..] == RowIndex(sizes, i + 1)
    {
      nextI := UpdateOwnCell(starts, limits, index[..], i, fromI, was, base, inside);
      Advance(index, i);
    }

    /** Its body: one cell of an array that is written over itself. */
    method UpdateOwnCell(starts: seq<int>, limits: seq<int>, index: seq<int>, i: int, fromI: int,
                         ghost was: seq<T>, ghost base: seq<int>, ghost inside: seq<nat>) returns (nextI: int)
      requires Valid() && Clipped(sizes, starts, sizes, base, inside) && limits == Plus(sizes, starts)
      requires 0 <= fromI <= i < |was| == values.Length && index == RowIndex(sizes, i)
      requires Counted(sizes, base, inside, i, fromI)
      requires values[i..] == was[i..] && SelfCells(was, values[..], sizes, base, inside, i)
      modifies values
      ensures Counted(sizes, base, inside, i + 1, nextI) && nextI <= i + 1
      ensures values[i + 1..] == was[i + 1..] && SelfCells(was, values[..], sizes, base, inside, i + 1)
    {
      nextI := fromI;
      var found := AllInsideRange(index, starts, limits);
      WindowTest(index, starts, sizes, limits);
      SelfStep(was, values[..], sizes, base, inside, i, fromI);
      if found {
        values[i] := values[fromI];
        nextI := nextI + 1;
      }
    }

    /** One round of the `UpdateSlice` scan; returns the advanced source counter. */
    method UpdateNext(from: Array<T>, starts: seq<int>, limits: seq<int>, index: array<int>, i: int, fromI: int,
                      ghost was: seq<T>, ghost spec: seq<T>, ghost base: seq<int>, ghost inside: seq<nat>) returns (nextI: int)
      requires Valid() && from.Valid() && from.values != values
      requires (index as object) != values && (index as object) != from.values
      requires Clipped(sizes, starts, from.sizes, base, inside) && limits == Plus(from.sizes, starts)
      requires 0 <= i < |was| == values.Length && index[..] == RowIndex(sizes, i)
      requires Counted(sizes, base, inside, i, fromI) && Product(inside) <= from.values.Length
      requires spec == Updated(was, sizes, from.values[..Product(inside)], base, inside) && values[..] == Replaced(spec, was, i)
      modifies values, index
      ensures from.values[..] == old(from.values[..]) && Counted(sizes, base, inside, i + 1, nextI)
      ensures values[..] == Replaced(spec, was, i + 1)
      ensures i + 1 < values.Length ==> index[..] == RowIndex(sizes, i + 1)
    {
      ReplacedStep(spec, was, i);
      nextI := UpdateCell(from, starts, limits, index[..], i, fromI, was, base, inside);
      Advance(index, i);
    }

    /** The body of the `UpdateSlice` scan. */
    method UpdateCell(from: Array<T>, starts: seq<int>, limits: seq<int>, index: seq<int>, i: int, fromI: int,
                      ghost was: seq<T>, ghost base: seq<int>, ghost inside: seq<nat>) returns (nextI: int)
      requires Valid() && from.Valid() && from.values != values
      requires Clipped(sizes, starts, from.sizes, base, inside) && limits == Plus(from.sizes, starts)
      requires 0 <= i < |was| == values.Length && values[i] == was[i] && index == RowIndex(sizes, i)
      requires Counted(sizes, base, inside, i, fromI) && Product(inside) <= from.values.Length
      modifies values
      ensures from.values[..] == old(from.values[..]) && Counted(sizes, base, inside, i + 1, nextI)
      ensures values[..] == old(values[..])[i := Updated(was, sizes, from.values[..Product(inside)], base, inside)[i]]
    {
      nextI := fromI;
      var found := AllInsideRange(index, starts, limits);
      WindowTest(index, starts, from.sizes, limits);
      UpdateStep(was, sizes, from.values[..Product(inside)], base, inside, i, fromI);
      if found {
        values[i] := from.values[nextI];
        nextI := nextI + 1;
      }
    }

    /** In-place reshape: the element of row-major rank `r` keeps rank `r`. */
    method Reshape(dimensions: seq<nat>)
      requires Valid() && Product(dimensions) == Product(sizes)
      modifies this`sizes
      ensures Valid() && sizes == dimensions && values[..] == old(values[..])
      ensures forall i, j :: InRange(i, old(sizes)) && InRange(j, sizes) && RowRank(i, old(sizes)) == RowRank(j, sizes) ==>
                At(j) == old(At(i))
    {
      sizes := dimensions;
    }

    method TransposeDimensions(permutation: seq<int>)
      requires Valid() && IsPerm(permutation) && |permutation| == |sizes|
      modifies this
      ensures Valid() && fresh(values) && sizes == Gather(old(sizes), permutation)
      ensures values[..] == TransposedValues(old(values[..]), old(sizes), permutation)
    {
      var dims := Gather(sizes, permutation);
      var permuted := new Array<T>(dims);
      FillTransposed(permuted, permutation);
      sizes, values := permuted.sizes, permuted.values;
    }

    /** The cell-by-cell scan of the transposed array. */
    method FillTransposed(permuted: Array<T>, p: seq<int>)
      requires Valid() && permuted.Valid() && permuted.values != values
      requires IsPerm(p) && |p| == |sizes| && permuted.sizes == Gather(sizes, p)
      modifies permuted.values
      ensures permuted.values[..] == TransposedValues(values[..], sizes, p)
    {
      ghost var spec, was := TransposedValues(values[..], sizes, p), permuted.values[..];
      ReplacedAll(spec, was);
      var index := Origin(permuted.sizes);
      var source := new int[|sizes|](_ => -1);
      for i := 0 to permuted.values.Length
        invariant fresh(index) && fresh(source) && index != source && values[..] == old(values[..])
        invariant i < permuted.values.Length ==> index[..] == RowIndex(permuted.sizes, i)
        invariant permuted.values[..] == Replaced(spec, was, i)
      {
        ReplacedStep(spec, was, i);
        var value := ReadTransposed(p, index, source, i);
        permuted.values[i] := value;
        permuted.Advance(index, i);
      }
    }

    method ReadTransposed(p: seq<int>, index: array<int>, source: array<int>, ghost i: int) returns (value: T)
      requires Valid() && IsPerm(p) && |p| == index.Length == source.Length == |sizes| && index != source
      requires 0 <= i < Product(Gather(sizes, p)) && index[..] == RowIndex(Gather(sizes, p), i)
      requires (source as object) != values
      modifies source
      ensures value == TransposedValues(values[..], sizes, p)[i]
    {
      ScatterIndex(p, index, source);
      UntransposedInRange(index[..], p, sizes);
      var at := CalculateIndex(source[..]);
      RowRankBound(source[..], sizes);
      value := values[at];
    }

    /** Fills `source` so that `source[p[k]] == index[k]`. */
    static method ScatterIndex(p: seq<int>, index: array<int>, source: array<int>)
      requires IsPerm(p) && |p| == index.Length == source.Length && index != source
      modifies source
      ensures source[..] == Untransposed(index[..], p) && index[..] == old(index[..])
    {
      for k := 0 to |p|
        invariant forall j :: 0 <= j < k ==> source[p[j]] == index[j]
      {
        source[p[k]] := index[k];
      }
      GatherEq(source[..], Untransposed(index[..], p), p);
    }
  }
}
