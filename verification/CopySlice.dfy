/** Strided block copy between two literals of any layouts
    (xla/literal.cc `StrideConfig` and `CopySliceFromInternal`, xla/util.h `StridedCopy`). */
module CopySlice {
  import opened MixedRadix
  import opened Permutations
  import opened Layouts
  import opened IndexUtil
  import opened ForEachIndex

  function Plus(a: seq<int>, b: seq<int>): (s: seq<int>)
    requires |a| == |b|
    ensures |s| == |a| && forall d :: 0 <= d < |a| ==> s[d] == a[d] + b[d]
  {
    seq(|a|, d requires 0 <= d < |a| => a[d] + b[d])
  }

  function Minus(a: seq<int>, b: seq<int>): (s: seq<int>)
    requires |a| == |b|
    ensures |s| == |a| && forall d :: 0 <= d < |a| ==> s[d] == a[d] - b[d]
  {
    seq(|a|, d requires 0 <= d < |a| => a[d] - b[d])
  }

  /** The block of `size` cells at `base` lies inside an array of `dims`. */
  ghost predicate Fits(base: seq<int>, size: seq<nat>, dims: seq<nat>) {
    && |base| == |size| == |dims|
    && forall d :: 0 <= d < |dims| ==> 0 <= base[d] && base[d] + size[d] <= dims[d]
  }

  ghost predicate InWindow(index: seq<int>, base: seq<int>, size: seq<nat>) {
    |index| == |base| == |size| && InRange(Minus(index, base), size)
  }

  // ---- StridedCopy ----

  /** Position of the `k`-th element of a strided run. */
  ghost function Slot(start: int, stride: int, k: int): int { start + k * stride }

  ghost predicate RunInside(start: int, stride: int, count: nat, length: nat) {
    forall k :: 0 <= k < count ==> 0 <= Slot(start, stride, k) < length
  }

  /** `next` is `now` with one strided run overwritten from another. */
  ghost predicate RunCopied<T>(now: seq<T>, next: seq<T>, d0: int, ds: int, from: seq<T>, s0: int, ss: int, count: nat) {
    && |now| == |next|
    && RunInside(d0, ds, count, |next|) && RunInside(s0, ss, count, |from|)
    && (forall k :: 0 <= k < count ==> next[Slot(d0, ds, k)] == from[Slot(s0, ss, k)])
    && (forall p :: 0 <= p < |now| && (forall k :: 0 <= k < count ==> p != Slot(d0, ds, k)) ==> next[p] == now[p])
  }

  lemma SlotOrder(start: int, stride: int, j: int, k: int)
    requires stride > 0
    ensures j < k <==> Slot(start, stride, j) < Slot(start, stride, k)
  {
    if j < k { MulLe(stride, j + 1, k); } else { MulLe(stride, k, j); }
  }

  lemma SlotNext(start: int, stride: int, k: int)
    ensures Slot(start, stride, k + 1) == Slot(start, stride, k) + stride
  {}

  lemma RunGrows<T>(now: seq<T>, mid: seq<T>, d0: int, ds: int, from: seq<T>, s0: int, ss: int, k: nat)
    requires ds > 0 && RunCopied(now, mid, d0, ds, from, s0, ss, k)
    requires RunInside(d0, ds, k + 1, |now|) && RunInside(s0, ss, k + 1, |from|)
    ensures RunCopied(now, mid[Slot(d0, ds, k) := from[Slot(s0, ss, k)]], d0, ds, from, s0, ss, k + 1)
  {
    forall j | 0 <= j < k ensures Slot(d0, ds, j) != Slot(d0, ds, k) { SlotOrder(d0, ds, j, k); }
  }

  /** The buffer after `k` elements of a strided run, which reads from the buffer itself as it
      changes if `within`, otherwise from `from`. */
  ghost function Strided<T>(was: seq<T>, from: seq<T>, within: bool, d0: int, ds: int, s0: int, ss: int, k: nat): (r: seq<T>)
    requires RunInside(d0, ds, k, |was|) && RunInside(s0, ss, k, |from|) && (within ==> |from| == |was|)
    ensures |r| == |was|
    decreases k
  {
    if k == 0 then was
    else
      var b := Strided(was, from, within, d0, ds, s0, ss, k - 1);
      b[Slot(d0, ds, k - 1) := (if within then b else from)[Slot(s0, ss, k - 1)]]
  }

  /** Between two buffers the run is copied and every other cell is left alone. */
  lemma {:induction false} StridedApart<T>(was: seq<T>, from: seq<T>, d0: int, ds: int, s0: int, ss: int, k: nat)
    requires ds > 0 && RunInside(d0, ds, k, |was|) && RunInside(s0, ss, k, |from|)
    ensures RunCopied(was, Strided(was, from, false, d0, ds, s0, ss, k), d0, ds, from, s0, ss, k)
    decreases k
  {
    if k > 0 {
      StridedApart(was, from, d0, ds, s0, ss, k - 1);
      RunGrows(was, Strided(was, from, false, d0, ds, s0, ss, k - 1), d0, ds, from, s0, ss, k - 1);
    }
  }

  /** Within one buffer the other one plays no part. */
  lemma {:induction false} StridedWithin<T>(was: seq<T>, f: seq<T>, g: seq<T>, d0: int, ds: int, s0: int, ss: int, k: nat)
    requires RunInside(d0, ds, k, |was|) && RunInside(s0, ss, k, |was|) && |f| == |g| == |was|
    ensures Strided(was, f, true, d0, ds, s0, ss, k) == Strided(was, g, true, d0, ds, s0, ss, k)
    decreases k
  {
    if k > 0 { StridedWithin(was, f, g, d0, ds, s0, ss, k - 1); }
  }

  /** `src` may be the buffer `dest` itself. */
  method StridedCopy<T>(dest: array<T>, d0: int, ds: int, src: array<T>, s0: int, ss: int, count: nat)
    requires ss > 0 && RunInside(d0, ds, count, dest.Length) && RunInside(s0, ss, count, src.Length)
    modifies dest
    ensures dest != src ==> src[..] == old(src[..])
    ensures dest[..] == Strided(old(dest[..]), old(src[..]), dest == src, d0, ds, s0, ss, count)
  {
    var s, d := s0, d0;
    var end := s0 + count * ss;
    ghost var k: nat := 0;
    ghost var was, from := dest[..], src[..];
    while s < end
      invariant k <= count && s == Slot(s0, ss, k) && d == Slot(d0, ds, k)
      invariant dest != src ==> src[..] == from
      invariant dest[..] == Strided(was, from, dest == src, d0, ds, s0, ss, k)
      decreases end - s
    {
      SlotOrder(s0, ss, k, count);
      SlotNext(s0, ss, k);
      SlotNext(d0, ds, k);
      assert 0 <= s < src.Length && 0 <= d < dest.Length;
      assert src[s] == src[..][s];
      dest[d] := src[s];
      d, s, k := d + ds, s + ss, k + 1;
    }
    SlotOrder(s0, ss, k, count);
  }

  // ---- StrideConfig ----

  datatype StrideConfig = StrideConfig(step: seq<nat>, minorDimension: int, destStride: int, sourceStride: int, minorLoopSize: nat)

  lemma StrideOfMinor(sh: Shape)
    requires sh.Valid() && |sh.dims| > 0
    ensures Stride(sh, sh.minorToMajor[0]) == 1
  {
    StrideAt(sh, 0);
  }

  lemma StridePositive(sh: Shape, d: int)
    requires sh.Valid() && 0 <= d < |sh.dims| && ElementsIn(sh) > 0
    ensures Stride(sh, d) > 0
  {
    var r, k := Radices(sh), PositionOf(sh.minorToMajor, d);
    ProductGather(sh.dims, sh.minorToMajor);
    assert r == r[..k] + r[k..];
    ProductConcat(r[..k], r[k..]);
  }

  /** The minor dimension of the side whose minor dimension is copied further. */
  function InnerDimension(source: Shape, dest: Shape, dims: seq<nat>): (d: int)
    requires |source.minorToMajor| == |dest.minorToMajor| == |dims| > 0
    requires 0 <= source.minorToMajor[0] < |dims| && 0 <= dest.minorToMajor[0] < |dims|
    ensures 0 <= d < |dims| && (d == source.minorToMajor[0] || d == dest.minorToMajor[0])
    ensures dims[source.minorToMajor[0]] <= dims[d] && dims[dest.minorToMajor[0]] <= dims[d]
    ensures dims[source.minorToMajor[0]] == dims[d] ==> d == source.minorToMajor[0]
  {
    if dims[source.minorToMajor[0]] >= dims[dest.minorToMajor[0]] then source.minorToMajor[0] else dest.minorToMajor[0]
  }

  /** Whichever side drives the inner loop, both strides are the true strides of the
      chosen dimension; the driving side's constant 1 is its own minor stride. */
  method MakeStrideConfig(source: Shape, dest: Shape, dims: seq<nat>) returns (c: StrideConfig)
    requires source.Valid() && dest.Valid() && |source.dims| == |dest.dims| == |dims| > 0
    ensures 0 <= c.minorDimension < |dims|
    ensures c.destStride == Stride(dest, c.minorDimension)
    ensures c.sourceStride == Stride(source, c.minorDimension)
    ensures c.minorLoopSize == dims[c.minorDimension]
    ensures c.step == seq(|dims|, _ => 1)[c.minorDimension := dims[c.minorDimension]]
    ensures c.minorDimension == InnerDimension(source, dest, dims)
  {
    var ones: seq<nat> := seq(|dims|, _ => 1);
    var minor, destStride, sourceStride := 0, 1, 1;
    StrideOfMinor(source);
    StrideOfMinor(dest);
    if dims[source.minorToMajor[0]] >= dims[dest.minorToMajor[0]] {
      minor := source.minorToMajor[0];
      destStride := GetDimensionStride(dest, minor);
    } else {
      minor := dest.minorToMajor[0];
      sourceStride := GetDimensionStride(source, minor);
    }
    c := StrideConfig(ones[minor := dims[minor]], minor, destStride, sourceStride, dims[minor]);
  }

  // ---- the copy, cell by cell ----

  lemma PlusMinus(index: seq<int>, starts: seq<int>)
    requires |index| == |starts|
    ensures Plus(Minus(index, starts), starts) == index && Minus(Plus(index, starts), starts) == index
  {}

  lemma PlusUpdate(g: seq<int>, base: seq<int>, d: nat, k: int)
    requires |g| == |base| && d < |g| && g[d] == 0
    ensures Plus(g[d := k], base) == Plus(g, base)[d := Plus(g, base)[d] + k]
  {}

  /** One copy request with both buffers as they were before it. */
  datatype Job<T> = Job(dest: Shape, src: Shape, destBase: seq<int>, srcBase: seq<int>,
                        size: seq<nat>, minor: int, from: seq<T>, was: seq<T>) {

    ghost predicate Valid() {
      && dest.Valid() && src.Valid() && 0 <= minor < |size|
      && Fits(destBase, size, dest.dims) && Fits(srcBase, size, src.dims) && AllPositive(size)
      && |from| == ElementsIn(src) && |was| == ElementsIn(dest)
    }

    /** The points visited by the outer scan: one per run along `minor`. */
    ghost function Grid(): (g: Shape)
      requires Valid()
      ensures g.Valid()
    {
      Shape(size[minor := 1], src.minorToMajor, src.dynamic)
    }

    /** Position `p` relative to the destination window. */
    ghost function Rel(p: int): (i: seq<int>)
      requires Valid() && 0 <= p < |was|
      ensures |i| == |size|
    {
      OffsetOfIndexAt(dest, p);
      Minus(IndexAt(dest, p), destBase)
    }

    ghost predicate Touched(p: int)
      requires Valid() && 0 <= p < |was|
    {
      InRange(Rel(p), size)
    }

    ghost function StepOf(i: seq<int>): int
      requires Valid() && |i| == |size|
    {
      Offset(Grid(), i[minor := 0])
    }

    /** Contents of destination cell `p` after `t` runs. */
    ghost function Cell(p: int, t: int): T
      requires Valid() && 0 <= p < |was|
    {
      if Touched(p) && StepOf(Rel(p)) < t then
        SourceInside(Rel(p));
        from[Offset(src, Plus(Rel(p), srcBase))]
      else was[p]
    }

    ghost predicate Done(buffer: seq<T>, t: int)
      requires Valid()
    {
      |buffer| == |was| && forall p :: 0 <= p < |was| ==> buffer[p] == Cell(p, t)
    }

    /** The request is within one buffer. */
    ghost predicate Within() { from == was }

    ghost predicate Runnable(within: bool) { Valid() && (within ==> Within()) }

    /** A buffer after the first `k` elements of the run at grid point `g`. */
    ghost function RunOf(buffer: seq<T>, within: bool, g: seq<int>, k: nat): (r: seq<T>)
      requires Runnable(within) && |buffer| == |was| && InRange(g, Grid().dims) && k <= size[minor]
      ensures |r| == |was|
    {
      RunsInside(g);
      Strided(buffer, from, within, Offset(dest, Plus(g, destBase)), Stride(dest, minor),
              Offset(src, Plus(g, srcBase)), Stride(src, minor), k)
    }

    /** The destination buffer after `t` runs. */
    ghost function Replay(within: bool, t: nat): (r: seq<T>)
      requires Runnable(within) && t <= ElementsIn(Grid())
      ensures |r| == |was|
      decreases t
    {
      if t == 0 then was
      else
        OffsetOfIndexAt(Grid(), t - 1);
        RunOf(Replay(within, t - 1), within, IndexAt(Grid(), t - 1), size[minor])
    }

    /** The last element of a partial run. */
    lemma RunLast(buffer: seq<T>, within: bool, g: seq<int>, k: nat)
      requires Runnable(within) && |buffer| == |was| && InRange(g, Grid().dims) && 0 < k <= size[minor]
      ensures
        var x, before := g[minor := k - 1], RunOf(buffer, within, g, k - 1);
        var d, s := Offset(dest, Plus(x, destBase)), Offset(src, Plus(x, srcBase));
        && InRange(x, size) && x[minor] == k - 1 && StepOf(x) == Offset(Grid(), g)
        && 0 <= d < |was| && 0 <= s < |from|
        && RunOf(buffer, within, g, k) == before[d := (if within then before else from)[s]]
    {
      RunsInside(g);
      RunElement(g, k - 1);
    }

    /** The grid point of the last run. */
    ghost function LastPoint(t: nat): (g: seq<int>)
      requires Valid() && 0 < t <= ElementsIn(Grid())
      ensures InRange(g, Grid().dims) && Offset(Grid(), g) == t - 1
    {
      OffsetOfIndexAt(Grid(), t - 1);
      IndexAt(Grid(), t - 1)
    }

    /** What a strided copy along the run at `g` makes of a buffer. */
    lemma RunIsStrided(within: bool, g: seq<int>, buffer: seq<T>, source: seq<T>)
      requires Runnable(within) && |buffer| == |was| && InRange(g, Grid().dims)
      requires source == if within then buffer else from
      ensures RunInside(Offset(dest, Plus(g, destBase)), Stride(dest, minor), size[minor], |was|)
      ensures RunInside(Offset(src, Plus(g, srcBase)), Stride(src, minor), size[minor], |from|)
      ensures RunOf(buffer, within, g, size[minor])
           == Strided(buffer, source, within, Offset(dest, Plus(g, destBase)), Stride(dest, minor),
                      Offset(src, Plus(g, srcBase)), Stride(src, minor), size[minor])
    {
      RunsInside(g);
      if within {
        StridedWithin(buffer, buffer, from, Offset(dest, Plus(g, destBase)), Stride(dest, minor),
                      Offset(src, Plus(g, srcBase)), Stride(src, minor), size[minor]);
      }
    }

    lemma ReplayLast(within: bool, t: nat)
      requires Runnable(within) && 0 < t <= ElementsIn(Grid())
      ensures Replay(within, t) == RunOf(Replay(within, t - 1), within, LastPoint(t), size[minor])
    {}

    /** Between two buffers every run advances each of its cells by one step. */
    lemma {:induction false} ReplayIsDone(t: nat)
      requires Valid() && t <= ElementsIn(Grid())
      ensures Done(Replay(false, t), t)
      decreases t
    {
      if t == 0 {
        NothingCopiedYet();
      } else {
        ReplayIsDone(t - 1);
        StepIsDone(t);
      }
    }

    lemma StepIsDone(t: nat)
      requires Valid() && 0 < t <= ElementsIn(Grid()) && Done(Replay(false, t - 1), t - 1)
      ensures Done(Replay(false, t), t)
    {
      ReplayLast(false, t);
      RunIsDone(LastPoint(t), Replay(false, t - 1), t);
    }

    lemma RunIsDone(g: seq<int>, now: seq<T>, next: nat)
      requires Valid() && InRange(g, Grid().dims) && Done(now, next - 1) && next - 1 == Offset(Grid(), g)
      ensures Done(RunOf(now, false, g, size[minor]), next)
    {
      RunsInside(g);
      StridesPositive();
      StridedApart(now, from, Offset(dest, Plus(g, destBase)), Stride(dest, minor),
                   Offset(src, Plus(g, srcBase)), Stride(src, minor), size[minor]);
      RunAdvances(g, now, RunOf(now, false, g, size[minor]));
    }

    lemma StridesPositive()
      requires Valid()
      ensures Stride(dest, minor) > 0 && Stride(src, minor) > 0
    {
      ZeroElements(dest);
      ZeroElements(src);
      StridePositive(dest, minor);
      StridePositive(src, minor);
    }

    lemma SourceInside(i: seq<int>)
      requires Valid() && InRange(i, size)
      ensures 0 <= Offset(src, Plus(i, srcBase)) < |from|
    {
      OffsetBound(src, Plus(i, srcBase));
    }

    lemma NothingCopiedYet()
      requires Valid()
      ensures Done(was, 0)
    {
      forall p | 0 <= p < |was| ensures Cell(p, 0) == was[p] {
        if Touched(p) { OffsetBound(Grid(), Rel(p)[minor := 0]); }
      }
    }

    /** The scan set up by `StrideConfig` runs over the grid, and its points are the indexes. */
    lemma ScanIsGrid(state: ForEachState, step: seq<nat>)
      requires Valid() && state.WellFormed() && state.shape == src
      requires state.base == seq(|size|, _ => 0) && state.count == size && state.incr == step
      requires step == seq(|size|, _ => 1)[minor := size[minor]]
      ensures state.GridShape() == Grid()
      ensures forall g :: InRange(g, Grid().dims) ==> state.Point(g) == g
    {
      assert state.GridShape().dims == Grid().dims;
      forall g | InRange(g, Grid().dims) ensures state.Point(g) == g {
        forall d | 0 <= d < |g| ensures (step[d] as int) * g[d] == g[d] {
          if d == minor { assert g[d] == 0; }
        }
      }
    }

    /** Element `k` of the run at grid point `g`. */
    lemma RunElement(g: seq<int>, k: int)
      requires Valid() && InRange(g, Grid().dims) && 0 <= k < size[minor]
      ensures InRange(g[minor := k], size) && StepOf(g[minor := k]) == Offset(Grid(), g)
      ensures Offset(dest, Plus(g[minor := k], destBase))
           == Slot(Offset(dest, Plus(g, destBase)), Stride(dest, minor), k)
      ensures Offset(src, Plus(g[minor := k], srcBase))
           == Slot(Offset(src, Plus(g, srcBase)), Stride(src, minor), k)
    {
      assert g[minor] == 0 && g[minor := k][minor := 0] == g;
      var dg, sg := Plus(g, destBase), Plus(g, srcBase);
      PlusUpdate(g, destBase, minor, k);
      PlusUpdate(g, srcBase, minor, k);
      OffsetUpdate(dest, dg, minor, dg[minor] + k);
      OffsetUpdate(src, sg, minor, sg[minor] + k);
    }

    lemma RunsInside(g: seq<int>)
      requires Valid() && InRange(g, Grid().dims)
      ensures RunInside(Offset(dest, Plus(g, destBase)), Stride(dest, minor), size[minor], |was|)
      ensures RunInside(Offset(src, Plus(g, srcBase)), Stride(src, minor), size[minor], |from|)
    {
      forall k | 0 <= k < size[minor]
        ensures 0 <= Slot(Offset(dest, Plus(g, destBase)), Stride(dest, minor), k) < |was|
        ensures 0 <= Slot(Offset(src, Plus(g, srcBase)), Stride(src, minor), k) < |from|
      {
        RunElement(g, k);
        OffsetBound(dest, Plus(g[minor := k], destBase));
        SourceInside(g[minor := k]);
      }
    }

    /** A cell belongs to the run at `g` exactly when the run writes it. */
    lemma RunMember(g: seq<int>, p: int, k: int)
      requires Valid() && InRange(g, Grid().dims) && 0 <= p < |was| && 0 <= k < size[minor]
      requires p == Slot(Offset(dest, Plus(g, destBase)), Stride(dest, minor), k)
      ensures Rel(p) == g[minor := k] && Touched(p) && StepOf(Rel(p)) == Offset(Grid(), g)
    {
      RunElement(g, k);
      IndexAtOfOffset(dest, Plus(g[minor := k], destBase));
      PlusMinus(g[minor := k], destBase);
    }

    lemma CellInRun(g: seq<int>, p: int)
      requires Valid() && InRange(g, Grid().dims) && 0 <= p < |was|
      requires Touched(p) && StepOf(Rel(p)) == Offset(Grid(), g)
      ensures Rel(p) == g[minor := Rel(p)[minor]]
      ensures p == Slot(Offset(dest, Plus(g, destBase)), Stride(dest, minor), Rel(p)[minor])
    {
      OffsetInjective(Grid(), Rel(p)[minor := 0], g);
      assert Rel(p) == g[minor := Rel(p)[minor]];
      RunElement(g, Rel(p)[minor]);
      OffsetOfIndexAt(dest, p);
      PlusMinus(IndexAt(dest, p), destBase);
    }

    /** Copying the run at grid point `g` advances every cell by one step. */
    lemma RunAdvances(g: seq<int>, now: seq<T>, next: seq<T>)
      requires Valid() && InRange(g, Grid().dims) && Done(now, Offset(Grid(), g))
      requires RunCopied(now, next, Offset(dest, Plus(g, destBase)), Stride(dest, minor),
                         from, Offset(src, Plus(g, srcBase)), Stride(src, minor), size[minor])
      ensures Done(next, Offset(Grid(), g) + 1)
    {
      var t := Offset(Grid(), g);
      forall p | 0 <= p < |was| ensures next[p] == Cell(p, t + 1) {
        if Touched(p) && StepOf(Rel(p)) == t {
          CellInRun(g, p);
          RunElement(g, Rel(p)[minor]);
        } else {
          forall k | 0 <= k < size[minor]
            ensures p != Slot(Offset(dest, Plus(g, destBase)), Stride(dest, minor), k)
          {
            if p == Slot(Offset(dest, Plus(g, destBase)), Stride(dest, minor), k) { RunMember(g, p, k); }
          }
        }
      }
    }

    /** After the last run the whole window is copied and nothing else has changed. */
    lemma CopyComplete(buffer: seq<T>, index: seq<int>)
      requires Valid() && Done(buffer, ElementsIn(Grid())) && InRange(index, dest.dims)
      ensures 0 <= Offset(dest, index) < |was|
      ensures InWindow(index, destBase, size) ==>
                InRange(Plus(Minus(index, destBase), srcBase), src.dims)
      ensures InWindow(index, destBase, size) ==>
                0 <= Offset(src, Plus(Minus(index, destBase), srcBase)) < |from|
      ensures buffer[Offset(dest, index)] ==
                if InWindow(index, destBase, size) then from[Offset(src, Plus(Minus(index, destBase), srcBase))]
                else was[Offset(dest, index)]
    {
      OffsetBound(dest, index);
      IndexAtOfOffset(dest, index);
      var p := Offset(dest, index);
      assert Rel(p) == Minus(index, destBase);
      if Touched(p) {
        SourceInside(Rel(p));
        OffsetBound(Grid(), Rel(p)[minor := 0]);
      }
    }
  }
}
