/** The iteration state behind `ShapeUtil::ForEachIndex` (xla/shape_util.h, xla/shape_util.cc):
    an odometer that walks base, base + incr, ... in minor-to-major order. */
module ForEachIndex {
  import opened MixedRadix
  import opened Layouts
  import opened IndexUtil

  /** Visits along one dimension; a zero count stands for a fixed dimension. */
  function StepsAlong(count: nat, incr: nat): (n: nat)
    requires incr > 0
    ensures n > 0
  {
    if count == 0 then 1 else 1 + (count - 1) / incr
  }

  lemma StepTest(count: nat, incr: nat, g: int)
    requires incr > 0 && 0 <= g < StepsAlong(count, incr)
    ensures incr * g + incr < count <==> g + 1 < StepsAlong(count, incr)
  {
    if count > 0 {
      var q := (count - 1) / incr;
      assert count - 1 == incr * q + (count - 1) % incr;
      if g + 1 <= q { MulLe(incr, g + 1, q); }
      if q < g + 1 { MulLe(incr, q + 1, g + 1); }
    }
  }

  /** The multiples of the increment below the count are visited, and the base always. */
  lemma {:induction false} StepsExactly(count: nat, incr: nat, g: nat)
    requires incr > 0
    ensures g < StepsAlong(count, incr) <==> g == 0 || incr * g < count
  {
    if count > 0 {
      var q := (count - 1) / incr;
      assert count - 1 == incr * q + (count - 1) % incr;
      if g <= q { MulLe(incr, g, q); } else { MulLe(incr, q + 1, g); }
    } else {
      MulLe(incr, 0, g);
    }
  }

  class ForEachState {
    const shape: Shape
    const base: seq<int>
    const count: seq<nat>
    const incr: seq<nat>
    const indexes: array<int>
    ghost var grid: seq<int>  // how many increments each dimension is past its base

    ghost predicate WellFormed() {
      && shape.Valid()
      && |base| == |count| == |incr| == indexes.Length == |shape.dims|
      && forall d :: 0 <= d < |incr| ==> incr[d] > 0
    }

    /** The grid of visited points, as a shape of its own with the same layout. */
    ghost function GridShape(): (g: Shape)
      requires WellFormed()
      ensures g.Valid()
    {
      Shape(seq(|count|, d requires 0 <= d < |count| => StepsAlong(count[d], incr[d])),
            shape.minorToMajor, shape.dynamic)
    }

    /** The index vector at a grid position. */
    ghost function Point(g: seq<int>): (p: seq<int>)
      requires WellFormed() && |g| == |base|
      ensures |p| == |base|
    {
      seq(|base|, d requires 0 <= d < |base| => base[d] + incr[d] * g[d])
    }

    ghost predicate Valid()
      reads this, indexes
    {
      && WellFormed()
      && InRange(grid, GridShape().dims)
      && indexes[..] == Point(grid)
    }

    /** The number of points visited before the current one. */
    ghost function StepNumber(): int
      requires Valid()
      reads this, indexes
    {
      Offset(GridShape(), grid)
    }

    constructor (shape: Shape, base: seq<int>, count: seq<nat>, incr: seq<nat>)
      requires shape.Valid() && |base| == |count| == |incr| == |shape.dims|
      requires forall d :: 0 <= d < |incr| ==> incr[d] > 0
      ensures Valid() && fresh(indexes) && StepNumber() == 0
      ensures this.shape == shape && this.base == base && this.count == count && this.incr == incr
    {
      this.shape, this.base, this.count, this.incr := shape, base, count, incr;
      indexes := new int[|base|](i requires 0 <= i < |base| => base[i]);
      grid := seq(|base|, _ => 0);
      new;
      OffsetOfOrigin(GridShape(), grid);
    }

    lemma PointMoves(g: seq<int>, k: nat)
      requires WellFormed() && |g| == |base| && k < |g|
      ensures
        var dim, p := shape.minorToMajor[k], Point(ZeroLow(GridShape(), g, k));
        && p[dim] == base[dim] + incr[dim] * g[dim]
        && Point(Bumped(GridShape(), g, k)) == p[dim := p[dim] + incr[dim]]
        && Point(ZeroLow(GridShape(), g, k + 1)) == p[dim := base[dim]]
    {
      var dim := shape.minorToMajor[k];
      ZeroLowStep(GridShape(), g, k);
      MulDistribute(incr[dim], g[dim], 1, 1);
    }

    /** Moves to the next point in minor-to-major order and returns how many dimensions
        wrapped; `rank` means that every point has been visited. */
    method IncrementDim() returns (n: int)
      requires Valid()
      modifies this, indexes
      ensures Valid() && 0 <= n <= |base|
      ensures n < |base| <==> old(StepNumber()) + 1 < ElementsIn(GridShape())
      ensures n < |base| ==> StepNumber() == old(StepNumber()) + 1
      ensures n == |base| ==> StepNumber() == 0
    {
      n := 0;
      ghost var gs := GridShape();
      while n < |base|
        invariant 0 <= n <= |base|
        invariant unchanged(this) && LowMaxed(gs, grid, n)
        invariant indexes[..] == Point(ZeroLow(gs, grid, n))
      {
        var dim := shape.minorToMajor[n];
        StepTest(count[dim], incr[dim], grid[dim]);
        PointMoves(grid, n);
        indexes[dim] := indexes[dim] + incr[dim];
        if indexes[dim] < base[dim] + count[dim] {
          Successor(gs, grid, n);
          grid := Bumped(gs, grid, n);
          return;
        }
        indexes[dim] := base[dim];
        n := n + 1;
      }
      LastIndex(gs, grid);
      grid := ZeroLow(gs, grid, n);
      OffsetOfOrigin(gs, grid);
    }

    /** The task count announced before a parallel scan is the number of points that
        the `IncrementDim` loop then schedules. */
    method CalculateNumSteps() returns (size: nat)
      requires Valid()
      ensures size == if shape.IsZeroElementArray() then 0 else ElementsIn(GridShape())
    {
      if exists d :: 0 <= d < |shape.dims| && shape.dims[d] == 0 { return 0; }
      size := 1;
      ghost var s := GridShape().dims;
      for i := 0 to |count|
        invariant size == Product(s[..i])
      {
        ProductStep(s, i);
        if count[i] == 0 { continue; }
        var dim := 1 + (count[i] - 1) / incr[i];
        size := size * dim;
      }
      assert s[..|count|] == s;
    }
  }
}
