/** Filling a literal from a generator, in one scan or in parallel chunks
    (xla/literal.cc `PopulateInplaceInternal`). */
module Populate {
  import opened Arithmetic
  import opened MixedRadix
  import opened Permutations
  import opened Layouts
  import opened IndexUtil
  import opened ForEachIndex
  import opened Literals
  import opened CopySlice

  /** One invocation of the generator: the address it fills and the index it is given. */
  datatype Call = Call(address: int, index: seq<int>)

  /** One call per cell, each with the cell's own index, in address order. */
  ghost function OneCallPerCell(sh: Shape): (calls: seq<Call>)
    requires sh.Valid()
    ensures |calls| == ElementsIn(sh)
  {
    seq(ElementsIn(sh), p requires 0 <= p < ElementsIn(sh) =>
      OffsetOfIndexAt(sh, p);
      Call(p, IndexAt(sh, p)))
  }

  /** How the buffer is cut: `size` consecutive cells per visit along the minor dimension,
      either all of it or, for vectors, any chunk size. */
  ghost predicate Cut(sh: Shape, size: nat) {
    && sh.Valid() && |sh.dims| > 0 && size > 0 && ElementsIn(sh) > 0
    && (size == sh.dims[sh.minorToMajor[0]] || |sh.dims| == 1)
  }

  ghost function RunStart(sh: Shape, size: nat, t: int): int { Min(t * size, ElementsIn(sh)) }

  ghost function StepVector(sh: Shape, size: nat): (step: seq<nat>)
    requires Cut(sh, size)
    ensures |step| == |sh.dims| && forall d :: 0 <= d < |step| ==> step[d] > 0
  {
    seq(|sh.dims|, _ => 1)[sh.minorToMajor[0] := size]
  }

  ghost predicate IsScan(state: ForEachState, sh: Shape, size: nat) {
    && Cut(sh, size) && state.WellFormed() && state.shape == sh
    && state.base == seq(|sh.dims|, _ => 0) && state.count == sh.dims && state.incr == StepVector(sh, size)
  }

  /** The point of a visit, in the order of the layout: scaled in the minor dimension, the
      grid's own digits in the others. */
  lemma VisitDigits(state: ForEachState, sh: Shape, size: nat, g: seq<int>)
    requires IsScan(state, sh, size) && InRange(g, state.GridShape().dims)
    ensures
      var a, b := Gather(state.Point(g), sh.minorToMajor), Gather(g, sh.minorToMajor);
      && a[0] == size * b[0] && a[1..] == b[1..] && Radices(sh)[1..] == Radices(state.GridShape())[1..]
      && Radices(sh)[0] == sh.dims[sh.minorToMajor[0]]
      && Radices(state.GridShape())[0] == StepsAlong(sh.dims[sh.minorToMajor[0]], size)
  {
    var m := sh.minorToMajor;
    var x, gs := state.Point(g), state.GridShape();
    ZeroElements(sh);
    forall d | 0 <= d < |g| && d != m[0] ensures x[d] == g[d] && gs.dims[d] == sh.dims[d] {}
    var a, b := Gather(x, m), Gather(g, m);
    forall k | 1 <= k < |m| ensures a[k] == b[k] && Radices(sh)[k] == Radices(gs)[k] { assert m[k] != m[0]; }
  }

  lemma ScaledDigit(size: int, g: int, v: int)
    ensures size * g + size * v == (g + v) * size
  {}

  lemma WholeRun(dim: nat)
    requires dim > 0
    ensures StepsAlong(dim, dim) == 1
  {
    assert (dim - 1) / dim == 0;
  }

  /** Visit number `t` starts at cell `t * size`: the runs tile the buffer in order. */
  lemma VisitOffset(state: ForEachState, sh: Shape, size: nat, g: seq<int>)
    requires IsScan(state, sh, size) && InRange(g, state.GridShape().dims)
    ensures Offset(sh, state.Point(g)) == Offset(state.GridShape(), g) * size
    ensures state.Point(g)[sh.minorToMajor[0]] == size * g[sh.minorToMajor[0]]
    ensures |sh.dims| > 1 ==> g[sh.minorToMajor[0]] == 0
    ensures InRange(state.Point(g), sh.dims)
  {
    var m, dim := sh.minorToMajor, sh.dims[sh.minorToMajor[0]];
    VisitDigits(state, sh, size, g);
    ZeroElements(sh);
    var v := Value(Gather(g, m)[1..], Radices(sh)[1..]);
    assert Offset(sh, state.Point(g)) == size * g[m[0]] + dim * v;
    assert Offset(state.GridShape(), g) == g[m[0]] + StepsAlong(dim, size) * v;
    if size == dim {
      WholeRun(dim);
      ScaledDigit(size, g[m[0]], v);
    } else {
      assert v == 0;
      ScaledDigit(size, g[m[0]], 0);
      ChunkInside(dim, size, g[m[0]]);
    }
    VisitInRange(state, sh, size, g);
  }

  lemma VisitInRange(state: ForEachState, sh: Shape, size: nat, g: seq<int>)
    requires IsScan(state, sh, size) && InRange(g, state.GridShape().dims)
    ensures InRange(state.Point(g), sh.dims) && (|sh.dims| > 1 ==> g[sh.minorToMajor[0]] == 0)
  {
    var m, x := sh.minorToMajor, state.Point(g);
    ZeroElements(sh);
    ChunkInside(sh.dims[m[0]], size, g[m[0]]);
    if size == sh.dims[m[0]] { WholeRun(size); }
    forall d | 0 <= d < |g| ensures 0 <= x[d] < sh.dims[d] {
      if d != m[0] { assert x[d] == g[d]; }
    }
  }

  lemma ChunkInside(count: nat, incr: nat, g: int)
    requires count > 0 && incr > 0 && 0 <= g < StepsAlong(count, incr)
    ensures 0 <= incr * g < count
  {
    MulLe(incr, g, (count - 1) / incr);
    MulLe(incr, 0, g);
  }

  lemma StepsReachCount(count: nat, incr: nat)
    requires incr > 0
    ensures StepsAlong(count, incr) * incr >= count
  {
    if count > 0 {
      var q := (count - 1) / incr;
      assert count - 1 == incr * q + (count - 1) % incr;
      assert (1 + q) * incr == incr + incr * q;
    }
  }

  lemma ScaledProduct(rest: nat, n: nat, size: nat, dim: nat)
    requires n * size >= dim
    ensures n * rest * size >= dim * rest
  {
    MulLe(rest, dim, n * size);
    assert n * rest * size == rest * (n * size);
  }

  lemma GridSize(state: ForEachState, sh: Shape, size: nat)
    requires IsScan(state, sh, size)
    ensures
      var dim, rest := sh.dims[sh.minorToMajor[0]], Product(Radices(sh)[1..]);
      ElementsIn(sh) == dim * rest && ElementsIn(state.GridShape()) == StepsAlong(dim, size) * rest
  {
    var gs, m := state.GridShape(), sh.minorToMajor;
    ProductGather(sh.dims, m);
    ProductGather(gs.dims, m);
    var r, s := Radices(sh), Radices(gs);
    ZeroElements(sh);
    forall k | 1 <= k < |m| ensures r[k] == s[k] { assert m[k] != m[0]; }
    assert r[1..] == s[1..];
  }

  /** The visits reach the end of the buffer, also when the chunk does not divide it. */
  lemma VisitsCover(state: ForEachState, sh: Shape, size: nat)
    requires IsScan(state, sh, size)
    ensures RunStart(sh, size, ElementsIn(state.GridShape())) == ElementsIn(sh)
  {
    var dim := sh.dims[sh.minorToMajor[0]];
    GridSize(state, sh, size);
    StepsReachCount(dim, size);
    ScaledProduct(Product(Radices(sh)[1..]), StepsAlong(dim, size), size, dim);
  }

  /** Along the minor dimension, consecutive cells have consecutive indices. */
  lemma NextCell(sh: Shape, x: seq<int>, k: int)
    requires sh.Valid() && |sh.dims| > 0 && InRange(x, sh.dims)
    requires 0 <= k && x[sh.minorToMajor[0]] + k < sh.dims[sh.minorToMajor[0]]
    ensures 0 <= Offset(sh, x) + k < ElementsIn(sh)
    ensures OneCallPerCell(sh)[Offset(sh, x) + k] == Call(Offset(sh, x) + k, x[sh.minorToMajor[0] := x[sh.minorToMajor[0]] + k])
  {
    var minor := sh.minorToMajor[0];
    var y := x[minor := x[minor] + k];
    OffsetUpdate(sh, x, minor, x[minor] + k);
    StrideOfMinor(sh);
    OffsetBound(sh, y);
    IndexAtOfOffset(sh, y);
  }

  /** `indexes` is where visit `t` starts, and its run stays within one minor row. */
  ghost predicate IsVisit(sh: Shape, size: nat, indexes: seq<int>, t: int) {
    && Cut(sh, size) && InRange(indexes, sh.dims) && t >= 0
    && Offset(sh, indexes) == RunStart(sh, size, t) < ElementsIn(sh)
    && RunStart(sh, size, t + 1) == Min(RunStart(sh, size, t) + size, ElementsIn(sh))
    && RunStart(sh, size, t + 1) - RunStart(sh, size, t)
         <= sh.dims[sh.minorToMajor[0]] - indexes[sh.minorToMajor[0]]
  }

  lemma RunStartStep(sh: Shape, size: nat, t: nat)
    requires t * size < ElementsIn(sh)
    ensures RunStart(sh, size, t + 1) == Min(t * size + size, ElementsIn(sh))
  {
    assert (t + 1) * size == t * size + size;
  }

  lemma ScanVisits(state: ForEachState, sh: Shape, size: nat, g: seq<int>)
    requires IsScan(state, sh, size) && InRange(g, state.GridShape().dims)
    ensures IsVisit(sh, size, state.Point(g), Offset(state.GridShape(), g))
  {
    var x, t := state.Point(g), Offset(state.GridShape(), g);
    VisitOffset(state, sh, size, g);
    OffsetBound(state.GridShape(), g);
    OffsetBound(sh, x);
    RunStartStep(sh, size, t);
    if |sh.dims| == 1 { VectorOffset(sh, x); }
  }

  /** The cells of visit `t` hold generated values and the others are untouched. */
  ghost predicate RunFilled<T>(sh: Shape, size: nat, t: int, generator: seq<int> -> T, was: seq<T>, now: seq<T>) {
    && sh.Valid() && |now| == |was| == ElementsIn(sh)
    && forall p :: 0 <= p < |now| ==>
         now[p] == if RunStart(sh, size, t) <= p < RunStart(sh, size, t + 1)
                   then generator(OneCallPerCell(sh)[p].index) else was[p]
  }

  lemma SliceSnoc<A>(s: seq<A>, a: nat, b: nat)
    requires a <= b < |s|
    ensures s[a..b] + [s[b]] == s[a..b + 1]
  {}

  /** The visitor: fills one run, calling the generator with a scanning index. */
  method InitFunction<T>(sh: Shape, data: array<T>, generator: seq<int> -> T, indexes: seq<int>, size: nat, ghost t: int)
    returns (calls: seq<Call>)
    requires data.Length == ElementsIn(sh) && IsVisit(sh, size, indexes, t)
    modifies data
    ensures calls == OneCallPerCell(sh)[RunStart(sh, size, t)..RunStart(sh, size, t + 1)]
    ensures RunFilled(sh, size, t, generator, old(data[..]), data[..])
  {
    var index := MultidimensionalIndexToLinearIndex(sh, indexes);
    var minor := sh.minorToMajor[0];
    var scan := indexes;
    calls := [];
    var dest := index;
    var end := Min(index + size, data.Length);
    ghost var all := OneCallPerCell(sh);
    while dest < end
      invariant index <= dest <= end
      invariant scan == indexes[minor := indexes[minor] + (dest - index)]
      invariant calls == all[index..dest]
      invariant forall p :: 0 <= p < data.Length ==>
                  data[p] == if index <= p < dest then generator(all[p].index) else old(data[p])
    {
      NextCell(sh, indexes, dest - index);
      SliceSnoc(all, index, dest);
      calls := calls + [Call(dest, scan)];
      data[dest] := generator(scan);
      scan := scan[minor := scan[minor] + 1];
      dest := dest + 1;
    }
  }

  method StepFor(sh: Shape, size: nat) returns (step: seq<nat>)
    requires Cut(sh, size)
    ensures step == StepVector(sh, size)
  {
    step := seq(|sh.dims|, _ => 1);
    step := step[sh.minorToMajor[0] := size];
  }

  /** The sequential scan: cells are filled in address order, each by exactly one call. */
  method PopulateInplace<T(0)>(literal: Literal<T>, generator: seq<int> -> T) returns (calls: seq<Call>)
    requires literal.Valid()
    modifies literal.data
    ensures literal.Valid() && calls == OneCallPerCell(literal.shape)
    ensures forall index :: InRange(index, literal.shape.dims) ==> literal.At(index) == generator(index)
  {
    var sh := literal.shape;
    ZeroElements(sh);
    calls := [];
    if |sh.dims| == 0 {
      literal.data[0] := generator([]);
      calls := [Call(0, [])];
      assert calls == OneCallPerCell(sh);
    } else if !sh.IsZeroElementArray() {
      var config := MakeStrideConfig(sh, sh, sh.dims);
      var state := new ForEachState(sh, seq(|sh.dims|, _ => 0), sh.dims, config.step);
      calls := Scan(sh, literal.data, generator, state, config.minorLoopSize);
    }
    CellsGenerated(literal, generator);
  }

  lemma CellsGenerated<T(0)>(literal: Literal<T>, generator: seq<int> -> T)
    requires literal.Valid()
    requires forall p :: 0 <= p < literal.data.Length ==>
               literal.data[p] == generator(OneCallPerCell(literal.shape)[p].index)
    ensures forall index :: InRange(index, literal.shape.dims) ==> literal.At(index) == generator(index)
  {
    forall index | InRange(index, literal.shape.dims) ensures literal.At(index) == generator(index) {
      OffsetBound(literal.shape, index);
      IndexAtOfOffset(literal.shape, index);
    }
  }

  /** After `t` visits in order: the first runs are filled, by their own calls only. */
  ghost predicate Progress<T>(sh: Shape, size: nat, t: int, generator: seq<int> -> T, data: seq<T>, calls: seq<Call>) {
    && sh.Valid() && |data| == ElementsIn(sh) && 0 <= RunStart(sh, size, t)
    && calls == OneCallPerCell(sh)[..RunStart(sh, size, t)]
    && forall p :: 0 <= p < RunStart(sh, size, t) ==> data[p] == generator(OneCallPerCell(sh)[p].index)
  }

  lemma ProgressStep<T>(sh: Shape, size: nat, t: int, generator: seq<int> -> T, was: seq<T>, now: seq<T>, calls: seq<Call>)
    requires Progress(sh, size, t, generator, was, calls) && RunFilled(sh, size, t, generator, was, now)
    requires RunStart(sh, size, t) <= RunStart(sh, size, t + 1)
    ensures Progress(sh, size, t + 1, generator, now,
                     calls + OneCallPerCell(sh)[RunStart(sh, size, t)..RunStart(sh, size, t + 1)])
  {}

  method Scan<T>(sh: Shape, data: array<T>, generator: seq<int> -> T, state: ForEachState, size: nat)
    returns (calls: seq<Call>)
    requires state.Valid() && state.StepNumber() == 0 && IsScan(state, sh, size) && data.Length == ElementsIn(sh)
    requires (data as object) != state.indexes
    modifies data, state, state.indexes
    ensures calls == OneCallPerCell(sh)
    ensures forall p :: 0 <= p < data.Length ==> data[p] == generator(OneCallPerCell(sh)[p].index)
  {
    calls := [];
    ghost var total := ElementsIn(state.GridShape());
    ghost var t := 0;
    var n := -1;
    while n < |sh.dims|
      invariant -1 <= n <= |sh.dims| && 0 <= t <= total && state.Valid()
      invariant if n < |sh.dims| then t == state.StepNumber() else t == total
      invariant Progress(sh, size, t, generator, data[..], calls)
      decreases total - t, if n < |sh.dims| then 1 else 0
    {
      ScanVisits(state, sh, size, state.grid);
      OffsetBound(state.GridShape(), state.grid);
      ghost var was := data[..];
      var run := InitFunction(sh, data, generator, state.indexes[..], size, t);
      ProgressStep(sh, size, t, generator, was, data[..], calls);
      calls := calls + run;
      n := state.IncrementDim();
      t := t + 1;
    }
    VisitsCover(state, sh, size);
  }

  // ---- parallel ----

  /** Exactly the cells whose visit is no longer pending are filled, each by one call of its own. */
  ghost predicate ParallelProgress<T>(sh: Shape, size: nat, pending: set<int>, generator: seq<int> -> T, data: seq<T>, calls: seq<Call>) {
    && sh.Valid() && size > 0 && |data| == ElementsIn(sh)
    && (forall c :: c in calls ==> 0 <= c.address < |data| && c == OneCallPerCell(sh)[c.address])
    && forall p :: 0 <= p < |data| ==>
         if p / size in pending then multiset(calls)[OneCallPerCell(sh)[p]] == 0
         else multiset(calls)[OneCallPerCell(sh)[p]] == 1 && data[p] == generator(OneCallPerCell(sh)[p].index)
  }

  lemma RunOf(sh: Shape, size: nat, t: int, p: int)
    requires size > 0 && 0 <= p < ElementsIn(sh)
    ensures RunStart(sh, size, t) <= p < RunStart(sh, size, t + 1) <==> p / size == t
  {
    assert p == size * (p / size) + p % size;
    assert (t + 1) * size == t * size + size;
    if p / size < t { MulLe(size, p / size + 1, t); }
    if t < p / size { MulLe(size, t + 1, p / size); }
  }

  /** The calls of one run, counted: one for each of its cells. */
  lemma {:induction false} CallsInRun(sh: Shape, a: nat, b: nat, p: nat)
    requires sh.Valid() && a <= b <= ElementsIn(sh) && p < ElementsIn(sh)
    ensures multiset(OneCallPerCell(sh)[a..b])[OneCallPerCell(sh)[p]] == if a <= p < b then 1 else 0
    decreases b - a
  {
    if a < b {
      var all := OneCallPerCell(sh);
      assert all[a..b] == [all[a]] + all[a + 1..b];
      CallsInRun(sh, a + 1, b, p);
      assert all[a].address == a && all[p].address == p;
    }
  }

  lemma ParallelStep<T>(sh: Shape, size: nat, pending: set<int>, t: int, generator: seq<int> -> T, was: seq<T>, now: seq<T>, calls: seq<Call>)
    requires ParallelProgress(sh, size, pending, generator, was, calls) && t in pending && t >= 0
    requires RunFilled(sh, size, t, generator, was, now) && 0 <= RunStart(sh, size, t) <= RunStart(sh, size, t + 1)
    ensures ParallelProgress(sh, size, pending - {t}, generator, now,
                             calls + OneCallPerCell(sh)[RunStart(sh, size, t)..RunStart(sh, size, t + 1)])
  {
    var all := OneCallPerCell(sh);
    var run := all[RunStart(sh, size, t)..RunStart(sh, size, t + 1)];
    forall p | 0 <= p < |now|
      ensures multiset(calls + run)[all[p]] == multiset(calls)[all[p]] + if p / size == t then 1 else 0
      ensures now[p] == if p / size == t then generator(all[p].index) else was[p]
    {
      RunOf(sh, size, t, p);
      CallsInRun(sh, RunStart(sh, size, t), RunStart(sh, size, t + 1), p);
    }
  }

  lemma OwnerBelow(sh: Shape, size: nat, total: nat, p: int)
    requires size > 0 && RunStart(sh, size, total) == ElementsIn(sh) && 0 <= p < ElementsIn(sh)
    ensures 0 <= p / size < total
  {
    DivBound(p, size, total);
  }

  lemma AllPending<T>(sh: Shape, size: nat, total: nat, generator: seq<int> -> T, data: seq<T>)
    requires Cut(sh, size) && |data| == ElementsIn(sh) && RunStart(sh, size, total) == ElementsIn(sh)
    ensures ParallelProgress(sh, size, Below(total), generator, data, [])
  {
    forall p | 0 <= p < |data| ensures p / size in Below(total) {
      OwnerBelow(sh, size, total, p);
    }
  }

  /** Every cell was filled by exactly one call, made with the cell's own index. */
  ghost predicate ExactlyOnce(sh: Shape, calls: seq<Call>)
    requires sh.Valid()
  {
    && (forall c :: c in calls ==> 0 <= c.address < ElementsIn(sh) && c == OneCallPerCell(sh)[c.address])
    && forall p :: 0 <= p < ElementsIn(sh) ==> multiset(calls)[OneCallPerCell(sh)[p]] == 1
  }

  lemma OneCallPerCellIsExact(sh: Shape)
    requires sh.Valid()
    ensures ExactlyOnce(sh, OneCallPerCell(sh))
  {
    var all := OneCallPerCell(sh);
    assert all == all[0..|all|];
    forall p | 0 <= p < |all| ensures multiset(all)[all[p]] == 1 { CallsInRun(sh, 0, |all|, p); }
  }

  /** The scheduling loop: one task per visit, each with its own copy of the indexes. */
  method Schedule(sh: Shape, state: ForEachState, size: nat) returns (tasks: seq<seq<int>>)
    requires state.Valid() && state.StepNumber() == 0 && IsScan(state, sh, size)
    modifies state, state.indexes
    ensures |tasks| == ElementsIn(state.GridShape())
    ensures forall t :: 0 <= t < |tasks| ==> IsVisit(sh, size, tasks[t], t)
  {
    tasks := [];
    ghost var total := ElementsIn(state.GridShape());
    var n := -1;
    while n < |sh.dims|
      invariant -1 <= n <= |sh.dims| && |tasks| <= total && state.Valid()
      invariant if n < |sh.dims| then |tasks| == state.StepNumber() else |tasks| == total
      invariant forall t :: 0 <= t < |tasks| ==> IsVisit(sh, size, tasks[t], t)
      decreases total - |tasks|, if n < |sh.dims| then 1 else 0
    {
      ScanVisits(state, sh, size, state.grid);
      OffsetBound(state.GridShape(), state.grid);
      tasks := tasks + [state.indexes[..]];
      n := state.IncrementDim();
    }
  }

  /** The tasks run in an order the caller does not control. */
  method RunTasks<T>(sh: Shape, data: array<T>, generator: seq<int> -> T, tasks: seq<seq<int>>, size: nat)
    returns (calls: seq<Call>)
    requires Cut(sh, size) && data.Length == ElementsIn(sh) && RunStart(sh, size, |tasks|) == ElementsIn(sh)
    requires forall t :: 0 <= t < |tasks| ==> IsVisit(sh, size, tasks[t], t)
    modifies data
    ensures ParallelProgress(sh, size, {}, generator, data[..], calls)
  {
    calls := [];
    var pending := Below(|tasks|);
    AllPending(sh, size, |tasks|, generator, data[..]);
    while pending != {}
      invariant pending <= Below(|tasks|) && ParallelProgress(sh, size, pending, generator, data[..], calls)
      decreases pending
    {
      var t :| t in pending;
      calls := RunTask(sh, data, generator, tasks[t], size, t, pending, calls);
      pending := pending - {t};
    }
  }

  method RunTask<T>(sh: Shape, data: array<T>, generator: seq<int> -> T, indexes: seq<int>, size: nat,
                    ghost t: int, ghost pending: set<int>, before: seq<Call>)
    returns (calls: seq<Call>)
    requires data.Length == ElementsIn(sh) && IsVisit(sh, size, indexes, t) && t in pending
    requires ParallelProgress(sh, size, pending, generator, data[..], before)
    modifies data
    ensures ParallelProgress(sh, size, pending - {t}, generator, data[..], calls)
  {
    ghost var was := data[..];
    var run := InitFunction(sh, data, generator, indexes, size, t);
    ParallelStep(sh, size, pending, t, generator, was, data[..], before);
    calls := before + run;
  }

  /** For vectors the buffer is cut by thread count; otherwise into rows of the minor dimension. */
  method ChunkSize(sh: Shape, threadCount: nat) returns (size: nat)
    requires sh.Valid() && |sh.dims| > 0 && ElementsIn(sh) > 0 && threadCount > 0
    ensures Cut(sh, size)
  {
    var num := ElementsIn(sh);
    ZeroElements(sh);
    if |sh.dims| == 1 {
      VectorOffset(sh, sh.dims);
      size := if num > 32 then (if num / threadCount < 1 then 1 else num / threadCount) else num;
    } else {
      var config := MakeStrideConfig(sh, sh, sh.dims);
      size := config.minorLoopSize;
    }
  }

  method PopulateInplaceParallel<T(0)>(literal: Literal<T>, generator: seq<int> -> T, threadCount: nat)
    returns (calls: seq<Call>)
    requires literal.Valid() && threadCount > 0
    modifies literal.data
    ensures literal.Valid() && ExactlyOnce(literal.shape, calls)
    ensures forall index :: InRange(index, literal.shape.dims) ==> literal.At(index) == generator(index)
  {
    var sh := literal.shape;
    if literal.data.Length <= 32 || |sh.dims| == 0 {
      calls := PopulateInplace(literal, generator);
      OneCallPerCellIsExact(sh);
      return;
    }
    ZeroElements(sh);
    var size := ChunkSize(sh, threadCount);
    var step := StepFor(sh, size);
    var state := new ForEachState(sh, seq(|sh.dims|, _ => 0), sh.dims, step);
    VisitsCover(state, sh, size);
    var tasks := Schedule(sh, state, size);
    calls := RunTasks(sh, literal.data, generator, tasks, size);
    CellsGenerated(literal, generator);
  }
}
