/** Slice copies between literals and within one literal (xla/literal.cc `CopySliceFrom`):
    when overlapping windows are copied right, and the method itself. */
module SliceCopies {
  import opened MixedRadix
  import opened Permutations
  import opened Layouts
  import opened IndexUtil
  import opened ForEachIndex
  import opened Literals
  import opened CopySlice

  // ---- copies within one buffer ----

  /** Window index `j` is copied before window index `i`: runs in grid order, then along the run. */
  ghost predicate Earlier<T>(job: Job<T>, j: seq<int>, i: seq<int>)
    requires job.Valid() && |i| == |j| == |job.size|
  {
    job.StepOf(j) < job.StepOf(i) || (job.StepOf(j) == job.StepOf(i) && j[job.minor] < i[job.minor])
  }

  /** The cell that index `j` writes is the cell that index `i` reads. */
  ghost predicate Overwrites<T>(job: Job<T>, j: seq<int>, i: seq<int>)
    requires job.Valid()
  {
    && InRange(i, job.size) && InRange(j, job.size)
    && Offset(job.dest, Plus(j, job.destBase)) == Offset(job.src, Plus(i, job.srcBase))
  }

  /** No cell is overwritten before it is read. */
  ghost predicate Safe<T>(job: Job<T>)
    requires job.Valid()
  {
    forall i, j :: Overwrites(job, j, i) ==> !Earlier(job, j, i)
  }

  /** The cell that element `k` of the run at `g` reads still holds its first value. */
  lemma {:induction false} ReadsFirstValue<T>(job: Job<T>, g: seq<int>, now: seq<T>, k: nat)
    requires job.Runnable(true) && Safe(job) && InRange(g, job.Grid().dims) && k < job.size[job.minor]
    requires job.Done(now, Offset(job.Grid(), g))
    ensures
      var s := Offset(job.src, Plus(g[job.minor := k], job.srcBase));
      && 0 <= s < |job.was| && job.RunOf(now, false, g, k)[s] == job.from[s]
  {
    var i := g[job.minor := k];
    job.RunElement(g, k);
    job.SourceInside(i);
    var s := Offset(job.src, Plus(i, job.srcBase));
    OffsetOfIndexAt(job.dest, s);
    PlusMinus(IndexAt(job.dest, s), job.destBase);
    var j := job.Rel(s);
    if job.Touched(s) {
      assert Overwrites(job, j, i) && !Earlier(job, j, i);
      assert i[job.minor] == k;
    }
    AheadIsNotReached(job, g, k, s);
    NotYetWritten(job, g, now, k, s);
    UntouchedBefore(job, g, now, s);
  }

  lemma {:induction false} WrittenByElement<T>(job: Job<T>, g: seq<int>, k: nat, s: int)
    requires job.Valid() && InRange(g, job.Grid().dims) && k < job.size[job.minor] && 0 <= s < |job.was|
    requires s == Offset(job.dest, Plus(g[job.minor := k], job.destBase))
    ensures job.Touched(s) && job.StepOf(job.Rel(s)) == Offset(job.Grid(), g) && job.Rel(s)[job.minor] == k
  {
    job.RunElement(g, k);
    job.RunMember(g, s, k);
  }

  lemma {:induction false} OtherElement<T>(job: Job<T>, g: seq<int>, k: nat, s: int)
    requires job.Valid() && InRange(g, job.Grid().dims) && k < job.size[job.minor] && 0 <= s < |job.was|
    requires job.Touched(s) ==> job.StepOf(job.Rel(s)) != Offset(job.Grid(), g) || job.Rel(s)[job.minor] != k
    ensures s != Offset(job.dest, Plus(g[job.minor := k], job.destBase))
  {
    if s == Offset(job.dest, Plus(g[job.minor := k], job.destBase)) { WrittenByElement(job, g, k, s); }
  }

  lemma {:induction false} KeptByElement<T>(job: Job<T>, g: seq<int>, now: seq<T>, k: nat, s: int)
    requires job.Valid() && |now| == |job.was| && InRange(g, job.Grid().dims) && 0 < k <= job.size[job.minor]
    requires 0 <= s < |now| && s != Offset(job.dest, Plus(g[job.minor := k - 1], job.destBase))
    ensures job.RunOf(now, false, g, k)[s] == job.RunOf(now, false, g, k - 1)[s]
  {
    job.RunLast(now, false, g, k);
  }

  /** The run at `g` has not reached cell `s` after `k` elements. */
  ghost predicate Ahead<T>(job: Job<T>, g: seq<int>, k: nat, s: int)
    requires job.Valid() && InRange(g, job.Grid().dims) && 0 <= s < |job.was|
  {
    job.Touched(s) ==>
      job.StepOf(job.Rel(s)) > Offset(job.Grid(), g)
      || (job.StepOf(job.Rel(s)) == Offset(job.Grid(), g) && job.Rel(s)[job.minor] >= k)
  }

  lemma {:induction false} UntouchedBefore<T>(job: Job<T>, g: seq<int>, now: seq<T>, s: int)
    requires job.Valid() && InRange(g, job.Grid().dims) && 0 <= s < |job.was| && Ahead(job, g, 0, s)
    requires job.Done(now, Offset(job.Grid(), g))
    ensures now[s] == job.was[s]
  {}

  ghost function ElementCell<T>(job: Job<T>, g: seq<int>, e: nat): int
    requires job.Valid() && |g| == |job.size|
  {
    Offset(job.dest, Plus(g[job.minor := e], job.destBase))
  }

  ghost predicate NotReached<T>(job: Job<T>, g: seq<int>, k: nat, s: int)
    requires job.Valid() && InRange(g, job.Grid().dims) && k <= job.size[job.minor]
  {
    forall e :: 0 <= e < k ==> s != ElementCell(job, g, e)
  }

  lemma {:induction false} AheadIsNotReached<T>(job: Job<T>, g: seq<int>, k: nat, s: int)
    requires job.Valid() && InRange(g, job.Grid().dims) && k <= job.size[job.minor] && 0 <= s < |job.was|
    requires Ahead(job, g, k, s)
    ensures NotReached(job, g, k, s)
  {
    forall e | 0 <= e < k ensures s != ElementCell(job, g, e) { OtherElement(job, g, e, s); }
  }

  lemma {:induction false} NotYetWritten<T>(job: Job<T>, g: seq<int>, now: seq<T>, k: nat, s: int)
    requires job.Valid() && |now| == |job.was| && InRange(g, job.Grid().dims) && k <= job.size[job.minor]
    requires 0 <= s < |now| && NotReached(job, g, k, s)
    ensures job.RunOf(now, false, g, k)[s] == now[s]
    decreases k
  {
    if k > 0 {
      NotYetWritten(job, g, now, k - 1, s);
      assert s != ElementCell(job, g, k - 1);
      KeptByElement(job, g, now, k, s);
    }
  }

  lemma {:induction false} SafeRun<T>(job: Job<T>, g: seq<int>, now: seq<T>, t: int, k: nat)
    requires job.Runnable(true) && Safe(job) && InRange(g, job.Grid().dims) && k <= job.size[job.minor]
    requires t == Offset(job.Grid(), g) && job.Done(now, t)
    ensures job.RunOf(now, true, g, k) == job.RunOf(now, false, g, k)
    decreases k
  {
    if k > 0 {
      SafeRun(job, g, now, t, k - 1);
      ReadsFirstValue(job, g, now, k - 1);
      job.RunLast(now, true, g, k);
      job.RunLast(now, false, g, k);
    }
  }

  lemma {:induction false} SafeRunIsDone<T>(job: Job<T>, g: seq<int>, now: seq<T>, t: int, next: nat)
    requires job.Runnable(true) && Safe(job) && InRange(g, job.Grid().dims)
    requires t == Offset(job.Grid(), g) && next - 1 == t && job.Done(now, t)
    ensures job.Done(job.RunOf(now, true, g, job.size[job.minor]), next)
  {
    SafeRun(job, g, now, t, job.size[job.minor]);
    job.RunIsDone(g, now, next);
  }

  lemma {:induction false} SafeStep<T>(job: Job<T>, t: nat)
    requires job.Runnable(true) && Safe(job) && 0 < t <= ElementsIn(job.Grid())
    requires job.Done(job.Replay(true, t - 1), t - 1)
    ensures job.Done(job.Replay(true, t), t)
  {
    job.ReplayLast(true, t);
    SafeRunIsDone(job, job.LastPoint(t), job.Replay(true, t - 1), t - 1, t);
  }

  /** If no cell is overwritten before it is read, a copy within one buffer copies the buffer as
      it was, run by run. */
  lemma {:induction false} SafeReplay<T>(job: Job<T>, t: nat)
    requires job.Runnable(true) && Safe(job) && t <= ElementsIn(job.Grid())
    ensures job.Done(job.Replay(true, t), t)
    decreases t
  {
    if t == 0 {
      job.NothingCopiedYet();
    } else {
      SafeReplay(job, t - 1);
      SafeStep(job, t);
    }
  }

  // ---- otherwise some contents are copied wrongly ----

  /** The same request on other contents. */
  function On<T>(job: Job<T>, buffer: seq<T>): Job<T> { job.(from := buffer, was := buffer) }

  ghost predicate CopiedRight<T>(job: Job<T>)
    requires job.Runnable(true)
  {
    job.Done(job.Replay(true, ElementsIn(job.Grid())), ElementsIn(job.Grid()))
  }

  /** `a` at position `c` and `b` everywhere else. */
  function Single<T>(n: nat, c: int, a: T, b: T): (r: seq<T>)
    ensures |r| == n
  {
    seq(n, p requires 0 <= p < n => if p == c then a else b)
  }

  /** `j` overwrites the cell of `i` too early, and only that cell holds `a`. */
  ghost predicate Conflict<T>(job: Job<T>, i: seq<int>, j: seq<int>, a: T, b: T) {
    && job.Runnable(true) && Overwrites(job, j, i) && Earlier(job, j, i)
    && job.from == Single(|job.was|, Offset(job.src, Plus(i, job.srcBase)), a, b)
  }

  /** Of all elements only `i` reads that cell and only `j` writes it. */
  lemma {:induction false} OnlyThese<T>(job: Job<T>, i: seq<int>, j: seq<int>, x: seq<int>)
    requires job.Runnable(true) && Overwrites(job, j, i) && InRange(x, job.size)
    ensures
      var c := Offset(job.src, Plus(i, job.srcBase));
      && 0 <= c < |job.was|
      && (Offset(job.src, Plus(x, job.srcBase)) == c <==> x == i)
      && (Offset(job.dest, Plus(x, job.destBase)) == c <==> x == j)
  {
    job.SourceInside(i);
    if Offset(job.src, Plus(x, job.srcBase)) == Offset(job.src, Plus(i, job.srcBase)) {
      OffsetInjective(job.src, Plus(x, job.srcBase), Plus(i, job.srcBase));
      PlusMinus(x, job.srcBase);
      PlusMinus(i, job.srcBase);
    }
    if Offset(job.dest, Plus(x, job.destBase)) == Offset(job.dest, Plus(j, job.destBase)) {
      OffsetInjective(job.dest, Plus(x, job.destBase), Plus(j, job.destBase));
      PlusMinus(x, job.destBase);
      PlusMinus(j, job.destBase);
    }
  }

  /** Up to the copy of `j` nothing changes. */
  lemma {:induction false} RunKeepsSingle<T>(job: Job<T>, i: seq<int>, j: seq<int>, a: T, b: T, g: seq<int>, k: nat)
    requires Conflict(job, i, j, a, b) && InRange(g, job.Grid().dims) && k <= job.size[job.minor]
    requires Offset(job.Grid(), g) < job.StepOf(j) || (Offset(job.Grid(), g) == job.StepOf(j) && k <= j[job.minor])
    ensures job.RunOf(job.from, true, g, k) == job.from
    decreases k
  {
    if k > 0 {
      RunKeepsSingle(job, i, j, a, b, g, k - 1);
      var x := g[job.minor := k - 1];
      job.RunLast(job.from, true, g, k);
      OnlyThese(job, i, j, x);
      assert x != i && x != j;
    }
  }

  ghost predicate AllEqual<T>(buffer: seq<T>, b: T) {
    forall p :: 0 <= p < |buffer| ==> buffer[p] == b
  }

  lemma SingleErased<T>(n: nat, c: int, a: T, b: T)
    requires 0 <= c < n
    ensures AllEqual(Single(n, c, a, b)[c := b], b)
  {}

  lemma {:induction false} PointOfRun<T>(job: Job<T>, g: seq<int>, j: seq<int>)
    requires job.Valid() && InRange(g, job.Grid().dims) && InRange(j, job.size) && Offset(job.Grid(), g) == job.StepOf(j)
    ensures g[job.minor := j[job.minor]] == j
  {
    OffsetInjective(job.Grid(), g, j[job.minor := 0]);
  }

  /** The copy of `j` writes its cell with what the run left in the cell it reads. */
  lemma {:induction false} ElementWrites<T>(job: Job<T>, g: seq<int>, j: seq<int>)
    requires job.Runnable(true) && InRange(g, job.Grid().dims) && InRange(j, job.size) && Offset(job.Grid(), g) == job.StepOf(j)
    ensures
      var before, k := job.RunOf(job.from, true, g, j[job.minor]), j[job.minor] + 1;
      var d, s := Offset(job.dest, Plus(j, job.destBase)), Offset(job.src, Plus(j, job.srcBase));
      0 <= d < |before| && 0 <= s < |before| && job.RunOf(job.from, true, g, k) == before[d := before[s]]
  {
    PointOfRun(job, g, j);
    job.RunLast(job.from, true, g, j[job.minor] + 1);
  }

  /** The copy of `j` loses the only `a`. */
  lemma {:induction false} ElementLosesSingle<T>(job: Job<T>, i: seq<int>, j: seq<int>, a: T, b: T, g: seq<int>)
    requires Conflict(job, i, j, a, b) && InRange(g, job.Grid().dims) && Offset(job.Grid(), g) == job.StepOf(j)
    ensures AllEqual(job.RunOf(job.from, true, g, j[job.minor] + 1), b)
  {
    ElementWrites(job, g, j);
    RunKeepsSingle(job, i, j, a, b, g, j[job.minor]);
    OnlyThese(job, i, j, j);
    SingleErased(|job.was|, Offset(job.src, Plus(i, job.srcBase)), a, b);
  }

  /** Once everything is `b` it stays so. */
  lemma {:induction false} RunStaysAll<T>(job: Job<T>, buffer: seq<T>, b: T, g: seq<int>, k0: nat, k: nat)
    requires job.Runnable(true) && |buffer| == |job.was| && InRange(g, job.Grid().dims) && k0 <= k <= job.size[job.minor]
    requires AllEqual(job.RunOf(buffer, true, g, k0), b)
    ensures AllEqual(job.RunOf(buffer, true, g, k), b)
    decreases k
  {
    if k > k0 {
      RunStaysAll(job, buffer, b, g, k0, k - 1);
      job.RunLast(buffer, true, g, k);
    }
  }

  lemma {:induction false} RunLosesSingle<T>(job: Job<T>, i: seq<int>, j: seq<int>, a: T, b: T, g: seq<int>)
    requires Conflict(job, i, j, a, b) && InRange(g, job.Grid().dims) && Offset(job.Grid(), g) == job.StepOf(j)
    ensures AllEqual(job.RunOf(job.from, true, g, job.size[job.minor]), b)
  {
    ElementLosesSingle(job, i, j, a, b, g);
    RunStaysAll(job, job.from, b, g, j[job.minor] + 1, job.size[job.minor]);
  }

  lemma {:induction false} ReplayKeepsSingle<T>(job: Job<T>, i: seq<int>, j: seq<int>, a: T, b: T, t: nat)
    requires Conflict(job, i, j, a, b) && t <= ElementsIn(job.Grid()) && t <= job.StepOf(j)
    ensures job.Replay(true, t) == job.from
    decreases t
  {
    if t > 0 {
      ReplayKeepsSingle(job, i, j, a, b, t - 1);
      StepKeepsSingle(job, i, j, a, b, t);
    }
  }

  lemma {:induction false} StepKeepsSingle<T>(job: Job<T>, i: seq<int>, j: seq<int>, a: T, b: T, t: nat)
    requires Conflict(job, i, j, a, b) && 0 < t <= ElementsIn(job.Grid()) && t <= job.StepOf(j)
    requires job.Replay(true, t - 1) == job.from
    ensures job.Replay(true, t) == job.from
  {
    RunKeepsSingle(job, i, j, a, b, job.LastPoint(t), job.size[job.minor]);
    job.ReplayLast(true, t);
  }

  lemma {:induction false} StepLosesSingle<T>(job: Job<T>, i: seq<int>, j: seq<int>, a: T, b: T, t: nat)
    requires Conflict(job, i, j, a, b) && 0 < t <= ElementsIn(job.Grid()) && t - 1 == job.StepOf(j)
    requires job.Replay(true, t - 1) == job.from
    ensures AllEqual(job.Replay(true, t), b)
  {
    var g := job.LastPoint(t);
    RunLosesSingle(job, i, j, a, b, g);
    job.ReplayLast(true, t);
    assert job.Replay(true, t) == job.RunOf(job.from, true, g, job.size[job.minor]);
  }

  lemma {:induction false} StepStaysAll<T>(job: Job<T>, b: T, t: nat)
    requires job.Runnable(true) && 0 < t <= ElementsIn(job.Grid())
    requires AllEqual(job.Replay(true, t - 1), b)
    ensures AllEqual(job.Replay(true, t), b)
  {
    job.ReplayLast(true, t);
    RunStaysAll(job, job.Replay(true, t - 1), b, job.LastPoint(t), 0, job.size[job.minor]);
  }

  lemma {:induction false} StepBound<T>(job: Job<T>, j: seq<int>)
    requires job.Valid() && InRange(j, job.size)
    ensures 0 <= job.StepOf(j) < ElementsIn(job.Grid())
  {
    OffsetBound(job.Grid(), j[job.minor := 0]);
  }

  lemma {:induction false} ReplayStaysAll<T>(job: Job<T>, b: T, t0: nat, t: nat)
    requires job.Runnable(true) && t0 <= t <= ElementsIn(job.Grid())
    requires AllEqual(job.Replay(true, t0), b)
    ensures AllEqual(job.Replay(true, t), b)
    decreases t
  {
    if t > t0 {
      ReplayStaysAll(job, b, t0, t - 1);
      StepStaysAll(job, b, t);
    }
  }

  /** What a right copy leaves in the cell of window index `i`. */
  lemma {:induction false} WantedCell<T>(job: Job<T>, i: seq<int>)
    requires job.Valid() && InRange(i, job.size)
    ensures
      var p, s := Offset(job.dest, Plus(i, job.destBase)), Offset(job.src, Plus(i, job.srcBase));
      && 0 <= p < |job.was| && 0 <= s < |job.from| && job.Cell(p, ElementsIn(job.Grid())) == job.from[s]
  {
    OffsetBound(job.Grid(), i[job.minor := 0]);
    OffsetBound(job.dest, Plus(i, job.destBase));
    IndexAtOfOffset(job.dest, Plus(i, job.destBase));
    PlusMinus(i, job.destBase);
    job.SourceInside(i);
  }

  lemma {:induction false} ConflictShows<T>(job: Job<T>, i: seq<int>, j: seq<int>, a: T, b: T)
    requires Conflict(job, i, j, a, b) && a != b
    ensures !CopiedRight(job)
  {
    StepBound(job, j);
    ReplayKeepsSingle(job, i, j, a, b, job.StepOf(j));
    StepLosesSingle(job, i, j, a, b, job.StepOf(j) + 1);
    ReplayStaysAll(job, b, job.StepOf(j) + 1, ElementsIn(job.Grid()));
    WantedCell(job, i);
  }

  /** A copy within one buffer is right for all contents if and only if no cell is overwritten
      before it is read. */
  lemma {:induction false} OverlapExactly<T>(job: Job<T>, a: T, b: T)
    requires job.Runnable(true) && a != b
    ensures Safe(job) <==> forall buffer :: |buffer| == |job.was| ==> CopiedRight(On(job, buffer))
  {
    if Safe(job) {
      forall buffer | |buffer| == |job.was| ensures CopiedRight(On(job, buffer)) {
        SameConflicts(job, buffer);
        SafeReplay(On(job, buffer), ElementsIn(job.Grid()));
      }
    } else {
      var i, j :| Overwrites(job, j, i) && Earlier(job, j, i);
      var buffer := Single(|job.was|, Offset(job.src, Plus(i, job.srcBase)), a, b);
      SameConflicts(job, buffer);
      ConflictShows(On(job, buffer), i, j, a, b);
    }
  }

  lemma {:induction false} SameConflicts<T>(job: Job<T>, buffer: seq<T>)
    requires job.Runnable(true) && |buffer| == |job.was|
    ensures On(job, buffer).Runnable(true) && On(job, buffer).Grid() == job.Grid()
    ensures forall i, j :: Overwrites(On(job, buffer), j, i) <==> Overwrites(job, j, i)
    ensures forall i, j :: Overwrites(job, j, i) ==> (Earlier(On(job, buffer), j, i) <==> Earlier(job, j, i))
    ensures Safe(On(job, buffer)) <==> Safe(job)
  {
    forall i, j | Overwrites(job, j, i) ensures Earlier(On(job, buffer), j, i) <==> Earlier(job, j, i) {}
  }

  // ---- what a caller can see beforehand ----

  predicate ApartAlong(srcBase: seq<int>, destBase: seq<int>, size: seq<nat>, d: int) {
    && 0 <= d < |size| == |srcBase| == |destBase|
    && (destBase[d] + size[d] <= srcBase[d] || srcBase[d] + size[d] <= destBase[d])
  }

  /** The windows are apart in some dimension, or the destination does not start behind the
      source in the buffer. */
  ghost predicate SafeRequest(sh: Shape, srcBase: seq<int>, destBase: seq<int>, size: seq<nat>)
    requires sh.Valid() && |srcBase| == |destBase| == |sh.dims|
  {
    (exists d :: ApartAlong(srcBase, destBase, size, d)) || Offset(sh, destBase) <= Offset(sh, srcBase)
  }

  /** The most significant position where two numerals differ. */
  lemma {:induction false} TopDifference(a: seq<int>, b: seq<int>) returns (k: nat)
    requires |a| == |b| && a != b
    ensures k < |a| && a[k] != b[k] && a[k + 1..] == b[k + 1..]
  {
    var n := |a| - 1;
    if a[n] != b[n] {
      k := n;
    } else {
      assert a == a[..n] + [a[n]] && b == b[..n] + [b[n]];
      k := TopDifference(a[..n], b[..n]);
      forall p | k < p < |a| ensures a[p] == b[p] {
        if p < n { assert a[..n][k + 1..][p - k - 1] == b[..n][k + 1..][p - k - 1]; }
      }
    }
  }

  /** Pairs of numerals with the same digit differences are ordered alike, whatever the radices. */
  lemma {:induction false} SameShift(a: seq<int>, b: seq<int>, r: seq<nat>, c: seq<int>, d: seq<int>, q: seq<nat>)
    requires InRange(a, r) && InRange(b, r) && InRange(c, q) && InRange(d, q) && |r| == |q|
    requires forall k :: 0 <= k < |r| ==> a[k] - b[k] == c[k] - d[k]
    ensures Value(a, r) < Value(b, r) <==> Value(c, q) < Value(d, q)
  {
    if a == b {
      assert c == d;
    } else {
      var k := TopDifference(a, b);
      forall p | k < p < |r| ensures c[p] == d[p] { assert a[k + 1..][p - k - 1] == b[k + 1..][p - k - 1]; }
      assert c[k + 1..] == d[k + 1..];
      if a[k] < b[k] {
        ValueOrder(a, b, r, k);
        ValueOrder(c, d, q, k);
      } else {
        ValueOrder(b, a, r, k);
        ValueOrder(d, c, q, k);
      }
    }
  }

  lemma {:induction false} FirstDigitDecidesLast(x: int, y: int, n: nat, u: int, v: int)
    requires 0 <= x < n && 0 <= y < n
    ensures x + n * u < y + n * v <==> u < v || (u == v && x < y)
  {
    if u < v { MulLe(n, u + 1, v); }
    if v < u { MulLe(n, v + 1, u); }
  }

  /** The order of the scan is the order of the layout within the window. */
  lemma {:induction false} ScanOrder<T>(job: Job<T>, j: seq<int>, i: seq<int>)
    requires job.Valid() && job.minor == job.src.minorToMajor[0] && InRange(i, job.size) && InRange(j, job.size)
    ensures
      var m := job.src.minorToMajor;
      Earlier(job, j, i) <==> Value(Gather(j, m), Gather(job.size, m)) < Value(Gather(i, m), Gather(job.size, m))
  {
    var m, r := job.src.minorToMajor, Gather(job.size, job.src.minorToMajor);
    StepDigits(job, j);
    StepDigits(job, i);
    FirstDigitDecidesLast(j[m[0]], i[m[0]], job.size[m[0]], Value(Gather(j, m)[1..], r[1..]), Value(Gather(i, m)[1..], r[1..]));
  }

  lemma {:induction false} StepDigits<T>(job: Job<T>, i: seq<int>)
    requires job.Valid() && job.minor == job.src.minorToMajor[0] && |i| == |job.size|
    ensures
      var m := job.src.minorToMajor;
      job.StepOf(i) == Value(Gather(i, m)[1..], Gather(job.size, m)[1..])
  {
    var m := job.src.minorToMajor;
    forall k | 1 <= k < |m| ensures m[k] != m[0] {}
    assert Gather(i[m[0] := 0], m)[1..] == Gather(i, m)[1..];
    assert Gather(job.size[m[0] := 1], m)[1..] == Gather(job.size, m)[1..];
  }

  lemma {:induction false} SameCell<T>(job: Job<T>, j: seq<int>, i: seq<int>)
    requires job.Valid() && job.dest == job.src && InRange(i, job.size) && InRange(j, job.size)
    ensures Overwrites(job, j, i) <==> Plus(j, job.destBase) == Plus(i, job.srcBase)
  {
    if Overwrites(job, j, i) { OffsetInjective(job.src, Plus(j, job.destBase), Plus(i, job.srcBase)); }
  }

  /** An overwriting element comes before the reading one exactly if the destination starts
      behind the source. */
  lemma {:induction false} OrderByBases<T>(job: Job<T>, j: seq<int>, i: seq<int>)
    requires job.Valid() && job.dest == job.src && job.minor == job.src.minorToMajor[0] && Overwrites(job, j, i)
    ensures Earlier(job, j, i) <==> Offset(job.src, job.srcBase) < Offset(job.src, job.destBase)
  {
    var m, sh := job.src.minorToMajor, job.src;
    SameCell(job, j, i);
    ScanOrder(job, j, i);
    GatherRange(i, job.size, m);
    GatherRange(j, job.size, m);
    GatherRange(job.srcBase, sh.dims, m);
    GatherRange(job.destBase, sh.dims, m);
    forall k | 0 <= k < |m|
      ensures Gather(j, m)[k] - Gather(i, m)[k] == Gather(job.srcBase, m)[k] - Gather(job.destBase, m)[k]
    {
      assert Plus(j, job.destBase)[m[k]] == Plus(i, job.srcBase)[m[k]];
    }
    SameShift(Gather(j, m), Gather(i, m), Gather(job.size, m), Gather(job.srcBase, m), Gather(job.destBase, m), Radices(sh));
  }

  /** Windows overlap exactly if they are apart in no dimension. */
  lemma {:induction false} SharedCell<T>(job: Job<T>) returns (j: seq<int>, i: seq<int>)
    requires job.Valid() && job.dest == job.src && forall d :: !ApartAlong(job.srcBase, job.destBase, job.size, d)
    ensures Overwrites(job, j, i)
  {
    var n := |job.size|;
    i := seq(n, d requires 0 <= d < n => if job.destBase[d] > job.srcBase[d] then job.destBase[d] - job.srcBase[d] else 0);
    j := seq(n, d requires 0 <= d < n => if job.destBase[d] > job.srcBase[d] then 0 else job.srcBase[d] - job.destBase[d]);
    forall d | 0 <= d < n ensures 0 <= i[d] < job.size[d] && 0 <= j[d] < job.size[d] {
      assert !ApartAlong(job.srcBase, job.destBase, job.size, d);
    }
    assert Plus(j, job.destBase) == Plus(i, job.srcBase);
  }

  lemma {:induction false} ApartIsSafe<T>(job: Job<T>, d: nat)
    requires job.Valid() && job.dest == job.src && ApartAlong(job.srcBase, job.destBase, job.size, d)
    ensures Safe(job)
  {
    forall i, j | InRange(i, job.size) && InRange(j, job.size) ensures !Overwrites(job, j, i) {
      SameCell(job, j, i);
      assert Plus(j, job.destBase)[d] != Plus(i, job.srcBase)[d];
    }
  }

  /** No cell is overwritten before it is read if and only if the windows are apart in some
      dimension or the destination does not start behind the source in the buffer. */
  lemma {:induction false} SafeExactly<T>(job: Job<T>)
    requires job.Valid() && job.dest == job.src && job.minor == job.src.minorToMajor[0]
    ensures Safe(job) <==> SafeRequest(job.src, job.srcBase, job.destBase, job.size)
  {
    if d :| ApartAlong(job.srcBase, job.destBase, job.size, d) {
      ApartIsSafe(job, d);
    } else {
      var j, i := SharedCell(job);
      OrderByBases(job, j, i);
      forall x, y | Overwrites(job, x, y) ensures Earlier(job, x, y) <==> Earlier(job, j, i) { OrderByBases(job, x, y); }
    }
  }

  /** A copy within one literal is right for all contents if and only if the request is safe. */
  lemma {:induction false} CopyWithinExactly<T>(job: Job<T>, a: T, b: T)
    requires job.Runnable(true) && job.dest == job.src && job.minor == job.src.minorToMajor[0] && a != b
    ensures SafeRequest(job.src, job.srcBase, job.destBase, job.size) <==>
              forall buffer :: |buffer| == |job.was| ==> CopiedRight(On(job, buffer))
  {
    SafeExactly(job);
    OverlapExactly(job, a, b);
  }

  /** In a vector the copy is safe exactly when it goes down or the windows are apart. */
  lemma {:induction false} VectorOverlap<T>(job: Job<T>)
    requires job.Valid() && job.dest == job.src && |job.size| == 1
    ensures Safe(job) <==> job.destBase[0] <= job.srcBase[0] || job.srcBase[0] + job.size[0] <= job.destBase[0]
  {
    SafeExactly(job);
    VectorOffset(job.src, job.srcBase);
    VectorOffset(job.src, job.destBase);
    assert job.srcBase[0] + job.size[0] <= job.destBase[0] ==> ApartAlong(job.srcBase, job.destBase, job.size, 0);
  }

  // ---- the copy ----

  /** A block is really copied: neither side is a scalar and no extent is zero. */
  predicate CopiesBlock(dest: Shape, src: Shape, srcBase: seq<int>, destBase: seq<int>, size: seq<nat>) {
    && src.dims != [] && dest.dims != [] && |srcBase| == |destBase| == |size|
    && Product(size) > 0 && ElementsIn(src) > 0 && ElementsIn(dest) > 0
  }

  /** The job of a request: the inner loop runs along the dimension that `StrideConfig` chooses. */
  ghost function Request<T>(dest: Shape, src: Shape, srcBase: seq<int>, destBase: seq<int>, size: seq<nat>,
                            from: seq<T>, was: seq<T>): Job<T>
    requires dest.Valid() && src.Valid() && |dest.dims| == |src.dims| == |size| > 0
  {
    Job(dest, src, destBase, srcBase, size, InnerDimension(src, dest, size), from, was)
  }

  lemma {:induction false} RequestSafety<T>(job: Job<T>)
    requires job.Valid() && job.minor == InnerDimension(job.src, job.dest, job.size)
    ensures job.dest == job.src ==> (Safe(job) <==> SafeRequest(job.src, job.srcBase, job.destBase, job.size))
  {
    if job.dest == job.src { SafeExactly(job); }
  }

  /** Within one buffer no cell of the request is overwritten before it is read. */
  ghost predicate SafeBlock<T>(dest: Shape, src: Shape, srcBase: seq<int>, destBase: seq<int>, size: seq<nat>,
                               from: seq<T>, was: seq<T>)
    requires dest.Valid() && src.Valid()
  {
    |dest.dims| == |src.dims| == |size| > 0 ==>
      var job := Request(dest, src, srcBase, destBase, size, from, was);
      job.Valid() ==> Safe(job)
  }

  /** A request for two elements one place up within a vector of three. */
  ghost function ShiftUp<T>(a: T, b: T, c: T): (job: Job<T>)
    ensures job.Runnable(true) && job.dest == job.src && job.minor == 0 && job.Grid().dims == [1] && ElementsIn(job.Grid()) == 1
  {
    var sh := Shape([3], [0], [false]);
    var job := Request(sh, sh, [0], [1], [2], [a, b, c], [a, b, c]);
    assert job.Grid().dims == [1] && [1][1..] == [];
    job
  }

  lemma {:induction false} ShiftUpCells<T>(a: T, b: T, c: T, k: int)
    requires 0 <= k < 2
    ensures
      var job := ShiftUp(a, b, c);
      Offset(job.dest, Plus([0][0 := k], job.destBase)) == k + 1 && Offset(job.src, Plus([0][0 := k], job.srcBase)) == k
  {
    var job := ShiftUp(a, b, c);
    assert [0][0 := k] == [k] && Plus([k], job.destBase) == [k + 1] && Plus([k], job.srcBase) == [k];
    VectorOffset(job.src, [k]);
    VectorOffset(job.src, [k + 1]);
  }

  lemma {:induction false} ShiftUpElement<T>(a: T, b: T, c: T, k: nat)
    requires k < 2
    ensures
      var job := ShiftUp(a, b, c);
      var before := job.RunOf(job.was, true, [0], k);
      job.RunOf(job.was, true, [0], k + 1) == before[k + 1 := before[k]]
  {
    var job := ShiftUp(a, b, c);
    ShiftUpCells(a, b, c, k);
    job.RunLast(job.was, true, [0], k + 1);
  }

  lemma {:induction false} ShiftUpRun<T>(a: T, b: T, c: T)
    ensures var job := ShiftUp(a, b, c); job.RunOf(job.was, true, [0], 2) == [a, a, a]
  {
    var job := ShiftUp(a, b, c);
    assert job.RunOf(job.was, true, [0], 0) == [a, b, c];
    ShiftUpElement(a, b, c, 0);
    assert job.RunOf(job.was, true, [0], 1) == [a, a, c];
    ShiftUpElement(a, b, c, 1);
  }

  /** It is not safe, and repeats the first element. */
  lemma {:induction false} ShiftUpRepeats<T>(a: T, b: T, c: T)
    ensures
      var job := ShiftUp(a, b, c);
      && !SafeRequest(job.src, job.srcBase, job.destBase, job.size)
      && job.was == [a, b, c] && job.Replay(true, 1) == [a, a, a]
  {
    var job := ShiftUp(a, b, c);
    VectorOffset(job.src, job.srcBase);
    VectorOffset(job.src, job.destBase);
    ShiftUpRun(a, b, c);
    job.ReplayLast(true, 1);
    assert job.LastPoint(1) == [0];
  }

  lemma BlockJob<T>(job: Job<T>)
    requires job.dest.Valid() && job.src.Valid() && 0 <= job.minor < |job.size|
    requires CopiesBlock(job.dest, job.src, job.srcBase, job.destBase, job.size)
    requires Fits(job.srcBase, job.size, job.src.dims) && Fits(job.destBase, job.size, job.dest.dims)
    requires |job.from| == ElementsIn(job.src) && |job.was| == ElementsIn(job.dest)
    ensures job.Valid()
  {
    ProductPositive(job.size);
  }

  /** With an extent of zero somewhere no index of the destination is in the window, unless the
      source is empty. */
  lemma EmptyWindows(dest: Shape, src: Shape, base: seq<int>, size: seq<nat>)
    requires dest.Valid() && src.Valid()
    requires (exists d :: 0 <= d < |size| && size[d] == 0) || src.IsZeroElementArray() || dest.IsZeroElementArray()
    ensures Product(size) == 0 || ElementsIn(src) == 0 || ElementsIn(dest) == 0
    ensures forall index :: InRange(index, dest.dims) ==> !(InWindow(index, base, size) && ElementsIn(src) > 0)
  {
    ProductPositive(size);
    ZeroElements(src);
    ZeroElements(dest);
    forall index | InRange(index, dest.dims) ensures !(InWindow(index, base, size) && ElementsIn(src) > 0) {
      OffsetBound(dest, index);
      if d :| 0 <= d < |size| && size[d] == 0 { assert InWindow(index, base, size) ==> Minus(index, base)[d] < size[d]; }
    }
  }

  /** Copies the block of `size` cells at `srcBase` of `src` onto `destBase` of `dest`; both may
      be the same literal, or hold the same buffer. */
  method CopySliceFrom<T(0)>(dest: Literal<T>, src: Literal<T>, srcBase: seq<int>, destBase: seq<int>, size: seq<nat>)
    returns (ok: bool)
    requires dest.Valid() && src.Valid()
    requires |srcBase| == |src.shape.dims| && |destBase| == |dest.shape.dims|
    requires CopiesBlock(dest.shape, src.shape, srcBase, destBase, size) ==>
               Fits(srcBase, size, src.shape.dims) && Fits(destBase, size, dest.shape.dims)
    requires (src.shape.dims == [] || dest.shape.dims == []) && size == [] ==>
               InRange(srcBase, src.shape.dims) && InRange(destBase, dest.shape.dims)
    modifies dest.data
    ensures dest.Valid() && src.Valid()
    ensures ok <==> if src.shape.dims == [] || dest.shape.dims == [] then size == []
                    else Product(size) == 0 || ElementsIn(src.shape) == 0 || ElementsIn(dest.shape) == 0
                         || |srcBase| == |destBase| == |size|
    ensures (src.shape.dims == [] || dest.shape.dims == []) && ok ==> forall index :: InRange(index, dest.shape.dims) ==>
              dest.At(index) == if index == destBase then old(src.At(srcBase)) else old(dest.At(index))
    ensures !ok ==> dest.data[..] == old(dest.data[..])
    ensures src.shape.dims != [] && dest.shape.dims != [] && ok
            && (dest.data != src.data
                || SafeBlock(dest.shape, src.shape, srcBase, destBase, size, old(src.data[..]), old(dest.data[..]))) ==>
      forall index :: InRange(index, dest.shape.dims) ==>
        if InWindow(index, destBase, size) && ElementsIn(src.shape) > 0 then
          && |destBase| == |srcBase| && InRange(Plus(Minus(index, destBase), srcBase), src.shape.dims)
          && dest.At(index) == old(src.At(Plus(Minus(index, destBase), srcBase)))
        else dest.At(index) == old(dest.At(index))
    ensures CopiesBlock(dest.shape, src.shape, srcBase, destBase, size) ==>
      var job := Request(dest.shape, src.shape, srcBase, destBase, size, old(src.data[..]), old(dest.data[..]));
      && job.Runnable(dest.data == src.data)
      && (dest.shape == src.shape ==> (Safe(job) <==> SafeRequest(src.shape, srcBase, destBase, size)))
      && dest.data[..] == job.Replay(dest.data == src.data, ElementsIn(job.Grid()))
  {
    if |src.shape.dims| == 0 || |dest.shape.dims| == 0 {
      // A scalar on either side: assign the value once.
      if size != [] { return false; }
      var value := src.Get(srcBase);
      dest.Set(destBase, value);
      return true;
    }
    if (exists d :: 0 <= d < |size| && size[d] == 0)
       || src.shape.IsZeroElementArray() || dest.shape.IsZeroElementArray() {
      EmptyWindows(dest.shape, src.shape, destBase, size);
      return true;
    }
    ProductPositive(size);
    ZeroElements(src.shape);
    ZeroElements(dest.shape);
    if |srcBase| != |destBase| || |srcBase| != |size| { return false; }
    CopyBlock(dest, src, srcBase, destBase, size);
    return true;
  }

  /** The case in which something is copied. */
  method CopyBlock<T(0)>(dest: Literal<T>, src: Literal<T>, srcBase: seq<int>, destBase: seq<int>, size: seq<nat>)
    requires dest.Valid() && src.Valid()
    requires |srcBase| == |src.shape.dims| && |destBase| == |dest.shape.dims|
    requires CopiesBlock(dest.shape, src.shape, srcBase, destBase, size)
    requires Fits(srcBase, size, src.shape.dims) && Fits(destBase, size, dest.shape.dims)
    modifies dest.data
    ensures dest.data != src.data || SafeBlock(dest.shape, src.shape, srcBase, destBase, size, old(src.data[..]), old(dest.data[..])) ==>
      forall index :: InRange(index, dest.shape.dims) ==>
        if InWindow(index, destBase, size) then
          && InRange(Plus(Minus(index, destBase), srcBase), src.shape.dims)
          && dest.At(index) == old(src.At(Plus(Minus(index, destBase), srcBase)))
        else dest.At(index) == old(dest.At(index))
    ensures
      var job := Request(dest.shape, src.shape, srcBase, destBase, size, old(src.data[..]), old(dest.data[..]));
      && job.Runnable(dest.data == src.data)
      && (dest.shape == src.shape ==> (Safe(job) <==> SafeRequest(src.shape, srcBase, destBase, size)))
      && dest.data[..] == job.Replay(dest.data == src.data, ElementsIn(job.Grid()))
  {
    ghost var job := CopyRuns(dest, src, srcBase, destBase, size);
    RequestSafety(job);
    if dest.data != src.data || Safe(job) { BlockCopied(job, dest.data == src.data); }
  }

  /** The cell of `index` holds the source element if it is in the window, else its old value. */
  ghost predicate ReadsRight<T>(job: Job<T>, now: seq<T>, index: seq<int>)
    requires job.Valid() && |index| == |job.size|
  {
    var i := Plus(Minus(index, job.destBase), job.srcBase);
    && 0 <= Offset(job.dest, index) < |now| == |job.was|
    && if InWindow(index, job.destBase, job.size) then
         && InRange(i, job.src.dims) && 0 <= Offset(job.src, i) < |job.from|
         && now[Offset(job.dest, index)] == job.from[Offset(job.src, i)]
       else now[Offset(job.dest, index)] == job.was[Offset(job.dest, index)]
  }

  lemma {:induction false} BlockCopied<T>(job: Job<T>, within: bool)
    requires job.Runnable(within) && (within ==> Safe(job))
    ensures forall index :: InRange(index, job.dest.dims) ==> ReadsRight(job, job.Replay(within, ElementsIn(job.Grid())), index)
  {
    var n := ElementsIn(job.Grid());
    if within { SafeReplay(job, n); } else { job.ReplayIsDone(n); }
    forall index | InRange(index, job.dest.dims) ensures ReadsRight(job, job.Replay(within, n), index) {
      job.CopyComplete(job.Replay(within, n), index);
    }
  }

  /** The scan: one strided run per grid point. */
  method CopyRuns<T(0)>(dest: Literal<T>, src: Literal<T>, srcBase: seq<int>, destBase: seq<int>, size: seq<nat>)
    returns (ghost job: Job<T>)
    requires dest.Valid() && src.Valid()
    requires CopiesBlock(dest.shape, src.shape, srcBase, destBase, size)
    requires Fits(srcBase, size, src.shape.dims) && Fits(destBase, size, dest.shape.dims)
    modifies dest.data
    ensures job.Runnable(dest.data == src.data)
    ensures job == Request(dest.shape, src.shape, srcBase, destBase, size, old(src.data[..]), old(dest.data[..]))
    ensures dest.data[..] == job.Replay(dest.data == src.data, ElementsIn(job.Grid()))
  {
    var config := MakeStrideConfig(src.shape, dest.shape, size);
    job := Job(dest.shape, src.shape, destBase, srcBase, size, config.minorDimension, src.data[..], dest.data[..]);
    BlockJob(job);
    var state := new ForEachState(src.shape, seq(|size|, _ => 0), size, config.step);
    job.ScanIsGrid(state, config.step);
    ScanRuns(job, dest.shape, src.shape, destBase, srcBase, config, dest.data, src.data, state, |size|);
  }

  /** `config` holds the strides of the job's own inner dimension. */
  ghost predicate Configured<T>(job: Job<T>, config: StrideConfig) {
    && job.Valid() && config.minorDimension == job.minor && config.minorLoopSize == job.size[job.minor]
    && config.destStride == Stride(job.dest, job.minor) && config.sourceStride == Stride(job.src, job.minor)
  }

  method ScanRuns<T>(ghost job: Job<T>, destShape: Shape, srcShape: Shape, destBase: seq<int>, srcBase: seq<int>,
                     config: StrideConfig, dest: array<T>, src: array<T>, state: ForEachState, rank: nat)
    requires job.Runnable(dest == src) && (dest != src ==> src[..] == job.from) && dest[..] == job.was
    requires job == Job(destShape, srcShape, destBase, srcBase, job.size, job.minor, job.from, job.was)
    requires Configured(job, config) && rank == |job.size|
    requires state.Valid() && state.StepNumber() == 0 && state.GridShape() == job.Grid()
    requires forall g :: InRange(g, job.Grid().dims) ==> state.Point(g) == g
    requires (state.indexes as object) != dest && (state.indexes as object) != src
    modifies dest, state, state.indexes
    ensures dest[..] == job.Replay(dest == src, ElementsIn(job.Grid()))
  {
    ghost var total, within := ElementsIn(job.Grid()), dest == src;
    ghost var t := 0;
    var n := -1;
    while n < rank
      invariant -1 <= n <= rank && 0 <= t <= total
      invariant state.Valid()
      invariant if n < rank then t == state.StepNumber() else t == total
      invariant !within ==> src[..] == job.from
      invariant dest[..] == job.Replay(within, t)
      decreases total - t, if n < rank then 1 else 0
    {
      OffsetBound(job.Grid(), state.grid);
      ghost var next := t + 1;
      n := ScanStep(job, destShape, srcShape, destBase, srcBase, config, dest, src, state, t, next);
      t := next;
    }
  }

  /** One round of the scan. */
  method ScanStep<T>(ghost job: Job<T>, destShape: Shape, srcShape: Shape, destBase: seq<int>, srcBase: seq<int>,
                     config: StrideConfig, dest: array<T>, src: array<T>, state: ForEachState, ghost t: nat, ghost next: nat) returns (n: int)
    requires job.Runnable(dest == src) && (dest != src ==> src[..] == job.from)
    requires job == Job(destShape, srcShape, destBase, srcBase, job.size, job.minor, job.from, job.was)
    requires Configured(job, config) && state.Valid() && state.GridShape() == job.Grid()
    requires forall g :: InRange(g, job.Grid().dims) ==> state.Point(g) == g
    requires (state.indexes as object) != dest && (state.indexes as object) != src
    requires next == t + 1 <= ElementsIn(job.Grid()) && state.StepNumber() == t && dest[..] == job.Replay(dest == src, t)
    modifies dest, state, state.indexes
    ensures state.Valid() && 0 <= n <= |job.size|
    ensures if n < |job.size| then next < ElementsIn(job.Grid()) && state.StepNumber() == next else next == ElementsIn(job.Grid())
    ensures dest != src ==> src[..] == job.from
    ensures dest[..] == job.Replay(dest == src, next)
  {
    CopyRun(job, destShape, srcShape, destBase, srcBase, config, dest, src, state.indexes[..], t, next);
    n := state.IncrementDim();
  }

  /** The visitor of the scan (`copy_proc`). */
  method CopyRun<T>(ghost job: Job<T>, destShape: Shape, srcShape: Shape, destBase: seq<int>, srcBase: seq<int>,
                    config: StrideConfig, dest: array<T>, src: array<T>, indexes: seq<int>, ghost t: nat, ghost next: nat)
    requires job.Runnable(dest == src) && (dest != src ==> src[..] == job.from)
    requires job == Job(destShape, srcShape, destBase, srcBase, job.size, job.minor, job.from, job.was)
    requires Configured(job, config)
    requires InRange(indexes, job.Grid().dims) && next == t + 1 <= ElementsIn(job.Grid()) && t == Offset(job.Grid(), indexes)
    requires dest[..] == job.Replay(dest == src, t)
    modifies dest
    ensures dest != src ==> src[..] == old(src[..])
    ensures dest[..] == job.Replay(dest == src, next)
  {
    var srcIndex := MultidimensionalIndexToLinearIndex(srcShape, Plus(indexes, srcBase));
    var destIndex := MultidimensionalIndexToLinearIndex(destShape, Plus(indexes, destBase));
    job.StridesPositive();
    job.ReplayLast(dest == src, next);
    OffsetInjective(job.Grid(), indexes, job.LastPoint(next));
    job.RunIsStrided(dest == src, indexes, dest[..], src[..]);
    StridedCopy(dest, destIndex, config.destStride, src, srcIndex, config.sourceStride, config.minorLoopSize);
  }
}
