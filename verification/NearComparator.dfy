/** The comparison of two floating-point literals (xla/literal_comparison.cc `NearComparator`):
    a flat fast path and a recursive slow path that end with the same result. */
module NearComparators {
  import opened MixedRadix
  import opened Permutations
  import opened Layouts
  import opened IndexUtil
  import opened Literals
  import opened Arrays
  import opened MismatchStatistics

  // ---- the elements compared, in order ----

  /** How far dimension `d` is compared: to its dynamic size where it is dynamic. */
  function UpTo(sh: Shape, sizes: seq<int>, d: nat): nat
    requires d < |sh.dims| == |sh.dynamic| == |sizes|
  {
    if !sh.dynamic[d] then sh.dims[d] else if sizes[d] < 0 then 0 else sizes[d]
  }

  ghost predicate ValidLog(log: seq<Record>, size: nat) {
    forall k :: 0 <= k < |log| ==> log[k].Valid() && 0 <= log[k].index < size
  }

  /** The two literals compared: elements, shape and dynamic sizes of each. */
  datatype Operands = Operands(expected: seq<Element>, expectedShape: Shape, expectedSizes: seq<int>,
                               actual: seq<Element>, actualShape: Shape, actualSizes: seq<int>, isComplex: bool) {
    ghost predicate Valid() {
      && expectedShape.Valid() && actualShape.Valid() && expectedShape.dims == actualShape.dims
      && |expected| == ElementsIn(expectedShape) && |actual| == ElementsIn(actualShape)
      && |expectedSizes| == |actualSizes| == |actualShape.dims| && Within(Bounds(), actualShape.dims)
      && (forall j :: 0 <= j < |expected| ==> expected[j].Complex? == isComplex)
      && (forall k :: 0 <= k < |actual| ==> actual[k].Complex? == isComplex)
    }

    /** The extent compared: the dynamic sizes of `expected` where it is dynamic. */
    ghost function Bounds(): (bounds: seq<nat>)
      requires expectedShape.Valid() && |expectedSizes| == |expectedShape.dims|
      ensures |bounds| == |expectedShape.dims|
    {
      seq(|expectedShape.dims|, d requires 0 <= d < |expectedShape.dims| => UpTo(expectedShape, expectedSizes, d))
    }

    /** The comparison at one logical index, reported at its position in `actual`. */
    ghost function RecordAt(index: seq<int>): (r: Record)
      requires Valid() && InRange(index, actualShape.dims)
      ensures r.Valid() && 0 <= r.index < |actual|
    {
      OffsetBound(expectedShape, index);
      OffsetBound(actualShape, index);
      Record(expected[Offset(expectedShape, index)], actual[Offset(actualShape, index)], Offset(actualShape, index))
    }

    /** The first `n` comparisons in row-major order of the indices compared. */
    ghost function InRowOrder(n: nat): (log: seq<Record>)
      requires Valid() && n <= Product(Bounds())
      ensures |log| == n && ValidLog(log, |actual|) && forall j :: 0 <= j < n ==> log[j] == RecordAt(RowIndex(Bounds(), j))
    {
      seq(n, j requires 0 <= j < n => RecordAt(RowIndex(Bounds(), j)))
    }

    /** All comparisons, in row-major order. */
    ghost function All(): (log: seq<Record>)
      requires Valid()
      ensures ValidLog(log, |actual|)
    {
      InRowOrder(Product(Bounds()))
    }

    /** The first `n` comparisons in buffer order. */
    ghost function InBufferOrder(n: nat): (log: seq<Record>)
      requires Valid() && n <= |actual|
      ensures |log| == n && ValidLog(log, |actual|) && forall i :: 0 <= i < n ==> log[i] == Record(expected[i], actual[i], i)
    {
      seq(n, i requires 0 <= i < n => Record(expected[i], actual[i], i))
    }
  }

  ghost predicate Within(bounds: seq<nat>, dims: seq<nat>) {
    |bounds| == |dims| && forall d :: 0 <= d < |dims| ==> bounds[d] <= dims[d]
  }

  lemma InRangeWithin(index: seq<int>, bounds: seq<nat>, dims: seq<nat>)
    requires InRange(index, bounds) && Within(bounds, dims)
    ensures InRange(index, dims)
  {}

  lemma DistinctPositions(o: Operands, j: nat, k: nat)
    requires o.Valid() && j < Product(o.Bounds()) && k < Product(o.Bounds())
    requires o.RecordAt(RowIndex(o.Bounds(), j)).index == o.RecordAt(RowIndex(o.Bounds(), k)).index
    ensures j == k
  {
    OffsetInjective(o.actualShape, RowIndex(o.Bounds(), j), RowIndex(o.Bounds(), k));
  }

  // ---- the mismatch literal ----

  function CountTrue(flags: seq<bool>): nat {
    if flags == [] then 0 else CountTrue(flags[..|flags| - 1]) + One(flags[|flags| - 1])
  }

  lemma {:induction false} CountTrueUpdate(flags: seq<bool>, i: nat)
    requires i < |flags|
    ensures CountTrue(flags[i := true]) == CountTrue(flags) + One(!flags[i])
    decreases |flags|
  {
    var n := |flags| - 1;
    if i < n {
      assert flags[i := true][..n] == flags[..n][i := true];
      CountTrueUpdate(flags[..n], i);
    } else {
      assert flags[i := true][..n] == flags[..n];
    }
  }

  lemma {:induction false} CountTrueOfFalse(flags: seq<bool>)
    requires forall i :: 0 <= i < |flags| ==> !flags[i]
    ensures CountTrue(flags) == 0
    decreases |flags|
  {
    if flags != [] { CountTrueOfFalse(flags[..|flags| - 1]); }
  }

  predicate Fails(spec: ErrorSpec, r: Record) { Weight(spec, Mismatched, r) > 0 }

  ghost predicate FailsAt(spec: ErrorSpec, r: Record, p: int) { r.index == p && Fails(spec, r) }

  /** Exactly the positions of failed comparisons are marked, and their number is the
      mismatch total. */
  ghost predicate Marks(spec: ErrorSpec, flags: seq<bool>, log: seq<Record>) {
    && CountTrue(flags) == Total(spec, Mismatched, log)
    && forall p :: 0 <= p < |flags| ==> (flags[p] <==> exists k :: 0 <= k < |log| && FailsAt(spec, log[k], p))
  }

  function Marked(spec: ErrorSpec, flags: seq<bool>, r: Record): seq<bool>
    requires 0 <= r.index < |flags|
  {
    if Fails(spec, r) then flags[r.index := true] else flags
  }

  ghost predicate NewPosition(log: seq<Record>, i: int) {
    forall k :: 0 <= k < |log| ==> log[k].index != i
  }

  lemma {:induction false} MarkStep(spec: ErrorSpec, flags: seq<bool>, log: seq<Record>, r: Record)
    requires Marks(spec, flags, log) && 0 <= r.index < |flags| && NewPosition(log, r.index)
    ensures Marks(spec, Marked(spec, flags, r), log + [r])
  {
    TotalSnoc(spec, Mismatched, log, r);
    CountTrueUpdate(flags, r.index);
    var now, next := Marked(spec, flags, r), log + [r];
    forall p | 0 <= p < |flags| ensures now[p] <==> exists k :: 0 <= k < |next| && FailsAt(spec, next[k], p) {
      if flags[p] {
        var k :| 0 <= k < |log| && FailsAt(spec, log[k], p);
        assert FailsAt(spec, next[k], p);
      } else if p == r.index && Fails(spec, r) {
        assert FailsAt(spec, next[|log|], p);
      }
    }
  }

  /** The comparator's whole state explained by the comparisons made. */
  ghost predicate Explains(spec: ErrorSpec, s: Stats, flags: seq<bool>, log: seq<Record>) {
    Describes(spec, s, log) && Marks(spec, flags, log)
  }

  lemma {:induction false} ExplainStep(spec: ErrorSpec, s: Stats, flags: seq<bool>, log: seq<Record>, r: Record)
    requires Explains(spec, s, flags, log) && r.Valid() && 0 <= r.index < |flags| && NewPosition(log, r.index)
    ensures Explains(spec, AddRecord(spec, s, r), Marked(spec, flags, r), log + [r])
  {
    RecordStep(spec, s, log, r);
    MarkStep(spec, flags, log, r);
  }

  ghost predicate DistinctLog(log: seq<Record>) {
    forall j, k :: 0 <= j < k < |log| ==> log[j].index != log[k].index
  }

  function Start(): Stats { Stats(0, 0, 0, 0, seq(6, _ => (0, 0)), seq(5, _ => 0), seq(5, _ => 0), []) }

  /** The state after a series of comparisons. */
  ghost function After(spec: ErrorSpec, log: seq<Record>, size: nat): (r: (Stats, seq<bool>))
    requires ValidLog(log, size)
    ensures WellFormed(r.0) && Sorted(Rels(r.0.top)) && |r.1| == size
    decreases |log|
  {
    if log == [] then (Start(), seq(size, _ => false)) else
      var (s, flags) := After(spec, log[..|log| - 1], size);
      var r := log[|log| - 1];
      AddRecordSorted(spec, s, r);
      (AddRecord(spec, s, r), Marked(spec, flags, r))
  }

  lemma {:induction false} StartExplained(spec: ErrorSpec, size: nat)
    ensures Explains(spec, Start(), seq(size, _ => false), [])
  {
    CountTrueOfFalse(seq(size, _ => false));
    assert Rels([]) == [];
  }

  lemma {:induction false} ExplainNext(spec: ErrorSpec, done: seq<Record>, r: Record, size: nat)
    requires ValidLog(done, size) && ValidLog(done + [r], size) && NewPosition(done, r.index)
    requires Explains(spec, After(spec, done, size).0, After(spec, done, size).1, done)
    ensures Explains(spec, After(spec, done + [r], size).0, After(spec, done + [r], size).1, done + [r])
  {
    assert (done + [r])[..|done|] == done && (done + [r])[|done|] == r;
    var was := After(spec, done, size);
    ExplainStep(spec, was.0, was.1, done, r);
  }

  /** Every counter, bucket, kept error and mark is what it stands for after any series of
      comparisons of different positions. */
  lemma {:induction false} AlwaysExplained(spec: ErrorSpec, log: seq<Record>, size: nat)
    requires ValidLog(log, size) && DistinctLog(log)
    ensures Explains(spec, After(spec, log, size).0, After(spec, log, size).1, log)
    decreases |log|
  {
    if log == [] {
      StartExplained(spec, size);
    } else {
      var n := |log| - 1;
      AlwaysExplained(spec, log[..n], size);
      assert log == log[..n] + [log[n]];
      ExplainNext(spec, log[..n], log[n], size);
    }
  }

  /** Every kept mismatch reports a compared element truthfully. */
  lemma {:induction false} KeptAreGenuine(spec: ErrorSpec, log: seq<Record>, size: nat)
    requires ValidLog(log, size)
    ensures Genuine(spec, After(spec, log, size).0.top, log)
    decreases |log|
  {
    if log != [] {
      var n := |log| - 1;
      KeptAreGenuine(spec, log[..n], size);
      assert log == log[..n] + [log[n]];
      GenuineStep(spec, After(spec, log[..n], size).0, log[..n], log[n]);
    }
  }

  // ---- the order of comparison does not matter ----

  lemma {:induction false} MarksGather(spec: ErrorSpec, flags: seq<bool>, log: seq<Record>, p: seq<int>)
    requires Marks(spec, flags, log) && |log| == |p| && IsPerm(p)
    ensures Marks(spec, flags, Gather(log, p))
  {
    TotalGather(spec, Mismatched, log, p);
    var g := Gather(log, p);
    forall i | 0 <= i < |flags| ensures flags[i] <==> exists k :: 0 <= k < |g| && FailsAt(spec, g[k], i) {
      if flags[i] {
        var k :| 0 <= k < |log| && FailsAt(spec, log[k], i);
        assert FailsAt(spec, g[PositionOf(p, k)], i);
      }
    }
  }

  lemma {:induction false} ExplainsGather(spec: ErrorSpec, s: Stats, flags: seq<bool>, log: seq<Record>, p: seq<int>)
    requires Explains(spec, s, flags, log) && |log| == |p| && IsPerm(p)
    ensures Explains(spec, s, flags, Gather(log, p))
  {
    DescribesGather(spec, s, log, p);
    MarksGather(spec, flags, log, p);
  }

  /** The comparisons determine the counters, the buckets, the kept relative errors and the
      mismatch literal. */
  lemma {:induction false} ExplanationUnique(spec: ErrorSpec, s: Stats, t: Stats, a: seq<bool>, b: seq<bool>, log: seq<Record>)
    requires Explains(spec, s, a, log) && Explains(spec, t, b, log) && |a| == |b|
    ensures SameStatistics(s, t) && a == b
  {
    SameLogSameStatistics(spec, s, t, log);
    forall i | 0 <= i < |a| ensures a[i] == b[i] {}
  }

  ghost function PathOrder(o: Operands): (p: seq<int>)
    requires o.Valid()
    ensures |p| == |o.actual| && IsPerm(p)
  {
    var sh := o.actualShape;
    var p := seq(|o.actual|, r requires 0 <= r < |o.actual| => Offset(sh, RowIndex(sh.dims, r)));
    forall r | 0 <= r < |p| ensures 0 <= p[r] < |p| { OffsetBound(sh, RowIndex(sh.dims, r)); }
    forall j, k | 0 <= j < k < |p| ensures p[j] != p[k] {
      if p[j] == p[k] { OffsetInjective(sh, RowIndex(sh.dims, j), RowIndex(sh.dims, k)); }
    }
    p
  }

  ghost predicate FastPathApplies(o: Operands) {
    o.expectedShape.minorToMajor == o.actualShape.minorToMajor && o.expectedShape.IsStatic() && o.actualShape.IsStatic()
  }

  /** The slow path would make the comparisons of the fast path in another order. */
  lemma {:induction false} PathsCompareTheSame(o: Operands)
    requires o.Valid() && FastPathApplies(o)
    ensures o.All() == Gather(o.InBufferOrder(|o.actual|), PathOrder(o))
  {
    assert o.Bounds() == o.actualShape.dims;
    var a, b := o.All(), Gather(o.InBufferOrder(|o.actual|), PathOrder(o));
    forall r | 0 <= r < |a| ensures a[r] == b[r] {}
  }

  /** States that these comparisons explain agree, whichever order they were made in. */
  lemma {:induction false} ExplainedAlike(o: Operands, spec: ErrorSpec, s: Stats, a: seq<bool>, t: Stats, b: seq<bool>)
    requires o.Valid() && FastPathApplies(o) && |a| == |b|
    requires Explains(spec, s, a, o.InBufferOrder(|o.actual|)) && Explains(spec, t, b, o.All())
    ensures SameStatistics(s, t) && a == b
  {
    PathsCompareTheSame(o);
    ExplainsGather(spec, s, a, o.InBufferOrder(|o.actual|), PathOrder(o));
    ExplanationUnique(spec, s, t, a, b, o.All());
  }

  // ---- progress of the recursion over dimensions ----

  /** Indices that share the first `d` digits. */
  ghost function Rest(d: nat, bounds: seq<nat>): nat
    requires d <= |bounds|
  {
    Product(bounds[d..])
  }

  /** Indices visited before those that start with `prefix`. */
  ghost function Before(prefix: seq<int>, bounds: seq<nat>): int
    requires |prefix| <= |bounds|
    decreases |prefix|
  {
    if prefix == [] then 0
    else Before(prefix[..|prefix| - 1], bounds) + prefix[|prefix| - 1] * Rest(|prefix|, bounds)
  }

  lemma {:induction false} Expand(r: int, b: int, i: int, q: int)
    ensures (r * b + i) * q == r * (b * q) + i * q
  {}

  lemma {:induction false} RestStep(d: nat, bounds: seq<nat>)
    requires d < |bounds|
    ensures Rest(d, bounds) == bounds[d] * Rest(d + 1, bounds)
  {
    assert bounds[d..][1..] == bounds[d + 1..];
  }

  /** In closed form: the rank of the prefix times the indices that share it. */
  lemma {:induction false} BeforeIsRank(prefix: seq<int>, bounds: seq<nat>)
    requires |prefix| <= |bounds|
    ensures Before(prefix, bounds) == RowRank(prefix, bounds[..|prefix|]) * Rest(|prefix|, bounds)
    decreases |prefix|
  {
    if prefix == [] {
      assert RowRank(prefix, bounds[..0]) == 0;
    } else {
      var d := |prefix| - 1;
      BeforeIsRank(prefix[..d], bounds);
      RestStep(d, bounds);
      var dims := bounds[..d + 1];
      HornerStep(prefix, dims, d);
      assert prefix[..d + 1] == prefix && dims[..d + 1] == dims && dims[..d] == bounds[..d];
      Expand(RowRank(prefix[..d], bounds[..d]), bounds[d], prefix[d], Rest(d + 1, bounds));
    }
  }

  lemma {:induction false} BeforeExtended(prefix: seq<int>, i: int, bounds: seq<nat>)
    requires |prefix| < |bounds|
    ensures Before(prefix + [i], bounds) == Before(prefix, bounds) + i * Rest(|prefix| + 1, bounds)
  {
    assert (prefix + [i])[..|prefix|] == prefix;
  }

  /** The loop over one dimension advances by the size of the remaining ones. */
  lemma {:induction false} BeforeSteps(prefix: seq<int>, i: int, bounds: seq<nat>)
    requires |prefix| < |bounds|
    ensures Before(prefix + [0], bounds) == Before(prefix, bounds)
    ensures Before(prefix + [i + 1], bounds) == Before(prefix + [i], bounds) + Rest(|prefix| + 1, bounds)
    ensures Before(prefix + [bounds[|prefix|]], bounds) == Before(prefix, bounds) + Rest(|prefix|, bounds)
  {
    BeforeExtended(prefix, 0, bounds);
    BeforeExtended(prefix, i, bounds);
    BeforeExtended(prefix, i + 1, bounds);
    BeforeExtended(prefix, bounds[|prefix|], bounds);
    RestStep(|prefix|, bounds);
    OneMore(i, Rest(|prefix| + 1, bounds));
  }

  lemma {:induction false} BeforeWhole(index: seq<int>, bounds: seq<nat>)
    requires |index| == |bounds|
    ensures Before(index, bounds) == RowRank(index, bounds) && Rest(|index|, bounds) == 1
  {
    BeforeIsRank(index, bounds);
    assert bounds[..|index|] == bounds && bounds[|index|..] == [];
  }

  lemma {:induction false} RangeExtended(prefix: seq<int>, i: nat, bounds: seq<nat>)
    requires |prefix| < |bounds| && InRange(prefix, bounds[..|prefix|]) && i < bounds[|prefix|]
    ensures InRange(prefix + [i], bounds[..|prefix| + 1])
  {}

  lemma {:induction false} OneMore(i: int, q: int)
    ensures (i + 1) * q == i * q + q
  {}

  lemma {:induction false} RowOrderStep(o: Operands, index: seq<int>)
    requires o.Valid() && InRange(index, o.Bounds())
    ensures 0 <= RowRank(index, o.Bounds()) < Product(o.Bounds()) && InRange(index, o.actualShape.dims)
    ensures o.InRowOrder(RowRank(index, o.Bounds()) + 1) == o.InRowOrder(RowRank(index, o.Bounds())) + [o.RecordAt(index)]
  {
    InRangeWithin(index, o.Bounds(), o.actualShape.dims);
    RowRankBound(index, o.Bounds());
  }

  lemma {:induction false} BufferOrderStep(o: Operands, i: nat)
    requires o.Valid() && i < |o.actual|
    ensures |o.expected| == |o.actual|
    ensures o.InBufferOrder(i + 1) == o.InBufferOrder(i) + [Record(o.expected[i], o.actual[i], i)]
  {}

  // ---- the comparator ----

  datatype Status = Passed | ShapesDiffer | Mismatches

  datatype Snapshot = Snapshot(inputs: Operands, error: ErrorSpec, stats: Stats, flags: seq<bool>, log: seq<Record>)

  type Inputs = o: Operands | o.Valid()
    ghost witness Operands([Real(NaN(0))], Shape([], [], []), [], [Real(NaN(0))], Shape([], [], []), [], false)

  /** The comparator once the comparisons of `log` are made. */
  ghost function StateAfter(o: Operands, error: ErrorSpec, log: seq<Record>): Snapshot
    requires ValidLog(log, |o.actual|)
  {
    var (stats, flags) := After(error, log, |o.actual|);
    Snapshot(o, error, stats, flags, log)
  }

  /** ... once the first `n` comparisons of the recursive path are made. */
  ghost function AfterFirst(o: Inputs, error: ErrorSpec, n: int): Snapshot {
    StateAfter(o, error, if 0 <= n <= Product(o.Bounds()) then o.InRowOrder(n) else [])
  }

  lemma {:induction false} AfterFirstStep(o: Inputs, error: ErrorSpec, index: seq<int>, n: int, next: int)
    requires InRange(index, o.Bounds()) && n == RowRank(index, o.Bounds()) && next == n + 1
    ensures InRange(index, o.actualShape.dims) && 0 <= n < Product(o.Bounds())
    ensures AfterFirst(o, error, n) == StateAfter(o, error, o.InRowOrder(n))
    ensures ValidLog(o.InRowOrder(n) + [o.RecordAt(index)], |o.actual|)
    ensures AfterFirst(o, error, next) == StateAfter(o, error, o.InRowOrder(n) + [o.RecordAt(index)])
  {
    RowOrderStep(o, index);
  }

  lemma {:induction false} SlowExplained(o: Operands, error: ErrorSpec)
    requires o.Valid()
    ensures var s := StateAfter(o, error, o.All()); Explains(error, s.stats, s.flags, o.All())
  {
    forall j, k | 0 <= j < k < |o.All()| ensures o.All()[j].index != o.All()[k].index {
      if o.All()[j].index == o.All()[k].index { DistinctPositions(o, j, k); }
    }
    AlwaysExplained(error, o.All(), |o.actual|);
  }

  /** Where both paths could be taken they end with the same counters, buckets, kept errors and
      mismatch literal. */
  lemma {:induction false} FastAgreesWithSlow(o: Operands, error: ErrorSpec)
    requires o.Valid() && FastPathApplies(o)
    ensures
      var fast, slow := StateAfter(o, error, o.InBufferOrder(|o.actual|)), StateAfter(o, error, o.All());
      SameStatistics(fast.stats, slow.stats) && fast.flags == slow.flags
  {
    var fast, slow := StateAfter(o, error, o.InBufferOrder(|o.actual|)), StateAfter(o, error, o.All());
    AlwaysExplained(error, o.InBufferOrder(|o.actual|), |o.actual|);
    SlowExplained(o, error);
    ExplainedAlike(o, error, fast.stats, fast.flags, slow.stats, slow.flags);
  }

  /** The comparisons made, in the order of the path taken. */
  ghost function PathLog(o: Operands): (log: seq<Record>)
    requires o.Valid()
    ensures ValidLog(log, |o.actual|)
  {
    if FastPathApplies(o) then o.InBufferOrder(|o.actual|) else o.All()
  }

  /** Whichever path is taken, the state is explained by the comparison of every index in the
      extent. */
  lemma {:induction false} PathExplained(o: Operands, error: ErrorSpec)
    requires o.Valid()
    ensures var s := StateAfter(o, error, PathLog(o)); Explains(error, s.stats, s.flags, o.All())
  {
    if FastPathApplies(o) {
      var log := o.InBufferOrder(|o.actual|);
      AlwaysExplained(error, log, |o.actual|);
      var s := StateAfter(o, error, log);
      PathsCompareTheSame(o);
      ExplainsGather(error, s.stats, s.flags, log, PathOrder(o));
    } else {
      SlowExplained(o, error);
    }
  }

  lemma FromOrigin(o: Operands, error: ErrorSpec)
    requires o.Valid()
    ensures Before([], o.Bounds()) == 0 && 0 <= Rest(0, o.Bounds()) == Product(o.Bounds()) && o.Bounds()[..0] == []
    ensures AfterFirst(o, error, 0) == StateAfter(o, error, [])
    ensures AfterFirst(o, error, Product(o.Bounds())) == StateAfter(o, error, o.All())
  {
    assert o.Bounds()[0..] == o.Bounds() && o.InRowOrder(0) == [];
  }

  ghost predicate AllOfKind(elements: seq<Element>, isComplex: bool) {
    forall k :: 0 <= k < |elements| ==> elements[k].Complex? == isComplex
  }

  lemma {:induction false} OperandsValid(o: Operands)
    requires o.expectedShape.Valid() && o.actualShape.Valid() && o.expectedShape.dims == o.actualShape.dims
    requires |o.expected| == ElementsIn(o.expectedShape) && |o.actual| == ElementsIn(o.actualShape)
    requires |o.expectedSizes| == |o.actualSizes| == |o.actualShape.dims| && SizesFit(o.expectedShape, o.expectedSizes)
    requires AllOfKind(o.expected, o.isComplex) && AllOfKind(o.actual, o.isComplex)
    ensures o.Valid()
  {}

  /** Every element in the extent is within the error bounds. */
  ghost predicate Near(o: Operands, error: ErrorSpec)
    requires o.Valid()
  {
    forall index :: InRange(index, o.Bounds()) ==> !Fails(error, o.RecordAt(index))
  }

  /** The number of mismatches is the number of true cells of the mismatch literal, whose cell
      at an index tells whether that element fails; it is zero exactly if all are near. */
  lemma {:induction false} OutcomeMeaning(o: Operands, error: ErrorSpec, s: Stats, flags: seq<bool>)
    requires o.Valid() && |flags| == |o.actual| && Explains(error, s, flags, o.All())
    ensures s.mismatches == CountTrue(flags) && (s.mismatches == 0 <==> Near(o, error))
    ensures forall index :: InRange(index, o.Bounds()) ==>
              (flags[o.RecordAt(index).index] <==> Fails(error, o.RecordAt(index)))
  {
    NoMismatches(error, o.All());
    forall index | InRange(index, o.Bounds())
      ensures (flags[o.RecordAt(index).index] <==> Fails(error, o.RecordAt(index)))
      ensures s.mismatches == 0 ==> !Fails(error, o.RecordAt(index))
    {
      MarkMeaning(o, error, flags, index);
    }
    if Near(o, error) {
      forall k | 0 <= k < |o.All()| ensures !Fails(error, o.All()[k]) {
        assert InRange(RowIndex(o.Bounds(), k), o.Bounds());
      }
    }
  }

  lemma {:induction false} MarkMeaning(o: Operands, error: ErrorSpec, flags: seq<bool>, index: seq<int>)
    requires o.Valid() && |flags| == |o.actual| && Marks(error, flags, o.All()) && InRange(index, o.Bounds())
    ensures 0 <= RowRank(index, o.Bounds()) < |o.All()| && o.All()[RowRank(index, o.Bounds())] == o.RecordAt(index)
    ensures flags[o.RecordAt(index).index] <==> Fails(error, o.RecordAt(index))
  {
    RowRankBound(index, o.Bounds());
    var j, p := RowRank(index, o.Bounds()), o.RecordAt(index).index;
    assert o.All()[j] == o.RecordAt(index);
    if flags[p] {
      var k :| 0 <= k < |o.All()| && FailsAt(error, o.All()[k], p);
      DistinctPositions(o, j, k);
    } else {
      assert !FailsAt(error, o.All()[j], p);
    }
  }

  /** Nothing mismatches if and only if the mismatch total is zero. */
  lemma {:induction false} NoMismatches(spec: ErrorSpec, log: seq<Record>)
    ensures Total(spec, Mismatched, log) == 0 <==> forall k :: 0 <= k < |log| ==> !Fails(spec, log[k])
    decreases |log|
  {
    if log != [] {
      var n := |log| - 1;
      assert log == log[..n] + [log[n]];
      NoMismatches(spec, log[..n]);
      TotalSnoc(spec, Mismatched, log[..n], log[n]);
      assert forall k :: 0 <= k < n ==> log[k] == log[..n][k];
    }
  }

  /** An index whose position along every dynamic dimension is below the dynamic size. */
  ghost predicate InExtent(index: seq<int>, sh: Shape, sizes: seq<int>) {
    && InRange(index, sh.dims) && |sh.dynamic| == |sizes| == |index|
    && forall d :: 0 <= d < |index| && sh.dynamic[d] ==> index[d] < sizes[d]
  }

  predicate CloseElements(spec: ErrorSpec, expected: Element, actual: Element) {
    match (expected, actual)
    case (Real(e), Real(a)) => !IsMismatch(spec, e, a)
    case (Complex(er, ei), Complex(ar, ai)) => !IsMismatch(spec, er, ar) && !IsMismatch(spec, ei, ai)
    case _ => false
  }

  /** The element at an index, in either buffer. */
  ghost predicate CloseAt(spec: ErrorSpec, expectedShape: Shape, expected: seq<Element>, actualShape: Shape, actual: seq<Element>, index: seq<int>) {
    && expectedShape.Valid() && actualShape.Valid() && |expectedShape.dims| == |actualShape.dims| == |index|
    && 0 <= Offset(expectedShape, index) < |expected| && 0 <= Offset(actualShape, index) < |actual|
    && CloseElements(spec, expected[Offset(expectedShape, index)], actual[Offset(actualShape, index)])
  }

  ghost predicate AllClose(spec: ErrorSpec, expectedShape: Shape, sizes: seq<int>, expected: seq<Element>,
                           actualShape: Shape, actual: seq<Element>) {
    forall index :: InExtent(index, expectedShape, sizes) ==> CloseAt(spec, expectedShape, expected, actualShape, actual, index)
  }

  lemma {:induction false} NearMeans(o: Operands, error: ErrorSpec, index: seq<int>)
    requires o.Valid()
    ensures InRange(index, o.Bounds()) <==> InExtent(index, o.expectedShape, o.expectedSizes)
    ensures InRange(index, o.Bounds()) ==>
              (!Fails(error, o.RecordAt(index)) <==> CloseAt(error, o.expectedShape, o.expected, o.actualShape, o.actual, index))
  {
    if InRange(index, o.Bounds()) {
      assert InRange(index, o.actualShape.dims);
      OffsetBound(o.expectedShape, index);
      OffsetBound(o.actualShape, index);
    }
  }

  lemma {:induction false} NearIsAllClose(o: Operands, error: ErrorSpec)
    requires o.Valid()
    ensures Near(o, error) <==> AllClose(error, o.expectedShape, o.expectedSizes, o.expected, o.actualShape, o.actual)
  {
    forall index
      ensures InRange(index, o.Bounds()) <==> InExtent(index, o.expectedShape, o.expectedSizes)
      ensures InRange(index, o.Bounds()) ==>
                (!Fails(error, o.RecordAt(index)) <==> CloseAt(error, o.expectedShape, o.expected, o.actualShape, o.actual, index))
    {
      NearMeans(o, error, index);
    }
  }

  /** The mismatch literal, laid out like `actual`, is true exactly at the elements that are not
      close. */
  ghost predicate MarksFar(spec: ErrorSpec, expectedShape: Shape, sizes: seq<int>, expected: seq<Element>,
                           actualShape: Shape, actual: seq<Element>, flags: seq<bool>) {
    forall index :: InExtent(index, expectedShape, sizes) ==>
      && actualShape.Valid() && |index| == |actualShape.dims| && 0 <= Offset(actualShape, index) < |flags|
      && (flags[Offset(actualShape, index)] <==> !CloseAt(spec, expectedShape, expected, actualShape, actual, index))
  }

  lemma {:induction false} MarksAreFar(o: Operands, error: ErrorSpec, flags: seq<bool>)
    requires o.Valid() && |flags| == |o.actual|
    requires forall index :: InRange(index, o.Bounds()) ==> (flags[o.RecordAt(index).index] <==> Fails(error, o.RecordAt(index)))
    ensures MarksFar(error, o.expectedShape, o.expectedSizes, o.expected, o.actualShape, o.actual, flags)
  {
    forall index | InExtent(index, o.expectedShape, o.expectedSizes)
      ensures && 0 <= Offset(o.actualShape, index) < |flags|
              && (flags[Offset(o.actualShape, index)] <==> !CloseAt(error, o.expectedShape, o.expected, o.actualShape, o.actual, index))
    {
      NearMeans(o, error, index);
      assert InRange(index, o.actualShape.dims) && o.RecordAt(index).index == Offset(o.actualShape, index);
    }
  }

  class NearComparator {
    const expected: Literal<Element>
    const actual: Literal<Element>
    const error: ErrorSpec
    const isComplex: bool  // the element type of both literals
    var numMismatches: int
    var numNanMismatches: int
    var numAbsMismatches: int
    var numRelMismatches: int
    var absValueBuckets: seq<(int, int)>
    var absErrorBuckets: seq<int>
    var relErrorBuckets: seq<int>
    var topRelMismatches: seq<Mismatch>
    var mismatches: array<bool>
    ghost var log: seq<Record>

    ghost function View(): Stats
      reads this
    {
      Stats(numMismatches, numNanMismatches, numAbsMismatches, numRelMismatches,
            absValueBuckets, absErrorBuckets, relErrorBuckets, topRelMismatches)
    }

    ghost function Values(): Operands
      reads expected, actual, expected.data, actual.data
    {
      Operands(expected.data[..], expected.shape, expected.dynamicSizes,
               actual.data[..], actual.shape, actual.dynamicSizes, isComplex)
    }

    ghost function State(): Snapshot
      reads this, mismatches, expected, actual, expected.data, actual.data
    {
      Snapshot(Values(), error, View(), mismatches[..], log)
    }

    ghost predicate Ready()
      reads this
    {
      WellFormed(View()) && Sorted(Rels(topRelMismatches))
    }

    constructor (expected: Literal<Element>, actual: Literal<Element>, error: ErrorSpec, isComplex: bool)
      ensures this.expected == expected && this.actual == actual && this.error == error && this.isComplex == isComplex
      ensures View() == Start()
      ensures log == [] && fresh(mismatches)
    {
      this.expected, this.actual, this.error, this.isComplex := expected, actual, error, isComplex;
      numMismatches, numNanMismatches, numAbsMismatches, numRelMismatches := 0, 0, 0, 0;
      absValueBuckets, absErrorBuckets, relErrorBuckets := seq(6, _ => (0, 0)), seq(5, _ => 0), seq(5, _ => 0);
      topRelMismatches, log := [], [];
      mismatches := new bool[0];
    }

    method UpdateAbsValueBucket(value: Float, isMismatch: bool)
      requires Ready()
      modifies this`absValueBuckets
      ensures absValueBuckets == AddMagnitude(old(absValueBuckets), value, isMismatch)
    {
      for i := 0 to |absValueBuckets|
        invariant absValueBuckets == old(absValueBuckets)
        invariant forall j :: 0 <= j < i ==> !InBucket(j, value)
        invariant forall j :: 0 <= j < i && j < 5 ==> !MagnitudeIn(value, ABS_VALUE_BOUNDS[j], ABS_VALUE_BOUNDS[j + 1])
      {
        if i == |absValueBuckets| - 1 || MagnitudeIn(value, ABS_VALUE_BOUNDS[i], ABS_VALUE_BOUNDS[i + 1]) {
          EarlierBuckets(value, i);
          var (count, failed) := absValueBuckets[i];
          absValueBuckets := absValueBuckets[i := (count + 1, if isMismatch then failed + 1 else failed)];
          return;
        }
      }
    }

    /** The first matching bucket is the only one. */
    static lemma EarlierBuckets(v: Float, i: nat)
      requires i < 6 && (i == 5 || MagnitudeIn(v, ABS_VALUE_BOUNDS[i], ABS_VALUE_BOUNDS[i + 1]))
      requires forall j :: 0 <= j < i && j < 5 ==> !MagnitudeIn(v, ABS_VALUE_BOUNDS[j], ABS_VALUE_BOUNDS[j + 1])
      ensures InBucket(i, v) && forall j :: i < j < 6 ==> !InBucket(j, v)
    {
      assert forall j :: 0 <= j < 5 && j != i ==> !InBucket(j, v);
      if i == 5 && MagnitudeIn(v, ABS_VALUE_BOUNDS[0], ABS_VALUE_BOUNDS[5]) {
        InOneBucket(v);
        assert false;
      }
    }

    static method UpdateErrorBucket(error: Error, buckets: seq<int>) returns (updated: seq<int>)
      requires |buckets| == 5
      ensures updated == AddError(buckets, error)
    {
      updated := buckets;
      for i := 0 to |buckets|
        invariant |updated| == 5
        invariant forall j :: 0 <= j < i ==> updated[j] == buckets[j] + One(error.AtLeast(ERROR_BOUNDS[j]))
        invariant forall j :: i <= j < 5 ==> updated[j] == buckets[j]
      {
        if error.AtLeast(ERROR_BOUNDS[i]) { updated := updated[i := updated[i] + 1]; }
      }
    }

    /** Counts and marks a mismatch, and keeps it if it is among the largest. */
    method NoteMismatch(m: Mismatch)
      requires Sorted(Rels(topRelMismatches)) && 0 <= m.index < mismatches.Length
      modifies this`numMismatches, this`topRelMismatches, mismatches
      ensures numMismatches == old(numMismatches) + 1 && topRelMismatches == AddMismatch(old(topRelMismatches), m)
      ensures mismatches[..] == old(mismatches[..])[m.index := true]
    {
      numMismatches := numMismatches + 1;
      if |topRelMismatches| < TOP_COUNT || topRelMismatches[0].rel.Less(m.rel) {
        topRelMismatches := Insert(topRelMismatches, UpperBound(Rels(topRelMismatches), m.rel), m);
        if |topRelMismatches| > TOP_COUNT { topRelMismatches := topRelMismatches[1..]; }
      }
      mismatches[m.index] := true;
    }

    /** Compares one pair of numbers. */
    method CompareNumbers(expectedValue: Float, actualValue: Float, linearIndex: int)
      requires Ready() && 0 <= linearIndex < mismatches.Length
      modifies this, mismatches
      ensures mismatches == old(mismatches) && log == old(log) && Ready()
      ensures View() == AddPart(error, old(View()), expectedValue, actualValue, linearIndex)
      ensures mismatches[..] == if IsMismatch(error, expectedValue, actualValue) then old(mismatches[..])[linearIndex := true]
                                else old(mismatches[..])
    {
      AddPartSorted(error, View(), expectedValue, actualValue, linearIndex);
      ghost var next := AddPart(error, View(), expectedValue, actualValue, linearIndex);
      var e := ErrorsOf(error, expectedValue, actualValue);
      var isMismatch := RecordErrors(e);
      UpdateAbsValueBucket(actualValue, isMismatch);
      if isMismatch { NoteMismatch(Mismatch(actualValue, expectedValue, e.rel, e.abs, linearIndex)); }
      assert View() == next;
    }

    /** Counts the errors against each limit; the relative error goes into its buckets only if
        the absolute limit is exceeded, and vice versa. */
    method RecordErrors(e: Errors) returns (isMismatch: bool)
      requires Ready()
      modifies this`numNanMismatches, this`numAbsMismatches, this`numRelMismatches, this`absErrorBuckets, this`relErrorBuckets
      ensures isMismatch <==> e.abs.Exceeds(error.abs) && e.rel.Exceeds(error.rel)
      ensures numNanMismatches == old(numNanMismatches) + One(e.nan)
      ensures numAbsMismatches == old(numAbsMismatches) + One(e.abs.Exceeds(error.abs))
      ensures numRelMismatches == old(numRelMismatches) + One(e.rel.Exceeds(error.rel))
      ensures relErrorBuckets == if e.abs.Exceeds(error.abs) then AddError(old(relErrorBuckets), e.rel) else old(relErrorBuckets)
      ensures absErrorBuckets == if e.rel.Exceeds(error.rel) then AddError(old(absErrorBuckets), e.abs) else old(absErrorBuckets)
    {
      if e.nan { numNanMismatches := numNanMismatches + 1; }
      var isAbsMismatch, isRelMismatch := e.abs.Exceeds(error.abs), e.rel.Exceeds(error.rel);
      isMismatch := isAbsMismatch && isRelMismatch;
      if isAbsMismatch {
        numAbsMismatches := numAbsMismatches + 1;
        relErrorBuckets := UpdateErrorBucket(e.rel, relErrorBuckets);
      }
      if isRelMismatch {
        numRelMismatches := numRelMismatches + 1;
        absErrorBuckets := UpdateErrorBucket(e.abs, absErrorBuckets);
      }
    }

    /** Compares one element; complex elements by parts, counted at most once. */
    method CompareValues(r: Record)
      requires Ready() && r.Valid() && 0 <= r.index < mismatches.Length
      modifies this, mismatches
      ensures mismatches == old(mismatches) && log == old(log) && Ready()
      ensures View() == AddRecord(error, old(View()), r)
      ensures mismatches[..] == Marked(error, old(mismatches[..]), r)
    {
      match r.expected
      case Real(e) => CompareNumbers(e, r.actual.x, r.index);
      case Complex(re, im) =>
        var bothPartsMismatch := numMismatches + 2;
        CompareNumbers(re, r.actual.re, r.index);
        CompareNumbers(im, r.actual.im, r.index);
        if numMismatches == bothPartsMismatch { numMismatches := numMismatches - 1; }
    }

    /** Compares one more element. */
    method CompareNext(r: Record, ghost o: Operands, ghost done: seq<Record>)
      requires ValidLog(done + [r], |o.actual|) && ValidLog(done, |o.actual|) && State() == StateAfter(o, error, done)
      modifies this, mismatches
      ensures mismatches == old(mismatches) && State() == StateAfter(o, error, done + [r])
    {
      assert (done + [r])[..|done|] == done && (done + [r])[|done|] == r;
      assert State().flags == StateAfter(o, error, done).flags && State().stats == StateAfter(o, error, done).stats;
      CompareValues(r);
      log := log + [r];
    }

    /** Reads the elements at one index. */
    method Read(index: seq<int>, ghost o: Inputs) returns (r: Record)
      requires Values() == o && InRange(index, o.actualShape.dims)
      ensures r == o.RecordAt(index)
    {
      var e := expected.Get(index);
      var a := actual.Get(index);
      var linear := MultidimensionalIndexToLinearIndex(actual.shape, index);
      r := Record(e, a, linear);
      OffsetBound(expected.shape, index);
      OffsetBound(actual.shape, index);
      assert e == expected.data[..][Offset(expected.shape, index)] && a == actual.data[..][Offset(actual.shape, index)];
    }

    method CompareAt(index: seq<int>, ghost o: Inputs, ghost at: int) returns (ghost end: int)
      requires InRange(index, o.Bounds()) && at == RowRank(index, o.Bounds()) && State() == AfterFirst(o, error, at)
      modifies this, mismatches
      ensures mismatches == old(mismatches) && end == at + 1 && State() == AfterFirst(o, error, end)
    {
      end := at + 1;
      AfterFirstStep(o, error, index, at, end);
      assert State().inputs == o;
      var r := Read(index, o);
      CompareNext(r, o, o.InRowOrder(at));
    }

    /** Compares everything that starts with the index fixed so far. */
    method CompareLiteralsSlow(dimension: nat, multiIndex: array<int>, ghost o: Inputs, ghost at: int) returns (ghost end: int)
      requires dimension <= multiIndex.Length == |o.Bounds()|
      requires InRange(multiIndex[..dimension], o.Bounds()[..dimension])
      requires at == Before(multiIndex[..dimension], o.Bounds()) && State() == AfterFirst(o, error, at)
      modifies this, mismatches, multiIndex
      ensures mismatches == old(mismatches) && multiIndex[..dimension] == old(multiIndex[..dimension])
      ensures end == at + Rest(dimension, o.Bounds()) && State() == AfterFirst(o, error, end)
      decreases multiIndex.Length - dimension, 2
    {
      ghost var prefix, bounds := multiIndex[..dimension], o.Bounds();
      if dimension == multiIndex.Length {
        assert bounds[..dimension] == bounds && multiIndex[..] == prefix;
        BeforeWhole(prefix, bounds);
        end := CompareAt(multiIndex[..], o, at);
      } else {
        end := CompareDimension(dimension, multiIndex, o, at);
      }
    }

    /** The loop over `dimension`. */
    method CompareDimension(dimension: nat, multiIndex: array<int>, ghost o: Inputs, ghost at: int) returns (ghost end: int)
      requires dimension < multiIndex.Length == |o.Bounds()|
      requires InRange(multiIndex[..dimension], o.Bounds()[..dimension])
      requires at == Before(multiIndex[..dimension], o.Bounds()) && State() == AfterFirst(o, error, at)
      modifies this, mismatches, multiIndex
      ensures mismatches == old(mismatches) && multiIndex[..dimension] == old(multiIndex[..dimension])
      ensures end == at + Rest(dimension, o.Bounds()) && State() == AfterFirst(o, error, end)
      decreases multiIndex.Length - dimension, 1
    {
      ghost var prefix, bounds := multiIndex[..dimension], o.Bounds();
      assert State().inputs == o;
      var upperBound := UpTo(expected.shape, expected.dynamicSizes, dimension);
      BeforeSteps(prefix, 0, bounds);
      end := at;
      for i := 0 to upperBound
        invariant mismatches == old(mismatches) && multiIndex[..dimension] == prefix
        invariant end == Before(prefix + [i], bounds) && State() == AfterFirst(o, error, end)
      {
        BeforeSteps(prefix, i, bounds);
        ghost var next := Before(prefix + [i + 1], bounds);
        assert end + Rest(dimension + 1, o.Bounds()) == next;
        end := CompareAlong(dimension, i, multiIndex, o, end);
        assert end == next;
      }
    }

    /** One round of the loop over `dimension`. */
    method CompareAlong(dimension: nat, i: nat, multiIndex: array<int>, ghost o: Inputs, ghost at: int) returns (ghost end: int)
      requires dimension < multiIndex.Length == |o.Bounds()| && i < o.Bounds()[dimension]
      requires InRange(multiIndex[..dimension], o.Bounds()[..dimension])
      requires at == Before(multiIndex[..dimension] + [i], o.Bounds()) && State() == AfterFirst(o, error, at)
      modifies this, mismatches, multiIndex
      ensures mismatches == old(mismatches) && multiIndex[..dimension] == old(multiIndex[..dimension])
      ensures end == at + Rest(dimension + 1, o.Bounds()) && State() == AfterFirst(o, error, end)
      decreases multiIndex.Length - dimension, 0
    {
      ghost var prefix := multiIndex[..dimension];
      RangeExtended(prefix, i, o.Bounds());
      SetDigit(multiIndex, dimension, i);
      end := CompareLiteralsSlow(dimension + 1, multiIndex, o, at);
      ShorterPrefix(multiIndex[..], prefix, i);
    }

    static method SetDigit(multiIndex: array<int>, dimension: nat, i: int)
      requires dimension < multiIndex.Length
      modifies multiIndex
      ensures multiIndex[..dimension + 1] == old(multiIndex[..dimension]) + [i]
    {
      multiIndex[dimension] := i;
    }

    static lemma ShorterPrefix(index: seq<int>, prefix: seq<int>, i: int)
      requires |prefix| < |index| && index[..|prefix| + 1] == prefix + [i]
      ensures index[..|prefix|] == prefix
    {
      assert index[..|prefix|] == index[..|prefix| + 1][..|prefix|];
    }

    /** Element by element through both buffers. */
    method CompareLiteralsFast(ghost o: Operands)
      requires o.Valid() && State() == StateAfter(o, error, o.InBufferOrder(0))
      modifies this, mismatches
      ensures mismatches == old(mismatches) && State() == StateAfter(o, error, o.InBufferOrder(|o.actual|))
    {
      ghost var done := o.InBufferOrder(0);
      assert State().inputs == o;
      for i := 0 to expected.data.Length
        invariant mismatches == old(mismatches) && i <= |o.actual| && done == o.InBufferOrder(i)
        invariant State() == StateAfter(o, error, done)
      {
        assert State().inputs == o;
        ghost var r := Record(o.expected[i], o.actual[i], i);
        BufferOrderStep(o, i);
        CompareNext(Record(expected.data[i], actual.data[i], i), o, done);
        done := done + [r];
      }
    }

    /** Compares the two literals element by element, on one of two paths. */
    method CompareLiterals(ghost o: Operands)
      requires o.Valid() && State() == StateAfter(o, error, [])
      modifies this, mismatches
      ensures mismatches == old(mismatches) && State() == StateAfter(o, error, PathLog(o))
    {
      assert State().inputs == o;
      if actual.shape.minorToMajor == expected.shape.minorToMajor && expected.shape.IsStatic() && actual.shape.IsStatic() {
        assert o.InBufferOrder(0) == [];
        CompareLiteralsFast(o);
      } else {
        CompareFromOrigin(o);
      }
    }

    /** The slow path, from an empty prefix on. */
    method CompareFromOrigin(ghost o: Operands)
      requires o.Valid() && State() == StateAfter(o, error, [])
      modifies this, mismatches
      ensures mismatches == old(mismatches) && State() == StateAfter(o, error, o.All())
    {
      assert State().inputs == o;
      var multiIndex := new int[actual.shape.Rank()];
      FromOrigin(o, error);
      ghost var prefix := multiIndex[..0];
      assert prefix == [];
      ghost var end := CompareLiteralsSlow(0, multiIndex, o, 0);
      assert end == Product(o.Bounds());
    }

    /** The whole comparison. */
    method Run() returns (status: Status)
      requires expected.Valid() && actual.Valid() && View() == Start() && log == []
      requires SizesFit(expected.shape, expected.dynamicSizes)
      requires AllOfKind(expected.data[..], isComplex) && AllOfKind(actual.data[..], isComplex)
      modifies this
      ensures status.ShapesDiffer? <==> expected.shape.dims != actual.shape.dims
      ensures !status.ShapesDiffer? ==>
                && Values().Valid() && |mismatches[..]| == |Values().actual|
                && Explains(error, View(), mismatches[..], Values().All())
                && (status.Passed? <==> Near(Values(), error))
      ensures !status.ShapesDiffer? ==>
                (status.Passed? <==> AllClose(error, expected.shape, expected.dynamicSizes, expected.data[..],
                                              actual.shape, actual.data[..]))
      ensures !status.ShapesDiffer? ==> numMismatches == CountTrue(mismatches[..])
      ensures !status.ShapesDiffer? ==>
                MarksFar(error, expected.shape, expected.dynamicSizes, expected.data[..],
                         actual.shape, actual.data[..], mismatches[..])
    {
      if expected.shape.dims != actual.shape.dims { return ShapesDiffer; }
      mismatches := new bool[ElementsIn(actual.shape)](_ => false);
      ghost var o := Values();
      OperandsValid(o);
      assert mismatches[..] == seq(|o.actual|, _ => false);
      assert State() == StateAfter(o, error, []);
      CompareLiterals(o);
      PathExplained(o, error);
      ghost var s := StateAfter(o, error, PathLog(o));
      assert State().stats == s.stats && State().flags == s.flags && State().inputs == o;
      OutcomeMeaning(o, error, s.stats, s.flags);
      status := if numMismatches == 0 then Passed else Mismatches;
      NearIsAllClose(o, error);
      MarksAreFar(o, error, s.flags);
    }
  }
}
