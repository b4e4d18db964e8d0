/** Statistics about mismatching floating-point elements: what each counter, bucket and kept
    error of `NearComparator` stands for (xla/literal_comparison.cc). Numbers are exact reals. */
module MismatchStatistics {
  import opened Permutations
  import opened Layouts

  // ---- values and errors ----

  datatype Float = NaN(bits: int) | Inf(negative: bool) | Num(value: real, negativeZero: bool)

  datatype Error = Fin(r: real) | Infinite {
    predicate Exceeds(limit: real) { Infinite? || r > limit }
    predicate AtLeast(limit: real) { Infinite? || r >= limit }
    predicate Less(other: Error) { Fin? && (other.Infinite? || r < other.r) }
  }

  datatype ErrorSpec = ErrorSpec(abs: real, rel: real, relaxedNans: bool, allNansAreEquivalent: bool,
                                 fewerInfsOk: bool, maxFinite: real)

  function RealAbs(x: real): real { if x < 0.0 then -x else x }

  datatype Errors = Errors(abs: Error, rel: Error, nan: bool)

  function Difference(expected: real, actual: real): Errors {
    var d := RealAbs(actual - expected);
    Errors(Fin(d), if expected != 0.0 then Fin(d / RealAbs(expected)) else Infinite, false)
  }

  /** The absolute and relative error of one pair; bitwise equality comes first. */
  function ErrorsOf(spec: ErrorSpec, expected: Float, actual: Float): Errors {
    if expected == actual then Errors(Fin(0.0), Fin(0.0), false)
    else if expected.NaN? || actual.NaN? then
      if spec.allNansAreEquivalent && expected.NaN? && actual.NaN? then Errors(Fin(0.0), Fin(0.0), false)
      else if (!spec.relaxedNans && expected.NaN? != actual.NaN?) || (spec.relaxedNans && !expected.NaN? && actual.NaN?) then
        Errors(Infinite, Infinite, true)
      else Errors(Fin(0.0), Fin(0.0), false)
    else if actual.Inf? && !expected.Inf? && spec.fewerInfsOk then
      Difference(expected.value, if actual.negative then -spec.maxFinite else spec.maxFinite)
    else if expected.Inf? || actual.Inf? then Errors(Infinite, Infinite, false)
    else Difference(expected.value, actual.value)
  }

  predicate IsMismatch(spec: ErrorSpec, expected: Float, actual: Float) {
    var e := ErrorsOf(spec, expected, actual);
    e.abs.Exceeds(spec.abs) && e.rel.Exceeds(spec.rel)
  }

  lemma {:induction false} Quotient(d: real, e: real, limit: real)
    requires e > 0.0
    ensures d / e > limit <==> d > limit * e
  {
    assert d == (d / e) * e;
    if d / e > limit { Scaled(limit, d / e, e); } else { ScaledAtMost(d / e, limit, e); }
  }

  lemma Scaled(a: real, b: real, c: real)
    requires a < b && c > 0.0
    ensures a * c < b * c
  {}

  lemma ScaledAtMost(a: real, b: real, c: real)
    requires a <= b && c > 0.0
    ensures a * c <= b * c
  {}

  /** For finite numbers the test needs no division: the difference exceeds the absolute limit
      and the relative limit times the expected magnitude. */
  lemma {:induction false} FiniteMismatch(spec: ErrorSpec, expected: Float, actual: Float)
    requires expected.Num? && actual.Num? && spec.abs >= 0.0
    ensures IsMismatch(spec, expected, actual) <==>
              RealAbs(actual.value - expected.value) > spec.abs
              && RealAbs(actual.value - expected.value) > spec.rel * RealAbs(expected.value)
  {
    if expected.value != 0.0 {
      Quotient(RealAbs(actual.value - expected.value), RealAbs(expected.value), spec.rel);
    }
  }

  /** The pair is compared by its difference: two numbers that are not bitwise equal, or a number
      and an infinity that stands for the largest finite value. */
  predicate ByDifference(spec: ErrorSpec, expected: Float, actual: Float) {
    expected.Num? && expected != actual && (actual.Num? || (actual.Inf? && spec.fewerInfsOk))
  }

  /** `x` is the magnitude of `y`. */
  predicate IsMagnitude(x: real, y: real) { x >= 0.0 && (x == y || x == -y) }

  /** The number that `actual` is compared as. */
  predicate StandsFor(spec: ErrorSpec, actual: Float, y: real) {
    match actual
    case Num(value, _) => y == value
    case Inf(negative) => y == if negative then -spec.maxFinite else spec.maxFinite
    case NaN(_) => false
  }

  /** Which pairs mismatch, case by case. */
  lemma MismatchTable(spec: ErrorSpec, expected: Float, actual: Float)
    requires spec.abs >= 0.0 && spec.rel >= 0.0
    ensures expected == actual || (expected.NaN? && actual.NaN?) ==> !IsMismatch(spec, expected, actual)
    ensures expected.NaN? && !actual.NaN? ==> (IsMismatch(spec, expected, actual) <==> !spec.relaxedNans)
    ensures !expected.NaN? && actual.NaN? ==> IsMismatch(spec, expected, actual)
    ensures expected.Inf? && actual.Inf? ==> (IsMismatch(spec, expected, actual) <==> expected.negative != actual.negative)
    ensures expected.Inf? && actual.Num? ==> IsMismatch(spec, expected, actual)
    ensures expected.Num? && actual.Inf? && !spec.fewerInfsOk ==> IsMismatch(spec, expected, actual)
    ensures ErrorsOf(spec, expected, actual).nan <==> expected.NaN? != actual.NaN? && IsMismatch(spec, expected, actual)
  {}

  /** The remaining pairs: `d` is their distance and `m` the expected magnitude. An expected zero
      exceeds every relative limit. */
  lemma {:induction false} DifferenceTable(spec: ErrorSpec, expected: Float, actual: Float, y: real, d: real, m: real, bound: real)
    requires spec.abs >= 0.0 && ByDifference(spec, expected, actual) && StandsFor(spec, actual, y)
    requires IsMagnitude(d, y - expected.value) && IsMagnitude(m, expected.value)
    ensures IsMismatch(spec, expected, actual) <==> d > spec.abs && d > spec.rel * m
    ensures LimitsOf(spec, ErrorsOf(spec, expected, actual), d, m, bound)
  {
    ErrorsByDifference(spec, expected, actual, y, d, m);
    ErrorLimits(spec, ErrorsOf(spec, expected, actual), d, m, bound);
  }

  /** How errors of distance `d` compare with the limits and with a bucket's bound. */
  predicate LimitsOf(spec: ErrorSpec, e: Errors, d: real, m: real, bound: real) {
    && (e.abs.Exceeds(spec.abs) <==> d > spec.abs) && (e.rel.Exceeds(spec.rel) <==> m == 0.0 || d > spec.rel * m)
    && (e.abs.AtLeast(bound) <==> d >= bound) && (e.rel.AtLeast(bound) <==> m == 0.0 || d >= bound * m)
  }

  lemma {:induction false} ErrorLimits(spec: ErrorSpec, e: Errors, d: real, m: real, bound: real)
    requires e.abs == Fin(d) && e.rel == Relative(d, m) && m >= 0.0 && d >= 0.0 && spec.abs >= 0.0
    ensures LimitsOf(spec, e, d, m, bound)
    ensures e.abs.Exceeds(spec.abs) && e.rel.Exceeds(spec.rel) <==> d > spec.abs && d > spec.rel * m
  {
    RelativeToLimit(d, m, spec.rel);
    RelativeToLimit(d, m, bound);
    if m == 0.0 { TimesZero(spec.rel, m); }
  }

  function Relative(d: real, m: real): Error { if m == 0.0 then Infinite else Fin(d / m) }

  lemma TimesZero(x: real, m: real)
    requires m == 0.0
    ensures x * m == 0.0
  {}

  lemma {:induction false} RelativeToLimit(d: real, m: real, limit: real)
    requires m >= 0.0
    ensures Relative(d, m).Exceeds(limit) <==> m == 0.0 || d > limit * m
    ensures Relative(d, m).AtLeast(limit) <==> m == 0.0 || d >= limit * m
  {
    if m != 0.0 {
      Quotient(d, m, limit);
      QuotientAtLeast(d, m, limit);
    }
  }

  lemma ErrorsByDifference(spec: ErrorSpec, expected: Float, actual: Float, y: real, d: real, m: real)
    requires ByDifference(spec, expected, actual) && StandsFor(spec, actual, y)
    requires IsMagnitude(d, y - expected.value) && IsMagnitude(m, expected.value)
    ensures ErrorsOf(spec, expected, actual) == Errors(Fin(d), Relative(d, m), false)
  {}

  lemma {:induction false} QuotientAtLeast(d: real, e: real, limit: real)
    requires e > 0.0
    ensures d / e >= limit <==> d >= limit * e
  {
    assert d == (d / e) * e;
    if d / e >= limit { ScaledAtMost(limit, d / e, e); } else { Scaled(d / e, limit, e); }
  }

  /** For all other pairs every count of an exceeded limit, and every error bucket, counts
      exactly the mismatches. */
  lemma OtherwiseTable(spec: ErrorSpec, expected: Float, actual: Float, i: int)
    requires spec.abs >= 0.0 && spec.rel >= 0.0 && !ByDifference(spec, expected, actual)
    ensures PartCounts(spec, AbsMismatch, expected, actual) <==> IsMismatch(spec, expected, actual)
    ensures PartCounts(spec, RelMismatch, expected, actual) <==> IsMismatch(spec, expected, actual)
    ensures PartCounts(spec, AbsError(i), expected, actual) <==> IsMismatch(spec, expected, actual) && 0 <= i < 5
    ensures PartCounts(spec, RelError(i), expected, actual) <==> IsMismatch(spec, expected, actual) && 0 <= i < 5
  {}

  /** What is counted of a pair compared by its difference: error bucket `i` counts distances, or
      distances in units of the expected magnitude, of at least its bound, and only where the
      other limit is exceeded. */
  lemma {:induction false} ByDifferenceTable(spec: ErrorSpec, expected: Float, actual: Float, y: real, d: real, m: real, i: int)
    requires spec.abs >= 0.0 && ByDifference(spec, expected, actual) && StandsFor(spec, actual, y)
    requires IsMagnitude(d, y - expected.value) && IsMagnitude(m, expected.value) && 0 <= i < 5
    ensures PartCounts(spec, AbsMismatch, expected, actual) <==> d > spec.abs
    ensures PartCounts(spec, RelMismatch, expected, actual) <==> m == 0.0 || d > spec.rel * m
    ensures PartCounts(spec, AbsError(i), expected, actual) <==> (m == 0.0 || d > spec.rel * m) && d >= ERROR_BOUNDS[i]
    ensures PartCounts(spec, RelError(i), expected, actual) <==> d > spec.abs && (m == 0.0 || d >= ERROR_BOUNDS[i] * m)
  {
    DifferenceTable(spec, expected, actual, y, d, m, ERROR_BOUNDS[i]);
  }

  /** Bounds are decades up to one; below the first magnitude bound is zero. */
  lemma BoundsAreDecades()
    ensures ERROR_BOUNDS[4] == 1.0 && forall i :: 0 <= i < 4 ==> ERROR_BOUNDS[i + 1] == 10.0 * ERROR_BOUNDS[i]
    ensures ABS_VALUE_BOUNDS == [0.0] + ERROR_BOUNDS
  {}

  /** A number below one is in the bucket between the two bounds around its magnitude, which may
      equal the lower one; everything else is in the last bucket. */
  lemma BucketTable(v: Float, m: real, i: int)
    requires 0 <= i <= 5 && (v.Num? ==> IsMagnitude(m, v.value))
    ensures v.Num? && m < 1.0 ==>
              (InBucket(i, v) <==> i < 5 && m < ERROR_BOUNDS[i] && (i > 0 ==> ERROR_BOUNDS[i - 1] <= m))
    ensures !v.Num? || m >= 1.0 ==> (InBucket(i, v) <==> i == 5)
  {}

  const ABS_VALUE_BOUNDS: seq<real> := [0.0, 0.0001, 0.001, 0.01, 0.1, 1.0]
  const ERROR_BOUNDS: seq<real> := [0.0001, 0.001, 0.01, 0.1, 1.0]
  const TOP_COUNT: nat := 5

  predicate MagnitudeIn(v: Float, lo: real, hi: real) { v.Num? && lo <= RealAbs(v.value) < hi }

  /** Bucket `i` of six by magnitude; whatever fits no earlier one is in the last. */
  predicate InBucket(i: int, v: Float) {
    if 0 <= i < 5 then MagnitudeIn(v, ABS_VALUE_BOUNDS[i], ABS_VALUE_BOUNDS[i + 1])
    else i == 5 && !MagnitudeIn(v, ABS_VALUE_BOUNDS[0], ABS_VALUE_BOUNDS[5])
  }

  // ---- what is counted ----

  datatype Element = Real(x: Float) | Complex(re: Float, im: Float)

  datatype Record = Record(expected: Element, actual: Element, index: int) {
    predicate Valid() { expected.Real? <==> actual.Real? }
  }

  /** The statistics, as counts over the compared parts (one per real, two per complex
      element); `Mismatched` counts elements. */
  datatype Stat =
    | Mismatched | Part | PartMismatched | NanMismatch | AbsMismatch | RelMismatch
    | Bucket(i: int) | BucketMismatch(i: int)
    | AbsError(i: int) | RelError(i: int) | RelErrorIs(x: Error)

  predicate PartCounts(spec: ErrorSpec, stat: Stat, expected: Float, actual: Float) {
    var e := ErrorsOf(spec, expected, actual);
    match stat
    case Mismatched => IsMismatch(spec, expected, actual)
    case Part => true
    case PartMismatched => IsMismatch(spec, expected, actual)
    case NanMismatch => e.nan
    case AbsMismatch => e.abs.Exceeds(spec.abs)
    case RelMismatch => e.rel.Exceeds(spec.rel)
    case Bucket(i) => InBucket(i, actual)
    case BucketMismatch(i) => InBucket(i, actual) && IsMismatch(spec, expected, actual)
    case AbsError(i) => e.rel.Exceeds(spec.rel) && 0 <= i < 5 && e.abs.AtLeast(ERROR_BOUNDS[i])
    case RelError(i) => e.abs.Exceeds(spec.abs) && 0 <= i < 5 && e.rel.AtLeast(ERROR_BOUNDS[i])
    case RelErrorIs(x) => IsMismatch(spec, expected, actual) && e.rel == x
  }

  function One(b: bool): nat { if b then 1 else 0 }

  function Weight(spec: ErrorSpec, stat: Stat, r: Record): nat {
    match (r.expected, r.actual)
    case (Real(e), Real(a)) => One(PartCounts(spec, stat, e, a))
    case (Complex(er, ei), Complex(ar, ai)) =>
      if stat.Mismatched? then One(PartCounts(spec, stat, er, ar) || PartCounts(spec, stat, ei, ai))
      else One(PartCounts(spec, stat, er, ar)) + One(PartCounts(spec, stat, ei, ai))
    case _ => 0
  }

  function Sum(ns: seq<nat>): nat {
    if ns == [] then 0 else Sum(ns[..|ns| - 1]) + ns[|ns| - 1]
  }

  function Weights(spec: ErrorSpec, stat: Stat, log: seq<Record>): (w: seq<nat>)
    ensures |w| == |log| && forall k :: 0 <= k < |w| ==> w[k] == Weight(spec, stat, log[k])
  {
    seq(|log|, k requires 0 <= k < |log| => Weight(spec, stat, log[k]))
  }

  function Total(spec: ErrorSpec, stat: Stat, log: seq<Record>): nat { Sum(Weights(spec, stat, log)) }

  lemma SumSnoc(ns: seq<nat>, n: nat)
    ensures Sum(ns + [n]) == Sum(ns) + n
  {
    assert (ns + [n])[..|ns|] == ns;
  }

  lemma TotalSnoc(spec: ErrorSpec, stat: Stat, log: seq<Record>, r: Record)
    ensures Total(spec, stat, log + [r]) == Total(spec, stat, log) + Weight(spec, stat, r)
  {
    assert Weights(spec, stat, log + [r]) == Weights(spec, stat, log) + [Weight(spec, stat, r)];
    SumSnoc(Weights(spec, stat, log), Weight(spec, stat, r));
  }

  lemma {:induction false} SumConcat(a: seq<nat>, b: seq<nat>)
    ensures Sum(a + b) == Sum(a) + Sum(b)
    decreases |b|
  {
    if b == [] {
      assert a + b == a;
    } else {
      var n := |b| - 1;
      SumConcat(a, b[..n]);
      assert a + b == (a + b[..n]) + [b[n]];
      SumSnoc(a + b[..n], b[n]);
    }
  }

  lemma {:induction false} SumInsert(a: seq<nat>, n: nat, b: seq<nat>)
    ensures Sum(a + [n] + b) == Sum(a + b) + n
  {
    SumConcat(a + [n], b);
    SumSnoc(a, n);
    SumConcat(a, b);
  }

  lemma {:induction false} SplitAt(s: seq<nat>, j: nat)
    requires j <= |s|
    ensures s[..j] + s[j..] == s
  {}

  lemma {:induction false} SumInsertAt(s: seq<nat>, j: nat, n: nat)
    requires j <= |s|
    ensures Sum(s[..j] + [n] + s[j..]) == Sum(s) + n
  {
    SplitAt(s, j);
    SumInsert(s[..j], n, s[j..]);
  }

  lemma {:induction false} SumGather(ns: seq<nat>, p: seq<int>)
    requires |ns| == |p| && IsPerm(p)
    ensures Sum(Gather(ns, p)) == Sum(ns)
    decreases |p|
  {
    if p != [] {
      var n := |p| - 1;
      var j := PositionOf(p, n);
      GatherDrop(ns, p, j);
      var g := Gather(ns[..n], p[..j] + p[j + 1..]);
      SumGather(ns[..n], p[..j] + p[j + 1..]);
      SumInsertAt(g, j, ns[n]);
    }
  }

  /** Statistics do not depend on the order of comparison. */
  lemma TotalGather(spec: ErrorSpec, stat: Stat, log: seq<Record>, p: seq<int>)
    requires |log| == |p| && IsPerm(p)
    ensures Total(spec, stat, Gather(log, p)) == Total(spec, stat, log)
  {
    assert Weights(spec, stat, Gather(log, p)) == Gather(Weights(spec, stat, log), p);
    SumGather(Weights(spec, stat, log), p);
  }

  // ---- the largest relative errors ----

  datatype Mismatch = Mismatch(actual: Float, expected: Float, rel: Error, abs: Error, index: int)

  function Rels(top: seq<Mismatch>): (r: seq<Error>)
    ensures |r| == |top| && forall k :: 0 <= k < |r| ==> r[k] == top[k].rel
  {
    seq(|top|, k requires 0 <= k < |top| => top[k].rel)
  }

  ghost predicate Sorted(r: seq<Error>) {
    forall j, k :: 0 <= j < k < |r| ==> !r[k].Less(r[j])
  }

  /** `r` is the (at most) five largest of `all`, with multiplicity: complete above its least
      element, no more of that one than there are, nothing below. */
  ghost predicate IsTop(r: seq<Error>, all: multiset<Error>) {
    && Sorted(r) && multiset(r) <= all
    && |r| == (if |all| < TOP_COUNT then |all| else TOP_COUNT)
    && forall x :: |r| == TOP_COUNT && r[0].Less(x) ==> multiset(r)[x] == all[x]
  }

  ghost function PartRels(spec: ErrorSpec, expected: Float, actual: Float): multiset<Error> {
    if IsMismatch(spec, expected, actual) then multiset{ErrorsOf(spec, expected, actual).rel} else multiset{}
  }

  ghost function RecordRels(spec: ErrorSpec, r: Record): multiset<Error> {
    match (r.expected, r.actual)
    case (Real(e), Real(a)) => PartRels(spec, e, a)
    case (Complex(er, ei), Complex(ar, ai)) => PartRels(spec, er, ar) + PartRels(spec, ei, ai)
    case _ => multiset{}
  }

  /** The relative errors of all mismatching parts. */
  ghost function AllRels(spec: ErrorSpec, log: seq<Record>): multiset<Error> {
    if log == [] then multiset{} else AllRels(spec, log[..|log| - 1]) + RecordRels(spec, log[|log| - 1])
  }

  lemma PartRelsCounted(spec: ErrorSpec, expected: Float, actual: Float, x: Error)
    ensures PartRels(spec, expected, actual)[x] == One(PartCounts(spec, RelErrorIs(x), expected, actual))
  {}

  lemma RecordRelsCounted(spec: ErrorSpec, r: Record, x: Error)
    ensures RecordRels(spec, r)[x] == Weight(spec, RelErrorIs(x), r)
  {
    match (r.expected, r.actual)
    case (Real(e), Real(a)) => PartRelsCounted(spec, e, a, x);
    case (Complex(er, ei), Complex(ar, ai)) =>
      PartRelsCounted(spec, er, ar, x);
      PartRelsCounted(spec, ei, ai, x);
    case _ =>
  }

  lemma {:induction false} AllRelsCounted(spec: ErrorSpec, log: seq<Record>, x: Error)
    ensures AllRels(spec, log)[x] == Total(spec, RelErrorIs(x), log)
    decreases |log|
  {
    if log != [] {
      var n := |log| - 1;
      assert log == log[..n] + [log[n]];
      AllRelsCounted(spec, log[..n], x);
      RecordRelsCounted(spec, log[n], x);
      TotalSnoc(spec, RelErrorIs(x), log[..n], log[n]);
    }
  }

  /** Position after the last element not greater than `x` (multiset insertion). */
  function UpperBound(r: seq<Error>, x: Error): (k: nat)
    requires Sorted(r)
    ensures k <= |r| && (forall j :: 0 <= j < k ==> !x.Less(r[j])) && (forall j :: k <= j < |r| ==> x.Less(r[j]))
  {
    if r == [] || !x.Less(r[|r| - 1]) then |r| else UpperBound(r[..|r| - 1], x)
  }

  function Insert<A>(s: seq<A>, k: nat, x: A): seq<A>
    requires k <= |s|
  {
    s[..k] + [x] + s[k..]
  }

  lemma InsertContents(r: seq<Error>, k: nat, x: Error)
    requires k <= |r|
    ensures multiset(Insert(r, k, x)) == multiset(r) + multiset{x}
  {
    assert r == r[..k] + r[k..];
  }

  lemma InsertInOrder(r: seq<Error>, x: Error)
    requires Sorted(r)
    ensures Sorted(Insert(r, UpperBound(r, x), x))
  {}

  lemma InsertSorted(r: seq<Error>, x: Error)
    requires Sorted(r)
    ensures Sorted(Insert(r, UpperBound(r, x), x))
    ensures multiset(Insert(r, UpperBound(r, x), x)) == multiset(r) + multiset{x}
  {
    InsertInOrder(r, x);
    InsertContents(r, UpperBound(r, x), x);
  }

  /** The new list: inserted if there is room or it beats the least, which then goes. */
  function AddTop(r: seq<Error>, x: Error): seq<Error>
    requires Sorted(r)
  {
    if |r| < TOP_COUNT || r[0].Less(x) then
      var s := Insert(r, UpperBound(r, x), x);
      if |s| > TOP_COUNT then s[1..] else s
    else r
  }

  lemma DropFirst(s: seq<Error>)
    requires |s| > 0
    ensures multiset(s[1..]) == multiset(s) - multiset{s[0]}
  {
    assert s == [s[0]] + s[1..];
  }

  lemma SubMultisetSize(a: multiset<Error>, b: multiset<Error>)
    requires a <= b
    ensures |a| <= |b| && (|a| == |b| ==> a == b)
  {
    assert b == a + (b - a);
    if |a| == |b| { assert |b - a| == 0; }
  }

  /** One more mismatch: the list stays the five largest. */
  lemma AddTopKeeps(r: seq<Error>, all: multiset<Error>, x: Error)
    requires IsTop(r, all)
    ensures IsTop(AddTop(r, x), all + multiset{x})
  {
    if |r| < TOP_COUNT {
      SubMultisetSize(multiset(r), all);
      InsertSorted(r, x);
    } else if r[0].Less(x) {
      ReplaceLeast(r, all, x);
    }
  }

  lemma ReplaceLeast(r: seq<Error>, all: multiset<Error>, x: Error)
    requires IsTop(r, all) && |r| == TOP_COUNT && r[0].Less(x)
    ensures IsTop(AddTop(r, x), all + multiset{x})
  {
    var s := Insert(r, UpperBound(r, x), x);
    InsertSorted(r, x);
    DropFirst(s);
    SubMultisetSize(multiset(r), all);
    LeastStaysFirst(r, x);
    forall y | s[1].Less(y) ensures multiset(s[1..])[y] == (all + multiset{x})[y] {
      assert !s[1].Less(s[0]) && r[0].Less(y);
    }
  }

  lemma LeastStaysFirst(r: seq<Error>, x: Error)
    requires Sorted(r) && r != [] && r[0].Less(x)
    ensures Insert(r, UpperBound(r, x), x)[0] == r[0]
  {}

  /** An error that is left out is not above any that is kept. */
  lemma LeftOutIsSmaller(r: seq<Error>, all: multiset<Error>, y: Error, k: nat)
    requires IsTop(r, all) && k < |r| && multiset(r)[y] < all[y]
    ensures r[k].Infinite? || (y.Fin? && y.r <= r[k].r)
  {
    SubMultisetSize(multiset(r), all);
    assert !r[0].Less(y);
    if k > 0 { assert !r[k].Less(r[0]); }
  }

  /** The five largest are unique, so the order of comparison cannot show in them. */
  lemma TopUnique(r: seq<Error>, s: seq<Error>, all: multiset<Error>)
    requires IsTop(r, all) && IsTop(s, all)
    ensures multiset(r) == multiset(s) && |r| == if |all| < 5 then |all| else 5
  {
    SubMultisetSize(multiset(r), all);
    SubMultisetSize(multiset(s), all);
    if |r| == TOP_COUNT {
      LeastNotBelow(s, r, all);
      LeastNotBelow(r, s, all);
      SameLeast(r, s, all);
    }
  }

  lemma LeastNotBelow(r: seq<Error>, s: seq<Error>, all: multiset<Error>)
    requires IsTop(r, all) && IsTop(s, all) && |r| == |s| == TOP_COUNT
    ensures !s[0].Less(r[0])
  {
    if s[0].Less(r[0]) {
      var a, b := multiset(r), multiset(s) - multiset{s[0]};
      forall x ensures a[x] <= b[x] {
        if x in a {
          var k :| 0 <= k < |r| && r[k] == x;
          assert !r[k].Less(r[0]);
          assert s[0].Less(x);
        }
      }
      SubMultisetSize(a, b);
      assert false;
    }
  }

  lemma SameLeast(r: seq<Error>, s: seq<Error>, all: multiset<Error>)
    requires IsTop(r, all) && IsTop(s, all) && |r| == |s| == TOP_COUNT && r[0] == s[0]
    ensures multiset(r) == multiset(s)
  {
    var a, b, m := multiset(r), multiset(s), r[0];
    forall x | x != m ensures a[x] == b[x] {
      if m.Less(x) {
      } else {
        BelowLeast(r, x);
        BelowLeast(s, x);
      }
    }
    assert a[m := 0] == b[m := 0];
    assert |a| == |a[m := 0]| + a[m] && |b| == |b[m := 0]| + b[m];
  }

  lemma BelowLeast(r: seq<Error>, x: Error)
    requires Sorted(r) && |r| > 0 && x != r[0] && !r[0].Less(x)
    ensures x !in r
  {}

  lemma AllRelsGather(spec: ErrorSpec, log: seq<Record>, p: seq<int>)
    requires |log| == |p| && IsPerm(p)
    ensures AllRels(spec, Gather(log, p)) == AllRels(spec, log)
  {
    forall x ensures AllRels(spec, Gather(log, p))[x] == AllRels(spec, log)[x] {
      AllRelsCounted(spec, log, x);
      AllRelsCounted(spec, Gather(log, p), x);
      TotalGather(spec, RelErrorIs(x), log, p);
    }
  }

  // ---- the running statistics ----

  datatype Stats = Stats(mismatches: int, nanMismatches: int, absMismatches: int, relMismatches: int,
                         absValue: seq<(int, int)>, absErrors: seq<int>, relErrors: seq<int>, top: seq<Mismatch>)

  ghost predicate CountersMatch(spec: ErrorSpec, s: Stats, log: seq<Record>) {
    && s.mismatches == Total(spec, Mismatched, log) && s.nanMismatches == Total(spec, NanMismatch, log)
    && s.absMismatches == Total(spec, AbsMismatch, log) && s.relMismatches == Total(spec, RelMismatch, log)
  }

  ghost predicate MagnitudesMatch(spec: ErrorSpec, b: seq<(int, int)>, log: seq<Record>) {
    |b| == 6 && forall i :: 0 <= i < 6 ==> b[i] == (Total(spec, Bucket(i), log), Total(spec, BucketMismatch(i), log))
  }

  ghost predicate ErrorsMatch(spec: ErrorSpec, abs: seq<int>, rel: seq<int>, log: seq<Record>) {
    && |abs| == |rel| == 5
    && forall i :: 0 <= i < 5 ==> abs[i] == Total(spec, AbsError(i), log) && rel[i] == Total(spec, RelError(i), log)
  }

  /** The statistics of a log, each one the total it stands for. */
  ghost predicate Describes(spec: ErrorSpec, s: Stats, log: seq<Record>) {
    && CountersMatch(spec, s, log) && MagnitudesMatch(spec, s.absValue, log)
    && ErrorsMatch(spec, s.absErrors, s.relErrors, log) && IsTop(Rels(s.top), AllRels(spec, log))
  }

  /** Two orders of comparing the same elements agree in every counter and bucket, and in the
      largest relative errors as a multiset. */
  ghost predicate SameStatistics(s: Stats, t: Stats) {
    s.(top := []) == t.(top := []) && multiset(Rels(s.top)) == multiset(Rels(t.top))
  }

  /** Statistics of a log also describe every reordering of it. */
  lemma {:induction false} DescribesGather(spec: ErrorSpec, s: Stats, log: seq<Record>, p: seq<int>)
    requires |log| == |p| && IsPerm(p) && Describes(spec, s, log)
    ensures Describes(spec, s, Gather(log, p))
  {
    forall stat ensures Total(spec, stat, Gather(log, p)) == Total(spec, stat, log) { TotalGather(spec, stat, log, p); }
    AllRelsGather(spec, log, p);
  }

  lemma {:induction false} SameLogSameStatistics(spec: ErrorSpec, s: Stats, t: Stats, log: seq<Record>)
    requires Describes(spec, s, log) && Describes(spec, t, log)
    ensures SameStatistics(s, t)
  {
    assert s.absValue == t.absValue;
    assert s.absErrors == t.absErrors && s.relErrors == t.relErrors;
    TopUnique(Rels(s.top), Rels(t.top), AllRels(spec, log));
  }

  // ---- bucket sums ----

  function BucketSum(b: seq<(int, int)>): (r: (int, int))
    requires |b| == 6
  {
    (b[0].0 + b[1].0 + b[2].0 + b[3].0 + b[4].0 + b[5].0, b[0].1 + b[1].1 + b[2].1 + b[3].1 + b[4].1 + b[5].1)
  }

  lemma InOneBucket(v: Float)
    ensures One(InBucket(0, v)) + One(InBucket(1, v)) + One(InBucket(2, v)) + One(InBucket(3, v))
              + One(InBucket(4, v)) + One(InBucket(5, v)) == 1
  {}

  ghost function BucketTotal(spec: ErrorSpec, log: seq<Record>): nat {
    Total(spec, Bucket(0), log) + Total(spec, Bucket(1), log) + Total(spec, Bucket(2), log)
      + Total(spec, Bucket(3), log) + Total(spec, Bucket(4), log) + Total(spec, Bucket(5), log)
  }

  ghost function BucketMismatchTotal(spec: ErrorSpec, log: seq<Record>): nat {
    Total(spec, BucketMismatch(0), log) + Total(spec, BucketMismatch(1), log) + Total(spec, BucketMismatch(2), log)
      + Total(spec, BucketMismatch(3), log) + Total(spec, BucketMismatch(4), log) + Total(spec, BucketMismatch(5), log)
  }

  ghost predicate AllReal(log: seq<Record>) {
    forall k :: 0 <= k < |log| ==> log[k].expected.Real? && log[k].actual.Real?
  }

  lemma BucketSnoc(spec: ErrorSpec, log: seq<Record>, e: Float, a: Float, index: int, i: int)
    ensures
      var r := Record(Real(e), Real(a), index);
      && Total(spec, Bucket(i), log + [r]) == Total(spec, Bucket(i), log) + One(InBucket(i, a))
      && Total(spec, BucketMismatch(i), log + [r])
           == Total(spec, BucketMismatch(i), log) + One(InBucket(i, a) && IsMismatch(spec, e, a))
  {
    TotalSnoc(spec, Bucket(i), log, Record(Real(e), Real(a), index));
    TotalSnoc(spec, BucketMismatch(i), log, Record(Real(e), Real(a), index));
  }

  lemma RealBucketStep(spec: ErrorSpec, log: seq<Record>, e: Float, a: Float, index: int)
    ensures
      var r := Record(Real(e), Real(a), index);
      && BucketTotal(spec, log + [r]) == BucketTotal(spec, log) + 1
      && BucketMismatchTotal(spec, log + [r]) == BucketMismatchTotal(spec, log) + One(IsMismatch(spec, e, a))
  {
    BucketSnoc(spec, log, e, a, index, 0);
    BucketSnoc(spec, log, e, a, index, 1);
    BucketSnoc(spec, log, e, a, index, 2);
    BucketSnoc(spec, log, e, a, index, 3);
    BucketSnoc(spec, log, e, a, index, 4);
    BucketSnoc(spec, log, e, a, index, 5);
    InOneBucket(a);
  }

  /** For real types the magnitude buckets add up to the elements compared and to the mismatches. */
  lemma {:induction false} BucketsAddUp(spec: ErrorSpec, log: seq<Record>)
    requires AllReal(log)
    ensures BucketTotal(spec, log) == |log| && BucketMismatchTotal(spec, log) == Total(spec, Mismatched, log)
    decreases |log|
  {
    if log != [] {
      var n := |log| - 1;
      assert log == log[..n] + [log[n]];
      BucketsAddUp(spec, log[..n]);
      RealBucketStep(spec, log[..n], log[n].expected.x, log[n].actual.x, log[n].index);
      TotalSnoc(spec, Mismatched, log[..n], log[n]);
    }
  }

  ghost predicate AllComplex(log: seq<Record>) {
    forall k :: 0 <= k < |log| ==> log[k].expected.Complex? && log[k].actual.Complex?
  }

  lemma {:induction false} ComplexBucketStep(spec: ErrorSpec, log: seq<Record>, r: Record)
    requires r.expected.Complex? && r.actual.Complex?
    ensures BucketTotal(spec, log + [r]) == BucketTotal(spec, log) + 2
    ensures BucketMismatchTotal(spec, log + [r]) == BucketMismatchTotal(spec, log) + Weight(spec, PartMismatched, r)
  {
    ComplexWeights(spec, r);
    forall stat ensures Total(spec, stat, log + [r]) == Total(spec, stat, log) + Weight(spec, stat, r) { TotalSnoc(spec, stat, log, r); }
  }

  lemma ComplexWeights(spec: ErrorSpec, r: Record)
    requires r.expected.Complex? && r.actual.Complex?
    ensures Weight(spec, Bucket(0), r) + Weight(spec, Bucket(1), r) + Weight(spec, Bucket(2), r) + Weight(spec, Bucket(3), r)
              + Weight(spec, Bucket(4), r) + Weight(spec, Bucket(5), r) == 2
    ensures Weight(spec, BucketMismatch(0), r) + Weight(spec, BucketMismatch(1), r) + Weight(spec, BucketMismatch(2), r)
              + Weight(spec, BucketMismatch(3), r) + Weight(spec, BucketMismatch(4), r) + Weight(spec, BucketMismatch(5), r)
              == Weight(spec, PartMismatched, r)
  {
    forall i ensures Weight(spec, Bucket(i), r) == One(InBucket(i, r.actual.re)) + One(InBucket(i, r.actual.im)) {}
    InOneBucket(r.actual.re);
    InOneBucket(r.actual.im);
    ComplexMismatchWeights(spec, r, IsMismatch(spec, r.expected.re, r.actual.re), IsMismatch(spec, r.expected.im, r.actual.im));
  }

  lemma ComplexMismatchWeights(spec: ErrorSpec, r: Record, re: bool, im: bool)
    requires r.expected.Complex? && r.actual.Complex?
    requires re == IsMismatch(spec, r.expected.re, r.actual.re) && im == IsMismatch(spec, r.expected.im, r.actual.im)
    ensures Weight(spec, BucketMismatch(0), r) + Weight(spec, BucketMismatch(1), r) + Weight(spec, BucketMismatch(2), r)
              + Weight(spec, BucketMismatch(3), r) + Weight(spec, BucketMismatch(4), r) + Weight(spec, BucketMismatch(5), r)
              == Weight(spec, PartMismatched, r)
  {
    forall i ensures Weight(spec, BucketMismatch(i), r) == One(InBucket(i, r.actual.re) && re) + One(InBucket(i, r.actual.im) && im) {}
    assert Weight(spec, PartMismatched, r) == One(re) + One(im);
    InOneBucketIf(r.actual.re, re);
    InOneBucketIf(r.actual.im, im);
  }

  lemma InOneBucketIf(v: Float, b: bool)
    ensures One(InBucket(0, v) && b) + One(InBucket(1, v) && b) + One(InBucket(2, v) && b) + One(InBucket(3, v) && b)
              + One(InBucket(4, v) && b) + One(InBucket(5, v) && b) == One(b)
  {
    InOneBucket(v);
  }

  lemma MismatchingParts(spec: ErrorSpec, r: Record)
    ensures Weight(spec, Mismatched, r) <= Weight(spec, PartMismatched, r) <= 2 * Weight(spec, Mismatched, r)
  {}

  /** For complex types they add up to the parts: two per element, and the parts that mismatch. */
  lemma {:induction false} ComplexBucketsAddUp(spec: ErrorSpec, log: seq<Record>)
    requires AllComplex(log)
    ensures BucketTotal(spec, log) == 2 * |log| && BucketMismatchTotal(spec, log) == Total(spec, PartMismatched, log)
    ensures Total(spec, Mismatched, log) <= Total(spec, PartMismatched, log) <= 2 * Total(spec, Mismatched, log)
    decreases |log|
  {
    if log != [] {
      var n := |log| - 1;
      assert log == log[..n] + [log[n]];
      ComplexBucketsAddUp(spec, log[..n]);
      ComplexBucketStep(spec, log[..n], log[n]);
      MismatchingParts(spec, log[n]);
      TotalSnoc(spec, PartMismatched, log[..n], log[n]);
      TotalSnoc(spec, Mismatched, log[..n], log[n]);
    }
  }

  lemma DescribedBuckets(spec: ErrorSpec, s: Stats, log: seq<Record>)
    requires Describes(spec, s, log) && AllReal(log)
    ensures BucketSum(s.absValue) == (|log|, s.mismatches)
  {
    BucketsAddUp(spec, log);
    MagnitudeSum(spec, s.absValue, log);
  }

  lemma MagnitudeSum(spec: ErrorSpec, b: seq<(int, int)>, log: seq<Record>)
    requires MagnitudesMatch(spec, b, log)
    ensures BucketSum(b) == (BucketTotal(spec, log), BucketMismatchTotal(spec, log))
  {}

  // ---- one comparison ----

  function AddMagnitude(b: seq<(int, int)>, v: Float, mismatch: bool): seq<(int, int)> {
    seq(|b|, i requires 0 <= i < |b| => if InBucket(i, v) then (b[i].0 + 1, b[i].1 + One(mismatch)) else b[i])
  }

  function AddError(b: seq<int>, e: Error): seq<int>
    requires |b| == 5
  {
    seq(5, i requires 0 <= i < 5 => b[i] + One(e.AtLeast(ERROR_BOUNDS[i])))
  }

  function AddMismatch(top: seq<Mismatch>, m: Mismatch): seq<Mismatch>
    requires Sorted(Rels(top))
  {
    if |top| < TOP_COUNT || top[0].rel.Less(m.rel) then
      var s := Insert(top, UpperBound(Rels(top), m.rel), m);
      if |s| > TOP_COUNT then s[1..] else s
    else top
  }

  lemma AddMismatchRels(top: seq<Mismatch>, m: Mismatch)
    requires Sorted(Rels(top))
    ensures Rels(AddMismatch(top, m)) == AddTop(Rels(top), m.rel)
  {
    var k := UpperBound(Rels(top), m.rel);
    assert Rels(Insert(top, k, m)) == Insert(Rels(top), k, m.rel);
  }

  predicate WellFormed(s: Stats) { |s.absValue| == 6 && |s.absErrors| == |s.relErrors| == 5 }

  /** The effect of comparing one pair of numbers on the statistics. */
  function AddPart(spec: ErrorSpec, s: Stats, expected: Float, actual: Float, index: int): Stats
    requires WellFormed(s) && Sorted(Rels(s.top))
  {
    var e := ErrorsOf(spec, expected, actual);
    var mismatch := IsMismatch(spec, expected, actual);
    Stats(s.mismatches + One(mismatch), s.nanMismatches + One(e.nan),
          s.absMismatches + One(e.abs.Exceeds(spec.abs)), s.relMismatches + One(e.rel.Exceeds(spec.rel)),
          AddMagnitude(s.absValue, actual, mismatch),
          if e.rel.Exceeds(spec.rel) then AddError(s.absErrors, e.abs) else s.absErrors,
          if e.abs.Exceeds(spec.abs) then AddError(s.relErrors, e.rel) else s.relErrors,
          if mismatch then AddMismatch(s.top, Mismatch(actual, expected, e.rel, e.abs, index)) else s.top)
  }

  lemma AddPartTop(spec: ErrorSpec, s: Stats, e: Float, a: Float, index: int, all: multiset<Error>)
    requires WellFormed(s) && IsTop(Rels(s.top), all)
    ensures IsTop(Rels(AddPart(spec, s, e, a, index).top), all + PartRels(spec, e, a))
  {
    if IsMismatch(spec, e, a) {
      var errors := ErrorsOf(spec, e, a);
      AddMismatchRels(s.top, Mismatch(a, e, errors.rel, errors.abs, index));
      AddTopKeeps(Rels(s.top), all, errors.rel);
    } else {
      assert all + multiset{} == all;
    }
  }

  lemma AllRelsSnoc(spec: ErrorSpec, log: seq<Record>, r: Record)
    ensures AllRels(spec, log + [r]) == AllRels(spec, log) + RecordRels(spec, r)
  {
    assert (log + [r])[..|log|] == log;
  }

  /** Comparing one element: complex elements are compared by parts, and counted once even if
      both parts mismatch. */
  function AddRecord(spec: ErrorSpec, s: Stats, r: Record): Stats
    requires r.Valid() && WellFormed(s) && Sorted(Rels(s.top))
  {
    match r.expected
    case Real(e) => AddPart(spec, s, e, r.actual.x, r.index)
    case Complex(er, ei) =>
      AddPartSorted(spec, s, er, r.actual.re, r.index);
      var t := AddPart(spec, AddPart(spec, s, er, r.actual.re, r.index), ei, r.actual.im, r.index);
      if t.mismatches == s.mismatches + 2 then t.(mismatches := t.mismatches - 1) else t
  }

  lemma AddPartSorted(spec: ErrorSpec, s: Stats, e: Float, a: Float, index: int)
    requires WellFormed(s) && Sorted(Rels(s.top))
    ensures Sorted(Rels(AddPart(spec, s, e, a, index).top))
  {
    if IsMismatch(spec, e, a) {
      var errors := ErrorsOf(spec, e, a);
      AddMismatchRels(s.top, Mismatch(a, e, errors.rel, errors.abs, index));
      InsertSorted(Rels(s.top), errors.rel);
    }
  }

  lemma AddRecordSorted(spec: ErrorSpec, s: Stats, r: Record)
    requires r.Valid() && WellFormed(s) && Sorted(Rels(s.top))
    ensures WellFormed(AddRecord(spec, s, r)) && Sorted(Rels(AddRecord(spec, s, r).top))
  {
    match r.expected
    case Real(e) => AddPartSorted(spec, s, e, r.actual.x, r.index);
    case Complex(er, ei) =>
      AddPartSorted(spec, s, er, r.actual.re, r.index);
      AddPartSorted(spec, AddPart(spec, s, er, r.actual.re, r.index), ei, r.actual.im, r.index);
  }

  lemma CountersStep(spec: ErrorSpec, s: Stats, log: seq<Record>, r: Record)
    requires r.Valid() && WellFormed(s) && Sorted(Rels(s.top)) && CountersMatch(spec, s, log)
    ensures CountersMatch(spec, AddRecord(spec, s, r), log + [r])
  {
    TotalSnoc(spec, Mismatched, log, r);
    TotalSnoc(spec, NanMismatch, log, r);
    TotalSnoc(spec, AbsMismatch, log, r);
    TotalSnoc(spec, RelMismatch, log, r);
  }

  lemma AddMagnitudeAt(b: seq<(int, int)>, v: Float, mismatch: bool, i: nat)
    requires i < |b|
    ensures AddMagnitude(b, v, mismatch)[i] == (b[i].0 + One(InBucket(i, v)), b[i].1 + One(InBucket(i, v) && mismatch))
  {}

  lemma PartMagnitudeAt(spec: ErrorSpec, s: Stats, e: Float, a: Float, index: int, i: nat)
    requires WellFormed(s) && Sorted(Rels(s.top)) && i < 6
    ensures WellFormed(AddPart(spec, s, e, a, index))
    ensures AddPart(spec, s, e, a, index).absValue[i]
         == (s.absValue[i].0 + One(PartCounts(spec, Bucket(i), e, a)), s.absValue[i].1 + One(PartCounts(spec, BucketMismatch(i), e, a)))
  {
    AddMagnitudeAt(s.absValue, a, IsMismatch(spec, e, a), i);
  }

  lemma MagnitudeAt(spec: ErrorSpec, s: Stats, r: Record, i: nat)
    requires r.Valid() && WellFormed(s) && Sorted(Rels(s.top)) && i < 6
    ensures |AddRecord(spec, s, r).absValue| == 6
    ensures AddRecord(spec, s, r).absValue[i]
         == (s.absValue[i].0 + Weight(spec, Bucket(i), r), s.absValue[i].1 + Weight(spec, BucketMismatch(i), r))
  {
    match r.expected
    case Real(e) => PartMagnitudeAt(spec, s, e, r.actual.x, r.index, i);
    case Complex(er, ei) =>
      AddPartSorted(spec, s, er, r.actual.re, r.index);
      PartMagnitudeAt(spec, s, er, r.actual.re, r.index, i);
      PartMagnitudeAt(spec, AddPart(spec, s, er, r.actual.re, r.index), ei, r.actual.im, r.index, i);
  }

  lemma {:induction false} MagnitudeTotals(spec: ErrorSpec, log: seq<Record>, r: Record, i: nat, was: (int, int), now: (int, int))
    requires was == (Total(spec, Bucket(i), log), Total(spec, BucketMismatch(i), log))
    requires now == (was.0 + Weight(spec, Bucket(i), r), was.1 + Weight(spec, BucketMismatch(i), r))
    ensures now == (Total(spec, Bucket(i), log + [r]), Total(spec, BucketMismatch(i), log + [r]))
  {
    TotalSnoc(spec, Bucket(i), log, r);
    TotalSnoc(spec, BucketMismatch(i), log, r);
  }

  ghost predicate MagnitudesAdvance(spec: ErrorSpec, was: seq<(int, int)>, now: seq<(int, int)>, r: Record) {
    && |was| == |now| == 6
    && forall i :: 0 <= i < 6 ==>
         now[i] == (was[i].0 + Weight(spec, Bucket(i), r), was[i].1 + Weight(spec, BucketMismatch(i), r))
  }

  lemma {:induction false} MagnitudesAdvanced(spec: ErrorSpec, s: Stats, r: Record)
    requires r.Valid() && WellFormed(s) && Sorted(Rels(s.top))
    ensures MagnitudesAdvance(spec, s.absValue, AddRecord(spec, s, r).absValue, r)
  {
    var now := AddRecord(spec, s, r).absValue;
    assert |now| == 6;
    forall i | 0 <= i < 6
      ensures now[i] == (s.absValue[i].0 + Weight(spec, Bucket(i), r), s.absValue[i].1 + Weight(spec, BucketMismatch(i), r))
    {
      MagnitudeAt(spec, s, r, i);
    }
  }

  lemma {:induction false} MagnitudesStep(spec: ErrorSpec, was: seq<(int, int)>, now: seq<(int, int)>, log: seq<Record>, r: Record)
    requires MagnitudesMatch(spec, was, log) && MagnitudesAdvance(spec, was, now, r)
    ensures MagnitudesMatch(spec, now, log + [r])
  {
    forall i | 0 <= i < 6
      ensures now[i] == (Total(spec, Bucket(i), log + [r]), Total(spec, BucketMismatch(i), log + [r]))
    {
      MagnitudeTotals(spec, log, r, i, was[i], now[i]);
    }
  }

  /** Error bucket `i` after one part, whether or not its limit was exceeded. */
  lemma PartErrorsAt(spec: ErrorSpec, s: Stats, e: Float, a: Float, index: int, i: nat)
    requires WellFormed(s) && Sorted(Rels(s.top)) && i < 5
    ensures
      var t := AddPart(spec, s, e, a, index);
      && t.absErrors[i] == s.absErrors[i] + One(PartCounts(spec, AbsError(i), e, a))
      && t.relErrors[i] == s.relErrors[i] + One(PartCounts(spec, RelError(i), e, a))
  {}

  lemma ErrorsAt(spec: ErrorSpec, s: Stats, r: Record, i: nat)
    requires r.Valid() && WellFormed(s) && Sorted(Rels(s.top)) && i < 5
    ensures AddRecord(spec, s, r).absErrors[i] == s.absErrors[i] + Weight(spec, AbsError(i), r)
    ensures AddRecord(spec, s, r).relErrors[i] == s.relErrors[i] + Weight(spec, RelError(i), r)
  {
    match r.expected
    case Real(e) => PartErrorsAt(spec, s, e, r.actual.x, r.index, i);
    case Complex(er, ei) =>
      AddPartSorted(spec, s, er, r.actual.re, r.index);
      PartErrorsAt(spec, s, er, r.actual.re, r.index, i);
      PartErrorsAt(spec, AddPart(spec, s, er, r.actual.re, r.index), ei, r.actual.im, r.index, i);
  }

  lemma ErrorsStep(spec: ErrorSpec, s: Stats, log: seq<Record>, r: Record)
    requires r.Valid() && WellFormed(s) && Sorted(Rels(s.top)) && ErrorsMatch(spec, s.absErrors, s.relErrors, log)
    ensures ErrorsMatch(spec, AddRecord(spec, s, r).absErrors, AddRecord(spec, s, r).relErrors, log + [r])
  {
    var t := AddRecord(spec, s, r);
    forall i | 0 <= i < 5
      ensures t.absErrors[i] == Total(spec, AbsError(i), log + [r]) && t.relErrors[i] == Total(spec, RelError(i), log + [r])
    {
      ErrorsAt(spec, s, r, i);
      TotalSnoc(spec, AbsError(i), log, r);
      TotalSnoc(spec, RelError(i), log, r);
    }
  }

  lemma TopAfterRecord(spec: ErrorSpec, s: Stats, all: multiset<Error>, r: Record)
    requires r.Valid() && WellFormed(s) && IsTop(Rels(s.top), all)
    ensures IsTop(Rels(AddRecord(spec, s, r).top), all + RecordRels(spec, r))
  {
    match r.expected
    case Real(e) => AddPartTop(spec, s, e, r.actual.x, r.index, all);
    case Complex(er, ei) =>
      var u, some := AddPart(spec, s, er, r.actual.re, r.index), all + PartRels(spec, er, r.actual.re);
      AddPartTop(spec, s, er, r.actual.re, r.index, all);
      AddPartTop(spec, u, ei, r.actual.im, r.index, some);
      assert all + RecordRels(spec, r) == some + PartRels(spec, ei, r.actual.im);
  }

  lemma TopStep(spec: ErrorSpec, s: Stats, log: seq<Record>, r: Record)
    requires r.Valid() && WellFormed(s) && IsTop(Rels(s.top), AllRels(spec, log))
    ensures IsTop(Rels(AddRecord(spec, s, r).top), AllRels(spec, log + [r]))
  {
    AllRelsSnoc(spec, log, r);
    TopAfterRecord(spec, s, AllRels(spec, log), r);
  }

  /** Comparing one more element keeps every statistic equal to its total. */
  lemma RecordStep(spec: ErrorSpec, s: Stats, log: seq<Record>, r: Record)
    requires r.Valid() && Describes(spec, s, log)
    ensures Describes(spec, AddRecord(spec, s, r), log + [r])
  {
    CountersStep(spec, s, log, r);
    MagnitudesAdvanced(spec, s, r);
    MagnitudesStep(spec, s.absValue, AddRecord(spec, s, r).absValue, log, r);
    ErrorsStep(spec, s, log, r);
    TopStep(spec, s, log, r);
  }

  // ---- the kept mismatches are genuine ----

  ghost predicate HasPart(r: Record, expected: Float, actual: Float) {
    match (r.expected, r.actual)
    case (Real(e), Real(a)) => e == expected && a == actual
    case (Complex(er, ei), Complex(ar, ai)) => (er == expected && ar == actual) || (ei == expected && ai == actual)
    case _ => false
  }

  /** `m` reports a mismatching part of `r`: its values, its errors and its position. */
  ghost predicate Reports(spec: ErrorSpec, m: Mismatch, r: Record) {
    && HasPart(r, m.expected, m.actual) && m.index == r.index && IsMismatch(spec, m.expected, m.actual)
    && m.rel == ErrorsOf(spec, m.expected, m.actual).rel && m.abs == ErrorsOf(spec, m.expected, m.actual).abs
  }

  ghost predicate Genuine(spec: ErrorSpec, top: seq<Mismatch>, log: seq<Record>) {
    forall m :: m in top ==> exists k :: 0 <= k < |log| && Reports(spec, m, log[k])
  }

  lemma AddMismatchFrom(top: seq<Mismatch>, x: Mismatch, m: Mismatch)
    requires Sorted(Rels(top)) && m in AddMismatch(top, x)
    ensures m == x || m in top
  {
    var k := UpperBound(Rels(top), x.rel);
    if m in Insert(top, k, x) { InsertFrom(top, k, x, m); }
  }

  lemma InsertFrom<A>(s: seq<A>, k: nat, x: A, m: A)
    requires k <= |s| && m in Insert(s, k, x)
    ensures m == x || m in s
  {}

  lemma KeptAfterPart(spec: ErrorSpec, s: Stats, e: Float, a: Float, r: Record, m: Mismatch)
    requires WellFormed(s) && Sorted(Rels(s.top)) && HasPart(r, e, a)
    requires m in AddPart(spec, s, e, a, r.index).top
    ensures m in s.top || Reports(spec, m, r)
  {
    if IsMismatch(spec, e, a) {
      var errors := ErrorsOf(spec, e, a);
      AddMismatchFrom(s.top, Mismatch(a, e, errors.rel, errors.abs, r.index), m);
    }
  }

  lemma KeptAfterRecord(spec: ErrorSpec, s: Stats, r: Record, m: Mismatch)
    requires r.Valid() && WellFormed(s) && Sorted(Rels(s.top)) && m in AddRecord(spec, s, r).top
    ensures m in s.top || Reports(spec, m, r)
  {
    match r.expected
    case Real(e) => KeptAfterPart(spec, s, e, r.actual.x, r, m);
    case Complex(er, ei) =>
      var u := AddPart(spec, s, er, r.actual.re, r.index);
      AddPartSorted(spec, s, er, r.actual.re, r.index);
      KeptAfterPart(spec, u, ei, r.actual.im, r, m);
      if m in u.top { KeptAfterPart(spec, s, er, r.actual.re, r, m); }
  }

  lemma GenuineStep(spec: ErrorSpec, s: Stats, log: seq<Record>, r: Record)
    requires r.Valid() && WellFormed(s) && Sorted(Rels(s.top)) && Genuine(spec, s.top, log)
    ensures Genuine(spec, AddRecord(spec, s, r).top, log + [r])
  {
    var next := log + [r];
    forall m | m in AddRecord(spec, s, r).top ensures exists k :: 0 <= k < |next| && Reports(spec, m, next[k]) {
      KeptAfterRecord(spec, s, r, m);
      if m in s.top {
        var k :| 0 <= k < |log| && Reports(spec, m, log[k]);
        assert Reports(spec, m, next[k]);
      } else {
        assert Reports(spec, m, next[|log|]);
      }
    }
  }
}
