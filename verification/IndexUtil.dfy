/** Index conversions and odometer steps (xla/index_util.h, xla/index_util.cc). */
module IndexUtil {
  import opened MixedRadix
  import opened Permutations
  import opened Layouts

  method MultidimensionalIndexToLinearIndex(sh: Shape, index: seq<int>) returns (linear: int)
    requires sh.Valid() && |index| == |sh.dims|
    ensures linear == Offset(sh, index)
    ensures InRange(index, sh.dims) ==> 0 <= linear < ElementsIn(sh)
  {
    if InRange(index, sh.dims) { OffsetBound(sh, index); }
    var m := sh.minorToMajor;
    ghost var g, r := Gather(index, m), Radices(sh);
    if |m| == 0 { return 0; }
    linear := index[m[0]];
    var scale := 1;
    ValueSplit(g, r, 0);
    assert g[0..] == g && r[0..] == r;
    for i := 1 to |m|
      invariant scale == Product(r[..i - 1])
      invariant linear + Product(r[..i]) * Value(g[i..], r[i..]) == Value(g, r)
    {
      ProductStep(r, i - 1);
      ValueSplit(g, r, i);
      scale := scale * sh.dims[m[i - 1]];
      linear := linear + scale * index[m[i]];
    }
  }

  method LinearIndexToMultidimensionalIndex(sh: Shape, linear: int) returns (index: seq<int>)
    requires sh.Valid() && 0 <= linear < ElementsIn(sh)
    ensures InRange(index, sh.dims) && Offset(sh, index) == linear
  {
    var m := sh.minorToMajor;
    ghost var r := Radices(sh);
    PositiveRadices(sh);
    ghost var digits := Digits(linear, r);
    var multi := new int[|sh.dims|];
    var divisor := 1;
    for k := 0 to |m|
      invariant divisor == Product(r[..k])
      invariant forall j :: 0 <= j < k ==> multi[m[j]] == digits[j]
    {
      DigitAt(linear, r, k);
      ProductStep(r, k);
      multi[m[k]] := (linear / divisor) % sh.dims[m[k]];
      divisor := divisor * sh.dims[m[k]];
    }
    index := multi[..];
    FromDigits(sh, linear, index);
  }

  lemma PositiveRadices(sh: Shape)
    requires sh.Valid() && ElementsIn(sh) > 0
    ensures AllPositive(Radices(sh))
  {
    ProductGather(sh.dims, sh.minorToMajor);
    ProductPositive(Radices(sh));
  }

  lemma FromDigits(sh: Shape, linear: int, index: seq<int>)
    requires sh.Valid() && 0 <= linear < ElementsIn(sh) && |index| == |sh.dims| && AllPositive(Radices(sh))
    requires forall k :: 0 <= k < |index| ==> index[sh.minorToMajor[k]] == Digits(linear, Radices(sh))[k]
    ensures InRange(index, sh.dims) && Offset(sh, index) == linear
  {
    assert Gather(index, sh.minorToMajor) == Digits(linear, Radices(sh));
    ProductGather(sh.dims, sh.minorToMajor);
    ValueOfDigits(linear, Radices(sh));
    GatherRange(index, sh.dims, sh.minorToMajor);
  }

  method GetDimensionStride(sh: Shape, dimension: int) returns (stride: nat)
    requires sh.Valid() && 0 <= dimension < |sh.dims|
    ensures stride == Stride(sh, dimension)
  {
    stride := 1;
    ghost var r := Radices(sh);
    for k := 0 to |sh.minorToMajor|
      invariant stride == Product(r[..k])
      invariant dimension !in sh.minorToMajor[..k]
    {
      if sh.minorToMajor[k] == dimension {
        StrideAt(sh, k);
        return;
      }
      ProductStep(r, k);
      stride := stride * sh.dims[sh.minorToMajor[k]];
    }
    assert sh.minorToMajor[..|sh.minorToMajor|] == sh.minorToMajor;
    Onto(sh.minorToMajor, dimension);
  }

  // ---- odometers ----

  /** `index` with its `k` most minor dimensions reset to zero. */
  ghost function ZeroLow(sh: Shape, index: seq<int>, k: nat): (z: seq<int>)
    requires sh.Valid() && |index| == |sh.dims|
    ensures |z| == |index|
  {
    seq(|index|, d requires 0 <= d < |index| =>
      if PositionOf(sh.minorToMajor, d) < k then 0 else index[d])
  }

  ghost predicate LowMaxed(sh: Shape, index: seq<int>, k: nat)
    requires sh.Valid() && |index| == |sh.dims| && k <= |index|
  {
    forall j :: 0 <= j < k ==> index[sh.minorToMajor[j]] + 1 == sh.dims[sh.minorToMajor[j]]
  }

  lemma PositionAt(p: seq<int>, k: nat)
    requires IsPerm(p) && k < |p|
    ensures PositionOf(p, p[k]) == k
  {
    if PositionOf(p, p[k]) < k {} else if PositionOf(p, p[k]) > k {}
  }

  lemma ZeroLowStep(sh: Shape, index: seq<int>, k: nat)
    requires sh.Valid() && |index| == |sh.dims| && k < |index|
    ensures ZeroLow(sh, index, k)[sh.minorToMajor[k]] == index[sh.minorToMajor[k]]
    ensures ZeroLow(sh, index, k + 1) == ZeroLow(sh, index, k)[sh.minorToMajor[k] := 0]
  {
    PositionAt(sh.minorToMajor, k);
  }

  lemma CarryDigit(a: int, b: int, x: int, w: int)
    requires b == a + (0 - x) * w
    ensures b + w * (x + 1) == a + w
  {}

  /** Carrying out of `k` maxed digits trades their value for the weight of the next. */
  lemma {:induction false} Carry(sh: Shape, index: seq<int>, k: nat)
    requires sh.Valid() && |index| == |sh.dims| && k <= |index| && LowMaxed(sh, index, k)
    ensures Offset(sh, ZeroLow(sh, index, k)) + Product(Radices(sh)[..k]) == Offset(sh, index) + 1
  {
    if k == 0 {
      assert ZeroLow(sh, index, 0) == index;
    } else {
      Carry(sh, index, k - 1);
      CarryStep(sh, index, k - 1);
    }
  }

  lemma CarryStep(sh: Shape, index: seq<int>, k: nat)
    requires sh.Valid() && |index| == |sh.dims| && k < |index| && LowMaxed(sh, index, k + 1)
    ensures Offset(sh, ZeroLow(sh, index, k + 1)) + Product(Radices(sh)[..k + 1])
         == Offset(sh, ZeroLow(sh, index, k)) + Product(Radices(sh)[..k])
  {
    var d, z := sh.minorToMajor[k], ZeroLow(sh, index, k);
    ZeroLowStep(sh, index, k);
    OffsetUpdate(sh, z, d, 0);
    StrideAt(sh, k);
    ProductStep(Radices(sh), k);
    CarryDigit(Offset(sh, z), Offset(sh, z[d := 0]), index[d], Product(Radices(sh)[..k]));
  }

  ghost function Bumped(sh: Shape, index: seq<int>, k: nat): seq<int>
    requires sh.Valid() && |index| == |sh.dims| && k < |index|
  {
    ZeroLow(sh, index, k)[sh.minorToMajor[k] := index[sh.minorToMajor[k]] + 1]
  }

  lemma BumpedInRange(sh: Shape, index: seq<int>, k: nat)
    requires sh.Valid() && InRange(index, sh.dims) && k < |index|
    requires index[sh.minorToMajor[k]] + 1 < sh.dims[sh.minorToMajor[k]]
    ensures InRange(Bumped(sh, index, k), sh.dims)
  {}

  lemma OneStride(a: int, b: int, x: int, w: int)
    requires b == a + (x + 1 - x) * w
    ensures b == a + w
  {}

  lemma BumpedOffset(sh: Shape, index: seq<int>, k: nat)
    requires sh.Valid() && |index| == |sh.dims| && k < |index|
    ensures Offset(sh, Bumped(sh, index, k)) == Offset(sh, ZeroLow(sh, index, k)) + Product(Radices(sh)[..k])
  {
    var d, z := sh.minorToMajor[k], ZeroLow(sh, index, k);
    ZeroLowStep(sh, index, k);
    OffsetUpdate(sh, z, d, index[d] + 1);
    StrideAt(sh, k);
    OneStride(Offset(sh, z), Offset(sh, z[d := index[d] + 1]), index[d], Product(Radices(sh)[..k]));
  }

  /** Resetting the maxed minor digits and bumping the next one is the successor. */
  lemma Successor(sh: Shape, index: seq<int>, k: nat)
    requires sh.Valid() && InRange(index, sh.dims) && k < |index| && LowMaxed(sh, index, k)
    requires index[sh.minorToMajor[k]] + 1 < sh.dims[sh.minorToMajor[k]]
    ensures InRange(Bumped(sh, index, k), sh.dims)
    ensures Offset(sh, Bumped(sh, index, k)) == Offset(sh, index) + 1 < ElementsIn(sh)
  {
    Carry(sh, index, k);
    BumpedOffset(sh, index, k);
    BumpedInRange(sh, index, k);
    OffsetBound(sh, Bumped(sh, index, k));
  }

  lemma OffsetOfOrigin(sh: Shape, z: seq<int>)
    requires sh.Valid() && |z| == |sh.dims| && forall d :: 0 <= d < |z| ==> z[d] == 0
    ensures Offset(sh, z) == 0
  {
    ValueOfZeros(Gather(z, sh.minorToMajor), Radices(sh));
  }

  lemma LastIndex(sh: Shape, index: seq<int>)
    requires sh.Valid() && |index| == |sh.dims| && LowMaxed(sh, index, |index|)
    ensures Offset(sh, index) + 1 == ElementsIn(sh)
  {
    Carry(sh, index, |index|);
    OffsetOfOrigin(sh, ZeroLow(sh, index, |index|));
    assert Radices(sh)[..|index|] == Radices(sh);
    ProductGather(sh.dims, sh.minorToMajor);
  }

  /** The indices a scan goes through: an empty dimension stays at 0, as one of extent 1 does. */
  ghost function Scanned(dims: seq<nat>): (s: seq<nat>)
    ensures |s| == |dims| && Product(s) > 0 && (AllPositive(dims) ==> s == dims)
    ensures forall d :: 0 <= d < |s| ==> s[d] == if dims[d] == 0 then 1 else dims[d]
  {
    var s := seq(|dims|, d requires 0 <= d < |dims| => if dims[d] == 0 then 1 else dims[d]);
    ProductPositive(s);
    s
  }

  /** `std::fill` with zeros from position `start` on. */
  method ZeroFrom(indices: array<int>, start: nat)
    requires start <= indices.Length
    modifies indices
    ensures forall j :: 0 <= j < indices.Length ==> indices[j] == if start <= j then 0 else old(indices[j])
  {
    for d := start to indices.Length
      invariant forall j :: 0 <= j < indices.Length ==> indices[j] == if start <= j < d then 0 else old(indices[j])
    {
      indices[d] := 0;
    }
  }

  /** Bumping row-major digit `dimno` and clearing the more minor ones. */
  lemma RowSuccessor(dims: seq<nat>, was: seq<int>, dimno: nat, now: seq<int>)
    requires InRange(was, dims) && dimno < |was| == |now| && was[dimno] + 1 < dims[dimno]
    requires LowMaxed(RowMajorShape(dims), was, |was| - 1 - dimno)
    requires forall j :: 0 <= j < |now| ==> now[j] == if dimno < j then 0 else if j == dimno then was[j] + 1 else was[j]
    ensures InRange(now, dims) && RowRank(now, dims) == RowRank(was, dims) + 1 < Product(dims)
  {
    var sh, k := RowMajorShape(dims), |was| - 1 - dimno;
    assert sh.minorToMajor[k] == dimno;
    RowPositions(|was|);
    assert now == Bumped(sh, was, k);
    Successor(sh, was, k);
  }

  /** Steps to the next index in row-major order, in place; false exactly at the last one. */
  method BumpIndices(dims: seq<nat>, indices: array<int>) returns (bumped: bool)
    requires InRange(indices[..], Scanned(dims))
    modifies indices
    ensures bumped <==> old(RowRank(indices[..], Scanned(dims))) + 1 < Product(Scanned(dims))
    ensures InRange(indices[..], Scanned(dims))
    ensures bumped ==> RowRank(indices[..], Scanned(dims)) == old(RowRank(indices[..], Scanned(dims))) + 1
    ensures !bumped ==> indices[..] == old(indices[..])
  {
    var n := indices.Length;
    ghost var scanned, was := Scanned(dims), indices[..];
    var dimno := n - 1;
    while dimno >= 0
      invariant -1 <= dimno < n
      invariant indices[..] == was
      invariant LowMaxed(RowMajorShape(scanned), was, n - 1 - dimno)
    {
      var limit := dims[dimno];
      if indices[dimno] + 1 < limit {
        indices[dimno] := indices[dimno] + 1;
        ZeroFrom(indices, dimno + 1);
        RowSuccessor(scanned, was, dimno, indices[..]);
        return true;
      }
      dimno := dimno - 1;
    }
    LastIndex(RowMajorShape(scanned), was);
    return false;
  }

  lemma RowPositions(n: nat)
    ensures forall d :: 0 <= d < n ==> PositionOf(RowMajor(n), d) == n - 1 - d
  {
    forall d | 0 <= d < n ensures PositionOf(RowMajor(n), d) == n - 1 - d {
      PositionAt(RowMajor(n), n - 1 - d);
    }
  }

  /** Agrees with row-major order: -1 exactly for the earlier index (the code's sign). */
  method CompareIndices(lhs: seq<int>, rhs: seq<int>) returns (c: int)
    requires |lhs| == |rhs|
    ensures c == if LexLess(lhs, rhs) then -1 else if LexLess(rhs, lhs) then 1 else 0
    ensures c == 0 <==> lhs == rhs
    ensures forall dims: seq<nat> :: InRange(lhs, dims) && InRange(rhs, dims) ==>
              (c == -1 <==> RowRank(lhs, dims) < RowRank(rhs, dims))
  {
    c := 0;
    for dim := 0 to |lhs|
      invariant lhs[..dim] == rhs[..dim]
      invariant c == 0
    {
      if lhs[dim] < rhs[dim] {
        assert LexLessAt(lhs, rhs, dim);
        c := -1;
        break;
      } else if lhs[dim] > rhs[dim] {
        assert LexLessAt(rhs, lhs, dim);
        c := 1;
        break;
      }
    }
    assert c == 0 ==> lhs == lhs[..|lhs|] == rhs[..|rhs|] == rhs;
    LexAsymmetric(lhs, rhs);
    forall dims: seq<nat> | InRange(lhs, dims) && InRange(rhs, dims)
      ensures c == -1 <==> RowRank(lhs, dims) < RowRank(rhs, dims)
    {
      RowRankOrder(lhs, rhs, dims);
    }
  }

  lemma LexAsymmetric(a: seq<int>, b: seq<int>)
    ensures !(LexLess(a, b) && LexLess(b, a)) && !LexLess(a, a)
  {
    if LexLess(a, b) && LexLess(b, a) {
      var j :| LexLessAt(a, b, j);
      var k :| LexLessAt(b, a, k);
      if j < k {} else if k < j {}
    }
  }
}
