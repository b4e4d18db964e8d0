/** When `Slice` and `UpdateSlice` of xla/array.h do what they say although the window reaches
    outside the array. */
module ArrayWindows {
  import opened MixedRadix
  import opened Permutations
  import opened Layouts
  import opened IndexUtil
  import opened CopySlice
  import opened Arrays

  /** The counter that closes up the cells found gives each its rank in the whole window. */
  ghost predicate RanksKept(dims: seq<nat>, starts: seq<int>, size: seq<nat>)
    requires |starts| == |size| == |dims|
  {
    forall index :: InRange(index, dims) && InWindow(index, starts, size) ==>
      RowRank(Minus(index, ClipStart(starts, dims)), ClipSize(starts, size, dims)) == RowRank(Minus(index, starts), size)
  }

  /** No cell is in the array, or the window starts there and is cut only where no more major
      dimension keeps more than one cell. */
  predicate ClosesUp(dims: seq<nat>, starts: seq<int>, size: seq<nat>)
    requires |starts| == |size| == |dims|
  {
    var inside := ClipSize(starts, size, dims);
    || (exists d :: 0 <= d < |dims| && inside[d] == 0)
    || (ClipStart(starts, dims) == starts
        && forall d, e :: 0 <= e < d < |dims| && inside[d] < size[d] ==> inside[e] == 1)
  }

  // ---- numerals with fewer radices ----

  /** Below a digit that is cut short all higher digits are zero. */
  lemma {:induction false} SameValues(a: seq<int>, q: seq<nat>, r: seq<nat>)
    requires InRange(a, q) && |q| == |r| && forall k :: 0 <= k < |q| ==> q[k] <= r[k]
    requires forall k, l :: 0 <= k < l < |q| && q[k] < r[k] ==> q[l] == 1
    ensures Value(a, q) == Value(a, r)
  {
    if a != [] {
      if q[0] < r[0] {
        ValueOfZeros(a[1..], q[1..]);
        ValueOfZeros(a[1..], r[1..]);
      } else {
        SameValues(a[1..], q[1..], r[1..]);
      }
    }
  }

  lemma MulLess(a: nat, x: nat, b: nat, y: nat)
    requires 0 < a <= b && 0 < x <= y && (a < b || x < y)
    ensures a * x < b * y
  {
    if a < b { MulLe(a, x, y); MulLe(y, a + 1, b); } else { MulLe(a, x + 1, y); }
  }

  lemma {:induction false} ProductLess(a: seq<nat>, b: seq<nat>, k: nat)
    requires AllPositive(a) && |a| == |b| && (forall j :: 0 <= j < |a| ==> a[j] <= b[j])
    requires k < |a| && a[k] < b[k]
    ensures Product(a) < Product(b)
  {
    ProductPositive(a[1..]);
    if k == 0 { ProductLe(a[1..], b[1..]); } else { ProductLess(a[1..], b[1..], k - 1); }
    MulLess(a[0], Product(a[1..]), b[0], Product(b[1..]));
  }

  /** The neighbour of the origin in dimension `e`. */
  function Unit(n: nat, e: int): (u: seq<int>)
    ensures |u| == n
  {
    seq(n, d => if d == e then 1 else 0)
  }

  lemma UnitRank(dims: seq<nat>, e: nat)
    requires e < |dims|
    ensures RowRank(Unit(|dims|, e), dims) == Product(Radices(RowMajorShape(dims))[..|dims| - 1 - e])
  {
    var sh, zeros := RowMajorShape(dims), Unit(|dims|, -1);
    OffsetOfOrigin(sh, zeros);
    OffsetUpdate(sh, zeros, e, 1);
    assert zeros[e := 1] == Unit(|dims|, e);
    StrideAt(sh, |dims| - 1 - e);
  }

  lemma {:induction false} CutMovesUnit(inside: seq<nat>, size: seq<nat>, d: nat, e: nat)
    requires AllPositive(inside) && |inside| == |size| && (forall j :: 0 <= j < |size| ==> inside[j] <= size[j])
    requires e < d < |size| && inside[d] < size[d]
    ensures RowRank(Unit(|size|, e), inside) < RowRank(Unit(|size|, e), size)
  {
    var n, q, r := |size|, Radices(RowMajorShape(inside)), Radices(RowMajorShape(size));
    UnitRank(inside, e);
    UnitRank(size, e);
    ProductLess(q[..n - 1 - e], r[..n - 1 - e], n - 1 - d);
  }

  // ---- ranks are kept exactly by windows that close up ----

  lemma {:induction false} ClosingKeepsRanks(dims: seq<nat>, starts: seq<int>, size: seq<nat>)
    requires |starts| == |size| == |dims| && ClosesUp(dims, starts, size)
    ensures RanksKept(dims, starts, size)
  {
    var base, inside := ClipStart(starts, dims), ClipSize(starts, size, dims);
    ClippedWindow(dims, starts, size);
    var m := RowMajor(|dims|);
    forall index | InRange(index, dims) && InWindow(index, starts, size)
      ensures RowRank(Minus(index, base), inside) == RowRank(Minus(index, starts), size)
    {
      var i := Minus(index, base);
      assert InWindow(index, base, inside) && base == starts;
      GatherRange(i, inside, m);
      SameValues(Gather(i, m), Gather(inside, m), Gather(size, m));
    }
  }

  /** The first cell found has rank 0 in the window only if it is the window's first. */
  lemma {:induction false} FirstCellFound(dims: seq<nat>, starts: seq<int>, size: seq<nat>)
    requires |starts| == |size| == |dims| && RanksKept(dims, starts, size) && AllPositive(ClipSize(starts, size, dims))
    ensures ClipStart(starts, dims) == starts
  {
    var base, inside, zeros := ClipStart(starts, dims), ClipSize(starts, size, dims), Unit(|dims|, -1);
    ClippedWindow(dims, starts, size);
    assert Minus(base, base) == zeros && InWindow(base, base, inside) && InRange(base, dims);
    OffsetOfOrigin(RowMajorShape(inside), zeros);
    OffsetOfOrigin(RowMajorShape(size), zeros);
    OffsetInjective(RowMajorShape(size), Minus(base, starts), zeros);
    forall d | 0 <= d < |dims| ensures base[d] == starts[d] { assert Minus(base, starts)[d] == zeros[d]; }
  }

  lemma {:induction false} CutHasOneRow(dims: seq<nat>, starts: seq<int>, size: seq<nat>, d: nat, e: nat)
    requires |starts| == |size| == |dims| && RanksKept(dims, starts, size) && AllPositive(ClipSize(starts, size, dims))
    requires ClipStart(starts, dims) == starts && e < d < |dims| && ClipSize(starts, size, dims)[d] < size[d]
    ensures ClipSize(starts, size, dims)[e] == 1
  {
    var inside, unit := ClipSize(starts, size, dims), Unit(|dims|, e);
    if inside[e] != 1 {
      ClippedWindow(dims, starts, size);
      PlusMinus(unit, starts);
      assert InRange(unit, inside) && InWindow(Plus(unit, starts), starts, inside) && InRange(Plus(unit, starts), dims);
      CutMovesUnit(inside, size, d, e);
    }
  }

  lemma {:induction false} RanksKeptExactly(dims: seq<nat>, starts: seq<int>, size: seq<nat>)
    requires |starts| == |size| == |dims|
    ensures RanksKept(dims, starts, size) <==> ClosesUp(dims, starts, size)
  {
    var inside := ClipSize(starts, size, dims);
    if ClosesUp(dims, starts, size) {
      ClosingKeepsRanks(dims, starts, size);
    } else if RanksKept(dims, starts, size) {
      FirstCellFound(dims, starts, size);
      forall d: nat, e: nat | e < d < |dims| && inside[d] < size[d] ensures inside[e] == 1 {
        CutHasOneRow(dims, starts, size, d, e);
      }
      assert false;
    }
  }

  // ---- and then, only then, slicing and updating are right ----

  /** Every window cell in the array is read from, or written to, its own place in the window. */
  ghost predicate InPlace<T>(v: seq<T>, dims: seq<nat>, block: seq<T>, starts: seq<int>, size: seq<nat>)
    requires |v| == Product(dims) && |block| == Product(size) && |starts| == |size| == |dims|
  {
    forall index :: InRange(index, dims) && InWindow(index, starts, size) ==> HoldsAt(v, dims, block, starts, size, index)
  }

  ghost predicate HoldsAt<T>(v: seq<T>, dims: seq<nat>, block: seq<T>, starts: seq<int>, size: seq<nat>, index: seq<int>)
    requires |v| == Product(dims) && |block| == Product(size)
    requires InRange(index, dims) && InWindow(index, starts, size)
  {
    RowRankBound(index, dims);
    RowRankBound(Minus(index, starts), size);
    v[RowRank(index, dims)] == block[RowRank(Minus(index, starts), size)]
  }

  /** `a` at position `c` and `b` everywhere else. */
  function OneOther<T>(n: nat, c: int, a: T, b: T): (s: seq<T>)
    ensures |s| == n
  {
    seq(n, p => if p == c then a else b)
  }

  /** The cell found at `index` lands on, or comes from, its rank among the cells found. */
  lemma {:induction false} FoundAt<T>(v: seq<T>, dims: seq<nat>, from: seq<T>, starts: seq<int>, size: seq<nat>, index: seq<int>)
    requires |v| == Product(dims) && |from| == Product(size) && |starts| == |size| == |dims|
    requires InRange(index, dims) && InWindow(index, starts, size)
    ensures
      var c := RowRank(Minus(index, ClipStart(starts, dims)), ClipSize(starts, size, dims));
      && 0 <= c < |Packed(v, dims, starts, size)| <= |from| && 0 <= RowRank(index, dims) < |v|
      && Packed(v, dims, starts, size)[c] == v[RowRank(index, dims)]
      && Overlaid(v, dims, from, starts, size)[RowRank(index, dims)] == from[c]
  {
    var base, inside := ClipStart(starts, dims), ClipSize(starts, size, dims);
    ClippedWindow(dims, starts, size);
    ProductLe(inside, size);
    PlusMinus(index, base);
    SliceReads(v, dims, base, inside, Minus(index, base));
    UpdateReads(v, dims, from[..Product(inside)], base, inside, index);
  }

  lemma {:induction false} UpdateInPlaceExactly<T>(dims: seq<nat>, starts: seq<int>, size: seq<nat>, a: T, b: T)
    requires |starts| == |size| == |dims| && a != b
    ensures ClosesUp(dims, starts, size) <==>
              forall v: seq<T>, from: seq<T> :: |v| == Product(dims) && |from| == Product(size) ==>
                InPlace(Overlaid(v, dims, from, starts, size), dims, from, starts, size)
  {
    RanksKeptExactly(dims, starts, size);
    if ClosesUp(dims, starts, size) {
      forall v: seq<T>, from: seq<T> | |v| == Product(dims) && |from| == Product(size)
        ensures InPlace(Overlaid(v, dims, from, starts, size), dims, from, starts, size)
      {
        forall index | InRange(index, dims) && InWindow(index, starts, size)
          ensures HoldsAt(Overlaid(v, dims, from, starts, size), dims, from, starts, size, index)
        {
          FoundAt(v, dims, from, starts, size, index);
        }
      }
    } else {
      var index :| InRange(index, dims) && InWindow(index, starts, size)
        && RowRank(Minus(index, ClipStart(starts, dims)), ClipSize(starts, size, dims)) != RowRank(Minus(index, starts), size);
      var v := OneOther(Product(dims), 0, b, b);
      var from := OneOther(Product(size), RowRank(Minus(index, starts), size), a, b);
      FoundAt(v, dims, from, starts, size, index);
      RowRankBound(Minus(index, starts), size);
      assert !HoldsAt(Overlaid(v, dims, from, starts, size), dims, from, starts, size, index);
    }
  }

  /** For every result whose first cells are the cells found. */
  lemma {:induction false} SliceInPlaceExactly<T>(dims: seq<nat>, starts: seq<int>, size: seq<nat>, a: T, b: T)
    requires |starts| == |size| == |dims| && a != b
    ensures ClosesUp(dims, starts, size) <==>
              forall v: seq<T>, result: seq<T> ::
                (|v| == Product(dims) && |result| == Product(size) && Packed(v, dims, starts, size) <= result) ==>
                  InPlace(v, dims, result, starts, size)
  {
    RanksKeptExactly(dims, starts, size);
    if ClosesUp(dims, starts, size) {
      forall v: seq<T>, result: seq<T> | |v| == Product(dims) && |result| == Product(size) && Packed(v, dims, starts, size) <= result
        ensures InPlace(v, dims, result, starts, size)
      {
        forall index | InRange(index, dims) && InWindow(index, starts, size) ensures HoldsAt(v, dims, result, starts, size, index) {
          FoundAt(v, dims, result, starts, size, index);
        }
      }
    } else {
      var index :| InRange(index, dims) && InWindow(index, starts, size)
        && RowRank(Minus(index, ClipStart(starts, dims)), ClipSize(starts, size, dims)) != RowRank(Minus(index, starts), size);
      var v, result := MisplacedSlice(dims, starts, size, index, a, b);
    }
  }

  lemma {:induction false} MisplacedSlice<T>(dims: seq<nat>, starts: seq<int>, size: seq<nat>, index: seq<int>, a: T, b: T)
    returns (v: seq<T>, result: seq<T>)
    requires |starts| == |size| == |dims| && a != b && InRange(index, dims) && InWindow(index, starts, size)
    requires RowRank(Minus(index, ClipStart(starts, dims)), ClipSize(starts, size, dims)) != RowRank(Minus(index, starts), size)
    ensures |v| == Product(dims) && |result| == Product(size)
    ensures Packed(v, dims, starts, size) <= result && !InPlace(v, dims, result, starts, size)
  {
    v := OneOther(Product(dims), RowRank(index, dims), a, b);
    var packed := Packed(v, dims, starts, size);
    result := packed + OneOther(Product(size) - |packed|, 0, b, b);
    var c := RowRank(Minus(index, starts), size);
    RowRankBound(index, dims);
    RowRankBound(Minus(index, starts), size);
    if c < |packed| { OtherFound(v, dims, starts, size, index, c, a, b); }
    assert !HoldsAt(v, dims, result, starts, size, index);
  }

  /** Any other cell found holds `b`. */
  lemma {:induction false} OtherFound<T>(v: seq<T>, dims: seq<nat>, starts: seq<int>, size: seq<nat>, index: seq<int>, c: int, a: T, b: T)
    requires |starts| == |size| == |dims| && InRange(index, dims) && v == OneOther(Product(dims), RowRank(index, dims), a, b)
    requires 0 <= c < |Packed(v, dims, starts, size)|
    requires c != RowRank(Minus(index, ClipStart(starts, dims)), ClipSize(starts, size, dims))
    ensures Packed(v, dims, starts, size)[c] == b
  {
    var base, inside := ClipStart(starts, dims), ClipSize(starts, size, dims);
    ClippedWindow(dims, starts, size);
    var idx := RowIndex(inside, c);
    SliceReads(v, dims, base, inside, idx);
    PlusMinus(idx, base);
    if RowRank(Plus(idx, base), dims) == RowRank(index, dims) {
      OffsetInjective(RowMajorShape(dims), Plus(idx, base), index);
    }
  }

  // ---- a window that does not ----

  /** A window of the size of a square array that starts at its second column. */
  ghost predicate HalfOutside(dims: seq<nat>, starts: seq<int>) { dims == [2, 2] && starts == [0, 1] }

  lemma HalfInside(dims: seq<nat>, starts: seq<int>)
    requires HalfOutside(dims, starts)
    ensures Product(dims) == 4 && ClipStart(starts, dims) == [0, 1] && ClipSize(starts, dims, dims) == [2, 1]
    ensures !ClosesUp(dims, starts, dims)
  {
    SizeOfTwo(dims);
    var inside := ClipSize(starts, dims, dims);
    assert inside[1] == 1 && inside[0] == 2;
  }

  /** In an array of two by two, updated from its second column on with a block of two by two,
      the lower cell of that column gets the block's second element instead of its third. */
  lemma {:induction false} UpdateOutOfPlace<T>(dims: seq<nat>, starts: seq<int>, v: seq<T>, from: seq<T>, index: seq<int>)
    requires HalfOutside(dims, starts) && |v| == |from| == 4 && index == [1, 1]
    ensures Product(dims) == 4 && !ClosesUp(dims, starts, dims)
    ensures RowRank(index, dims) == 3 && RowRank(Minus(index, starts), dims) == 2
    ensures Overlaid(v, dims, from, starts, dims)[3] == from[1]
  {
    HalfInside(dims, starts);
    LowerCellRanks(dims, starts, index);
    FoundAt(v, dims, from, starts, dims, index);
  }

  lemma LowerCellRanks(dims: seq<nat>, starts: seq<int>, index: seq<int>)
    requires HalfOutside(dims, starts) && index == [1, 1]
    ensures RowRank(index, dims) == 3 && RowRank(Minus(index, starts), dims) == 2
    ensures RowRank(Minus(index, ClipStart(starts, dims)), ClipSize(starts, dims, dims)) == 1
  {
    HalfInside(dims, starts);
    assert Minus(index, starts) == [1, 0];
    RankInTwo(index, dims);
    RankInTwo([1, 0], dims);
    RankInTwo([1, 0], ClipSize(starts, dims, dims));
  }
}
