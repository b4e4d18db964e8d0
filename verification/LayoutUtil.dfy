/** Layout validation and tiled offsets (xla/layout_util.cc). */
module LayoutUtil {
  import opened Arithmetic
  import opened MixedRadix
  import opened Permutations
  import opened Layouts
  import opened IndexUtil

  /** The minor_to_major part of `ValidateLayoutForShape` for an array shape: accepted
      exactly when it is a permutation of the dimensions. */
  method ValidateLayoutForShape(layout: seq<int>, rank: nat) returns (ok: bool)
    ensures ok <==> |layout| == rank && IsPerm(layout)
  {
    if |layout| != rank { return false; }
    var inLayout := new bool[rank](_ => false);
    for i := 0 to rank
      invariant Indexes(layout[..i], rank) && Distinct(layout[..i])
      invariant forall d :: 0 <= d < rank ==> (inLayout[d] <==> d in layout[..i])
    {
      var dim := layout[i];
      if dim < 0 || dim >= rank { return false; }
      if inLayout[dim] {
        var j :| 0 <= j < i && layout[..i][j] == dim;
        assert layout[j] == layout[i];
        return false;
      }
      inLayout[dim] := true;
      assert layout[..i + 1] == layout[..i] + [dim];
    }
    assert layout[..rank] == layout;
    return true;
  }

  /** Makes `dim` most major and keeps the relative order of the others. */
  method MoveDimToMajor(layout: seq<int>, dim: int) returns (moved: seq<int>)
    requires IsPerm(layout) && 0 <= dim < |layout|
    ensures
      var k := PositionOf(layout, dim);
      moved == layout[..k] + layout[k + 1..] + [dim] && IsPerm(moved)
  {
    ghost var k := PositionOf(layout, dim);
    if dim == layout[|layout| - 1] {
      PositionAt(layout, |layout| - 1);
      return layout;
    }
    moved := [];
    for i := 0 to |layout|
      invariant moved == if i <= k then layout[..i] else layout[..k] + layout[k + 1..i]
    {
      if layout[i] != dim {
        moved := moved + [layout[i]];
      } else {
        PositionAt(layout, i);
      }
    }
    moved := moved + [dim];
    forall a, b | 0 <= a < b < |moved| ensures moved[a] != moved[b] {
      var a' := if a < k then a else a + 1;
      assert moved[a] == layout[a'];
      if b < |moved| - 1 {
        assert moved[b] == layout[if b < k then b else b + 1];
      } else {
        assert moved[b] == layout[k];
      }
    }
  }

  // ---- tiled offsets ----

  function CeilOfRatio(a: nat, b: nat): nat
    requires b > 0
  {
    a / b + if a % b == 0 then 0 else 1
  }

  /** Tile extent along the dimension at minor position `k`; untiled positions have extent 1. */
  function TileAt(tile: seq<nat>, k: nat): nat { if k < |tile| then tile[|tile| - 1 - k] else 1 }

  ghost function Extents(sh: Shape, tile: seq<nat>): (t: seq<nat>)
    requires AllPositive(tile)
    ensures |t| == |sh.dims| && AllPositive(t)
  {
    seq(|sh.dims|, k requires 0 <= k < |sh.dims| => TileAt(tile, k))
  }

  /** Number of tiles along each minor position, rounded up. */
  ghost function TileCounts(sh: Shape, tile: seq<nat>): (c: seq<nat>)
    requires sh.Valid() && AllPositive(tile)
    ensures |c| == |sh.dims|
  {
    seq(|sh.dims|, k requires 0 <= k < |sh.dims| => CeilOfRatio(Radices(sh)[k], Extents(sh, tile)[k]))
  }

  /** Which tile an index falls in, and where inside it, per minor position. */
  ghost function TileNumbers(sh: Shape, tile: seq<nat>, index: seq<int>): (q: seq<int>)
    requires sh.Valid() && AllPositive(tile) && |index| == |sh.dims|
    ensures |q| == |sh.dims|
  {
    seq(|sh.dims|, k requires 0 <= k < |sh.dims| => index[sh.minorToMajor[k]] / Extents(sh, tile)[k])
  }

  ghost function Remainders(sh: Shape, tile: seq<nat>, index: seq<int>): (r: seq<int>)
    requires sh.Valid() && AllPositive(tile) && |index| == |sh.dims|
    ensures |r| == |sh.dims|
  {
    seq(|sh.dims|, k requires 0 <= k < |sh.dims| => index[sh.minorToMajor[k]] % Extents(sh, tile)[k])
  }

  /** Tiles are stored one after the other, each a small dense array of its own. */
  ghost function TiledOffset(sh: Shape, tile: seq<nat>, index: seq<int>): int
    requires sh.Valid() && AllPositive(tile) && |index| == |sh.dims|
  {
    Value(Remainders(sh, tile, index), Extents(sh, tile))
      + Product(tile) * Value(TileNumbers(sh, tile, index), TileCounts(sh, tile))
  }

  /** Space for all tiles: tile size times tile counts, untiled dimensions counting whole. */
  ghost function TiledSize(sh: Shape, tile: seq<nat>): nat
    requires sh.Valid() && AllPositive(tile)
  {
    Product(tile) * Product(TileCounts(sh, tile))
  }

  lemma CeilBound(x: int, d: nat, t: nat)
    requires 0 <= x < d && t > 0
    ensures 0 <= x / t < CeilOfRatio(d, t)
  {
    var c := CeilOfRatio(d, t);
    assert d == t * (d / t) + d % t;
    assert d <= t * c by { if d % t != 0 { assert t * c == t * (d / t) + t; } }
    DivBound(x, t, c);
  }

  lemma TileDigitsInRange(sh: Shape, tile: seq<nat>, index: seq<int>)
    requires sh.Valid() && AllPositive(tile) && InRange(index, sh.dims)
    ensures InRange(TileNumbers(sh, tile, index), TileCounts(sh, tile))
    ensures InRange(Remainders(sh, tile, index), Extents(sh, tile))
  {
    forall k | 0 <= k < |sh.dims|
      ensures 0 <= TileNumbers(sh, tile, index)[k] < TileCounts(sh, tile)[k]
    {
      CeilBound(index[sh.minorToMajor[k]], Radices(sh)[k], Extents(sh, tile)[k]);
    }
  }

  ghost function Reversed(s: seq<nat>): (r: seq<nat>)
    ensures |r| == |s|
  {
    Gather(s, RowMajor(|s|))
  }

  lemma ProductOfOnes(s: seq<nat>)
    requires forall k :: 0 <= k < |s| ==> s[k] == 1
    ensures Product(s) == 1
  {}

  lemma ProductOfFirst(s: seq<nat>, k: nat)
    requires AllPositive(s) && k <= |s|
    ensures 0 < Product(s[..k]) <= Product(s)
  {
    ProductPositive(s[..k]);
    ProductPositive(s[k..]);
    assert s == s[..k] + s[k..];
    ProductConcat(s[..k], s[k..]);
    MulLe(Product(s[..k]), 1, Product(s[k..]));
  }

  /** The extents in use are the last sizes of the tile, reversed, and then ones. */
  lemma ExtentsAreLast(sh: Shape, tile: seq<nat>)
    requires AllPositive(tile)
    ensures
      var t, rev, k := Extents(sh, tile), Reversed(tile), Min(|tile|, |sh.dims|);
      t[..k] == rev[..k] && forall j :: k <= j < |t| ==> t[j] == 1
  {}

  /** The extents in use multiply to at most the tile size (less when the tile has more
      dimensions than the shape). */
  lemma ExtentsFitTile(sh: Shape, tile: seq<nat>)
    requires AllPositive(tile)
    ensures 0 < Product(Extents(sh, tile)) <= Product(tile)
  {
    var t, rev, k := Extents(sh, tile), Reversed(tile), Min(|tile|, |sh.dims|);
    ExtentsAreLast(sh, tile);
    ProductGather(tile, RowMajor(|tile|));
    ProductOfFirst(rev, k);
    ProductOfOnes(t[k..]);
    assert t == t[..k] + t[k..];
    ProductConcat(t[..k], t[k..]);
  }

  lemma TiledOffsetBound(sh: Shape, tile: seq<nat>, index: seq<int>)
    requires sh.Valid() && AllPositive(tile) && InRange(index, sh.dims)
    ensures 0 <= TiledOffset(sh, tile, index) < TiledSize(sh, tile)
  {
    TileDigitsInRange(sh, tile, index);
    ValueBound(TileNumbers(sh, tile, index), TileCounts(sh, tile));
    ValueBound(Remainders(sh, tile, index), Extents(sh, tile));
    ExtentsFitTile(sh, tile);
    var q := Value(TileNumbers(sh, tile, index), TileCounts(sh, tile));
    MulLe(Product(tile), q + 1, Product(TileCounts(sh, tile)));
    MulLe(Product(tile), 0, q);
    MulDistribute(Product(tile), q, 1, 1);
  }

  lemma TiledDigitsDetermined(sh: Shape, tile: seq<nat>, a: seq<int>, b: seq<int>)
    requires sh.Valid() && AllPositive(tile) && InRange(a, sh.dims) && InRange(b, sh.dims)
    requires TiledOffset(sh, tile, a) == TiledOffset(sh, tile, b)
    ensures TileNumbers(sh, tile, a) == TileNumbers(sh, tile, b)
    ensures Remainders(sh, tile, a) == Remainders(sh, tile, b)
  {
    TileDigitsInRange(sh, tile, a);
    TileDigitsInRange(sh, tile, b);
    var t, c := Extents(sh, tile), TileCounts(sh, tile);
    var ra, rb := Remainders(sh, tile, a), Remainders(sh, tile, b);
    var qa, qb := TileNumbers(sh, tile, a), TileNumbers(sh, tile, b);
    ExtentsFitTile(sh, tile);
    ValueBound(ra, t);
    ValueBound(rb, t);
    DivModUnique(Value(qa, c), Value(ra, t), Product(tile));
    DivModUnique(Value(qb, c), Value(rb, t), Product(tile));
    ValueInjective(ra, rb, t);
    ValueInjective(qa, qb, c);
  }

  /** Distinct in-bounds indices have distinct tiled offsets. */
  lemma TiledOffsetInjective(sh: Shape, tile: seq<nat>, a: seq<int>, b: seq<int>)
    requires sh.Valid() && AllPositive(tile) && InRange(a, sh.dims) && InRange(b, sh.dims)
    requires TiledOffset(sh, tile, a) == TiledOffset(sh, tile, b)
    ensures a == b
  {
    TiledDigitsDetermined(sh, tile, a, b);
    var m, t := sh.minorToMajor, Extents(sh, tile);
    forall k | 0 <= k < |m| ensures Gather(a, m)[k] == Gather(b, m)[k] {
      assert a[m[k]] / t[k] == TileNumbers(sh, tile, a)[k] == TileNumbers(sh, tile, b)[k] == b[m[k]] / t[k];
      assert a[m[k]] % t[k] == Remainders(sh, tile, a)[k] == Remainders(sh, tile, b)[k] == b[m[k]] % t[k];
      DivModDetermine(a[m[k]], b[m[k]], t[k]);
    }
    GatherEq(a, b, m);
  }

  lemma DivModDetermine(x: int, y: int, t: nat)
    requires t > 0 && x / t == y / t && x % t == y % t
    ensures x == y
  {}

  /** Without a tile the offset is the plain dense one. */
  lemma UntiledOffset(sh: Shape, index: seq<int>)
    requires sh.Valid() && |index| == |sh.dims|
    ensures TiledOffset(sh, [], index) == Offset(sh, index) && TiledSize(sh, []) == ElementsIn(sh)
  {
    ValueOfZeros(Remainders(sh, [], index), Extents(sh, []));
    assert TileNumbers(sh, [], index) == Gather(index, sh.minorToMajor);
    assert TileCounts(sh, []) == Radices(sh);
    ProductGather(sh.dims, sh.minorToMajor);
  }

  /** A tiled position in row-major terms: the index inside a tile, whose sizes `used` are the
      last ones of the tile, and the index of the tile among `counts` tiles. */
  datatype Parts = Parts(used: seq<nat>, inner: seq<int>, outer: seq<int>, counts: seq<nat>)

  /** `c` pieces of size `t` are just enough for `d`. */
  predicate IsCount(c: int, t: int, d: int) { (c - 1) * t < d <= c * t }

  ghost predicate HasInner(sh: Shape, index: seq<int>, parts: Parts, i: int)
    requires sh.Valid() && |parts.inner| == |parts.used| <= |index| == |sh.dims| && 0 <= i < |parts.inner| && AllPositive(parts.used)
  {
    parts.inner[i] == index[sh.minorToMajor[|parts.inner| - 1 - i]] % parts.used[i]
  }

  ghost predicate HasOuter(sh: Shape, tile: seq<nat>, index: seq<int>, parts: Parts, i: int)
    requires sh.Valid() && AllPositive(tile) && |parts.outer| == |parts.counts| == |index| == |sh.dims| && 0 <= i < |index|
  {
    var k, d := |index| - 1 - i, sh.minorToMajor[|index| - 1 - i];
    if k < |tile| then
      parts.outer[i] == index[d] / tile[|tile| - 1 - k] && IsCount(parts.counts[i], tile[|tile| - 1 - k], sh.dims[d])
    else
      parts.outer[i] == index[d] && parts.counts[i] == sh.dims[d]
  }

  ghost predicate HasParts(sh: Shape, tile: seq<nat>, index: seq<int>, parts: Parts)
    requires sh.Valid() && AllPositive(tile) && |index| == |sh.dims|
  {
    && |parts.inner| == |parts.used| == Min(|tile|, |index|) && |parts.outer| == |parts.counts| == |index|
    && parts.used == tile[|tile| - |parts.used|..]
    && (forall i :: 0 <= i < |parts.inner| ==> HasInner(sh, index, parts, i))
    && (forall i :: 0 <= i < |index| ==> HasOuter(sh, tile, index, parts, i))
  }

  /** Whole tiles before it, plus the position inside its own tile. */
  ghost function PartsRank(tile: seq<nat>, parts: Parts): int
    requires |parts.inner| == |parts.used| && |parts.outer| == |parts.counts|
  {
    RowRank(parts.inner, parts.used) + Product(tile) * RowRank(parts.outer, parts.counts)
  }

  ghost function PartsOf(sh: Shape, tile: seq<nat>, index: seq<int>): (parts: Parts)
    requires sh.Valid() && AllPositive(tile) && |index| == |sh.dims|
    ensures |parts.used| == |parts.inner| && |parts.outer| == |parts.counts| == |sh.dims|
  {
    var n, k := |sh.dims|, Min(|tile|, |sh.dims|);
    Parts(tile[|tile| - k..], Gather(Remainders(sh, tile, index)[..k], RowMajor(k)),
          Gather(TileNumbers(sh, tile, index), RowMajor(n)), Gather(TileCounts(sh, tile), RowMajor(n)))
  }

  lemma ExtentOne(index: int, dimSize: nat)
    ensures index % 1 == 0 && index / 1 == index && CeilOfRatio(dimSize, 1) == dimSize
  {}

  lemma CeilIsCount(d: nat, t: nat)
    requires t > 0
    ensures IsCount(CeilOfRatio(d, t), t, d)
  {
    assert d == t * (d / t) + d % t;
  }

  lemma CountUnique(b: int, t: int, d: int, c: int)
    requires IsCount(b, t, d) && IsCount(c, t, d) && t > 0
    ensures b == c
  {
    if b < c { MulLe(t, b, c - 1); }
    if c < b { MulLe(t, c, b - 1); }
  }

  lemma {:induction false} PartsAreRight(sh: Shape, tile: seq<nat>, index: seq<int>)
    requires sh.Valid() && AllPositive(tile) && |index| == |sh.dims|
    ensures HasParts(sh, tile, index, PartsOf(sh, tile, index))
  {
    InnersRight(sh, tile, index);
    forall i | 0 <= i < |index| ensures HasOuter(sh, tile, index, PartsOf(sh, tile, index), i) { OuterAt(sh, tile, index, i); }
  }

  lemma {:induction false} InnersRight(sh: Shape, tile: seq<nat>, index: seq<int>)
    requires sh.Valid() && AllPositive(tile) && |index| == |sh.dims|
    ensures
      var parts := PartsOf(sh, tile, index);
      AllPositive(parts.used) && forall i :: 0 <= i < |parts.inner| ==> HasInner(sh, index, parts, i)
  {
    var parts, k := PartsOf(sh, tile, index), Min(|tile|, |sh.dims|);
    forall i | 0 <= i < k ensures parts.used[i] == TileAt(tile, k - 1 - i) > 0 {}
    forall i | 0 <= i < k ensures HasInner(sh, index, parts, i) { InnerAt(sh, tile, index, i); }
  }

  lemma {:induction false} InnerAt(sh: Shape, tile: seq<nat>, index: seq<int>, i: int)
    requires sh.Valid() && AllPositive(tile) && |index| == |sh.dims| && 0 <= i < Min(|tile|, |index|)
    ensures
      var parts := PartsOf(sh, tile, index);
      && |parts.inner| == |parts.used| == Min(|tile|, |index|) && parts.used[i] > 0
      && parts.inner[i] == index[sh.minorToMajor[|parts.inner| - 1 - i]] % parts.used[i]
  {
    var k := Min(|tile|, |index|);
    assert tile[|tile| - k..][i] == tile[|tile| - 1 - (k - 1 - i)];
    assert Remainders(sh, tile, index)[..k][k - 1 - i] == Remainders(sh, tile, index)[k - 1 - i];
  }

  lemma {:induction false} OuterAt(sh: Shape, tile: seq<nat>, index: seq<int>, i: int)
    requires sh.Valid() && AllPositive(tile) && |index| == |sh.dims| && 0 <= i < |index|
    ensures HasOuter(sh, tile, index, PartsOf(sh, tile, index), i)
  {
    var k, d := |index| - 1 - i, sh.minorToMajor[|index| - 1 - i];
    CeilIsCount(sh.dims[d], TileAt(tile, k));
    ExtentOne(index[d], sh.dims[d]);
  }

  lemma {:induction false} ReversedTwice<T>(s: seq<T>)
    ensures Gather(Gather(s, RowMajor(|s|)), RowMajor(|s|)) == s
  {}

  lemma {:induction false} UsedReversed(sh: Shape, tile: seq<nat>)
    requires AllPositive(tile)
    ensures var k := Min(|tile|, |sh.dims|); Gather(tile[|tile| - k..], RowMajor(k)) == Extents(sh, tile)[..k]
  {}

  lemma {:induction false} TiledOffsetOfParts(sh: Shape, tile: seq<nat>, index: seq<int>)
    requires sh.Valid() && AllPositive(tile) && |index| == |sh.dims|
    ensures
      var parts := PartsOf(sh, tile, index);
      TiledOffset(sh, tile, index) == PartsRank(tile, parts)
  {
    var k, r := Min(|tile|, |sh.dims|), Remainders(sh, tile, index);
    ValuePadded(r, Extents(sh, tile), k);
    UsedReversed(sh, tile);
    ReversedTwice(r[..k]);
    ReversedTwice(TileNumbers(sh, tile, index));
    ReversedTwice(TileCounts(sh, tile));
  }

  lemma {:induction false} FindParts(sh: Shape, tile: seq<nat>, index: seq<int>) returns (parts: Parts)
    requires sh.Valid() && AllPositive(tile) && |index| == |sh.dims|
    ensures HasParts(sh, tile, index, parts)
    ensures TiledOffset(sh, tile, index) == PartsRank(tile, parts)
  {
    PartsAreRight(sh, tile, index);
    TiledOffsetOfParts(sh, tile, index);
    parts := PartsOf(sh, tile, index);
  }

  /** In a row-major matrix the tile's last size goes with the columns. */
  lemma {:induction false} TiledMatrix(sh: Shape, tile: seq<nat>, index: seq<int>, columns: nat)
    requires sh.Valid() && |sh.dims| == 2 && sh.minorToMajor == [1, 0] && |index| == |tile| == 2 && AllPositive(tile)
    requires IsCount(columns, tile[1], sh.dims[1])
    ensures TiledOffset(sh, tile, index) ==
              (index[0] / tile[0] * columns + index[1] / tile[1]) * (tile[0] * tile[1])
              + index[0] % tile[0] * tile[1] + index[1] % tile[1]
  {
    var parts := FindParts(sh, tile, index);
    assert parts.used == tile;
    assert HasInner(sh, index, parts, 0) && HasInner(sh, index, parts, 1);
    assert HasOuter(sh, tile, index, parts, 0) && HasOuter(sh, tile, index, parts, 1);
    CountUnique(parts.counts[1], tile[1], sh.dims[1], columns);
    RankInTwo(parts.inner, parts.used);
    RankInTwo(parts.outer, parts.counts);
    SizeOfTwo(tile);
    MulCommute(tile[0] * tile[1], index[0] / tile[0] * columns + index[1] / tile[1]);
  }

  lemma MulCommute(a: int, b: int)
    ensures a * b == b * a
  {}

  /** What is still to be added after `k` minor positions of the tiled sum. */
  ghost function Remaining(r: seq<int>, t: seq<nat>, q: seq<int>, c: seq<nat>, volume: nat, k: nat): int
    requires |r| == |t| == |q| == |c| && k <= |r|
  {
    Product(t[..k]) * Value(r[k..], t[k..]) + volume * (Product(c[..k]) * Value(q[k..], c[k..]))
  }

  lemma {:induction false} RemainingStep(r: seq<int>, t: seq<nat>, q: seq<int>, c: seq<nat>, volume: nat, k: nat,
                      within: int, outer: int, x: int, y: int)
    requires |r| == |t| == |q| == |c| && k < |r| && r[k] == x && q[k] == y
    requires within == Product(t[..k]) && outer == volume * Product(c[..k])
    ensures Remaining(r, t, q, c, volume, k) == Remaining(r, t, q, c, volume, k + 1) + within * x + outer * y
    ensures within * t[k] == Product(t[..k + 1]) && outer * c[k] == volume * Product(c[..k + 1])
  {
    ValueSplit(r, t, k);
    ValueSplit(q, c, k);
    var w, rest := Product(c[..k]), Product(c[..k + 1]) * Value(q[k + 1..], c[k + 1..]);
    MulDistribute(volume, w * q[k], 1, rest);
    MulAssoc(volume, w, q[k]);
    ProductStep(t, k);
    ProductStep(c, k);
    MulAssoc(volume, w, c[k]);
  }

  lemma {:induction false} RemainingEnds(r: seq<int>, t: seq<nat>, q: seq<int>, c: seq<nat>, volume: nat)
    requires |r| == |t| == |q| == |c|
    ensures Remaining(r, t, q, c, volume, 0) == Value(r, t) + volume * Value(q, c)
    ensures Remaining(r, t, q, c, volume, |r|) == 0
  {
    assert q[0..] == q && c[0..] == c && r[0..] == r && t[0..] == t;
  }

  method TileVolume(tile: seq<nat>) returns (volume: nat)
    ensures volume == Product(tile)
  {
    volume := 1;
    for i := 0 to |tile|
      invariant volume == Product(tile[..i])
    {
      ProductStep(tile, i);
      volume := volume * tile[i];
    }
    assert tile[..|tile|] == tile;
  }

  method LinearIndex(sh: Shape, tile: seq<nat>, indices: seq<int>) returns (linear: int, ghost parts: Parts)
    requires sh.Valid() && AllPositive(tile) && InRange(indices, sh.dims)
    ensures HasParts(sh, tile, indices, parts)
    ensures |sh.dims| >= 2 ==> linear == TiledOffset(sh, tile, indices) == PartsRank(tile, parts)
    ensures |sh.dims| <= 1 || tile == [] ==> linear == Offset(sh, indices)
  {
    parts := FindParts(sh, tile, indices);
    var rank := |sh.dims|;
    if rank <= 1 { SmallOffset(sh, indices); }
    if rank == 0 { return 0, parts; }
    if rank == 1 { return indices[0], parts; }
    if tile == [] { UntiledOffset(sh, indices); }
    linear := TiledSum(sh, tile, indices);
  }

  lemma SmallOffset(sh: Shape, index: seq<int>)
    requires sh.Valid() && |index| == |sh.dims| <= 1
    ensures Offset(sh, index) == if index == [] then 0 else index[0]
  {
    if index != [] { VectorOffset(sh, index); }
  }

  /** After `minor` positions: the two multipliers, and what is still to be added. */
  ghost predicate Summed(sh: Shape, tile: seq<nat>, indices: seq<int>, minor: nat, linear: int, within: int, outer: int) {
    && sh.Valid() && AllPositive(tile) && |indices| == |sh.dims| && minor <= |sh.dims|
    && outer == Product(tile) * Product(TileCounts(sh, tile)[..minor]) && within == Product(Extents(sh, tile)[..minor])
    && linear + Remaining(Remainders(sh, tile, indices), Extents(sh, tile), TileNumbers(sh, tile, indices), TileCounts(sh, tile),
                          Product(tile), minor) == TiledOffset(sh, tile, indices)
  }

  /** The loop over the minor positions. */
  method TiledSum(sh: Shape, tile: seq<nat>, indices: seq<int>) returns (linear: int)
    requires sh.Valid() && AllPositive(tile) && |indices| == |sh.dims|
    ensures linear == TiledOffset(sh, tile, indices)
  {
    linear := 0;
    var tileMultiplier := TileVolume(tile);
    var withinTileMultiplier := 1;
    RemainingEnds(Remainders(sh, tile, indices), Extents(sh, tile), TileNumbers(sh, tile, indices), TileCounts(sh, tile), Product(tile));
    for minor := 0 to |sh.dims|
      invariant Summed(sh, tile, indices, minor, linear, withinTileMultiplier, tileMultiplier)
    {
      linear, withinTileMultiplier, tileMultiplier :=
        AddPosition(sh, tile, indices, minor, linear, withinTileMultiplier, tileMultiplier);
    }
  }

  /** Its body. */
  method AddPosition(sh: Shape, tile: seq<nat>, indices: seq<int>, minor: nat, sum: int, within: int, outer: int)
    returns (linear: int, withinTileMultiplier: int, tileMultiplier: int)
    requires minor < |sh.dims| && Summed(sh, tile, indices, minor, sum, within, outer)
    ensures Summed(sh, tile, indices, minor + 1, linear, withinTileMultiplier, tileMultiplier)
  {
    var logicalDim := sh.minorToMajor[minor];
    var dimSize := sh.dims[logicalDim];
    var index := indices[logicalDim];
    ghost var c, t := TileCounts(sh, tile), Extents(sh, tile);
    ghost var extent := t[minor];
    assert extent == TileAt(tile, minor) && c[minor] == CeilOfRatio(dimSize, extent);
    RemainingStep(Remainders(sh, tile, indices), t, TileNumbers(sh, tile, indices), c, Product(tile), minor,
                  within, outer, index % extent, index / extent);
    if minor < |tile| {
      var tileDimSize := tile[|tile| - 1 - minor];
      linear := sum + (outer * (index / tileDimSize) + within * (index % tileDimSize));
      tileMultiplier := outer * CeilOfRatio(dimSize, tileDimSize);
      withinTileMultiplier := within * tileDimSize;
    } else {
      ExtentOne(index, dimSize);
      linear := sum + index * outer;
      tileMultiplier := outer * dimSize;
      withinTileMultiplier := within;
    }
  }
}
