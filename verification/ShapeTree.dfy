/** Trees of values mirroring nested tuple shapes: depth-first node storage behind a
    breadth-first lookup table (xla/shape_tree.h, xla/shape_tree.cc). */
module ShapeTrees {

  datatype Shape = Leaf(dims: seq<nat>, layout: seq<int>) | Tuple(elements: seq<Shape>)

  type ShapeIndex = seq<int>

  // ---- shapes ----

  /** `SubshapeCount`: nodes of the tree. */
  function Count(s: Shape): (n: nat)
    ensures n > 0
  {
    match s
    case Leaf(_, _) => 1
    case Tuple(es) => 1 + CountAll(es)
  }

  function CountAll(es: seq<Shape>): nat
    decreases es
  {
    if es == [] then 0 else CountAll(es[..|es| - 1]) + Count(es[|es| - 1])
  }

  predicate ValidIndex(s: Shape, index: ShapeIndex)
    decreases index
  {
    index == [] || (s.Tuple? && 0 <= index[0] < |s.elements| && ValidIndex(s.elements[index[0]], index[1..]))
  }

  function Subshape(s: Shape, index: ShapeIndex): Shape
    requires ValidIndex(s, index)
    decreases index
  {
    if index == [] then s else Subshape(s.elements[index[0]], index[1..])
  }

  /** Rank of a node in depth-first pre-order. */
  function Position(s: Shape, index: ShapeIndex): nat
    requires ValidIndex(s, index)
    decreases index
  {
    if index == [] then 0
    else 1 + CountAll(s.elements[..index[0]]) + Position(s.elements[index[0]], index[1..])
  }

  function Prepend(i: int, labels: seq<ShapeIndex>): (r: seq<ShapeIndex>)
    ensures |r| == |labels| && forall k :: 0 <= k < |r| ==> r[k] == [i] + labels[k]
  {
    seq(|labels|, k requires 0 <= k < |labels| => [i] + labels[k])
  }

  /** The indices of all nodes in pre-order. */
  function Labels(s: Shape): (r: seq<ShapeIndex>)
    ensures |r| == Count(s) && r[0] == []
  {
    match s
    case Leaf(_, _) => [[]]
    case Tuple(es) => [[]] + ChildLabels(es)
  }

  function ChildLabels(es: seq<Shape>): (r: seq<ShapeIndex>)
    ensures |r| == CountAll(es)
    decreases es
  {
    if es == [] then [] else
      var n := |es| - 1;
      ChildLabels(es[..n]) + Prepend(n, Labels(es[n]))
  }

  // ---- subtrees are contiguous ----

  lemma {:induction false} CountPrefix(es: seq<Shape>, i: nat)
    requires i < |es|
    ensures CountAll(es[..i]) + Count(es[i]) == CountAll(es[..i + 1]) <= CountAll(es)
    decreases |es|
  {
    assert es[..i + 1][..i] == es[..i];
    if i + 1 == |es| {
      assert es[..i + 1] == es;
    } else {
      CountPrefix(es[..|es| - 1], i);
      assert es[..|es| - 1][..i] == es[..i] && es[..|es| - 1][..i + 1] == es[..i + 1];
    }
  }

  /** The labels of the first `m` children come first. */
  lemma {:induction false} FirstChildLabels(es: seq<Shape>, m: nat)
    requires m <= |es|
    ensures CountAll(es[..m]) <= CountAll(es) && ChildLabels(es)[..CountAll(es[..m])] == ChildLabels(es[..m])
    decreases |es|
  {
    if m == |es| {
      assert es[..m] == es;
    } else {
      var front := es[..|es| - 1];
      assert front[..m] == es[..m];
      FirstChildLabels(front, m);
    }
  }

  lemma LastChildLabels(es: seq<Shape>)
    requires es != []
    ensures
      var n := |es| - 1;
      CountAll(es) == CountAll(es[..n]) + Count(es[n]) && ChildLabels(es)[CountAll(es[..n])..] == Prepend(n, Labels(es[n]))
  {}

  lemma {:induction false} ChildLabelAt(es: seq<Shape>, i: nat, k: nat)
    requires i < |es| && k < Count(es[i])
    ensures CountAll(es[..i]) + k < CountAll(es)
    ensures ChildLabels(es)[CountAll(es[..i]) + k] == [i] + Labels(es[i])[k]
  {
    var prefix := es[..i + 1];
    assert prefix[..i] == es[..i];
    FirstChildLabels(es, i + 1);
    LastChildLabels(prefix);
    PieceAt(ChildLabels(es), CountAll(prefix), CountAll(es[..i]), k);
  }

  lemma PieceAt<A>(s: seq<A>, m: nat, f: nat, k: nat)
    requires f + k < m <= |s|
    ensures s[f + k] == s[..m][f..][k]
  {}

  /** The subtree at `index` occupies consecutive pre-order positions, in its own order. */
  lemma {:induction false} SubtreeContiguous(s: Shape, index: ShapeIndex, k: nat)
    requires ValidIndex(s, index) && k < Count(Subshape(s, index))
    ensures Position(s, index) + k < Count(s)
    ensures Labels(s)[Position(s, index) + k] == index + Labels(Subshape(s, index))[k]
    decreases index
  {
    if index == [] {
      assert index + Labels(s)[k] == Labels(s)[k];
    } else {
      var i := index[0];
      SubtreeContiguous(s.elements[i], index[1..], k);
      ChildLabelAt(s.elements, i, Position(s.elements[i], index[1..]) + k);
      ConsConcat(index, Labels(Subshape(s, index))[k]);
    }
  }

  lemma ConsConcat(index: ShapeIndex, rest: ShapeIndex)
    requires index != []
    ensures [index[0]] + (index[1..] + rest) == index + rest
  {}

  lemma {:induction false} ChildOfPosition(es: seq<Shape>, p: nat) returns (i: nat, k: nat)
    requires p < CountAll(es)
    ensures i < |es| && k < Count(es[i]) && p == CountAll(es[..i]) + k
    decreases |es|
  {
    var n := |es| - 1;
    if p < CountAll(es[..n]) {
      i, k := ChildOfPosition(es[..n], p);
      assert es[..n][..i] == es[..i];
    } else {
      i, k := n, p - CountAll(es[..n]);
    }
  }

  /** Labels and positions are inverse: every node has one index and one position. */
  lemma {:induction false} PositionOfLabel(s: Shape, p: nat)
    requires p < Count(s)
    ensures ValidIndex(s, Labels(s)[p]) && Position(s, Labels(s)[p]) == p
    decreases s
  {
    if p > 0 {
      var i, k := ChildOfPosition(s.elements, p - 1);
      ChildLabelAt(s.elements, i, k);
      PositionOfLabel(s.elements[i], k);
      assert Labels(s)[p] == ChildLabels(s.elements)[p - 1] == [i] + Labels(s.elements[i])[k];
    }
  }

  /** `a` is a proper prefix of `b`, or smaller where they first differ. */
  ghost predicate LexBefore(a: ShapeIndex, b: ShapeIndex) {
    a < b || exists k :: 0 <= k < |a| && k < |b| && a[..k] == b[..k] && a[k] < b[k]
  }

  lemma LexBeforeCons(i: int, a: ShapeIndex, b: ShapeIndex)
    requires LexBefore(a, b)
    ensures LexBefore([i] + a, [i] + b)
  {
    var x, y := [i] + a, [i] + b;
    if !(a < b) {
      var k :| 0 <= k < |a| && k < |b| && a[..k] == b[..k] && a[k] < b[k];
      assert x[..k + 1] == [i] + a[..k] && y[..k + 1] == [i] + b[..k];
      assert x[k + 1] < y[k + 1];
    }
  }

  /** Nodes are stored in lexicographic order of their indices. */
  lemma {:induction false} LabelsInOrder(s: Shape, p: nat, q: nat)
    requires p < q < Count(s)
    ensures LexBefore(Labels(s)[p], Labels(s)[q])
    decreases s
  {
    var j, l := ChildOfPosition(s.elements, q - 1);
    ChildLabelAt(s.elements, j, l);
    var b := Labels(s)[q];
    assert b == [j] + Labels(s.elements[j])[l];
    if p > 0 {
      var i, k := ChildOfPosition(s.elements, p - 1);
      ChildLabelAt(s.elements, i, k);
      var a := Labels(s)[p];
      assert a == [i] + Labels(s.elements[i])[k];
      ChildrenInOrder(s.elements, i, k, j, l);
      if i == j {
        LabelsInOrder(s.elements[i], k, l);
        LexBeforeCons(i, Labels(s.elements[i])[k], Labels(s.elements[i])[l]);
      } else {
        assert a[..0] == b[..0] && a[0] < b[0];
      }
    }
  }

  lemma {:induction false} ChildrenInOrder(es: seq<Shape>, i: nat, k: nat, j: nat, l: nat)
    requires i < |es| && k < Count(es[i]) && j < |es| && l < Count(es[j])
    requires CountAll(es[..i]) + k < CountAll(es[..j]) + l
    ensures i < j || (i == j && k < l)
  {
    if j < i { EarlierChild(es, j, i); }
  }

  lemma {:induction false} EarlierChild(es: seq<Shape>, j: nat, i: nat)
    requires j < i <= |es|
    ensures CountAll(es[..j]) + Count(es[j]) <= CountAll(es[..i])
  {
    CountPrefix(es[..i], j);
    assert es[..i][..j] == es[..j] && es[..i][..j + 1] == es[..j + 1];
  }

  lemma LabelAtPosition(s: Shape, index: ShapeIndex)
    requires ValidIndex(s, index)
    ensures Position(s, index) < Count(s) && Labels(s)[Position(s, index)] == index
  {
    SubtreeContiguous(s, index, 0);
    assert index + [] == index;
  }

  /** Indices compose: a suffix inside a subtree is an offset inside its range. */
  lemma {:induction false} PositionCompose(s: Shape, index: ShapeIndex, suffix: ShapeIndex)
    requires ValidIndex(s, index)
    ensures ValidIndex(s, index + suffix) <==> ValidIndex(Subshape(s, index), suffix)
    ensures ValidIndex(s, index + suffix) ==>
      && Subshape(s, index + suffix) == Subshape(Subshape(s, index), suffix)
      && Position(s, index + suffix) == Position(s, index) + Position(Subshape(s, index), suffix)
    decreases index
  {
    if index == [] {
      assert index + suffix == suffix;
    } else {
      assert (index + suffix)[1..] == index[1..] + suffix;
      PositionCompose(s.elements[index[0]], index[1..], suffix);
    }
  }

  lemma PositionOfChild(s: Shape, index: ShapeIndex, i: int)
    requires ValidIndex(s, index) && Subshape(s, index).Tuple? && 0 <= i < |Subshape(s, index).elements|
    ensures ValidIndex(s, index + [i])
    ensures Subshape(s, index + [i]) == Subshape(s, index).elements[i]
    ensures Position(s, index + [i]) == Position(s, index) + 1 + CountAll(Subshape(s, index).elements[..i])
  {
    var sub := Subshape(s, index);
    var child := sub.elements[i];
    assert [i][1..] == [] && ValidIndex(child, []) && Subshape(child, []) == child && Position(child, []) == 0;
    assert ValidIndex(sub, [i]) && Subshape(sub, [i]) == sub.elements[i] && Position(sub, [i]) == 1 + CountAll(sub.elements[..i]);
    PositionCompose(s, index, [i]);
  }

  // ---- the lookup table ----

  datatype Entry = Entry(nodeId: int, childrenStartId: int)

  /** Entry `at` describes the subtree `s` whose root has node id `id`; its descendants'
      entries fill the block starting at `lo`, children first and side by side. */
  ghost predicate Describes(entries: seq<Entry>, at: int, s: Shape, id: int, lo: int)
    decreases s
  {
    && 0 <= at < |entries| && 0 <= lo && lo + Count(s) - 1 <= |entries|
    && entries[at].nodeId == id
    && match s
       case Leaf(_, _) => entries[at].childrenStartId == -1
       case Tuple(es) =>
         && entries[at].childrenStartId == lo
         && forall i :: 0 <= i < |es| ==> DescribesChild(entries, es, i, id, lo)
  }

  ghost predicate DescribesChild(entries: seq<Entry>, es: seq<Shape>, i: nat, id: int, lo: int)
    requires i < |es|
    decreases es
  {
    Describes(entries, lo + i, es[i], id + 1 + CountAll(es[..i]), lo + BlockOf(es, i))
  }

  lemma {:induction false} CountAtLeast(es: seq<Shape>)
    ensures CountAll(es) >= |es|
    decreases |es|
  {
    if es != [] { CountAtLeast(es[..|es| - 1]); }
  }

  lemma {:induction false} CountAtLeastFrom(es: seq<Shape>, i: nat)
    requires i <= |es|
    ensures CountAll(es[..i]) + (|es| - i) <= CountAll(es)
    decreases |es| - i
  {
    if i == |es| {
      assert es[..i] == es;
    } else {
      CountAtLeastFrom(es, i + 1);
      CountPrefix(es, i);
    }
  }

  /** First entry of the block below child `i`, relative to the children's own block. */
  function BlockOf(es: seq<Shape>, i: nat): int
    requires i <= |es|
  {
    |es| + CountAll(es[..i]) - i
  }

  lemma BlockBounds(es: seq<Shape>, i: nat)
    requires i < |es|
    ensures |es| <= BlockOf(es, i) <= BlockOf(es, i) + Count(es[i]) - 1 == BlockOf(es, i + 1) <= CountAll(es)
  {
    CountAtLeast(es[..i]);
    CountAtLeastFrom(es, i + 1);
    CountPrefix(es, i);
  }

  /** A description depends only on its own entries. */
  lemma {:induction false} DescribesFrame(e: seq<Entry>, f: seq<Entry>, at: int, s: Shape, id: int, lo: int)
    requires Describes(e, at, s, id, lo) && |f| >= |e| && f[at] == e[at]
    requires forall p :: lo <= p < lo + Count(s) - 1 ==> f[p] == e[p]
    ensures Describes(f, at, s, id, lo)
    decreases s
  {
    if s.Tuple? {
      var es := s.elements;
      forall i | 0 <= i < |es| ensures DescribesChild(f, es, i, id, lo) {
        assert DescribesChild(e, es, i, id, lo);
        BlockBounds(es, i);
        DescribesFrame(e, f, lo + i, es[i], id + 1 + CountAll(es[..i]), lo + BlockOf(es, i));
      }
    }
  }

  /** Building child `i` leaves the descriptions of the earlier children intact. */
  lemma SiblingsKept(e: seq<Entry>, f: seq<Entry>, es: seq<Shape>, i: nat, id: int, start: nat)
    requires i < |es| && |e| == start + BlockOf(es, i) <= |f|
    requires forall p :: 0 <= p < |e| && p != start + i ==> f[p] == e[p]
    requires forall j :: 0 <= j < i ==> DescribesChild(e, es, j, id, start)
    ensures forall j :: 0 <= j < i ==> DescribesChild(f, es, j, id, start)
  {
    forall j | 0 <= j < i ensures DescribesChild(f, es, j, id, start) {
      assert DescribesChild(e, es, j, id, start);
      BlockBounds(es, j);
      BlocksOrdered(es, j + 1, i);
      DescribesFrame(e, f, start + j, es[j], id + 1 + CountAll(es[..j]), start + BlockOf(es, j));
    }
  }

  lemma ChildAdded(e: seq<Entry>, f: seq<Entry>, es: seq<Shape>, i: nat, id: int, start: nat)
    requires i < |es| && |e| == start + BlockOf(es, i) <= |f|
    requires forall p :: 0 <= p < |e| && p != start + i ==> f[p] == e[p]
    requires forall j :: 0 <= j < i ==> DescribesChild(e, es, j, id, start)
    requires Describes(f, start + i, es[i], id + 1 + CountAll(es[..i]), start + BlockOf(es, i))
    ensures forall j :: 0 <= j < i + 1 ==> DescribesChild(f, es, j, id, start)
  {
    SiblingsKept(e, f, es, i, id, start);
    assert DescribesChild(f, es, i, id, start);
  }

  class IndexTable {
    var entries: seq<Entry>

    constructor (shape: Shape)
      ensures Describes(entries, 0, shape, 0, 1)
    {
      entries := [Entry(0, -1)];
      new;
      var next := CreateEntry(0, shape, 0);
    }

    /** Fills entry `at` for `shape` and appends the entries below it; node ids are handed
        out in pre-order from `nextNodeId`. */
    method CreateEntry(at: nat, shape: Shape, nextNodeId: nat) returns (next: nat)
      requires at < |entries|
      modifies this
      ensures next == nextNodeId + Count(shape)
      ensures |entries| == |old(entries)| + Count(shape) - 1
      ensures forall p :: 0 <= p < |old(entries)| && p != at ==> entries[p] == old(entries)[p]
      ensures Describes(entries, at, shape, nextNodeId, |old(entries)|)
      decreases shape
    {
      next := nextNodeId + 1;
      entries := entries[at := Entry(nextNodeId, -1)];
      if shape.Leaf? { return; }
      var es := shape.elements;
      var start := |entries|;
      entries := entries[at := Entry(nextNodeId, start)] + seq(|es|, _ => Entry(0, -1));
      for i := 0 to |es|
        invariant next == nextNodeId + 1 + CountAll(es[..i])
        invariant |entries| == start + BlockOf(es, i)
        invariant forall p :: 0 <= p < start && p != at ==> entries[p] == old(entries)[p]
        invariant entries[at] == Entry(nextNodeId, start)
        invariant forall j :: 0 <= j < i ==> DescribesChild(entries, es, j, nextNodeId, start)
      {
        ghost var before := entries;
        BlockBounds(es, i);
        CountPrefix(es, i);
        next := CreateEntry(start + i, es[i], next);
        ChildAdded(before, entries, es, i, nextNodeId, start);
      }
      assert es[..|es|] == es;
    }

    /** One step of a lookup goes from the entry of a path to the entry of its extension. */
    static lemma DescribesDown(entries: seq<Entry>, at: nat, shape: Shape, index: ShapeIndex, k: nat, lo: int) returns (next: int)
      requires ValidIndex(shape, index) && k < |index| && at < |entries| && ValidIndex(shape, index[..k])
      requires Describes(entries, at, Subshape(shape, index[..k]), Position(shape, index[..k]), lo)
      ensures ValidIndex(shape, index[..k + 1]) && 0 <= entries[at].childrenStartId + index[k] < |entries|
      ensures Describes(entries, entries[at].childrenStartId + index[k],
                        Subshape(shape, index[..k + 1]), Position(shape, index[..k + 1]), next)
    {
      assert index == index[..k] + index[k..];
      PositionCompose(shape, index[..k], index[k..]);
      var es := Subshape(shape, index[..k]).elements;
      assert DescribesChild(entries, es, index[k], Position(shape, index[..k]), lo);
      PositionOfChild(shape, index[..k], index[k]);
      assert index[..k + 1] == index[..k] + [index[k]];
      next := lo + BlockOf(es, index[k]);
      assert Describes(entries, entries[at].childrenStartId + index[k], es[index[k]],
                       Position(shape, index[..k]) + 1 + CountAll(es[..index[k]]), next);
    }

    /** Follows an index from the root entry, child by child. */
    method Lookup(ghost shape: Shape, index: ShapeIndex) returns (entry: Entry)
      requires Describes(entries, 0, shape, 0, 1) && ValidIndex(shape, index)
      ensures entry.nodeId == Position(shape, index)
      ensures entry.childrenStartId == -1 <==> Subshape(shape, index).Leaf?
    {
      var at := 0;
      ghost var lo := 1;
      for k := 0 to |index|
        invariant 0 <= at < |entries| && ValidIndex(shape, index[..k])
        invariant Describes(entries, at, Subshape(shape, index[..k]), Position(shape, index[..k]), lo)
      {
        lo := DescribesDown(entries, at, shape, index, k, lo);
        at := entries[at].childrenStartId + index[k];
      }
      assert index[..|index|] == index;
      entry := entries[at];
    }
  }

  lemma {:induction false} BlocksOrdered(es: seq<Shape>, i: nat, j: nat)
    requires i <= j <= |es|
    ensures BlockOf(es, i) <= BlockOf(es, j)
    decreases j - i
  {
    if i < j {
      BlockBounds(es, i);
      BlocksOrdered(es, i + 1, j);
    }
  }

  // ---- trees ----

  /** `Compatible`: the same nesting and dimensions, whatever the layouts. */
  predicate Compatible(a: Shape, b: Shape)
    decreases a
  {
    match (a, b)
    case (Leaf(d, _), Leaf(e, _)) => d == e
    case (Tuple(es), Tuple(fs)) => |es| == |fs| && forall i :: 0 <= i < |es| ==> Compatible(es[i], fs[i])
    case _ => false
  }

  lemma {:induction false} CompatibleLabels(a: Shape, b: Shape)
    requires Compatible(a, b)
    ensures Count(a) == Count(b) && Labels(a) == Labels(b)
    decreases a
  {
    if a.Tuple? { CompatibleChildren(a.elements, b.elements); }
  }

  lemma {:induction false} CompatibleChildren(es: seq<Shape>, fs: seq<Shape>)
    requires |es| == |fs| && forall i :: 0 <= i < |es| ==> Compatible(es[i], fs[i])
    ensures CountAll(es) == CountAll(fs) && ChildLabels(es) == ChildLabels(fs)
    decreases es
  {
    if es != [] {
      CompatibleChildren(es[..|es| - 1], fs[..|fs| - 1]);
      CompatibleLabels(es[|es| - 1], fs[|fs| - 1]);
    }
  }

  lemma {:induction false} CompatibleCount(a: Shape, b: Shape)
    requires Compatible(a, b)
    ensures Count(a) == Count(b)
  {
    CompatibleLabels(a, b);
  }

  lemma {:induction false} CompatibleIndex(a: Shape, b: Shape, index: ShapeIndex)
    requires Compatible(a, b)
    ensures ValidIndex(a, index) <==> ValidIndex(b, index)
    ensures ValidIndex(a, index) ==> Position(a, index) == Position(b, index)
    decreases index
  {
    if index != [] && a.Tuple? && 0 <= index[0] < |a.elements| {
      CompatibleIndex(a.elements[index[0]], b.elements[index[0]], index[1..]);
      CompatibleChildren(a.elements[..index[0]], b.elements[..index[0]]);
    }
  }

  lemma {:induction false} ProperSubtreeSmaller(s: Shape, index: ShapeIndex)
    requires ValidIndex(s, index) && index != []
    ensures Count(Subshape(s, index)) < Count(s)
  {
    SubtreeContiguous(s, index, Count(Subshape(s, index)) - 1);
  }

  /** Two subtrees of one tree that share a node are nested. */
  lemma {:induction false} NestedIfShared(s: Shape, a: ShapeIndex, b: ShapeIndex, j: nat, k: nat)
    requires ValidIndex(s, a) && ValidIndex(s, b) && |a| <= |b|
    requires j < Count(Subshape(s, a)) && k < Count(Subshape(s, b)) && Position(s, a) + j == Position(s, b) + k
    ensures b == a + b[|a|..]
  {
    SubtreeContiguous(s, a, j);
    SubtreeContiguous(s, b, k);
    var shared := Labels(s)[Position(s, a) + j];
    assert a == shared[..|a|] && b == shared[..|b|];
  }

  /** Subtrees of equal size in one tree are the same or have disjoint ranges, which is why
      copying within a tree needs no second buffer. */
  lemma {:induction false} EqualSizeRanges(s: Shape, a: ShapeIndex, b: ShapeIndex, j: nat, k: nat)
    requires ValidIndex(s, a) && ValidIndex(s, b) && Count(Subshape(s, a)) == Count(Subshape(s, b))
    requires j < Count(Subshape(s, a)) && k < Count(Subshape(s, b)) && Position(s, a) + j == Position(s, b) + k
    ensures a == b
  {
    var x, y := if |a| <= |b| then a else b, if |a| <= |b| then b else a;
    if |a| <= |b| { NestedIfShared(s, a, b, j, k); } else { NestedIfShared(s, b, a, k, j); }
    PositionCompose(s, x, y[|x|..]);
    if |x| < |y| {
      ProperSubtreeSmaller(Subshape(s, x), y[|x|..]);
    } else {
      assert x + y[|x|..] == x;
    }
  }

  lemma {:induction false} RangesApart(s: Shape, a: ShapeIndex, b: ShapeIndex)
    requires ValidIndex(s, a) && ValidIndex(s, b) && Count(Subshape(s, a)) == Count(Subshape(s, b))
    ensures
      var n, p, q := Count(Subshape(s, a)), Position(s, a), Position(s, b);
      p == q || p + n <= q || q + n <= p
  {
    var n, p, q := Count(Subshape(s, a)), Position(s, a), Position(s, b);
    if p <= q < p + n { EqualSizeRanges(s, a, b, q - p, 0); }
    if q <= p < q + n { EqualSizeRanges(s, a, b, 0, p - q); }
  }

  datatype Node<T> = Node(index: ShapeIndex, value: T)

  ghost predicate Labelled<T>(nodes: seq<Node<T>>, s: Shape) {
    |nodes| == Count(s) && forall p :: 0 <= p < |nodes| ==> nodes[p].index == Labels(s)[p]
  }

  /** The given values under new labels. */
  ghost function Retagged<T>(labels: seq<ShapeIndex>, from: seq<Node<T>>): (r: seq<Node<T>>)
    requires |labels| == |from|
    ensures |r| == |labels|
  {
    seq(|labels|, k requires 0 <= k < |labels| => Node(labels[k], from[k].value))
  }

  /** `was` with `n` nodes from `f` on replaced by the values from `g` on, under new labels. */
  ghost predicate RangeCopied<T>(was: seq<Node<T>>, now: seq<Node<T>>, labels: seq<ShapeIndex>, f: nat,
                                 from: seq<Node<T>>, g: nat, n: nat) {
    && |was| == |labels| && f + n <= |was| && g + n <= |from|
    && now == was[..f] + Retagged(labels[f..f + n], from[g..g + n]) + was[f + n..]
  }

  lemma RangeCopiedAt<T>(was: seq<Node<T>>, now: seq<Node<T>>, labels: seq<ShapeIndex>, f: nat,
                         from: seq<Node<T>>, g: nat, n: nat, p: nat)
    requires RangeCopied(was, now, labels, f, from, g, n) && p < |was|
    ensures |now| == |was|
    ensures now[p] == if f <= p < f + n then Node(labels[p], from[g + (p - f)].value) else was[p]
  {
    if f <= p < f + n { assert labels[f..f + n][p - f] == labels[p] && from[g..g + n][p - f] == from[g + (p - f)]; }
  }

  lemma RangeGrows<T>(was: seq<Node<T>>, now: seq<Node<T>>, labels: seq<ShapeIndex>, f: nat, from: seq<Node<T>>, g: nat, k: nat)
    requires RangeCopied(was, now, labels, f, from, g, k) && f + k < |was| && g + k < |from|
    ensures |now| == |was|
    ensures RangeCopied(was, now[f + k := Node(labels[f + k], from[g + k].value)], labels, f, from, g, k + 1)
  {
    assert labels[f..f + k + 1] == labels[f..f + k] + [labels[f + k]];
    assert from[g..g + k + 1] == from[g..g + k] + [from[g + k]];
    assert Retagged(labels[f..f + k + 1], from[g..g + k + 1])
        == Retagged(labels[f..f + k], from[g..g + k]) + [Node(labels[f + k], from[g + k].value)];
  }

  /** Copying within one tree, the node read next has not been overwritten. */
  lemma SourceUntouched<T>(was: seq<Node<T>>, now: seq<Node<T>>, labels: seq<ShapeIndex>, f: nat, g: nat, k: nat, n: nat)
    requires RangeCopied(was, now, labels, f, was, g, k) && k < n && g + n <= |was|
    requires g == f || g + n <= f || f + n <= g
    ensures |now| == |was| && now[g + k] == was[g + k]
  {
    RangeCopiedAt(was, now, labels, f, was, g, k, g + k);
  }

  /** The subtree at `dst` replaced by the values of the one at `src`. */
  ghost predicate SubtreeCopied<T>(was: seq<Node<T>>, now: seq<Node<T>>, s: Shape, dst: ShapeIndex,
                                   from: seq<Node<T>>, t: Shape, src: ShapeIndex)
    requires ValidIndex(s, dst) && ValidIndex(t, src)
  {
    RangeCopied(was, now, Labels(s), Position(s, dst), from, Position(t, src), Count(Subshape(s, dst)))
  }

  /** Exchanging the first `prefix` steps of `index` for `dst` gives `result`. */
  ghost predicate Relabelled(index: ShapeIndex, prefix: nat, dst: ShapeIndex, result: ShapeIndex) {
    prefix <= |index| && dst + index[prefix..] == result
  }

  /** Replacing the prefix of a source label gives the destination label. */
  lemma {:induction false} Relabel(s: Shape, dst: ShapeIndex, t: Shape, src: ShapeIndex, k: nat)
    requires ValidIndex(s, dst) && ValidIndex(t, src) && Compatible(Subshape(t, src), Subshape(s, dst))
    requires k < Count(Subshape(t, src))
    ensures Position(s, dst) + k < Count(s) && Position(t, src) + k < Count(t)
    ensures
      var p, q := Position(s, dst) + k, Position(t, src) + k;
      Relabelled(Labels(t)[q], |src|, dst, Labels(s)[p])
  {
    CompatibleLabels(Subshape(t, src), Subshape(s, dst));
    SubtreeContiguous(s, dst, k);
    SubtreeContiguous(t, src, k);
    var rest := Labels(Subshape(t, src))[k];
    assert (src + rest)[|src|..] == rest;
  }

  lemma {:induction false} RangeFits(s: Shape, index: ShapeIndex)
    requires ValidIndex(s, index)
    ensures Position(s, index) + Count(Subshape(s, index)) <= Count(s)
  {
    SubtreeContiguous(s, index, Count(Subshape(s, index)) - 1);
  }

  lemma SliceAt<A>(s: seq<A>, f: nat, n: nat, k: nat)
    requires f + n <= |s| && k < n
    ensures s[f..f + n][k] == s[f + k]
  {}

  /** Compatible subtrees are ranges of one length, inside both trees. */
  lemma {:induction false} RangesFit(s: Shape, dst: ShapeIndex, t: Shape, src: ShapeIndex, n: nat)
    requires ValidIndex(s, dst) && ValidIndex(t, src) && Compatible(Subshape(t, src), Subshape(s, dst))
    requires n == Count(Subshape(t, src))
    ensures n == Count(Subshape(s, dst)) && Position(s, dst) + n <= Count(s) && Position(t, src) + n <= Count(t)
  {
    CompatibleCount(Subshape(t, src), Subshape(s, dst));
    RangeFits(s, dst);
    RangeFits(t, src);
  }

  /** All labels of the source range, relabelled, are the labels of the destination range. */
  lemma {:induction false} RelabelRange<T>(s: Shape, dst: ShapeIndex, t: Shape, src: ShapeIndex, nodes: seq<Node<T>>,
                                           g: nat, f: nat, n: nat)
    requires ValidIndex(s, dst) && ValidIndex(t, src) && Compatible(Subshape(t, src), Subshape(s, dst)) && Labelled(nodes, t)
    requires g == Position(t, src) && f == Position(s, dst) && n == Count(Subshape(t, src))
    ensures g + n <= |nodes| && f + n <= Count(s) && n == Count(Subshape(s, dst))
    ensures RelabelledRange(nodes[g..g + n], |src|, dst, Labels(s)[f..f + n])
  {
    RangesFit(s, dst, t, src, n);
    forall k | 0 <= k < n ensures RelabelledPair(nodes, g, |src|, dst, Labels(s), f, k) {
      RelabelPair(s, dst, t, src, nodes, k);
    }
    RelabelledSlices(nodes, g, |src|, dst, Labels(s), f, n);
  }

  lemma {:induction false} RelabelPair<T>(s: Shape, dst: ShapeIndex, t: Shape, src: ShapeIndex, nodes: seq<Node<T>>, k: nat)
    requires ValidIndex(s, dst) && ValidIndex(t, src) && Compatible(Subshape(t, src), Subshape(s, dst)) && Labelled(nodes, t)
    requires k < Count(Subshape(t, src))
    ensures RelabelledPair(nodes, Position(t, src), |src|, dst, Labels(s), Position(s, dst), k)
  {
    Relabel(s, dst, t, src, k);
  }

  ghost predicate RelabelledPair<T>(from: seq<Node<T>>, g: nat, prefix: nat, dst: ShapeIndex, labels: seq<ShapeIndex>, f: nat, k: nat) {
    g + k < |from| && f + k < |labels| && Relabelled(from[g + k].index, prefix, dst, labels[f + k])
  }

  lemma RelabelledSlices<T>(from: seq<Node<T>>, g: nat, prefix: nat, dst: ShapeIndex, labels: seq<ShapeIndex>, f: nat, n: nat)
    requires g + n <= |from| && f + n <= |labels|
    requires forall k :: 0 <= k < n ==> RelabelledPair(from, g, prefix, dst, labels, f, k)
    ensures RelabelledRange(from[g..g + n], prefix, dst, labels[f..f + n])
  {
    var source, result := from[g..g + n], labels[f..f + n];
    forall k | 0 <= k < n ensures Relabelled(source[k].index, prefix, dst, result[k]) {
      assert RelabelledPair(from, g, prefix, dst, labels, f, k);
    }
  }

  ghost predicate RelabelledRange<T>(from: seq<Node<T>>, prefix: nat, dst: ShapeIndex, labels: seq<ShapeIndex>) {
    |from| == |labels| && forall k :: 0 <= k < |from| ==> Relabelled(from[k].index, prefix, dst, labels[k])
  }

  lemma RelabelledAt<T>(from: seq<Node<T>>, labels: seq<ShapeIndex>, prefix: nat, dst: ShapeIndex, g: nat, f: nat, n: nat, k: nat)
    requires g + n <= |from| && f + n <= |labels| && k < n
    requires RelabelledRange(from[g..g + n], prefix, dst, labels[f..f + n])
    ensures Relabelled(from[g + k].index, prefix, dst, labels[f + k])
  {
    SliceAt(from, g, n, k);
    SliceAt(labels, f, n, k);
  }

  lemma {:induction false} CompatibleWithSelf(s: Shape)
    ensures Compatible(s, s)
    decreases s
  {
    if s.Tuple? {
      forall i | 0 <= i < |s.elements| ensures Compatible(s.elements[i], s.elements[i]) { CompatibleWithSelf(s.elements[i]); }
    }
  }

  /** A suffix sits at the same distance inside both compatible subtrees. */
  lemma {:induction false} SuffixDistance(s: Shape, dst: ShapeIndex, t: Shape, src: ShapeIndex, suffix: ShapeIndex)
    requires ValidIndex(s, dst) && ValidIndex(t, src) && ValidIndex(s, dst + suffix)
    requires Compatible(Subshape(t, src), Subshape(s, dst))
    ensures ValidIndex(t, src + suffix)
    ensures 0 <= Position(s, dst + suffix) - Position(s, dst) < Count(Subshape(s, dst))
    ensures Position(t, src + suffix) - Position(t, src) == Position(s, dst + suffix) - Position(s, dst)
  {
    PositionCompose(s, dst, suffix);
    CompatibleIndex(Subshape(t, src), Subshape(s, dst), suffix);
    PositionCompose(t, src, suffix);
    LabelAtPosition(Subshape(s, dst), suffix);
  }

  /** Inside the copied subtree, suffixes match. */
  lemma {:induction false} CopiedInside<T>(was: seq<Node<T>>, now: seq<Node<T>>, s: Shape, dst: ShapeIndex,
                                           from: seq<Node<T>>, t: Shape, src: ShapeIndex, suffix: ShapeIndex)
    requires ValidIndex(s, dst) && ValidIndex(t, src) && ValidIndex(s, dst + suffix)
    requires Compatible(Subshape(t, src), Subshape(s, dst))
    requires SubtreeCopied(was, now, s, dst, from, t, src) && |from| == Count(t)
    ensures ValidIndex(t, src + suffix) && Position(t, src + suffix) < |from| && Position(s, dst + suffix) < |now|
    ensures now[Position(s, dst + suffix)] == Node(dst + suffix, from[Position(t, src + suffix)].value)
  {
    SuffixDistance(s, dst, t, src, suffix);
    LabelAtPosition(s, dst + suffix);
    LabelAtPosition(t, src + suffix);
    CopiedNode(was, now, Labels(s), Position(s, dst), from, Position(t, src), Count(Subshape(s, dst)),
               Position(s, dst + suffix), Position(t, src + suffix));
  }

  lemma CopiedNode<T>(was: seq<Node<T>>, now: seq<Node<T>>, labels: seq<ShapeIndex>, f: nat,
                      from: seq<Node<T>>, g: nat, n: nat, p: nat, q: nat)
    requires RangeCopied(was, now, labels, f, from, g, n) && f <= p < f + n && q - g == p - f
    ensures p < |now| && q < |from| && now[p] == Node(labels[p], from[q].value)
  {
    RangeCopiedAt(was, now, labels, f, from, g, n, p);
  }

  /** Outside it, nothing changes. */
  lemma {:induction false} CopiedOutside<T>(was: seq<Node<T>>, now: seq<Node<T>>, s: Shape, dst: ShapeIndex,
                                            from: seq<Node<T>>, t: Shape, src: ShapeIndex, index: ShapeIndex)
    requires ValidIndex(s, dst) && ValidIndex(t, src) && ValidIndex(s, index) && !(dst <= index)
    requires SubtreeCopied(was, now, s, dst, from, t, src) && |from| == Count(t)
    ensures Position(s, index) < |now| && now[Position(s, index)] == was[Position(s, index)]
  {
    LabelAtPosition(s, index);
    var p := Position(s, index);
    if Position(s, dst) <= p < Position(s, dst) + Count(Subshape(s, dst)) {
      SubtreeContiguous(s, dst, p - Position(s, dst));
    }
    RangeCopiedAt(was, now, Labels(s), Position(s, dst), from, Position(t, src), Count(Subshape(s, dst)), p);
  }

  lemma {:induction false} CopyKeepsLabels<T>(was: seq<Node<T>>, now: seq<Node<T>>, s: Shape, f: nat, from: seq<Node<T>>, g: nat, n: nat)
    requires Labelled(was, s) && RangeCopied(was, now, Labels(s), f, from, g, n)
    ensures Labelled(now, s)
  {
    forall p | 0 <= p < |was| ensures |now| == |was| && now[p].index == Labels(s)[p] {
      RangeCopiedAt(was, now, Labels(s), f, from, g, n, p);
    }
  }

  /** Node `suffix` of a cut-out range is node `index + suffix` of the whole. */
  lemma {:induction false} SuffixInRange<T>(nodes: seq<Node<T>>, sub: seq<Node<T>>, s: Shape, index: ShapeIndex, suffix: ShapeIndex)
    requires ValidIndex(s, index) && ValidIndex(Subshape(s, index), suffix) && |nodes| == Count(s)
    requires Position(s, index) + Count(Subshape(s, index)) <= |nodes|
    requires sub == Retagged(Labels(Subshape(s, index)), nodes[Position(s, index)..Position(s, index) + Count(Subshape(s, index))])
    ensures ValidIndex(s, index + suffix) && Position(Subshape(s, index), suffix) < |sub| && Position(s, index + suffix) < |nodes|
    ensures sub[Position(Subshape(s, index), suffix)].value == nodes[Position(s, index + suffix)].value
  {
    PositionCompose(s, index, suffix);
    LabelAtPosition(Subshape(s, index), suffix);
  }

  class ShapeTree<T> {
    const shape: Shape
    const table: IndexTable
    var nodes: seq<Node<T>>

    ghost predicate Valid()
      reads this, table
    {
      Labelled(nodes, shape) && Describes(table.entries, 0, shape, 0, 1)
    }

    ghost function Element(index: ShapeIndex): T
      requires Valid() && ValidIndex(shape, index)
      reads this, table
    {
      LabelAtPosition(shape, index);
      nodes[Position(shape, index)].value
    }

    constructor (shape: Shape, nodes: seq<Node<T>>)
      requires Labelled(nodes, shape)
      ensures Valid() && this.shape == shape && this.nodes == nodes && fresh(table)
    {
      this.shape, this.nodes := shape, nodes;
      table := new IndexTable(shape);
    }

    /** A tree holding `init` at every node, the nodes created by a pre-order visit. */
    constructor WithValue(shape: Shape, init: T)
      ensures Valid() && this.shape == shape && fresh(table)
      ensures forall index :: ValidIndex(shape, index) ==> Element(index) == init
    {
      var index, created := Visit(shape, [], init, []);
      this.shape, this.nodes := shape, created;
      table := new IndexTable(shape);
      new;
      forall p | 0 <= p < |nodes| ensures nodes[p].index == Labels(shape)[p] && nodes[p].value == init {
        assert [] + Labels(shape)[p] == Labels(shape)[p];
      }
      forall index | ValidIndex(shape, index) ensures Element(index) == init { LabelAtPosition(shape, index); }
    }

    /** The iterator to the node at `index`. */
    method Find(index: ShapeIndex) returns (it: nat)
      requires Valid() && ValidIndex(shape, index)
      ensures it == Position(shape, index) && it < |nodes| && nodes[it].index == index
      ensures nodes[it].value == Element(index)
    {
      LabelAtPosition(shape, index);
      var entry := table.Lookup(shape, index);
      it := entry.nodeId;
    }

    method IsLeaf(index: ShapeIndex) returns (leaf: bool)
      requires Valid() && ValidIndex(shape, index)
      ensures leaf <==> Subshape(shape, index).Leaf?
    {
      var entry := table.Lookup(shape, index);
      leaf := entry.childrenStartId == -1;
    }

    /** `LeafIterator::operator++`: the next position holding an array, or the end. */
    method NextLeaf(it: int) returns (next: int)
      requires Valid() && -1 <= it < |nodes|
      ensures it < next <= |nodes|
      ensures forall p :: it < p < next ==> ValidIndex(shape, Labels(shape)[p]) && Subshape(shape, Labels(shape)[p]).Tuple?
      ensures next < |nodes| ==> ValidIndex(shape, Labels(shape)[next]) && Subshape(shape, Labels(shape)[next]).Leaf?
    {
      next := it + 1;
      while next < |nodes|
        invariant it < next <= |nodes|
        invariant forall p :: it < p < next ==> ValidIndex(shape, Labels(shape)[p]) && Subshape(shape, Labels(shape)[p]).Tuple?
      {
        PositionOfLabel(shape, next);
        var leaf := IsLeaf(nodes[next].index);
        if leaf { return; }
        next := next + 1;
      }
    }

    /** Copies a whole subtree as one contiguous range, relabelling each node; `other` may
        be this tree. */
    method CopySubtreeFrom(other: ShapeTree<T>, src: ShapeIndex, dst: ShapeIndex)
      requires Valid() && other.Valid() && ValidIndex(other.shape, src) && ValidIndex(shape, dst)
      requires Compatible(Subshape(other.shape, src), Subshape(shape, dst))
      modifies this`nodes
      ensures Valid()
      ensures SubtreeCopied(old(nodes), nodes, shape, dst, old(other.nodes), other.shape, src)
    {
      var first := other.Find(src);
      var target := Find(dst);
      var n := Count(Subshape(other.shape, src));
      RelabelRange(shape, dst, other.shape, src, other.nodes, first, target, n);
      if this == other { RangesApart(shape, src, dst); }
      CopyRange(other, |src|, dst, first, target, n);
    }

    method CopyRange(other: ShapeTree<T>, prefix: nat, dst: ShapeIndex, first: nat, target: nat, n: nat)
      requires Labelled(nodes, shape) && first + n <= |other.nodes| && target + n <= |nodes|
      requires RelabelledRange(other.nodes[first..first + n], prefix, dst, Labels(shape)[target..target + n])
      requires this != other || first == target || first + n <= target || target + n <= first
      modifies this`nodes
      ensures Labelled(nodes, shape) && RangeCopied(old(nodes), nodes, Labels(shape), target, old(other.nodes), first, n)
    {
      TransformRange(other, prefix, dst, first, target, n, Labels(shape));
      CopyKeepsLabels(old(nodes), nodes, shape, target, old(other.nodes), first, n);
    }

    /** The `std::transform` over the range, in place. */
    method TransformRange(other: ShapeTree<T>, prefix: nat, dst: ShapeIndex, first: nat, target: nat, n: nat,
                          ghost labels: seq<ShapeIndex>)
      requires |labels| == |nodes| && first + n <= |other.nodes| && target + n <= |nodes|
      requires RelabelledRange(other.nodes[first..first + n], prefix, dst, labels[target..target + n])
      requires this != other || first == target || first + n <= target || target + n <= first
      modifies this`nodes
      ensures RangeCopied(old(nodes), nodes, labels, target, old(other.nodes), first, n)
    {
      ghost var was, from := nodes, other.nodes;
      for k := 0 to n
        invariant RangeCopied(was, nodes, labels, target, from, first, k)
        invariant if this == other then from == was else other.nodes == from
      {
        if this == other { SourceUntouched(was, nodes, labels, target, first, k, n); }
        var node := other.nodes[first + k];
        RelabelledAt(from, labels, prefix, dst, first, target, n, k);
        RangeGrows(was, nodes, labels, target, from, first, k);
        nodes := nodes[target + k := Node(dst + node.index[prefix..], node.value)];
      }
    }

    /** The subtree at `index` as a tree of its own; none if the index does not exist. */
    method SubShapeTree(index: ShapeIndex) returns (result: ShapeTree?<T>)
      requires Valid()
      ensures result == null <==> !ValidIndex(shape, index)
      ensures result != null ==> result.Valid() && result.shape == Subshape(shape, index)
      ensures result != null ==> forall suffix :: ValidIndex(result.shape, suffix) ==>
                ValidIndex(shape, index + suffix) && result.Element(suffix) == Element(index + suffix)
    {
      if !ValidIndex(shape, index) { return null; }
      var sub := Subshape(shape, index);
      var subNodes := SubNodes(index);
      var tree := new ShapeTree(sub, subNodes);
      forall suffix | ValidIndex(sub, suffix)
        ensures ValidIndex(shape, index + suffix) && tree.Element(suffix) == Element(index + suffix)
      {
        SuffixInRange(nodes, subNodes, shape, index, suffix);
      }
      return tree;
    }

    method SubNodes(index: ShapeIndex) returns (subNodes: seq<Node<T>>)
      requires Valid() && ValidIndex(shape, index)
      ensures Position(shape, index) + Count(Subshape(shape, index)) <= |nodes|
      ensures subNodes == Retagged(Labels(Subshape(shape, index)),
                                   nodes[Position(shape, index)..Position(shape, index) + Count(Subshape(shape, index))])
    {
      ghost var sub := Subshape(shape, index);
      var n := Count(Subshape(shape, index));
      var at := Find(index);
      CompatibleWithSelf(sub);
      RelabelRange(sub, [], shape, index, nodes, at, 0, n);
      assert Labels(sub)[0..n] == Labels(sub);
      subNodes := StripRange(nodes[at..at + n], |index|, Labels(sub));
    }

    /** The nodes without the first `prefix` steps of their labels. */
    static method StripRange(nodes: seq<Node<T>>, prefix: nat, ghost labels: seq<ShapeIndex>)
      returns (stripped: seq<Node<T>>)
      requires RelabelledRange(nodes, prefix, [], labels)
      ensures stripped == Retagged(labels, nodes)
    {
      stripped := [];
      for k := 0 to |nodes|
        invariant |stripped| == k
        invariant forall j :: 0 <= j < k ==> stripped[j] == Node(labels[j], nodes[j].value)
      {
        assert Relabelled(nodes[k].index, prefix, [], labels[k]);
        assert [] + nodes[k].index[prefix..] == nodes[k].index[prefix..];
        stripped := stripped + [Node(nodes[k].index[prefix..], nodes[k].value)];
      }
    }
  }

  /** The recursive visitor behind `CreateNodes`: pushes and pops one shared index. */
  method Visit<T>(s: Shape, path: ShapeIndex, init: T, before: seq<Node<T>>)
    returns (index: ShapeIndex, nodes: seq<Node<T>>)
    ensures index == path
    ensures |nodes| == |before| + Count(s) && nodes[..|before|] == before
    ensures forall p :: 0 <= p < Count(s) ==> nodes[|before| + p] == Node(path + Labels(s)[p], init)
    decreases s
  {
    index := path;
    nodes := before + [Node(index, init)];
    assert path + [] == path;
    if s.Leaf? { return; }
    var es := s.elements;
    for i := 0 to |es|
      invariant index == path
      invariant |nodes| == |before| + 1 + CountAll(es[..i]) && nodes[..|before|] == before
      invariant nodes[|before|] == Node(path, init)
      invariant ChildrenVisited(es, i, path, init, nodes[|before| + 1..])
    {
      index := index + [i];
      ghost var prior := nodes;
      index, nodes := Visit(es[i], index, init, nodes);
      index := index[..|index| - 1];
      CountPrefix(es, i);
      VisitedChild(es, i, path, init, prior[|before| + 1..], nodes[|prior|..]);
      assert nodes[|before| + 1..] == prior[|before| + 1..] + nodes[|prior|..];
    }
    assert es[..|es|] == es;
    forall p | 0 <= p < Count(s) ensures nodes[|before| + p] == Node(path + Labels(s)[p], init) {
      if p > 0 { assert nodes[|before| + p] == nodes[|before| + 1..][p - 1]; }
    }
  }

  /** The nodes below the first `i` children, in pre-order. */
  ghost predicate ChildrenVisited<T>(es: seq<Shape>, i: nat, path: ShapeIndex, init: T, nodes: seq<Node<T>>) {
    && i <= |es| && |nodes| == CountAll(es[..i]) <= CountAll(es)
    && forall p :: 0 <= p < |nodes| ==> nodes[p] == Node(path + ChildLabels(es)[p], init)
  }

  lemma {:induction false} VisitedChild<T>(es: seq<Shape>, i: nat, path: ShapeIndex, init: T, prior: seq<Node<T>>, child: seq<Node<T>>)
    requires i < |es| && ChildrenVisited(es, i, path, init, prior)
    requires |child| == Count(es[i])
    requires forall p :: 0 <= p < |child| ==> child[p] == Node((path + [i]) + Labels(es[i])[p], init)
    ensures ChildrenVisited(es, i + 1, path, init, prior + child)
  {
    CountPrefix(es, i);
    forall p | |prior| <= p < |prior| + |child| ensures (prior + child)[p] == Node(path + ChildLabels(es)[p], init) {
      var k := p - |prior|;
      ChildLabelAt(es, i, k);
      assert (path + [i]) + Labels(es[i])[k] == path + ([i] + Labels(es[i])[k]);
    }
  }
}
