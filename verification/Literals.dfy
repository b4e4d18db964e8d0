/** Dense array literals: a shape with a layout over one flat buffer
    (xla/literal.h, `LiteralBase::Piece`). */
module Literals {
  import opened MixedRadix
  import opened Layouts
  import opened IndexUtil

  class Literal<T(0)> {
    var shape: Shape
    var data: array<T>
    var dynamicSizes: seq<int>  // meaningful at the dynamic dimensions only

    ghost predicate Valid()
      reads this
    {
      shape.Valid() && data.Length == ElementsIn(shape) && |dynamicSizes| == |shape.dims|
    }

    /** The meaning of a literal: the element at a logical index. */
    ghost function At(index: seq<int>): T
      requires Valid() && InRange(index, shape.dims)
      reads this, data
    {
      OffsetBound(shape, index);
      data[Offset(shape, index)]
    }

    /** A literal with a freshly allocated buffer of unspecified contents. */
    constructor (shape: Shape)
      requires shape.Valid()
      ensures Valid() && this.shape == shape && fresh(data)
    {
      this.shape := shape;
      data := new T[ElementsIn(shape)];
      dynamicSizes := seq(|shape.dims|, _ => 0);
    }

    method Get(index: seq<int>) returns (value: T)
      requires Valid() && InRange(index, shape.dims)
      ensures value == At(index)
    {
      var linear := MultidimensionalIndexToLinearIndex(shape, index);
      value := data[linear];
    }

    /** Writes one cell: that index reads back the value and no other index changes. */
    method Set(index: seq<int>, value: T)
      requires Valid() && InRange(index, shape.dims)
      modifies data
      ensures Valid()
      ensures forall i :: InRange(i, shape.dims) ==> At(i) == if i == index then value else old(At(i))
    {
      var linear := MultidimensionalIndexToLinearIndex(shape, index);
      data[linear] := value;
      forall i | InRange(i, shape.dims)
        ensures At(i) == if i == index then value else old(At(i))
      {
        OffsetBound(shape, i);
        if Offset(shape, i) == linear { OffsetInjective(shape, i, index); }
      }
    }
  }
}
