/**
 * The second pass of the flow layout in src/app/ui/mod.rs, `align`: every
 * roughly placed item is moved right by its row's horizontal offset and down
 * by the content's vertical offset, in place, and the bounding box of the
 * result is returned.
 *
 * `AlignAll` and `AlignedBox` say what the pass computes; `Align` is the
 * in-place loop over the array of positions, proved to compute them.
 */
module UiAlign {
  import opened UiGeometry

  /** How far the content moves down: none at the top, half the free rows in the middle, all of them at the bottom. */
  function OffsetY(c: Constraint, contentH: nat): (off: nat)
    requires c.dim.height.Value? ==> contentH <= c.dim.height.n
    ensures c.dim.height.Infinite? || c.align.vert == AlignTop ==> off == 0
    ensures c.dim.height.Value? ==> off + contentH <= c.dim.height.n
    ensures c.dim.height.Value? && c.align.vert == AlignBottom ==> off + contentH == c.dim.height.n
    ensures c.dim.height.Value? && c.align.vert == AlignCenter ==>
              off <= c.dim.height.n - contentH - off <= off + 1
  {
    match c.dim.height
    case Infinite => 0
    case Value(height) =>
      match c.align.vert
      case AlignTop => 0
      case AlignCenter => (height - contentH) / 2
      case AlignBottom => height - contentH
  }

  /** How far a row of length `rowLength` moves right, by the same rule across the width. */
  function OffsetX(c: Constraint, rowLength: nat): (off: nat)
    requires c.dim.width.Value? ==> rowLength <= c.dim.width.n
    ensures c.dim.width.Infinite? || c.align.hori == AlignLeft ==> off == 0
    ensures c.dim.width.Value? ==> off + rowLength <= c.dim.width.n
    ensures c.dim.width.Value? && c.align.hori == AlignRight ==> off + rowLength == c.dim.width.n
    ensures c.dim.width.Value? && c.align.hori == AlignMiddle ==>
              off <= c.dim.width.n - rowLength - off <= off + 1
  {
    match c.dim.width
    case Infinite => 0
    case Value(width) =>
      match c.align.hori
      case AlignLeft => 0
      case AlignMiddle => (width - rowLength) / 2
      case AlignRight => width - rowLength
  }

  /** `p` names a recorded row whose length fits a finite width. */
  predicate OnRow(c: Constraint, p: Pos, rowsLength: seq<nat>) {
    && c.origin.y <= p.y
    && p.y - c.origin.y < |rowsLength|
    && (c.dim.width.Value? ==> rowsLength[p.y - c.origin.y] <= c.dim.width.n)
  }

  predicate RowsIndexed(c: Constraint, rough: seq<Pos>, rowsLength: seq<nat>) {
    forall k :: 0 <= k < |rough| ==> OnRow(c, rough[k], rowsLength)
  }

  /**
   * What `align` needs of its caller: indexable rows, a content height within
   * a finite height, and a first row no lower than the last.
   */
  predicate AlignInput(c: Constraint, rough: seq<Pos>, areaSize: Dim, rowsLength: seq<nat>) {
    && RowsIndexed(c, rough, rowsLength)
    && (c.dim.height.Value? ==> areaSize.h <= c.dim.height.n)
    && (|rough| > 0 ==> rough[0].y <= Last(rough).y)
  }

  function RowLength(c: Constraint, p: Pos, rowsLength: seq<nat>): nat
    requires OnRow(c, p, rowsLength)
  {
    rowsLength[p.y - c.origin.y]
  }

  /** One position after alignment. */
  function Aligned(c: Constraint, p: Pos, rowsLength: seq<nat>, offY: nat): Pos
    requires OnRow(c, p, rowsLength)
  {
    Pos(p.x + OffsetX(c, RowLength(c, p, rowsLength)), p.y + offY)
  }

  /** Every position after alignment. */
  function AlignAll(c: Constraint, rough: seq<Pos>, rowsLength: seq<nat>, offY: nat): (r: seq<Pos>)
    requires RowsIndexed(c, rough, rowsLength)
    ensures |r| == |rough|
    ensures forall k :: 0 <= k < |rough| ==> r[k] == Aligned(c, rough[k], rowsLength, offY)
  {
    seq(|rough|, k requires 0 <= k < |rough| => Aligned(c, rough[k], rowsLength, offY))
  }

  /** The longest row any position lies on, or 0. */
  function WidestRow(c: Constraint, rough: seq<Pos>, rowsLength: seq<nat>): nat
    requires RowsIndexed(c, rough, rowsLength)
  {
    if |rough| == 0 then 0
    else
      var init := rough[..|rough| - 1];
      assert forall k :: 0 <= k < |init| ==> init[k] == rough[k];
      Max(WidestRow(c, init, rowsLength), RowLength(c, Last(rough), rowsLength))
  }

  /** `WidestRow` is the length of a row some position lies on, and no position's row is longer. */
  lemma {:induction false} WidestRowIsMax(c: Constraint, rough: seq<Pos>, rowsLength: seq<nat>)
    requires RowsIndexed(c, rough, rowsLength)
    ensures forall k :: 0 <= k < |rough| ==> RowLength(c, rough[k], rowsLength) <= WidestRow(c, rough, rowsLength)
    ensures |rough| > 0 ==> exists k :: 0 <= k < |rough| && RowLength(c, rough[k], rowsLength) == WidestRow(c, rough, rowsLength)
    ensures |rough| == 0 ==> WidestRow(c, rough, rowsLength) == 0
    decreases |rough|
  {
    if |rough| > 0 {
      var init := rough[..|rough| - 1];
      assert forall k :: 0 <= k < |init| ==> init[k] == rough[k];
      WidestRowIsMax(c, init, rowsLength);
      var last := RowLength(c, Last(rough), rowsLength);
      if WidestRow(c, init, rowsLength) <= last {
        assert RowLength(c, rough[|rough| - 1], rowsLength) == WidestRow(c, rough, rowsLength);
      } else {
        var k :| 0 <= k < |init| && RowLength(c, init[k], rowsLength) == WidestRow(c, init, rowsLength);
        assert RowLength(c, rough[k], rowsLength) == WidestRow(c, rough, rowsLength);
      }
    }
  }

  /** The leftmost column of the positions once aligned. */
  function LeftmostAligned(c: Constraint, rough: seq<Pos>, rowsLength: seq<nat>, offY: nat): nat
    requires |rough| > 0 && RowsIndexed(c, rough, rowsLength)
  {
    if |rough| == 1 then Aligned(c, rough[0], rowsLength, offY).x
    else
      var init := rough[..|rough| - 1];
      assert forall k :: 0 <= k < |init| ==> init[k] == rough[k];
      Min(LeftmostAligned(c, init, rowsLength, offY), Aligned(c, Last(rough), rowsLength, offY).x)
  }

  /** `LeftmostAligned` is the column of some aligned position, and no aligned position lies left of it. */
  lemma {:induction false} LeftmostIsMin(c: Constraint, rough: seq<Pos>, rowsLength: seq<nat>, offY: nat)
    requires |rough| > 0 && RowsIndexed(c, rough, rowsLength)
    ensures forall k :: 0 <= k < |rough| ==>
              LeftmostAligned(c, rough, rowsLength, offY) <= Aligned(c, rough[k], rowsLength, offY).x
    ensures exists k :: 0 <= k < |rough| &&
              Aligned(c, rough[k], rowsLength, offY).x == LeftmostAligned(c, rough, rowsLength, offY)
    decreases |rough|
  {
    if |rough| > 1 {
      var init := rough[..|rough| - 1];
      assert forall k :: 0 <= k < |init| ==> init[k] == rough[k];
      LeftmostIsMin(c, init, rowsLength, offY);
      var last := Aligned(c, Last(rough), rowsLength, offY).x;
      if LeftmostAligned(c, init, rowsLength, offY) < last {
        var k :| 0 <= k < |init| && Aligned(c, init[k], rowsLength, offY).x == LeftmostAligned(c, init, rowsLength, offY);
        assert Aligned(c, rough[k], rowsLength, offY).x == LeftmostAligned(c, rough, rowsLength, offY);
      } else {
        assert Aligned(c, rough[|rough| - 1], rowsLength, offY).x == LeftmostAligned(c, rough, rowsLength, offY);
      }
    } else {
      assert Aligned(c, rough[0], rowsLength, offY).x == LeftmostAligned(c, rough, rowsLength, offY);
    }
  }

  /**
   * The box `align` returns: at the origin and empty for no positions,
   * otherwise from the leftmost aligned column and the first row's aligned
   * line, as wide as the widest row and as high as the rows spanned.
   */
  function AlignedBox(c: Constraint, rough: seq<Pos>, areaSize: Dim, rowsLength: seq<nat>): (r: BoundingBox)
    requires AlignInput(c, rough, areaSize, rowsLength)
    ensures |rough| == 0 ==> r == BoundingBox(c.origin.x, c.origin.y, 0, 0)
    ensures |rough| > 0 ==> r.h >= 1 && r.y >= c.origin.y
    ensures c.dim.width.Value? ==> r.w <= c.dim.width.n
  {
    if |rough| == 0 then BoundingBox(c.origin.x, c.origin.y, 0, 0)
    else
      WidestRowIsMax(c, rough, rowsLength);
      var offY := OffsetY(c, areaSize.h);
      BoundingBox(LeftmostAligned(c, rough, rowsLength, offY), rough[0].y + offY,
                  WidestRow(c, rough, rowsLength), Last(rough).y - rough[0].y + 1)
  }

  /** `align`, in place on the array of rough positions. */
  method Align(c: Constraint, roughPos: array<Pos>, areaSize: Dim, rowsLength: seq<nat>) returns (bbox: BoundingBox)
    requires AlignInput(c, roughPos[..], areaSize, rowsLength)
    modifies roughPos
    ensures roughPos[..] == AlignAll(c, old(roughPos[..]), rowsLength, OffsetY(c, areaSize.h))
    ensures bbox == AlignedBox(c, old(roughPos[..]), areaSize, rowsLength)
  {
    var n := roughPos.Length;
    if n == 0 {
      return BoundingBox(c.origin.x, c.origin.y, 0, 0);
    }
    ghost var rough := roughPos[..];
    var offsetY := OffsetY(c, areaSize.h);
    bbox := BoundingBox(0, roughPos[0].y, 0, 0);
    bbox := bbox.(h := roughPos[n - 1].y - bbox.y + 1);
    bbox := bbox.(y := bbox.y + offsetY);
    for i := 0 to n
      invariant forall k :: 0 <= k < i ==> roughPos[k] == Aligned(c, rough[k], rowsLength, offsetY)
      invariant forall k :: i <= k < n ==> roughPos[k] == rough[k]
      invariant bbox.y == rough[0].y + offsetY && bbox.h == Last(rough).y - rough[0].y + 1
      invariant bbox.w == WidestRow(c, rough[..i], rowsLength)
      invariant i > 0 ==> bbox.x == LeftmostAligned(c, rough[..i], rowsLength, offsetY)
    {
      WidestRowSnoc(c, rough, rowsLength, i);
      LeftmostSnoc(c, rough, rowsLength, offsetY, i);
      bbox := AlignItem(c, roughPos, rowsLength, offsetY, i, bbox);
    }
    assert rough[..n] == rough;
    assert roughPos[..] == AlignAll(c, rough, rowsLength, offsetY);
  }

  /**
   * One iteration of `align`'s loop: item `i` moves by its row's horizontal
   * offset and by `offsetY`, and the box grows to its row's length and
   * aligned column.
   */
  method AlignItem(c: Constraint, roughPos: array<Pos>, rowsLength: seq<nat>, offsetY: nat, i: nat, bbox: BoundingBox)
    returns (next: BoundingBox)
    requires i < roughPos.Length && OnRow(c, roughPos[i], rowsLength)
    modifies roughPos
    ensures roughPos[..] == old(roughPos[..])[i := Aligned(c, old(roughPos[i]), rowsLength, offsetY)]
    ensures next == bbox.(w := Max(bbox.w, RowLength(c, old(roughPos[i]), rowsLength)),
                          x := if i == 0 then Aligned(c, old(roughPos[i]), rowsLength, offsetY).x
                               else Min(bbox.x, Aligned(c, old(roughPos[i]), rowsLength, offsetY).x))
  {
    var pos := roughPos[i];
    var rowLength := rowsLength[pos.y - c.origin.y];
    next := bbox.(w := Max(bbox.w, rowLength));
    var offsetX := OffsetX(c, rowLength);
    next := next.(x := if i == 0 then pos.x + offsetX else Min(next.x, pos.x + offsetX));
    roughPos[i] := Pos(pos.x + offsetX, pos.y + offsetY);
  }

  lemma WidestRowSnoc(c: Constraint, rough: seq<Pos>, rowsLength: seq<nat>, i: nat)
    requires i < |rough| && RowsIndexed(c, rough, rowsLength)
    ensures RowsIndexed(c, rough[..i], rowsLength) && RowsIndexed(c, rough[..i + 1], rowsLength)
    ensures WidestRow(c, rough[..i + 1], rowsLength)
         == Max(WidestRow(c, rough[..i], rowsLength), RowLength(c, rough[i], rowsLength))
  {
    assert rough[..i + 1][..i] == rough[..i];
  }

  lemma LeftmostSnoc(c: Constraint, rough: seq<Pos>, rowsLength: seq<nat>, offY: nat, i: nat)
    requires i < |rough| && RowsIndexed(c, rough, rowsLength)
    ensures RowsIndexed(c, rough[..i], rowsLength) && RowsIndexed(c, rough[..i + 1], rowsLength)
    ensures LeftmostAligned(c, rough[..i + 1], rowsLength, offY)
         == if i == 0 then Aligned(c, rough[i], rowsLength, offY).x
            else Min(LeftmostAligned(c, rough[..i], rowsLength, offY), Aligned(c, rough[i], rowsLength, offY).x)
  {
    assert rough[..i + 1][..i] == rough[..i];
  }
}
