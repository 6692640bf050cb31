/**
 * `Constraint::organize` and `layout` of src/app/ui/mod.rs: the rough pass
 * followed by the alignment pass, and the layout record built from them.
 *
 * `Organization` is what `organize` computes and `Organize` the method that
 * runs the two passes; the lemmas state what the final positions and the
 * bounding box satisfy, and the source's unit tests close the module.
 */
module UiLayout {
  import opened Results
  import opened UiGeometry
  import opened UiRough
  import opened UiAlign

  /** The final positions and the bounding box `organize` returns on success. */
  type Organized = (seq<Pos>, BoundingBox)

  /** The rough pass always hands the alignment pass what it needs. */
  lemma RoughIsAlignable(c: Constraint, items: seq<nat>)
    requires RoughLayout(c, items).Ok?
    ensures var r := RoughLayout(c, items).value;
            && AlignInput(c, r.positions, r.contentSize, r.rowsLength)
            && (|items| > 0 ==> r.positions[0] == c.origin && Last(r.positions).y == c.origin.y + r.contentSize.h)
  {
    if |items| > 0 {
      RoughPlacement(c, items);
      RoughRows(c, items);
      RoughContentSize(c, items);
      var r := RoughLayout(c, items).value;
      assert forall k :: 0 <= k < |r.positions| ==> OnRow(c, r.positions[k], r.rowsLength);
    }
  }

  /** `organize`: both passes, the first error propagated. */
  function Organization(c: Constraint, items: seq<nat>): (r: Result<Organized, LayoutError>)
    ensures r.Ok? <==> RoughLayout(c, items).Ok?
    ensures r.Err? ==> r.error == RoughLayout(c, items).error
    ensures r.Ok? ==> |r.value.0| == |items|
  {
    match RoughLayout(c, items)
    case Err(e) => Err(e)
    case Ok(rough) =>
      RoughIsAlignable(c, items);
      Ok((AlignAll(c, rough.positions, rough.rowsLength, OffsetY(c, rough.contentSize.h)),
          AlignedBox(c, rough.positions, rough.contentSize, rough.rowsLength)))
  }

  method Organize(c: Constraint, items: seq<nat>) returns (r: Result<Organized, LayoutError>)
    ensures r == Organization(c, items)
  {
    var rough :- SplitRoughly(c, items);
    RoughIsAlignable(c, items);
    var poss := new Pos[|rough.positions|](k requires 0 <= k < |rough.positions| => rough.positions[k]);
    assert poss[..] == rough.positions;
    var bbox := Align(c, poss, rough.contentSize, rough.rowsLength);
    return Ok((poss[..], bbox));
  }

  /** The layout record: the frame around the items, and their positions. */
  datatype Layout = Layout(frame: BoundingBox, positions: seq<Pos>)

  /**
   * `layout`: the organized items, with the frame the source asserts in
   * debug builds: not left of nor above the origin, no wider than a finite
   * width, and no higher than a finite height of at least one row.
   */
  function LayoutOf(c: Constraint, items: seq<nat>): (r: Result<Layout, LayoutError>)
    ensures Organization(c, items).Err? ==> r == Organization(c, items).PropagateFailure()
    ensures Organization(c, items).Ok? ==>
              r == Ok(Layout(Organization(c, items).value.1, Organization(c, items).value.0))
    ensures r.Ok? ==>
              && r.value.frame.x >= c.origin.x
              && r.value.frame.y >= c.origin.y
              && (c.dim.width.Value? ==> r.value.frame.w <= c.dim.width.n)
              && (c.dim.height.Value? && c.dim.height.n >= 1 ==> r.value.frame.h <= c.dim.height.n)
  {
    var organized :- Organization(c, items);
    FrameWithinConstraint(c, items);
    Ok(Layout(organized.1, organized.0))
  }

  lemma FrameWithinConstraint(c: Constraint, items: seq<nat>)
    requires Organization(c, items).Ok?
    ensures var frame := Organization(c, items).value.1;
            && frame.x >= c.origin.x
            && frame.y >= c.origin.y
            && (c.dim.width.Value? ==> frame.w <= c.dim.width.n)
            && (c.dim.height.Value? && c.dim.height.n >= 1 ==> frame.h <= c.dim.height.n)
  {
    if |items| > 0 {
      var rough := RoughLayout(c, items).value;
      RoughIsAlignable(c, items);
      RoughPlacement(c, items);
      var offY := OffsetY(c, rough.contentSize.h);
      LeftmostIsMin(c, rough.positions, rough.rowsLength, offY);
      WidestRowIsMax(c, rough.positions, rough.rowsLength);
    }
  }

  /** An empty input is placed nowhere, in an empty box at the origin. */
  lemma OrganizeEmpty(c: Constraint)
    ensures Organization(c, []) == Ok(([], BoundingBox(c.origin.x, c.origin.y, 0, 0)))
  {
  }

  /** A row starts at its first item: the first of all, or one placed after a wrap. */
  predicate RowStart(ps: seq<Pos>, k: nat)
    requires k < |ps|
  {
    k == 0 || ps[k - 1].y != ps[k].y
  }

  /**
   * Alignment moves every item down by the same amount and every row
   * rigidly to the right: items of one rough row keep their distances.
   */
  lemma AlignMovesRowsRigidly(c: Constraint, items: seq<nat>)
    requires Organization(c, items).Ok?
    ensures RoughLayout(c, items).Ok?
    ensures var rough := RoughLayout(c, items).value.positions;
            var ps := Organization(c, items).value.0;
            && |ps| == |rough| == |items|
            && (forall k :: 0 <= k < |ps| ==> ps[k].y - rough[k].y == ps[0].y - c.origin.y && rough[k].x <= ps[k].x)
            && (forall j, k :: 0 <= j < |ps| && 0 <= k < |ps| && rough[j].y == rough[k].y ==>
                  ps[k].x - ps[j].x == rough[k].x - rough[j].x)
  {
    if |items| > 0 {
      var rough := RoughLayout(c, items).value;
      var ps := Organization(c, items).value.0;
      Unpack(c, items);
      RoughIsAlignable(c, items);
      Rigidly(c, items, rough.positions, rough.rowsLength, OffsetY(c, rough.contentSize.h), ps);
    } else {
      OrganizeEmpty(c);
    }
  }

  lemma Rigidly(c: Constraint, items: seq<nat>, rps: seq<Pos>, rows: seq<nat>, offY: nat, ps: seq<Pos>)
    requires Realigned(c, items, rps, rows, offY, ps) && |rps| > 0 && rps[0].y == c.origin.y
    ensures forall k :: 0 <= k < |ps| ==> ps[k].y - rps[k].y == ps[0].y - c.origin.y && rps[k].x <= ps[k].x
    ensures forall j, k :: 0 <= j < |ps| && 0 <= k < |ps| && rps[j].y == rps[k].y ==>
              ps[k].x - ps[j].x == rps[k].x - rps[j].x
  {
    forall j, k | 0 <= j < |ps| && 0 <= k < |ps| && rps[j].y == rps[k].y
      ensures ps[k].x - ps[j].x == rps[k].x - rps[j].x
    {
      assert RowLength(c, rps[j], rows) == RowLength(c, rps[k], rows);
    }
  }

  /**
   * After alignment, an item follows the previous one on its row, separated
   * by the gap of the rough pass, or starts the next row down.
   */
  lemma AlignKeepsSpacing(c: Constraint, items: seq<nat>)
    requires Organization(c, items).Ok?
    ensures |Organization(c, items).value.0| == |items|
    ensures SpacedRows(items, Organization(c, items).value.0)
  {
    if |items| > 0 {
      Unpack(c, items);
      RoughPlacement(c, items);
      var rough := RoughLayout(c, items).value;
      Spacing(c, items, rough.positions, rough.rowsLength, OffsetY(c, rough.contentSize.h), Organization(c, items).value.0);
    } else {
      assert items == [];
      OrganizeEmpty(c);
    }
  }

  /** Each item follows the previous one on its row, after the rough pass's gap, or starts the next row down. */
  ghost predicate SpacedRows(items: seq<nat>, ps: seq<Pos>)
    requires |ps| == |items|
  {
    forall k :: 1 <= k < |ps| ==>
      || (ps[k].y == ps[k - 1].y && ps[k].x == ps[k - 1].x + items[k - 1] + GapBefore(ps, k))
      || ps[k].y == ps[k - 1].y + 1
  }

  lemma Spacing(c: Constraint, items: seq<nat>, rps: seq<Pos>, rows: seq<nat>, offY: nat, ps: seq<Pos>)
    requires Realigned(c, items, rps, rows, offY, ps) && Greedy(c, items, rps)
    ensures SpacedRows(items, ps)
  {
    forall k | 1 <= k < |ps|
      ensures || (ps[k].y == ps[k - 1].y && ps[k].x == ps[k - 1].x + items[k - 1] + GapBefore(ps, k))
              || ps[k].y == ps[k - 1].y + 1
    {
      assert PlacedAfter(c, items, rps, k);
      assert GapBefore(ps, k) == GapBefore(rps, k);
      if rps[k].y == rps[k - 1].y {
        assert RowLength(c, rps[k], rows) == RowLength(c, rps[k - 1], rows);
      }
    }
  }

  /** With a finite width, every item lies within the width, measured from origin.x. */
  lemma HorizontalFit(c: Constraint, items: seq<nat>)
    requires Organization(c, items).Ok? && c.dim.width.Value?
    ensures var ps := Organization(c, items).value.0;
            forall k :: 0 <= k < |ps| ==> c.origin.x <= ps[k].x && ps[k].x + items[k] - c.origin.x <= c.dim.width.n
  {
    if |items| > 0 {
      Unpack(c, items);
      var rough := RoughLayout(c, items).value;
      ItemsWithinWidth(c, items, rough.positions, rough.rowsLength, OffsetY(c, rough.contentSize.h), Organization(c, items).value.0);
    }
  }

  /** Aligned items inherit the rough pass's bound: each lies between origin.x and origin.x plus the width. */
  lemma ItemsWithinWidth(c: Constraint, items: seq<nat>, rps: seq<Pos>, rows: seq<nat>, offY: nat, ps: seq<Pos>)
    requires Realigned(c, items, rps, rows, offY, ps) && RowsMeasured(c, items, rps, rows) && c.dim.width.Value?
    ensures forall k :: 0 <= k < |ps| ==> c.origin.x <= ps[k].x && ps[k].x + items[k] - c.origin.x <= c.dim.width.n
  {
    forall k | 0 <= k < |ps|
      ensures c.origin.x <= ps[k].x && ps[k].x + items[k] - c.origin.x <= c.dim.width.n
    {
      var len := RowLength(c, rps[k], rows);
      assert ps[k].x == rps[k].x + OffsetX(c, len);
      assert rps[k].x + items[k] - c.origin.x <= len;
    }
  }

  /** `ps` is `rps` aligned: the relation between the two passes' positions. */
  ghost predicate Realigned(c: Constraint, items: seq<nat>, rps: seq<Pos>, rows: seq<nat>, offY: nat, ps: seq<Pos>) {
    && |rps| == |items| == |ps|
    && RowsIndexed(c, rps, rows)
    && (forall k :: 0 <= k < |ps| ==> ps[k] == Aligned(c, rps[k], rows, offY))
    && (forall k :: 0 <= k < |rps| ==> c.origin.x <= rps[k].x)
  }

  /**
   * What the proofs below use of the rough pass's rows: every item ends
   * within its row's length, a row's last item ends exactly there, and a
   * row's first item is at origin.x.
   */
  ghost predicate RowsMeasured(c: Constraint, items: seq<nat>, rps: seq<Pos>, rows: seq<nat>)
    requires |rps| == |items| && RowsIndexed(c, rps, rows)
  {
    && (forall k :: 0 <= k < |rps| ==> rps[k].x + items[k] - c.origin.x <= RowLength(c, rps[k], rows))
    && (forall k :: 0 <= k < |rps| && RowEnd(rps, k) ==> RowLength(c, rps[k], rows) == rps[k].x + items[k] - c.origin.x)
    && (forall k :: 0 <= k < |rps| && RowStart(rps, k) ==> rps[k].x == c.origin.x)
  }

  lemma Unpack(c: Constraint, items: seq<nat>)
    requires Organization(c, items).Ok? && |items| > 0
    ensures RoughLayout(c, items).Ok?
    ensures var rough := RoughLayout(c, items).value;
            && Realigned(c, items, rough.positions, rough.rowsLength, OffsetY(c, rough.contentSize.h),
                         Organization(c, items).value.0)
            && RowsMeasured(c, items, rough.positions, rough.rowsLength)
  {
    RoughIsAlignable(c, items);
    UnpackRows(c, items);
  }

  lemma UnpackRows(c: Constraint, items: seq<nat>)
    requires RoughLayout(c, items).Ok? && |items| > 0
    ensures var rough := RoughLayout(c, items).value;
            && |rough.positions| == |items|
            && RowsIndexed(c, rough.positions, rough.rowsLength)
            && RowsMeasured(c, items, rough.positions, rough.rowsLength)
  {
    var rough := RoughLayout(c, items).value;
    RoughRows(c, items);
    RowStartsAtOriginX(c, items);
    Measure(c, items, rough.positions, rough.rowsLength);
  }

  lemma Measure(c: Constraint, items: seq<nat>, rps: seq<Pos>, rows: seq<nat>)
    requires RowsLaidOut(c, items, rps, rows)
    requires forall k :: 0 <= k < |rps| && RowStart(rps, k) ==> rps[k].x == c.origin.x
    ensures RowsIndexed(c, rps, rows) && RowsMeasured(c, items, rps, rows)
  {
    forall k | 0 <= k < |rps|
      ensures OnRow(c, rps[k], rows)
    {
      assert c.origin.y <= rps[k].y <= Last(rps).y;
    }
    assert forall k :: 0 <= k < |rps| ==> RowLength(c, rps[k], rows) == rows[rps[k].y - c.origin.y];
  }

  /** Every row starter was wrapped to origin.x by the rough pass (or is the first item, at the origin). */
  lemma RowStartsAtOriginX(c: Constraint, items: seq<nat>)
    requires RoughLayout(c, items).Ok?
    ensures var rps := RoughLayout(c, items).value.positions;
            forall k :: 0 <= k < |rps| && RowStart(rps, k) ==> rps[k].x == c.origin.x
  {
    var rps := RoughLayout(c, items).value.positions;
    RoughPlacement(c, items);
    forall k | 0 <= k < |rps| && RowStart(rps, k)
      ensures rps[k].x == c.origin.x
    {
      if k > 0 {
        assert PlacedAfter(c, items, rps, k);
      }
    }
  }

  /** Alignment keeps row ends and row starts where they were. */
  lemma RealignedRows(c: Constraint, items: seq<nat>, rps: seq<Pos>, rows: seq<nat>, offY: nat, ps: seq<Pos>)
    requires Realigned(c, items, rps, rows, offY, ps)
    ensures forall k :: 0 <= k < |ps| ==> (RowEnd(ps, k) <==> RowEnd(rps, k)) && (RowStart(ps, k) <==> RowStart(rps, k))
  {
  }

  lemma RightFlush(c: Constraint, items: seq<nat>, rps: seq<Pos>, rows: seq<nat>, offY: nat, ps: seq<Pos>)
    requires Realigned(c, items, rps, rows, offY, ps) && RowsMeasured(c, items, rps, rows) && c.dim.width.Value? && c.align.hori == AlignRight
    ensures forall k :: 0 <= k < |ps| && RowEnd(ps, k) ==> ps[k].x + items[k] - c.origin.x == c.dim.width.n
  {
    RealignedRows(c, items, rps, rows, offY, ps);
  }

  /** Right alignment ends every row exactly at the width. */
  lemma RightAlignmentFlushesRows(c: Constraint, items: seq<nat>)
    requires Organization(c, items).Ok? && c.dim.width.Value? && c.align.hori == AlignRight
    ensures var ps := Organization(c, items).value.0;
            forall k :: 0 <= k < |ps| && RowEnd(ps, k) ==> ps[k].x + items[k] - c.origin.x == c.dim.width.n
  {
    if |items| > 0 {
      Unpack(c, items);
      var rough := RoughLayout(c, items).value;
      RightFlush(c, items, rough.positions, rough.rowsLength, OffsetY(c, rough.contentSize.h), Organization(c, items).value.0);
    }
  }

  lemma MiddleBalance(c: Constraint, items: seq<nat>, rps: seq<Pos>, rows: seq<nat>, offY: nat, ps: seq<Pos>)
    requires Realigned(c, items, rps, rows, offY, ps) && RowsMeasured(c, items, rps, rows) && c.dim.width.Value? && c.align.hori == AlignMiddle
    ensures forall j, k :: 0 <= j <= k < |ps| && ps[j].y == ps[k].y && RowStart(ps, j) && RowEnd(ps, k) ==>
              var left := ps[j].x - c.origin.x;
              var right := c.dim.width.n - (ps[k].x + items[k] - c.origin.x);
              left <= right <= left + 1
  {
    RealignedRows(c, items, rps, rows, offY, ps);
    forall j, k | 0 <= j <= k < |ps| && ps[j].y == ps[k].y && RowStart(ps, j) && RowEnd(ps, k)
      ensures var left := ps[j].x - c.origin.x;
              var right := c.dim.width.n - (ps[k].x + items[k] - c.origin.x);
              left <= right <= left + 1
    {
      MiddleRow(c, items, rps, rows, offY, ps, j, k);
    }
  }

  lemma MiddleRow(c: Constraint, items: seq<nat>, rps: seq<Pos>, rows: seq<nat>, offY: nat, ps: seq<Pos>, j: nat, k: nat)
    requires Realigned(c, items, rps, rows, offY, ps) && c.dim.width.Value? && c.align.hori == AlignMiddle
    requires j <= k < |ps| && rps[j].y == rps[k].y
    requires rps[j].x == c.origin.x && RowLength(c, rps[k], rows) == rps[k].x + items[k] - c.origin.x
    ensures var left := ps[j].x - c.origin.x;
            var right := c.dim.width.n - (ps[k].x + items[k] - c.origin.x);
            left <= right <= left + 1
  {
    var len := RowLength(c, rps[k], rows);
    assert RowLength(c, rps[j], rows) == len;
    assert ps[j].x == c.origin.x + OffsetX(c, len);
    assert ps[k].x + items[k] - c.origin.x == OffsetX(c, len) + len;
  }

  /**
   * Middle alignment splits a row's free cells evenly: the margin right of
   * the row is the margin left of it, or one more.
   */
  lemma MiddleAlignmentBalancesRows(c: Constraint, items: seq<nat>)
    requires Organization(c, items).Ok? && c.dim.width.Value? && c.align.hori == AlignMiddle
    ensures var ps := Organization(c, items).value.0;
            forall j, k :: 0 <= j <= k < |ps| && ps[j].y == ps[k].y && RowStart(ps, j) && RowEnd(ps, k) ==>
              var left := ps[j].x - c.origin.x;
              var right := c.dim.width.n - (ps[k].x + items[k] - c.origin.x);
              left <= right <= left + 1
  {
    if |items| > 0 {
      Unpack(c, items);
      var rough := RoughLayout(c, items).value;
      MiddleBalance(c, items, rough.positions, rough.rowsLength, OffsetY(c, rough.contentSize.h), Organization(c, items).value.0);
    }
  }

  /**
   * With a finite height of at least one row, top and centre alignment keep
   * every item inside it, centre alignment leaves as many free rows below
   * the content as above (or one fewer), and bottom alignment puts the last
   * row at origin.y + height, one row past the area, because the content
   * height is the last row's index.
   */
  lemma VerticalPlacement(c: Constraint, items: seq<nat>)
    requires Organization(c, items).Ok? && |items| > 0 && c.dim.height.Value?
    ensures var ps := Organization(c, items).value.0;
            var height := c.dim.height.n;
            && |ps| == |items|
            && (c.align.vert == AlignTop ==> ps[0].y == c.origin.y)
            && (c.align.vert != AlignBottom && height >= 1 ==>
                  forall k :: 0 <= k < |ps| ==> c.origin.y <= ps[k].y < c.origin.y + height)
            && (c.align.vert == AlignCenter && height >= 1 ==>
                  var above := ps[0].y - c.origin.y;
                  var below := c.origin.y + height - 1 - Last(ps).y;
                  below <= above <= below + 1)
            && (c.align.vert == AlignBottom ==> Last(ps).y == c.origin.y + height)
  {
    RoughIsAlignable(c, items);
    RoughPlacement(c, items);
    RoughRows(c, items);
    RoughContentSize(c, items);
  }

  lemma MiddleOffsetGrows(width: nat, s: nat, t: nat)
    requires s <= t <= width
    ensures (width - s) / 2 + s <= (width - t) / 2 + t
  {
  }

  lemma FrameCovers(c: Constraint, items: seq<nat>, rps: seq<Pos>, rows: seq<nat>, offY: nat, ps: seq<Pos>)
    requires Realigned(c, items, rps, rows, offY, ps) && RowsMeasured(c, items, rps, rows) && |rps| > 0
    ensures forall k :: 0 <= k < |ps| ==>
              ps[k].x + items[k] <= LeftmostAligned(c, rps, rows, offY) + WidestRow(c, rps, rows)
  {
    LeftmostIsMin(c, rps, rows, offY);
    WidestRowIsMax(c, rps, rows);
    var m :| 0 <= m < |rps| && Aligned(c, rps[m], rows, offY).x == LeftmostAligned(c, rps, rows, offY);
    var w := WidestRow(c, rps, rows);
    forall k | 0 <= k < |ps|
      ensures ps[k].x + items[k] <= LeftmostAligned(c, rps, rows, offY) + w
    {
      var rk := RowLength(c, rps[k], rows);
      var rm := RowLength(c, rps[m], rows);
      assert rk <= w && rm <= w;
      assert ps[k].x + items[k] <= c.origin.x + OffsetX(c, rk) + rk;
      assert LeftmostAligned(c, rps, rows, offY) >= c.origin.x + OffsetX(c, rm);
      if c.dim.width.Value? && c.align.hori == AlignMiddle {
        MiddleOffsetGrows(c.dim.width.n, rk, w);
        assert OffsetX(c, rk) + rk <= OffsetX(c, rm) + w;
      }
    }
  }

  /**
   * The bounding box frames every item: it starts at the leftmost item and
   * at the first row, spans the rows, and reaches as far right as any item,
   * since its width is the widest row.
   */
  lemma FrameContainsItems(c: Constraint, items: seq<nat>)
    requires Organization(c, items).Ok? && |items| > 0
    ensures var (ps, frame) := Organization(c, items).value;
            && |ps| == |items|
            && frame.y == ps[0].y
            && frame.h == Last(ps).y - ps[0].y + 1
            && (exists m :: 0 <= m < |ps| && ps[m].x == frame.x)
            && forall k :: 0 <= k < |ps| ==>
                 && frame.x <= ps[k].x && ps[k].x + items[k] <= frame.x + frame.w
                 && frame.y <= ps[k].y < frame.y + frame.h
  {
    Unpack(c, items);
    RoughIsAlignable(c, items);
    RoughRows(c, items);
    var rough := RoughLayout(c, items).value;
    var offY := OffsetY(c, rough.contentSize.h);
    LeftmostIsMin(c, rough.positions, rough.rowsLength, offY);
    FrameCovers(c, items, rough.positions, rough.rowsLength, offY, Organization(c, items).value.0);
  }

  /**
   * With a finite height of zero, one item that fits the width is still
   * placed, in a frame one row high: the frame height the source asserts
   * only holds for heights of at least one row.
   */
  lemma HeightZeroFrame(c: Constraint, len: nat)
    requires c.dim.height == Value(0)
    requires c.dim.width.Value? ==> len <= c.dim.width.n
    ensures Organization(c, [len]).Ok?
    ensures Organization(c, [len]).value.1.h == 1
  {
    assert [len][..0] == [];
    FirstStep(c, len);
    assert Plan(c, [len]).Ok?;
    FrameContainsItems(c, [len]);
  }
}
