/**
 * The unit tests of src/app/ui/mod.rs, stated as lemmas about
 * `Organization`.  Item lengths are the byte lengths of the test words
 * ("first" 5, "second" 6, "third" 5, "larger" 6, "fit" 3, "stalker" 7).
 */
module UiLayoutTests {
  import opened Results
  import opened UiGeometry
  import opened UiRough
  import opened UiAlign
  import opened UiLayout

  /** "larger" in a frame five cells wide. */
  lemma WordOverflowFrameWidth()
    ensures Organization(Constraint(Pos(0, 0), Bounded(Dim(5, 1)), TopLeft), [6]) == Err(TooWide(0))
  {
    assert [6][..0] == [];
  }

  /** "fit" then "stalker" in a frame ten cells wide and one row high. */
  lemma WordOverflowFrameHeight()
    ensures Organization(Constraint(Pos(0, 0), Bounded(Dim(10, 1)), TopLeft), [3, 7]) == Err(TooManyWords(1))
  {
    assert [3, 7][..1] == [3];
    assert [3][..0] == [];
  }

  /**
   * The three words "first", "second", "third" under `c`, given the rough
   * pass's result on the first one, the first two, and all three.
   */
  lemma ThreeWords(c: Constraint, p1: Planning, p2: Planning, p3: Planning, rough: Rough)
    requires Step(c, Start, 0, 5) == Ok(p1)
    requires AboveOrigin(c, p1.positions) && Step(c, p1, 1, 6) == Ok(p2)
    requires AboveOrigin(c, p2.positions) && Step(c, p2, 2, 5) == Ok(p3)
    requires |p3.positions| > 0
    requires rough == Rough(p3.positions, Dim(p3.rightSide, Last(p3.positions).y - c.origin.y),
                            p3.rowsLength + [Last(p3.positions).x + p3.lastLen - c.origin.x])
    ensures RoughLayout(c, [5, 6, 5]) == Ok(rough)
  {
    assert [5, 6, 5][..2] == [5, 6];
    assert [5, 6][..1] == [5];
    assert [5][..0] == [];
  }

  /** Once the rough pass is known, `organize` aligns its positions one by one. */
  lemma OrganizedFrom(c: Constraint, items: seq<nat>, rough: Rough)
    requires RoughLayout(c, items) == Ok(rough)
    requires AlignInput(c, rough.positions, rough.contentSize, rough.rowsLength)
    ensures Organization(c, items).Ok?
    ensures var ps := Organization(c, items).value.0;
            && |ps| == |rough.positions|
            && forall k :: 0 <= k < |ps| ==>
                 ps[k] == Aligned(c, rough.positions[k], rough.rowsLength, OffsetY(c, rough.contentSize.h))
  {
  }

  /** Top-left alignment leaves the rough positions where they are. */
  lemma TopLeftKeeps(c: Constraint, items: seq<nat>, rough: Rough)
    requires c.align == TopLeft && RoughLayout(c, items) == Ok(rough)
    requires AlignInput(c, rough.positions, rough.contentSize, rough.rowsLength)
    ensures Organization(c, items).Ok?
    ensures Organization(c, items).value.0 == rough.positions
  {
    OrganizedFrom(c, items, rough);
    var ps := Organization(c, items).value.0;
    forall k | 0 <= k < |ps|
      ensures ps[k] == rough.positions[k]
    {
      assert ps[k] == Aligned(c, rough.positions[k], rough.rowsLength, OffsetY(c, rough.contentSize.h));
    }
  }

  /** The rough pass when "first second" fills row 0 and "third" goes to row 1. */
  lemma TwoRows(c: Constraint)
    requires c.origin == Pos(0, 0)
    requires c.dim.width.Value? && 12 <= c.dim.width.n < 18
    requires c.dim.height.Infinite? || c.dim.height.n >= 2
    ensures RoughLayout(c, [5, 6, 5]) == Ok(Rough([Pos(0, 0), Pos(6, 0), Pos(0, 1)], Dim(12, 1), [12, 5]))
  {
    var p1 := Planning([Pos(0, 0)], [], 5, false, 0);
    var p2 := Planning([Pos(0, 0), Pos(6, 0)], [], 6, false, 0);
    var p3 := Planning([Pos(0, 0), Pos(6, 0), Pos(0, 1)], [12], 5, true, 12);
    assert Step(c, Start, 0, 5) == Ok(p1) by { assert [] + [Pos(0, 0)] == p1.positions; }
    assert Step(c, p1, 1, 6) == Ok(p2) by { assert p1.positions + [Pos(6, 0)] == p2.positions; }
    assert Step(c, p2, 2, 5) == Ok(p3) by {
      assert p2.positions + [Pos(0, 1)] == p3.positions;
      assert p2.rowsLength + [12] == p3.rowsLength;
    }
    assert p3.rowsLength + [5] == [12, 5];
    ThreeWords(c, p1, p2, p3, Rough(p3.positions, Dim(12, 1), [12, 5]));
  }

  /** Two words fill the first row exactly; the third starts the second. */
  lemma PerfectFit(c: Constraint)
    requires c == Constraint(Pos(0, 0), Bounded(Dim(12, 2)), TopLeft)
    ensures Organization(c, [5, 6, 5]).Ok?
    ensures Organization(c, [5, 6, 5]).value.0 == [Pos(0, 0), Pos(6, 0), Pos(0, 1)]
  {
    TwoRows(c);
    var rough := RoughLayout(c, [5, 6, 5]).value;
    assert AlignInput(c, rough.positions, rough.contentSize, rough.rowsLength);
    TopLeftKeeps(c, [5, 6, 5], rough);
    assert rough.positions == [Pos(0, 0), Pos(6, 0), Pos(0, 1)];
  }

  /** The rough pass when nothing bounds the width: one row of 18 cells. */
  lemma OneRow(c: Constraint)
    requires c.origin == Pos(0, 0) && c.dim.width.Infinite?
    ensures RoughLayout(c, [5, 6, 5]) == Ok(Rough([Pos(0, 0), Pos(6, 0), Pos(13, 0)], Dim(0, 0), [18]))
  {
    var p1 := Planning([Pos(0, 0)], [], 5, false, 0);
    var p2 := Planning([Pos(0, 0), Pos(6, 0)], [], 6, false, 0);
    var p3 := Planning([Pos(0, 0), Pos(6, 0), Pos(13, 0)], [], 5, false, 0);
    assert Step(c, Start, 0, 5) == Ok(p1) by { assert [] + [Pos(0, 0)] == p1.positions; }
    assert Step(c, p1, 1, 6) == Ok(p2) by { assert p1.positions + [Pos(6, 0)] == p2.positions; }
    assert Step(c, p2, 2, 5) == Ok(p3) by { assert p2.positions + [Pos(13, 0)] == p3.positions; }
    assert p3.rowsLength + [18] == [18];
    ThreeWords(c, p1, p2, p3, Rough(p3.positions, Dim(0, 0), [18]));
  }

  /** With no bound on the width, every word stays on the first row. */
  lemma KeepOnOneLine(c: Constraint)
    requires c == Constraint(Pos(0, 0), AdaptativeDim(Infinite, Value(1)), TopLeft)
    ensures Organization(c, [5, 6, 5]).Ok?
    ensures Organization(c, [5, 6, 5]).value.0 == [Pos(0, 0), Pos(6, 0), Pos(13, 0)]
  {
    OneRow(c);
    var rough := RoughLayout(c, [5, 6, 5]).value;
    assert AlignInput(c, rough.positions, rough.contentSize, rough.rowsLength);
    TopLeftKeeps(c, [5, 6, 5], rough);
    assert rough.positions == [Pos(0, 0), Pos(6, 0), Pos(13, 0)];
  }

  /** The rough pass when the width holds one word per row. */
  lemma RowPerWord(c: Constraint)
    requires c.origin == Pos(0, 0) && c.dim == AdaptativeDim(Value(6), Infinite)
    ensures RoughLayout(c, [5, 6, 5]) == Ok(Rough([Pos(0, 0), Pos(0, 1), Pos(0, 2)], Dim(6, 2), [5, 6, 5]))
  {
    var p1 := Planning([Pos(0, 0)], [], 5, false, 0);
    var p2 := Planning([Pos(0, 0), Pos(0, 1)], [5], 6, true, 5);
    var p3 := Planning([Pos(0, 0), Pos(0, 1), Pos(0, 2)], [5, 6], 5, true, 6);
    assert Step(c, Start, 0, 5) == Ok(p1) by { assert [] + [Pos(0, 0)] == p1.positions; }
    assert Step(c, p1, 1, 6) == Ok(p2) by {
      assert p1.positions + [Pos(0, 1)] == p2.positions;
      assert p1.rowsLength + [5] == p2.rowsLength;
    }
    assert Step(c, p2, 2, 5) == Ok(p3) by {
      assert p2.positions + [Pos(0, 2)] == p3.positions;
      assert p2.rowsLength + [6] == p3.rowsLength;
    }
    assert p3.rowsLength + [5] == [5, 6, 5];
    ThreeWords(c, p1, p2, p3, Rough(p3.positions, Dim(6, 2), [5, 6, 5]));
  }

  /** With no bound on the height and room for one word per row, each word opens a row. */
  lemma AutoAddRows(c: Constraint)
    requires c == Constraint(Pos(0, 0), AdaptativeDim(Value(6), Infinite), TopLeft)
    ensures Organization(c, [5, 6, 5]).Ok?
    ensures Organization(c, [5, 6, 5]).value.0 == [Pos(0, 0), Pos(0, 1), Pos(0, 2)]
  {
    RowPerWord(c);
    var rough := RoughLayout(c, [5, 6, 5]).value;
    assert AlignInput(c, rough.positions, rough.contentSize, rough.rowsLength);
    TopLeftKeeps(c, [5, 6, 5], rough);
    assert rough.positions == [Pos(0, 0), Pos(0, 1), Pos(0, 2)];
  }

  /** Centred rows: two cells of margin around the first row, (16 - 5) / 2 before the second. */
  lemma CenterContent(c: Constraint)
    requires c == Constraint(Pos(0, 0), AdaptativeDim(Value(16), Infinite), Centered)
    ensures Organization(c, [5, 6, 5]).Ok?
    ensures Organization(c, [5, 6, 5]).value.0 == [Pos(2, 0), Pos(8, 0), Pos(5, 1)]
  {
    TwoRows(c);
    var rough := RoughLayout(c, [5, 6, 5]).value;
    assert AlignInput(c, rough.positions, rough.contentSize, rough.rowsLength);
    OrganizedFrom(c, [5, 6, 5], rough);
    var ps := Organization(c, [5, 6, 5]).value.0;
    assert ps[0] == Pos(2, 0) && ps[1] == Pos(8, 0) && ps[2] == Pos(5, 1);
    assert ps == [Pos(2, 0), Pos(8, 0), Pos(5, 1)];
  }

  /** Right-aligned rows end at the width; with no bound on the height, bottom alignment moves nothing. */
  lemma OppositeAlign(c: Constraint)
    requires c == Constraint(Pos(0, 0), AdaptativeDim(Value(14), Infinite), BottomRight)
    ensures Organization(c, [5, 6, 5]).Ok?
    ensures Organization(c, [5, 6, 5]).value.0 == [Pos(2, 0), Pos(8, 0), Pos(9, 1)]
  {
    TwoRows(c);
    var rough := RoughLayout(c, [5, 6, 5]).value;
    assert AlignInput(c, rough.positions, rough.contentSize, rough.rowsLength);
    OrganizedFrom(c, [5, 6, 5], rough);
    var ps := Organization(c, [5, 6, 5]).value.0;
    assert ps[0] == Pos(2, 0) && ps[1] == Pos(8, 0) && ps[2] == Pos(9, 1);
    assert ps == [Pos(2, 0), Pos(8, 0), Pos(9, 1)];
  }
}
