/**
 * The revision of the flow layout in src/app/ui.rs: the same greedy
 * wrapping pass as `split_roughly`, but with the origin hard-wired to the
 * terminal's first cell (1, 1), no row lengths and no alignment pass.
 *
 * `Plan` is the loop as a fold and `Organize` the loop itself.  The main
 * lemma, `AgreesWithRough`, shows that this revision places items exactly as
 * `UiRough` does for a constraint whose origin is (1, 1); the placement and
 * error properties proved there are restated here through it.
 */
module UiOneBased {
  import opened Results
  import opened UiGeometry
  import UiRough

  /** In this revision a constraint carries no origin. */
  datatype Constraint = Constraint(dim: AdaptativeDim, align: Alignment)

  /** Terminal cells are numbered from 1. */
  const First := Pos(1, 1)

  const Sep: nat := 1

  /** The variables of `organize`'s loop after a prefix of the items. */
  datatype Planning = Planning(positions: seq<Pos>, lastLen: nat, startTheRow: bool)

  const Start := Planning([], 0, true)

  /** Where item `i`, of length `len`, goes when the row so far ends at (startX, startY). */
  function Place(c: Constraint, startX: nat, startY: nat, i: nat, len: nat): (r: Result<Pos, LayoutError>)
    ensures r.Ok? ==> r.value == Pos(startX, startY) || r.value == Pos(1, startY + 1)
    ensures r == Err(TooWide(i)) <==> c.dim.width.Value? && len > c.dim.width.n
    ensures r.Err? ==> r == Err(TooWide(i)) || r == Err(TooManyWords(i))
  {
    match c.dim.width
    case Value(frameWidth) =>
      if len > frameWidth then Err(TooWide(i))
      else if startX + len - First.x <= frameWidth then Ok(Pos(startX, startY))
      else (
        match c.dim.height
        case Value(frameHeight) =>
          if startY + 1 - First.y >= frameHeight then Err(TooManyWords(i))
          else Ok(Pos(1, startY + 1))
        case Infinite => Ok(Pos(1, startY + 1)))
    case Infinite => Ok(Pos(startX, startY))
  }

  /** One iteration of the loop, for item `i` of length `len`. */
  function Step(c: Constraint, p: Planning, i: nat, len: nat): (r: Result<Planning, LayoutError>)
    ensures r.Ok? ==> |r.value.positions| == |p.positions| + 1
  {
    var lastPos := if |p.positions| == 0 then First else Last(p.positions);
    var gap := if p.startTheRow then 0 else Sep;
    var startX := lastPos.x + p.lastLen + gap;
    var startY := lastPos.y;
    var pos :- Place(c, startX, startY, i, len);
    Ok(Planning(p.positions + [pos], len, pos.y != startY))
  }

  /** The loop run over all of `items`; the first error stops it. */
  function Plan(c: Constraint, items: seq<nat>): (r: Result<Planning, LayoutError>)
    ensures r.Ok? ==> |r.value.positions| == |items|
    decreases |items|
  {
    if |items| == 0 then Ok(Start)
    else
      var p :- Plan(c, items[..|items| - 1]);
      Step(c, p, |items| - 1, items[|items| - 1])
  }

  /** `organize` as a function of its inputs: one position per item, or the first error. */
  function Organization(c: Constraint, items: seq<nat>): (r: Result<seq<Pos>, LayoutError>)
    ensures |items| == 0 ==> r == Ok([])
    ensures r.Ok? ==> |r.value| == |items|
  {
    if |items| == 0 then Ok([])
    else
      var p :- Plan(c, items);
      Ok(p.positions)
  }

  method Organize(c: Constraint, items: seq<nat>) returns (r: Result<seq<Pos>, LayoutError>)
    ensures r == Organization(c, items)
  {
    if |items| == 0 {
      return Ok([]);
    }
    var planning: seq<Pos> := [];
    var lastLen: nat := 0;
    var startTheRow := true;
    for i := 0 to |items|
      invariant Plan(c, items[..i]) == Ok(Planning(planning, lastLen, startTheRow))
    {
      ghost var p := Planning(planning, lastLen, startTheRow);
      var len := items[i];
      var lastPos := if |planning| == 0 then First else planning[|planning| - 1];
      var gap := if startTheRow then 0 else Sep;
      var startX := lastPos.x + lastLen + gap;
      var startY := lastPos.y;
      var place := Place(c, startX, startY, i, len);
      assert items[..i + 1][..i] == items[..i];
      if place.Err? {
        PlanFailsFast(c, items, i + 1);
        return Err(place.error);
      }
      var pos := place.value;
      startTheRow := pos.y != startY;
      lastLen := len;
      planning := planning + [pos];
      assert Step(c, p, i, len) == Ok(Planning(planning, lastLen, startTheRow));
    }
    assert items[..|items|] == items;
    return Ok(planning);
  }

  /** Once a prefix fails, the whole input fails with the same error, as it does in `split_roughly`. */
  lemma PlanFailsFast(c: Constraint, items: seq<nat>, k: nat)
    requires k <= |items| && Plan(c, items[..k]).Err?
    ensures Plan(c, items) == Plan(c, items[..k])
  {
    AgreesWithRough(c, items[..k]);
    UiRough.PlanFailsFast(Rebased(c), items, k);
    AgreesWithRough(c, items);
  }

  /** What `layout` returns in this revision: the positions alone. */
  datatype Layout = Layout(positions: seq<Pos>)

  /** `layout`: `organize`'s positions unchanged, or its error. */
  function LayoutOf(c: Constraint, items: seq<nat>): (r: Result<Layout, LayoutError>)
    ensures r.Err? <==> Organization(c, items).Err?
    ensures r.Err? ==> r.error == Organization(c, items).error
    ensures r.Ok? ==> r.value.positions == Organization(c, items).value && |r.value.positions| == |items|
  {
    var positions :- Organization(c, items);
    Ok(Layout(positions))
  }

  // ---------------------------------------------------------------------
  // The relation to the revision in src/app/ui/mod.rs.

  /** The constraint of src/app/ui/mod.rs with the origin at the first terminal cell. */
  function Rebased(c: Constraint): UiGeometry.Constraint {
    UiGeometry.Constraint(First, c.dim, c.align)
  }

  /**
   * Step for step, this revision's loop keeps the same positions, last
   * length and row flag as `split_roughly` run from origin (1, 1), and fails
   * with the same error on the same item.
   */
  lemma {:induction false} AgreesWithRough(c: Constraint, items: seq<nat>)
    ensures Plan(c, items).Ok? <==> UiRough.Plan(Rebased(c), items).Ok?
    ensures Plan(c, items).Err? ==> Plan(c, items).error == UiRough.Plan(Rebased(c), items).error
    ensures Plan(c, items).Ok? ==>
              var p, q := Plan(c, items).value, UiRough.Plan(Rebased(c), items).value;
              p.positions == q.positions && p.lastLen == q.lastLen && p.startTheRow == q.startTheRow
    decreases |items|
  {
    if |items| > 0 {
      AgreesWithRough(c, items[..|items| - 1]);
    }
  }

  /** `organize` returns the positions `split_roughly` computes from origin (1, 1), or its error. */
  lemma OrganizationIsRough(c: Constraint, items: seq<nat>)
    ensures Organization(c, items).Ok? <==> UiRough.RoughLayout(Rebased(c), items).Ok?
    ensures Organization(c, items).Err? ==>
              Organization(c, items).error == UiRough.RoughLayout(Rebased(c), items).error
    ensures Organization(c, items).Ok? ==>
              Organization(c, items).value == UiRough.RoughLayout(Rebased(c), items).value.positions
  {
    AgreesWithRough(c, items);
  }

  /**
   * Where `organize` puts the items on success: the first at (1, 1), each
   * later one after the previous when it fits and otherwise at x = 1 on the
   * next row, every item at or right of column 1 and, for a finite width W,
   * ending by column W.
   */
  lemma OneBasedPlacement(c: Constraint, items: seq<nat>)
    requires Organization(c, items).Ok?
    ensures var ps := Organization(c, items).value;
            && UiRough.Greedy(Rebased(c), items, ps)
            && (|ps| > 0 ==> ps[0] == Pos(1, 1))
            && (forall k :: 1 <= k < |ps| && ps[k].y != ps[k - 1].y ==>
                  ps[k] == Pos(1, ps[k - 1].y + 1))
            && (forall k :: 0 <= k < |ps| ==> 1 <= ps[k].x && 1 <= ps[k].y)
            && (c.dim.width.Value? ==>
                  forall k :: 0 <= k < |ps| ==> ps[k].x + items[k] - 1 <= c.dim.width.n)
  {
    OrganizationIsRough(c, items);
    UiRough.RoughPlacement(Rebased(c), items);
    var ps := Organization(c, items).value;
    if |items| > 0 {
      UiRough.RoughRows(Rebased(c), items);
    }
    forall k | 1 <= k < |ps| && ps[k].y != ps[k - 1].y
      ensures ps[k] == Pos(1, ps[k - 1].y + 1)
    {
      assert UiRough.PlacedAfter(Rebased(c), items, ps, k);
    }
  }

  /** A `TooWide` error names the first item wider than a finite width, once all before it are placed. */
  lemma TooWideExactly(c: Constraint, items: seq<nat>, i: nat)
    ensures Organization(c, items) == Err(TooWide(i)) <==>
            && i < |items|
            && Organization(c, items[..i]).Ok?
            && c.dim.width.Value?
            && items[i] > c.dim.width.n
  {
    OrganizationIsRough(c, items);
    if i <= |items| {
      OrganizationIsRough(c, items[..i]);
    }
    UiRough.TooWideExactly(Rebased(c), items, i);
  }

  /**
   * A `TooManyWords` error names the first item that fits the width but not
   * the rest of its row, when the row after the previous item's would reach
   * a finite height.
   */
  lemma TooManyWordsExactly(c: Constraint, items: seq<nat>, i: nat)
    ensures Organization(c, items) == Err(TooManyWords(i)) <==>
            && 0 < i < |items|
            && Organization(c, items[..i]).Ok?
            && var ps := Organization(c, items[..i]).value;
               && c.dim.width.Value?
               && items[i] <= c.dim.width.n
               && !UiRough.Fits(Rebased(c), UiRough.Candidate(items, ps, i), items[i])
               && c.dim.height.Value?
               && ps[i - 1].y >= c.dim.height.n
  {
    OrganizationIsRough(c, items);
    if i <= |items| {
      OrganizationIsRough(c, items[..i]);
    }
    UiRough.TooManyWordsExactly(Rebased(c), items, i);
  }

  /** The loop never reads the alignment. */
  lemma {:induction false} PlanIgnoresAlign(dim: AdaptativeDim, a1: Alignment, a2: Alignment, items: seq<nat>)
    ensures Plan(Constraint.Constraint(dim, a1), items) == Plan(Constraint.Constraint(dim, a2), items)
    decreases |items|
  {
    if |items| > 0 {
      PlanIgnoresAlign(dim, a1, a2, items[..|items| - 1]);
    }
  }

  /** `organize`'s result does not depend on the alignment. */
  lemma AlignIrrelevant(dim: AdaptativeDim, a1: Alignment, a2: Alignment, items: seq<nat>)
    ensures Organization(Constraint.Constraint(dim, a1), items) == Organization(Constraint.Constraint(dim, a2), items)
  {
    PlanIgnoresAlign(dim, a1, a2, items);
  }

  // ---------------------------------------------------------------------
  // The unit tests of src/app/ui.rs.  Item lengths are the byte lengths of
  // the test words ("larger" 6, "fit" 3, "stalker" 7, "first" 5,
  // "second" 6, "third" 5); every test uses centred alignment, which
  // `organize` does not read.


  lemma WordOverflowFrameWidth(c: Constraint)
    requires c == Constraint.Constraint(Bounded(Dim(5, 1)), Centered)
    ensures Organization(c, [6]) == Err(TooWide(0))
  {
    assert [6][..0] == [];
  }

  lemma WordOverflowFrameHeight(c: Constraint)
    requires c == Constraint.Constraint(Bounded(Dim(10, 1)), Centered)
    ensures Organization(c, [3, 7]) == Err(TooManyWords(1))
  {
    var p1 := Planning([Pos(1, 1)], 3, false);
    assert Step(c, Start, 0, 3) == Ok(p1) by { assert [] + [Pos(1, 1)] == p1.positions; }
    assert [3, 7][..1] == [3];
    assert [3][..0] == [];
  }

  /** The three words "first", "second", "third", given the loop's state after each. */
  lemma ThreeWords(c: Constraint, p1: Planning, p2: Planning, p3: Planning)
    requires Step(c, Start, 0, 5) == Ok(p1)
    requires Step(c, p1, 1, 6) == Ok(p2)
    requires Step(c, p2, 2, 5) == Ok(p3)
    ensures Organization(c, [5, 6, 5]) == Ok(p3.positions)
  {
    assert [5, 6, 5][..2] == [5, 6];
    assert [5, 6][..1] == [5];
    assert [5][..0] == [];
  }

  lemma PerfectFit(c: Constraint)
    requires c == Constraint.Constraint(Bounded(Dim(12, 2)), Centered)
    ensures Organization(c, [5, 6, 5]) == Ok([Pos(1, 1), Pos(7, 1), Pos(1, 2)])
  {
    var p1 := Planning([Pos(1, 1)], 5, false);
    var p2 := Planning([Pos(1, 1), Pos(7, 1)], 6, false);
    var p3 := Planning([Pos(1, 1), Pos(7, 1), Pos(1, 2)], 5, true);
    assert Step(c, Start, 0, 5) == Ok(p1) by { assert [] + [Pos(1, 1)] == p1.positions; }
    assert Step(c, p1, 1, 6) == Ok(p2) by { assert p1.positions + [Pos(7, 1)] == p2.positions; }
    assert Step(c, p2, 2, 5) == Ok(p3) by { assert p2.positions + [Pos(1, 2)] == p3.positions; }
    ThreeWords(c, p1, p2, p3);
  }

  lemma KeepOnOneLine(c: Constraint)
    requires c == Constraint.Constraint(AdaptativeDim(Infinite, Value(1)), Centered)
    ensures Organization(c, [5, 6, 5]) == Ok([Pos(1, 1), Pos(7, 1), Pos(14, 1)])
  {
    var p1 := Planning([Pos(1, 1)], 5, false);
    var p2 := Planning([Pos(1, 1), Pos(7, 1)], 6, false);
    var p3 := Planning([Pos(1, 1), Pos(7, 1), Pos(14, 1)], 5, false);
    assert Step(c, Start, 0, 5) == Ok(p1) by { assert [] + [Pos(1, 1)] == p1.positions; }
    assert Step(c, p1, 1, 6) == Ok(p2) by { assert p1.positions + [Pos(7, 1)] == p2.positions; }
    assert Step(c, p2, 2, 5) == Ok(p3) by { assert p2.positions + [Pos(14, 1)] == p3.positions; }
    ThreeWords(c, p1, p2, p3);
  }

  lemma AutoAddRows(c: Constraint)
    requires c == Constraint.Constraint(AdaptativeDim(Value(6), Infinite), Centered)
    ensures Organization(c, [5, 6, 5]) == Ok([Pos(1, 1), Pos(1, 2), Pos(1, 3)])
  {
    var p1 := Planning([Pos(1, 1)], 5, false);
    var p2 := Planning([Pos(1, 1), Pos(1, 2)], 6, true);
    var p3 := Planning([Pos(1, 1), Pos(1, 2), Pos(1, 3)], 5, true);
    assert Step(c, Start, 0, 5) == Ok(p1) by { assert [] + [Pos(1, 1)] == p1.positions; }
    assert Step(c, p1, 1, 6) == Ok(p2) by { assert p1.positions + [Pos(1, 2)] == p2.positions; }
    assert Step(c, p2, 2, 5) == Ok(p3) by { assert p2.positions + [Pos(1, 3)] == p3.positions; }
    ThreeWords(c, p1, p2, p3);
  }
}
