/**
 * The first pass of the flow layout in src/app/ui/mod.rs, `split_roughly`:
 * item lengths are wrapped greedily, left to right, into rows that start at
 * the constraint's origin.  It fails on the first item that is wider than a
 * finite width (`TooWide`) or that would open a row beyond a finite height
 * (`TooManyWords`).
 *
 * `Plan` is the loop of the source as a fold (one `Step` per item),
 * `RoughLayout` is the whole pass, and `SplitRoughly` is the loop itself,
 * proved equal to `RoughLayout`.  `Inv` collects what every prefix of the
 * fold satisfies; the lemmas at the end state it about the pass's output.
 */
module UiRough {
  import opened Results
  import opened UiGeometry

  /** Cells between two items of a row. */
  const Sep: nat := 1

  /** The variables of `split_roughly`'s loop after a prefix of the items. */
  datatype Planning = Planning(
    positions: seq<Pos>,
    rowsLength: seq<nat>,
    lastLen: nat,
    startTheRow: bool,
    rightSide: nat)

  const Start := Planning([], [], 0, true, 0)

  /** What the pass returns: one position per item, the content size, one length per row. */
  datatype Rough = Rough(positions: seq<Pos>, contentSize: Dim, rowsLength: seq<nat>)

  ghost predicate AboveOrigin(c: Constraint, ps: seq<Pos>) {
    forall k :: 0 <= k < |ps| ==> c.origin.x <= ps[k].x && c.origin.y <= ps[k].y
  }

  /** Where item `i`, of length `len`, goes when the row so far ends at (startX, startY). */
  function Place(c: Constraint, startX: nat, startY: nat, i: nat, len: nat): (r: Result<Pos, LayoutError>)
    ensures r.Ok? ==> r.value == Pos(startX, startY) || r.value == Pos(c.origin.x, startY + 1)
    ensures r == Err(TooWide(i)) <==> c.dim.width.Value? && len > c.dim.width.n
    ensures r.Err? ==> r == Err(TooWide(i)) || r == Err(TooManyWords(i))
  {
    match c.dim.width
    case Value(frameWidth) =>
      if len > frameWidth then Err(TooWide(i))
      else if startX + len - c.origin.x <= frameWidth then Ok(Pos(startX, startY))
      else (
        match c.dim.height
        case Value(frameHeight) =>
          if startY + 1 - c.origin.y >= frameHeight then Err(TooManyWords(i))
          else Ok(Pos(c.origin.x, startY + 1))
        case Infinite => Ok(Pos(c.origin.x, startY + 1)))
    case Infinite => Ok(Pos(startX, startY))
  }

  /** One iteration of the loop, for item `i` of length `len`. */
  function Step(c: Constraint, p: Planning, i: nat, len: nat): (r: Result<Planning, LayoutError>)
    requires AboveOrigin(c, p.positions)
    ensures r.Ok? ==> AboveOrigin(c, r.value.positions) && |r.value.positions| == |p.positions| + 1
  {
    var lastPos := if |p.positions| == 0 then c.origin else Last(p.positions);
    var gap := if p.startTheRow then 0 else Sep;
    var startX := lastPos.x + p.lastLen + gap;
    var startY := lastPos.y;
    match Place(c, startX, startY, i, len)
    case Err(e) => Err(e)
    case Ok(pos) =>
      var startTheRow := pos.y != startY;
      var previousRowLength := startX - gap;
      Ok(Planning(
           p.positions + [pos],
           if startTheRow then p.rowsLength + [previousRowLength - c.origin.x] else p.rowsLength,
           len,
           startTheRow,
           if startTheRow then Max(p.rightSide, previousRowLength) else p.rightSide))
  }

  /** The loop run over all of `items`; the first error stops it. */
  function Plan(c: Constraint, items: seq<nat>): (r: Result<Planning, LayoutError>)
    ensures r.Ok? ==> AboveOrigin(c, r.value.positions) && |r.value.positions| == |items|
    decreases |items|
  {
    if |items| == 0 then Ok(Start)
    else
      match Plan(c, items[..|items| - 1])
      case Err(e) => Err(e)
      case Ok(p) => Step(c, p, |items| - 1, items[|items| - 1])
  }

  /** `split_roughly` as a function of its inputs. */
  function RoughLayout(c: Constraint, items: seq<nat>): (r: Result<Rough, LayoutError>)
    ensures r.Ok? ==> |r.value.positions| == |items| && AboveOrigin(c, r.value.positions)
  {
    if |items| == 0 then Ok(Rough([], Dim(0, 0), []))
    else
      match Plan(c, items)
      case Err(e) => Err(e)
      case Ok(p) =>
        var lastPos := Last(p.positions);
        Ok(Rough(p.positions, Dim(p.rightSide, lastPos.y - c.origin.y),
                 p.rowsLength + [lastPos.x + p.lastLen - c.origin.x]))
  }

  method SplitRoughly(c: Constraint, items: seq<nat>) returns (r: Result<Rough, LayoutError>)
    ensures r == RoughLayout(c, items)
  {
    if |items| == 0 {
      return Ok(Rough([], Dim(0, 0), []));
    }
    var planning: seq<Pos> := [];
    var rowsLength: seq<nat> := [];
    var lastLen: nat := 0;
    var startTheRow := true;
    var rightSide: nat := 0;
    for i := 0 to |items|
      invariant Plan(c, items[..i]) == Ok(Planning(planning, rowsLength, lastLen, startTheRow, rightSide))
    {
      ghost var p := Planning(planning, rowsLength, lastLen, startTheRow, rightSide);
      var len := items[i];
      var lastPos := if |planning| == 0 then c.origin else planning[|planning| - 1];
      var gap := if startTheRow then 0 else Sep;
      var startX := lastPos.x + lastLen + gap;
      var startY := lastPos.y;
      var place := Place(c, startX, startY, i, len);
      if place.Err? {
        assert Step(c, p, i, len) == Err(place.error);
        RoughFailsAt(c, items, i, p, place.error);
        return Err(place.error);
      }
      var pos := place.value;
      startTheRow := pos.y != startY;
      if startTheRow {
        var previousRowLength := startX - gap;
        rowsLength := rowsLength + [previousRowLength - c.origin.x];
        rightSide := Max(rightSide, previousRowLength);
      }
      lastLen := len;
      planning := planning + [pos];
      assert Step(c, p, i, len) == Ok(Planning(planning, rowsLength, lastLen, startTheRow, rightSide));
      PlanNext(c, items, i);
    }
    assert items[..|items|] == items;
    var lastPos := planning[|planning| - 1];
    rowsLength := rowsLength + [lastPos.x + lastLen - c.origin.x];
    var bottomLine := lastPos.y - c.origin.y;
    return Ok(Rough(planning, Dim(rightSide, bottomLine), rowsLength));
  }

  /** A step that fails makes the whole pass fail with its error. */
  lemma RoughFailsAt(c: Constraint, items: seq<nat>, i: nat, p: Planning, e: LayoutError)
    requires i < |items| && Plan(c, items[..i]) == Ok(p) && Step(c, p, i, items[i]) == Err(e)
    ensures RoughLayout(c, items) == Err(e)
  {
    PlanNext(c, items, i);
    PlanFailsFast(c, items, i + 1);
  }

  /** One more item: the loop's next step. */
  lemma PlanNext(c: Constraint, items: seq<nat>, i: nat)
    requires i < |items| && Plan(c, items[..i]).Ok?
    ensures Plan(c, items[..i + 1]) == Step(c, Plan(c, items[..i]).value, i, items[i])
  {
    assert items[..i + 1][..i] == items[..i];
  }

  /** Once a prefix fails, the whole input fails with the same error. */
  lemma {:induction false} PlanFailsFast(c: Constraint, items: seq<nat>, k: nat)
    requires k <= |items| && Plan(c, items[..k]).Err?
    ensures Plan(c, items) == Plan(c, items[..k])
    decreases |items|
  {
    if k == |items| {
      assert items[..k] == items;
    } else {
      var init := items[..|items| - 1];
      assert init[..k] == items[..k];
      PlanFailsFast(c, init, k);
    }
  }

  /** An error names an item, every item before it was placed, and that item's step failed. */
  lemma {:induction false} PlanErrorAt(c: Constraint, items: seq<nat>)
    requires Plan(c, items).Err?
    ensures var i := Plan(c, items).error.index;
            && i < |items|
            && Plan(c, items[..i]).Ok?
            && Step(c, Plan(c, items[..i]).value, i, items[i]) == Plan(c, items)
    decreases |items|
  {
    var init := items[..|items| - 1];
    if Plan(c, init).Err? {
      PlanErrorAt(c, init);
      var i := Plan(c, init).error.index;
      assert init[..i] == items[..i];
    } else {
      assert items[..|items| - 1] == init;
    }
  }

  // ---------------------------------------------------------------------
  // The placement, stated on the output positions only.

  /** The gap before item `k`: none right after a row starter that was wrapped. */
  function GapBefore(ps: seq<Pos>, k: nat): nat
    requires 1 <= k <= |ps|
  {
    if k >= 2 && ps[k - 1].y != ps[k - 2].y then 0 else Sep
  }

  /** Where item `k` would go if it stayed on the row of item `k - 1`. */
  function Candidate(items: seq<nat>, ps: seq<Pos>, k: nat): nat
    requires 1 <= k <= |ps| && k <= |items|
  {
    ps[k - 1].x + items[k - 1] + GapBefore(ps, k)
  }

  predicate Fits(c: Constraint, x: nat, len: nat) {
    c.dim.width.Infinite? || x + len - c.origin.x <= c.dim.width.n
  }

  /** Item `k` follows item `k - 1` on its row when it fits, else it starts the next row at origin.x. */
  ghost predicate PlacedAfter(c: Constraint, items: seq<nat>, ps: seq<Pos>, k: nat)
    requires 1 <= k < |ps| <= |items|
  {
    var cand := Candidate(items, ps, k);
    if Fits(c, cand, items[k]) then ps[k] == Pos(cand, ps[k - 1].y)
    else ps[k] == Pos(c.origin.x, ps[k - 1].y + 1)
  }

  /** The greedy placement: the first item at the origin, every later one by `PlacedAfter`. */
  ghost predicate Greedy(c: Constraint, items: seq<nat>, ps: seq<Pos>) {
    && |ps| == |items|
    && (|ps| > 0 ==> ps[0] == c.origin)
    && (forall k :: 1 <= k < |ps| ==> PlacedAfter(c, items, ps, k))
  }

  /** The loop variables agree with the positions placed so far. */
  ghost predicate Tracks(c: Constraint, items: seq<nat>, p: Planning) {
    var ps := p.positions;
    var n := |ps|;
    && n == |items|
    && (n == 0 ==> p == Start)
    && (n > 0 ==> p.lastLen == items[n - 1] && p.startTheRow == (n >= 2 && ps[n - 1].y != ps[n - 2].y))
  }

  /** Every item ends within a finite width, and so does every recorded row. */
  ghost predicate WithinWidth(c: Constraint, items: seq<nat>, p: Planning)
    requires |p.positions| == |items|
  {
    c.dim.width.Value? ==>
      && (forall k :: 0 <= k < |items| ==> p.positions[k].x + items[k] - c.origin.x <= c.dim.width.n)
      && (forall r :: 0 <= r < |p.rowsLength| ==> p.rowsLength[r] <= c.dim.width.n)
  }

  /** Only the first row may lie at or beyond a finite height. */
  ghost predicate WithinHeight(c: Constraint, p: Planning) {
    |p.positions| > 0 && c.dim.height.Value? ==>
      Last(p.positions).y - c.origin.y < Max(c.dim.height.n, 1)
  }

  /** One length is recorded per finished row: every row above the last item's. */
  ghost predicate RowsCounted(c: Constraint, ps: seq<Pos>, rows: seq<nat>) {
    |ps| > 0 ==> |rows| == Last(ps).y - c.origin.y
  }

  /** Rows never go back up. */
  ghost predicate RowsAscend(ps: seq<Pos>) {
    && (forall k :: 1 <= k < |ps| ==> ps[k - 1].y <= ps[k].y)
    && (forall k :: 0 <= k < |ps| ==> ps[k].y <= Last(ps).y)
  }

  /** The length of a finished row is the right extent of its last item, minus origin.x. */
  ghost predicate RowEnds(c: Constraint, items: seq<nat>, ps: seq<Pos>, rows: seq<nat>)
    requires |ps| == |items| && AboveOrigin(c, ps)
  {
    forall k :: 0 <= k < |ps| - 1 && ps[k + 1].y != ps[k].y && ps[k].y - c.origin.y < |rows| ==>
      rows[ps[k].y - c.origin.y] == ps[k].x + items[k] - c.origin.x
  }

  /** Every item of a finished row ends within that row's length. */
  ghost predicate FinishedRows(c: Constraint, items: seq<nat>, ps: seq<Pos>, rows: seq<nat>)
    requires |ps| == |items| && AboveOrigin(c, ps)
  {
    forall k :: 0 <= k < |ps| && ps[k].y - c.origin.y < |rows| ==>
      ps[k].x + items[k] - c.origin.x <= rows[ps[k].y - c.origin.y]
  }

  /** Every item of the current row ends no further right than the last item placed. */
  ghost predicate CurrentRow(items: seq<nat>, ps: seq<Pos>)
    requires |ps| == |items|
  {
    forall k :: 0 <= k < |ps| && ps[k].y == Last(ps).y ==> ps[k].x + items[k] <= Last(ps).x + Last(items)
  }

  ghost predicate Measured(c: Constraint, items: seq<nat>, p: Planning)
    requires |p.positions| == |items| && AboveOrigin(c, p.positions)
  {
    && RowsCounted(c, p.positions, p.rowsLength)
    && RowsAscend(p.positions)
    && RowEnds(c, items, p.positions, p.rowsLength)
    && FinishedRows(c, items, p.positions, p.rowsLength)
    && CurrentRow(items, p.positions)
  }

  /** `right_side` is the widest finished row, absolute (origin.x added back), or 0. */
  ghost predicate RightSide(c: Constraint, p: Planning) {
    p.rightSide == if |p.rowsLength| == 0 then 0 else c.origin.x + MaxOf(p.rowsLength)
  }

  ghost predicate Inv(c: Constraint, items: seq<nat>, p: Planning) {
    && |p.positions| == |items|
    && AboveOrigin(c, p.positions)
    && Greedy(c, items, p.positions)
    && Tracks(c, items, p)
    && WithinWidth(c, items, p)
    && WithinHeight(c, p)
    && Measured(c, items, p)
    && RightSide(c, p)
  }

  lemma MaxOfAppend(s: seq<nat>, v: nat)
    ensures MaxOf(s + [v]) == Max(MaxOf(s), v)
  {
    assert (s + [v])[..|s|] == s;
  }

  /**
   * The two shapes a successful step after the first item can take: `q`
   * stays on the row of the last item, or wraps to the next row.
   */
  ghost predicate StepShape(c: Constraint, items: seq<nat>, p: Planning, len: nat, q: Planning)
    requires 0 < |items| == |p.positions|
  {
    var ps := p.positions;
    var n := |items|;
    var cand := Candidate(items, ps, n);
    && (c.dim.width.Value? ==> len <= c.dim.width.n)
    && ((Fits(c, cand, len) && q == Planning(ps + [Pos(cand, ps[n - 1].y)], p.rowsLength, len, false, p.rightSide))
        || (&& !Fits(c, cand, len)
            && (c.dim.height.Value? ==> ps[n - 1].y + 1 - c.origin.y < c.dim.height.n)
            && q == Planning(ps + [Pos(c.origin.x, ps[n - 1].y + 1)],
                             p.rowsLength + [ps[n - 1].x + items[n - 1] - c.origin.x],
                             len, true, Max(p.rightSide, ps[n - 1].x + items[n - 1]))))
  }

  lemma StepCases(c: Constraint, items: seq<nat>, p: Planning, len: nat)
    requires |items| > 0 && AboveOrigin(c, p.positions) && Tracks(c, items, p)
    requires Step(c, p, |items|, len).Ok?
    ensures StepShape(c, items, p, len, Step(c, p, |items|, len).value)
  {
  }

  lemma StepKeepsGreedy(c: Constraint, items: seq<nat>, p: Planning, len: nat, q: Planning)
    requires 0 < |items| == |p.positions|
    requires Greedy(c, items, p.positions) && StepShape(c, items, p, len, q)
    ensures Greedy(c, items + [len], q.positions)
    ensures Tracks(c, items + [len], q)
  {
    var n := |items|;
    var ps := p.positions;
    var ps' := q.positions;
    var items' := items + [len];
    assert forall k :: 0 <= k < n ==> ps'[k] == ps[k] && items'[k] == items[k];
    assert Candidate(items', ps', n) == Candidate(items, ps, n);
    assert PlacedAfter(c, items', ps', n);
    forall k | 1 <= k < n
      ensures PlacedAfter(c, items', ps', k)
    {
      assert PlacedAfter(c, items, ps, k);
      assert Candidate(items', ps', k) == Candidate(items, ps, k);
    }
  }

  lemma StepKeepsWidth(c: Constraint, items: seq<nat>, p: Planning, len: nat, q: Planning)
    requires 0 < |items| == |p.positions| && AboveOrigin(c, p.positions)
    requires WithinWidth(c, items, p) && StepShape(c, items, p, len, q)
    ensures |q.positions| == |items| + 1
    ensures WithinWidth(c, items + [len], q)
  {
    var n := |items|;
    var items' := items + [len];
    assert forall k :: 0 <= k < n ==> q.positions[k] == p.positions[k] && items'[k] == items[k];
  }

  lemma StepKeepsHeight(c: Constraint, items: seq<nat>, p: Planning, len: nat, q: Planning)
    requires 0 < |items| == |p.positions| && AboveOrigin(c, p.positions)
    requires WithinHeight(c, p) && StepShape(c, items, p, len, q)
    ensures WithinHeight(c, q)
  {
  }

  lemma StepKeepsRightSide(c: Constraint, items: seq<nat>, p: Planning, len: nat, q: Planning)
    requires 0 < |items| == |p.positions| && AboveOrigin(c, p.positions)
    requires RightSide(c, p) && StepShape(c, items, p, len, q)
    ensures RightSide(c, q)
  {
    var n := |items|;
    if q.rowsLength != p.rowsLength {
      MaxOfAppend(p.rowsLength, p.positions[n - 1].x + items[n - 1] - c.origin.x);
    }
  }

  lemma AppendAscends(ps: seq<Pos>, pos: Pos)
    requires |ps| > 0 && RowsAscend(ps) && Last(ps).y <= pos.y
    ensures RowsAscend(ps + [pos])
  {
    assert forall k :: 0 <= k < |ps| ==> (ps + [pos])[k] == ps[k];
  }

  lemma StayKeepsRows(c: Constraint, items: seq<nat>, ps: seq<Pos>, rows: seq<nat>, len: nat, x: nat)
    requires 0 < |items| == |ps| && AboveOrigin(c, ps) && AboveOrigin(c, ps + [Pos(x, Last(ps).y)])
    requires RowsCounted(c, ps, rows) && RowsAscend(ps)
    requires RowEnds(c, items, ps, rows) && FinishedRows(c, items, ps, rows) && CurrentRow(items, ps)
    requires x >= Last(ps).x + Last(items)
    ensures var ps' := ps + [Pos(x, Last(ps).y)];
            && RowEnds(c, items + [len], ps', rows)
            && FinishedRows(c, items + [len], ps', rows)
            && CurrentRow(items + [len], ps')
  {
    StayKeepsRowEnds(c, items, ps, rows, len, x);
    StayKeepsFinished(c, items, ps, rows, len, x);
    StayKeepsCurrent(items, ps, len, x);
  }

  lemma StayKeepsRowEnds(c: Constraint, items: seq<nat>, ps: seq<Pos>, rows: seq<nat>, len: nat, x: nat)
    requires 0 < |items| == |ps| && AboveOrigin(c, ps) && AboveOrigin(c, ps + [Pos(x, Last(ps).y)])
    requires RowsCounted(c, ps, rows) && RowEnds(c, items, ps, rows)
    ensures RowEnds(c, items + [len], ps + [Pos(x, Last(ps).y)], rows)
  {
    var n := |items|;
    var ps' := ps + [Pos(x, Last(ps).y)];
    var items' := items + [len];
    assert forall k :: 0 <= k < n ==> ps'[k] == ps[k] && items'[k] == items[k];
    assert ps'[n - 1].y == ps'[n].y;
  }

  lemma StayKeepsFinished(c: Constraint, items: seq<nat>, ps: seq<Pos>, rows: seq<nat>, len: nat, x: nat)
    requires 0 < |items| == |ps| && AboveOrigin(c, ps) && AboveOrigin(c, ps + [Pos(x, Last(ps).y)])
    requires RowsCounted(c, ps, rows) && FinishedRows(c, items, ps, rows)
    ensures FinishedRows(c, items + [len], ps + [Pos(x, Last(ps).y)], rows)
  {
    var n := |items|;
    var ps' := ps + [Pos(x, Last(ps).y)];
    var items' := items + [len];
    assert forall k :: 0 <= k < n ==> ps'[k] == ps[k] && items'[k] == items[k];
  }

  lemma StayKeepsCurrent(items: seq<nat>, ps: seq<Pos>, len: nat, x: nat)
    requires 0 < |items| == |ps| && CurrentRow(items, ps) && x >= Last(ps).x + Last(items)
    ensures CurrentRow(items + [len], ps + [Pos(x, Last(ps).y)])
  {
    var n := |items|;
    var ps' := ps + [Pos(x, Last(ps).y)];
    var items' := items + [len];
    assert forall k :: 0 <= k < n ==> ps'[k] == ps[k] && items'[k] == items[k];
  }

  lemma WrapKeepsRows(c: Constraint, items: seq<nat>, ps: seq<Pos>, rows: seq<nat>, len: nat)
    requires 0 < |items| == |ps| && AboveOrigin(c, ps) && AboveOrigin(c, ps + [Pos(c.origin.x, Last(ps).y + 1)])
    requires RowsCounted(c, ps, rows) && RowsAscend(ps)
    requires RowEnds(c, items, ps, rows) && FinishedRows(c, items, ps, rows) && CurrentRow(items, ps)
    ensures var ps' := ps + [Pos(c.origin.x, Last(ps).y + 1)];
            var rows' := rows + [Last(ps).x + Last(items) - c.origin.x];
            && RowEnds(c, items + [len], ps', rows')
            && FinishedRows(c, items + [len], ps', rows')
            && CurrentRow(items + [len], ps')
  {
    WrapKeepsRowEnds(c, items, ps, rows, len);
    WrapKeepsFinished(c, items, ps, rows, len);
    WrapKeepsCurrent(items, ps, len, c.origin.x);
  }

  lemma WrapKeepsRowEnds(c: Constraint, items: seq<nat>, ps: seq<Pos>, rows: seq<nat>, len: nat)
    requires 0 < |items| == |ps| && AboveOrigin(c, ps) && AboveOrigin(c, ps + [Pos(c.origin.x, Last(ps).y + 1)])
    requires RowsCounted(c, ps, rows) && RowsAscend(ps) && RowEnds(c, items, ps, rows)
    ensures RowEnds(c, items + [len], ps + [Pos(c.origin.x, Last(ps).y + 1)], rows + [Last(ps).x + Last(items) - c.origin.x])
  {
    var n := |items|;
    var ps' := ps + [Pos(c.origin.x, Last(ps).y + 1)];
    var rows' := rows + [Last(ps).x + Last(items) - c.origin.x];
    var items' := items + [len];
    assert forall k :: 0 <= k < n ==> ps'[k] == ps[k] && items'[k] == items[k];
    assert forall r :: 0 <= r < |rows| ==> rows'[r] == rows[r];
    forall k | 0 <= k < n && ps'[k + 1].y != ps'[k].y && ps'[k].y - c.origin.y < |rows'|
      ensures rows'[ps'[k].y - c.origin.y] == ps'[k].x + items'[k] - c.origin.x
    {
      if k < n - 1 {
        assert ps[k].y < ps[k + 1].y <= Last(ps).y;
      }
    }
  }

  lemma WrapKeepsFinished(c: Constraint, items: seq<nat>, ps: seq<Pos>, rows: seq<nat>, len: nat)
    requires 0 < |items| == |ps| && AboveOrigin(c, ps) && AboveOrigin(c, ps + [Pos(c.origin.x, Last(ps).y + 1)])
    requires RowsCounted(c, ps, rows) && RowsAscend(ps)
    requires RowEnds(c, items, ps, rows) && FinishedRows(c, items, ps, rows) && CurrentRow(items, ps)
    ensures FinishedRows(c, items + [len], ps + [Pos(c.origin.x, Last(ps).y + 1)], rows + [Last(ps).x + Last(items) - c.origin.x])
  {
    var n := |items|;
    var ps' := ps + [Pos(c.origin.x, Last(ps).y + 1)];
    var rows' := rows + [Last(ps).x + Last(items) - c.origin.x];
    var items' := items + [len];
    assert forall k :: 0 <= k < n ==> ps'[k] == ps[k] && items'[k] == items[k];
    assert forall r :: 0 <= r < |rows| ==> rows'[r] == rows[r];
    forall k | 0 <= k < n + 1 && ps'[k].y - c.origin.y < |rows'|
      ensures ps'[k].x + items'[k] - c.origin.x <= rows'[ps'[k].y - c.origin.y]
    {
      if ps[k].y - c.origin.y < |rows| {
        assert ps[k].x + items[k] - c.origin.x <= rows[ps[k].y - c.origin.y];
      } else {
        assert ps[k].y == Last(ps).y;
      }
    }
  }

  lemma WrapKeepsCurrent(items: seq<nat>, ps: seq<Pos>, len: nat, x: nat)
    requires 0 < |items| == |ps| && RowsAscend(ps)
    ensures CurrentRow(items + [len], ps + [Pos(x, Last(ps).y + 1)])
  {
    var n := |items|;
    var ps' := ps + [Pos(x, Last(ps).y + 1)];
    assert forall k :: 0 <= k < n ==> ps'[k] == ps[k];
  }

  lemma StepKeepsMeasured(c: Constraint, items: seq<nat>, p: Planning, len: nat, q: Planning)
    requires 0 < |items| == |p.positions| && AboveOrigin(c, p.positions) && AboveOrigin(c, q.positions)
    requires Measured(c, items, p) && StepShape(c, items, p, len, q)
    ensures |q.positions| == |items| + 1
    ensures Measured(c, items + [len], q)
  {
    var n := |items|;
    var ps := p.positions;
    var cand := Candidate(items, ps, n);
    if Fits(c, cand, len) {
      assert q.positions == ps + [Pos(cand, Last(ps).y)] && q.rowsLength == p.rowsLength;
      AppendAscends(ps, Pos(cand, Last(ps).y));
      StayKeepsRows(c, items, ps, p.rowsLength, len, cand);
      assert RowsCounted(c, q.positions, q.rowsLength);
    } else {
      assert q.positions == ps + [Pos(c.origin.x, Last(ps).y + 1)];
      assert q.rowsLength == p.rowsLength + [Last(ps).x + Last(items) - c.origin.x];
      AppendAscends(ps, Pos(c.origin.x, Last(ps).y + 1));
      WrapKeepsRows(c, items, ps, p.rowsLength, len);
      assert RowsCounted(c, q.positions, q.rowsLength);
    }
  }

  /** A step that succeeds keeps `Inv`. */
  lemma StepKeepsInv(c: Constraint, items: seq<nat>, p: Planning, len: nat)
    requires Inv(c, items, p)
    requires Step(c, p, |items|, len).Ok?
    ensures Inv(c, items + [len], Step(c, p, |items|, len).value)
  {
    var q := Step(c, p, |items|, len).value;
    if |items| == 0 {
      assert items + [len] == [len];
      assert q == Planning([c.origin], [], len, false, 0);
      FirstStepInv(c, len, q);
    } else {
      StepCases(c, items, p, len);
      StepKeepsGreedy(c, items, p, len, q);
      StepKeepsWidth(c, items, p, len, q);
      StepKeepsHeight(c, items, p, len, q);
      StepKeepsRightSide(c, items, p, len, q);
      StepKeepsMeasured(c, items, p, len, q);
    }
  }

  /** The first item, when it fits, starts a planning that satisfies `Inv`. */
  lemma FirstStepInv(c: Constraint, len: nat, q: Planning)
    requires c.dim.width.Value? ==> len <= c.dim.width.n
    requires q == Planning([c.origin], [], len, false, 0)
    ensures Inv(c, [len], q)
  {
    assert Greedy(c, [len], q.positions);
    assert Measured(c, [len], q);
  }

  /** Every successful prefix of the fold satisfies `Inv`. */
  lemma {:induction false} PlanInv(c: Constraint, items: seq<nat>)
    requires Plan(c, items).Ok?
    ensures Inv(c, items, Plan(c, items).value)
    decreases |items|
  {
    if |items| > 0 {
      var init := items[..|items| - 1];
      var last := items[|items| - 1];
      assert init + [last] == items;
      PlanInv(c, init);
      var p := Plan(c, init).value;
      assert Plan(c, items) == Step(c, p, |init|, last);
      StepKeepsInv(c, init, p, last);
    }
  }

  /** For an item after the first, the step's start is `Candidate` and its error is `Place`'s. */
  lemma StepPlace(c: Constraint, items: seq<nat>, p: Planning, len: nat)
    requires |items| > 0 && AboveOrigin(c, p.positions) && Tracks(c, items, p)
    ensures var place := Place(c, Candidate(items, p.positions, |items|), Last(p.positions).y, |items|, len);
            && (Step(c, p, |items|, len).Err? <==> place.Err?)
            && (place.Err? ==> Step(c, p, |items|, len).error == place.error)
  {
  }

  /** Item 0 is never refused for the height: at worst it does not fit the width. */
  lemma FirstStep(c: Constraint, len: nat)
    ensures Step(c, Start, 0, len).Err? <==> c.dim.width.Value? && len > c.dim.width.n
    ensures Step(c, Start, 0, len).Err? ==> Step(c, Start, 0, len).error == TooWide(0)
    ensures Step(c, Start, 0, len).Ok? ==> Step(c, Start, 0, len).value.positions == [c.origin]
  {
  }

  /** A row ends at its last item: the last item of all, or one followed by a wrap. */
  predicate RowEnd(ps: seq<Pos>, k: nat)
    requires k < |ps|
  {
    k == |ps| - 1 || ps[k + 1].y != ps[k].y
  }

  /**
   * Where `split_roughly` puts the items on success: the greedy placement,
   * every item within a finite width, and only the first row at or beyond a
   * finite height.
   */
  lemma RoughPlacement(c: Constraint, items: seq<nat>)
    requires RoughLayout(c, items).Ok?
    ensures var r := RoughLayout(c, items).value;
            var ps := r.positions;
            && Greedy(c, items, ps)
            && (|items| == 0 ==> r == Rough([], Dim(0, 0), []))
            && (c.dim.width.Value? ==>
                  forall k :: 0 <= k < |ps| ==> c.origin.x <= ps[k].x && ps[k].x + items[k] - c.origin.x <= c.dim.width.n)
            && (|items| > 0 && c.dim.height.Value? ==> Last(ps).y - c.origin.y < Max(c.dim.height.n, 1))
  {
    if |items| > 0 {
      PlanInv(c, items);
    }
  }

  /**
   * The row lengths `split_roughly` returns: one per row, each equal to the
   * extent of its row's last item, bounding every item of the row, and
   * within a finite width.
   */
  lemma RoughRows(c: Constraint, items: seq<nat>)
    requires RoughLayout(c, items).Ok? && |items| > 0
    ensures RowsLaidOut(c, items, RoughLayout(c, items).value.positions, RoughLayout(c, items).value.rowsLength)
  {
    var p := Plan(c, items).value;
    var lastPos := Last(p.positions);
    var r := Rough(p.positions, Dim(p.rightSide, lastPos.y - c.origin.y),
                   p.rowsLength + [lastPos.x + p.lastLen - c.origin.x]);
    assert RoughLayout(c, items) == Ok(r);
    PlannedRows(c, items, p);
  }

  /**
   * The rows of a placement `ps` of `items`: every item at or beyond the
   * origin and no lower than the last one; one length in `rows` per row,
   * bounding every item of the row and equal to the extent of its last
   * item; and, with a finite width, no row longer than it.
   */
  ghost predicate RowsLaidOut(c: Constraint, items: seq<nat>, ps: seq<Pos>, rows: seq<nat>) {
    && 0 < |ps| == |items|
    && SpreadFromOrigin(c, ps)
    && RowsCover(c, items, ps, rows)
    && RowsFitWidth(c, rows)
  }

  /** Every position at or beyond the origin and no lower than the last one. */
  ghost predicate SpreadFromOrigin(c: Constraint, ps: seq<Pos>)
    requires |ps| > 0
  {
    forall k :: 0 <= k < |ps| ==> c.origin.y <= ps[k].y <= Last(ps).y && c.origin.x <= ps[k].x
  }

  /** One length per row, bounding every item of the row and equal to the extent of its last item. */
  ghost predicate RowsCover(c: Constraint, items: seq<nat>, ps: seq<Pos>, rows: seq<nat>)
    requires 0 < |ps| == |items| && SpreadFromOrigin(c, ps)
  {
    && |rows| == Last(ps).y - c.origin.y + 1
    && (forall k :: 0 <= k < |ps| ==>
          ps[k].x + items[k] - c.origin.x <= rows[ps[k].y - c.origin.y])
    && (forall k :: 0 <= k < |ps| && RowEnd(ps, k) ==>
          rows[ps[k].y - c.origin.y] == ps[k].x + items[k] - c.origin.x)
  }

  /** With a finite width, no row is longer than it. */
  ghost predicate RowsFitWidth(c: Constraint, rows: seq<nat>) {
    c.dim.width.Value? ==> forall row :: 0 <= row < |rows| ==> rows[row] <= c.dim.width.n
  }

  /** `RoughRows` in terms of the fold, once its current row is closed. */
  lemma PlannedRows(c: Constraint, items: seq<nat>, p: Planning)
    requires Plan(c, items) == Ok(p) && |items| > 0
    ensures RowsLaidOut(c, items, p.positions, p.rowsLength + [Last(p.positions).x + p.lastLen - c.origin.x])
  {
    PlanInv(c, items);
    ClosedLaidOut(c, items, p, p.rowsLength + [Last(p.positions).x + p.lastLen - c.origin.x]);
  }

  /** Closing the current row of a planning that keeps `Inv` lays out every row. */
  lemma ClosedLaidOut(c: Constraint, items: seq<nat>, p: Planning, closed: seq<nat>)
    requires 0 < |items| == |p.positions| && AboveOrigin(c, p.positions) && p.lastLen == Last(items)
    requires Measured(c, items, p) && WithinWidth(c, items, p)
    requires closed == p.rowsLength + [Last(p.positions).x + p.lastLen - c.origin.x]
    ensures RowsLaidOut(c, items, p.positions, closed)
  {
    ClosedBelowOrigin(c, items, p);
    ClosedRows(c, items, p.positions, p.rowsLength, p.lastLen, closed);
    ClosedWithinWidth(c, items, p, closed);
  }

  /** The fold's positions stay right of and below the origin, above its last row. */
  lemma ClosedBelowOrigin(c: Constraint, items: seq<nat>, p: Planning)
    requires 0 < |items| == |p.positions| && AboveOrigin(c, p.positions)
    requires Measured(c, items, p)
    ensures SpreadFromOrigin(c, p.positions)
  {
  }

  /** Closing the last row of `p` keeps every row length within a finite width. */
  lemma ClosedWithinWidth(c: Constraint, items: seq<nat>, p: Planning, closed: seq<nat>)
    requires 0 < |items| == |p.positions| && p.lastLen == Last(items)
    requires WithinWidth(c, items, p)
    requires closed == p.rowsLength + [Last(p.positions).x + p.lastLen - c.origin.x]
    ensures RowsFitWidth(c, closed)
  {
    var ps := p.positions;
    if c.dim.width.Value? {
      assert ps[|ps| - 1].x + items[|ps| - 1] - c.origin.x <= c.dim.width.n;
      assert forall row :: 0 <= row < |p.rowsLength| ==> closed[row] == p.rowsLength[row];
    }
  }

  /** The finished rows' lengths, plus the current row's, describe every row. */
  lemma ClosedRows(c: Constraint, items: seq<nat>, ps: seq<Pos>, rows: seq<nat>, lastLen: nat, closed: seq<nat>)
    requires 0 < |items| == |ps| && AboveOrigin(c, ps) && lastLen == Last(items)
    requires RowsCounted(c, ps, rows) && RowsAscend(ps)
    requires RowEnds(c, items, ps, rows) && FinishedRows(c, items, ps, rows) && CurrentRow(items, ps)
    requires closed == rows + [Last(ps).x + lastLen - c.origin.x]
    requires SpreadFromOrigin(c, ps)
    ensures RowsCover(c, items, ps, closed)
  {
    var n := |items|;
    assert forall row :: 0 <= row < |rows| ==> closed[row] == rows[row];
    forall k | 0 <= k < n
      ensures ps[k].x + items[k] - c.origin.x <= closed[ps[k].y - c.origin.y]
    {
      if ps[k].y - c.origin.y < |rows| {
        assert ps[k].x + items[k] - c.origin.x <= rows[ps[k].y - c.origin.y];
      } else {
        assert ps[k].y == Last(ps).y;
      }
    }
    forall k | 0 <= k < n && RowEnd(ps, k)
      ensures closed[ps[k].y - c.origin.y] == ps[k].x + items[k] - c.origin.x
    {
      if k < n - 1 {
        assert ps[k].y < ps[k + 1].y <= Last(ps).y;
      }
    }
  }

  /**
   * The content size `split_roughly` returns: its height is the last row's
   * index (not the number of rows) and its width is the widest row except
   * the last one, measured from column 0 (origin.x included).
   */
  lemma RoughContentSize(c: Constraint, items: seq<nat>)
    requires RoughLayout(c, items).Ok? && |items| > 0
    ensures var r := RoughLayout(c, items).value;
            && |r.rowsLength| == r.contentSize.h + 1
            && r.contentSize.h == Last(r.positions).y - c.origin.y
            && r.contentSize.w == (if r.contentSize.h == 0 then 0
                                   else c.origin.x + MaxOf(r.rowsLength[..r.contentSize.h]))
  {
    PlanInv(c, items);
    var p := Plan(c, items).value;
    var rows := p.rowsLength + [Last(p.positions).x + p.lastLen - c.origin.x];
    assert rows[..|rows| - 1] == p.rowsLength;
  }

  /** A `TooWide` error names the first item wider than a finite width, once all before it are placed. */
  lemma TooWideExactly(c: Constraint, items: seq<nat>, i: nat)
    ensures RoughLayout(c, items) == Err(TooWide(i)) <==>
            && i < |items|
            && RoughLayout(c, items[..i]).Ok?
            && c.dim.width.Value?
            && items[i] > c.dim.width.n
  {
    if RoughLayout(c, items) == Err(TooWide(i)) {
      PlanErrorAt(c, items);
      if i > 0 {
        PlanInv(c, items[..i]);
        StepPlace(c, items[..i], Plan(c, items[..i]).value, items[i]);
      } else {
        FirstStep(c, items[0]);
      }
    }
    if && i < |items| && RoughLayout(c, items[..i]).Ok? && c.dim.width.Value? && items[i] > c.dim.width.n {
      PrefixFails(c, items, i);
    }
  }

  /**
   * A `TooManyWords` error names the first item that fits the width but not
   * the rest of its row, when the next row would be at or beyond a finite height.
   */
  lemma TooManyWordsExactly(c: Constraint, items: seq<nat>, i: nat)
    ensures RoughLayout(c, items) == Err(TooManyWords(i)) <==>
            && 0 < i < |items|
            && RoughLayout(c, items[..i]).Ok?
            && var ps := RoughLayout(c, items[..i]).value.positions;
               && c.dim.width.Value?
               && items[i] <= c.dim.width.n
               && !Fits(c, Candidate(items, ps, i), items[i])
               && c.dim.height.Value?
               && ps[i - 1].y + 1 - c.origin.y >= c.dim.height.n
  {
    if RoughLayout(c, items) == Err(TooManyWords(i)) {
      PlanErrorAt(c, items);
      if i > 0 {
        PlanInv(c, items[..i]);
        StepPlace(c, items[..i], Plan(c, items[..i]).value, items[i]);
        assert Candidate(items, Plan(c, items[..i]).value.positions, i)
            == Candidate(items[..i], Plan(c, items[..i]).value.positions, i);
      } else {
        FirstStep(c, items[0]);
      }
    }
    if && 0 < i < |items| && RoughLayout(c, items[..i]).Ok? {
      var ps := RoughLayout(c, items[..i]).value.positions;
      if && c.dim.width.Value? && items[i] <= c.dim.width.n && !Fits(c, Candidate(items, ps, i), items[i])
         && c.dim.height.Value? && ps[i - 1].y + 1 - c.origin.y >= c.dim.height.n
      {
        PlanInv(c, items[..i]);
        StepPlace(c, items[..i], Plan(c, items[..i]).value, items[i]);
        assert Candidate(items, ps, i) == Candidate(items[..i], ps, i);
        PrefixFails(c, items, i);
      }
    }
  }

  /** When item `i` is refused after a successful prefix, the whole input fails with that error. */
  lemma PrefixFails(c: Constraint, items: seq<nat>, i: nat)
    requires i < |items| && Plan(c, items[..i]).Ok?
    requires Step(c, Plan(c, items[..i]).value, i, items[i]).Err?
    ensures RoughLayout(c, items) == Step(c, Plan(c, items[..i]).value, i, items[i]).PropagateFailure()
  {
    assert items[..i + 1][..i] == items[..i];
    PlanFailsFast(c, items, i + 1);
  }
}
