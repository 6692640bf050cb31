/**
 * The value types of the flow layout in src/app/ui/mod.rs: alignments,
 * measurements, positions, dimensions, bounding boxes and the constraint a
 * layout request carries.  Coordinates are `nat`; the source's `u16`
 * wrap-around is not modelled.
 */
module UiGeometry {

  datatype HAlignment = AlignLeft | AlignMiddle | AlignRight

  datatype VAlignment = AlignTop | AlignCenter | AlignBottom

  datatype Alignment = Alignment(vert: VAlignment, hori: HAlignment)

  const Centered := Alignment(AlignCenter, AlignMiddle)
  const TopLeft := Alignment(AlignTop, AlignLeft)
  const BottomRight := Alignment(AlignBottom, AlignRight)

  /** A bound on one axis: a number of cells, or no bound at all. */
  datatype Measurement = Value(n: nat) | Infinite

  datatype AdaptativeDim = AdaptativeDim(width: Measurement, height: Measurement)

  datatype Pos = Pos(x: nat, y: nat)

  datatype Dim = Dim(w: nat, h: nat)

  datatype BoundingBox = BoundingBox(x: nat, y: nat, w: nat, h: nat) {

    function Position(): Pos {
      Pos(x, y)
    }

    function Dimensions(): Dim {
      Dim(w, h)
    }
  }

  /** Where the layout starts, how much room it has, and how rows are aligned in it. */
  datatype Constraint = Constraint(origin: Pos, dim: AdaptativeDim, align: Alignment)

  /** Both variants carry the index of the item that overflows. */
  datatype LayoutError = TooWide(index: nat) | TooManyWords(index: nat)

  /** `Pos::shift`: move by signed increments; the model requires the result to stay non-negative. */
  function Shift(p: Pos, incrx: int, incry: int): (r: Pos)
    requires p.x + incrx >= 0 && p.y + incry >= 0
    ensures r.x - p.x == incrx && r.y - p.y == incry
    ensures r.x + -incrx >= 0 && r.y + -incry >= 0
  {
    Pos(p.x + incrx, p.y + incry)
  }

  /** `Dim::shrink`: the source's `u16` subtraction must not underflow. */
  function Shrink(d: Dim, incrw: nat, incrh: nat): (r: Dim)
    requires incrw <= d.w && incrh <= d.h
    ensures r.w <= d.w && r.h <= d.h
    ensures Grow(r, incrw, incrh) == d
  {
    Dim(d.w - incrw, d.h - incrh)
  }

  /** `Dim::grow`. */
  function Grow(d: Dim, incrw: nat, incrh: nat): (r: Dim)
    ensures d.w <= r.w && d.h <= r.h
    ensures r.w - d.w == incrw && r.h - d.h == incrh
  {
    Dim(d.w + incrw, d.h + incrh)
  }

  /** `Into<AdaptativeDim> for Dim`: both axes become finite bounds. */
  function Bounded(d: Dim): (r: AdaptativeDim)
    ensures r.width.Value? && r.height.Value?
    ensures r.width.n == d.w && r.height.n == d.h
  {
    AdaptativeDim(Value(d.w), Value(d.h))
  }

  lemma ShiftRoundTrip(p: Pos, incrx: int, incry: int)
    requires p.x + incrx >= 0 && p.y + incry >= 0
    ensures Shift(Shift(p, incrx, incry), -incrx, -incry) == p
  {
  }

  lemma ShrinkUndoesGrow(d: Dim, incrw: nat, incrh: nat)
    ensures Shrink(Grow(d, incrw, incrh), incrw, incrh) == d
  {
  }

  function Max(a: nat, b: nat): nat {
    if a < b then b else a
  }

  function Min(a: nat, b: nat): nat {
    if a < b then a else b
  }

  function Last<T>(s: seq<T>): T
    requires |s| > 0
  {
    s[|s| - 1]
  }

  /** The largest element of `s`, or 0 when `s` is empty. */
  function MaxOf(s: seq<nat>): (m: nat)
    ensures forall k :: 0 <= k < |s| ==> s[k] <= m
    ensures |s| > 0 ==> exists k :: 0 <= k < |s| && s[k] == m
    ensures |s| == 0 ==> m == 0
  {
    if |s| == 0 then 0
    else
      var m := MaxOf(s[..|s| - 1]);
      assert forall k :: 0 <= k < |s| - 1 ==> s[..|s| - 1][k] == s[k];
      Max(m, s[|s| - 1])
  }
}
