/**
 * The row-measuring layout of src/training/positioning.rs, one of the three
 * flow layouts in the repository.  `split_rows` groups word lengths into rows
 * and records, per row, its length and the offset of each word in it;
 * `organise` turns the rows into window positions, row after row.
 *
 * `Fold` is the loop of `split_rows` as a fold (one `RowStep` per word),
 * `Rows` the whole pass and `SplitRows` the loop itself.  A row of words
 * `ws` is described independently by `Packed(ws, sep)`; `Packs` says that
 * rows are the packings of consecutive groups of the words, and the lemmas
 * state what `split_rows` and `organise` guarantee in those terms.
 */
module Positioning {
  import opened Results

  /** Both variants identify the word that overflows by its index. */
  datatype PositioningError = WordIsTooWide(index: nat) | TooManyToFit(index: nat)

  datatype Pos = Pos(x: nat, y: nat)

  /** `PosMovement::shifted_x`: only x changes, by `dx`. */
  function ShiftedX(p: Pos, dx: nat): (r: Pos)
    ensures r.x == p.x + dx && r.y == p.y
  {
    Pos(p.x + dx, p.y)
  }

  /** `PosMovement::shifted_y`: only y changes, by `dy`. */
  function ShiftedY(p: Pos, dy: nat): (r: Pos)
    ensures r.x == p.x && r.y == p.y + dy
  {
    Pos(p.x, p.y + dy)
  }

  datatype Window = Window(x: nat, y: nat, w: nat, h: nat)

  /** `Window::grown_uniform`: the source's `u16` subtraction must not underflow. */
  function GrownUniform(win: Window, incr: nat): (r: Window)
    requires incr <= win.x && incr <= win.y
    ensures r.x + incr == win.x && r.y + incr == win.y
    ensures r.x + r.w == win.x + win.w + incr && r.y + r.h == win.y + win.h + incr
  {
    Window(win.x - incr, win.y - incr, win.w + incr * 2, win.h + incr * 2)
  }

  /** The window's first column and first row. */
  function TopLeft(win: Window): (r: Pos)
    ensures r.x == win.x && r.y == win.y
  {
    Pos(win.x, win.y)
  }

  /** The window's last column (the one before its right edge) and first row. */
  function TopRight(win: Window): (r: Pos)
    requires win.x + win.w >= 1
    ensures r.x + 1 == win.x + win.w && r.y == win.y
  {
    Pos(win.x + win.w - 1, win.y)
  }

  /** The window's first column and last row (the one before its bottom edge). */
  function BottomLeft(win: Window): (r: Pos)
    requires win.y + win.h >= 1
    ensures r.x == win.x && r.y + 1 == win.y + win.h
  {
    Pos(win.x, win.y + win.h - 1)
  }

  /** The window's last column and last row. */
  function BottomRight(win: Window): (r: Pos)
    requires win.x + win.w >= 1 && win.y + win.h >= 1
    ensures r.x + 1 == win.x + win.w && r.y + 1 == win.y + win.h
  {
    Pos(win.x + win.w - 1, win.y + win.h - 1)
  }

  /** The corners of a non-empty window span exactly its width and height. */
  lemma CornersSpan(win: Window)
    requires win.w >= 1 && win.h >= 1
    ensures TopRight(win).x - TopLeft(win).x + 1 == win.w && TopRight(win).y == win.y
    ensures BottomLeft(win).y - TopLeft(win).y + 1 == win.h && BottomLeft(win).x == win.x
    ensures BottomRight(win) == Pos(TopRight(win).x, BottomLeft(win).y)
  {
  }

  /** Growing a window by `incr` moves every corner `incr` cells outwards on both axes. */
  lemma GrownCorners(win: Window, incr: nat)
    requires incr <= win.x && incr <= win.y && win.x + win.w >= 1 && win.y + win.h >= 1
    ensures var g := GrownUniform(win, incr);
            && TopLeft(g) == Pos(win.x - incr, win.y - incr)
            && TopRight(g) == Pos(TopRight(win).x + incr, win.y - incr)
            && BottomLeft(g) == Pos(win.x - incr, BottomLeft(win).y + incr)
            && BottomRight(g) == Pos(BottomRight(win).x + incr, BottomRight(win).y + incr)
  {
  }

  datatype HAlignment = AlignLeft

  datatype VAlignment = AlignTop

  datatype Constraint = Constraint(win: Window, infiniteHeight: bool, hAlign: HAlignment, vAlign: VAlignment)

  /** A row: its length so far and the offset of each of its words, in order. */
  datatype DetailMeasurement = DetailMeasurement(len: nat, sizes: seq<nat>)

  // ---------------------------------------------------------------------
  // What a row of words looks like, independently of the loop.

  /** The length of a row holding the words `ws`, with `sep` cells before every word but the first. */
  function RowLength(ws: seq<nat>, sep: nat): nat
    decreases |ws|
  {
    if |ws| == 0 then 0
    else RowLength(ws[..|ws| - 1], sep) + ws[|ws| - 1] + (if |ws| == 1 then 0 else sep)
  }

  /** The offset recorded for each word: the length of the row before it. */
  function Offsets(ws: seq<nat>, sep: nat): (r: seq<nat>)
    ensures |r| == |ws|
    decreases |ws|
  {
    if |ws| == 0 then []
    else Offsets(ws[..|ws| - 1], sep) + [RowLength(ws[..|ws| - 1], sep)]
  }

  /** The measurement of a row holding the words `ws`. */
  function Packed(ws: seq<nat>, sep: nat): DetailMeasurement {
    DetailMeasurement(RowLength(ws, sep), Offsets(ws, sep))
  }

  function Sum(ws: seq<nat>): nat
    decreases |ws|
  {
    if |ws| == 0 then 0 else Sum(ws[..|ws| - 1]) + ws[|ws| - 1]
  }

  /** A row's length is its words' lengths plus one `sep` between each two consecutive words. */
  lemma {:induction false} RowLengthIsSum(ws: seq<nat>, sep: nat)
    requires |ws| > 0
    ensures RowLength(ws, sep) == Sum(ws) + sep * (|ws| - 1)
    decreases |ws|
  {
    if |ws| > 1 {
      RowLengthIsSum(ws[..|ws| - 1], sep);
    }
  }

  /** A row of length 0 holds only empty words. */
  lemma {:induction false} EmptyRowHasEmptyWords(ws: seq<nat>, sep: nat)
    requires RowLength(ws, sep) == 0
    ensures forall k :: 0 <= k < |ws| ==> ws[k] == 0
    decreases |ws|
  {
    if |ws| > 0 {
      EmptyRowHasEmptyWords(ws[..|ws| - 1], sep);
      assert forall k :: 0 <= k < |ws| - 1 ==> ws[k] == ws[..|ws| - 1][k];
    }
  }

  /**
   * The offsets of a row: the first word at 0, the second flush against the
   * first (no `sep` before it), every later word `sep` cells after the end of
   * the previous one.  A row of one word ends where the word does; a row of
   * two or more words is recorded one `sep` longer than the end of its last
   * word.
   */
  lemma {:induction false} OffsetsSpacing(ws: seq<nat>, sep: nat)
    ensures var off := Offsets(ws, sep);
            && (|ws| >= 1 ==> off[0] == 0)
            && (|ws| >= 2 ==> off[1] == ws[0])
            && (forall t :: 1 <= t < |ws| - 1 ==> off[t + 1] == off[t] + ws[t] + sep)
            && (|ws| >= 1 ==> RowLength(ws, sep) == off[|ws| - 1] + ws[|ws| - 1] + (if |ws| == 1 then 0 else sep))
    decreases |ws|
  {
    if |ws| > 0 {
      var init := ws[..|ws| - 1];
      OffsetsSpacing(init, sep);
      var off := Offsets(ws, sep);
      assert off[..|ws| - 1] == Offsets(init, sep);
      forall t | 1 <= t < |ws| - 1
        ensures off[t + 1] == off[t] + ws[t] + sep
      {
        assert off[t] == Offsets(init, sep)[t] && ws[t] == init[t];
        if t == |ws| - 2 {
          assert off[t + 1] == RowLength(init, sep);
        } else {
          assert off[t + 1] == Offsets(init, sep)[t + 1];
        }
      }
      if |ws| >= 2 {
        assert off[0] == Offsets(init, sep)[0];
      }
    }
  }

  /** Every word of a row ends within the row's length. */
  lemma {:induction false} OffsetsWithinRow(ws: seq<nat>, sep: nat)
    ensures var off := Offsets(ws, sep);
            forall t :: 0 <= t < |ws| ==> off[t] + ws[t] <= RowLength(ws, sep)
    decreases |ws|
  {
    if |ws| > 0 {
      var init := ws[..|ws| - 1];
      OffsetsWithinRow(init, sep);
      var off := Offsets(ws, sep);
      forall t | 0 <= t < |ws|
        ensures off[t] + ws[t] <= RowLength(ws, sep)
      {
        if t < |ws| - 1 {
          assert off[t] == Offsets(init, sep)[t] && ws[t] == init[t];
        }
      }
    }
  }

  /**
   * `rows` are the packings of consecutive groups of `ws`, in order, and the
   * groups cover all of `ws`.
   */
  ghost predicate Packs(ws: seq<nat>, sep: nat, rows: seq<DetailMeasurement>)
    decreases |rows|
  {
    if |rows| == 0 then |ws| == 0
    else
      var n := |ws| - |rows[|rows| - 1].sizes|;
      && n >= 0
      && rows[|rows| - 1] == Packed(ws[n..], sep)
      && Packs(ws[..n], sep, rows[..|rows| - 1])
  }

  /** The number of words in `rows`. */
  function Count(rows: seq<DetailMeasurement>): nat
    decreases |rows|
  {
    if |rows| == 0 then 0 else Count(rows[..|rows| - 1]) + |rows[|rows| - 1].sizes|
  }

  lemma {:induction false} PacksCounts(ws: seq<nat>, sep: nat, rows: seq<DetailMeasurement>)
    requires Packs(ws, sep, rows)
    ensures Count(rows) == |ws|
    decreases |rows|
  {
    if |rows| > 0 {
      PacksCounts(ws[..|ws| - |rows[|rows| - 1].sizes|], sep, rows[..|rows| - 1]);
    }
  }

  // ---------------------------------------------------------------------
  // `split_rows`.

  /** The loop's variables after a prefix of the words: the rows pushed so far and the current row. */
  datatype Split = Split(rows: seq<DetailMeasurement>, measure: DetailMeasurement)

  const Start := Split([], DetailMeasurement(0, []))

  /** The length of row `m` once a word of length `len` is appended to it. */
  function Extended(m: DetailMeasurement, len: nat, sep: nat): nat {
    m.len + len + (if |m.sizes| == 0 then 0 else sep)
  }

  /** One iteration of the loop, for word `i` of length `len`. */
  function RowStep(c: Constraint, sep: nat, s: Split, i: nat, len: nat): (r: Result<Split, PositioningError>)
    ensures r.Ok? ==> r.value.measure.len < c.win.w && |r.value.measure.sizes| > 0
    ensures r.Ok? ==> r.value.rows == s.rows || r.value.rows == s.rows + [s.measure]
    ensures r.Err? ==> r.error.index == i
    ensures r == Err(WordIsTooWide(i)) <==> len >= c.win.w
  {
    if len >= c.win.w then Err(WordIsTooWide(i))
    else if Extended(s.measure, len, sep) < c.win.w then
      Ok(Split(s.rows, DetailMeasurement(Extended(s.measure, len, sep), s.measure.sizes + [s.measure.len])))
    else if |s.rows| + 1 >= c.win.h then Err(TooManyToFit(i))
    else Ok(Split(s.rows + [s.measure], DetailMeasurement(len, [0])))
  }

  /** The loop run over all of `words`; the first error stops it. */
  function Fold(c: Constraint, words: seq<nat>, sep: nat): (r: Result<Split, PositioningError>)
    ensures r.Ok? ==> r.value.measure.len < c.win.w || |words| == 0
    ensures r.Err? ==> r.error.index < |words|
    decreases |words|
  {
    if |words| == 0 then Ok(Start)
    else
      var s :- Fold(c, words[..|words| - 1], sep);
      RowStep(c, sep, s, |words| - 1, words[|words| - 1])
  }

  /** `split_rows` as a function of its inputs: the current row is kept only when its length is positive. */
  function Rows(c: Constraint, words: seq<nat>, sep: nat): (r: Result<seq<DetailMeasurement>, PositioningError>)
    ensures |words| == 0 ==> r == Ok([])
    ensures r.Err? ==> r.error.index < |words|
  {
    var s :- Fold(c, words, sep);
    Ok(if s.measure.len > 0 then s.rows + [s.measure] else s.rows)
  }

  method SplitRows(c: Constraint, words: seq<nat>, sep: nat) returns (r: Result<seq<DetailMeasurement>, PositioningError>)
    ensures r == Rows(c, words, sep)
  {
    var rows: seq<DetailMeasurement> := [];
    var measure := DetailMeasurement(0, []);
    for i := 0 to |words|
      invariant Fold(c, words[..i], sep) == Ok(Split(rows, measure))
    {
      assert words[..i + 1][..i] == words[..i];
      var len := words[i];
      if len >= c.win.w {
        FoldFailsFast(c, words, sep, i + 1);
        return Err(WordIsTooWide(i));
      }
      var newLen := measure.len + len + (if |measure.sizes| == 0 then 0 else sep);
      if newLen < c.win.w {
        measure := measure.(sizes := measure.sizes + [measure.len], len := newLen);
      } else {
        rows := rows + [measure];
        measure := DetailMeasurement(0, []);
        if |rows| >= c.win.h {
          FoldFailsFast(c, words, sep, i + 1);
          return Err(TooManyToFit(i));
        }
        assert measure.sizes + [measure.len] == [0];
        measure := measure.(sizes := measure.sizes + [measure.len], len := len);
      }
    }
    assert words[..|words|] == words;
    if measure.len > 0 {
      rows := rows + [measure];
    }
    return Ok(rows);
  }

  /** Once a prefix fails, the whole input fails with the same error. */
  lemma {:induction false} FoldFailsFast(c: Constraint, words: seq<nat>, sep: nat, k: nat)
    requires k <= |words| && Fold(c, words[..k], sep).Err?
    ensures Fold(c, words, sep) == Fold(c, words[..k], sep)
    decreases |words|
  {
    if k == |words| {
      assert words[..k] == words;
    } else {
      var init := words[..|words| - 1];
      assert init[..k] == words[..k];
      FoldFailsFast(c, init, sep, k);
    }
  }

  /** An error names a word, every word before it was handled, and that word's step failed. */
  lemma {:induction false} FoldErrorAt(c: Constraint, words: seq<nat>, sep: nat)
    requires Fold(c, words, sep).Err?
    ensures var i := Fold(c, words, sep).error.index;
            && i < |words|
            && Fold(c, words[..i], sep).Ok?
            && RowStep(c, sep, Fold(c, words[..i], sep).value, i, words[i]) == Fold(c, words, sep)
    decreases |words|
  {
    var init := words[..|words| - 1];
    if Fold(c, init, sep).Err? {
      FoldErrorAt(c, init, sep);
      var i := Fold(c, init, sep).error.index;
      assert init[..i] == words[..i];
    } else {
      assert words[..|words| - 1] == init;
    }
  }

  /** When word `i` is refused after a successful prefix, the whole input fails with that error. */
  lemma PrefixFails(c: Constraint, words: seq<nat>, sep: nat, i: nat)
    requires i < |words| && Fold(c, words[..i], sep).Ok?
    requires RowStep(c, sep, Fold(c, words[..i], sep).value, i, words[i]).Err?
    ensures Rows(c, words, sep) == RowStep(c, sep, Fold(c, words[..i], sep).value, i, words[i]).PropagateFailure()
  {
    assert words[..i + 1][..i] == words[..i];
    FoldFailsFast(c, words, sep, i + 1);
  }

  // ---------------------------------------------------------------------
  // What every prefix of the fold satisfies.

  /** The pushed rows and the current row are the packings of consecutive groups of `words`. */
  ghost predicate Grouped(words: seq<nat>, sep: nat, s: Split) {
    var n := |words| - |s.measure.sizes|;
    && n >= 0
    && s.measure == Packed(words[n..], sep)
    && Packs(words[..n], sep, s.rows)
  }

  /** Every word and every row is narrower than the window, and no row is empty of words. */
  ghost predicate Narrow(c: Constraint, words: seq<nat>, s: Split) {
    && (forall k :: 0 <= k < |words| ==> words[k] < c.win.w)
    && (forall j :: 0 <= j < |s.rows| ==> s.rows[j].len < c.win.w && |s.rows[j].sizes| > 0)
    && (|words| > 0 ==> s.measure.len < c.win.w && |s.measure.sizes| > 0)
  }

  /** Rows are pushed only while fewer than the window's height. */
  ghost predicate Low(c: Constraint, s: Split) {
    |s.rows| == 0 || |s.rows| < c.win.h
  }

  ghost predicate FoldInv(c: Constraint, words: seq<nat>, sep: nat, s: Split) {
    Grouped(words, sep, s) && Narrow(c, words, s) && Low(c, s)
  }

  lemma PackedAppend(ws: seq<nat>, sep: nat, len: nat)
    ensures Packed(ws + [len], sep)
         == DetailMeasurement(Extended(Packed(ws, sep), len, sep), Packed(ws, sep).sizes + [Packed(ws, sep).len])
  {
    assert (ws + [len])[..|ws|] == ws;
  }

  lemma StepKeepsGrouped(c: Constraint, words: seq<nat>, sep: nat, s: Split, len: nat)
    requires Grouped(words, sep, s)
    requires RowStep(c, sep, s, |words|, len).Ok?
    ensures Grouped(words + [len], sep, RowStep(c, sep, s, |words|, len).value)
  {
    var s' := RowStep(c, sep, s, |words|, len).value;
    if Extended(s.measure, len, sep) < c.win.w {
      assert s' == Split(s.rows, DetailMeasurement(Extended(s.measure, len, sep), s.measure.sizes + [s.measure.len]));
      GroupedExtend(words, sep, s, len);
    } else {
      assert s' == Split(s.rows + [s.measure], DetailMeasurement(len, [0]));
      GroupedWrap(words, sep, s, len);
    }
  }

  /** Appending a word to the current row keeps the grouping. */
  lemma GroupedExtend(words: seq<nat>, sep: nat, s: Split, len: nat)
    requires Grouped(words, sep, s)
    ensures Grouped(words + [len], sep,
                    Split(s.rows, DetailMeasurement(Extended(s.measure, len, sep), s.measure.sizes + [s.measure.len])))
  {
    var words' := words + [len];
    var n := |words| - |s.measure.sizes|;
    PackedAppend(words[n..], sep, len);
    assert words'[n..] == words[n..] + [len];
    assert words'[..n] == words[..n];
  }

  /** Closing the current row and opening one with a single word keeps the grouping. */
  lemma GroupedWrap(words: seq<nat>, sep: nat, s: Split, len: nat)
    requires Grouped(words, sep, s)
    ensures Grouped(words + [len], sep, Split(s.rows + [s.measure], DetailMeasurement(len, [0])))
  {
    var words' := words + [len];
    var rows' := s.rows + [s.measure];
    assert words'[|words|..] == [len];
    assert words'[..|words|] == words;
    assert rows'[..|rows'| - 1] == s.rows;
    assert Packed([len], sep) == DetailMeasurement(len, [0]) by {
      assert [len][..0] == [];
    }
  }

  lemma StepKeepsNarrow(c: Constraint, words: seq<nat>, sep: nat, s: Split, len: nat)
    requires Grouped(words, sep, s) && Narrow(c, words, s)
    requires RowStep(c, sep, s, |words|, len).Ok?
    ensures Narrow(c, words + [len], RowStep(c, sep, s, |words|, len).value)
  {
    var words' := words + [len];
    assert forall k :: 0 <= k < |words| ==> words'[k] == words[k];
    assert |words| == 0 ==> s.measure == Packed([], sep);
  }

  /** Every prefix of a successful fold satisfies `FoldInv`. */
  lemma {:induction false} FoldKeepsInv(c: Constraint, words: seq<nat>, sep: nat)
    requires Fold(c, words, sep).Ok?
    ensures FoldInv(c, words, sep, Fold(c, words, sep).value)
    decreases |words|
  {
    if |words| == 0 {
      assert Packed([], sep) == DetailMeasurement(0, []);
    } else {
      var init := words[..|words| - 1];
      var len := words[|words| - 1];
      FoldKeepsInv(c, init, sep);
      var s := Fold(c, init, sep).value;
      assert init + [len] == words;
      StepKeepsGrouped(c, init, sep, s, len);
      StepKeepsNarrow(c, init, sep, s, len);
    }
  }

  // ---------------------------------------------------------------------
  // What `split_rows` guarantees.

  /** The rows' words, concatenated, are `words` without a trailing group of empty words. */
  lemma RowsCoverWords(c: Constraint, words: seq<nat>, sep: nat)
    requires Rows(c, words, sep).Ok?
    ensures var rows := Rows(c, words, sep).value;
            && Count(rows) <= |words|
            && Packs(words[..Count(rows)], sep, rows)
            && (forall k :: Count(rows) <= k < |words| ==> words[k] == 0)
  {
    FoldKeepsInv(c, words, sep);
    var s := Fold(c, words, sep).value;
    assert Rows(c, words, sep).value == if s.measure.len > 0 then s.rows + [s.measure] else s.rows;
    SplitCoversWords(words, sep, s);
  }

  /** `RowsCoverWords` for the loop's final state `s`. */
  lemma SplitCoversWords(words: seq<nat>, sep: nat, s: Split)
    requires Grouped(words, sep, s)
    ensures var rows := if s.measure.len > 0 then s.rows + [s.measure] else s.rows;
            && Count(rows) <= |words|
            && Packs(words[..Count(rows)], sep, rows)
            && (forall k :: Count(rows) <= k < |words| ==> words[k] == 0)
  {
    var n := |words| - |s.measure.sizes|;
    if s.measure.len > 0 {
      var rows' := s.rows + [s.measure];
      assert rows'[..|rows'| - 1] == s.rows;
      assert words[..|words|] == words;
      PacksCounts(words, sep, rows');
    } else {
      PacksCounts(words[..n], sep, s.rows);
      EmptyRowHasEmptyWords(words[n..], sep);
      assert forall k :: n <= k < |words| ==> words[k] == words[n..][k - n];
    }
  }

  /** With no empty word, every word is in a row. */
  lemma RowsKeepEveryWord(c: Constraint, words: seq<nat>, sep: nat)
    requires Rows(c, words, sep).Ok?
    requires forall k :: 0 <= k < |words| ==> words[k] > 0
    ensures Count(Rows(c, words, sep).value) == |words|
    ensures Packs(words, sep, Rows(c, words, sep).value)
  {
    FoldKeepsInv(c, words, sep);
    var s := Fold(c, words, sep).value;
    if |words| > 0 {
      var n := |words| - |s.measure.sizes|;
      var last := words[n..];
      assert last[|last| - 1] == words[|words| - 1];
      assert s.measure.len > 0;
      var rows := s.rows + [s.measure];
      assert rows[..|rows| - 1] == s.rows;
      assert words[..|words|] == words;
      PacksCounts(words, sep, rows);
    }
  }

  /**
   * Every word and every row is strictly narrower than the window, every row
   * holds a word, and no more rows than the window's height are produced
   * (one row at most when the height is 0).  No input is refused for being
   * empty: no words give no rows.
   */
  lemma RowsFitWindow(c: Constraint, words: seq<nat>, sep: nat)
    requires Rows(c, words, sep).Ok?
    ensures var rows := Rows(c, words, sep).value;
            && (forall k :: 0 <= k < |words| ==> words[k] < c.win.w)
            && (forall j :: 0 <= j < |rows| ==> rows[j].len < c.win.w && |rows[j].sizes| > 0)
            && |rows| <= (if c.win.h == 0 then 1 else c.win.h)
            && (|words| == 0 ==> rows == [])
  {
    FoldKeepsInv(c, words, sep);
  }

  /** `WordIsTooWide(i)`: word `i` is at least as wide as the window, and every word before it was handled. */
  lemma WordIsTooWideExactly(c: Constraint, words: seq<nat>, sep: nat, i: nat)
    ensures Rows(c, words, sep) == Err(WordIsTooWide(i)) <==>
            i < |words| && Fold(c, words[..i], sep).Ok? && words[i] >= c.win.w
  {
    if Rows(c, words, sep) == Err(WordIsTooWide(i)) {
      FoldErrorAt(c, words, sep);
    }
    if i < |words| && Fold(c, words[..i], sep).Ok? && words[i] >= c.win.w {
      PrefixFails(c, words, sep, i);
    }
  }

  /**
   * `TooManyToFit(i)`: word `i` fits the window but not the current row, and
   * the rows already pushed, with the current one, reach the window's height.
   */
  lemma TooManyToFitExactly(c: Constraint, words: seq<nat>, sep: nat, i: nat)
    ensures Rows(c, words, sep) == Err(TooManyToFit(i)) <==>
            && i < |words|
            && Fold(c, words[..i], sep).Ok?
            && var s := Fold(c, words[..i], sep).value;
               && words[i] < c.win.w
               && Extended(s.measure, words[i], sep) >= c.win.w
               && |s.rows| + 1 >= c.win.h
  {
    if Rows(c, words, sep) == Err(TooManyToFit(i)) {
      FoldErrorAt(c, words, sep);
    }
    if i < |words| && Fold(c, words[..i], sep).Ok? {
      var s := Fold(c, words[..i], sep).value;
      if words[i] < c.win.w && Extended(s.measure, words[i], sep) >= c.win.w && |s.rows| + 1 >= c.win.h {
        PrefixFails(c, words, sep, i);
      }
    }
  }

  /** The loop never reads `infinite_height`: an unbounded height does not lift the row limit. */
  lemma {:induction false} FoldIgnoresInfiniteHeight(c: Constraint, words: seq<nat>, sep: nat, b: bool)
    ensures Fold(c, words, sep) == Fold(c.(infiniteHeight := b), words, sep)
    decreases |words|
  {
    if |words| > 0 {
      FoldIgnoresInfiniteHeight(c, words[..|words| - 1], sep, b);
    }
  }

  // ---------------------------------------------------------------------
  // `organise`.

  /** Cells between two words of a row (after the first two). */
  const Gap: nat := 1

  /** The positions of one row's words: its offsets from the window's left edge, on line `dy`. */
  function RowPositions(win: Window, dy: nat, m: DetailMeasurement): (r: seq<Pos>)
    ensures |r| == |m.sizes|
    ensures forall t :: 0 <= t < |m.sizes| ==> r[t] == Pos(win.x + m.sizes[t], win.y + dy)
  {
    seq(|m.sizes|, t requires 0 <= t < |m.sizes| => Pos(win.x + m.sizes[t], win.y + dy))
  }

  /** The positions of all rows' words, in row-major order. */
  function Placements(win: Window, rows: seq<DetailMeasurement>): (r: seq<Pos>)
    ensures |r| == Count(rows)
    decreases |rows|
  {
    if |rows| == 0 then []
    else Placements(win, rows[..|rows| - 1]) + RowPositions(win, |rows| - 1, rows[|rows| - 1])
  }

  /** `organise` as a function: the split with a gap of 1, then one position per recorded offset. */
  function Organisation(c: Constraint, words: seq<nat>): (r: Result<seq<Pos>, PositioningError>)
    ensures |words| == 0 ==> r == Ok([])
    ensures r.Ok? <==> Rows(c, words, Gap).Ok?
    ensures r.Ok? ==> |r.value| == Count(Rows(c, words, Gap).value)
    ensures r.Err? ==> r.error == Rows(c, words, Gap).error && r.error.index < |words|
  {
    var rows :- Rows(c, words, Gap);
    Ok(Placements(c.win, rows))
  }

  method Organise(c: Constraint, words: seq<nat>) returns (r: Result<seq<Pos>, PositioningError>)
    ensures r == Organisation(c, words)
  {
    var split := SplitRows(c, words, Gap);
    if split.Err? {
      return Err(split.error);
    }
    var rows := split.value;
    var planning: seq<Pos> := [];
    for dy := 0 to |rows|
      invariant planning == Placements(c.win, rows[..dy])
    {
      assert rows[..dy + 1][..dy] == rows[..dy];
      var measure := rows[dy];
      for t := 0 to |measure.sizes|
        invariant planning == Placements(c.win, rows[..dy]) + RowPositions(c.win, dy, measure)[..t]
      {
        assert RowPositions(c.win, dy, measure)[..t + 1] == RowPositions(c.win, dy, measure)[..t] + [Pos(c.win.x + measure.sizes[t], c.win.y + dy)];
        planning := planning + [Pos(c.win.x + measure.sizes[t], c.win.y + dy)];
      }
      assert RowPositions(c.win, dy, measure)[..|measure.sizes|] == RowPositions(c.win, dy, measure);
    }
    assert rows[..|rows|] == rows;
    return Ok(planning);
  }

  /** The first word of row `j` is word number `Count(rows[..j])`. */
  lemma {:induction false} PlacementsRowMajor(win: Window, rows: seq<DetailMeasurement>, j: nat, t: nat)
    requires j < |rows| && t < |rows[j].sizes|
    ensures Count(rows[..j]) + t < Count(rows)
    ensures Placements(win, rows)[Count(rows[..j]) + t] == Pos(win.x + rows[j].sizes[t], win.y + j)
    decreases |rows|
  {
    var init := rows[..|rows| - 1];
    if j < |rows| - 1 {
      assert init[..j] == rows[..j];
      PlacementsRowMajor(win, init, j, t);
    } else {
      assert rows[..j] == init;
    }
  }

  /**
   * `organise` on success: one position per word when no word is empty; the
   * word in slot `t` of row `j` is at x = window x + its offset and y =
   * window y + j, and ends within the window's width; no position is below
   * the window's last line (the first line when its height is 0).
   */
  lemma OrganisedInWindow(c: Constraint, words: seq<nat>, j: nat, t: nat)
    requires Organisation(c, words).Ok?
    requires j < |Rows(c, words, Gap).value| && t < |Rows(c, words, Gap).value[j].sizes|
    ensures var rows := Rows(c, words, Gap).value;
            var ps := Organisation(c, words).value;
            var k := Count(rows[..j]) + t;
            && k < |ps| && k < |words|
            && ps[k] == Pos(c.win.x + rows[j].sizes[t], c.win.y + j)
            && ps[k].x + words[k] < c.win.x + c.win.w
            && ps[k].y < c.win.y + (if c.win.h == 0 then 1 else c.win.h)
  {
    var rows := Rows(c, words, Gap).value;
    PlacementsRowMajor(c.win, rows, j, t);
    RowsCoverWords(c, words, Gap);
    RowsFitWindow(c, words, Gap);
    var n := Count(rows);
    PackedSlot(words[..n], Gap, rows, j, t);
    assert words[..n][Count(rows[..j]) + t] == words[Count(rows[..j]) + t];
  }

  /** In packed rows, slot `t` of row `j` holds word `Count(rows[..j]) + t`, which ends within the row. */
  lemma {:induction false} PackedSlot(ws: seq<nat>, sep: nat, rows: seq<DetailMeasurement>, j: nat, t: nat)
    requires Packs(ws, sep, rows) && j < |rows| && t < |rows[j].sizes|
    ensures Count(rows[..j]) + t < |ws|
    ensures rows[j].sizes[t] + ws[Count(rows[..j]) + t] <= rows[j].len
    decreases |rows|
  {
    var init := rows[..|rows| - 1];
    var n := |ws| - |rows[|rows| - 1].sizes|;
    PacksCounts(ws[..n], sep, init);
    if j < |rows| - 1 {
      assert init[..j] == rows[..j];
      PackedSlot(ws[..n], sep, init, j, t);
      PacksCounts(ws[..n], sep, init);
    } else {
      assert rows[..j] == init;
      OffsetsWithinRow(ws[n..], sep);
      assert ws[n..][t] == ws[n + t];
    }
  }

  /** With no empty word, `organise` gives one position per word. */
  lemma OnePositionPerWord(c: Constraint, words: seq<nat>)
    requires Organisation(c, words).Ok?
    requires forall k :: 0 <= k < |words| ==> words[k] > 0
    ensures |Organisation(c, words).value| == |words|
  {
    RowsKeepEveryWord(c, words, Gap);
  }

  /** Three words on one row: the second touches the first, the third is one cell after the second. */
  lemma FirstTwoAdjacent(c: Constraint)
    requires c.win == Window(0, 0, 20, 1)
    ensures Rows(c, [3, 4, 5], Gap) == Ok([DetailMeasurement(14, [0, 3, 8])])
    ensures Organisation(c, [3, 4, 5]) == Ok([Pos(0, 0), Pos(3, 0), Pos(8, 0)])
  {
    var s1 := Split([], DetailMeasurement(3, [0]));
    var s2 := Split([], DetailMeasurement(8, [0, 3]));
    var s3 := Split([], DetailMeasurement(14, [0, 3, 8]));
    assert RowStep(c, Gap, Start, 0, 3) == Ok(s1) by { assert [] + [0] == [0]; }
    assert RowStep(c, Gap, s1, 1, 4) == Ok(s2) by { assert [0] + [3] == [0, 3]; }
    assert RowStep(c, Gap, s2, 2, 5) == Ok(s3) by { assert [0, 3] + [8] == [0, 3, 8]; }
    assert [3, 4, 5][..2] == [3, 4];
    assert [3, 4][..1] == [3];
    assert [3][..0] == [];
    var rows := [DetailMeasurement(14, [0, 3, 8])];
    assert s3.rows + [s3.measure] == rows;
    assert rows[..0] == [];
    assert Placements(c.win, rows) == [Pos(0, 0), Pos(3, 0), Pos(8, 0)];
  }

  /** An empty last word that opens a row of its own is dropped with that row. */
  lemma TrailingEmptyWordDropped(c: Constraint)
    requires c.win == Window(0, 0, 4, 2)
    ensures Rows(c, [3, 0], Gap) == Ok([DetailMeasurement(3, [0])])
    ensures Organisation(c, [3, 0]) == Ok([Pos(0, 0)])
  {
    var rows := [DetailMeasurement(3, [0])];
    TrailingEmptyWordRows(c);
    assert rows[..0] == [];
    assert Placements(c.win, rows) == [Pos(0, 0)];
  }

  /** The split of `TrailingEmptyWordDropped`, one step at a time. */
  lemma TrailingEmptyWordRows(c: Constraint)
    requires c.win == Window(0, 0, 4, 2)
    ensures Rows(c, [3, 0], Gap) == Ok([DetailMeasurement(3, [0])])
  {
    var s1 := Split([], DetailMeasurement(3, [0]));
    var s2 := Split([DetailMeasurement(3, [0])], DetailMeasurement(0, [0]));
    assert RowStep(c, Gap, Start, 0, 3) == Ok(s1) by { assert [] + [0] == [0]; }
    assert RowStep(c, Gap, s1, 1, 0) == Ok(s2) by { assert [] + [s1.measure] == s2.rows; }
    assert [3, 0][..1] == [3];
    assert [3][..0] == [];
    assert Fold(c, [3], Gap) == Ok(s1);
    assert Fold(c, [3, 0], Gap) == Ok(s2);
  }
}
