# typing_training: flow layout and typing state, in Dafny

typing_training is a terminal typing tutor. It places the words of an
exercise in a frame of the terminal. Then it follows the learner key by key
and marks each key as passed or missed. This project models the two parts
of the program that decide something:

- **The flow layout.** Words are given by their lengths, in bytes, as the
  source computes them with `str::len`. They are placed left to right, one
  cell apart. A word that would cross a finite width starts a new row,
  unless that row would reach a finite height. The repository holds three
  versions of this layout, and each is modelled:
  - `src/app/ui/mod.rs` takes an origin, an
    adaptative dimension (each axis a value or infinite) and an alignment.
    The rough pass `split_roughly` (modules `UiRough`, `UiGeometry`) is
    followed by `align` (module `UiAlign`). `align` shifts the content
    vertically and shifts every row horizontally, in place. `layout`
    (module `UiLayout`) wraps `organize` and states its post-conditions.
    The unit tests of the file are the lemmas of `UiLayoutTests`.
  - `src/app/ui.rs` has origin (1, 1) and no alignment step (module
    `UiOneBased`). It is proved to place exactly as `split_roughly` does
    with origin (1, 1).
  - In `src/training/positioning.rs`, `split_rows` measures
    rows and the offset of each word in its row. `organise` turns the rows
    into window positions (module `Positioning`).
- **The typing state.** `TypingSequence` (`src/training/sequence.rs`,
  module `TrainingSequence`) and `Typing` (`src/typing.rs`, module
  `TypingState`) hold one key per character of a sentence and a cursor.
  Both are classes whose methods update their fields. Their keys and key
  statuses are in module `Keys`.

Each loop of the source is a method proved against a function. The function
folds one step per word (`Plan`/`Step`, `Fold`/`RowStep`). The lemmas state
what the layout guarantees in terms that do not mention the loop. These
terms are: the greedy placement (`UiRough.Greedy`), the packing of
consecutive words into rows (`Positioning.Packs`), and the row lengths,
margins and bounding box.

## Model

| member | source | states |
|---|---|---|
| UiGeometry.Shift | src/app/ui/mod.rs:97-102 | a shift moves a position by exactly the given increments, and the result can be shifted back by their opposites |
| UiGeometry.Shrink | src/app/ui/mod.rs:129-131 | shrinking never enlarges a dimension, and growing the result by the same amounts gives the dimension back |
| UiGeometry.Grow | src/app/ui/mod.rs:133-135 | growing adds exactly the given amounts to each axis and never shrinks a dimension |
| UiGeometry.Bounded | src/app/ui/mod.rs:138-145 | converting a dimension to an adaptative one bounds both axes by the dimension's own width and height |
| UiGeometry.ShiftRoundTrip | src/app/ui/mod.rs:97-102 | shifting a position by some increments and then by their opposites gives the position back |
| UiGeometry.ShrinkUndoesGrow | src/app/ui/mod.rs:129-135 | shrinking a dimension by the amounts it was grown by restores it |
| UiGeometry.MaxOf | src/app/ui/mod.rs:312 | the maximum of the row lengths bounds every row length and is one of them; an empty list gives 0 |
| UiRough.Place | src/app/ui/mod.rs:269-305 | an item either follows on its row at the start point or opens the next row at origin.x; it fails with TooWide(i) exactly when it is wider than a finite width, and otherwise can only fail with TooManyWords(i) |
| UiRough.Step | src/app/ui/mod.rs:257-316 | a successful step adds exactly one position and keeps every position at or right of and below the origin |
| UiRough.Plan | src/app/ui/mod.rs:257-317 | a successful rough pass has one position per item, none of them left of or above the origin |
| UiRough.RoughLayout | src/app/ui/mod.rs:247-327 | on success, `split_roughly` gives one position per item, none of them left of or above the origin |
| UiRough.SplitRoughly | src/app/ui/mod.rs:247-327 | the loop returns the same positions, content size and row lengths as the fold, or the same error |
| UiRough.PlanFailsFast | src/app/ui/mod.rs:271-295 | once a prefix of the items fails, every longer prefix fails with the same error |
| UiRough.PlanErrorAt | src/app/ui/mod.rs:271-295 | an error names an item index inside the input, and every earlier prefix succeeds |
| UiRough.RoughFailsAt | src/app/ui/mod.rs:271-295 | when item i's step fails after a successful prefix, the whole pass returns that step's error |
| UiRough.RoughPlacement | src/app/ui/mod.rs:257-317 | on success, every item follows the previous one on its row after a one-cell gap (no gap after an item that wrapped to a new row), or starts the next row at origin.x; every item lies within a finite width; the last row's index is less than a finite height H (less than 1 when H is 0); an empty input gives no positions |
| UiRough.RoughRows | src/app/ui/mod.rs:307-326 | there is one row length per row; each row length bounds every item of its row and equals the extent of its last item; with a finite width no row length exceeds it |
| UiRough.PlannedRows | src/app/ui/mod.rs:307-323 | after every successful prefix, the finished rows' lengths plus the current row's extent give one length per row, bounding its items, equal to its last item's extent and within a finite width |
| UiRough.ClosedRows | src/app/ui/mod.rs:319-323 | the closed rows' lengths plus the current row's length describe every row |
| UiRough.RoughContentSize | src/app/ui/mod.rs:312-326 | the content height is the last row's index, not the number of rows; the content width is origin.x plus the widest row other than the last, or 0 when there is a single row |
| UiRough.TooWideExactly | src/app/ui/mod.rs:269-273 | the pass fails with TooWide(i) if and only if item i is wider than a finite width and every item before it is placed |
| UiRough.TooManyWordsExactly | src/app/ui/mod.rs:289-295 | the pass fails with TooManyWords(i) if and only if item i fits the width but not the rest of its row, the next row would reach a finite height, and every item before it is placed |
| UiRough.PrefixFails | src/app/ui/mod.rs:271-295 | when a prefix succeeds and the next item fails, the whole input fails with that item's error |
| UiAlign.OffsetY | src/app/ui/mod.rs:204-214 | the vertical offset is 0 for an infinite height or top alignment; otherwise the content fits under it; bottom alignment is flush with the height; centre alignment leaves as much room below as above, or one more |
| UiAlign.OffsetX | src/app/ui/mod.rs:224-234 | the horizontal offset of a row is 0 for an infinite width or left alignment; otherwise the row fits; right alignment is flush with the width; middle alignment leaves as much room right as left, or one more |
| UiAlign.AlignAll | src/app/ui/mod.rs:219-242 | aligning keeps the number of positions and moves each one by its row's offsets |
| UiAlign.WidestRowIsMax | src/app/ui/mod.rs:222 | the frame width is the length of one item's row and bounds every item's row length |
| UiAlign.LeftmostIsMin | src/app/ui/mod.rs:236 | the frame x is the aligned x of one item and is at most every item's aligned x |
| UiAlign.AlignedBox | src/app/ui/mod.rs:197-245 | the frame `align` returns is empty at the origin for no items; otherwise it spans at least one row, starts at or below origin.y, and is no wider than a finite width |
| UiAlign.Align | src/app/ui/mod.rs:197-245 | the in-place loop leaves the array holding every rough position moved by the vertical offset and its row's horizontal offset, and returns the frame of the aligned positions |
| UiAlign.AlignItem | src/app/ui/mod.rs:220-241 | one iteration moves only item i, to its aligned position, and grows the frame to its row's length and to its aligned column |
| UiLayout.RoughIsAlignable | src/app/ui/mod.rs:191-195 | a successful rough pass meets what align expects: each row length is indexed by its item's row, and each row length is the extent of the row's last item |
| UiLayout.Organization | src/app/ui/mod.rs:191-195 | `organize` succeeds exactly when the rough pass does, passes its error on unchanged, and gives one position per item |
| UiLayout.Organize | src/app/ui/mod.rs:191-195 | the method returns the aligned positions and frame, or the rough pass's error |
| UiLayout.LayoutOf | src/app/ui/mod.rs:511-537 | an error is passed through unchanged; on success the frame starts at or after the origin, is no wider than a finite width and, for a finite height of at least one row, no higher than it |
| UiLayout.FrameWithinConstraint | src/app/ui/mod.rs:514-531 | the post-conditions that layout asserts hold for every successful organization, the height one when the height is at least one row |
| UiLayout.OrganizeEmpty | src/app/ui/mod.rs:198-200 | no items give no positions and an empty frame at the origin |
| UiLayout.AlignMovesRowsRigidly | src/app/ui/mod.rs:219-242 | every item moves down by the same amount and never to the left; items of one rough row keep their distances |
| UiLayout.AlignKeepsSpacing | src/app/ui/mod.rs:191-195 | after alignment, each item follows the previous one on its row at the rough pass's gap, or starts the next row down |
| UiLayout.HorizontalFit | src/app/ui/mod.rs:191-195 | with a finite width, every aligned item lies between origin.x and origin.x plus the width |
| UiLayout.RowStartsAtOriginX | src/app/ui/mod.rs:289-301 | every row starter of the rough pass is at origin.x, for all rows at once |
| UiLayout.RealignedRows | src/app/ui/mod.rs:219-242 | alignment keeps which items end a row and which start one |
| UiLayout.RightAlignmentFlushesRows | src/app/ui/mod.rs:227-230 | with right alignment and a finite width, every row ends exactly at the width |
| UiLayout.MiddleAlignmentBalancesRows | src/app/ui/mod.rs:231-233 | with middle alignment and a finite width, the free cells right of each row equal those left of it, or one more |
| UiLayout.VerticalPlacement | src/app/ui/mod.rs:204-214 | top alignment starts at origin.y; top and centre alignment keep every item inside a finite height of at least one row; centre alignment leaves as many free rows above as below, or one more; bottom alignment puts the last row at origin.y plus the height, one row past the area |
| UiLayout.MiddleOffsetGrows | src/app/ui/mod.rs:231-233 | a longer row centred in the same width ends no further left than a shorter one |
| UiLayout.FrameCovers | src/app/ui/mod.rs:215-242 | every aligned item ends within the frame's x plus the widest row |
| UiLayout.FrameContainsItems | src/app/ui/mod.rs:215-242 | the frame starts at the leftmost item and at the first row, spans every row, and contains every item |
| UiLayout.HeightZeroFrame | src/app/ui/mod.rs:525-530 | with a finite height of zero, any single item that fits the width is still placed, in a frame one row high, so the height bound that layout asserts fails for a height of zero |
| UiLayoutTests.WordOverflowFrameWidth | src/app/ui/mod.rs:333-348 | a 6-cell word in a 5-cell frame fails with TooWide(0) |
| UiLayoutTests.WordOverflowFrameHeight | src/app/ui/mod.rs:351-366 | words that need a second row in a one-row frame fail with TooManyWords at the first word of that row |
| UiLayoutTests.ThreeWords | src/app/ui/mod.rs:369-499 | three one-by-one steps of the rough pass give the whole pass's result |
| UiLayoutTests.OrganizedFrom | src/app/ui/mod.rs:191-195 | a known rough result determines the organization |
| UiLayoutTests.TopLeftKeeps | src/app/ui/mod.rs:204-234 | with top-left alignment, organization keeps the rough positions |
| UiLayoutTests.PerfectFit | src/app/ui/mod.rs:369-396 | words of lengths 5, 6 and 5 in a 12-by-2 frame land at (0,0), (6,0) and (0,1) |
| UiLayoutTests.KeepOnOneLine | src/app/ui/mod.rs:399-415 | with an infinite width the three words stay on row 0, at x 0, 6 and 13 |
| UiLayoutTests.AutoAddRows | src/app/ui/mod.rs:418-433 | with width 6 and an infinite height each word gets its own row |
| UiLayoutTests.CenterContent | src/app/ui/mod.rs:436-466 | centred in width 16 the words land at (2,0), (8,0) and (5,1) |
| UiLayoutTests.OppositeAlign | src/app/ui/mod.rs:469-499 | bottom-right aligned in width 14 the words land at (2,0), (8,0) and (9,1) |
| UiLayoutTests.TwoRows | src/app/ui/mod.rs:369-396 | the rough pass for the two-row tests gives two rows of known lengths |
| UiLayoutTests.OneRow | src/app/ui/mod.rs:399-415 | the rough pass for the one-row test gives one row of known length |
| UiLayoutTests.RowPerWord | src/app/ui/mod.rs:418-433 | the rough pass for the narrow test gives one row per word |
| UiOneBased.Place | src/app/ui.rs:126-162 | a word either follows on its row at the start point or opens the next row at column 1; it fails with TooWide(i) exactly when it is wider than a finite width, and otherwise can only fail with TooManyWords(i) |
| UiOneBased.Step | src/app/ui.rs:109-166 | a successful step adds exactly one position |
| UiOneBased.Plan | src/app/ui.rs:109-167 | a successful pass has one position per word |
| UiOneBased.Organization | src/app/ui.rs:102-170 | no words give no positions; on success there is one position per word |
| UiOneBased.Organize | src/app/ui.rs:102-170 | the loop returns the same positions as the fold, or the same error |
| UiOneBased.PlanFailsFast | src/app/ui.rs:126-161 | once a prefix fails, every longer prefix fails with the same error; derived from the same fact about `split_roughly` |
| UiOneBased.LayoutOf | src/app/ui.rs:260-264 | an error is passed through; on success the layout holds exactly the organized positions |
| UiOneBased.AgreesWithRough | src/app/ui.rs:102-170 | for every prefix, the pass succeeds or fails as `split_roughly` does with origin (1, 1), with the same error, positions, last length and row state |
| UiOneBased.OrganizationIsRough | src/app/ui.rs:102-170 | the organization equals `split_roughly`'s positions with origin (1, 1) |
| UiOneBased.OneBasedPlacement | src/app/ui.rs:109-166 | on success the first word is at (1,1); a word that wraps goes to column 1 of the next row; every word stays right of and below (1,1) and within a finite width |
| UiOneBased.TooWideExactly | src/app/ui.rs:126-130 | the pass fails with TooWide(i) if and only if word i is wider than a finite width and every word before it is placed |
| UiOneBased.TooManyWordsExactly | src/app/ui.rs:146-153 | the pass fails with TooManyWords(i) if and only if word i fits a finite width but not the rest of its row, the previous word is on row H of a finite height H or lower, and every word before it is placed |
| UiOneBased.PlanIgnoresAlign | src/app/ui.rs:102-170 | the alignment stored in the constraint does not change the pass |
| UiOneBased.AlignIrrelevant | src/app/ui.rs:102-170 | two constraints that differ only in alignment organize every input identically |
| UiOneBased.WordOverflowFrameWidth | src/app/ui.rs:176-189 | a 6-cell word in a 5-cell frame fails with TooWide(0) |
| UiOneBased.WordOverflowFrameHeight | src/app/ui.rs:192-205 | words that need a second row in a one-row frame fail with TooManyWords |
| UiOneBased.ThreeWords | src/app/ui.rs:208-250 | three one-by-one steps give the whole pass's result |
| UiOneBased.PerfectFit | src/app/ui.rs:208-220 | words of lengths 5, 6 and 5 in a 12-by-2 frame land at (1,1), (7,1) and (1,2) |
| UiOneBased.KeepOnOneLine | src/app/ui.rs:223-235 | with an infinite width the words stay on row 1, at x 1, 7 and 14 |
| UiOneBased.AutoAddRows | src/app/ui.rs:238-250 | with width 6 and an infinite height each word gets its own row |
| Positioning.ShiftedX | src/training/positioning.rs:22 | shifting along x changes only x, by the increment |
| Positioning.ShiftedY | src/training/positioning.rs:23 | shifting along y changes only y, by the increment |
| Positioning.GrownUniform | src/training/positioning.rs:34-41 | the grown window starts `incr` cells up and left of the original and ends `incr` cells right of and below it |
| Positioning.TopLeft | src/training/positioning.rs:52 | the top-left corner is the window's first column and first row |
| Positioning.TopRight | src/training/positioning.rs:53 | the top-right corner is the column just before the window's right edge, on its first row |
| Positioning.BottomLeft | src/training/positioning.rs:54 | the bottom-left corner is the window's first column, on the row just before its bottom edge |
| Positioning.BottomRight | src/training/positioning.rs:55 | the bottom-right corner is the column just before the right edge, on the row just before the bottom edge |
| Positioning.CornersSpan | src/training/positioning.rs:51-56 | the corners of a non-empty window are its first and last column and row |
| Positioning.GrownCorners | src/training/positioning.rs:33-42 | growing a window uniformly moves its top-left corner up-left by the increment and its bottom-right corner down-right by it |
| Positioning.Offsets | src/training/positioning.rs:89-104 | one offset per word of a row |
| Positioning.RowLengthIsSum | src/training/positioning.rs:89-104 | a row's length is the sum of its words plus one separator between each two consecutive words |
| Positioning.EmptyRowHasEmptyWords | src/training/positioning.rs:108-110 | a row of length 0 holds only empty words |
| Positioning.OffsetsSpacing | src/training/positioning.rs:89-104 | the first word is at offset 0 and the second right after it, with no separator; each later word is one separator after the end of the previous one; a row of one word ends where the word does, and a row of two or more words is recorded one separator longer than the end of its last word |
| Positioning.OffsetsWithinRow | src/training/positioning.rs:89-104 | every word of a row ends within the row's length |
| Positioning.PacksCounts | src/training/positioning.rs:79-113 | rows that pack some words hold one offset per word |
| Positioning.RowStep | src/training/positioning.rs:84-104 | a successful step leaves a non-empty current row narrower than the window and closes at most the previous current row; it fails with WordIsTooWide(i) exactly when the word is at least as wide as the window, and any error names word i |
| Positioning.Fold | src/training/positioning.rs:83-105 | after a successful pass over some words the current row is narrower than the window; an error names a word of the input |
| Positioning.Rows | src/training/positioning.rs:79-113 | no words give no rows; an error names a word of the input |
| Positioning.SplitRows | src/training/positioning.rs:79-113 | the loop returns the same rows as the fold, or the same error |
| Positioning.FoldFailsFast | src/training/positioning.rs:87-100 | once a prefix fails, every longer prefix fails with the same error |
| Positioning.FoldErrorAt | src/training/positioning.rs:87-100 | an error names a word index inside the input, and every earlier prefix succeeds |
| Positioning.PrefixFails | src/training/positioning.rs:87-100 | when a prefix succeeds and the next word fails, the whole input fails with that word's error |
| Positioning.FoldKeepsInv | src/training/positioning.rs:79-113 | after every successful prefix, the closed rows and the current row pack consecutive groups of the words; every word and every row is narrower than the window, and every row holds at least one word; no row is closed when the height is 0, and otherwise fewer rows are closed than the height |
| Positioning.RowsCoverWords | src/training/positioning.rs:79-113 | the rows pack a prefix of the words, and every dropped trailing word is empty |
| Positioning.RowsKeepEveryWord | src/training/positioning.rs:79-113 | when every word is non-empty, the rows pack all the words |
| Positioning.RowsFitWindow | src/training/positioning.rs:79-113 | every word and every row is narrower than the window; no row is empty; there are at most as many rows as the window's height (one if it is 0); no words give no rows |
| Positioning.WordIsTooWideExactly | src/training/positioning.rs:87 | the split fails with WordIsTooWide(i) if and only if word i is at least as wide as the window and every word before it is placed |
| Positioning.TooManyToFitExactly | src/training/positioning.rs:95-100 | the split fails with TooManyToFit(i) if and only if word i is narrower than the window but does not fit the rest of its row, the closed rows, with the current one, already reach the window's height, and every word before it is placed |
| Positioning.FoldIgnoresInfiniteHeight | src/training/positioning.rs:95-100 | the infinite-height flag never changes the split; the window's height limits the rows even when the flag is set |
| Positioning.RowPositions | src/training/positioning.rs:127-145 | one position per offset of the row, at the window's x plus the offset, on the row's line |
| Positioning.Placements | src/training/positioning.rs:122-148 | one position per recorded offset of all rows |
| Positioning.Organisation | src/training/positioning.rs:122-148 | `organise` succeeds exactly when the split does, passes its error on, gives one position per recorded offset, and gives no positions for no words |
| Positioning.Organise | src/training/positioning.rs:122-148 | the nested loops return the positions of the function, or the split's error |
| Positioning.PlacementsRowMajor | src/training/positioning.rs:122-148 | the position of word t of row j comes after all words of earlier rows, at that row's line and the word's offset |
| Positioning.OrganisedInWindow | src/training/positioning.rs:122-148 | every word is at the window's x plus its offset, on its row's line; it ends left of the window's right edge and lies above its bottom edge (or on the window's first line when its height is 0) |
| Positioning.PackedSlot | src/training/positioning.rs:122-148 | in packed rows, word t of row j is a specific word of the input, at the offset computed for it |
| Positioning.OnePositionPerWord | src/training/positioning.rs:122-148 | when every word is non-empty, organise gives one position per word |
| Positioning.FirstTwoAdjacent | src/training/positioning.rs:89-104 | in a window 20 wide, words of lengths 3, 4 and 5 form one row of length 14 with offsets 0, 3 and 8 |
| Positioning.TrailingEmptyWordDropped | src/training/positioning.rs:108-110 | an empty last word on a row of its own gets no row and no position |
| TrainingSequence.TypingSequence.constructor | src/training/sequence.rs:21-25 | a new sequence holds one unvalidated key per character of the sentence, with the cursor on the first |
| TrainingSequence.TypingSequence.Reset | src/training/sequence.rs:27-34 | resetting replaces the keys by fresh ones for the new sentence and puts the cursor first |
| TrainingSequence.TypingSequence.CurrRef | src/training/sequence.rs:36-38 | there is a current key exactly when the cursor is before the end, and it is the key under the cursor |
| TrainingSequence.TypingSequence.CurrRefMut | src/training/sequence.rs:48-50 | the mutable reference exists exactly when the cursor is before the end, and refers to the key under it |
| TrainingSequence.TypingSequence.IsCompleted | src/training/sequence.rs:44-46 | the sequence is completed exactly when there is no current key; otherwise the cursor is on a key |
| TrainingSequence.TypingSequence.Forward | src/training/sequence.rs:40-42 | the cursor moves one key on and the keys do not change |
| TrainingSequence.TypingSequence.Miss | src/training/sequence.rs:52-54 | the key under the cursor becomes missed, every other key is unchanged and the cursor stays |
| TrainingSequence.TypingSequence.Pass | src/training/sequence.rs:56-58 | the key under the cursor becomes passed, every other key is unchanged and the cursor stays |
| TrainingSequence.NoCurrentIffCompleted | src/training/sequence.rs:36-50 | there is no current key exactly when the sequence is completed |
| TrainingSequence.EmptySentenceCompleted | src/training/sequence.rs:21-46 | a sequence made from an empty sentence is completed from the start |
| TypingState.Utf16Len | src/typing.rs:42-44 | a character takes one or two UTF-16 code units |
| TypingState.Advance | src/typing.rs:42-44 | forward moves the cursor one or two keys on |
| TypingState.Typing.constructor | src/typing.rs:22-26 | a new state holds the sentence, one unvalidated key per character, and the cursor on the first |
| TypingState.Typing.Reset | src/typing.rs:28-36 | resetting keeps the new sentence's text, makes fresh keys for it and puts the cursor first |
| TypingState.Typing.CurrRef | src/typing.rs:38-40 | there is a current key exactly when the cursor is before the end, and it is the key under the cursor |
| TypingState.Typing.CurrRefMut | src/typing.rs:46-48 | the mutable reference exists exactly when the cursor is before the end, and refers to the key under it |
| TypingState.Typing.Forward | src/typing.rs:42-44 | the cursor moves by the UTF-16 length of the character under it; keys and text do not change |
| TypingState.Typing.Miss | src/typing.rs:50-52 | the key under the cursor becomes missed, every other key is unchanged, and cursor and text stay |
| TypingState.Typing.Pass | src/typing.rs:54-56 | the key under the cursor becomes passed, every other key is unchanged, and cursor and text stay |
| TypingState.AdvanceInPlane | src/typing.rs:42-44 | on a character of the Basic Multilingual Plane the cursor moves exactly one key on |
| TypingState.AdvanceOutsidePlane | src/typing.rs:42-44 | on a character outside the Basic Multilingual Plane the cursor moves exactly two keys on, so the next key never comes under it |
| TypingState.AstralCharSkipsNextKey | src/typing.rs:42-44 | on "a", U+1F600, "b" the cursor goes from the first key to the second and then past the end, so the third key is never under the cursor |

## Left out

- Words are given by their byte lengths (`seq<nat>`), as the source computes them with `str::len`. The `Bucket` and word types, exercise loading and the text of the words are not part of this model.
- The layout reserves a word's byte length, not its display width. A word with non-ASCII characters is reserved more cells than it shows; the model keeps the byte lengths and does not relate them to display widths.
- Coordinates and lengths are unbounded naturals. The source's `u16` and `usize` arithmetic can overflow or underflow, and no wrap-around is modelled.
- UiGeometry.Shift: the `i16` increments and the casts back to `u16` are replaced by a precondition that the result is non-negative.
- UiGeometry.Shrink and Positioning.GrownUniform: a subtraction that would underflow in `u16` is excluded by a precondition.
- Positioning.TopRight, Positioning.BottomRight and Positioning.BottomLeft: a corner of an empty window at column or row 0 underflows in the source; the model requires the subtraction to stay non-negative.
- UiAlign.Align: the frame x starts at `u16::MAX` in the source; the model takes the first item's aligned x as the starting value, which gives the same minimum for every `u16` coordinate.
- UiLayout.LayoutOf: the frame height bound of `layout` is stated only for heights of at least one row, because for a height of zero it does not hold (HeightZeroFrame). The source checks these bounds with `debug_assert!`, which aborts in a debug build.
- UiLayout.VerticalPlacement: bottom alignment is modelled as written, so the last row lands one row past the area, because the content height is the last row's index.
- The `debug_assert!`s of `layout` are the ensures of UiLayout.LayoutOf, and those of `align` are its precondition `UiAlign.AlignInput`. Their `format!` messages, and the error message strings, are not modelled. `organise` returns a formatted `String` error in the source and a `PositioningError` here, and the word-too-wide error carries the word's index instead of its text.
- `curr_ref_mut` returns a mutable reference in the source. Here it is the index of the key it refers to, and `Miss` and `Pass` update the key at that index.
- TrainingSequence.TypingSequence.Miss, TrainingSequence.TypingSequence.Pass, TypingState.Typing.Miss, TypingState.Typing.Pass and TypingState.Typing.Forward: the source unwraps the current key and panics when there is none; the model requires a current key.
- TrainingSequence.TypingSequence.Forward: the `usize` increment can overflow in the source; the model's cursor is unbounded.
- `term_dim`, the `termion::cursor::Goto` and `Display` conversions, the drawing code and the game loops do terminal I/O and are not part of this model.
- The key module is shared. Both typing states use the same `Key` and `Status` types, declared once in module `Keys`.
- The layout in `src/app/ui.rs` declares its own `Pos`, `Measurement`, `AdaptativeDim`, `Alignment` and `LayoutError` types. They are identical to those of `src/app/ui/mod.rs`, so module `UiOneBased` reuses `UiGeometry`'s and keeps only its own `Constraint`.
