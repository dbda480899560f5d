# Libre Sudoku: board layout rules and games-history settings, in Dafny

This project models two small pieces of logic of the Libre Sudoku Android
app and proves properties of them.

1. **The board widget's decisions** (`Board.kt`). These are the integer and
   boolean choices that sit under the drawing code, stated in cell and
   sub-slot indices rather than pixels:
   - the block sizes `vertThick = ⌊√size⌋` and `horThick = ⌈√size⌉`;
   - which separator lines are thick;
   - which cells get the identical-value highlight;
   - which text and which paint each digit gets;
   - whether notes are drawn at all, and the sub-slot of each note
     (the `getNoteRowNumber` / `getNoteColumnNumber` tables).
   Module `BoardLayout` (`board_layout.dfy`) holds the integer layout.
   Module `BoardDraw` (`board_draw.dfy`) holds what one frame draws.
2. **The games-history view model** (`GamesHistoryViewModel.kt`).
   - Module `HistoryPipeline` (`history_pipeline.dfy`) holds the pure
     filter-and-sort pipeline `applySortAndFilter` and its three helpers.
   - Module `GamesHistory` (`history_view_model.dfy`) holds the class
     `HistoryViewModel`. Its four fields are changed in place by
     `selectFilter` (both overloads), `switchSortType` and
     `selectSortEntry`.

Notes on how the model reads the code:

- **Swapped note-table names.** `getNoteRowNumber` positions a note along
  **x**: it multiplies `cellSizeDivWidth`, which is `cellSize / ⌈√size⌉`
  (Board.kt:395). `getNoteColumnNumber` positions it along **y**: it
  multiplies `cellSizeDivHeight`, which is `cellSize / ⌊√size⌋`
  (Board.kt:399). The model keeps the source names. `BoardDraw.NoteDraw`
  stores them as `slotX` and `slotY`.
- **Reference definition of the note tables.** For sizes 6, 9 and 12, the
  tables equal `(v-1) mod horThick` (x) and `(v-1) div horThick` (y). So
  candidates fill a cell row by row, `horThick` to a row.
- **Line orientation.** The loop commented "horizontal line" draws lines at
  `x = cellSize·i`, which are vertical lines. The other loop draws lines at
  `y = cellSize·i`. The model names the two loops by axis: `AtX` and `AtY`.
- **Remembered drawing state and the guard on lines at y.** `cellSize`,
  `vertThick` and `horThick` are remembered values (Board.kt:88, 101-102).
  They are refreshed by `LaunchedEffect(size)` (Board.kt:104-110), which
  runs only after a frame has been drawn with the new size.
  `BoardLayout.DrawSeparators` therefore takes them as inputs. A line at
  `y = cellSize·i` is drawn only when `maxWidth >= cellSize·i`; the lines
  at x have no guard.
  - With fresh values, the guard skips nothing
    (`BoardLayout.FreshStateDrawsAll`).
  - With stale values, lines are skipped. When a 600-pixel board changes
    from size 6 to size 9, the frame before the refresh still uses
    `cellSize` 100. It draws all eight lines at x but only the lines at y
    for 1..6 (`BoardLayout.StaleCellSizeSkipsLines`).
- **Identical-value highlighting ignores the selection's position.** It
  compares every cell's value with `selectedCell.value` and skips 0. The
  "no selection" cell `Cell(-1, -1)` highlights nothing only because its
  value is 0.
- **Draw positions come from the cell.** Highlights and digits are placed
  at the cell's own `row`/`col` fields, not at the loop indices. The
  "iff" lemmas therefore assume a well-formed board, where
  `board[i][j]` sits at `(i, j)`.
- **Non-positive sizes.** For a negative size, `sqrt` gives NaN, and NaN
  converts to the integer 0. The model's square roots return 0 for every
  size `<= 0`.
- **`list - x`** in Kotlin removes only the first occurrence of `x`. The
  filter lists never hold duplicates (`HistoryViewModel.Valid`). So one
  toggle always flips membership.
- **Stable sorts.** Kotlin's `sortedBy` and `sortedByDescending` are stable.
  The model's insertion sort is proved stable as well (`SortStable`).
  Sorted, permutation and stable together fix the output uniquely.

## Model

| member | source | states |
|---|---|---|
| `BoardLayout.FloorSqrt` | app/src/main/java/com/kaajjo/libresudoku/ui/components/board/Board.kt:108 | r·r <= n < (r+1)·(r+1) for n >= 0; 0 for n <= 0 (NaN converts to 0) |
| `BoardLayout.CeilSqrt` | app/src/main/java/com/kaajjo/libresudoku/ui/components/board/Board.kt:109 | for n > 0, r >= 1 and (r-1)² < n <= r²; 0 for n <= 0 |
| `BoardLayout.VertThick` | app/src/main/java/com/kaajjo/libresudoku/ui/components/board/Board.kt:101 | vertThick is at least 1 for a positive size and is its integer square root |
| `BoardLayout.HorThick` | app/src/main/java/com/kaajjo/libresudoku/ui/components/board/Board.kt:102 | horThick is at least 1 for a positive size and is the ceiling of its square root |
| `BoardLayout.Separator` | app/src/main/java/com/kaajjo/libresudoku/ui/components/board/Board.kt:331-346 | line i along an axis keeps its axis and index, and for 1 <= i < size it is thick iff i is in ThickLines, i.e. i mod that axis's block size is 0 |
| `BoardLayout.LinesAtYBelow` | app/src/main/java/com/kaajjo/libresudoku/ui/components/board/Board.kt:344-359 | the lines at y drawn before index i all lie at indices in [1, i), in strictly increasing order |
| `BoardLayout.LineAtYDrawnIff` | app/src/main/java/com/kaajjo/libresudoku/ui/components/board/Board.kt:345-347 | a line at y is drawn iff its index is in range and passes the guard maxWidth >= cellSize·index, and it is thick iff its index is a multiple of the remembered vertThick |
| `BoardLayout.DrawSeparators` | app/src/main/java/com/kaajjo/libresudoku/ui/components/board/Board.kt:331-359 | with the remembered cellSize, horThick and vertThick as inputs, the two loops emit every line at x in index order, thick by horThick, then exactly the lines at y that pass the guard, in index order |
| `BoardLayout.DrawLinesAtX` | app/src/main/java/com/kaajjo/libresudoku/ui/components/board/Board.kt:331-343 | the first loop emits exactly LinesAtX: a line at x for every i in [1, size), in order, thick iff i mod the remembered horThick is 0 |
| `BoardLayout.DrawLinesAtY` | app/src/main/java/com/kaajjo/libresudoku/ui/components/board/Board.kt:345-359 | the second loop emits exactly the lines at y that pass the guard, in order, thick iff i mod the remembered vertThick is 0 |
| `BoardLayout.HorizontalGuardHolds` | app/src/main/java/com/kaajjo/libresudoku/ui/components/board/Board.kt:347 | for a fresh cell size maxWidth/size, the guard maxWidth >= cellSize·i holds for every 1 <= i < size |
| `BoardLayout.FreshLinesAtY` | app/src/main/java/com/kaajjo/libresudoku/ui/components/board/Board.kt:344-359 | with a fresh cell size and a fresh vertThick, the lines at y drawn before index i are exactly the separators 1..i-1 |
| `BoardLayout.FreshStateDrawsAll` | app/src/main/java/com/kaajjo/libresudoku/ui/components/board/Board.kt:101-110 | once LaunchedEffect(size) has stored the values for the current size, the loops draw every separator along x and every separator along y |
| `BoardLayout.StaleCellSizeSkipsLines` | app/src/main/java/com/kaajjo/libresudoku/ui/components/board/Board.kt:88-110 | in the frame after a 600-pixel board changes from size 6 to size 9, the lines at x for 1..8 are drawn, but no line at y beyond 6 is, while line 6 is |
| `BoardLayout.ThickLinesOfNine` | app/src/main/java/com/kaajjo/libresudoku/ui/components/board/Board.kt:331-359 | for size 9 the thick lines are exactly {3, 6} on both axes |
| `BoardLayout.ThickLinesOfSix` | app/src/main/java/com/kaajjo/libresudoku/ui/components/board/Board.kt:101-109 | for size 6 the lines at x are thick at {3} and at y at {2, 4}: 2-row by 3-column blocks |
| `BoardLayout.ThickLinesOfTwelve` | app/src/main/java/com/kaajjo/libresudoku/ui/components/board/Board.kt:101-109 | for size 12 the lines at x are thick at {4, 8} and at y at {3, 6, 9}: 3-row by 4-column blocks |
| `BoardLayout.ThickLinesOfSquare` | app/src/main/java/com/kaajjo/libresudoku/ui/components/board/Board.kt:331-346 | on a k·k board both block sizes are k, and the thick lines on both axes are the multiples of k in [1, k·k) |
| `BoardLayout.SupportedThickness` | app/src/main/java/com/kaajjo/libresudoku/ui/components/board/Board.kt:101-102 | horThick is 3, 3, 4 and vertThick is 2, 3, 3 for sizes 6, 9, 12 |
| `BoardLayout.BlocksTileBoard` | app/src/main/java/com/kaajjo/libresudoku/ui/components/board/Board.kt:101-109 | for sizes 6, 9 and 12, both block sizes divide size and horThick·vertThick = size |
| `BoardLayout.NoteColumnNumber` | app/src/main/java/com/kaajjo/libresudoku/ui/components/board/Board.kt:412-429 | the y slot is always in [0, 2] |
| `BoardLayout.NoteRowNumber` | app/src/main/java/com/kaajjo/libresudoku/ui/components/board/Board.kt:431-449 | the x slot is always in [0, 3], and in [0, 2] unless size is 12 |
| `BoardLayout.NoteSlotArithmetic` | app/src/main/java/com/kaajjo/libresudoku/ui/components/board/Board.kt:412-449 | for sizes 6, 9, 12 and v in 1..size, x slot = (v-1) mod horThick and y slot = (v-1) div horThick |
| `BoardLayout.NoteSlotInsideCell` | app/src/main/java/com/kaajjo/libresudoku/ui/components/board/Board.kt:395-402 | every candidate's x slot is below horThick (sub-columns of width cellSize/⌈√size⌉) and its y slot below vertThick (sub-rows of height cellSize/⌊√size⌋) |
| `BoardLayout.NoteSlotRoundTrip` | app/src/main/java/com/kaajjo/libresudoku/ui/components/board/Board.kt:412-449 | the candidate can be read back from its slot: NoteAtSlot(x, y) = v |
| `BoardLayout.NoteSlotsInjective` | app/src/main/java/com/kaajjo/libresudoku/ui/components/board/Board.kt:412-449 | two candidates in 1..size with the same (x, y) slot are equal |
| `BoardLayout.NoteSlotDefault` | app/src/main/java/com/kaajjo/libresudoku/ui/components/board/Board.kt:412-449 | any size other than 6, 9, 12, and any value outside a supported size's table, gives slot (0, 0) |
| `BoardDraw.HexNat` | app/src/main/java/com/kaajjo/libresudoku/ui/components/board/Board.kt:375 | the text is non-empty upper-case hex digits with no leading zero; it is one character iff the value is below 16 |
| `BoardDraw.HexNatRoundTrip` | app/src/main/java/com/kaajjo/libresudoku/ui/components/board/Board.kt:375 | parsing the base-16 text back gives the value |
| `BoardDraw.Hex` | app/src/main/java/com/kaajjo/libresudoku/ui/components/board/Board.kt:375 | the text is non-empty and starts with '-' iff the value is negative; the rest is upper-case hex digits that read back to the magnitude |
| `BoardDraw.HexInjective` | app/src/main/java/com/kaajjo/libresudoku/ui/components/board/Board.kt:375 | different values never get the same text |
| `BoardDraw.HexOfSymbols` | app/src/main/java/com/kaajjo/libresudoku/ui/components/board/Board.kt:375 | values 1..15 are single glyphs; 10 is "A", 15 is "F", 9 is "9" |
| `BoardDraw.DigitPaint` | app/src/main/java/com/kaajjo/libresudoku/ui/components/board/Board.kt:369-373 | error paint iff error and errorsHighlight; else locked paint iff locked; else default paint |
| `BoardDraw.Glyph` | app/src/main/java/com/kaajjo/libresudoku/ui/components/board/Board.kt:375 | the text is "?" iff questions mode is on, and otherwise the value's upper-case base-16 text |
| `BoardDraw.DigitDraws` | app/src/main/java/com/kaajjo/libresudoku/ui/components/board/Board.kt:366-383 | one digit per non-empty cell; in questions mode every text is "?" |
| `BoardDraw.DrawDigits` | app/src/main/java/com/kaajjo/libresudoku/ui/components/board/Board.kt:366-383 | the nested loops draw exactly the digits of DigitDraws |
| `BoardDraw.DigitDrawnIff` | app/src/main/java/com/kaajjo/libresudoku/ui/components/board/Board.kt:368-377 | on a well-formed board, a digit is drawn at (r, c) iff the cell is inside the board and non-empty, and it carries that cell's glyph and paint |
| `BoardDraw.QuestionsHideValues` | app/src/main/java/com/kaajjo/libresudoku/ui/components/board/Board.kt:375 | in questions mode no drawn text equals any value's hex text |
| `BoardDraw.IdenticalHighlights` | app/src/main/java/com/kaajjo/libresudoku/ui/components/board/Board.kt:294-309 | nothing is highlighted when the option is off or when the selected value is 0 |
| `BoardDraw.DrawIdenticalHighlights` | app/src/main/java/com/kaajjo/libresudoku/ui/components/board/Board.kt:294-309 | the nested loops highlight exactly the cells of IdenticalHighlights |
| `BoardDraw.IdenticalHighlightIff` | app/src/main/java/com/kaajjo/libresudoku/ui/components/board/Board.kt:297 | on a well-formed board, (r, c) is highlighted iff the option is on, (r, c) is inside, and its value equals the selected value and is non-zero |
| `BoardDraw.EmptyNeverHighlighted` | app/src/main/java/com/kaajjo/libresudoku/ui/components/board/Board.kt:297 | an empty cell is never highlighted |
| `BoardDraw.NoteDraws` | app/src/main/java/com/kaajjo/libresudoku/ui/components/board/Board.kt:386-406 | notes are drawn iff the list is present and non-empty, questions is off and renderNotes is on; then one draw per note, in list order, with x slot from getNoteRowNumber and y slot from getNoteColumnNumber |
| `BoardDraw.NoteDrawsFitAndDiffer` | app/src/main/java/com/kaajjo/libresudoku/ui/components/board/Board.kt:392-402 | for sizes 6, 9, 12, every drawn note lies inside its cell's sub-grid, and two notes of one cell with different values never share a slot |
| `HistoryPipeline.Filter` | app/src/main/java/com/kaajjo/libresudoku/ui/gameshistory/GamesHistoryViewModel.kt:74-76 | the result is a subsequence of the input; every element satisfies the condition; each satisfying element keeps its multiplicity |
| `HistoryPipeline.FilterCommutes` | app/src/main/java/com/kaajjo/libresudoku/ui/gameshistory/GamesHistoryViewModel.kt:65-67 | filtering by p then q gives the same list as by q then p |
| `HistoryPipeline.FilterDifficulties` | app/src/main/java/com/kaajjo/libresudoku/ui/gameshistory/GamesHistoryViewModel.kt:72-80 | an empty filter returns the input unchanged; otherwise the result is the subsequence of games whose difficulty is in the filter, with multiplicities |
| `HistoryPipeline.FilterTypes` | app/src/main/java/com/kaajjo/libresudoku/ui/gameshistory/GamesHistoryViewModel.kt:82-90 | the same for the game type |
| `HistoryPipeline.FiltersCommute` | app/src/main/java/com/kaajjo/libresudoku/ui/gameshistory/GamesHistoryViewModel.kt:65-67 | applying the type filter before the difficulty filter gives the same list |
| `HistoryPipeline.FilteredContents` | app/src/main/java/com/kaajjo/libresudoku/ui/gameshistory/GamesHistoryViewModel.kt:66-67 | the two filters in turn keep the same multiset as one filter by both conditions |
| `HistoryPipeline.Insert` | app/src/main/java/com/kaajjo/libresudoku/ui/gameshistory/GamesHistoryViewModel.kt:95 | inserting into a sorted list keeps it sorted and adds exactly one element |
| `HistoryPipeline.SortBy` | app/src/main/java/com/kaajjo/libresudoku/ui/gameshistory/GamesHistoryViewModel.kt:92-104 | the result is sorted by the key in the direction, and is a permutation of the input |
| `HistoryPipeline.InsertStable` | app/src/main/java/com/kaajjo/libresudoku/ui/gameshistory/GamesHistoryViewModel.kt:95-101 | insertion puts the new entry first among the entries with its key and keeps their order |
| `HistoryPipeline.SortStable` | app/src/main/java/com/kaajjo/libresudoku/ui/gameshistory/GamesHistoryViewModel.kt:95-101 | the sort is stable: the entries with any one key keep their input order |
| `HistoryPipeline.ApplySort` | app/src/main/java/com/kaajjo/libresudoku/ui/gameshistory/GamesHistoryViewModel.kt:92-104 | non-decreasing by uid or timer when ascending, non-increasing when descending, a permutation of the input, and of the same length |
| `HistoryPipeline.SortKeys` | app/src/main/java/com/kaajjo/libresudoku/ui/gameshistory/GamesHistoryViewModel.kt:94-101 | the four branches stated on the saved game's own fields: ascending by uid, ascending by timer, descending by uid, descending by timer (this pins the key selector Key) |
| `HistoryPipeline.SortAndFilter` | app/src/main/java/com/kaajjo/libresudoku/ui/gameshistory/GamesHistoryViewModel.kt:65-70 | the result is sorted; every element passes both filters; its multiset equals that of the input filtered by both conditions at once |
| `HistoryPipeline.NoFilterKeepsAll` | app/src/main/java/com/kaajjo/libresudoku/ui/gameshistory/GamesHistoryViewModel.kt:73-79 | with both filters empty the pipeline only sorts |
| `GamesHistory.RemoveFirst` | app/src/main/java/com/kaajjo/libresudoku/ui/gameshistory/GamesHistoryViewModel.kt:41 | an absent element leaves the list unchanged; a present one loses exactly one occurrence; every other element keeps its membership |
| `GamesHistory.RemoveFirstRemovesFirst` | app/src/main/java/com/kaajjo/libresudoku/ui/gameshistory/GamesHistoryViewModel.kt:41 | the occurrence removed is the first one, and the elements before and after it keep their order |
| `GamesHistory.Toggle` | app/src/main/java/com/kaajjo/libresudoku/ui/gameshistory/GamesHistoryViewModel.kt:38-42 | an absent element is appended at the end; a present one loses one occurrence; every other element keeps its membership (the same rule serves lines 46-50) |
| `GamesHistory.RemoveFirstNoDuplicates` | app/src/main/java/com/kaajjo/libresudoku/ui/gameshistory/GamesHistoryViewModel.kt:41 | in a list without duplicates, the removed element is gone entirely and no duplicate appears |
| `GamesHistory.ToggleFlips` | app/src/main/java/com/kaajjo/libresudoku/ui/gameshistory/GamesHistoryViewModel.kt:37-51 | a toggle flips membership of its element, keeps every other element's membership, and keeps the list free of duplicates |
| `GamesHistory.ToggleTwiceFromAbsent` | app/src/main/java/com/kaajjo/libresudoku/ui/gameshistory/GamesHistoryViewModel.kt:38-42 | toggling an absent element twice restores the list exactly |
| `GamesHistory.ToggleTwiceFromPresent` | app/src/main/java/com/kaajjo/libresudoku/ui/gameshistory/GamesHistoryViewModel.kt:38-42 | toggling a present element twice restores the elements, with the element moved to the end |
| `GamesHistory.Switched` | app/src/main/java/com/kaajjo/libresudoku/ui/gameshistory/GamesHistoryViewModel.kt:53-59 | the switched direction differs from the old one |
| `GamesHistory.SwitchedTwice` | app/src/main/java/com/kaajjo/libresudoku/ui/gameshistory/GamesHistoryViewModel.kt:53-59 | switching twice is the identity |
| `GamesHistory.HistoryViewModel.constructor` | app/src/main/java/com/kaajjo/libresudoku/ui/gameshistory/GamesHistoryViewModel.kt:32-35 | the initial state is Descending by GameID with both filters empty, and it satisfies the invariant |
| `GamesHistory.HistoryViewModel.SelectDifficultyFilter` | app/src/main/java/com/kaajjo/libresudoku/ui/gameshistory/GamesHistoryViewModel.kt:37-43 | the difficulty list is toggled: the element's membership flips, other memberships stay, no duplicates; the other three fields are unchanged |
| `GamesHistory.HistoryViewModel.SelectTypeFilter` | app/src/main/java/com/kaajjo/libresudoku/ui/gameshistory/GamesHistoryViewModel.kt:45-51 | the same for the game-type list |
| `GamesHistory.HistoryViewModel.SwitchSortType` | app/src/main/java/com/kaajjo/libresudoku/ui/gameshistory/GamesHistoryViewModel.kt:53-59 | Ascending and Descending swap; nothing else changes |
| `GamesHistory.HistoryViewModel.SelectSortEntry` | app/src/main/java/com/kaajjo/libresudoku/ui/gameshistory/GamesHistoryViewModel.kt:61-63 | sortEntry becomes the argument; nothing else changes |
| `GamesHistory.HistoryViewModel.ApplySortAndFilter` | app/src/main/java/com/kaajjo/libresudoku/ui/gameshistory/GamesHistoryViewModel.kt:65-70 | under the current settings, the result is sorted, passes both filters, and is a permutation of the accepted input |

## Left out

- Pixel geometry: `cellSize`, the sub-slot widths, text centring, stroke
  widths, alpha values and colours. They are floating-point values handed
  to the Android canvas. The model works in cell and sub-slot indices.
- Float rounding in `floor(sqrt(size.toFloat()))`. The model uses exact
  integer square roots; for board sizes the float result is exact.
- The selection highlight (Board.kt:263-272). It is drawn only when
  `selectedCell.row >= 0 && selectedCell.col >= 0`, so the "no selection"
  cell `Cell(-1, -1)` draws nothing. This gate is not modelled because
  the highlight is outside the modelled core.
- The position lines (Board.kt:273-291). Gated by `positionLines` inside
  the selection gate, they draw a full-column band and a full-row band
  through the selected cell. They are not modelled, for the same reason.
- `cellsToHighlight` (Board.kt:310-319). A null list draws nothing
  (`?.forEach`); otherwise one rectangle is drawn per listed cell, at that
  cell's own row and column. Not modelled, for the same reason.
- The outer frame (Board.kt:322-328), an unconditional rounded
  rectangle.
- DigitDraws, DrawDigits, IdenticalHighlights, DrawIdenticalHighlights:
  they require `Covers` (board_draw.dfy:33), that is, at least `size` rows
  of at least `size` cells. On a smaller board, `board[i][j]` at
  Board.kt:297 and Board.kt:368 throws IndexOutOfBoundsException. The
  model does not capture that failure path.
- Tap, long-press and pinch/pan handling (Board.kt:204-259). This is float
  arithmetic on gesture events. The tap path indexes `board[row][column]`
  without a bounds check.
- DrawSeparators: requires positive remembered block sizes whenever there
  are lines to draw. The source would throw on `i % 0`, which can only
  happen if the widget is first composed with size 0 and later resized.
- The scheduling of `remember`, `mutableStateOf` and `LaunchedEffect`
  (Board.kt:88-110) is not modelled. The remembered `cellSize`, `horThick`
  and `vertThick` are inputs of `DrawSeparators`, so any stale
  combination is covered. Which combinations the framework actually
  produces, frame by frame, is not modelled. The other drawing code uses
  the current size's block sizes.
- The font sizes in `sp` (Board.kt:55-66, 112-113) are left out as unit
  conversion.
- HorizontalGuardHolds: the guard is evaluated on exact reals. In `Float`
  arithmetic, `(maxWidth/size)·i` can round, so this lemma is not a
  statement about float rounding.
- `BoardPreviewLight` and `SudokuParser` (Board.kt:451-474). The parser is
  not part of this model.
- `games`, the persistence-layer flow (GamesHistoryViewModel.kt:25), and
  `drawerState` (GamesHistoryViewModel.kt:28-30). Both are UI or storage
  plumbing.
- The `resName` resource ids of `SortType` and `SortEntry`
  (GamesHistoryViewModel.kt:107-114).
- The constants of `GameDifficulty` and `GameType` are defined outside the
  modelled files. The ones listed in `HistoryPipeline` are for
  concreteness only; nothing proved depends on them.
- `SavedGame.uid` is a 64-bit id and `timer` a duration. Both are modelled
  as unbounded integers compared with `<=`. Comparison needs no
  arithmetic, so no wrap-around can arise.
- Cell values are Kotlin `Int`s. The model's `Hex` works on unbounded
  integers. It agrees with `Int.toString(16)` on every 32-bit value.
