/** The integer layout decisions of the Sudoku board widget (Board.kt):
    the block cadence that makes a separator line thick, and the sub-slot
    of a cell in which a pencil note is placed. Pixel geometry is not
    modelled; everything here is in cell or sub-slot indices. */
module BoardLayout {

  // ---------------------------------------------------------------------
  // Integer square roots.
  // The widget computes floor(sqrt(size.toFloat())).toInt() and
  // ceil(sqrt(size.toFloat())).toInt(). For a negative size the square
  // root is NaN, and NaN converts to the integer 0.
  // ---------------------------------------------------------------------

  /** The integer part of the square root of n; 0 when n is not positive. */
  function FloorSqrt(n: int): (r: nat)
    ensures n <= 0 ==> r == 0
    ensures n >= 0 ==> r * r <= n < (r + 1) * (r + 1)
  {
    if n <= 0 then 0 else FloorSqrtFrom(n, 0)
  }

  /** Counts upward from a candidate r whose square does not exceed n. */
  function FloorSqrtFrom(n: nat, r: nat): (s: nat)
    requires r * r <= n
    ensures r <= s && s * s <= n < (s + 1) * (s + 1)
    decreases n - r
  {
    if (r + 1) * (r + 1) > n then r
    else
      assert r + 1 <= (r + 1) * (r + 1);
      FloorSqrtFrom(n, r + 1)
  }

  /** The smallest r with n <= r * r; 0 when n is not positive. */
  function CeilSqrt(n: int): (r: nat)
    ensures n <= 0 ==> r == 0
    ensures n > 0 ==> 1 <= r && (r - 1) * (r - 1) < n <= r * r
  {
    if n <= 0 then 0
    else
      var f := FloorSqrt(n);
      if f * f == n then f else f + 1
  }

  lemma SquareMonotone(a: nat, b: nat)
    requires a <= b
    ensures a * a <= b * b
  {
    assert a * a <= a * b <= b * b;
  }

  /** FloorSqrt is the only r with r*r <= n < (r+1)*(r+1). */
  lemma FloorSqrtIs(n: int, r: nat)
    requires r * r <= n < (r + 1) * (r + 1)
    ensures FloorSqrt(n) == r
  {
    var f := FloorSqrt(n);
    if f < r {
      SquareMonotone(f + 1, r);
    } else if f > r {
      SquareMonotone(r + 1, f);
    }
  }

  // ---------------------------------------------------------------------
  // Separator lines.
  // Lines drawn at x = cellSize * i (vertical lines) are thick when
  // i % horThick == 0, lines drawn at y = cellSize * i (horizontal lines)
  // when i % vertThick == 0, where horThick = ceil(sqrt(size)) and
  // vertThick = floor(sqrt(size)).
  // ---------------------------------------------------------------------

  /** AtX: a line at x = cellSize * i; AtY: a line at y = cellSize * i. */
  datatype Axis = AtX | AtY

  /** horThick: the number of columns in one block. */
  function HorThick(size: int): (t: nat)
    ensures size > 0 ==> 1 <= t && (t - 1) * (t - 1) < size <= t * t
  {
    CeilSqrt(size)
  }

  /** vertThick: the number of rows in one block. */
  function VertThick(size: int): (t: nat)
    ensures size > 0 ==> 1 <= t && t * t <= size < (t + 1) * (t + 1)
  {
    FloorSqrt(size)
  }

  /** The block size that governs the lines along an axis. */
  function Thickness(size: int, axis: Axis): nat
  {
    match axis
    case AtX => HorThick(size)
    case AtY => VertThick(size)
  }

  /** One separator line as drawn: its axis, its index i in [1, size)
      and whether it gets the thick stroke. */
  datatype Line = Line(axis: Axis, index: int, thick: bool)

  /** The separator line with index i along an axis, drawn with the block
      sizes that belong to the board size. */
  function Separator(size: int, axis: Axis, i: int): (l: Line)
    requires size > 0
    ensures l.axis == axis && l.index == i
    ensures 1 <= i < size ==> (l.thick <==> i in ThickLines(size, axis))
  {
    Line(axis, i, i % Thickness(size, axis) == 0)
  }

  /** The indices of the thick separator lines along an axis. */
  function ThickLines(size: int, axis: Axis): (s: set<int>)
    ensures forall i :: i in s ==> 1 <= i < size
  {
    if size <= 0 then {}
    else set i | 1 <= i < size && i % Thickness(size, axis) == 0
  }

  /** The number of internal separator lines along one axis. */
  function InnerLines(size: int): nat
  {
    if size > 1 then size - 1 else 0
  }

  /** The separators of a board along one axis, in index order. */
  function AllSeparators(size: int, axis: Axis): seq<Line>
    requires size > 0
  {
    seq(size - 1, k requires 0 <= k < size - 1 => Separator(size, axis, k + 1))
  }

  /** What the first loop draws: a line at x for every i in [1, size),
      thick when i is a multiple of the remembered horThick. */
  function LinesAtX(size: int, horThick: int): seq<Line>
    requires size > 1 ==> horThick > 0
  {
    seq(InnerLines(size), k requires 0 <= k < InnerLines(size) => Line(AtX, k + 1, (k + 1) % horThick == 0))
  }

  /** The lines at y that the second loop has drawn before reaching
      index i: the line for j in [1, i) is drawn only when the guard
      maxWidth >= cellSize * j holds, where cellSize is the remembered
      cell size, and it is thick when j is a multiple of the remembered
      vertThick. */
  function LinesAtYBelow(maxWidth: real, cellSize: real, vertThick: int, i: int): (ls: seq<Line>)
    requires i > 1 ==> vertThick > 0
    ensures forall l :: l in ls ==> l.axis == AtY && 1 <= l.index < i
    ensures forall a, b :: 0 <= a < b < |ls| ==> ls[a].index < ls[b].index
  {
    if i <= 1 then []
    else
      LinesAtYBelow(maxWidth, cellSize, vertThick, i - 1) +
      (if maxWidth >= cellSize * ((i - 1) as real) then [Line(AtY, i - 1, (i - 1) % vertThick == 0)] else [])
  }

  /** What the second loop draws over the whole board. */
  function LinesAtY(size: int, maxWidth: real, cellSize: real, vertThick: int): seq<Line>
    requires size > 1 ==> vertThick > 0
  {
    LinesAtYBelow(maxWidth, cellSize, vertThick, InnerLines(size) + 1)
  }

  /** A line at y is drawn before index i exactly when its index is in
      [1, i) and passes the guard; its stroke follows the remembered
      vertThick. */
  lemma {:induction false} LineAtYDrawnIff(maxWidth: real, cellSize: real, vertThick: int, i: int, l: Line)
    requires i > 1 ==> vertThick > 0
    ensures l in LinesAtYBelow(maxWidth, cellSize, vertThick, i) <==>
      l.axis == AtY && 1 <= l.index < i && maxWidth >= cellSize * (l.index as real) &&
      l.thick == (l.index % vertThick == 0)
  {
    if i > 1 {
      LineAtYDrawnIff(maxWidth, cellSize, vertThick, i - 1, l);
    }
  }

  /** Both separator loops of the widget, run with the remembered cell
      size and block sizes: every line at x, then the lines at y that
      pass the guard, in index order. */
  method DrawSeparators(size: int, maxWidth: real, cellSize: real, horThick: int, vertThick: int)
    returns (lines: seq<Line>)
    requires size > 1 ==> horThick > 0 && vertThick > 0
    ensures lines == LinesAtX(size, horThick) + LinesAtY(size, maxWidth, cellSize, vertThick)
  {
    var xs := DrawLinesAtX(size, horThick);
    var ys := DrawLinesAtY(size, maxWidth, cellSize, vertThick);
    lines := xs + ys;
  }

  /** The first loop: one line at x for every i in [1, size). */
  method DrawLinesAtX(size: int, horThick: int) returns (lines: seq<Line>)
    requires size > 1 ==> horThick > 0
    ensures lines == LinesAtX(size, horThick)
  {
    var n := InnerLines(size);
    lines := [];
    var i := 1;
    while i < size
      invariant 1 <= i <= n + 1
      invariant lines == LinesAtX(size, horThick)[..i - 1]
    {
      var isThickLine := i % horThick == 0;
      lines := lines + [Line(AtX, i, isThickLine)];
      LinesAtXStep(size, horThick, i);
      i := i + 1;
    }
    assert lines == LinesAtX(size, horThick)[..n];
  }

  /** The second loop: the line at y for i in [1, size), when the guard
      maxWidth >= cellSize * i lets it through. */
  method DrawLinesAtY(size: int, maxWidth: real, cellSize: real, vertThick: int) returns (lines: seq<Line>)
    requires size > 1 ==> vertThick > 0
    ensures lines == LinesAtY(size, maxWidth, cellSize, vertThick)
  {
    var n := InnerLines(size);
    lines := [];
    var i := 1;
    while i < size
      invariant 1 <= i <= n + 1
      invariant lines == LinesAtYBelow(maxWidth, cellSize, vertThick, i)
    {
      var isThickLine := i % vertThick == 0;
      if maxWidth >= cellSize * (i as real) {
        lines := lines + [Line(AtY, i, isThickLine)];
      }
      LinesAtYStep(maxWidth, cellSize, vertThick, i);
      i := i + 1;
    }
  }

  /** One step of the first loop. */
  lemma LinesAtXStep(size: int, horThick: int, i: int)
    requires 1 <= i < size && horThick > 0
    ensures LinesAtX(size, horThick)[..i] ==
      LinesAtX(size, horThick)[..i - 1] + [Line(AtX, i, i % horThick == 0)]
  {
    assert LinesAtX(size, horThick)[i - 1] == Line(AtX, i, i % horThick == 0);
  }

  /** One step of the second loop. */
  lemma LinesAtYStep(maxWidth: real, cellSize: real, vertThick: int, i: int)
    requires i >= 1 && vertThick > 0
    ensures LinesAtYBelow(maxWidth, cellSize, vertThick, i + 1) ==
      LinesAtYBelow(maxWidth, cellSize, vertThick, i) +
      (if maxWidth >= cellSize * (i as real) then [Line(AtY, i, i % vertThick == 0)] else [])
  {
  }

  /** For a fresh cell size maxWidth / size, the guard maxWidth >= cellSize * i
      holds for every i in [1, size). */
  lemma HorizontalGuardHolds(maxWidth: real, size: int, i: int)
    requires maxWidth >= 0.0 && 1 <= i < size
    ensures maxWidth >= (maxWidth / (size as real)) * (i as real)
  {
    var c := maxWidth / (size as real);
    assert c >= 0.0;
    assert c * (size as real) == maxWidth;
    assert c * (i as real) <= c * (size as real);
  }

  /** With a fresh cell size, the lines at y drawn before index i are all
      the lines 1..i-1, each thick by the block size vertThick. */
  lemma {:induction false} FreshLinesAtY(size: int, maxWidth: real, vertThick: int, i: int)
    requires maxWidth >= 0.0 && 1 <= i <= size && vertThick > 0
    ensures LinesAtYBelow(maxWidth, maxWidth / (size as real), vertThick, i) ==
      seq(i - 1, k requires 0 <= k < i - 1 => Line(AtY, k + 1, (k + 1) % vertThick == 0))
  {
    if i > 1 {
      FreshLinesAtY(size, maxWidth, vertThick, i - 1);
      HorizontalGuardHolds(maxWidth, size, i - 1);
      LinesAtYStep(maxWidth, maxWidth / (size as real), vertThick, i - 1);
      var prefix := seq(i - 2, k requires 0 <= k < i - 2 => Line(AtY, k + 1, (k + 1) % vertThick == 0));
      var all := seq(i - 1, k requires 0 <= k < i - 1 => Line(AtY, k + 1, (k + 1) % vertThick == 0));
      assert all == prefix + [Line(AtY, i - 1, (i - 1) % vertThick == 0)];
    }
  }

  /** Once LaunchedEffect(size) has stored the cell size and block sizes
      of the current size, the guard skips nothing: the two loops draw
      every separator of the board along x, then along y. */
  lemma FreshStateDrawsAll(size: int, maxWidth: real)
    requires size > 0 && maxWidth >= 0.0
    ensures LinesAtX(size, HorThick(size)) == AllSeparators(size, AtX)
    ensures LinesAtY(size, maxWidth, maxWidth / (size as real), VertThick(size)) == AllSeparators(size, AtY)
  {
    FreshLinesAtY(size, maxWidth, VertThick(size), size);
  }

  /** The frame drawn right after a 600-pixel board changes from size 6 to
      size 9, before LaunchedEffect(size) has run: cellSize is still 100
      and the block sizes are still 3 and 2. All eight lines at x are
      drawn, but the lines at y for 7 and 8 fail the guard and are
      skipped. */
  lemma StaleCellSizeSkipsLines()
    ensures |LinesAtX(9, 3)| == 8
    ensures forall l :: l in LinesAtY(9, 600.0, 100.0, 2) ==> l.index <= 6
    ensures Line(AtY, 6, true) in LinesAtY(9, 600.0, 100.0, 2)
  {
    forall l | l in LinesAtY(9, 600.0, 100.0, 2)
      ensures l.index <= 6
    {
      LineAtYDrawnIff(600.0, 100.0, 2, 9, l);
    }
    LineAtYDrawnIff(600.0, 100.0, 2, 9, Line(AtY, 6, true));
  }

  /** For a 9x9 board the thick lines are exactly 3 and 6 on both axes. */
  lemma ThickLinesOfNine()
    ensures ThickLines(9, AtX) == {3, 6}
    ensures ThickLines(9, AtY) == {3, 6}
  {
    FloorSqrtIs(9, 3);
  }

  /** A 6x6 board has blocks of 2 rows by 3 columns. */
  lemma ThickLinesOfSix()
    ensures ThickLines(6, AtX) == {3}
    ensures ThickLines(6, AtY) == {2, 4}
  {
    FloorSqrtIs(6, 2);
  }

  /** A 12x12 board has blocks of 3 rows by 4 columns. */
  lemma ThickLinesOfTwelve()
    ensures ThickLines(12, AtX) == {4, 8}
    ensures ThickLines(12, AtY) == {3, 6, 9}
  {
    FloorSqrtIs(12, 3);
  }

  /** On a k*k board both axes use blocks of k: the thick lines are the
      multiples of k strictly inside the board. */
  lemma ThickLinesOfSquare(k: nat, i: int)
    requires k >= 1
    ensures HorThick(k * k) == k && VertThick(k * k) == k
    ensures i in ThickLines(k * k, AtX) <==> i in ThickLines(k * k, AtY)
    ensures i in ThickLines(k * k, AtX) <==> 1 <= i < k * k && i % k == 0
  {
    FloorSqrtIs(k * k, k);
  }

  /** For the supported sizes the blocks tile the board: a block is
      horThick columns by vertThick rows, both divide size, and a block
      holds exactly size cells. */
  lemma BlocksTileBoard(size: int)
    requires size == 6 || size == 9 || size == 12
    ensures size % HorThick(size) == 0 && size % VertThick(size) == 0
    ensures HorThick(size) * VertThick(size) == size
  {
    SupportedThickness(size);
  }

  /** The block sizes of the three supported sizes. */
  lemma SupportedThickness(size: int)
    requires size == 6 || size == 9 || size == 12
    ensures HorThick(size) == (if size == 12 then 4 else 3)
    ensures VertThick(size) == (if size == 6 then 2 else 3)
  {
    if size == 6 {
      FloorSqrtIs(6, 2);
    } else if size == 9 {
      FloorSqrtIs(9, 3);
    } else {
      FloorSqrtIs(12, 3);
    }
  }

  // ---------------------------------------------------------------------
  // Note sub-slots.
  // getNoteRowNumber supplies the slot along x (it multiplies the width of
  // a sub-column, cellSize / ceil(sqrt(size))) and getNoteColumnNumber the
  // slot along y (it multiplies cellSize / floor(sqrt(size))): the names
  // are swapped relative to their use.
  // ---------------------------------------------------------------------

  /** getNoteColumnNumber: used as the y slot of a note. */
  function NoteColumnNumber(number: int, size: int): (r: int)
    ensures 0 <= r <= 2
  {
    if size == 9 || size == 6 then
      match number
      case 1 | 2 | 3 => 0
      case 4 | 5 | 6 => 1
      case 7 | 8 | 9 => 2
      case _ => 0
    else if size == 12 then
      match number
      case 1 | 2 | 3 | 4 => 0
      case 5 | 6 | 7 | 8 => 1
      case 9 | 10 | 11 | 12 => 2
      case _ => 0
    else 0
  }

  /** getNoteRowNumber: used as the x slot of a note. */
  function NoteRowNumber(number: int, size: int): (r: int)
    ensures 0 <= r <= 3
    ensures size != 12 ==> r <= 2
  {
    if size == 9 || size == 6 then
      match number
      case 1 | 4 | 7 => 0
      case 2 | 5 | 8 => 1
      case 3 | 6 | 9 => 2
      case _ => 0
    else if size == 12 then
      match number
      case 1 | 5 | 9 => 0
      case 2 | 6 | 10 => 1
      case 3 | 7 | 11 => 2
      case 4 | 8 | 12 => 3
      case _ => 0
    else 0
  }

  /** Whether a size has a note table. */
  predicate SupportedSize(size: int)
  {
    size == 6 || size == 9 || size == 12
  }

  /** Reference definition of the tables: for a supported size and a
      candidate 1..size, the x slot is (v-1) mod horThick and the y slot is
      (v-1) div horThick, i.e. candidates fill the cell row by row, horThick
      per row. */
  lemma NoteSlotArithmetic(v: int, size: int)
    requires SupportedSize(size) && 1 <= v <= size
    ensures NoteRowNumber(v, size) == (v - 1) % HorThick(size)
    ensures NoteColumnNumber(v, size) == (v - 1) / HorThick(size)
  {
    SupportedThickness(size);
  }

  /** The slot of every candidate lies inside its cell: there are horThick
      sub-columns (x) and vertThick sub-rows (y). */
  lemma NoteSlotInsideCell(v: int, size: int)
    requires SupportedSize(size) && 1 <= v <= size
    ensures 0 <= NoteRowNumber(v, size) < HorThick(size)
    ensures 0 <= NoteColumnNumber(v, size) < VertThick(size)
  {
    SupportedThickness(size);
    NoteSlotArithmetic(v, size);
  }

  /** The candidate that occupies sub-slot (x, y) of a cell. */
  function NoteAtSlot(x: int, y: int, size: int): int
  {
    y * HorThick(size) + x + 1
  }

  /** The slot of a candidate determines the candidate. */
  lemma NoteSlotRoundTrip(v: int, size: int)
    requires SupportedSize(size) && 1 <= v <= size
    ensures NoteAtSlot(NoteRowNumber(v, size), NoteColumnNumber(v, size), size) == v
  {
    NoteSlotArithmetic(v, size);
    var h := HorThick(size);
    assert (v - 1) == ((v - 1) / h) * h + (v - 1) % h;
  }

  /** No two candidates of a supported size share a slot. */
  lemma NoteSlotsInjective(v: int, w: int, size: int)
    requires SupportedSize(size) && 1 <= v <= size && 1 <= w <= size
    requires NoteRowNumber(v, size) == NoteRowNumber(w, size)
    requires NoteColumnNumber(v, size) == NoteColumnNumber(w, size)
    ensures v == w
  {
    NoteSlotRoundTrip(v, size);
    NoteSlotRoundTrip(w, size);
  }

  /** Unsupported sizes, and values outside a supported size's table,
      fall back to slot (0, 0). */
  lemma NoteSlotDefault(v: int, size: int)
    requires !SupportedSize(size) || v < 1 || v > (if size == 12 then 12 else 9)
    ensures NoteRowNumber(v, size) == 0 && NoteColumnNumber(v, size) == 0
  {
  }
}
