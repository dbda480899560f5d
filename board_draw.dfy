/** What the board widget draws for one frame, in cell indices: the
    identical-value highlights, the digit glyphs with their paint, and the
    pencil notes with their sub-slots. Colours, strokes and pixel offsets
    are left to the host canvas and are not modelled. */
module BoardDraw {
  import opened BoardLayout

  /** A board cell: its own position, its value (0 = empty), and the
      locked (given) and error flags. */
  datatype Cell = Cell(row: int, col: int, value: int, error: bool, locked: bool)

  /** A pencil note: a candidate value written into a cell. */
  datatype Note = Note(row: int, col: int, value: int)

  /** A cell position, the unit every draw is placed by. */
  datatype Pos = Pos(row: int, col: int)

  /** A nullable list, as the widget's `List<Note>?` parameter. */
  datatype Option<T> = None | Some(value: T)

  /** The three paints a digit may be drawn with. */
  datatype Paint = ErrorPaint | LockedPaint | TextPaint

  /** The position a cell is drawn at: the widget uses the cell's own
      row and col fields, not the loop indices it found the cell at. */
  function At(c: Cell): Pos
  {
    Pos(c.row, c.col)
  }

  /** The widget reads board[i][j] for every i, j in [0, size): the board
      must have at least size rows of at least size cells each. */
  predicate Covers(board: seq<seq<Cell>>, size: int)
  {
    size <= |board| && forall i :: 0 <= i < size ==> size <= |board[i]|
  }

  /** A board whose cells know their own position. */
  predicate WellFormed(board: seq<seq<Cell>>, size: int)
  {
    Covers(board, size) &&
    forall i, j :: 0 <= i < size && 0 <= j < size ==> board[i][j].row == i && board[i][j].col == j
  }

  // ---------------------------------------------------------------------
  // Hexadecimal text: Int.toString(16).uppercase().
  // ---------------------------------------------------------------------

  predicate IsUpperHexDigit(c: char)
  {
    '0' <= c <= '9' || 'A' <= c <= 'F'
  }

  /** The upper-case hexadecimal digit of d. */
  function HexDigit(d: int): (c: char)
    requires 0 <= d < 16
    ensures IsUpperHexDigit(c)
  {
    if d < 10 then ('0' as int + d) as char else ('A' as int + d - 10) as char
  }

  /** The value of an upper-case hexadecimal digit. */
  function HexDigitValue(c: char): (d: nat)
    requires IsUpperHexDigit(c)
    ensures d < 16
  {
    if c <= '9' then c as int - '0' as int else c as int - 'A' as int + 10
  }

  /** The base-16 digits of n, most significant first, without leading
      zeros. */
  function HexNat(n: nat): (s: string)
    ensures 1 <= |s|
    ensures |s| == 1 <==> n < 16
    ensures forall k :: 0 <= k < |s| ==> IsUpperHexDigit(s[k])
    ensures n > 0 ==> s[0] != '0'
  {
    if n < 16 then [HexDigit(n)] else HexNat(n / 16) + [HexDigit(n % 16)]
  }

  /** Int.toString(16).uppercase(): a minus sign, then the digits of the
      magnitude, for a negative value. */
  function Hex(n: int): (s: string)
    ensures 1 <= |s|
    ensures s[0] == '-' <==> n < 0
    ensures n < 0 ==> 2 <= |s| && forall k :: 1 <= k < |s| ==> IsUpperHexDigit(s[k])
    ensures n >= 0 ==> forall k :: 0 <= k < |s| ==> IsUpperHexDigit(s[k])
    ensures n < 0 ==> ParseHexNat(s[1..]) == -n
    ensures n >= 0 ==> ParseHexNat(s) == n
  {
    if n < 0 then
      HexNatRoundTrip(-n);
      assert ("-" + HexNat(-n))[1..] == HexNat(-n);
      "-" + HexNat(-n)
    else
      HexNatRoundTrip(n);
      HexNat(n)
  }

  /** The value of a string of upper-case hexadecimal digits. */
  function ParseHexNat(s: string): nat
    requires forall k :: 0 <= k < |s| ==> IsUpperHexDigit(s[k])
  {
    if s == [] then 0 else ParseHexNat(s[..|s| - 1]) * 16 + HexDigitValue(s[|s| - 1])
  }

  /** Reading the digits back gives the number that was written. */
  lemma {:induction false} HexNatRoundTrip(n: nat)
    ensures ParseHexNat(HexNat(n)) == n
  {
    var s := HexNat(n);
    if n < 16 {
      assert s[..0] == [];
    } else {
      HexNatRoundTrip(n / 16);
      assert s[..|s| - 1] == HexNat(n / 16);
    }
  }

  lemma HexNatInjective(a: nat, b: nat)
    requires HexNat(a) == HexNat(b)
    ensures a == b
  {
    HexNatRoundTrip(a);
    HexNatRoundTrip(b);
  }

  /** Two different values never get the same text. */
  lemma HexInjective(m: int, n: int)
    requires Hex(m) == Hex(n)
    ensures m == n
  {
    if m < 0 {
      assert HexNat(-m) == Hex(m)[1..] == Hex(n)[1..] == HexNat(-n);
      HexNatInjective(-m, -n);
    } else {
      HexNatInjective(m, n);
    }
  }

  /** Every symbol of a 16x16-or-smaller board is one glyph: 10 is "A",
      15 is "F". */
  lemma HexOfSymbols(v: int)
    requires 1 <= v <= 15
    ensures |Hex(v)| == 1 && Hex(v)[0] == HexDigit(v)
    ensures Hex(10) == "A" && Hex(15) == "F" && Hex(9) == "9"
  {
  }

  // ---------------------------------------------------------------------
  // Digits.
  // ---------------------------------------------------------------------

  /** The paint of a digit: the error paint when the cell is in error and
      errors are highlighted, else the locked paint for a given cell, else
      the default text paint. */
  function DigitPaint(c: Cell, errorsHighlight: bool): (p: Paint)
    ensures p == ErrorPaint <==> c.error && errorsHighlight
    ensures p == LockedPaint <==> c.locked && !(c.error && errorsHighlight)
    ensures p == TextPaint <==> !c.locked && !(c.error && errorsHighlight)
  {
    if c.error && errorsHighlight then ErrorPaint
    else if c.locked then LockedPaint
    else TextPaint
  }

  /** The text of a digit: "?" in questions mode, else the value in
      upper-case base 16. */
  function Glyph(value: int, questions: bool): (s: string)
    ensures questions ==> s == "?"
    ensures s == "?" ==> questions
    ensures !questions ==> s == Hex(value)
  {
    if questions then "?" else Hex(value)
  }

  /** One digit as drawn: where, which text and which paint. */
  datatype DigitDraw = DigitDraw(at: Pos, text: string, paint: Paint)

  function DigitDrawOf(c: Cell, questions: bool, errorsHighlight: bool): DigitDraw
  {
    DigitDraw(At(c), Glyph(c.value, questions), DigitPaint(c, errorsHighlight))
  }

  /** All digits of a frame: one for every non-empty cell of the board. */
  function DigitDraws(board: seq<seq<Cell>>, size: int, questions: bool, errorsHighlight: bool): (ds: set<DigitDraw>)
    requires Covers(board, size)
    ensures questions ==> forall d :: d in ds ==> d.text == "?"
    ensures forall i, j :: 0 <= i < size && 0 <= j < size && board[i][j].value != 0 ==>
      DigitDrawOf(board[i][j], questions, errorsHighlight) in ds
  {
    set i, j | 0 <= i < size && 0 <= j < size && board[i][j].value != 0 ::
      DigitDrawOf(board[i][j], questions, errorsHighlight)
  }

  /** The digits found by the time the nested loops reach (i, j): rows
      before i, and the cells of row i before column j. */
  ghost function DigitsBefore(board: seq<seq<Cell>>, size: int, questions: bool, errorsHighlight: bool, i: int, j: int): set<DigitDraw>
    requires Covers(board, size)
  {
    set r, c | 0 <= r < size && 0 <= c < size && (r < i || (r == i && c < j)) && board[r][c].value != 0 ::
      DigitDrawOf(board[r][c], questions, errorsHighlight)
  }

  lemma DigitsBeforeStep(board: seq<seq<Cell>>, size: int, questions: bool, errorsHighlight: bool, i: int, j: int)
    requires Covers(board, size) && 0 <= i < size && 0 <= j < size
    ensures DigitsBefore(board, size, questions, errorsHighlight, i, j + 1) ==
      DigitsBefore(board, size, questions, errorsHighlight, i, j) +
      (if board[i][j].value != 0 then {DigitDrawOf(board[i][j], questions, errorsHighlight)} else {})
  {
  }

  lemma DigitsBeforeNextRow(board: seq<seq<Cell>>, size: int, questions: bool, errorsHighlight: bool, i: int)
    requires Covers(board, size) && 0 <= i < size
    ensures DigitsBefore(board, size, questions, errorsHighlight, i + 1, 0) ==
      DigitsBefore(board, size, questions, errorsHighlight, i, size)
  {
  }

  lemma DigitsBeforeEnd(board: seq<seq<Cell>>, size: int, questions: bool, errorsHighlight: bool, i: int)
    requires Covers(board, size) && 0 <= i && size <= i
    ensures DigitsBefore(board, size, questions, errorsHighlight, i, 0) ==
      DigitDraws(board, size, questions, errorsHighlight)
  {
  }

  /** The digit loop of the widget, for i in 0 until size, for j in 0
      until size, drawing every non-empty cell. */
  method DrawDigits(board: seq<seq<Cell>>, size: int, questions: bool, errorsHighlight: bool) returns (ds: set<DigitDraw>)
    requires Covers(board, size)
    ensures ds == DigitDraws(board, size, questions, errorsHighlight)
  {
    ds := {};
    var i := 0;
    while i < size
      invariant 0 <= i && (size >= 0 ==> i <= size)
      invariant ds == DigitsBefore(board, size, questions, errorsHighlight, i, 0)
    {
      var j := 0;
      while j < size
        invariant 0 <= j <= size
        invariant ds == DigitsBefore(board, size, questions, errorsHighlight, i, j)
      {
        var c := board[i][j];
        if c.value != 0 {
          ds := ds + {DigitDrawOf(c, questions, errorsHighlight)};
        }
        DigitsBeforeStep(board, size, questions, errorsHighlight, i, j);
        j := j + 1;
      }
      DigitsBeforeNextRow(board, size, questions, errorsHighlight, i);
      i := i + 1;
    }
    DigitsBeforeEnd(board, size, questions, errorsHighlight, i);
  }

  /** On a well-formed board, a cell gets a digit exactly when it is not
      empty, and that digit carries the cell's glyph and paint. */
  lemma DigitDrawnIff(board: seq<seq<Cell>>, size: int, questions: bool, errorsHighlight: bool, d: DigitDraw)
    requires WellFormed(board, size)
    ensures d in DigitDraws(board, size, questions, errorsHighlight) <==>
      0 <= d.at.row < size && 0 <= d.at.col < size &&
      board[d.at.row][d.at.col].value != 0 &&
      d == DigitDrawOf(board[d.at.row][d.at.col], questions, errorsHighlight)
  {
    var ds := DigitDraws(board, size, questions, errorsHighlight);
    if d in ds {
      var i, j :| 0 <= i < size && 0 <= j < size && board[i][j].value != 0 &&
        d == DigitDrawOf(board[i][j], questions, errorsHighlight);
      assert d.at == Pos(i, j);
    }
  }

  /** In questions mode no digit shows its value: every text is "?", which
      no value's base-16 text equals. */
  lemma QuestionsHideValues(board: seq<seq<Cell>>, size: int, errorsHighlight: bool, d: DigitDraw, v: int)
    requires Covers(board, size)
    requires d in DigitDraws(board, size, true, errorsHighlight)
    ensures d.text == "?" && d.text != Hex(v)
  {
    var s := Hex(v);
    if v < 0 {
      assert s[0] == '-' && |s| >= 2;
    } else {
      assert IsUpperHexDigit(s[0]);
    }
  }

  // ---------------------------------------------------------------------
  // Identical-value highlights.
  // ---------------------------------------------------------------------

  /** A cell is highlighted with the selection when it holds the selected
      cell's value and is not empty. The selected cell's position plays no
      part. */
  predicate Identical(c: Cell, selected: Cell)
  {
    c.value == selected.value && c.value != 0
  }

  /** The cells that get the identical-value highlight. */
  function IdenticalHighlights(board: seq<seq<Cell>>, size: int, selected: Cell, enabled: bool): (hs: set<Pos>)
    requires Covers(board, size)
    ensures !enabled ==> hs == {}
    ensures selected.value == 0 ==> hs == {}
  {
    if enabled then
      set i, j | 0 <= i < size && 0 <= j < size && Identical(board[i][j], selected) :: At(board[i][j])
    else {}
  }

  /** The highlights found by the time the nested loops reach (i, j). */
  ghost function HighlightsBefore(board: seq<seq<Cell>>, size: int, selected: Cell, i: int, j: int): set<Pos>
    requires Covers(board, size)
  {
    set r, c | 0 <= r < size && 0 <= c < size && (r < i || (r == i && c < j)) && Identical(board[r][c], selected) ::
      At(board[r][c])
  }

  lemma HighlightsBeforeStep(board: seq<seq<Cell>>, size: int, selected: Cell, i: int, j: int)
    requires Covers(board, size) && 0 <= i < size && 0 <= j < size
    ensures HighlightsBefore(board, size, selected, i, j + 1) ==
      HighlightsBefore(board, size, selected, i, j) +
      (if Identical(board[i][j], selected) then {At(board[i][j])} else {})
  {
  }

  lemma HighlightsBeforeNextRow(board: seq<seq<Cell>>, size: int, selected: Cell, i: int)
    requires Covers(board, size) && 0 <= i < size
    ensures HighlightsBefore(board, size, selected, i + 1, 0) ==
      HighlightsBefore(board, size, selected, i, size)
  {
  }

  lemma HighlightsBeforeEnd(board: seq<seq<Cell>>, size: int, selected: Cell, i: int)
    requires Covers(board, size) && 0 <= i && size <= i
    ensures HighlightsBefore(board, size, selected, i, 0) ==
      IdenticalHighlights(board, size, selected, true)
  {
  }

  /** The identical-value loop of the widget. */
  method DrawIdenticalHighlights(board: seq<seq<Cell>>, size: int, selected: Cell, enabled: bool) returns (hs: set<Pos>)
    requires Covers(board, size)
    ensures hs == IdenticalHighlights(board, size, selected, enabled)
  {
    hs := {};
    if enabled {
      var i := 0;
      while i < size
        invariant 0 <= i && (size >= 0 ==> i <= size)
        invariant hs == HighlightsBefore(board, size, selected, i, 0)
      {
        var j := 0;
        while j < size
          invariant 0 <= j <= size
          invariant hs == HighlightsBefore(board, size, selected, i, j)
        {
          var c := board[i][j];
          if c.value == selected.value && c.value != 0 {
            hs := hs + {At(c)};
          }
          HighlightsBeforeStep(board, size, selected, i, j);
          j := j + 1;
        }
        HighlightsBeforeNextRow(board, size, selected, i);
        i := i + 1;
      }
      HighlightsBeforeEnd(board, size, selected, i);
    }
  }

  /** On a well-formed board, with the highlight on, cell (r, c) is
      highlighted exactly when it is inside the board and holds the
      selected value, which is not 0. */
  lemma IdenticalHighlightIff(board: seq<seq<Cell>>, size: int, selected: Cell, enabled: bool, r: int, c: int)
    requires WellFormed(board, size)
    ensures Pos(r, c) in IdenticalHighlights(board, size, selected, enabled) <==>
      enabled && 0 <= r < size && 0 <= c < size &&
      board[r][c].value == selected.value && board[r][c].value != 0
  {
    if Pos(r, c) in IdenticalHighlights(board, size, selected, enabled) {
      var i, j :| 0 <= i < size && 0 <= j < size && Identical(board[i][j], selected) &&
        At(board[i][j]) == Pos(r, c);
    }
    if enabled && 0 <= r < size && 0 <= c < size && Identical(board[r][c], selected) {
      assert At(board[r][c]) == Pos(r, c);
    }
  }

  /** An empty cell is never highlighted. */
  lemma EmptyNeverHighlighted(board: seq<seq<Cell>>, size: int, selected: Cell, enabled: bool, r: int, c: int)
    requires WellFormed(board, size)
    requires 0 <= r < size && 0 <= c < size && board[r][c].value == 0
    ensures Pos(r, c) !in IdenticalHighlights(board, size, selected, enabled)
  {
    IdenticalHighlightIff(board, size, selected, enabled, r, c);
  }

  // ---------------------------------------------------------------------
  // Notes.
  // ---------------------------------------------------------------------

  /** One note as drawn: its cell, its text, and its sub-slot. slotX comes
      from NoteRowNumber and slotY from NoteColumnNumber. */
  datatype NoteDraw = NoteDraw(cell: Pos, text: string, slotX: int, slotY: int)

  function NoteDrawOf(n: Note, size: int): NoteDraw
  {
    NoteDraw(Pos(n.row, n.col), Hex(n.value), NoteRowNumber(n.value, size), NoteColumnNumber(n.value, size))
  }

  /** The notes of a frame, in list order. Nothing is drawn unless the
      list is present and non-empty, questions mode is off and note
      rendering is on. */
  function NoteDraws(notes: Option<seq<Note>>, size: int, questions: bool, renderNotes: bool): (ds: seq<NoteDraw>)
    ensures ds != [] <==> notes.Some? && notes.value != [] && !questions && renderNotes
    ensures ds != [] ==> |ds| == |notes.value|
    ensures forall k :: 0 <= k < |ds| ==> ds[k] == NoteDrawOf(notes.value[k], size)
  {
    if notes.Some? && notes.value != [] && !questions && renderNotes then
      seq(|notes.value|, k requires 0 <= k < |notes.value| => NoteDrawOf(notes.value[k], size))
    else []
  }

  /** For a supported size and candidates 1..size, every note lies inside
      its cell, and two notes of one cell with different values lie in
      different sub-slots. */
  lemma NoteDrawsFitAndDiffer(notes: seq<Note>, size: int, renderNotes: bool, k: int, m: int)
    requires SupportedSize(size)
    requires forall n :: n in notes ==> 1 <= n.value <= size
    requires 0 <= k < |notes| && 0 <= m < |notes|
    ensures var ds := NoteDraws(Some(notes), size, false, renderNotes);
      ds != [] ==>
        0 <= ds[k].slotX < HorThick(size) && 0 <= ds[k].slotY < VertThick(size) &&
        (ds[k].cell == ds[m].cell && notes[k].value != notes[m].value ==>
          (ds[k].slotX, ds[k].slotY) != (ds[m].slotX, ds[m].slotY))
  {
    var ds := NoteDraws(Some(notes), size, false, renderNotes);
    if ds != [] {
      assert notes[k] in notes && notes[m] in notes;
      NoteSlotInsideCell(notes[k].value, size);
      if NoteRowNumber(notes[k].value, size) == NoteRowNumber(notes[m].value, size) &&
         NoteColumnNumber(notes[k].value, size) == NoteColumnNumber(notes[m].value, size) {
        NoteSlotsInjective(notes[k].value, notes[m].value, size);
      }
    }
  }
}
