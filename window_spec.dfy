/** The value view of a curses WINDOW: its grid of lines of cells, its cursor
    and its current drawing colours, with the single-step operations on it
    (creation, cursor moves, cell writes, erase and the attribute switches). */
module WindowSpec {
  import opened DisplayUnit
  import opened Attributes

  /** A `base_color` of the palette. */
  type Color = int

  const Black: Color := 0
  /** The "no explicit colour" foreground that reset restores. */
  const DefaultFg: Color := 8
  /** How far a bold foreground or a blinking background is shifted, to the
      bright variant of its colour. */
  const BrightShift := 8

  datatype Option<T> = None | Some(value: T)

  datatype FontStyle = FontStyle(bold: bool, italic: bool, underline: bool)

  const Plain := FontStyle(false, false, false)

  /** One grid position: its text (normally one or two display columns, empty
      for the right half of a wide glyph), its colours and its font style. */
  datatype Cell = Cell(ch: seq<CodePoint>, fg: Color, bg: Color, fs: FontStyle)

  /** A default-constructed cell: a single space in colour 0 on colour 0. */
  const DefaultCell := Cell([Space], Black, Black, Plain)

  datatype Line = Line(chars: seq<Cell>, touched: bool)

  /** An entry of the colour-pair table. */
  datatype ColorPair = ColorPair(fg: Color, bg: Color)

  datatype WinState = WinState(
    x: int, y: int, width: int, height: int,
    cursorx: int, cursory: int,
    fg: Color, bg: Color, fs: FontStyle,
    draw: bool,
    lines: seq<Line>)

  /** `height` lines of `width` cells each. */
  predicate Shaped(s: WinState)
  {
    && s.width >= 0 && s.height >= 0
    && |s.lines| == s.height
    && forall r :: 0 <= r < |s.lines| ==> |s.lines[r].chars| == s.width
  }

  /** Where the cursor can be. The row stays inside the window (a window
      without rows keeps row 0). The column may sit one past the last
      column, where a write that filled the last row leaves it; in a window
      one column wide the relocation of a wide glyph can leave it at 2. */
  predicate CursorInBounds(s: WinState)
  {
    && 0 <= s.cursory && (s.cursory < s.height || s.cursory == 0)
    && 0 <= s.cursorx && (s.cursorx <= s.width || (s.width == 1 && s.cursorx == 2))
  }

  predicate WellFormed(s: WinState)
  {
    Shaped(s) && CursorInBounds(s)
  }

  predicate InWindow(s: WinState, r: int, c: int)
  {
    0 <= r < s.height && 0 <= c < s.width
  }

  function At(s: WinState, r: int, c: int): Cell
    requires Shaped(s) && InWindow(s, r, c)
  {
    s.lines[r].chars[c]
  }

  /** `cur_cell`: the cursor designates a cell of the window. */
  predicate HasCurCell(s: WinState)
  {
    s.cursory < s.height && s.cursorx < s.width
  }

  /** In a well-formed window, `cur_cell` finds a cell exactly when the
      cursor is on one of the window's cells; the lower bounds need no
      check because the cursor is never negative. */
  lemma CurCellInWindow(s: WinState)
    requires WellFormed(s)
    ensures HasCurCell(s) <==> InWindow(s, s.cursory, s.cursorx)
  {
  }

  /** What `newwin` does with a zero size: the rest of the terminal. */
  function Resolve(size: int, remaining: int): int
  {
    if size == 0 then remaining else size
  }

  function BlankRow(n: nat): (row: seq<Cell>)
    ensures |row| == n && forall c :: 0 <= c < n ==> row[c] == DefaultCell
  {
    seq(n, _ => DefaultCell)
  }

  /** `newwin`: no window for a negative origin; otherwise every cell
      default, every line touched, cursor at the origin, nothing to draw,
      colours reset. A zero size is resolved against the terminal size. The
      source throws for a negative resolved size, so callers must not ask
      for one. */
  function NewWindow(nlines: int, ncols: int, beginY: int, beginX: int, termx: int, termy: int): (r: Option<WinState>)
    requires beginY >= 0 && beginX >= 0 ==>
      Resolve(ncols, termx - beginX) >= 0 && Resolve(nlines, termy - beginY) >= 0
    ensures r.None? <==> beginY < 0 || beginX < 0
    ensures r.Some? ==>
      && WellFormed(r.value)
      && r.value.x == beginX && r.value.y == beginY
      && r.value.width == (if ncols == 0 then termx - beginX else ncols)
      && r.value.height == (if nlines == 0 then termy - beginY else nlines)
      && r.value.cursorx == 0 && r.value.cursory == 0
      && !r.value.draw && r.value.fg == DefaultFg && r.value.bg == Black && r.value.fs == Plain
    ensures r.Some? ==> forall row :: 0 <= row < r.value.height ==> r.value.lines[row].touched
    ensures r.Some? ==> forall row, col :: InWindow(r.value, row, col) ==> At(r.value, row, col) == DefaultCell
  {
    if beginY < 0 || beginX < 0 then None
    else
      var w := Resolve(ncols, termx - beginX);
      var h := Resolve(nlines, termy - beginY);
      Some(WinState(beginX, beginY, w, h, 0, 0, DefaultFg, Black, Plain, false,
                    seq(h, _ => Line(BlankRow(w), true))))
  }

  /** `wmove_internal` succeeds exactly for a position inside the window. */
  predicate CanMove(s: WinState, y: int, x: int)
  {
    0 <= x < s.width && 0 <= y < s.height
  }

  /** `wmove_internal`: the cursor moves to (y, x) when that is inside the
      window; otherwise nothing changes. */
  function Move(s: WinState, y: int, x: int): (r: WinState)
    ensures r.lines == s.lines && r.(cursorx := s.cursorx, cursory := s.cursory) == s
    ensures CanMove(s, y, x) ==> r.cursorx == x && r.cursory == y
    ensures !CanMove(s, y, x) ==> r == s
    ensures WellFormed(s) ==> WellFormed(r)
  {
    if CanMove(s, y, x) then s.(cursorx := x, cursory := y) else s
  }

  /** `newline` moves down a row, to column 0, only when the cursor is above
      the last row; it reports whether it moved. */
  predicate CanNewLine(s: WinState)
  {
    s.cursory < s.height - 1
  }

  function NewLine(s: WinState): (r: WinState)
    ensures r.(cursorx := s.cursorx, cursory := s.cursory) == s
    ensures CanNewLine(s) ==> r.cursory == s.cursory + 1 < s.height && r.cursorx == 0
    ensures !CanNewLine(s) ==> r == s
  {
    if CanNewLine(s) then s.(cursory := s.cursory + 1, cursorx := 0) else s
  }

  /** The cells of `t` and `s` are the same. */
  ghost predicate SameCells(s: WinState, t: WinState)
    requires Shaped(s) && Shaped(t) && s.width == t.width && s.height == t.height
  {
    forall i, j :: InWindow(s, i, j) ==> At(t, i, j) == At(s, i, j)
  }

  /** `addedchar`: one column to the right, marking the cursor's line
      touched; past the last column the cursor goes to the start of the next
      row, or stays past the end on the last row. */
  function AddedChar(s: WinState): (r: WinState)
    requires WellFormed(s) && 0 <= s.cursory < s.height
    requires s.cursorx < s.width || s.cursorx == 1
    ensures WellFormed(r)
    ensures r.(cursorx := s.cursorx, cursory := s.cursory, lines := s.lines) == s
    ensures SameCells(s, r)
    ensures forall i :: 0 <= i < r.height ==> r.lines[i].touched == (s.lines[i].touched || i == s.cursory)
    ensures s.cursorx + 1 < s.width ==> r.cursory == s.cursory && r.cursorx == s.cursorx + 1
    ensures s.cursorx + 1 >= s.width && s.cursory < s.height - 1 ==> r.cursory == s.cursory + 1 && r.cursorx == 0
    ensures s.cursorx + 1 >= s.width && s.cursory == s.height - 1 ==> r.cursory == s.cursory && r.cursorx == s.cursorx + 1
  {
    var cy := s.cursory;
    var s1 := s.(cursorx := s.cursorx + 1, lines := s.lines[cy := s.lines[cy].(touched := true)]);
    assert forall i :: 0 <= i < s.height ==> s1.lines[i].chars == s.lines[i].chars;
    if s1.cursorx >= s1.width then NewLine(s1) else s1
  }

  /** Replaces one cell; nothing else changes, touched flags included. */
  function UpdateCell(s: WinState, r: int, c: int, cell: Cell): (t: WinState)
    requires Shaped(s) && InWindow(s, r, c)
    ensures Shaped(t) && t.(lines := s.lines) == s
    ensures forall i :: 0 <= i < t.height ==> t.lines[i].touched == s.lines[i].touched
    ensures At(t, r, c) == cell
    ensures forall i, j :: InWindow(t, i, j) && (i != r || j != c) ==> At(t, i, j) == At(s, i, j)
  {
    s.(lines := s.lines[r := s.lines[r].(chars := s.lines[r].chars[c := cell])])
  }

  /** Replaces the text of one cell, keeping its colours. */
  function SetCh(s: WinState, r: int, c: int, text: seq<CodePoint>): (t: WinState)
    requires Shaped(s) && InWindow(s, r, c)
    ensures Shaped(t) && t.(lines := s.lines) == s
    ensures forall i :: 0 <= i < t.height ==> t.lines[i].touched == s.lines[i].touched
    ensures At(t, r, c) == At(s, r, c).(ch := text)
    ensures forall i, j :: InWindow(t, i, j) && (i != r || j != c) ==> At(t, i, j) == At(s, i, j)
  {
    UpdateCell(s, r, c, At(s, r, c).(ch := text))
  }

  /** Gives one cell the window's current colours and style, keeping its text. */
  function SetStyle(s: WinState, r: int, c: int): (t: WinState)
    requires Shaped(s) && InWindow(s, r, c)
    ensures Shaped(t) && t.(lines := s.lines) == s
    ensures forall i :: 0 <= i < t.height ==> t.lines[i].touched == s.lines[i].touched
    ensures At(t, r, c) == Cell(At(s, r, c).ch, s.fg, s.bg, s.fs)
    ensures forall i, j :: InWindow(t, i, j) && (i != r || j != c) ==> At(t, i, j) == At(s, i, j)
  {
    UpdateCell(s, r, c, At(s, r, c).(fg := s.fg, bg := s.bg, fs := s.fs))
  }

  /** `werase`: every cell default, every line touched, something to draw,
      then the cursor moved to (0, 0) through `wmove` (which fails, leaving
      the cursor alone, in a window without cells). */
  function Erase(s: WinState): (r: WinState)
    requires WellFormed(s)
    ensures WellFormed(r)
    ensures r.(lines := s.lines, draw := s.draw, cursorx := s.cursorx, cursory := s.cursory) == s
    ensures r.draw
    ensures forall i :: 0 <= i < r.height ==> r.lines[i].touched
    ensures forall i, j :: InWindow(r, i, j) ==> At(r, i, j) == DefaultCell
    ensures s.width > 0 && s.height > 0 ==> r.cursorx == 0 && r.cursory == 0
    ensures s.width == 0 || s.height == 0 ==> r.cursorx == s.cursorx && r.cursory == s.cursory
  {
    var cleared := s.(lines := seq(s.height, _ => Line(BlankRow(s.width), true)), draw := true);
    Move(cleared, 0, 0)
  }

  /** The part of `wclear` that marks the root window's rows above `limit`
      touched, so that what a cleared window covered gets repainted. */
  function TouchRowsAbove(s: WinState, limit: int): (r: WinState)
    requires Shaped(s)
    ensures Shaped(r) && r.(lines := s.lines) == s && SameCells(s, r)
    ensures forall i :: 0 <= i < r.height ==> r.lines[i].touched == (s.lines[i].touched || i < limit)
  {
    s.(lines := seq(s.height, i requires 0 <= i < s.height =>
                      if i < limit then s.lines[i].(touched := true) else s.lines[i]))
  }

  /** `wattron`: the colours of the attribute's pair, each shifted to its
      bright variant by bold or blink; italic and underline are switched on
      and stay on (they are never switched off here, and bold never reaches
      the font style). */
  function Attron(s: WinState, pair: ColorPair, attrs: NcColor): (r: WinState)
    ensures r.(fg := s.fg, bg := s.bg, fs := s.fs) == s
    ensures r.fg == if IsBold(attrs) then pair.fg + BrightShift else pair.fg
    ensures r.bg == if IsBlink(attrs) then pair.bg + BrightShift else pair.bg
    ensures r.fs.bold == s.fs.bold
    ensures r.fs.italic == (s.fs.italic || IsItalic(attrs))
    ensures r.fs.underline == (s.fs.underline || IsUnderline(attrs))
  {
    var fg := if IsBold(attrs) then pair.fg + BrightShift else pair.fg;
    var bg := if IsBlink(attrs) then pair.bg + BrightShift else pair.bg;
    var fs := s.fs.(italic := s.fs.italic || IsItalic(attrs),
                    underline := s.fs.underline || IsUnderline(attrs));
    s.(fg := fg, bg := bg, fs := fs)
  }

  /** `wattroff`: back to the fixed default colours and a plain style,
      whatever the argument. */
  function Attroff(s: WinState): (r: WinState)
    ensures r.(fg := s.fg, bg := s.bg, fs := s.fs) == s
    ensures r.fg == DefaultFg && r.bg == Black && r.fs == Plain
  {
    s.(fg := DefaultFg, bg := Black, fs := s.fs.(bold := false, italic := false, underline := false))
  }

  /** Reset does not depend on what was switched on before it. */
  lemma AttroffForgetsAttron(s: WinState, pair: ColorPair, attrs: NcColor)
    ensures Attroff(Attron(s, pair, attrs)) == Attroff(s)
  {
  }
}
