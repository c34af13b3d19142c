/** The curses WINDOW as an object updated in place, the table of colour
    pairs, and the curses entry points, which take a window handle that may
    be null. Every operation is proved to leave the window in the state the
    functions of WindowSpec, Layout and Drawing give. */
module Cursesport {
  import opened DisplayUnit
  import opened Attributes
  import opened WindowSpec
  import opened Layout
  import opened Drawing

  /** The 100 entries of `colorpairs`, each a foreground and a background. */
  class ColorPairTable {
    const pairs: array<ColorPair>

    ghost predicate Valid()
      reads this
    {
      pairs.Length == 100
    }

    /** Static storage: every entry starts as black on black. */
    constructor ()
      ensures Valid() && fresh(pairs)
      ensures forall i :: 0 <= i < pairs.Length ==> pairs[i] == ColorPair(Black, Black)
    {
      pairs := new ColorPair[100](_ => ColorPair(Black, Black));
    }

    /** `init_pair`: sets one entry and leaves the others alone. The source
        does not check the index, so callers must keep it in range. */
    method InitPair(pair: int, f: Color, b: Color)
      requires Valid() && 0 <= pair < 100
      modifies pairs
      ensures pairs[..] == old(pairs[..])[pair := ColorPair(f, b)]
    {
      pairs[pair] := pairs[pair].(fg := f);
      pairs[pair] := pairs[pair].(bg := b);
    }
  }

  class Window {
    const x: int
    const y: int
    const width: int
    const height: int
    var cursorx: int
    var cursory: int
    var fg: Color
    var bg: Color
    var fs: FontStyle
    var draw: bool
    var lines: seq<Line>

    /** The value of the window. */
    function State(): WinState
      reads this
    {
      WinState(x, y, width, height, cursorx, cursory, fg, bg, fs, draw, lines)
    }

    ghost predicate Valid()
      reads this
    {
      WellFormed(State())
    }

    /** The window `newwin` allocates: `h` lines of `w` default cells, all
        touched, cursor at the origin, default colours, nothing to draw. */
    constructor (beginX: int, beginY: int, w: int, h: int)
      requires w >= 0 && h >= 0
      ensures Valid()
      ensures State() == WinState(beginX, beginY, w, h, 0, 0, DefaultFg, Black, Plain, false,
                                  seq(h, _ => Line(BlankRow(w), true)))
    {
      x, y, width, height := beginX, beginY, w, h;
      draw := false;
      bg, fg, fs := Black, DefaultFg, Plain;
      cursorx, cursory := 0, 0;
      var ls := seq(h, _ => Line([], false));
      var j := 0;
      while j < h
        invariant 0 <= j <= h && |ls| == h
        invariant forall i :: 0 <= i < j ==> ls[i] == Line(BlankRow(w), true)
        invariant forall i :: j <= i < h ==> ls[i] == Line([], false)
      {
        ls := ls[j := ls[j].(chars := BlankRow(w))];
        ls := ls[j := ls[j].(touched := true)];
        j := j + 1;
      }
      lines := ls;
    }

    /** `wmove_internal` on a window. */
    method MoveInternal(y': int, x': int) returns (ok: bool)
      modifies this
      ensures ok == CanMove(old(State()), y', x')
      ensures State() == WindowSpec.Move(old(State()), y', x')
    {
      if x' >= width {
        return false;
      }
      if y' >= height {
        return false;
      }
      if y' < 0 {
        return false;
      }
      if x' < 0 {
        return false;
      }
      cursorx := x';
      cursory := y';
      return true;
    }

    /** `wmove` on a window: `wmove_internal`, then the same assignment once
        more. */
    method Move(y': int, x': int)
      modifies this
      ensures State() == WindowSpec.Move(old(State()), y', x')
    {
      var ok := MoveInternal(y', x');
      if !ok {
        return;
      }
      cursorx := x';
      cursory := y';
    }

    /** `newline`. */
    method NewLine() returns (moved: bool)
      modifies this
      ensures moved == CanNewLine(old(State()))
      ensures State() == WindowSpec.NewLine(old(State()))
    {
      if cursory < height - 1 {
        cursory := cursory + 1;
        cursorx := 0;
        return true;
      }
      return false;
    }

    /** `addedchar`. */
    method AddedChar()
      requires Valid() && 0 <= cursory < height && (cursorx < width || cursorx == 1)
      modifies this
      ensures Valid() && State() == WindowSpec.AddedChar(old(State()))
    {
      cursorx := cursorx + 1;
      lines := lines[cursory := lines[cursory].(touched := true)];
      if cursorx >= width {
        var _ := NewLine();
      }
    }

    /** Assigns the text of cell (r, c). */
    method SetText(r: int, c: int, text: seq<CodePoint>)
      requires Shaped(State()) && InWindow(State(), r, c)
      modifies this
      ensures State() == SetCh(old(State()), r, c, text)
    {
      lines := lines[r := lines[r].(chars := lines[r].chars[c := lines[r].chars[c].(ch := text)])];
    }

    /** Gives cell (r, c) the window's colours and font style. */
    method SetColours(r: int, c: int)
      requires Shaped(State()) && InWindow(State(), r, c)
      modifies this
      ensures State() == SetStyle(old(State()), r, c)
    {
      lines := lines[r := lines[r].(chars := lines[r].chars[c := lines[r].chars[c].(fg := fg, bg := bg, fs := fs)])];
    }

    /** A narrow unit was written: a stale right half now under the cursor
        becomes a space. */
    method RepairHalf()
      requires Valid()
      modifies this
      ensures Valid() && State() == Layout.RepairHalf(old(State()))
    {
      if HasCurCell(State()) && lines[cursory].chars[cursorx].ch == [] {
        SetText(cursory, cursorx, [Space]);
      }
    }

    /** The cell under the cursor becomes the empty right half of a wide
        glyph, in the window's colours, and the cursor moves past it. */
    method EmptyHalf()
      requires Valid() && HasCurCell(State())
      modifies this
      ensures Valid() && State() == Layout.EmptyHalf(old(State()))
    {
      lines := lines[cursory := lines[cursory].(chars := lines[cursory].chars[cursorx := Cell([], fg, bg, fs)])];
      AddedChar();
    }

    /** The wide glyph at (gy, gx) moves into its empty half at (py, px) on
        the next row, then the cursor moves on and the cell it reaches is
        emptied. */
    method Relocate(gy: int, gx: int, py: int, px: int)
      requires Valid() && InWindow(State(), gy, gx) && InWindow(State(), py, px)
      requires cursorx == 1 && py == cursory && px == 0 && gy < py
      modifies this
      ensures Valid() && State() == Layout.Relocate(old(State()), gy, gx, py, px)
    {
      SetText(py, px, lines[gy].chars[gx].ch);
      SetText(gy, gx, [Space]);
      AddedChar();
      if HasCurCell(State()) {
        SetText(cursory, cursorx, []);
      }
    }

    /** The second half of a wide glyph written at (gy, gx); returns whether
        the write must stop. */
    method WideHalf(gy: int, gx: int) returns (stop: bool)
      requires Valid() && InWindow(State(), gy, gx)
      requires (cursory == gy && cursorx == gx + 1) || (cursory == gy + 1 && cursorx == 0)
      modifies this
      ensures Valid()
      ensures State() == Layout.WideHalf(old(State()), gy, gx).0
      ensures stop == Layout.WideHalf(old(State()), gy, gx).1
    {
      if !HasCurCell(State()) {
        // no room for the right half: truncate the glyph
        SetText(gy, gx, [Space]);
        return true;
      }
      var py, px := cursory, cursorx;
      EmptyHalf();
      if cursorx == 1 {
        // the glyph went into the last column: move it to the next row
        Relocate(gy, gx, py, px);
      }
      return false;
    }

    /** The body of the loop of `printstring` for one display unit: the
        unit's text goes into the current cell, then the cursor moves on and
        the neighbouring cells are kept consistent. Returns whether the write
        must stop. */
    method WriteUnit(u: Unit) returns (stop: bool)
      requires Valid() && HasCurCell(State()) && 0 <= u.width <= 2
      modifies this
      ensures Valid()
      ensures State() == Layout.WriteUnit(old(State()), u).0
      ensures stop == Layout.WriteUnit(old(State()), u).1
    {
      var cy, cx := cursory, cursorx;
      SetText(cy, cx, u.text);
      if u.width >= 1 {
        SetColours(cy, cx);
        AddedChar();
      }
      stop := false;
      if u.width == 1 {
        RepairHalf();
      } else if u.width == 2 {
        stop := WideHalf(cy, cx);
      }
    }

    /** `printstring`. */
    method Printstring(text: seq<CodePoint>, wcwidth: CodePoint -> Width)
      requires Valid()
      modifies this
      ensures Valid()
      ensures State() == Print(old(State()), text, wcwidth)
    {
      draw := true;
      if |text| == 0 {
        return;
      }
      var go := PrintPrepare();
      if !go {
        return;
      }
      ghost var start := State();
      var rest := text;
      while |rest| > 0
        invariant Valid()
        invariant Loop(State(), rest, wcwidth) == Loop(start, text, wcwidth)
        decreases |rest|
      {
        var stop;
        rest, stop := PrintStep(rest, wcwidth);
        if stop {
          return;
        }
      }
    }

    /** The part of `printstring` before its loop; returns whether the loop
        runs. */
    method PrintPrepare() returns (go: bool)
      requires Valid()
      modifies this
      ensures Valid() && (State(), go) == Prepare(old(State()))
    {
      if cursorx >= width {
        var moved := NewLine();
        if !moved {
          return false;
        }
      }
      if cursory >= height || cursorx >= width {
        return false;
      }
      if cursorx > 0 && lines[cursory].chars[cursorx].ch == [] {
        // starting on the right half of a wide glyph: blank its left half
        SetText(cursory, cursorx - 1, [Space]);
      }
      return true;
    }

    /** One turn of the loop of `printstring`: a newline, or one display
        unit. Returns the text left and whether `printstring` returns. */
    method PrintStep(rest: seq<CodePoint>, wcwidth: CodePoint -> Width) returns (rest': seq<CodePoint>, stop: bool)
      requires Valid() && |rest| > 0
      modifies this
      ensures Valid()
      ensures Layout.Step(old(State()), rest, wcwidth) == StepResult(State(), rest', stop)
    {
      if rest[0] == Newline {
        var moved := NewLine();
        return rest[1..], !moved;
      }
      if !HasCurCell(State()) {
        return rest[1..], true;
      }
      var u := Fill(wcwidth, rest);
      stop := WriteUnit(u);
      rest' := u.rest;
      stop := stop || cursory >= height;
    }

    /** The loop and the flag of `werase`, then `wmove(0, 0)`. */
    method Erase()
      requires Valid()
      modifies this
      ensures Valid() && State() == WindowSpec.Erase(old(State()))
    {
      var j := 0;
      while j < height
        invariant 0 <= j <= height && |lines| == height
        invariant forall i :: 0 <= i < j ==> lines[i] == Line(BlankRow(width), true)
        invariant forall i :: j <= i < height ==> lines[i] == old(lines[i])
        invariant State().(lines := old(lines)) == old(State())
      {
        lines := lines[j := Line(BlankRow(width), true)];
        j := j + 1;
      }
      draw := true;
      assert lines == seq(height, _ => Line(BlankRow(width), true));
      Move(0, 0);
    }

    /** `wattron` on a window, with the pair looked up in `table`. */
    method Attron(table: ColorPairTable, attrs: NcColor)
      requires table.Valid() && ToColorPairIndex(attrs) < 100
      modifies this
      ensures State() == WindowSpec.Attron(old(State()), table.pairs[ToColorPairIndex(attrs) as int], attrs)
    {
      var pairNumber := ToColorPairIndex(attrs) as int;
      fg := table.pairs[pairNumber].fg;
      bg := table.pairs[pairNumber].bg;
      if IsBold(attrs) {
        fg := fg + BrightShift;
      }
      if IsBlink(attrs) {
        bg := bg + BrightShift;
      }
      if IsItalic(attrs) {
        fs := fs.(italic := true);
      }
      if IsUnderline(attrs) {
        fs := fs.(underline := true);
      }
    }

    /** `wattroff` on a window. */
    method Attroff()
      modifies this
      ensures State() == WindowSpec.Attroff(old(State()))
    {
      fg := DefaultFg;
      bg := Black;
      fs := fs.(bold := false);
      fs := fs.(italic := false);
      fs := fs.(underline := false);
    }
  }

  /** `newwin`: null for a negative origin, otherwise a fresh window; a zero
      size is the rest of the terminal (`termx` columns, `termy` lines). */
  method Newwin(nlines: int, ncols: int, beginY: int, beginX: int, termx: int, termy: int) returns (win: Window?)
    requires beginY >= 0 && beginX >= 0 ==>
      Resolve(ncols, termx - beginX) >= 0 && Resolve(nlines, termy - beginY) >= 0
    ensures win == null <==> NewWindow(nlines, ncols, beginY, beginX, termx, termy).None?
    ensures win != null ==>
      fresh(win) && win.Valid() && win.State() == NewWindow(nlines, ncols, beginY, beginX, termx, termy).value
  {
    if beginY < 0 || beginX < 0 {
      return null;
    }
    var cols, rows := ncols, nlines;
    if cols == 0 {
      cols := termx - beginX;
    }
    if rows == 0 {
      rows := termy - beginY;
    }
    win := new Window(beginX, beginY, cols, rows);
  }

  /** `wmove_internal`: fails for a null handle. */
  method WmoveInternal(win: Window?, y: int, x: int) returns (ok: bool)
    modifies win
    ensures win == null ==> !ok
    ensures win != null ==> ok == CanMove(old(win.State()), y, x)
    ensures win != null ==> win.State() == WindowSpec.Move(old(win.State()), y, x)
  {
    if win == null {
      return false;
    }
    ok := win.MoveInternal(y, x);
  }

  /** `wmove`. */
  method Wmove(win: Window?, y: int, x: int)
    modifies win
    ensures win != null ==> win.State() == WindowSpec.Move(old(win.State()), y, x)
  {
    var ok := WmoveInternal(win, y, x);
    if !ok {
      return;
    }
    win.cursorx := x;
    win.cursory := y;
  }

  /** `wprintw`: nothing for a null handle. */
  method Wprintw(win: Window?, text: seq<CodePoint>, wcwidth: CodePoint -> Width)
    requires win != null ==> win.Valid()
    modifies win
    ensures win != null ==> win.Valid() && win.State() == Print(old(win.State()), text, wcwidth)
  {
    if win == null {
      return;
    }
    win.Printstring(text, wcwidth);
  }

  /** `mvwprintw`: nothing at all, not even the draw flag, when the move
      fails. */
  method Mvwprintw(win: Window?, y: int, x: int, text: seq<CodePoint>, wcwidth: CodePoint -> Width)
    requires win != null ==> win.Valid()
    modifies win
    ensures win != null ==> win.Valid()
    ensures win != null && !CanMove(old(win.State()), y, x) ==> win.State() == old(win.State())
    ensures win != null && CanMove(old(win.State()), y, x) ==>
      win.State() == Print(WindowSpec.Move(old(win.State()), y, x), text, wcwidth)
  {
    var ok := WmoveInternal(win, y, x);
    if !ok {
      return;
    }
    win.Printstring(text, wcwidth);
  }

  /** `waddch`. The source dereferences the handle without a check, so it
      must not be null. */
  method Waddch(win: Window, ch: int, t: LineTable, wcwidth: CodePoint -> Width)
    requires win.Valid()
    modifies win
    ensures win.Valid() && win.State() == Addch(old(win.State()), ch, t, wcwidth)
  {
    var charcode := Charcode(t, ch);
    var buffer := if charcode == 0 then [] else [ByteCodePoint(charcode)];
    win.Printstring(buffer, wcwidth);
  }

  /** `mvwaddch`. */
  method Mvwaddch(win: Window?, y: int, x: int, ch: int, t: LineTable, wcwidth: CodePoint -> Width)
    requires win != null ==> win.Valid()
    modifies win
    ensures win != null ==> win.Valid() && win.State() == MvAddch(old(win.State()), y, x, ch, t, wcwidth)
  {
    var ok := WmoveInternal(win, y, x);
    if !ok {
      return;
    }
    Waddch(win, ch, t, wcwidth);
  }

  /** One `mvwaddch` per element of `puts`, in order: the loops of
      `wborder`, `mvwhline` and `mvwvline`. */
  method DrawPuts(win: Window?, puts: seq<Put>, t: LineTable, wcwidth: CodePoint -> Width)
    requires win != null ==> win.Valid()
    modifies win
    ensures win != null ==> win.Valid() && win.State() == ApplyPuts(old(win.State()), puts, t, wcwidth)
  {
    var i := 0;
    while i < |puts|
      invariant 0 <= i <= |puts|
      invariant win != null ==> win.Valid() && win.State() == ApplyPuts(old(win.State()), puts[..i], t, wcwidth)
    {
      Mvwaddch(win, puts[i].y, puts[i].x, puts[i].ch, t, wcwidth);
      assert puts[..i + 1][..i] == puts[..i];
      i := i + 1;
    }
    assert puts[..i] == puts;
  }

  /** The eight write loops and branches of `wborder`, run by run. */
  method DrawBorderRuns(win: Window, c: BorderChars, t: LineTable, wcwidth: CodePoint -> Width)
    requires win.Valid()
    modifies win
    ensures win.Valid() && win.State() == DrawBorder(old(win.State()), c, t, wcwidth)
  {
    var runs := BorderRuns(win.width, win.height, c, t);
    DrawPuts(win, runs[0], t, wcwidth);
    DrawPuts(win, runs[1], t, wcwidth);
    DrawPuts(win, runs[2], t, wcwidth);
    DrawPuts(win, runs[3], t, wcwidth);
    DrawPuts(win, runs[4], t, wcwidth);
  }

  /** `wborder`. */
  method Wborder(win: Window?, c: BorderChars, t: LineTable, wcwidth: CodePoint -> Width)
    requires win != null ==> win.Valid()
    modifies win
    ensures win != null ==> win.Valid() && win.State() == Border(old(win.State()), c, t, wcwidth)
  {
    if win == null {
      return;
    }
    var oldx := win.cursorx;
    var oldy := win.cursory;
    DrawBorderRuns(win, c, t, wcwidth);
    Wmove(win, oldy, oldx);
    Wattroff(win);
  }

  /** `mvwhline`. */
  method Mvwhline(win: Window?, y: int, x: int, ch: int, n: int,
                  table: ColorPairTable, border: NcColor, t: LineTable, wcwidth: CodePoint -> Width)
    requires win != null ==> win.Valid()
    requires table.Valid() && ToColorPairIndex(border) < 100
    modifies win
    ensures win != null ==> win.Valid()
    ensures win != null ==> (win.State() ==
      DrawLine(old(win.State()), table.pairs[ToColorPairIndex(border) as int], border, HlinePuts(y, x, ch, n, t), t, wcwidth))
  {
    Wattron(win, table, border);
    DrawPuts(win, HlinePuts(y, x, ch, n, t), t, wcwidth);
    Wattroff(win);
  }

  /** `mvwvline`. */
  method Mvwvline(win: Window?, y: int, x: int, ch: int, n: int,
                  table: ColorPairTable, border: NcColor, t: LineTable, wcwidth: CodePoint -> Width)
    requires win != null ==> win.Valid()
    requires table.Valid() && ToColorPairIndex(border) < 100
    modifies win
    ensures win != null ==> win.Valid()
    ensures win != null ==> (win.State() ==
      DrawLine(old(win.State()), table.pairs[ToColorPairIndex(border) as int], border, VlinePuts(y, x, ch, n, t), t, wcwidth))
  {
    Wattron(win, table, border);
    DrawPuts(win, VlinePuts(y, x, ch, n, t), t, wcwidth);
    Wattroff(win);
  }

  /** `werase`: nothing for a null handle. */
  method Werase(win: Window?)
    requires win != null ==> win.Valid()
    modifies win
    ensures win != null ==> win.Valid() && win.State() == WindowSpec.Erase(old(win.State()))
  {
    if win == null {
      return;
    }
    win.Erase();
  }

  /** `wclear`: `werase`, then the rows of the root window `stdscr` above the
      cleared window's origin are marked touched. The source dereferences
      `stdscr` without a check. `win` may be `stdscr` itself. */
  method Wclear(win: Window?, stdscr: Window?)
    requires win != null ==> win.Valid() && stdscr != null && stdscr.Valid()
    modifies win, stdscr
    ensures win == null ==> stdscr == null || stdscr.State() == old(stdscr.State())
    ensures win != null && win != stdscr ==>
      && win.State() == WindowSpec.Erase(old(win.State()))
      && stdscr.State() == TouchRowsAbove(old(stdscr.State()), win.y)
    ensures win != null && win == stdscr ==>
      win.State() == TouchRowsAbove(WindowSpec.Erase(old(win.State())), win.y)
  {
    Werase(win);
    if win == null {
      return;
    }
    ghost var erased := win.State();
    ghost var before := stdscr.State();
    var i := 0;
    while i < win.y && i < stdscr.height
      invariant 0 <= i <= stdscr.height
      invariant i <= win.y || i == 0
      invariant stdscr.State() == TouchRowsAbove(before, i)
      invariant win != stdscr ==> win.State() == erased
      modifies stdscr
    {
      stdscr.lines := stdscr.lines[i := stdscr.lines[i].(touched := true)];
      i := i + 1;
    }
    assert TouchRowsAbove(before, i).lines == TouchRowsAbove(before, win.y).lines;
  }

  /** `wattron`: nothing for a null handle. The source does not check the
      pair index against the size of the table. */
  method Wattron(win: Window?, table: ColorPairTable, attrs: NcColor)
    requires win != null ==> table.Valid() && ToColorPairIndex(attrs) < 100
    modifies win
    ensures win != null ==>
      win.State() == WindowSpec.Attron(old(win.State()), table.pairs[ToColorPairIndex(attrs) as int], attrs)
  {
    if win == null {
      return;
    }
    win.Attron(table, attrs);
  }

  /** `wattroff`: nothing for a null handle. */
  method Wattroff(win: Window?)
    modifies win
    ensures win != null ==> win.State() == WindowSpec.Attroff(old(win.State()))
  {
    if win == null {
      return;
    }
    win.Attroff();
  }

  /** `getmaxx`, `getmaxy`, `getbegx`, `getbegy`, `getcurx`, `getcury`: a
      field of the window, or 0 for a null handle. */
  function GetMaxX(win: Window?): (r: int)
    reads win
    ensures r == if win == null then 0 else win.State().width
  {
    if win == null then 0 else win.width
  }

  function GetMaxY(win: Window?): (r: int)
    reads win
    ensures r == if win == null then 0 else win.State().height
  {
    if win == null then 0 else win.height
  }

  function GetBegX(win: Window?): (r: int)
    reads win
    ensures r == if win == null then 0 else win.State().x
  {
    if win == null then 0 else win.x
  }

  function GetBegY(win: Window?): (r: int)
    reads win
    ensures r == if win == null then 0 else win.State().y
  {
    if win == null then 0 else win.y
  }

  function GetCurX(win: Window?): (r: int)
    reads win
    ensures r == if win == null then 0 else win.State().cursorx
  {
    if win == null then 0 else win.cursorx
  }

  function GetCurY(win: Window?): (r: int)
    reads win
    ensures r == if win == null then 0 else win.State().cursory
  {
    if win == null then 0 else win.cursory
  }
}
