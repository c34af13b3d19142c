/** `waddch` and the line-drawing operations built on it (`wborder`,
    `mvwhline`, `mvwvline`) as functions on the value of a window: each is a
    sequence of single-character writes at given positions. */
module Drawing {
  import opened DisplayUnit
  import opened Attributes
  import opened WindowSpec
  import opened Layout
  import opened Runs

  type Byte = b: int | 0 <= b < 256

  /** The box-drawing codes `waddch` recognises, named by the lines they
      join (north, east, south, west; X for a line, O for none). */
  datatype LineCode = XOXO | OXOX | XXOO | OXXO | OOXX | XOOX | XXOX | XXXO | XOXX | OXXX | XXXX

  /** The `chtype` value of each box-drawing code and the byte drawn for it.
      Both are defined outside cursesport.cpp, so they are parameters here. */
  datatype LineTable = LineTable(code: LineCode -> int, glyph: LineCode -> Byte)

  /** The cases of the `waddch` switch, in order. */
  const SwitchCases: seq<LineCode> := [XOXO, OXOX, XXOO, OXXO, OOXX, XOOX, XXOX, XXXO, XOXX, OXXX, XXXX]

  /** The first of `cases` whose code is `ch`. */
  function FindCase(t: LineTable, ch: int, cases: seq<LineCode>): (r: Option<LineCode>)
  {
    if |cases| == 0 then None
    else if t.code(cases[0]) == ch then Some(cases[0])
    else FindCase(t, ch, cases[1..])
  }

  /** `FindCase` finds nothing exactly when no case has the code `ch`, and
      otherwise one of the cases, carrying that code. */
  lemma {:induction false} FindCaseFinds(t: LineTable, ch: int, cases: seq<LineCode>)
    ensures FindCase(t, ch, cases).None? <==> forall i :: 0 <= i < |cases| ==> t.code(cases[i]) != ch
    ensures FindCase(t, ch, cases).Some? ==> FindCase(t, ch, cases).value in cases && t.code(FindCase(t, ch, cases).value) == ch
    decreases |cases|
  {
    if |cases| > 0 && t.code(cases[0]) != ch {
      FindCaseFinds(t, ch, cases[1..]);
      assert forall i :: 1 <= i < |cases| ==> cases[i] == cases[1..][i - 1];
    }
  }

  /** The byte `waddch` prints for `ch`: the glyph of a box-drawing code,
      otherwise `ch` cut down to its low byte. */
  function Charcode(t: LineTable, ch: int): (b: Byte)
  {
    match FindCase(t, ch, SwitchCases)
    case Some(k) => t.glyph(k)
    case None => ch % 256
  }

  /** A code that is not a box code is cut to its low byte; a box code that
      exactly one case carries is drawn as that case's glyph. */
  lemma CharcodeCases(t: LineTable, ch: int)
    ensures (forall k :: k in SwitchCases ==> t.code(k) != ch) ==> Charcode(t, ch) == ch % 256
    ensures forall k :: k in SwitchCases && t.code(k) == ch && (forall j :: j in SwitchCases && t.code(j) == ch ==> j == k) ==>
      Charcode(t, ch) == t.glyph(k)
  {
    FindCaseFinds(t, ch, SwitchCases);
  }

  /** A lone byte as text: itself below 0x80, otherwise a raw byte that the
      decoder reports as undecodable, one column wide. */
  function ByteCodePoint(b: Byte): (c: CodePoint)
    ensures b < 0x80 ==> c == b
    ensures b >= 0x80 ==> c == RawBytes + b
  {
    if b < 0x80 then b else RawBytes + b
  }

  /** A raw byte of 0x80 or more is one column wide whatever `wcwidth`
      says. */
  lemma RawByteWidth(b: Byte, wcwidth: CodePoint -> Width)
    requires b >= 0x80
    ensures CharWidth(wcwidth, ByteCodePoint(b)) == 1
  {
  }

  /** The text `waddch` passes to `printstring`: the byte as a one-character
      C string, which is empty when the byte is 0. */
  function AddchText(t: LineTable, ch: int): (text: seq<CodePoint>)
    ensures |text| <= 1
    ensures text == [] <==> Charcode(t, ch) == 0
    ensures text != [] ==> text[0] == ByteCodePoint(Charcode(t, ch))
  {
    var b := Charcode(t, ch);
    if b == 0 then [] else [ByteCodePoint(b)]
  }

  /** Different bytes give different text: the cell keeps which glyph was
      drawn. */
  lemma AddchTextInjective(t: LineTable, a: int, b: int)
    ensures AddchText(t, a) == AddchText(t, b) <==> Charcode(t, a) == Charcode(t, b)
  {
    if Charcode(t, a) != Charcode(t, b) && Charcode(t, a) != 0 && Charcode(t, b) != 0 {
      assert AddchText(t, a)[0] != AddchText(t, b)[0];
    }
  }

  /** `r` differs from `s` at most in its cells, touched flags, cursor and
      draw flag. */
  predicate SameFrame(s: WinState, r: WinState)
  {
    && r.x == s.x && r.y == s.y && r.width == s.width && r.height == s.height
    && r.fg == s.fg && r.bg == s.bg && r.fs == s.fs
  }

  /** `waddch` on a window. */
  function Addch(s: WinState, ch: int, t: LineTable, wcwidth: CodePoint -> Width): (r: WinState)
    requires WellFormed(s)
    ensures WellFormed(r) && SameFrame(s, r) && r.draw
  {
    Print(s, AddchText(t, ch), wcwidth)
  }

  /** `mvwaddch`: a write at (y, x) when that is a cell of the window;
      nothing at all otherwise. */
  function MvAddch(s: WinState, y: int, x: int, ch: int, t: LineTable, wcwidth: CodePoint -> Width): (r: WinState)
    requires WellFormed(s)
    ensures WellFormed(r) && SameFrame(s, r)
    ensures !CanMove(s, y, x) ==> r == s
  {
    if CanMove(s, y, x) then Addch(Move(s, y, x), ch, t, wcwidth) else s
  }

  /** One `mvwaddch` call: where, and which `chtype`. */
  datatype Put = Put(y: int, x: int, ch: int)

  /** The writes of `puts`, in order. */
  function ApplyPuts(s: WinState, puts: seq<Put>, t: LineTable, wcwidth: CodePoint -> Width): (r: WinState)
    requires WellFormed(s)
    decreases |puts|
    ensures WellFormed(r) && SameFrame(s, r)
  {
    if |puts| == 0 then s
    else
      var p := puts[|puts| - 1];
      MvAddch(ApplyPuts(s, puts[..|puts| - 1], t, wcwidth), p.y, p.x, p.ch, t, wcwidth)
  }

  /** Writing two runs of puts is writing their concatenation. */
  lemma {:induction false} ApplyPutsAppend(s: WinState, a: seq<Put>, b: seq<Put>, t: LineTable, wcwidth: CodePoint -> Width)
    requires WellFormed(s)
    ensures ApplyPuts(s, a + b, t, wcwidth) == ApplyPuts(ApplyPuts(s, a, t, wcwidth), b, t, wcwidth)
    decreases |b|
  {
    if |b| == 0 {
      assert a + b == a;
    } else {
      var b' := b[..|b| - 1];
      assert (a + b)[..|a + b| - 1] == a + b';
      assert (a + b)[|a + b| - 1] == b[|b| - 1];
      ApplyPutsAppend(s, a, b', t, wcwidth);
    }
  }

  /** Writes off the window change nothing. */
  lemma {:induction false} ApplyPutsOutside(s: WinState, puts: seq<Put>, t: LineTable, wcwidth: CodePoint -> Width)
    requires WellFormed(s)
    requires forall i :: 0 <= i < |puts| ==> !CanMove(s, puts[i].y, puts[i].x)
    ensures ApplyPuts(s, puts, t, wcwidth) == s
    decreases |puts|
  {
    if |puts| > 0 {
      var init := puts[..|puts| - 1];
      ApplyPutsOutside(s, init, t, wcwidth);
      assert puts[|puts| - 1] == puts[|puts| - 1];
    }
  }

  /** A `chtype` argument of the line functions, with 0 meaning the default
      box-drawing code. */
  function OrDefault(ch: int, t: LineTable, k: LineCode): (r: int)
    ensures ch != 0 ==> r == ch
    ensures ch == 0 ==> r == t.code(k)
  {
    if ch != 0 then ch else t.code(k)
  }

  /** `n` writes of `ch` going right from (y, x) (none for n <= 0). */
  function RowPuts(y: int, x: int, ch: int, n: int): (puts: seq<Put>)
    ensures |puts| == if n > 0 then n else 0
    ensures forall i :: 0 <= i < |puts| ==> puts[i] == Put(y, x + i, ch)
  {
    seq(if n > 0 then n else 0, i => Put(y, x + i, ch))
  }

  /** `n` writes of `ch` going down from (y, x) (none for n <= 0). */
  function ColumnPuts(y: int, x: int, ch: int, n: int): (puts: seq<Put>)
    ensures |puts| == if n > 0 then n else 0
    ensures forall j :: 0 <= j < |puts| ==> puts[j] == Put(y + j, x, ch)
  {
    seq(if n > 0 then n else 0, j => Put(y + j, x, ch))
  }

  /** The eight arguments of `wborder`: sides left, right, top, bottom, then
      corners top-left, top-right, bottom-left, bottom-right. */
  datatype BorderChars = BorderChars(ls: int, rs: int, ts: int, bs: int, tl: int, tr: int, bl: int, br: int)

  /** The writes of `wborder` in its order, as five runs: the left and right
      sides on the rows between the first and the last, the top and bottom
      sides on the columns between the first and the last, then the four
      corners. */
  function BorderRuns(width: int, height: int, c: BorderChars, t: LineTable): (runs: seq<seq<Put>>)
    ensures |runs| == 5
  {
    [ ColumnPuts(1, 0, OrDefault(c.ls, t, XOXO), height - 2),
      ColumnPuts(1, width - 1, OrDefault(c.rs, t, XOXO), height - 2),
      RowPuts(0, 1, OrDefault(c.ts, t, OXOX), width - 2),
      RowPuts(height - 1, 1, OrDefault(c.bs, t, OXOX), width - 2),
      [ Put(0, 0, OrDefault(c.tl, t, OXXO)),
        Put(0, width - 1, OrDefault(c.tr, t, OOXX)),
        Put(height - 1, 0, OrDefault(c.bl, t, XXOO)),
        Put(height - 1, width - 1, OrDefault(c.br, t, XOOX)) ] ]
  }

  /** The window after the border runs. */
  function DrawBorder(s: WinState, c: BorderChars, t: LineTable, wcwidth: CodePoint -> Width): (r: WinState)
    requires WellFormed(s)
    ensures WellFormed(r) && SameFrame(s, r)
  {
    var runs := BorderRuns(s.width, s.height, c, t);
    var s1 := ApplyPuts(s, runs[0], t, wcwidth);
    var s2 := ApplyPuts(s1, runs[1], t, wcwidth);
    var s3 := ApplyPuts(s2, runs[2], t, wcwidth);
    var s4 := ApplyPuts(s3, runs[3], t, wcwidth);
    ApplyPuts(s4, runs[4], t, wcwidth)
  }

  /** `wborder`: the border writes, then the cursor moved back to where it
      was through `wmove` (which fails, leaving the cursor where the last
      write put it, when the saved position is not a cell), then the colours
      reset. It never sets the colours before drawing. */
  function Border(s: WinState, c: BorderChars, t: LineTable, wcwidth: CodePoint -> Width): (r: WinState)
    requires WellFormed(s)
    ensures WellFormed(r) && r.width == s.width && r.height == s.height && r.x == s.x && r.y == s.y
    ensures r.fg == DefaultFg && r.bg == Black && r.fs == Plain
  {
    Attroff(Move(DrawBorder(s, c, t, wcwidth), s.cursory, s.cursorx))
  }

  /** The border puts the cursor back exactly when it started on a cell. */
  lemma BorderRestoresCursor(s: WinState, c: BorderChars, t: LineTable, wcwidth: CodePoint -> Width)
    requires WellFormed(s)
    ensures var r := Border(s, c, t, wcwidth);
      HasCurCell(s) ==> r.cursorx == s.cursorx && r.cursory == s.cursory
    ensures var r, drawn := Border(s, c, t, wcwidth), DrawBorder(s, c, t, wcwidth);
      !HasCurCell(s) ==> (r.cursorx == drawn.cursorx && r.cursory == drawn.cursory)
  {
  }

  /** A window without cells gets no border: only the colours are reset. */
  lemma BorderOfEmptyWindow(s: WinState, c: BorderChars, t: LineTable, wcwidth: CodePoint -> Width)
    requires WellFormed(s) && (s.width == 0 || s.height == 0)
    ensures Border(s, c, t, wcwidth) == Attroff(s)
  {
    var runs: seq<seq<Put>> := BorderRuns(s.width, s.height, c, t);
    forall k | 0 <= k < 5
      ensures forall i :: 0 <= i < |runs[k]| ==> !CanMove(s, runs[k][i].y, runs[k][i].x)
    {
    }
    ApplyPutsOutside(s, runs[0], t, wcwidth);
    ApplyPutsOutside(s, runs[1], t, wcwidth);
    ApplyPutsOutside(s, runs[2], t, wcwidth);
    ApplyPutsOutside(s, runs[3], t, wcwidth);
    ApplyPutsOutside(s, runs[4], t, wcwidth);
  }

  /** `mvwhline` and `mvwvline`: the colours of the border attribute's
      pair, the writes, then the colours reset. */
  function DrawLine(s: WinState, pair: ColorPair, border: NcColor, puts: seq<Put>, t: LineTable, wcwidth: CodePoint -> Width): (r: WinState)
    requires WellFormed(s)
    ensures WellFormed(r) && r.width == s.width && r.height == s.height
    ensures r.fg == DefaultFg && r.bg == Black && r.fs == Plain
  {
    Attroff(ApplyPuts(Attron(s, pair, border), puts, t, wcwidth))
  }

  /** The writes of `mvwhline`: `n` cells going right from (y, x), each
      with `ch`, or with the horizontal line code when `ch` is 0. */
  function HlinePuts(y: int, x: int, ch: int, n: int, t: LineTable): (puts: seq<Put>)
    ensures |puts| == if n > 0 then n else 0
    ensures forall i :: 0 <= i < |puts| ==> puts[i] == Put(y, x + i, if ch != 0 then ch else t.code(OXOX))
  {
    RowPuts(y, x, OrDefault(ch, t, OXOX), n)
  }

  /** The writes of `mvwvline`: `n` cells going down from (y, x), each
      with `ch`, or with the vertical line code when `ch` is 0. */
  function VlinePuts(y: int, x: int, ch: int, n: int, t: LineTable): (puts: seq<Put>)
    ensures |puts| == if n > 0 then n else 0
    ensures forall j :: 0 <= j < |puts| ==> puts[j] == Put(y + j, x, if ch != 0 then ch else t.code(XOXO))
  {
    ColumnPuts(y, x, OrDefault(ch, t, XOXO), n)
  }

  /** `ch` prints as a single code point one column wide. */
  predicate NarrowGlyph(t: LineTable, ch: int, wcwidth: CodePoint -> Width)
  {
    var text := AddchText(t, ch);
    |text| == 1 && text[0] != Newline && CharWidth(wcwidth, text[0]) == 1
  }

  /** `mvwaddch` of a narrow glyph. At a cell of the window: the cell holds
      the glyph in the window's colours, the cell after it on the row is not
      left empty, and no cell before it in reading order changes, except the
      one just before it when (y, x) was an empty right half. Anywhere else:
      nothing changes. */
  lemma MvAddchNarrow(s: WinState, y: int, x: int, ch: int, t: LineTable, wcwidth: CodePoint -> Width)
    requires WellFormed(s) && NarrowGlyph(t, ch, wcwidth)
    ensures WriteOrSkip(s, MvAddch(s, y, x, ch, t, wcwidth), y, x, Cell(AddchText(t, ch), s.fg, s.bg, s.fs))
  {
    if InWindow(s, y, x) {
      var m := Move(s, y, x);
      var text := AddchText(t, ch);
      assert text == [text[0]];
      PrintNarrowGlyph(m, text[0], wcwidth);
      assert MvAddch(s, y, x, ch, t, wcwidth) == Print(m, [text[0]], wcwidth);
      MovedFrame(s, m, Print(m, [text[0]], wcwidth), y, x, [text[0]]);
    }
  }

  /** The first `k` writes of a row of narrow glyphs from (y, x): every
      cell of the run inside the window holds the glyph in the window's
      colours, and the cell after a run that fits is not left empty. */
  lemma {:induction false} RowDrawn(s: WinState, y: int, x: int, ch: int, k: nat, t: LineTable, wcwidth: CodePoint -> Width)
    requires WellFormed(s) && 0 <= y < s.height && 0 <= x && NarrowGlyph(t, ch, wcwidth)
    ensures RowDrawnInv(ApplyPuts(s, RowPuts(y, x, ch, k), t, wcwidth), y, x, k, Cell(AddchText(t, ch), s.fg, s.bg, s.fs))
    decreases k
  {
    if k > 0 {
      RowDrawn(s, y, x, ch, k - 1, t, wcwidth);
      RowDrawnStep(s, y, x, x + (k - 1), ch, k, t, wcwidth);
    }
  }

  /** The induction step of `RowDrawn`, with c = x + (k - 1). */
  lemma RowDrawnStep(s: WinState, y: int, x: int, c: int, ch: int, k: int, t: LineTable, wcwidth: CodePoint -> Width)
    requires WellFormed(s) && 0 <= y < s.height && 0 <= x && NarrowGlyph(t, ch, wcwidth) && 0 < k && c == x + (k - 1)
    requires RowDrawnInv(ApplyPuts(s, RowPuts(y, x, ch, k - 1), t, wcwidth), y, x, k - 1, Cell(AddchText(t, ch), s.fg, s.bg, s.fs))
    ensures RowDrawnInv(ApplyPuts(s, RowPuts(y, x, ch, k), t, wcwidth), y, x, k, Cell(AddchText(t, ch), s.fg, s.bg, s.fs))
  {
    RowPutsLast(s, y, x, c, ch, k, t, wcwidth);
    RowWrite(ApplyPuts(s, RowPuts(y, x, ch, k - 1), t, wcwidth), y, x, c, ch, k, t, wcwidth);
  }

  /** The write at (y, c), c = x+k-1, extends a drawn run of `k - 1` cells
      by one. */
  lemma RowWrite(prev: WinState, y: int, x: int, c: int, ch: int, k: int, t: LineTable, wcwidth: CodePoint -> Width)
    requires WellFormed(prev) && NarrowGlyph(t, ch, wcwidth) && 0 < k && 0 <= x && 0 <= y < prev.height && c == x + (k - 1)
    requires RowDrawnInv(prev, y, x, k - 1, Cell(AddchText(t, ch), prev.fg, prev.bg, prev.fs))
    ensures RowDrawnInv(MvAddch(prev, y, c, ch, t, wcwidth), y, x, k, Cell(AddchText(t, ch), prev.fg, prev.bg, prev.fs))
  {
    MvAddchNarrow(prev, y, c, ch, t, wcwidth);
    RowStep(prev, MvAddch(prev, y, c, ch, t, wcwidth), y, x, c, k, Cell(AddchText(t, ch), prev.fg, prev.bg, prev.fs));
  }

  /** The writes of a row of length `k` are those of length `k - 1` and one
      more at (y, c), c = x+k-1. */
  lemma RowPutsLast(s: WinState, y: int, x: int, c: int, ch: int, k: int, t: LineTable, wcwidth: CodePoint -> Width)
    requires WellFormed(s) && 0 < k && c == x + (k - 1)
    ensures ApplyPuts(s, RowPuts(y, x, ch, k), t, wcwidth) ==
            MvAddch(ApplyPuts(s, RowPuts(y, x, ch, k - 1), t, wcwidth), y, c, ch, t, wcwidth)
  {
    var puts := RowPuts(y, x, ch, k);
    assert puts[..k - 1] == RowPuts(y, x, ch, k - 1);
    assert puts[k - 1] == Put(y, c, ch);
    ApplyPutsLast(s, puts, t, wcwidth);
  }

  /** The first `k` writes of a column of narrow glyphs from (y, x): every
      cell of the run inside the window holds the glyph in the window's
      colours. */
  lemma {:induction false} ColumnDrawn(s: WinState, y: int, x: int, ch: int, k: nat, t: LineTable, wcwidth: CodePoint -> Width)
    requires WellFormed(s) && 0 <= y && 0 <= x < s.width && NarrowGlyph(t, ch, wcwidth)
    ensures ColumnFilled(ApplyPuts(s, ColumnPuts(y, x, ch, k), t, wcwidth), y, x, k, Cell(AddchText(t, ch), s.fg, s.bg, s.fs))
    decreases k
  {
    if k > 0 {
      ColumnDrawn(s, y, x, ch, k - 1, t, wcwidth);
      ColumnDrawnStep(s, y, x, y + (k - 1), ch, k, t, wcwidth);
    }
  }

  /** The induction step of `ColumnDrawn`, with row = y + (k - 1). */
  lemma ColumnDrawnStep(s: WinState, y: int, x: int, row: int, ch: int, k: int, t: LineTable, wcwidth: CodePoint -> Width)
    requires WellFormed(s) && 0 <= y && 0 <= x < s.width && NarrowGlyph(t, ch, wcwidth) && 0 < k && row == y + (k - 1)
    requires ColumnFilled(ApplyPuts(s, ColumnPuts(y, x, ch, k - 1), t, wcwidth), y, x, k - 1, Cell(AddchText(t, ch), s.fg, s.bg, s.fs))
    ensures ColumnFilled(ApplyPuts(s, ColumnPuts(y, x, ch, k), t, wcwidth), y, x, k, Cell(AddchText(t, ch), s.fg, s.bg, s.fs))
  {
    ColumnPutsLast(s, y, x, row, ch, k, t, wcwidth);
    ColumnWrite(ApplyPuts(s, ColumnPuts(y, x, ch, k - 1), t, wcwidth), y, x, row, ch, k, t, wcwidth);
  }

  /** The write at (row, x), row = y+k-1, extends a drawn run of `k - 1`
      cells by one. */
  lemma ColumnWrite(prev: WinState, y: int, x: int, row: int, ch: int, k: int, t: LineTable, wcwidth: CodePoint -> Width)
    requires WellFormed(prev) && NarrowGlyph(t, ch, wcwidth) && 0 < k && 0 <= y && 0 <= x < prev.width && row == y + (k - 1)
    requires ColumnFilled(prev, y, x, k - 1, Cell(AddchText(t, ch), prev.fg, prev.bg, prev.fs))
    ensures ColumnFilled(MvAddch(prev, row, x, ch, t, wcwidth), y, x, k, Cell(AddchText(t, ch), prev.fg, prev.bg, prev.fs))
  {
    MvAddchNarrow(prev, row, x, ch, t, wcwidth);
    ColumnStep(prev, MvAddch(prev, row, x, ch, t, wcwidth), y, x, row, k, Cell(AddchText(t, ch), prev.fg, prev.bg, prev.fs));
  }

  /** The writes of a column of length `k` are those of length `k - 1` and
      one more at (row, x), row = y+k-1. */
  lemma ColumnPutsLast(s: WinState, y: int, x: int, row: int, ch: int, k: int, t: LineTable, wcwidth: CodePoint -> Width)
    requires WellFormed(s) && 0 < k && row == y + (k - 1)
    ensures ApplyPuts(s, ColumnPuts(y, x, ch, k), t, wcwidth) ==
            MvAddch(ApplyPuts(s, ColumnPuts(y, x, ch, k - 1), t, wcwidth), row, x, ch, t, wcwidth)
  {
    var puts := ColumnPuts(y, x, ch, k);
    assert puts[..k - 1] == ColumnPuts(y, x, ch, k - 1);
    assert puts[k - 1] == Put(row, x, ch);
    ApplyPutsLast(s, puts, t, wcwidth);
  }

  /** The writes of `puts` are those of all but its last element, then the
      last one. */
  lemma ApplyPutsLast(s: WinState, puts: seq<Put>, t: LineTable, wcwidth: CodePoint -> Width)
    requires WellFormed(s) && 0 < |puts|
    ensures var p := puts[|puts| - 1];
      ApplyPuts(s, puts, t, wcwidth) == MvAddch(ApplyPuts(s, puts[..|puts| - 1], t, wcwidth), p.y, p.x, p.ch, t, wcwidth)
  {
  }

  /** `mvwhline` with a narrow glyph: each of the `n` cells from (y, x) that
      lies inside the window ends up holding the glyph in the colours the
      border attribute selects, and the colours are reset afterwards. */
  lemma HlineDraws(s: WinState, pair: ColorPair, border: NcColor, y: int, x: int, ch: int, n: int,
                   t: LineTable, wcwidth: CodePoint -> Width)
    requires WellFormed(s) && 0 <= y < s.height && 0 <= x
    requires NarrowGlyph(t, OrDefault(ch, t, OXOX), wcwidth)
    ensures var r, a := DrawLine(s, pair, border, HlinePuts(y, x, ch, n, t), t, wcwidth), Attron(s, pair, border);
      RowFilled(r, y, x, n, Cell(AddchText(t, OrDefault(ch, t, OXOX)), a.fg, a.bg, a.fs))
  {
    var a := Attron(s, pair, border);
    var k := if n > 0 then n else 0;
    RowDrawn(a, y, x, OrDefault(ch, t, OXOX), k, t, wcwidth);
    assert HlinePuts(y, x, ch, n, t) == RowPuts(y, x, OrDefault(ch, t, OXOX), k);
    var drawn := ApplyPuts(a, RowPuts(y, x, OrDefault(ch, t, OXOX), k), t, wcwidth);
    RowFilledColours(drawn, Attroff(drawn), y, x, k, n, Cell(AddchText(t, OrDefault(ch, t, OXOX)), a.fg, a.bg, a.fs));
  }

  /** `mvwvline` with a narrow glyph: each of the `n` cells down from
      (y, x) that lies inside the window ends up holding the glyph in the
      colours the border attribute selects. */
  lemma VlineDraws(s: WinState, pair: ColorPair, border: NcColor, y: int, x: int, ch: int, n: int,
                   t: LineTable, wcwidth: CodePoint -> Width)
    requires WellFormed(s) && 0 <= y && 0 <= x < s.width
    requires NarrowGlyph(t, OrDefault(ch, t, XOXO), wcwidth)
    ensures var r, a := DrawLine(s, pair, border, VlinePuts(y, x, ch, n, t), t, wcwidth), Attron(s, pair, border);
      ColumnFilled(r, y, x, n, Cell(AddchText(t, OrDefault(ch, t, XOXO)), a.fg, a.bg, a.fs))
  {
    var a := Attron(s, pair, border);
    var k := if n > 0 then n else 0;
    ColumnDrawn(a, y, x, OrDefault(ch, t, XOXO), k, t, wcwidth);
    assert VlinePuts(y, x, ch, n, t) == ColumnPuts(y, x, OrDefault(ch, t, XOXO), k);
    var drawn := ApplyPuts(a, ColumnPuts(y, x, OrDefault(ch, t, XOXO), k), t, wcwidth);
    ColumnFilledColours(drawn, Attroff(drawn), y, x, k, n, Cell(AddchText(t, OrDefault(ch, t, XOXO)), a.fg, a.bg, a.fs));
  }

  /** A line of no cells only resets the colours: what the border attribute
      switched on does not survive. */
  lemma EmptyLineResets(s: WinState, pair: ColorPair, border: NcColor, t: LineTable, wcwidth: CodePoint -> Width)
    requires WellFormed(s)
    ensures DrawLine(s, pair, border, [], t, wcwidth) == Attroff(s)
  {
    AttroffForgetsAttron(s, pair, border);
  }

  // ---------------------------------------------------------------------
  // What a run of narrow writes leaves alone

  /** `mvwaddch` of a narrow glyph leaves every cell that held text holding
      text, and changes none of them but (y, x) and, when (y, x) was an
      empty right half, the cell before it. */
  lemma MvAddchKeeps(s: WinState, y: int, x: int, ch: int, t: LineTable, wcwidth: CodePoint -> Width)
    requires WellFormed(s) && NarrowGlyph(t, ch, wcwidth)
    ensures KeepsNonEmpty(s, MvAddch(s, y, x, ch, t, wcwidth), y, x)
  {
    if InWindow(s, y, x) {
      var m := Move(s, y, x);
      var text := AddchText(t, ch);
      assert text == [text[0]];
      PrintNarrowKeeps(m, text[0], wcwidth);
      assert MvAddch(s, y, x, ch, t, wcwidth) == Print(m, [text[0]], wcwidth);
      MovedKeeps(s, m, Print(m, [text[0]], wcwidth), y, x);
    }
  }

  /** Every write of `puts` is of a narrow glyph. */
  predicate AllNarrow(t: LineTable, puts: seq<Put>, wcwidth: CodePoint -> Width)
  {
    forall k :: 0 <= k < |puts| ==> NarrowGlyph(t, puts[k].ch, wcwidth)
  }

  /** Narrow writes never empty a cell. */
  lemma {:induction false} PutsKeepNonEmpty(s: WinState, puts: seq<Put>, t: LineTable, wcwidth: CodePoint -> Width)
    requires WellFormed(s) && AllNarrow(t, puts, wcwidth)
    ensures forall i, j :: NonEmpty(s, i, j) ==> NonEmpty(ApplyPuts(s, puts, t, wcwidth), i, j)
    decreases |puts|
  {
    if |puts| > 0 {
      var init, p := puts[..|puts| - 1], puts[|puts| - 1];
      assert AllNarrow(t, init, wcwidth);
      PutsKeepNonEmpty(s, init, t, wcwidth);
      MvAddchKeeps(ApplyPuts(s, init, t, wcwidth), p.y, p.x, p.ch, t, wcwidth);
    }
  }

  /** A cell holding text that no narrow write of `puts` targets keeps its
      contents, provided that its right neighbour already holds text if a
      write targets that neighbour. */
  lemma {:induction false} PutsKeepCell(s: WinState, puts: seq<Put>, i: int, j: int, t: LineTable, wcwidth: CodePoint -> Width)
    requires WellFormed(s) && AllNarrow(t, puts, wcwidth) && NonEmpty(s, i, j)
    requires forall k :: 0 <= k < |puts| ==> puts[k].y != i || puts[k].x != j
    requires forall k :: 0 <= k < |puts| && puts[k].y == i && puts[k].x == j + 1 ==> NonEmpty(s, i, j + 1)
    ensures At(ApplyPuts(s, puts, t, wcwidth), i, j) == At(s, i, j)
    decreases |puts|
  {
    if |puts| > 0 {
      var init, p := puts[..|puts| - 1], puts[|puts| - 1];
      assert AllNarrow(t, init, wcwidth);
      PutsKeepCell(s, init, i, j, t, wcwidth);
      var prev := ApplyPuts(s, init, t, wcwidth);
      MvAddchKeeps(prev, p.y, p.x, p.ch, t, wcwidth);
      if p.y == i && p.x == j + 1 {
        PutsKeepNonEmpty(s, init, t, wcwidth);
        assert NonEmpty(prev, i, j + 1);
      }
      assert NonEmpty(prev, i, j);
    }
  }

  // ---------------------------------------------------------------------
  // What `wborder` draws

  /** All eight glyphs of a border, defaults included, print as one narrow
      code point. */
  predicate BorderNarrow(c: BorderChars, t: LineTable, wcwidth: CodePoint -> Width)
  {
    && NarrowGlyph(t, OrDefault(c.ls, t, XOXO), wcwidth) && NarrowGlyph(t, OrDefault(c.rs, t, XOXO), wcwidth)
    && NarrowGlyph(t, OrDefault(c.ts, t, OXOX), wcwidth) && NarrowGlyph(t, OrDefault(c.bs, t, OXOX), wcwidth)
    && NarrowGlyph(t, OrDefault(c.tl, t, OXXO), wcwidth) && NarrowGlyph(t, OrDefault(c.tr, t, OOXX), wcwidth)
    && NarrowGlyph(t, OrDefault(c.bl, t, XXOO), wcwidth) && NarrowGlyph(t, OrDefault(c.br, t, XOOX), wcwidth)
  }

  /** The cell `ch` is drawn as in the current colours of `s`. */
  function Drawn(s: WinState, ch: int, t: LineTable): Cell
  {
    Cell(AddchText(t, ch), s.fg, s.bg, s.fs)
  }

  /** Every write of `puts` targets a cell of a `width` by `height` window,
      and no two target the same cell. */
  predicate Apart(puts: seq<Put>, width: int, height: int)
  {
    && (forall k :: 0 <= k < |puts| ==> 0 <= puts[k].y < height && 0 <= puts[k].x < width)
    && (forall k, m :: 0 <= k < m < |puts| ==> puts[k].y != puts[m].y || puts[k].x != puts[m].x)
  }

  /** The target cell of `p` holds its glyph in the colours of `q`, and the
      cell after it on the row, if the window has one, holds text. */
  ghost predicate DrawnAt(r: WinState, p: Put, q: WinState, t: LineTable)
  {
    && Shaped(r) && InWindow(r, p.y, p.x)
    && At(r, p.y, p.x) == Drawn(q, p.ch, t)
    && (p.x + 1 < r.width ==> NonEmpty(r, p.y, p.x + 1))
  }

  /** `r` is `prev` after a narrow write of `cell` at the target of `p`. */
  ghost predicate NarrowStep(prev: WinState, r: WinState, p: Put, cell: Cell)
  {
    WriteOrSkip(prev, r, p.y, p.x, cell) && KeepsNonEmpty(prev, r, p.y, p.x)
  }

  /** The windows after each prefix of `puts`, from none of them to all. */
  ghost function Trace(q: WinState, puts: seq<Put>, t: LineTable, wcwidth: CodePoint -> Width): (st: seq<WinState>)
    requires WellFormed(q)
  {
    seq(|puts| + 1, i requires 0 <= i <= |puts| => ApplyPuts(q, puts[..i], t, wcwidth))
  }

  /** Each write of `puts` takes one window of the trace to the next. */
  lemma PrefixStep(q: WinState, puts: seq<Put>, i: int, t: LineTable, wcwidth: CodePoint -> Width)
    requires WellFormed(q) && 0 <= i < |puts| && NarrowGlyph(t, puts[i].ch, wcwidth)
    ensures NarrowStep(ApplyPuts(q, puts[..i], t, wcwidth), ApplyPuts(q, puts[..i + 1], t, wcwidth), puts[i], Drawn(q, puts[i].ch, t))
  {
    var pre, prev := puts[..i + 1], ApplyPuts(q, puts[..i], t, wcwidth);
    assert pre[..i] == puts[..i];
    ApplyPutsLast(q, pre, t, wcwidth);
    MvAddchNarrow(prev, puts[i].y, puts[i].x, puts[i].ch, t, wcwidth);
    MvAddchKeeps(prev, puts[i].y, puts[i].x, puts[i].ch, t, wcwidth);
  }

  /** The trace of narrow writes: it ends at the window after all of them,
      keeps the shape of `q`, and each write is a narrow step. */
  lemma TraceSteps(q: WinState, puts: seq<Put>, t: LineTable, wcwidth: CodePoint -> Width)
    requires WellFormed(q) && AllNarrow(t, puts, wcwidth)
    ensures var st := Trace(q, puts, t, wcwidth);
      && |st| == |puts| + 1 && st[|puts|] == ApplyPuts(q, puts, t, wcwidth)
      && (forall i :: 0 <= i <= |puts| ==> Shaped(st[i]) && st[i].width == q.width && st[i].height == q.height)
      && (forall i :: 0 <= i < |puts| ==> NarrowStep(st[i], st[i + 1], puts[i], Drawn(q, puts[i].ch, t)))
  {
    var st := Trace(q, puts, t, wcwidth);
    forall i | 0 <= i < |puts|
      ensures NarrowStep(st[i], st[i + 1], puts[i], Drawn(q, puts[i].ch, t))
    {
      PrefixStep(q, puts, i, t, wcwidth);
    }
    assert puts[..|puts|] == puts;
  }

  /** Narrow writes to distinct cells, over any trace of them: after the
      first `n` writes each of their cells holds its glyph. */
  lemma {:induction false} TraceDrawn(q: WinState, st: seq<WinState>, puts: seq<Put>, n: int, t: LineTable, wcwidth: CodePoint -> Width)
    requires |st| == |puts| + 1 && 0 <= n <= |puts| && Apart(puts, q.width, q.height) && AllNarrow(t, puts, wcwidth)
    requires forall i :: 0 <= i <= |puts| ==> Shaped(st[i]) && st[i].width == q.width && st[i].height == q.height
    requires forall i :: 0 <= i < |puts| ==> NarrowStep(st[i], st[i + 1], puts[i], Drawn(q, puts[i].ch, t))
    ensures forall k :: 0 <= k < n ==> DrawnAt(st[n], puts[k], q, t)
    decreases n
  {
    if n > 0 {
      TraceDrawn(q, st, puts, n - 1, t, wcwidth);
      DrawnStep(q, st[n - 1], st[n], puts, n - 1, t, wcwidth);
    }
  }

  /** Narrow writes to distinct cells of the window: each cell ends up
      holding the glyph written to it. A later write can disturb an earlier
      cell only by targeting it, or by targeting an empty cell right after
      it; the first never happens here, and the cell after a written one is
      never empty. */
  lemma DistinctPutsDrawn(q: WinState, puts: seq<Put>, t: LineTable, wcwidth: CodePoint -> Width)
    requires WellFormed(q) && AllNarrow(t, puts, wcwidth) && Apart(puts, q.width, q.height)
    ensures forall k :: 0 <= k < |puts| ==> DrawnAt(ApplyPuts(q, puts, t, wcwidth), puts[k], q, t)
  {
    TraceSteps(q, puts, t, wcwidth);
    TraceDrawn(q, Trace(q, puts, t, wcwidth), puts, |puts|, t, wcwidth);
  }

  /** Write `m` of a trace: `r` is `prev` after a narrow write to a cell no
      earlier write targeted. */
  lemma DrawnStep(q: WinState, prev: WinState, r: WinState, puts: seq<Put>, m: int, t: LineTable, wcwidth: CodePoint -> Width)
    requires 0 <= m < |puts| && Apart(puts, prev.width, prev.height) && AllNarrow(t, puts, wcwidth)
    requires forall k :: 0 <= k < m ==> DrawnAt(prev, puts[k], q, t)
    requires NarrowStep(prev, r, puts[m], Drawn(q, puts[m].ch, t))
    ensures forall k :: 0 <= k < m + 1 ==> DrawnAt(r, puts[k], q, t)
  {
    forall k | 0 <= k < m + 1
      ensures DrawnAt(r, puts[k], q, t)
    {
      if k < m {
        EarlierDrawnKept(q, prev, r, puts[k], puts[m], t, wcwidth);
      } else {
        LastDrawn(q, prev, r, puts[m], t);
      }
    }
  }

  /** A cell drawn before a narrow write to another cell of the window
      stays drawn. */
  lemma EarlierDrawnKept(q: WinState, prev: WinState, r: WinState, e: Put, p: Put, t: LineTable, wcwidth: CodePoint -> Width)
    requires DrawnAt(prev, e, q, t) && NarrowGlyph(t, e.ch, wcwidth) && InWindow(prev, p.y, p.x)
    requires e.y != p.y || e.x != p.x
    requires KeepsNonEmpty(prev, r, p.y, p.x)
    ensures DrawnAt(r, e, q, t)
  {
    assert NonEmpty(prev, e.y, e.x);
    assert e.y == p.y && e.x == p.x - 1 ==> NonEmpty(prev, p.y, p.x);
  }

  /** The cell a narrow write targets is drawn after it. */
  lemma LastDrawn(q: WinState, prev: WinState, r: WinState, p: Put, t: LineTable)
    requires InWindow(prev, p.y, p.x) && WriteOrSkip(prev, r, p.y, p.x, Drawn(q, p.ch, t))
    ensures DrawnAt(r, p, q, t)
  {
  }

  /** The writes of `wborder` as one list. */
  function BorderPuts(width: int, height: int, c: BorderChars, t: LineTable): (puts: seq<Put>)
  {
    var runs := BorderRuns(width, height, c, t);
    runs[0] + runs[1] + runs[2] + runs[3] + runs[4]
  }

  /** The runs of `wborder` one after the other are the list of its writes. */
  lemma DrawBorderFlat(s: WinState, c: BorderChars, t: LineTable, wcwidth: CodePoint -> Width)
    requires WellFormed(s)
    ensures DrawBorder(s, c, t, wcwidth) == ApplyPuts(s, BorderPuts(s.width, s.height, c, t), t, wcwidth)
  {
    var runs := BorderRuns(s.width, s.height, c, t);
    ApplyPutsAppend(s, runs[0], runs[1], t, wcwidth);
    ApplyPutsAppend(s, runs[0] + runs[1], runs[2], t, wcwidth);
    ApplyPutsAppend(s, runs[0] + runs[1] + runs[2], runs[3], t, wcwidth);
    ApplyPutsAppend(s, runs[0] + runs[1] + runs[2] + runs[3], runs[4], t, wcwidth);
  }

  /** Where each write of `wborder` goes, for a window at least two cells
      wide and high: the left side, the right side, the top, the bottom,
      then the corners. */
  lemma BorderPutsAt(w: int, h: int, c: BorderChars, t: LineTable)
    requires w >= 2 && h >= 2
    ensures var puts, n, m := BorderPuts(w, h, c, t), h - 2, w - 2;
      && |puts| == 2 * n + 2 * m + 4
      && (forall k :: 0 <= k < n ==> puts[k] == Put(1 + k, 0, OrDefault(c.ls, t, XOXO)))
      && (forall k :: n <= k < 2 * n ==> puts[k] == Put(1 + (k - n), w - 1, OrDefault(c.rs, t, XOXO)))
      && (forall k :: 2 * n <= k < 2 * n + m ==> puts[k] == Put(0, 1 + (k - 2 * n), OrDefault(c.ts, t, OXOX)))
      && (forall k :: 2 * n + m <= k < 2 * n + 2 * m ==> puts[k] == Put(h - 1, 1 + (k - 2 * n - m), OrDefault(c.bs, t, OXOX)))
      && puts[2 * n + 2 * m] == Put(0, 0, OrDefault(c.tl, t, OXXO))
      && puts[2 * n + 2 * m + 1] == Put(0, w - 1, OrDefault(c.tr, t, OOXX))
      && puts[2 * n + 2 * m + 2] == Put(h - 1, 0, OrDefault(c.bl, t, XXOO))
      && puts[2 * n + 2 * m + 3] == Put(h - 1, w - 1, OrDefault(c.br, t, XOOX))
  {
    var runs := BorderRuns(w, h, c, t);
    var n, m := h - 2, w - 2;
  }

  /** The writes of `wborder` in a window at least two cells wide and high
      target distinct cells of the window, and with narrow glyphs they are
      all narrow. */
  lemma BorderPutsApart(w: int, h: int, c: BorderChars, t: LineTable, wcwidth: CodePoint -> Width)
    requires w >= 2 && h >= 2
    ensures Apart(BorderPuts(w, h, c, t), w, h)
    ensures BorderNarrow(c, t, wcwidth) ==> AllNarrow(t, BorderPuts(w, h, c, t), wcwidth)
  {
    BorderPutsInWindow(w, h, c, t);
    BorderPutsDistinct(w, h, c, t);
    BorderPutsAt(w, h, c, t);
  }

  /** Each write of `wborder` targets a cell of the window. */
  lemma BorderPutsInWindow(w: int, h: int, c: BorderChars, t: LineTable)
    requires w >= 2 && h >= 2
    ensures var puts := BorderPuts(w, h, c, t);
      forall k :: 0 <= k < |puts| ==> 0 <= puts[k].y < h && 0 <= puts[k].x < w
  {
    BorderPutsAt(w, h, c, t);
  }

  /** No two writes of `wborder` target the same cell. */
  lemma BorderPutsDistinct(w: int, h: int, c: BorderChars, t: LineTable)
    requires w >= 2 && h >= 2
    ensures var puts := BorderPuts(w, h, c, t);
      forall k, m :: 0 <= k < m < |puts| ==> puts[k].y != puts[m].y || puts[k].x != puts[m].x
  {
    BorderPutsAt(w, h, c, t);
  }

  /** Every write of the border runs of a window at least two cells wide
      and high, all of narrow glyphs, leaves its glyph in its cell. */
  lemma BorderCellsDrawn(s: WinState, c: BorderChars, t: LineTable, wcwidth: CodePoint -> Width)
    requires WellFormed(s) && s.width >= 2 && s.height >= 2 && BorderNarrow(c, t, wcwidth)
    ensures var puts := BorderPuts(s.width, s.height, c, t);
      forall k :: 0 <= k < |puts| ==> DrawnAt(DrawBorder(s, c, t, wcwidth), puts[k], s, t)
  {
    DrawBorderFlat(s, c, t, wcwidth);
    BorderPutsApart(s.width, s.height, c, t, wcwidth);
    DistinctPutsDrawn(s, BorderPuts(s.width, s.height, c, t), t, wcwidth);
  }

  /** Where the border writes are drawn, the sides and the corners hold
      their glyphs. */
  lemma BorderRegionsDrawn(r: WinState, s: WinState, c: BorderChars, t: LineTable)
    requires Shaped(r) && r.width == s.width >= 2 && r.height == s.height >= 2
    requires var puts := BorderPuts(s.width, s.height, c, t);
      forall k :: 0 <= k < |puts| ==> DrawnAt(r, puts[k], s, t)
    ensures var w, h := s.width, s.height;
      && ColumnFilled(r, 1, 0, h - 2, Drawn(s, OrDefault(c.ls, t, XOXO), t))
      && ColumnFilled(r, 1, w - 1, h - 2, Drawn(s, OrDefault(c.rs, t, XOXO), t))
      && RowFilled(r, 0, 1, w - 2, Drawn(s, OrDefault(c.ts, t, OXOX), t))
      && RowFilled(r, h - 1, 1, w - 2, Drawn(s, OrDefault(c.bs, t, OXOX), t))
      && At(r, 0, 0) == Drawn(s, OrDefault(c.tl, t, OXXO), t)
      && At(r, 0, w - 1) == Drawn(s, OrDefault(c.tr, t, OOXX), t)
      && At(r, h - 1, 0) == Drawn(s, OrDefault(c.bl, t, XXOO), t)
      && At(r, h - 1, w - 1) == Drawn(s, OrDefault(c.br, t, XOOX), t)
  {
    var w, h := s.width, s.height;
    var n, m := h - 2, w - 2;
    var puts := BorderPuts(w, h, c, t);
    BorderPutsAt(w, h, c, t);
    var right, bottom := w - 1, h - 1;
    forall row | 1 <= row < 1 + n && InWindow(r, row, 0)
      ensures At(r, row, 0) == Drawn(s, OrDefault(c.ls, t, XOXO), t)
    {
      assert DrawnAt(r, puts[row - 1], s, t);
    }
    forall row | 1 <= row < 1 + n && InWindow(r, row, right)
      ensures At(r, row, right) == Drawn(s, OrDefault(c.rs, t, XOXO), t)
    {
      assert DrawnAt(r, puts[n + row - 1], s, t);
    }
    forall col | 1 <= col < 1 + m && InWindow(r, 0, col)
      ensures At(r, 0, col) == Drawn(s, OrDefault(c.ts, t, OXOX), t)
    {
      assert DrawnAt(r, puts[2 * n + col - 1], s, t);
    }
    forall col | 1 <= col < 1 + m && InWindow(r, bottom, col)
      ensures At(r, bottom, col) == Drawn(s, OrDefault(c.bs, t, OXOX), t)
    {
      assert DrawnAt(r, puts[2 * n + m + col - 1], s, t);
    }
    assert DrawnAt(r, puts[2 * n + 2 * m], s, t);
    assert DrawnAt(r, puts[2 * n + 2 * m + 1], s, t);
    assert DrawnAt(r, puts[2 * n + 2 * m + 2], s, t);
    assert DrawnAt(r, puts[2 * n + 2 * m + 3], s, t);
  }

  /** The border runs of a window at least two cells wide and high, all of
      narrow glyphs: each side and each corner ends up holding its glyph in
      the colours the window had. */
  lemma DrawBorderDrawn(s: WinState, c: BorderChars, t: LineTable, wcwidth: CodePoint -> Width)
    requires WellFormed(s) && s.width >= 2 && s.height >= 2 && BorderNarrow(c, t, wcwidth)
    ensures var r, w, h := DrawBorder(s, c, t, wcwidth), s.width, s.height;
      && ColumnFilled(r, 1, 0, h - 2, Drawn(s, OrDefault(c.ls, t, XOXO), t))
      && ColumnFilled(r, 1, w - 1, h - 2, Drawn(s, OrDefault(c.rs, t, XOXO), t))
      && RowFilled(r, 0, 1, w - 2, Drawn(s, OrDefault(c.ts, t, OXOX), t))
      && RowFilled(r, h - 1, 1, w - 2, Drawn(s, OrDefault(c.bs, t, OXOX), t))
      && At(r, 0, 0) == Drawn(s, OrDefault(c.tl, t, OXXO), t)
      && At(r, 0, w - 1) == Drawn(s, OrDefault(c.tr, t, OOXX), t)
      && At(r, h - 1, 0) == Drawn(s, OrDefault(c.bl, t, XXOO), t)
      && At(r, h - 1, w - 1) == Drawn(s, OrDefault(c.br, t, XOOX), t)
  {
    BorderCellsDrawn(s, c, t, wcwidth);
    BorderRegionsDrawn(DrawBorder(s, c, t, wcwidth), s, c, t);
  }

  /** `wborder` on a window at least two cells wide and high, all of whose
      border glyphs are narrow: the sides and the corners hold their glyphs
      in the colours the window had before the call, whatever colours it has
      after. */
  lemma BorderDrawn(s: WinState, c: BorderChars, t: LineTable, wcwidth: CodePoint -> Width)
    requires WellFormed(s) && s.width >= 2 && s.height >= 2 && BorderNarrow(c, t, wcwidth)
    ensures var r, w, h := Border(s, c, t, wcwidth), s.width, s.height;
      && ColumnFilled(r, 1, 0, h - 2, Drawn(s, OrDefault(c.ls, t, XOXO), t))
      && ColumnFilled(r, 1, w - 1, h - 2, Drawn(s, OrDefault(c.rs, t, XOXO), t))
      && RowFilled(r, 0, 1, w - 2, Drawn(s, OrDefault(c.ts, t, OXOX), t))
      && RowFilled(r, h - 1, 1, w - 2, Drawn(s, OrDefault(c.bs, t, OXOX), t))
      && At(r, 0, 0) == Drawn(s, OrDefault(c.tl, t, OXXO), t)
      && At(r, 0, w - 1) == Drawn(s, OrDefault(c.tr, t, OOXX), t)
      && At(r, h - 1, 0) == Drawn(s, OrDefault(c.bl, t, XXOO), t)
      && At(r, h - 1, w - 1) == Drawn(s, OrDefault(c.br, t, XOOX), t)
  {
    var w, h := s.width, s.height;
    var d := DrawBorder(s, c, t, wcwidth);
    var r := Border(s, c, t, wcwidth);
    DrawBorderDrawn(s, c, t, wcwidth);
    assert r.lines == d.lines;
    ColumnFilledColours(d, r, 1, 0, h - 2, h - 2, Drawn(s, OrDefault(c.ls, t, XOXO), t));
    ColumnFilledColours(d, r, 1, w - 1, h - 2, h - 2, Drawn(s, OrDefault(c.rs, t, XOXO), t));
    RowFilledColours(d, r, 0, 1, w - 2, w - 2, Drawn(s, OrDefault(c.ts, t, OXOX), t));
    RowFilledColours(d, r, h - 1, 1, w - 2, w - 2, Drawn(s, OrDefault(c.bs, t, OXOX), t));
  }
}
