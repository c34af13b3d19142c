/** `printstring`: laying text out into the grid of a window, one display
    unit per cell, as a function from the window before to the window after. */
module Layout {
  import opened DisplayUnit
  import opened WindowSpec

  /** `r` is `s` after writing: same window, same current colours, cursor
      not above where it was, and no touched flag cleared. */
  ghost predicate Advances(s: WinState, r: WinState)
  {
    && r.x == s.x && r.y == s.y && r.width == s.width && r.height == s.height
    && r.fg == s.fg && r.bg == s.bg && r.fs == s.fs && r.draw == s.draw
    && r.cursory >= s.cursory
    && |r.lines| == |s.lines|
    && forall i :: 0 <= i < |s.lines| && s.lines[i].touched ==> r.lines[i].touched
  }

  /** A narrow unit was written over what used to be the left half of a wide
      glyph: the stale right half, now under the cursor, becomes a space. */
  function RepairHalf(s: WinState): (r: WinState)
    requires WellFormed(s)
    ensures WellFormed(r) && Advances(s, r) && r.cursorx == s.cursorx && r.cursory == s.cursory
    ensures HasCurCell(s) && At(s, s.cursory, s.cursorx).ch == [] ==>
      At(r, s.cursory, s.cursorx) == At(s, s.cursory, s.cursorx).(ch := [Space])
    ensures forall i, j :: InWindow(s, i, j) && (i != s.cursory || j != s.cursorx) ==> At(r, i, j) == At(s, i, j)
    ensures !(HasCurCell(s) && At(s, s.cursory, s.cursorx).ch == []) ==> r == s
    ensures forall i :: 0 <= i < r.height ==> r.lines[i].touched == s.lines[i].touched
  {
    if HasCurCell(s) && At(s, s.cursory, s.cursorx).ch == [] then
      SetCh(s, s.cursory, s.cursorx, [Space])
    else
      s
  }

  /** The text `ch.assign(' ', 1)` stores as the code is written: the call
      picks the overload of `std::string::assign` taking a count and a
      character, so the count is 32 (the code of ' ') and the character is
      U+0001. */
  function SpaceAsWritten(): seq<CodePoint>
  {
    Repeat(1, 32)
  }

  /** `n` copies of `c`. */
  function Repeat(c: CodePoint, n: nat): (t: seq<CodePoint>)
    ensures |t| == n && forall k :: 0 <= k < n ==> t[k] == c
  {
    if n == 0 then [] else [c] + Repeat(c, n - 1)
  }

  /** `RepairHalf` as the code is written: the stale right half gets
      `SpaceAsWritten` instead of one space. */
  function RepairHalfAsWritten(s: WinState): (r: WinState)
    requires WellFormed(s)
    ensures WellFormed(r) && Advances(s, r) && r.cursorx == s.cursorx && r.cursory == s.cursory
    ensures forall i, j :: InWindow(s, i, j) && (i != s.cursory || j != s.cursorx) ==> At(r, i, j) == At(s, i, j)
  {
    if HasCurCell(s) && At(s, s.cursory, s.cursorx).ch == [] then
      SetCh(s, s.cursory, s.cursorx, SpaceAsWritten())
    else
      s
  }

  /** The truncation of a wide glyph that has no cell for its right half,
      as the code is written: the glyph's cell gets `SpaceAsWritten`
      instead of one space. */
  function TruncateAsWritten(s: WinState, gy: int, gx: int): (r: WinState)
    requires WellFormed(s) && InWindow(s, gy, gx)
    ensures WellFormed(r) && Advances(s, r) && r.cursorx == s.cursorx && r.cursory == s.cursory
    ensures forall i, j :: InWindow(s, i, j) && (i != gy || j != gx) ==> At(r, i, j) == At(s, i, j)
  {
    SetCh(s, gy, gx, SpaceAsWritten())
  }

  /** Where `WideHalf` truncates the glyph to one space, the code as
      written leaves 32 control characters U+0001 and no space. */
  lemma TruncateAsWrittenDiffers(s: WinState, gy: int, gx: int)
    requires WellFormed(s) && InWindow(s, gy, gx) && !HasCurCell(s)
    requires (s.cursory == gy && s.cursorx == gx + 1) || (s.cursory == gy + 1 && s.cursorx == 0)
    ensures var a, b := TruncateAsWritten(s, gy, gx), WideHalf(s, gy, gx).0;
      && At(b, gy, gx).ch == [Space]
      && |At(a, gy, gx).ch| == 32
      && forall k :: 0 <= k < 32 ==> At(a, gy, gx).ch[k] == 1 != Space
  {
  }

  /** Where `RepairHalf` leaves one space, the code as written leaves 32
      control characters U+0001 and no space. */
  lemma RepairHalfAsWrittenDiffers(s: WinState)
    requires WellFormed(s) && HasCurCell(s) && At(s, s.cursory, s.cursorx).ch == []
    ensures var a, b, cy, cx := RepairHalfAsWritten(s), RepairHalf(s), s.cursory, s.cursorx;
      && At(b, cy, cx).ch == [Space]
      && |At(a, cy, cx).ch| == 32
      && forall k :: 0 <= k < 32 ==> At(a, cy, cx).ch[k] == 1 != Space
  {
  }

  /** The glyph at (gy, gx) was written into the last column, so its empty
      half went to column 0 of the next row and the cursor is now at column 1.
      The glyph moves into the empty half's cell (py, px), its old cell
      becomes a space, the cursor advances once more, and the cell it then
      designates is emptied. */
  function Relocate(s: WinState, gy: int, gx: int, py: int, px: int): (r: WinState)
    requires WellFormed(s) && InWindow(s, gy, gx) && InWindow(s, py, px)
    requires s.cursorx == 1 && py == s.cursory && px == 0 && gy < py
    ensures WellFormed(r) && Advances(s, r)
    ensures At(r, py, 0) == At(s, py, 0).(ch := At(s, gy, gx).ch)
    ensures At(r, gy, gx) == At(s, gy, gx).(ch := [Space])
    ensures s.width > 2 ==>
      && r.cursory == py && r.cursorx == 2
      && At(r, py, 2) == At(s, py, 2).(ch := [])
      && forall i, j :: InWindow(s, i, j) && (i != py || j == 1 || j > 2) && (i != gy || j != gx) ==>
           At(r, i, j) == At(s, i, j)
    // only the row of the relocated glyph is touched
    ensures forall i :: 0 <= i < r.height ==> r.lines[i].touched == (s.lines[i].touched || i == py)
  {
    AdvanceEmptying(MoveGlyph(s, gy, gx, py, px))
  }

  /** The text of the cell (gy, gx) moves into the cell (py, px), and
      (gy, gx) becomes a space; colours stay where they were. */
  function MoveGlyph(s: WinState, gy: int, gx: int, py: int, px: int): (r: WinState)
    requires WellFormed(s) && InWindow(s, gy, gx) && InWindow(s, py, px) && gy != py
    ensures WellFormed(r) && r.(lines := s.lines) == s
    ensures forall i :: 0 <= i < r.height ==> r.lines[i].touched == s.lines[i].touched
    ensures At(r, py, px) == At(s, py, px).(ch := At(s, gy, gx).ch)
    ensures At(r, gy, gx) == At(s, gy, gx).(ch := [Space])
    ensures forall i, j :: InWindow(s, i, j) && (i != py || j != px) && (i != gy || j != gx) ==> At(r, i, j) == At(s, i, j)
  {
    SetCh(SetCh(s, py, px, At(s, gy, gx).ch), gy, gx, [Space])
  }

  /** The cursor advances as `addedchar` moves it, and the cell it reaches,
      if any, loses its text. */
  function AdvanceEmptying(s: WinState): (r: WinState)
    requires WellFormed(s) && 0 <= s.cursory < s.height && (s.cursorx < s.width || s.cursorx == 1)
    ensures WellFormed(r) && Advances(s, r)
    ensures r.cursorx == AddedChar(s).cursorx && r.cursory == AddedChar(s).cursory
    ensures forall i :: 0 <= i < r.height ==> r.lines[i].touched == (s.lines[i].touched || i == s.cursory)
    ensures HasCurCell(r) ==> At(r, r.cursory, r.cursorx) == At(s, r.cursory, r.cursorx).(ch := [])
    ensures forall i, j :: InWindow(s, i, j) && (i != r.cursory || j != r.cursorx) ==> At(r, i, j) == At(s, i, j)
  {
    var s1 := AddedChar(s);
    if HasCurCell(s1) then SetCh(s1, s1.cursory, s1.cursorx, []) else s1
  }

  /** `Relocate` in a window one or two columns wide, above the last row:
      the second advance wraps the cursor to column 0 of the row after, and
      that is the cell emptied; nothing else but the glyph's two cells
      changes. */
  lemma RelocateWraps(s: WinState, gy: int, gx: int, py: int, px: int)
    requires WellFormed(s) && InWindow(s, gy, gx) && InWindow(s, py, px)
    requires s.cursorx == 1 && py == s.cursory && px == 0 && gy < py
    requires s.width <= 2 && py < s.height - 1
    ensures var r := Relocate(s, gy, gx, py, px);
      && r.cursory == py + 1 && r.cursorx == 0
      && At(r, py + 1, 0) == At(s, py + 1, 0).(ch := [])
      && forall i, j :: InWindow(s, i, j) && (i != py || j != 0) && (i != gy || j != gx) && (i != py + 1 || j != 0) ==>
           At(r, i, j) == At(s, i, j)
  {
    var s2 := MoveGlyph(s, gy, gx, py, px);
    assert AddedChar(s2).cursory == py + 1 && AddedChar(s2).cursorx == 0;
  }

  /** `Relocate` in a window one or two columns wide, on the last row: the
      cursor is left at column 2 and only the glyph's two cells change. */
  lemma RelocateAtLastRow(s: WinState, gy: int, gx: int, py: int, px: int)
    requires WellFormed(s) && InWindow(s, gy, gx) && InWindow(s, py, px)
    requires s.cursorx == 1 && py == s.cursory && px == 0 && gy < py
    requires s.width <= 2 && py == s.height - 1
    ensures var r := Relocate(s, gy, gx, py, px);
      && r.cursory == py && r.cursorx == 2
      && forall i, j :: InWindow(s, i, j) && (i != py || j != 0) && (i != gy || j != gx) ==> At(r, i, j) == At(s, i, j)
  {
    var s2 := MoveGlyph(s, gy, gx, py, px);
    assert AddedChar(s2).cursory == py && AddedChar(s2).cursorx == 2;
  }

  /** After a wide glyph was written at (gy, gx) and the cursor advanced:
      the next cell becomes its empty right half in the current colours, or,
      when there is no next cell, the glyph is truncated to a space and the
      write stops (the boolean). */
  function WideHalf(s: WinState, gy: int, gx: int): (r: (WinState, bool))
    requires WellFormed(s) && InWindow(s, gy, gx)
    requires (s.cursory == gy && s.cursorx == gx + 1) || (s.cursory == gy + 1 && s.cursorx == 0)
    ensures WellFormed(r.0) && Advances(s, r.0)
    // no next cell: truncate the glyph and stop
    ensures !HasCurCell(s) ==>
      && r.1 && r.0.cursorx == s.cursorx && r.0.cursory == s.cursory
      && At(r.0, gy, gx) == At(s, gy, gx).(ch := [Space])
      && forall i, j :: InWindow(s, i, j) && (i != gy || j != gx) ==> At(r.0, i, j) == At(s, i, j)
    // the next cell is on the glyph's row: it becomes the empty right half
    ensures HasCurCell(s) && s.cursory == gy ==>
      && !r.1
      && At(r.0, gy, gx + 1) == Cell([], s.fg, s.bg, s.fs)
      && (gx + 2 < s.width ==> r.0.cursory == gy && r.0.cursorx == gx + 2)
      && forall i, j :: InWindow(s, i, j) && (i != gy || j != gx + 1) ==> At(r.0, i, j) == At(s, i, j)
    // the glyph sat in the last column: see WideHalfRelocates
    ensures HasCurCell(s) && s.cursory == gy + 1 ==> !r.1
    // the only line touched is the cursor's
    ensures !HasCurCell(s) ==> forall i :: 0 <= i < r.0.height ==> r.0.lines[i].touched == s.lines[i].touched
    ensures HasCurCell(s) ==>
      forall i :: 0 <= i < r.0.height ==> r.0.lines[i].touched == (s.lines[i].touched || i == s.cursory)
  {
    if !HasCurCell(s) then (SetCh(s, gy, gx, [Space]), true)
    else
      if s.cursory == gy then CompanionOnRow(s, gy, gx); (Companion(s, gy, gx), false)
      else (Companion(s, gy, gx), false)
  }

  /** `WideHalf` when there is a next cell: it becomes the empty right half,
      and a glyph that sat in the last column is relocated. */
  function Companion(s: WinState, gy: int, gx: int): (r: WinState)
    requires WellFormed(s) && InWindow(s, gy, gx) && HasCurCell(s)
    requires (s.cursory == gy && s.cursorx == gx + 1) || (s.cursory == gy + 1 && s.cursorx == 0)
    ensures WellFormed(r) && Advances(s, r)
    ensures forall i :: 0 <= i < r.height ==> r.lines[i].touched == (s.lines[i].touched || i == s.cursory)
  {
    var py, px := s.cursory, s.cursorx;
    var s1 := EmptyHalf(s);
    if s1.cursorx == 1 then Relocate(s1, gy, gx, py, px) else s1
  }

  /** A next cell on the glyph's row becomes the empty right half, and
      nothing else changes. */
  lemma CompanionOnRow(s: WinState, gy: int, gx: int)
    requires WellFormed(s) && InWindow(s, gy, gx) && HasCurCell(s)
    requires s.cursory == gy && s.cursorx == gx + 1
    ensures var r := Companion(s, gy, gx);
      && At(r, gy, gx + 1) == Cell([], s.fg, s.bg, s.fs)
      && (gx + 2 < s.width ==> r.cursory == gy && r.cursorx == gx + 2)
      && forall i, j :: InWindow(s, i, j) && (i != gy || j != gx + 1) ==> At(r, i, j) == At(s, i, j)
  {
    assert EmptyHalf(s).cursorx != 1;
  }

  /** The relocation of a glyph written into the last column of a row
      above the last one (in a window at least three columns wide): its old
      cell becomes a space, the glyph moves to column 0 of the next row,
      column 1 keeps its text, column 2 is emptied and the cursor ends at
      column 2. No other cell changes, and only the next row is touched. */
  lemma WideHalfRelocates(s: WinState, gy: int, gx: int)
    requires WellFormed(s) && InWindow(s, gy, gx) && s.width > 2
    requires s.cursory == gy + 1 && s.cursorx == 0 && HasCurCell(s)
    ensures var r := WideHalf(s, gy, gx).0;
      && At(r, gy, gx) == At(s, gy, gx).(ch := [Space])
      && At(r, gy + 1, 0) == Cell(At(s, gy, gx).ch, s.fg, s.bg, s.fs)
      && At(r, gy + 1, 1) == At(s, gy + 1, 1)
      && At(r, gy + 1, 2) == At(s, gy + 1, 2).(ch := [])
      && r.cursory == gy + 1 && r.cursorx == 2
      && (forall i, j :: InWindow(s, i, j) && (i != gy || j != gx) && (i != gy + 1 || j == 1 || j > 2) ==>
            At(r, i, j) == At(s, i, j))
      && forall i :: 0 <= i < s.height ==> r.lines[i].touched == (s.lines[i].touched || i == gy + 1)
  {
    var s1 := EmptyHalf(s);
    assert s1.cursorx == 1 && s1.cursory == gy + 1;
    assert At(s1, gy, gx) == At(s, gy, gx);
    assert At(s1, gy + 1, 0) == Cell([], s.fg, s.bg, s.fs);
    assert WideHalf(s, gy, gx).0 == Relocate(s1, gy, gx, gy + 1, 0);
  }

  /** The same in a window two columns wide, two or more rows above the
      last: the glyph moves to column 0 of the next row, column 1 there keeps
      its text, and the second advance wraps the cursor to column 0 of the
      row after, which is emptied. Only the glyph's new row is touched, so
      the emptied cell's row is not. */
  lemma WideHalfRelocatesTwoColumns(s: WinState, gy: int, gx: int)
    requires WellFormed(s) && InWindow(s, gy, gx) && s.width == 2 && gy + 2 < s.height
    requires s.cursory == gy + 1 && s.cursorx == 0 && HasCurCell(s)
    ensures var r := WideHalf(s, gy, gx).0;
      && At(r, gy, gx) == At(s, gy, gx).(ch := [Space])
      && At(r, gy + 1, 0) == Cell(At(s, gy, gx).ch, s.fg, s.bg, s.fs)
      && At(r, gy + 1, 1) == At(s, gy + 1, 1)
      && r.cursory == gy + 2 && r.cursorx == 0
      && At(r, gy + 2, 0) == At(s, gy + 2, 0).(ch := [])
      && (forall i, j :: InWindow(s, i, j) && (i != gy || j != gx) && (i != gy + 1 || j != 0) && (i != gy + 2 || j != 0) ==>
            At(r, i, j) == At(s, i, j))
      && forall i :: 0 <= i < s.height ==> r.lines[i].touched == (s.lines[i].touched || i == gy + 1)
  {
    var s1 := EmptyHalf(s);
    assert s1.cursorx == 1 && s1.cursory == gy + 1;
    assert At(s1, gy, gx) == At(s, gy, gx);
    assert At(s1, gy + 1, 0) == Cell([], s.fg, s.bg, s.fs);
    assert WideHalf(s, gy, gx).0 == Relocate(s1, gy, gx, gy + 1, 0);
    RelocateWraps(s1, gy, gx, gy + 1, 0);
  }

  /** The same from the row above the last one: there is no row to wrap
      to, and the cursor is left at column 2, beyond the width. */
  lemma WideHalfRelocatesTwoColumnsLastRow(s: WinState, gy: int, gx: int)
    requires WellFormed(s) && InWindow(s, gy, gx) && s.width == 2 && gy + 2 == s.height
    requires s.cursory == gy + 1 && s.cursorx == 0 && HasCurCell(s)
    ensures var r := WideHalf(s, gy, gx).0;
      && At(r, gy, gx) == At(s, gy, gx).(ch := [Space])
      && At(r, gy + 1, 0) == Cell(At(s, gy, gx).ch, s.fg, s.bg, s.fs)
      && r.cursory == gy + 1 && r.cursorx == 2
      && (forall i, j :: InWindow(s, i, j) && (i != gy || j != gx) && (i != gy + 1 || j != 0) ==>
            At(r, i, j) == At(s, i, j))
      && forall i :: 0 <= i < s.height ==> r.lines[i].touched == (s.lines[i].touched || i == gy + 1)
  {
    var s1 := EmptyHalf(s);
    assert s1.cursorx == 1 && s1.cursory == gy + 1;
    assert At(s1, gy, gx) == At(s, gy, gx);
    assert At(s1, gy + 1, 0) == Cell([], s.fg, s.bg, s.fs);
    assert WideHalf(s, gy, gx).0 == Relocate(s1, gy, gx, gy + 1, 0);
    RelocateAtLastRow(s1, gy, gx, gy + 1, 0);
  }

  /** The relocation in a window one column wide, from the row above the
      last one: the glyph moves down to the last row, its old cell becomes a
      space, and the cursor is left at column 2, beyond the width. Only the
      last row becomes touched. */
  lemma WideHalfRelocatesOneColumn(s: WinState, gy: int)
    requires WellFormed(s) && InWindow(s, gy, 0) && s.width == 1 && gy + 2 == s.height
    requires s.cursory == gy + 1 && s.cursorx == 0
    ensures var r := WideHalf(s, gy, 0).0;
      && At(r, gy, 0) == At(s, gy, 0).(ch := [Space])
      && At(r, gy + 1, 0) == Cell(At(s, gy, 0).ch, s.fg, s.bg, s.fs)
      && r.cursory == gy + 1 && r.cursorx == 2
      && (forall i, j :: InWindow(s, i, j) && i != gy && i != gy + 1 ==> At(r, i, j) == At(s, i, j))
      && forall i :: 0 <= i < s.height ==> r.lines[i].touched == (s.lines[i].touched || i == gy + 1)
  {
    var s1 := EmptyHalf(s);
    assert s1.cursorx == 1 && s1.cursory == gy + 1;
    assert At(s1, gy, 0) == At(s, gy, 0);
    assert At(s1, gy + 1, 0) == Cell([], s.fg, s.bg, s.fs);
    assert WideHalf(s, gy, 0).0 == Relocate(s1, gy, 0, gy + 1, 0);
    RelocateAtLastRow(s1, gy, 0, gy + 1, 0);
  }

  /** The cell under the cursor becomes an empty right half in the current
      colours, and the cursor advances past it. */
  function EmptyHalf(s: WinState): (r: WinState)
    requires WellFormed(s) && HasCurCell(s)
    ensures WellFormed(r) && Advances(s, r)
    ensures At(r, s.cursory, s.cursorx) == Cell([], s.fg, s.bg, s.fs)
    ensures forall i, j :: InWindow(s, i, j) && (i != s.cursory || j != s.cursorx) ==> At(r, i, j) == At(s, i, j)
    ensures s.cursorx + 1 < s.width ==> r.cursory == s.cursory && r.cursorx == s.cursorx + 1
    ensures s.cursorx + 1 >= s.width && s.cursory < s.height - 1 ==> r.cursory == s.cursory + 1 && r.cursorx == 0
    ensures s.cursorx + 1 >= s.width && s.cursory == s.height - 1 ==> r.cursory == s.cursory && r.cursorx == s.cursorx + 1
    ensures forall i :: 0 <= i < r.height ==> r.lines[i].touched == (s.lines[i].touched || i == s.cursory)
  {
    AddedChar(UpdateCell(s, s.cursory, s.cursorx, Cell([], s.fg, s.bg, s.fs)))
  }

  /** Writes one display unit into the cell under the cursor; the boolean
      says the write must stop. */
  function WriteUnit(s: WinState, u: Unit): (r: (WinState, bool))
    requires WellFormed(s) && HasCurCell(s) && 0 <= u.width <= 2
    ensures WellFormed(r.0) && Advances(s, r.0)
  {
    var cy, cx := s.cursory, s.cursorx;
    var s1 := SetCh(s, cy, cx, u.text);
    if u.width == 0 then
      (s1, false)
    else
      var s2 := AddedChar(SetStyle(s1, cy, cx));
      if u.width == 1 then (RepairHalf(s2), false) else WideHalf(s2, cy, cx)
  }

  datatype StepResult = StepResult(state: WinState, rest: seq<CodePoint>, stop: bool)

  /** One turn of the main loop of `printstring`: a newline, or one display
      unit. */
  function Step(s: WinState, rest: seq<CodePoint>, wcwidth: CodePoint -> Width): (r: StepResult)
    requires WellFormed(s) && |rest| > 0
    ensures WellFormed(r.state) && Advances(s, r.state) && |r.rest| < |rest|
  {
    if rest[0] == Newline then
      if CanNewLine(s) then StepResult(NewLine(s), rest[1..], false)
      else StepResult(s, rest[1..], true)
    else if !HasCurCell(s) then
      StepResult(s, rest[1..], true)
    else
      var u := Fill(wcwidth, rest);
      var (t, stop) := WriteUnit(s, u);
      StepResult(t, u.rest, stop || t.cursory >= t.height)
  }

  /** The main loop of `printstring`, until the text runs out or a step
      stops it. */
  function Loop(s: WinState, rest: seq<CodePoint>, wcwidth: CodePoint -> Width): (r: WinState)
    requires WellFormed(s)
    decreases |rest|
    ensures WellFormed(r) && Advances(s, r)
  {
    if |rest| == 0 then s
    else
      var st := Step(s, rest, wcwidth);
      if st.stop then st.state else Loop(st.state, st.rest, wcwidth)
  }

  /** What `printstring` does before its loop: a cursor past the right
      edge goes to the next row (or the write ends on the last row), a
      cursor off the grid ends the write, and a cursor on the right half of
      a wide glyph blanks the glyph. The boolean says whether the loop
      runs; it runs only from a cell of the window. */
  function Prepare(s: WinState): (r: (WinState, bool))
    requires WellFormed(s)
    ensures WellFormed(r.0) && Advances(s, r.0)
    ensures r.1 ==> HasCurCell(r.0)
    ensures !r.1 ==> r.0.cursory == s.cursory + 1 || r.0 == s
  {
    if s.cursorx >= s.width && !CanNewLine(s) then (s, false)
    else
      var s2 := if s.cursorx >= s.width then NewLine(s) else s;
      if s2.cursory >= s2.height || s2.cursorx >= s2.width then (s2, false)
      else
        var s3 :=
          if s2.cursorx > 0 && At(s2, s2.cursory, s2.cursorx).ch == [] then
            SetCh(s2, s2.cursory, s2.cursorx - 1, [Space])
          else s2;
        (s3, true)
  }

  /** `printstring`: marks the window as having something to draw, then,
      for non-empty text, prepares the cursor and runs the loop. The result
      stays a well-formed window of the same shape with the same colours,
      the cursor never moves up, and no touched flag is cleared. */
  function Print(s: WinState, text: seq<CodePoint>, wcwidth: CodePoint -> Width): (r: WinState)
    requires WellFormed(s)
    ensures WellFormed(r) && r.draw && Advances(s.(draw := true), r)
  {
    var s1 := s.(draw := true);
    if |text| == 0 then s1
    else
      var p := Prepare(s1);
      if p.1 then Loop(p.0, text, wcwidth) else p.0
  }

  // ---------------------------------------------------------------------
  // Properties of the layout

  /** Writing nothing only marks the window as having something to draw. */
  lemma PrintEmpty(s: WinState, wcwidth: CodePoint -> Width)
    requires WellFormed(s)
    ensures Print(s, [], wcwidth) == s.(draw := true)
  {
  }

  /** Once the cursor is past the last cell of the last row, every further
      code point is dropped, newlines included: output never wraps back to
      the top. */
  lemma {:induction false} LoopDiscardsAtBottom(s: WinState, rest: seq<CodePoint>, wcwidth: CodePoint -> Width)
    requires WellFormed(s) && s.height > 0
    requires s.cursory == s.height - 1 && s.cursorx >= s.width
    ensures Loop(s, rest, wcwidth) == s
  {
  }

  lemma PrintDiscardsAtBottom(s: WinState, text: seq<CodePoint>, wcwidth: CodePoint -> Width)
    requires WellFormed(s) && s.height > 0
    requires s.cursory == s.height - 1 && s.cursorx >= s.width
    ensures Print(s, text, wcwidth) == s.(draw := true)
  {
  }

  /** A newline moves to column 0 of the next row, or, on the last row,
      ends the write and drops the rest of the text. */
  lemma LoopNewline(s: WinState, rest: seq<CodePoint>, wcwidth: CodePoint -> Width)
    requires WellFormed(s)
    ensures CanNewLine(s) ==> Loop(s, [Newline] + rest, wcwidth) == Loop(NewLine(s), rest, wcwidth)
    ensures !CanNewLine(s) ==> Loop(s, [Newline] + rest, wcwidth) == s
  {
    var text := [Newline] + rest;
    assert text[0] == Newline && text[1..] == rest;
    var st := Step(s, text, wcwidth);
    assert st.rest == rest && st.stop == !CanNewLine(s);
    assert st.state == s || st.state == NewLine(s);
  }

  /** Away from newlines and the bottom edge, a turn of the loop writes the
      next display unit into the cell under the cursor. */
  lemma StepWritesUnit(s: WinState, rest: seq<CodePoint>, wcwidth: CodePoint -> Width)
    requires WellFormed(s) && HasCurCell(s) && |rest| > 0 && rest[0] != Newline
    ensures var u, r := Fill(wcwidth, rest), Step(s, rest, wcwidth);
      && r.state == WriteUnit(s, u).0 && r.rest == u.rest
      && r.stop == WriteUnit(s, u).1
  {
  }

  /** A unit of width 0 (combining marks at the start of the text) replaces
      the text of the cell under the cursor, keeps its colours and does not
      advance the cursor; no other cell changes and no line is touched. */
  lemma ZeroWidthUnit(s: WinState, u: Unit)
    requires WellFormed(s) && HasCurCell(s) && u.width == 0
    ensures var r := WriteUnit(s, u);
      && !r.1 && r.0.cursorx == s.cursorx && r.0.cursory == s.cursory
      && At(r.0, s.cursory, s.cursorx) == At(s, s.cursory, s.cursorx).(ch := u.text)
      && (forall i, j :: InWindow(s, i, j) && (i != s.cursory || j != s.cursorx) ==> At(r.0, i, j) == At(s, i, j))
      && forall i :: 0 <= i < s.height ==> r.0.lines[i].touched == s.lines[i].touched
  {
  }

  /** A unit of width 1: it lands in the cursor's cell with the window's
      colours and the cursor advances; if the cell it advances to is an empty
      right half, that cell becomes a space. */
  lemma NarrowUnit(s: WinState, u: Unit)
    requires WellFormed(s) && HasCurCell(s) && u.width == 1
    requires s.cursorx + 1 < s.width
    ensures var r, cy, cx := WriteUnit(s, u), s.cursory, s.cursorx;
      && !r.1
      && r.0.cursory == cy && r.0.cursorx == cx + 1
      && At(r.0, cy, cx) == Cell(u.text, s.fg, s.bg, s.fs)
      && At(r.0, cy, cx + 1) ==
           (var next := At(s, cy, cx + 1); if next.ch == [] then next.(ch := [Space]) else next)
      && (forall i, j :: InWindow(s, i, j) && (i != cy || (j != cx && j != cx + 1)) ==>
            At(r.0, i, j) == At(s, i, j))
      && forall i :: 0 <= i < s.height ==> r.0.lines[i].touched == (s.lines[i].touched || i == cy)
  {
  }

  /** A unit of width 1 in the last column: it lands in the cursor's cell
      and nothing else on its row changes; of the rows below only the first
      cell of the next one can change (a stale right half there becomes a
      space). */
  lemma NarrowUnitAtEdge(s: WinState, u: Unit)
    requires WellFormed(s) && HasCurCell(s) && u.width == 1
    requires s.cursorx + 1 == s.width
    ensures var r, cy, cx := WriteUnit(s, u), s.cursory, s.cursorx;
      && !r.1
      && At(r.0, cy, cx) == Cell(u.text, s.fg, s.bg, s.fs)
      && (cy + 1 < s.height ==> r.0.cursory == cy + 1 && r.0.cursorx == 0)
      && (cy + 1 == s.height ==> r.0.cursory == cy && r.0.cursorx == s.width)
      && (cy + 1 < s.height ==>
            At(r.0, cy + 1, 0) == (var next := At(s, cy + 1, 0); if next.ch == [] then next.(ch := [Space]) else next))
      && (forall i, j :: InWindow(s, i, j) && (i != cy || j != cx) && (i != cy + 1 || j != 0) ==>
            At(r.0, i, j) == At(s, i, j))
      && forall i :: 0 <= i < s.height ==> r.0.lines[i].touched == (s.lines[i].touched || i == cy)
  {
  }

  /** Preparing to print from a cell of the window keeps the cursor and the
      colours; it changes at most the cell before the cursor, which becomes
      a space when the cursor's cell is an empty right half, and nothing at
      all otherwise. */
  lemma PrepareAtCell(s: WinState)
    requires WellFormed(s) && HasCurCell(s)
    ensures var p := Prepare(s);
      && p.1 && p.0.cursory == s.cursory && p.0.cursorx == s.cursorx
      && p.0.fg == s.fg && p.0.bg == s.bg && p.0.fs == s.fs
      && (forall i, j :: InWindow(s, i, j) && (i != s.cursory || j != s.cursorx - 1) ==> At(p.0, i, j) == At(s, i, j))
      && (At(s, s.cursory, s.cursorx).ch != [] ==> p.0 == s)
      && (s.cursorx > 0 && At(s, s.cursory, s.cursorx).ch == [] ==>
            At(p.0, s.cursory, s.cursorx - 1) == At(s, s.cursory, s.cursorx - 1).(ch := [Space]))
  {
  }

  /** Printing a lone newline from the right half of a wide glyph blanks
      the glyph's left half, then moves to the next row; the blanked cell's
      row keeps its touched flag, so a renderer that redraws only touched
      rows does not see the change. */
  lemma NewlineAfterRightHalf(s: WinState, wcwidth: CodePoint -> Width)
    requires WellFormed(s) && HasCurCell(s) && s.cursorx > 0 && s.cursory < s.height - 1
    requires At(s, s.cursory, s.cursorx).ch == []
    ensures var r, cy, cx := Print(s, [Newline], wcwidth), s.cursory, s.cursorx;
      && At(r, cy, cx - 1) == At(s, cy, cx - 1).(ch := [Space])
      && r.lines[cy].touched == s.lines[cy].touched
      && r.cursory == cy + 1 && r.cursorx == 0
  {
    var p := Prepare(s.(draw := true)).0;
    assert p == SetCh(s.(draw := true), s.cursory, s.cursorx - 1, [Space]);
    LoopNewline(p, [], wcwidth);
    assert [Newline] + [] == [Newline];
  }

  /** Printing one narrow code point from a cell of the window writes one
      unit of width 1 holding it. */
  lemma PrintOneNarrow(m: WinState, g: CodePoint, wcwidth: CodePoint -> Width)
    requires WellFormed(m) && HasCurCell(m) && g != Newline && CharWidth(wcwidth, g) == 1
    ensures var s3 := Prepare(m.(draw := true)).0;
      && HasCurCell(s3)
      && Print(m, [g], wcwidth) == WriteUnit(s3, Unit([g], 1, [])).0
  {
    var s3 := Prepare(m.(draw := true)).0;
    PrepareAtCell(m.(draw := true));
    var u := Fill(wcwidth, [g]);
    assert u.width == 1 && u.rest == [] && u.text == [g] by {
      assert u.text + u.rest == [g];
      assert OneCell(wcwidth, u.text, u.width);
      assert |u.text| > 0 && u.text[0] == g;
    }
    StepWritesUnit(s3, [g], wcwidth);
    assert Loop(s3, [g], wcwidth) == Step(s3, [g], wcwidth).state;
  }

  /** Printing one narrow code point from a cell of the window: the cell
      gets the code point in the window's colours, a cell after it on the
      row is not left empty, and the cells before it in reading order keep
      their contents, except the one just before it when the cursor started
      on an empty right half. */
  lemma PrintNarrowGlyph(m: WinState, g: CodePoint, wcwidth: CodePoint -> Width)
    requires WellFormed(m) && HasCurCell(m) && g != Newline && CharWidth(wcwidth, g) == 1
    ensures var r, y, c := Print(m, [g], wcwidth), m.cursory, m.cursorx;
      && At(r, y, c) == Cell([g], m.fg, m.bg, m.fs)
      && (c + 1 < m.width ==> At(r, y, c + 1).ch != [])
      && forall i, j :: InWindow(m, i, j) && (i < y || (i == y && j < c && (j != c - 1 || At(m, y, c).ch != []))) ==>
           At(r, i, j) == At(m, i, j)
  {
    var y, c := m.cursory, m.cursorx;
    var s3 := Prepare(m.(draw := true)).0;
    PrepareAtCell(m.(draw := true));
    PrintOneNarrow(m, g, wcwidth);
    NarrowWrite(s3, g);
    var r := WriteUnit(s3, Unit([g], 1, [])).0;
    PreparedFrame(m, s3, r, g);
  }

  /** The frame of `PrintNarrowGlyph`, from the frames of its two stages:
      `s3` is `m` prepared, and `r` is `s3` after the write. */
  lemma PreparedFrame(m: WinState, s3: WinState, r: WinState, g: CodePoint)
    requires WellFormed(m) && HasCurCell(m)
    requires WellFormed(s3) && s3.width == m.width && s3.height == m.height
    requires WellFormed(r) && r.width == m.width && r.height == m.height
    requires s3.cursory == m.cursory && s3.cursorx == m.cursorx && s3.fg == m.fg && s3.bg == m.bg && s3.fs == m.fs
    requires forall i, j :: InWindow(m, i, j) && (i != m.cursory || j != m.cursorx - 1) ==> At(s3, i, j) == At(m, i, j)
    requires At(m, m.cursory, m.cursorx).ch != [] ==> s3.lines == m.lines
    requires var y, c := s3.cursory, s3.cursorx;
      && At(r, y, c) == Cell([g], s3.fg, s3.bg, s3.fs)
      && (c + 1 < s3.width ==> At(r, y, c + 1).ch != [])
      && forall i, j :: InWindow(s3, i, j) && (i < y || (i == y && j < c)) ==> At(r, i, j) == At(s3, i, j)
    ensures var y, c := m.cursory, m.cursorx;
      && At(r, y, c) == Cell([g], m.fg, m.bg, m.fs)
      && (c + 1 < m.width ==> At(r, y, c + 1).ch != [])
      && forall i, j :: InWindow(m, i, j) && (i < y || (i == y && j < c && (j != c - 1 || At(m, y, c).ch != []))) ==>
           At(r, i, j) == At(m, i, j)
  {
  }

  /** Writing a unit of width 1 puts its text in the cursor's cell, leaves
      the cell after it on the row non-empty, and changes no cell before the
      cursor in reading order. */
  lemma NarrowWrite(s: WinState, g: CodePoint)
    requires WellFormed(s) && HasCurCell(s)
    ensures var r, y, c := WriteUnit(s, Unit([g], 1, [])).0, s.cursory, s.cursorx;
      && At(r, y, c) == Cell([g], s.fg, s.bg, s.fs)
      && (c + 1 < s.width ==> At(r, y, c + 1).ch != [])
      && forall i, j :: InWindow(s, i, j) && (i < y || (i == y && j < c)) ==> At(r, i, j) == At(s, i, j)
  {
    if s.cursorx + 1 < s.width {
      NarrowUnit(s, Unit([g], 1, []));
    } else {
      NarrowUnitAtEdge(s, Unit([g], 1, []));
    }
  }

  /** Writing a unit of width 1 leaves every cell that held text holding
      text, and changes none of them but the cursor's. */
  lemma NarrowWriteKeeps(s: WinState, g: CodePoint)
    requires WellFormed(s) && HasCurCell(s)
    ensures var r, y, c := WriteUnit(s, Unit([g], 1, [])).0, s.cursory, s.cursorx;
      forall i, j :: InWindow(s, i, j) && At(s, i, j).ch != [] ==>
        && At(r, i, j).ch != []
        && ((i != y || j != c) ==> At(r, i, j) == At(s, i, j))
  {
    if s.cursorx + 1 < s.width {
      NarrowUnit(s, Unit([g], 1, []));
    } else {
      NarrowUnitAtEdge(s, Unit([g], 1, []));
    }
  }

  /** Printing one narrow code point from a cell of the window leaves every
      cell that held text holding text, and changes none of them but the
      cursor's and, when the cursor started on an empty right half, the one
      before it. */
  lemma PrintNarrowKeeps(m: WinState, g: CodePoint, wcwidth: CodePoint -> Width)
    requires WellFormed(m) && HasCurCell(m) && g != Newline && CharWidth(wcwidth, g) == 1
    ensures var r, y, c := Print(m, [g], wcwidth), m.cursory, m.cursorx;
      forall i, j :: InWindow(m, i, j) && At(m, i, j).ch != [] ==>
        && At(r, i, j).ch != []
        && ((i != y || (j != c && (j != c - 1 || At(m, y, c).ch != []))) ==> At(r, i, j) == At(m, i, j))
  {
    var s3 := Prepare(m.(draw := true)).0;
    PrepareAtCell(m.(draw := true));
    PrintOneNarrow(m, g, wcwidth);
    NarrowWriteKeeps(s3, g);
    var r := WriteUnit(s3, Unit([g], 1, [])).0;
    PreparedKeeps(m, s3, r);
  }

  /** The frame of `PrintNarrowKeeps`, from the frames of its two stages:
      `s3` is `m` prepared, and `r` is `s3` after the write. */
  lemma PreparedKeeps(m: WinState, s3: WinState, r: WinState)
    requires WellFormed(m) && HasCurCell(m)
    requires WellFormed(s3) && s3.width == m.width && s3.height == m.height
    requires WellFormed(r) && r.width == m.width && r.height == m.height
    requires s3.cursory == m.cursory && s3.cursorx == m.cursorx
    requires forall i, j :: InWindow(m, i, j) && (i != m.cursory || j != m.cursorx - 1) ==> At(s3, i, j) == At(m, i, j)
    requires var y, c := m.cursory, m.cursorx;
      && (c > 0 && At(m, y, c).ch == [] ==> At(s3, y, c - 1) == At(m, y, c - 1).(ch := [Space]))
      && (c > 0 && At(m, y, c).ch != [] ==> At(s3, y, c - 1) == At(m, y, c - 1))
    requires var y, c := s3.cursory, s3.cursorx;
      forall i, j :: InWindow(s3, i, j) && At(s3, i, j).ch != [] ==>
        && At(r, i, j).ch != []
        && ((i != y || j != c) ==> At(r, i, j) == At(s3, i, j))
    ensures var y, c := m.cursory, m.cursorx;
      forall i, j :: InWindow(m, i, j) && At(m, i, j).ch != [] ==>
        && At(r, i, j).ch != []
        && ((i != y || (j != c && (j != c - 1 || At(m, y, c).ch != []))) ==> At(r, i, j) == At(m, i, j))
  {
  }

  /** A wide unit with room for both halves on its row: the glyph in the
      cursor's cell, an empty right half in the window's colours next to
      it, and nothing else changed. */
  lemma WideUnitCompanion(s: WinState, u: Unit)
    requires WellFormed(s) && HasCurCell(s) && u.width == 2
    requires s.cursorx + 1 < s.width
    ensures var r, cy, cx := WriteUnit(s, u), s.cursory, s.cursorx;
      && !r.1
      && At(r.0, cy, cx) == Cell(u.text, s.fg, s.bg, s.fs)
      && At(r.0, cy, cx + 1) == Cell([], s.fg, s.bg, s.fs)
      && (cx + 2 < s.width ==> r.0.cursory == cy && r.0.cursorx == cx + 2)
      && (cx + 2 == s.width && cy + 1 < s.height ==> r.0.cursory == cy + 1 && r.0.cursorx == 0)
      && (cx + 2 == s.width && cy + 1 == s.height ==> r.0.cursory == cy && r.0.cursorx == s.width)
      && (forall i, j :: InWindow(s, i, j) && (i != cy || (j != cx && j != cx + 1)) ==>
            At(r.0, i, j) == At(s, i, j))
      && forall i :: 0 <= i < s.height ==> r.0.lines[i].touched == (s.lines[i].touched || i == cy)
  {
  }

  /** A wide unit in the last cell of the last row has no room for its
      right half: the cell gets a space instead and the write stops. */
  lemma WideUnitTruncated(s: WinState, u: Unit)
    requires WellFormed(s) && u.width == 2
    requires s.height > 0 && s.width > 0
    requires s.cursory == s.height - 1 && s.cursorx == s.width - 1
    ensures var r := WriteUnit(s, u);
      && r.1
      && At(r.0, s.cursory, s.cursorx) == Cell([Space], s.fg, s.bg, s.fs)
      && r.0.cursory == s.cursory && r.0.cursorx == s.width
      && (forall i, j :: InWindow(s, i, j) && (i != s.cursory || j != s.cursorx) ==> At(r.0, i, j) == At(s, i, j))
      && forall i :: 0 <= i < s.height ==> r.0.lines[i].touched == (s.lines[i].touched || i == s.cursory)
  {
  }

  /** A wide unit is written in three stages: the text, the colours and
      the cursor's advance, then the right half. */
  lemma WriteWideUnit(s: WinState, u: Unit)
    requires WellFormed(s) && HasCurCell(s) && u.width == 2
    ensures var cy, cx := s.cursory, s.cursorx;
      WriteUnit(s, u) == WideHalf(AddedChar(SetStyle(SetCh(s, cy, cx, u.text), cy, cx)), cy, cx)
  {
  }

  /** A wide unit in the last column of a row above the last one, as the
      source does it: the glyph moves to column 0 of the next row and its old
      cell becomes a space, but the cell emptied afterwards is column 2, not
      the glyph's right neighbour; column 1 keeps whatever it held. */
  lemma WideUnitRelocated(s: WinState, u: Unit)
    requires WellFormed(s) && u.width == 2
    requires s.width >= 3 && s.cursory < s.height - 1 && s.cursorx == s.width - 1
    ensures var r, cy := WriteUnit(s, u), s.cursory;
      && !r.1
      && At(r.0, cy, s.width - 1) == Cell([Space], s.fg, s.bg, s.fs)
      && At(r.0, cy + 1, 0) == Cell(u.text, s.fg, s.bg, s.fs)
      && At(r.0, cy + 1, 1) == At(s, cy + 1, 1)
      && At(r.0, cy + 1, 2) == At(s, cy + 1, 2).(ch := [])
      && r.0.cursory == cy + 1 && r.0.cursorx == 2
      && (forall i, j :: InWindow(s, i, j) && (i != cy || j != s.width - 1) && (i != cy + 1 || j == 1 || j > 2) ==>
            At(r.0, i, j) == At(s, i, j))
      && forall i :: 0 <= i < s.height ==> r.0.lines[i].touched == (s.lines[i].touched || i == cy || i == cy + 1)
  {
    var cy, cx := s.cursory, s.cursorx;
    WriteWideUnit(s, u);
    WideWrapped(s, u.text);
    WideHalfRelocates(AddedChar(SetStyle(SetCh(s, cy, cx, u.text), cy, cx)), cy, cx);
  }

  /** A wide unit in the last column of a window two columns wide, two or
      more rows above the last: the glyph moves to column 0 of the next row,
      column 1 there keeps whatever it held, and column 0 of the row after
      that loses its text, while the cursor ends there. */
  lemma WideUnitTwoColumns(s: WinState, u: Unit)
    requires WellFormed(s) && u.width == 2
    requires s.width == 2 && s.cursory < s.height - 2 && s.cursorx == 1
    ensures var r, cy := WriteUnit(s, u), s.cursory;
      && !r.1
      && At(r.0, cy, 1) == Cell([Space], s.fg, s.bg, s.fs)
      && At(r.0, cy + 1, 0) == Cell(u.text, s.fg, s.bg, s.fs)
      && At(r.0, cy + 1, 1) == At(s, cy + 1, 1)
      && r.0.cursory == cy + 2 && r.0.cursorx == 0
      && At(r.0, cy + 2, 0) == At(s, cy + 2, 0).(ch := [])
  {
    var cy, cx := s.cursory, s.cursorx;
    WriteWideUnit(s, u);
    WideWrapped(s, u.text);
    var s2 := AddedChar(SetStyle(SetCh(s, cy, cx, u.text), cy, cx));
    WideHalfRelocatesTwoColumns(s2, cy, cx);
    assert WriteUnit(s, u) == WideHalf(s2, cy, cx);
  }

  /** What else that write changes: nothing but those three cells, and
      only the rows of the two halves are touched, not the row of the
      emptied cell. */
  lemma WideUnitTwoColumnsFrame(s: WinState, u: Unit)
    requires WellFormed(s) && u.width == 2
    requires s.width == 2 && s.cursory < s.height - 2 && s.cursorx == 1
    ensures var r, cy := WriteUnit(s, u), s.cursory;
      && (forall i, j :: InWindow(s, i, j) && (i != cy || j != 1) && (i != cy + 1 || j != 0) && (i != cy + 2 || j != 0) ==>
            At(r.0, i, j) == At(s, i, j))
      && forall i :: 0 <= i < s.height ==> r.0.lines[i].touched == (s.lines[i].touched || i == cy || i == cy + 1)
  {
    var cy, cx := s.cursory, s.cursorx;
    WriteWideUnit(s, u);
    WideWrapped(s, u.text);
    var s2 := AddedChar(SetStyle(SetCh(s, cy, cx, u.text), cy, cx));
    WideHalfRelocatesTwoColumns(s2, cy, cx);
    assert WriteUnit(s, u) == WideHalf(s2, cy, cx);
  }

  /** The same from the row above the last one: the glyph moves down as
      before, and the cursor is left at column 2 of the last row. */
  lemma WideUnitTwoColumnsLastRow(s: WinState, u: Unit)
    requires WellFormed(s) && u.width == 2
    requires s.width == 2 && s.cursory == s.height - 2 && s.cursorx == 1
    ensures var r, cy := WriteUnit(s, u), s.cursory;
      && !r.1
      && At(r.0, cy, 1) == Cell([Space], s.fg, s.bg, s.fs)
      && At(r.0, cy + 1, 0) == Cell(u.text, s.fg, s.bg, s.fs)
      && r.0.cursory == cy + 1 && r.0.cursorx == 2
      && (forall i, j :: InWindow(s, i, j) && (i != cy || j != 1) && (i != cy + 1 || j != 0) ==>
            At(r.0, i, j) == At(s, i, j))
      && forall i :: 0 <= i < s.height ==> r.0.lines[i].touched == (s.lines[i].touched || i == cy || i == cy + 1)
  {
    var cy, cx := s.cursory, s.cursorx;
    WriteWideUnit(s, u);
    WideWrapped(s, u.text);
    WideHalfRelocatesTwoColumnsLastRow(AddedChar(SetStyle(SetCh(s, cy, cx, u.text), cy, cx)), cy, cx);
  }

  /** A wide unit in a window one column wide, two or more rows above the
      last: the glyph stays in the only column, and its empty right half
      takes the whole of the next row. */
  lemma WideUnitOneColumn(s: WinState, u: Unit)
    requires WellFormed(s) && u.width == 2
    requires s.width == 1 && s.cursory < s.height - 2 && s.cursorx == 0
    ensures var r, cy := WriteUnit(s, u), s.cursory;
      && !r.1
      && At(r.0, cy, 0) == Cell(u.text, s.fg, s.bg, s.fs)
      && At(r.0, cy + 1, 0) == Cell([], s.fg, s.bg, s.fs)
      && r.0.cursory == cy + 2 && r.0.cursorx == 0
      && (forall i, j :: InWindow(s, i, j) && i != cy && i != cy + 1 ==> At(r.0, i, j) == At(s, i, j))
      && forall i :: 0 <= i < s.height ==> r.0.lines[i].touched == (s.lines[i].touched || i == cy || i == cy + 1)
  {
    var cy := s.cursory;
    WriteWideUnit(s, u);
    WideWrapped(s, u.text);
    var s2 := AddedChar(SetStyle(SetCh(s, cy, 0, u.text), cy, 0));
    assert EmptyHalf(s2).cursorx == 0;
    assert WideHalf(s2, cy, 0).0 == EmptyHalf(s2);
  }

  /** A wide unit written into the last column of a row above the last one,
      up to the second half: the cell holds the unit in the window's
      colours, the cursor is at the start of the next row, no other cell
      changes and only the unit's row is touched. */
  lemma WideWrapped(s: WinState, text: seq<CodePoint>)
    requires WellFormed(s) && s.cursory < s.height - 1 && s.cursorx == s.width - 1
    ensures var cy, cx := s.cursory, s.cursorx;
      var r := AddedChar(SetStyle(SetCh(s, cy, cx, text), cy, cx));
      && WellFormed(r) && r.width == s.width && r.height == s.height
      && r.fg == s.fg && r.bg == s.bg && r.fs == s.fs
      && r.cursory == cy + 1 && r.cursorx == 0
      && At(r, cy, cx) == Cell(text, s.fg, s.bg, s.fs)
      && (forall i, j :: InWindow(s, i, j) && (i != cy || j != cx) ==> At(r, i, j) == At(s, i, j))
      && forall i :: 0 <= i < s.height ==> r.lines[i].touched == (s.lines[i].touched || i == cy)
  {
  }

  /** In a window one column wide, a wide glyph written on the row above
      the last one is relocated: it moves to the last row, its old cell
      becomes a space, nothing else changes, and the cursor is left at
      column 2, beyond the width. */
  lemma WideUnitNarrowWindow(s: WinState, u: Unit)
    requires WellFormed(s) && u.width == 2
    requires s.width == 1 && s.height >= 2 && s.cursory == s.height - 2 && s.cursorx == 0
    ensures var r, cy := WriteUnit(s, u), s.cursory;
      && !r.1 && r.0.cursory == cy + 1 && r.0.cursorx == 2 && r.0.cursorx > r.0.width
      && At(r.0, cy, 0) == Cell([Space], s.fg, s.bg, s.fs)
      && At(r.0, cy + 1, 0) == Cell(u.text, s.fg, s.bg, s.fs)
      && (forall i, j :: InWindow(s, i, j) && i != cy && i != cy + 1 ==> At(r.0, i, j) == At(s, i, j))
      && forall i :: 0 <= i < s.height ==> r.0.lines[i].touched == (s.lines[i].touched || i == cy || i == cy + 1)
  {
    var cy := s.cursory;
    WriteWideUnit(s, u);
    WideWrapped(s, u.text);
    WideHalfRelocatesOneColumn(AddedChar(SetStyle(SetCh(s, cy, 0, u.text), cy, 0)), cy);
  }

  /** The same, seen from the outside: printing one wide code point there. */
  lemma NarrowWindowOvershoot(s: WinState, g: CodePoint, wcwidth: CodePoint -> Width)
    requires WellFormed(s) && s.width == 1 && s.height >= 2
    requires s.cursory == s.height - 2 && s.cursorx == 0
    requires g != Newline && CharWidth(wcwidth, g) == 2
    ensures Print(s, [g], wcwidth).cursorx == 2
  {
    var s1 := s.(draw := true);
    var u := Fill(wcwidth, [g]);
    assert u.width == 2 && u.rest == [] by {
      assert u.text + u.rest == [g];
      assert OneCell(wcwidth, u.text, u.width);
      assert |u.text| > 0 && u.text[0] == g;
    }
    StepWritesUnit(s1, [g], wcwidth);
    WideUnitNarrowWindow(s1, u);
    var st := Step(s1, [g], wcwidth);
    assert !st.stop && st.rest == [] && st.state.cursorx == 2;
    assert Loop(s1, [g], wcwidth) == Loop(st.state, [], wcwidth) == st.state;
    assert Print(s, [g], wcwidth) == Loop(s1, [g], wcwidth);
  }

  /** The cell in the last column of row `i` of `r` is as in `s`, empty,
      a space, or holds `text`. */
  ghost predicate LastCellKept(s: WinState, r: WinState, i: int, text: seq<CodePoint>)
    requires Shaped(s) && Shaped(r) && r.width == s.width && r.height == s.height
    requires 0 <= i < s.height && s.width > 0
  {
    var c := At(r, i, s.width - 1);
    c == At(s, i, s.width - 1) || c.ch == [] || c.ch == [Space] || c.ch == text
  }

  /** In a window at least two columns wide, no unit leaves text two
      columns wide in the last column of a row: each cell there afterwards
      is as before, empty, a space, or the unit itself when it is narrower
      than two columns. */
  lemma WriteUnitAvoidsLastColumn(s: WinState, u: Unit)
    requires WellFormed(s) && HasCurCell(s) && 0 <= u.width <= 2 && s.width >= 2
    ensures var r, text := WriteUnit(s, u).0, if u.width < 2 then u.text else [Space];
      forall i :: 0 <= i < s.height ==> LastCellKept(s, r, i, text)
  {
    if u.width < 2 {
      NarrowAvoidsLastColumn(s, u);
    } else if s.cursorx + 1 < s.width || s.cursory == s.height - 1 {
      WideInRowAvoidsLastColumn(s, u);
    } else {
      RelocationAvoidsLastColumn(s, u);
    }
  }

  /** `WriteUnitAvoidsLastColumn` for a unit narrower than two columns. */
  lemma NarrowAvoidsLastColumn(s: WinState, u: Unit)
    requires WellFormed(s) && HasCurCell(s) && 0 <= u.width < 2 && s.width >= 2
    ensures forall i :: 0 <= i < s.height ==> LastCellKept(s, WriteUnit(s, u).0, i, u.text)
  {
    var r := WriteUnit(s, u).0;
    if u.width == 0 {
      ZeroWidthUnit(s, u);
    } else if s.cursorx + 1 < s.width {
      NarrowUnit(s, u);
    } else {
      NarrowUnitAtEdge(s, u);
    }
    forall i | 0 <= i < s.height
      ensures LastCellKept(s, r, i, u.text)
    {
      assert InWindow(s, i, s.width - 1);
    }
  }

  /** `WriteUnitAvoidsLastColumn` for a wide unit that is not relocated:
      it has room on its row, or it is truncated in the last cell. */
  lemma WideInRowAvoidsLastColumn(s: WinState, u: Unit)
    requires WellFormed(s) && HasCurCell(s) && u.width == 2 && s.width >= 2
    requires s.cursorx + 1 < s.width || s.cursory == s.height - 1
    ensures forall i :: 0 <= i < s.height ==> LastCellKept(s, WriteUnit(s, u).0, i, [Space])
  {
    var r := WriteUnit(s, u).0;
    if s.cursorx + 1 < s.width {
      WideUnitCompanion(s, u);
    } else {
      WideUnitTruncated(s, u);
    }
    forall i | 0 <= i < s.height
      ensures LastCellKept(s, r, i, [Space])
    {
      assert InWindow(s, i, s.width - 1);
    }
  }

  /** `WriteUnitAvoidsLastColumn` for a wide unit relocated from the last
      column to the next row. */
  lemma RelocationAvoidsLastColumn(s: WinState, u: Unit)
    requires WellFormed(s) && u.width == 2 && s.width >= 2
    requires s.cursorx == s.width - 1 && s.cursory < s.height - 1
    ensures forall i :: 0 <= i < s.height ==> LastCellKept(s, WriteUnit(s, u).0, i, [Space])
  {
    if s.width >= 3 {
      var r := WriteUnit(s, u).0;
      WideUnitRelocated(s, u);
      forall i | 0 <= i < s.height
        ensures LastCellKept(s, r, i, [Space])
      {
        assert InWindow(s, i, s.width - 1);
      }
    } else {
      TwoColumnsAvoidLastColumn(s, u);
    }
  }

  /** The same in a window two columns wide, where the second advance
      wraps to the row after or stops on the last row. */
  lemma TwoColumnsAvoidLastColumn(s: WinState, u: Unit)
    requires WellFormed(s) && u.width == 2 && s.width == 2
    requires s.cursorx == 1 && s.cursory < s.height - 1
    ensures forall i :: 0 <= i < s.height ==> LastCellKept(s, WriteUnit(s, u).0, i, [Space])
  {
    var r := WriteUnit(s, u).0;
    if s.cursory < s.height - 2 {
      WideUnitTwoColumnsFrame(s, u);
    } else {
      WideUnitTwoColumnsLastRow(s, u);
    }
    forall i | 0 <= i < s.height
      ensures LastCellKept(s, r, i, [Space])
    {
      assert InWindow(s, i, 1);
    }
  }
}
