# A model of the in-memory curses window

Cataclysm-BN replaces curses with its own in-memory emulation (`src/cursesport.cpp`).

- A `WINDOW` is a rectangular grid of cells.
  - It is split into lines. Each line has a `touched` flag.
  - Each cell holds some text plus a foreground, a background and a font style.
- The window also has a cursor, current drawing colours and a `draw` flag.
- The curses entry points operate on a nullable window handle:
  - `newwin` creates a window.
  - `wmove`, `wprintw`, `mvwprintw`, `waddch` and `mvwaddch` move the cursor and write text.
  - `werase` and `wclear` reset the window.
  - `wborder`, `mvwhline` and `mvwvline` draw lines of box characters.
  - `init_pair`, `wattron` and `wattroff` choose the current colours.
  - The getters report the window's size, origin and cursor.
- Colours travel in an `nc_color`, a 32-bit word with packed bits:
  - a colour-pair index;
  - the bold, blink, italic and underline bits.

The model has two layers.

**The value layer.** A window's value is a `WinState`. Each step of the source is a function on it. These functions live in four modules:

- `WindowSpec`: creation, cursor moves, cell writes, erase and attributes.
- `DisplayUnit`: `fill`, which cuts one cell's worth of text off the front of the input.
- `Layout`: `printstring`, the routine that lays text out into the grid.
- `Drawing`: `waddch` and the line drawing built on it.

The properties the source promises are proved as lemmas about these functions:

- the cursor stays in bounds;
- output never wraps back to the top;
- the empty right half a wide glyph leaves behind;
- truncation at the last cell;
- relocation from the last column;
- lines and borders of glyphs one column wide fill their cells (`Drawing.HlineDraws`, `Drawing.VlineDraws`, `Drawing.BorderDrawn`).

**The object layer.** Module `Cursesport` has the same operations on objects:

- a `Window` class whose fields are updated in place;
- a `ColorPairTable` class over a 100-entry array;
- the entry points, each taking a `Window?` handle.

Every method is proved to leave its object in the state the matching function gives, and the loops carry their invariants. The two layers line up as follows:

| Source | Value-layer function | Method |
|---|---|---|
| `printstring` | `Print` | `Window.Printstring` (its main loop follows `Loop`) |
| the three drawing loops | `ApplyPuts` | `DrawPuts` |
| `werase` | `Erase` | `Window.Erase` (its row loop) |
| `wclear` | `TouchRowsAbove` | `Wclear` (the rows it touches in `stdscr`) |

**Text and widths.** Text is a sequence of Unicode code points.

- The UTF-8 decoder is not part of this model.
- The east-asian width table is a parameter `wcwidth` with values -1, 0, 1 and 2.
- An undecodable code point counts as one column.
- `waddch` passes a lone byte. The model keeps a byte of 0x80 or more, which does not decode, as the code point `RawBytes + b`.
  - `RawBytes` is just above the Unicode range.
  - Such a code point is one column wide, as the replacement code point is for `fill`.
  - So the cell still shows which byte was drawn (`Drawing.AddchTextInjective`).

**The `nc_color` word.** It is a `bv32`. A signed `int` of the source is modelled as its 32-bit pattern.

**Where the code differs from the comments.** The header comment of the file (src/cursesport.cpp:20-28) states three invariants:

1. the text of a cell is one or two console cells wide;
2. the cell after a two-cell glyph is empty;
3. the last cell of a line never holds a two-cell glyph.

The model follows the code, which does not maintain all of them:

- Invariant 1: a unit of width 0, such as a combining mark at the start of the text, replaces a cell's text with text of width 0 (`Layout.ZeroWidthUnit`).
- Invariant 2: relocation, described below, moves a glyph to column 0 and leaves column 1 as it was (`Layout.WideUnitRelocated`, `Layout.WideUnitTwoColumns`).
- Invariant 3 holds for every unit in a window at least two columns wide (`Layout.WriteUnitAvoidsLastColumn`). In a window one column wide, the glyph stays in the only column (`Layout.WideUnitOneColumn`).

The cases where the code and the comments part ways:

- **Relocation empties the wrong cell.** A wide glyph that lands in the last column of a row is moved to column 0 of the next row. The cursor is then advanced once more before the cell to empty is looked up.
  - In a window at least three columns wide, column 2 is emptied, not the moved glyph's right neighbour. Column 1 keeps whatever text it held, and column 2 may have been the left half of another glyph (`Layout.WideUnitRelocated`).
  - In a window two columns wide, the second advance wraps. Column 1 of the glyph's new row keeps its text, and column 0 of the row after is emptied, with the cursor left there (`Layout.WideUnitTwoColumns`). From the row above the last, nothing is emptied and the cursor is left at column 2 (`Layout.WideUnitTwoColumnsLastRow`).
  - In a window one column wide, two or more rows above the last, the glyph is not moved: it keeps the only column of its row, and its empty half takes the next row (`Layout.WideUnitOneColumn`). From the row above the last, it is moved down to the last row and its old cell becomes a space (`Layout.WideUnitNarrowWindow`).
- **In a window one column wide, the cursor can go past the width.** From the row above the last, the same relocation leaves the cursor at column 2. So "cursor column at most the width" does not hold there (`Layout.NarrowWindowOvershoot`). The window invariant `WellFormed` admits exactly this case.
- **Some changed cells are not on a touched line.** `addedchar` (src/cursesport.cpp:109-110) says a line is touched whenever a cell in it changes. The renderer repaints only touched lines. Four changes bypass it:
  - a unit of width 0 replaces a cell's text and touches nothing (`Layout.ZeroWidthUnit`);
  - a narrow unit in the last column repairs column 0 of the next row without touching that row (`Layout.NarrowUnitAtEdge`);
  - printing from an empty right half blanks the left half. A newline right after it leaves that row untouched (`Layout.NewlineAfterRightHalf`);
  - in a window two columns wide, relocation empties column 0 of a row it does not touch (`Layout.WideUnitTwoColumnsFrame`).
- **The colour mask has a hole.** `A_COLOR` has bit 23 clear, and bit 23 is `A_ITALIC`.
  - Pair indices 0..63 survive `from_color_pair_index` followed by `to_color_pair_index`.
  - Pairs 64..99 of the 100-entry table come back 64 lower (`Attributes.PairRoundTrip`).
- **`werase` cannot reset the cursor of an empty window.** It moves the cursor through `wmove`, which refuses every position of a window without cells. There the cursor stays where it was (`WindowSpec.Erase`).
- **`wborder` does not always put the cursor back.** It restores the cursor through `wmove`. When the saved position is not a cell, for example a cursor column equal to the width after a full row, the cursor stays where the last border write left it (`Drawing.BorderRestoresCursor`).
  - `wborder` also never calls `wattron`: the border is drawn in the current colours, and then the colours are reset.

## Model

| member | source | states |
|---|---|---|
| Attributes.ToColorPairIndex | src/cursesport.cpp:631-634 | the pair index is at most 0x1bf, and its bit 6 is always clear (the hole in A_COLOR) |
| Attributes.FromColorPairIndex | src/cursesport.cpp:626-629 | the word has no style bits and nothing outside A_COLOR; reading the pair index back gives the index below 64, and the index minus 64 for 64..127 |
| Attributes.PairRoundTrip | src/cursesport.cpp:620-634 | for the 100 table entries, the round trip from index to word to index is exact if and only if the index is below 64; otherwise it loses 64 |
| Attributes.Bold | src/cursesport.cpp:636-644 | the result is bold; its pair index and its blink, italic and underline bits are those of the argument |
| Attributes.Blink | src/cursesport.cpp:646-654 | the result blinks; its pair index and its other three style bits are kept |
| Attributes.Italic | src/cursesport.cpp:656-664 | the result is italic; its pair index and its other three style bits are kept |
| Attributes.Underline | src/cursesport.cpp:666-674 | the result is underlined; its pair index and its other three style bits are kept |
| DisplayUnit.CharWidth | src/cursesport.cpp:269-270 | the replacement code point for undecodable input, and a raw byte kept as such, is one column wide; any other code point has the width the table gives |
| DisplayUnit.Fill | src/cursesport.cpp:261-294 | width 0..2; empty input gives an empty unit; non-empty input consumes at least one code point; a leading control character becomes one space of width 1 and only it is consumed; otherwise the unit is a prefix of the input with at most one positive-width code point, whose width is the unit's; the unit stops only before a control character or before a second positive-width code point |
| DisplayUnit.FillFrom | src/cursesport.cpp:267-290 | the scan from a prefix that is already one cell's worth keeps that property and ends on the same stopping conditions |
| WindowSpec.BlankRow | src/cursesport.cpp:93 | `n` default cells |
| WindowSpec.CurCellInWindow | src/cursesport.cpp:296-305 | `cur_cell` (`HasCurCell`) finds a cell if and only if the cursor is on a cell of the window; in a well-formed window the two upper-bound checks suffice |
| WindowSpec.NewWindow | src/cursesport.cpp:65-97 | no window if and only if the origin is negative; otherwise it has the given origin, a zero size resolved against the terminal size, every cell default, every line touched, the cursor at (0, 0), the draw flag clear, FG 8, BG black and a plain style |
| WindowSpec.Move | src/cursesport.cpp:38-59 | the cursor moves to (y, x) if and only if that is a cell of the window; otherwise nothing changes; nothing but the cursor ever changes; well-formedness is kept |
| WindowSpec.NewLine | src/cursesport.cpp:99-107 | above the last row: to column 0 of the next row, still inside the window; on the last row: no change |
| WindowSpec.AddedChar | src/cursesport.cpp:109-118 | the cursor advances one column, or goes to the next row's start past the last column, or stays past the end on the last row; only the cursor's line becomes touched; no cell changes; well-formedness is kept |
| WindowSpec.SetCh | src/cursesport.cpp:329 | one cell gets new text and keeps its colours; no other cell and no touched flag changes |
| WindowSpec.SetStyle | src/cursesport.cpp:346-348 | one cell gets the window's colours and style and keeps its text; nothing else changes |
| WindowSpec.Erase | src/cursesport.cpp:421-437 | every cell default, every line touched, draw set; the cursor at (0, 0) when the window has cells, unchanged otherwise; nothing else changes |
| WindowSpec.TouchRowsAbove | src/cursesport.cpp:488-490 | exactly the rows above the limit become touched in addition; no cell changes |
| WindowSpec.Attron | src/cursesport.cpp:533-556 | the pair's colours, FG shifted by 8 if bold and BG by 8 if blinking; italic and underline are switched on if set and never off; bold never reaches the style |
| WindowSpec.Attroff | src/cursesport.cpp:558-571 | FG 8, BG black and a plain style, whatever the argument; nothing else changes |
| WindowSpec.AttroffForgetsAttron | src/cursesport.cpp:533-571 | a reset after `wattron` is the same as a reset without it |
| Layout.RepairHalf | src/cursesport.cpp:351-357 | a stale empty right half under the cursor becomes a space and keeps its colours; otherwise the window is unchanged; no touched flag changes |
| Layout.RepairHalfAsWritten | src/cursesport.cpp:351-357 | the repair as the code is written: only the cell under the cursor may change, and the cursor stays |
| Layout.RepairHalfAsWrittenDiffers | src/cursesport.cpp:356 | on a stale empty half, the code as written leaves 32 characters U+0001 where `RepairHalf` leaves one space |
| Layout.TruncateAsWritten | src/cursesport.cpp:358-366 | the truncation as the code is written: only the glyph's cell changes, and the cursor stays |
| Layout.TruncateAsWrittenDiffers | src/cursesport.cpp:365 | with no cell for the right half, the code as written leaves 32 characters U+0001 where `WideHalf` leaves one space |
| Layout.EmptyHalf | src/cursesport.cpp:368-372 | the cell under the cursor becomes empty in the window's colours, and the cursor advances as `addedchar` does; no other cell changes |
| Layout.Relocate | src/cursesport.cpp:373-386 | the glyph's text moves to column 0 of the next row and its old cell becomes a space; only that row becomes touched; in a window wider than 2 the cursor ends at column 2, column 2 loses its text and every other cell is kept |
| Layout.MoveGlyph | src/cursesport.cpp:377-380 | the glyph's text moves into the empty half's cell, its old cell becomes a space, both keep their colours; nothing else changes |
| Layout.AdvanceEmptying | src/cursesport.cpp:381-385 | the cursor moves as `addedchar` moves it; the cell it reaches, if any, loses its text; no other cell changes; only the row the cursor left becomes touched |
| Layout.RelocateWraps | src/cursesport.cpp:373-386 | in a window one or two columns wide, above the last row: the cursor wraps to column 0 of the row after, that cell loses its text, and no other cell but the glyph's two changes |
| Layout.RelocateAtLastRow | src/cursesport.cpp:373-386 | in a window one or two columns wide, on the last row: the cursor is left at column 2 and only the glyph's two cells change |
| Layout.WideHalf | src/cursesport.cpp:358-387 | with no next cell: the glyph becomes a space, the write stops and no line is touched; with a next cell on the same row: it becomes an empty half in the window's colours and the cursor moves past it, no other cell changes; with a next cell at all, only the cursor's row becomes touched |
| Layout.Companion | src/cursesport.cpp:368-386 | the window stays well-formed with the same frame; the cursor never moves up; only the cursor's row becomes touched |
| Layout.CompanionOnRow | src/cursesport.cpp:368-372 | a next cell on the glyph's row becomes the empty half in the window's colours, the cursor moves past it, and nothing else changes |
| Layout.WideHalfRelocates | src/cursesport.cpp:373-386 | in a window at least three columns wide, a glyph written into the last column ends at column 0 of the next row; its old cell is a space; column 1 keeps its text; column 2 is emptied; the cursor is at column 2; nothing else changes and only the next row becomes touched |
| Layout.WideHalfRelocatesTwoColumns | src/cursesport.cpp:373-386 | in a window two columns wide, two or more rows above the last: the glyph ends at column 0 of the next row, column 1 there keeps its text, the cursor wraps to column 0 of the row after, which is emptied; nothing else changes; only the glyph's new row becomes touched, not the emptied cell's |
| Layout.WideHalfRelocatesTwoColumnsLastRow | src/cursesport.cpp:373-386 | the same from the row above the last: nothing is emptied and the cursor is left at column 2 |
| Layout.WideHalfRelocatesOneColumn | src/cursesport.cpp:373-386 | in a window one column wide, from the row above the last: the glyph moves to the last row, its old cell is a space, no other row changes, only the last row becomes touched, and the cursor is left at column 2 |
| Layout.WriteUnit | src/cursesport.cpp:344-387 | the window stays well-formed with the same shape and colours; the cursor never moves up; no touched flag is cleared |
| Layout.Step | src/cursesport.cpp:331-390 | as `Layout.WriteUnit`, and strictly less text is left |
| Layout.Loop | src/cursesport.cpp:331-391 | the window stays well-formed with the same shape and colours; the cursor never moves up; no touched flag is cleared |
| Layout.Prepare | src/cursesport.cpp:316-330 | the loop runs only from a cell of the window; when it does not run, the cursor went down one row or nothing changed |
| Layout.Print | src/cursesport.cpp:308-392 | the draw flag is set; the window stays well-formed with the same shape and colours; the cursor never moves up; no touched flag is cleared |
| Layout.PrintEmpty | src/cursesport.cpp:311-315 | writing empty text only sets the draw flag |
| Layout.LoopDiscardsAtBottom | src/cursesport.cpp:331-343 | past the last cell of the last row, all remaining text, newlines included, is dropped |
| Layout.PrintDiscardsAtBottom | src/cursesport.cpp:319-323 | printing from past the last cell of the last row only sets the draw flag: output never wraps to the top |
| Layout.LoopNewline | src/cursesport.cpp:332-339 | a newline goes to the next row's start, or on the last row ends the write and drops the rest |
| Layout.StepWritesUnit | src/cursesport.cpp:340-350 | from a cell, a non-newline turn writes the unit `fill` cuts off and continues with the rest |
| Layout.ZeroWidthUnit | src/cursesport.cpp:344-350 | a zero-width unit replaces the cell's text, keeps its colours and does not move the cursor; no other cell changes and no line becomes touched |
| Layout.NarrowUnit | src/cursesport.cpp:344-357 | a narrow unit lands in the cursor's cell in the window's colours; the cursor advances; the next cell becomes a space if it was an empty half; all other cells are kept; only the cursor's row becomes touched |
| Layout.NarrowUnitAtEdge | src/cursesport.cpp:344-357 | in the last column: the cell gets the unit, and the cursor wraps to the start of the next row, or stays past the end on the last row; a stale empty half at the start of the next row becomes a space, and nothing else changes; only the cursor's row becomes touched, not the next |
| Layout.PrepareAtCell | src/cursesport.cpp:324-330 | from a cell, the loop runs with the same cursor and colours; at most the cell before the cursor changes, and only when the cursor is on an empty half |
| Layout.NewlineAfterRightHalf | src/cursesport.cpp:324-338 | printing a newline from an empty right half blanks the left half and moves to the next row's start, and the blanked cell's row keeps its touched flag |
| Layout.PrintOneNarrow | src/cursesport.cpp:308-357 | printing one narrow code point from a cell is one width-1 unit written after the preparation |
| Layout.PrintNarrowGlyph | src/cursesport.cpp:308-357 | that cell holds the code point in the window's colours; the next cell on the row is not empty; no earlier cell changes except the one before a starting empty half |
| Layout.NarrowWrite | src/cursesport.cpp:344-357 | a width-1 write keeps every cell before the cursor and leaves the next cell non-empty |
| Layout.NarrowWriteKeeps | src/cursesport.cpp:344-357 | a width-1 write leaves every cell that held text holding text, and changes none of them but the cursor's |
| Layout.PrintNarrowKeeps | src/cursesport.cpp:308-357 | printing one narrow code point leaves every cell that held text holding text, and changes none but the cursor's and the one before a starting empty half |
| Layout.WideUnitCompanion | src/cursesport.cpp:358-372 | with room on the row: the glyph in the cursor's cell, an empty right half in the window's colours beside it, and the cursor past both: on the same row, at the start of the next row when the pair ends the row, or past the end on the last row; nothing else changed; only the cursor's row becomes touched |
| Layout.WideUnitTruncated | src/cursesport.cpp:358-367 | in the last cell of the last row: the cell becomes a space in the window's colours, the write stops, and no other cell changes; only that row becomes touched |
| Layout.WideUnitRelocated | src/cursesport.cpp:373-386 | in the last column above the last row, in a window at least three columns wide: the glyph moves to the next row's column 0, its old cell becomes a space, column 1 is stale, column 2 is emptied, the cursor ends at column 2; nothing else changes; the two rows become touched |
| Layout.WideUnitTwoColumns | src/cursesport.cpp:358-386 | in the last column of a window two columns wide, two or more rows above the last: the glyph moves to the next row's column 0, its old cell becomes a space, column 1 there is stale, and column 0 of the row after loses its text with the cursor left there |
| Layout.WideUnitTwoColumnsFrame | src/cursesport.cpp:358-386 | that write changes no other cell, and touches the glyph's two rows but not the emptied cell's |
| Layout.WideUnitTwoColumnsLastRow | src/cursesport.cpp:358-386 | from the row above the last: the glyph moves down as before, the cursor is left at column 2, nothing else changes |
| Layout.WideUnitOneColumn | src/cursesport.cpp:358-372 | in a window one column wide, two or more rows above the last: the glyph stays in its cell, the next row's only cell becomes the empty half, the cursor ends two rows down, nothing else changes |
| Layout.WideWrapped | src/cursesport.cpp:344-350 | a wide unit in the last column above the last row, before its second half: the cell holds it in the window's colours, the cursor is at the start of the next row, only the unit's row becomes touched |
| Layout.WideUnitNarrowWindow | src/cursesport.cpp:358-386 | in a one-column window, from the row above the last: the glyph moves to the last row, its old cell becomes a space in the window's colours, no other row changes, the two rows become touched, and the cursor is left at column 2, beyond the width |
| Layout.NarrowWindowOvershoot | src/cursesport.cpp:308-392 | printing one wide code point there ends with the cursor at column 2 |
| Layout.WriteUnitAvoidsLastColumn | src/cursesport.cpp:344-387 | in a window at least two columns wide, after any unit each last-column cell is as before, empty, a space, or the unit itself when it is narrower than two columns: no two-column text lands there |
| Drawing.FindCaseFinds | src/cursesport.cpp:578-611 | finds no case if and only if no case has the code; otherwise it finds a case among those given, carrying that code |
| Drawing.CharcodeCases | src/cursesport.cpp:575-615 | a code that is not a box code is cut to its low byte; a box code matched by exactly one case is drawn as that case's glyph |
| Drawing.ByteCodePoint | src/cursesport.cpp:616-617 | a lone byte below 0x80 is its own code point; a byte of 0x80 or more is kept as the raw byte `RawBytes + b` |
| Drawing.RawByteWidth | src/cursesport.cpp:268-270 | a raw byte is one column wide, as the decoder's undecodable marker is |
| Drawing.AddchText | src/cursesport.cpp:616-617 | at most one code point; empty exactly when the byte is 0; otherwise the byte's code point |
| Drawing.AddchTextInjective | src/cursesport.cpp:613-617 | two codes give the same text if and only if they give the same byte |
| Drawing.Addch | src/cursesport.cpp:573-618 | the window stays well-formed with the same frame and colours, and the draw flag is set |
| Drawing.MvAddch | src/cursesport.cpp:470-476 | a move outside the window changes nothing at all; the window stays well-formed with the same frame |
| Drawing.ApplyPuts | src/cursesport.cpp:135-197 | a sequence of `mvwaddch` writes keeps well-formedness, the frame and the colours |
| Drawing.ApplyPutsAppend | src/cursesport.cpp:135-197 | two runs of writes in turn are the writes of their concatenation |
| Drawing.ApplyPutsOutside | src/cursesport.cpp:470-476 | writes that all fall outside the window change nothing |
| Drawing.OrDefault | src/cursesport.cpp:135-143 | a zero argument selects the default box code; any other is kept |
| Drawing.RowPuts | src/cursesport.cpp:207-215 | `n` writes, none for n <= 0, the i-th at (y, x + i) |
| Drawing.ColumnPuts | src/cursesport.cpp:222-230 | `n` writes, none for n <= 0, the j-th at (y + j, x) |
| Drawing.HlinePuts | src/cursesport.cpp:207-215 | `n` writes, none for n <= 0, the i-th at (y, x + i) with the given code, or the horizontal line code when that is 0 |
| Drawing.VlinePuts | src/cursesport.cpp:222-230 | `n` writes, none for n <= 0, the j-th at (y + j, x) with the given code, or the vertical line code when that is 0 |
| Drawing.BorderRuns | src/cursesport.cpp:135-197 | five runs: two sides, top, bottom, corners |
| Drawing.DrawBorder | src/cursesport.cpp:135-197 | the border writes keep well-formedness, the frame and the colours |
| Drawing.Border | src/cursesport.cpp:122-202 | the window keeps its shape and origin, and ends with FG 8, BG black and a plain style |
| Drawing.BorderRestoresCursor | src/cursesport.cpp:132-133 | the cursor is back where it was if it started on a cell; otherwise it is where the last border write left it |
| Drawing.BorderOfEmptyWindow | src/cursesport.cpp:122-202 | a window without cells gets no border; only the colours are reset |
| Drawing.DrawLine | src/cursesport.cpp:204-217 | the window keeps its shape, and ends with FG 8, BG black and a plain style |
| Drawing.MvAddchNarrow | src/cursesport.cpp:470-476 | at a cell: it holds the glyph in the window's colours; the next cell on the row is not empty; no earlier cell changes except the one before a starting empty half; elsewhere nothing changes |
| Drawing.RowDrawn | src/cursesport.cpp:207-215 | after k writes of a narrow glyph along a row, every written cell inside the window holds the glyph in the window's colours |
| Drawing.ColumnDrawn | src/cursesport.cpp:222-230 | after k writes of a narrow glyph down a column, every written cell inside the window holds the glyph in the window's colours |
| Drawing.HlineDraws | src/cursesport.cpp:204-217 | every cell of the line inside the window holds the glyph in the colours the border attribute selects |
| Drawing.VlineDraws | src/cursesport.cpp:219-232 | every cell of the line inside the window holds the glyph in the colours the border attribute selects |
| Drawing.EmptyLineResets | src/cursesport.cpp:204-217 | a line of no cells only resets the colours |
| Drawing.MvAddchKeeps | src/cursesport.cpp:470-476 | a narrow write leaves every cell that held text holding text, and changes none of them but its target and, when that was an empty half, the cell before it |
| Drawing.PutsKeepNonEmpty | src/cursesport.cpp:135-197 | narrow writes never empty a cell |
| Drawing.PutsKeepCell | src/cursesport.cpp:135-197 | a cell holding text that no narrow write targets keeps its contents, if its right neighbour already holds text whenever a write targets that neighbour |
| Drawing.DistinctPutsDrawn | src/cursesport.cpp:135-197 | after narrow writes to distinct cells of the window, each target holds its glyph in the colours the window had before, whatever the order of the writes |
| Drawing.DrawBorderFlat | src/cursesport.cpp:135-197 | the border's five runs are one sequence of writes |
| Drawing.BorderPutsAt | src/cursesport.cpp:135-197 | in a window at least 2 by 2, the border writes are the left side, the right side, the top, the bottom, then the four corners, each at the position and with the code the source gives |
| Drawing.BorderPutsApart | src/cursesport.cpp:135-197 | in such a window the border writes target distinct cells of the window, and are all narrow when the eight glyphs are |
| Drawing.DrawBorderDrawn | src/cursesport.cpp:135-197 | with narrow glyphs in a window at least 2 by 2: the sides, the top and bottom rows and the four corners hold their glyphs in the window's colours |
| Drawing.BorderDrawn | src/cursesport.cpp:122-202 | the same after `wborder` as a whole, which then resets the colours: the cells keep the colours the window had before the call |
| Cursesport.ColorPairTable.constructor | src/cursesport.cpp:36 | 100 entries, all black on black |
| Cursesport.ColorPairTable.InitPair | src/cursesport.cpp:446-450 | exactly one entry is replaced |
| Cursesport.Window.constructor | src/cursesport.cpp:79-95 | the window `NewWindow` describes |
| Cursesport.Window.MoveInternal | src/cursesport.cpp:38-59 | succeeds if and only if (y, x) is a cell; the new state is `Move` of the old |
| Cursesport.Window.Move | src/cursesport.cpp:453-461 | the new state is `Move` of the old |
| Cursesport.Window.NewLine | src/cursesport.cpp:99-107 | reports whether it moved; the new state is `NewLine` of the old |
| Cursesport.Window.AddedChar | src/cursesport.cpp:111-118 | the new state is `AddedChar` of the old |
| Cursesport.Window.SetText | src/cursesport.cpp:329 | the new state is `SetCh` of the old |
| Cursesport.Window.SetColours | src/cursesport.cpp:346-348 | the new state is `SetStyle` of the old |
| Cursesport.Window.RepairHalf | src/cursesport.cpp:354-357 | the new state is `Layout.RepairHalf` of the old |
| Cursesport.Window.EmptyHalf | src/cursesport.cpp:368-372 | the new state is `Layout.EmptyHalf` of the old |
| Cursesport.Window.Relocate | src/cursesport.cpp:375-386 | the new state is `Layout.Relocate` of the old |
| Cursesport.Window.WideHalf | src/cursesport.cpp:358-387 | the new state and the stop flag are `Layout.WideHalf` of the old |
| Cursesport.Window.WriteUnit | src/cursesport.cpp:344-387 | the new state and the stop flag are `Layout.WriteUnit` of the old |
| Cursesport.Window.Printstring | src/cursesport.cpp:308-392 | the new state is `Print` of the old, with the loop kept in step with `Loop` |
| Cursesport.Window.PrintPrepare | src/cursesport.cpp:319-330 | the new state and the go flag are `Prepare` of the old |
| Cursesport.Window.PrintStep | src/cursesport.cpp:332-390 | the new state, the text left and the stop flag are `Step` of the old |
| Cursesport.Window.Erase | src/cursesport.cpp:429-434 | the new state is `WindowSpec.Erase` of the old |
| Cursesport.Window.Attron | src/cursesport.cpp:541-555 | the new state is `WindowSpec.Attron` of the old with the table's pair |
| Cursesport.Window.Attroff | src/cursesport.cpp:566-570 | the new state is `WindowSpec.Attroff` of the old |
| Cursesport.Newwin | src/cursesport.cpp:65-97 | null exactly when `NewWindow` gives none; otherwise a fresh window in the state it gives |
| Cursesport.WmoveInternal | src/cursesport.cpp:38-59 | fails for a null handle; otherwise as `Window.MoveInternal` |
| Cursesport.Wmove | src/cursesport.cpp:453-461 | the new state is `Move` of the old |
| Cursesport.Wprintw | src/cursesport.cpp:395-403 | the new state is `Print` of the old |
| Cursesport.Mvwprintw | src/cursesport.cpp:406-412 | no change at all when the move fails; otherwise `Print` after `Move` |
| Cursesport.Waddch | src/cursesport.cpp:573-618 | the new state is `Addch` of the old |
| Cursesport.Mvwaddch | src/cursesport.cpp:470-476 | the new state is `MvAddch` of the old |
| Cursesport.DrawPuts | src/cursesport.cpp:208-214 | the new state is `ApplyPuts` of the old |
| Cursesport.DrawBorderRuns | src/cursesport.cpp:135-197 | the new state is `DrawBorder` of the old |
| Cursesport.Wborder | src/cursesport.cpp:122-202 | the new state is `Border` of the old |
| Cursesport.Mvwhline | src/cursesport.cpp:204-217 | the new state is `DrawLine` of the old with the row writes |
| Cursesport.Mvwvline | src/cursesport.cpp:219-232 | the new state is `DrawLine` of the old with the column writes |
| Cursesport.Werase | src/cursesport.cpp:421-437 | the new state is `WindowSpec.Erase` of the old |
| Cursesport.Wclear | src/cursesport.cpp:479-491 | the window is erased; the rows of `stdscr` above the window's origin are touched in addition; this also holds when the window is `stdscr` |
| Cursesport.Wattron | src/cursesport.cpp:533-556 | the new state is `WindowSpec.Attron` of the old |
| Cursesport.Wattroff | src/cursesport.cpp:558-571 | the new state is `WindowSpec.Attroff` of the old |
| Cursesport.GetMaxX | src/cursesport.cpp:494-497 | the width, or 0 for a null handle |
| Cursesport.GetMaxY | src/cursesport.cpp:500-503 | the height, or 0 for a null handle |
| Cursesport.GetBegX | src/cursesport.cpp:506-509 | the origin column, or 0 for a null handle |
| Cursesport.GetBegY | src/cursesport.cpp:512-515 | the origin row, or 0 for a null handle |
| Cursesport.GetCurX | src/cursesport.cpp:518-521 | the cursor column, or 0 for a null handle |
| Cursesport.GetCurY | src/cursesport.cpp:524-527 | the cursor row, or 0 for a null handle |

## Left out

- `UTF8_getch` and `mk_wcwidth`: their bodies are outside cursesport.cpp. Text is a sequence of code points, and the width table is the parameter `wcwidth`.
- Drawing.ByteCodePoint: the decoder is not part of this model. The model assumes it reports a lone byte of 0x80 or more as undecodable, and keeps that byte as `RawBytes + b`.
- The `LINE_*` and `LINE_*_C` constants, `BORDER_COLOR`, `TERMX` and `TERMY`: they are defined in other files, so they are parameters (`LineTable`, the border attribute, `termx` and `termy`).
- `wrefresh`, `refresh`, `resizeterm`, `curs_set`, `wredrawln` and `handle_additional_window_clear`: these hand off to the renderer or the UI, or do nothing.
- The `shared_ptr` handle, its deleter and the `inuse` flag: a handle is a nullable `Window?` reference.
- The `cursecell` and `WINDOW` declarations in cursesport.h: cursesport.h is not part of this model.
  - A default cell is one space, black on black, with a plain style.
  - The font style has only the bold, italic and underline bits.
- Cursesport.ColorPairTable.InitPair requires the pair index to be in 0..99. The source indexes the table without a check.
- Cursesport.Window.Attron, Cursesport.Wattron, Cursesport.Mvwhline and Cursesport.Mvwvline require the attribute's pair index to be below 100. The index can reach 447, and the source does not check it.
- Cursesport.Waddch requires a non-null handle, because the source dereferences it unchecked.
- Cursesport.Wclear requires a non-null `stdscr` whenever the window is non-null, for the same reason.
- WindowSpec.NewWindow requires the resolved size to be non-negative. The source would resize its line vectors to a negative size.
- Cursesport.Newwin carries the same requirement as WindowSpec.NewWindow, for the same reason.
- Attributes.FromColorPairIndex requires the index to be below 0x4000. The source shifts a signed `int` left by 17, which overflows above that.
- Colours and coordinates are unbounded integers. The wrap-around of `int` on `x + i`, `y + j` or a shifted colour is not modelled.
- Drawing.HlineDraws states its run property only for a glyph that prints as one narrow code point, and only for a start with 0 <= x and the row inside the window.
- Drawing.VlineDraws states its run property only for a glyph that prints as one narrow code point, and only for a start with 0 <= y and the column inside the window.
- Drawing.RowDrawn states its run property only for a glyph that prints as one narrow code point, and only for a start with 0 <= x and the row inside the window.
- Drawing.ColumnDrawn states its run property only for a glyph that prints as one narrow code point, and only for a start with 0 <= y and the column inside the window.
- Drawing.BorderDrawn states the border's cells only when all eight glyphs print as one narrow code point, and only for windows at least two cells wide and high. The same holds for Drawing.DrawBorderDrawn.
- Drawing.DistinctPutsDrawn states the cells only for narrow writes to distinct cells of the window.
- The three invariants in the header comment of cursesport.cpp are not window invariants of the model, because the code does not keep them. The first is broken by units of width 0. The second is broken by relocation. The third holds for each write in windows at least two columns wide (`Layout.WriteUnitAvoidsLastColumn`).
- Layout.WriteUnitAvoidsLastColumn does not cover windows one column wide, where the code puts a wide glyph into the last column (`Layout.WideUnitOneColumn`).

## Findings

| source | as written | input that shows it | evidently intended | confidence | as-written member | corrected member |
|---|---|---|---|---|---|---|
| src/cursesport.cpp:356 | `seccell->ch.assign(' ', 1)` calls the count-and-character overload of `std::string::assign`, storing 32 characters U+0001. | print a narrow character over the left half of a wide glyph: the stale right half gets 32 characters U+0001 | one space, as `assign(1, ' ')` at line 379 and `assign(" ")` at line 329 write it | high (C++ overload resolution; not executed) | Layout.RepairHalfAsWrittenDiffers | Layout.RepairHalf |
| src/cursesport.cpp:365 | `curcell->ch.assign(' ', 1)` makes the same call when a wide glyph has no cell for its right half, storing 32 characters U+0001. | print a wide character from the last cell of the last row: that cell gets 32 characters U+0001 | one space, as line 379 writes it | high (C++ overload resolution; not executed) | Layout.TruncateAsWrittenDiffers | Layout.WideHalf |

The rest of the model writes the intended single space, both for the repair (`Layout.RepairHalf`) and for the truncation (`Layout.WideHalf`).
