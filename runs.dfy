/** Facts about runs of cells along a row or a column of a window, and
    about which cells a single write leaves as they were. */
module Runs {
  import opened DisplayUnit
  import opened WindowSpec

  /** The cells (y, c) with x <= c < x + n that lie inside the window all
      hold `cell`. */
  ghost predicate RowFilled(r: WinState, y: int, x: int, n: int, cell: Cell)
  {
    Shaped(r) && forall c {:trigger At(r, y, c)} :: x <= c < x + n && InWindow(r, y, c) ==> At(r, y, c) == cell
  }

  /** The cells (row, x) with y <= row < y + n that lie inside the window
      all hold `cell`. */
  ghost predicate ColumnFilled(r: WinState, y: int, x: int, n: int, cell: Cell)
  {
    Shaped(r) && forall row {:trigger At(r, row, x)} :: y <= row < y + n && InWindow(r, row, x) ==> At(r, row, x) == cell
  }

  /** (y, x) is a cell of the window holding some text. */
  ghost predicate NonEmpty(r: WinState, y: int, x: int)
  {
    Shaped(r) && InWindow(r, y, x) && At(r, y, x).ch != []
  }

  /** `r` has the shape of `s` and the cells before (y, x) in reading order
      as `s` has them, except perhaps the one just before (y, x) when that
      cell of `s` is empty. */
  ghost predicate KeepsBefore(s: WinState, r: WinState, y: int, x: int)
  {
    && Shaped(s) && Shaped(r) && r.width == s.width && r.height == s.height
    && forall i, j {:trigger At(r, i, j)} :: InWindow(s, i, j) && (i < y || (i == y && j < x && (j != x - 1 || NonEmpty(s, y, x)))) ==>
         At(r, i, j) == At(s, i, j)
  }

  /** `r` is `s` after a narrow write at (y, x), as far as the cells of `s`
      holding text go: they still hold text, and they keep their contents
      unless they are (y, x) itself, or the cell just before it when (y, x)
      was an empty right half. */
  ghost predicate KeepsNonEmpty(s: WinState, r: WinState, y: int, x: int)
  {
    && Shaped(s) && Shaped(r) && r.width == s.width && r.height == s.height
    && forall i, j {:trigger At(r, i, j)} :: NonEmpty(s, i, j) ==>
         && At(r, i, j).ch != []
         && ((i != y || (j != x && (j != x - 1 || NonEmpty(s, y, x)))) ==> At(r, i, j) == At(s, i, j))
  }

  /** After `k` writes of a row from (y, x): the run holds `cell`, and the
      cell after a non-empty run that fits is not empty. */
  ghost predicate RowDrawnInv(r: WinState, y: int, x: int, k: int, cell: Cell)
  {
    RowFilled(r, y, x, k, cell) && (0 < k && x + k < r.width ==> NonEmpty(r, y, x + k))
  }

  /** `r` is `s` after a narrow write at (y, x): the cell holds `cell`, the
      cell after it on the row is not empty, and the cells before it are
      kept as `KeepsBefore` says. */
  ghost predicate NarrowWritten(s: WinState, r: WinState, y: int, x: int, cell: Cell)
  {
    && KeepsBefore(s, r, y, x) && InWindow(s, y, x)
    && At(r, y, x) == cell
    && (x + 1 < s.width ==> NonEmpty(r, y, x + 1))
  }

  /** `r` is `s` after a narrow write at (y, x) when that is a cell of the
      window, and `s` itself otherwise. */
  ghost predicate WriteOrSkip(s: WinState, r: WinState, y: int, x: int, cell: Cell)
  {
    if InWindow(s, y, x) then NarrowWritten(s, r, y, x, cell) else r == s
  }

  /** A narrow write seen from before the cursor was moved: `m` is `s` with
      the cursor at (y, x), and `r` is `m` after the write of `text`. */
  lemma MovedFrame(s: WinState, m: WinState, r: WinState, y: int, x: int, text: seq<CodePoint>)
    requires WellFormed(s) && InWindow(s, y, x)
    requires m.lines == s.lines && m.width == s.width && m.height == s.height && m.cursory == y && m.cursorx == x
    requires Shaped(r) && r.width == s.width && r.height == s.height
    requires At(r, y, x) == Cell(text, m.fg, m.bg, m.fs)
    requires x + 1 < m.width ==> At(r, y, x + 1).ch != []
    requires forall i, j :: InWindow(m, i, j) && (i < y || (i == y && j < x && (j != x - 1 || At(m, y, x).ch != []))) ==>
               At(r, i, j) == At(m, i, j)
    ensures NarrowWritten(s, r, y, x, Cell(text, m.fg, m.bg, m.fs))
  {
  }

  /** The same for the cells holding text: `m` is `s` with the cursor at
      (y, x), and `r` is `m` after the write. */
  lemma MovedKeeps(s: WinState, m: WinState, r: WinState, y: int, x: int)
    requires WellFormed(s) && InWindow(s, y, x)
    requires m.lines == s.lines && m.width == s.width && m.height == s.height && m.cursory == y && m.cursorx == x
    requires Shaped(r) && r.width == s.width && r.height == s.height
    requires forall i, j :: InWindow(m, i, j) && At(m, i, j).ch != [] ==>
      && At(r, i, j).ch != []
      && ((i != y || (j != x && (j != x - 1 || At(m, y, x).ch != []))) ==> At(r, i, j) == At(m, i, j))
    ensures KeepsNonEmpty(s, r, y, x)
  {
  }

  /** One step of a row: `r` is `prev` after the write at (y, c), where
      c = x+k-1. */
  lemma RowStep(prev: WinState, r: WinState, y: int, x: int, c: int, k: int, cell: Cell)
    requires 0 < k && 0 <= x && 0 <= y < prev.height && c == x + (k - 1)
    ensures RowDrawnInv(prev, y, x, k - 1, cell) && WriteOrSkip(prev, r, y, c, cell) ==>
            RowDrawnInv(r, y, x, k, cell)
  {
  }

  /** One step of a column: `r` is `prev` after the write at (row, x),
      where row = y+k-1. */
  lemma ColumnStep(prev: WinState, r: WinState, y: int, x: int, row: int, k: int, cell: Cell)
    requires 0 < k && 0 <= y && 0 <= x < prev.width && row == y + (k - 1)
    ensures ColumnFilled(prev, y, x, k - 1, cell) && WriteOrSkip(prev, r, row, x, cell) ==>
            ColumnFilled(r, y, x, k, cell)
  {
  }

  /** Resetting the colours keeps a filled row; a count of zero or below
      fills nothing. */
  lemma RowFilledColours(r: WinState, r': WinState, y: int, x: int, k: int, n: int, cell: Cell)
    requires r'.lines == r.lines && r'.width == r.width && r'.height == r.height
    requires k == if n > 0 then n else 0
    requires RowFilled(r, y, x, k, cell)
    ensures RowFilled(r', y, x, n, cell)
  {
    forall c | x <= c < x + n && InWindow(r', y, c) ensures At(r', y, c) == cell {
      assert At(r, y, c) == cell;
    }
  }

  /** Resetting the colours keeps a filled column; a count of zero or below
      fills nothing. */
  lemma ColumnFilledColours(r: WinState, r': WinState, y: int, x: int, k: int, n: int, cell: Cell)
    requires r'.lines == r.lines && r'.width == r.width && r'.height == r.height
    requires k == if n > 0 then n else 0
    requires ColumnFilled(r, y, x, k, cell)
    ensures ColumnFilled(r', y, x, n, cell)
  {
    forall row | y <= row < y + n && InWindow(r', row, x) ensures At(r', row, x) == cell {
      assert At(r, row, x) == cell;
    }
  }
}
