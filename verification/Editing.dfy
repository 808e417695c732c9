/**
 The editing control sequences of the terminal (erase, insert, delete, scroll), written as loops over
 the backend's one-cell operations and proved to be whole-region shifts and fills of the plain screen.
 While they run, scrolling is off and wrapping is on.
 */
module Editing {
  import opened Cells
  import opened Common
  import opened ScreenOps
  import opened Terminal

  /** The blank cell in the current attributes. */
  function Blank(t: Backend): Cell
    reads t
  {
    t.Styled(0x20)
  }

  /** Writes n blanks from the cursor, staying in its row. */
  method PutBlanks(t: Backend, n: nat)
    requires t.Valid() && t.cursorX + n <= t.cols
    modifies t`queued, t`ideal, t.queue, t.pending, t`cursorX, t`cursorY
    ensures t.Valid() && t.cursorX == old(t.cursorX) + n && t.cursorY == old(t.cursorY)
    ensures var p := old(t.cursorY * t.cols + t.cursorX); t.ideal == Fill(old(t.ideal), p, p + n, Blank(t))
  {
    hide Holds, ShiftLeft;
    ghost var s, p := t.ideal, t.cursorY * t.cols + t.cursorX;
    for i := 0 to n
      invariant t.Valid() && |t.ideal| == |s|
      invariant t.cursorX == old(t.cursorX) + i && t.cursorY == old(t.cursorY)
      invariant t.ideal == Fill(s, p, p + i, Blank(t))
    {
      PositionInRange(t.cursorX, t.cursorY, t.cols, t.rows);
      t.RawPutchar(0x20);
    }
  }

  /** Blanks row y from column x for n cells, and leaves the cursor behind them. */
  method BlankFrom(t: Backend, x: nat, y: nat, n: nat)
    requires t.Valid() && x < t.cols && y < t.rows && x + n <= t.cols && t.cols <= SIZE_MAX && t.rows <= SIZE_MAX
    modifies t`queued, t`ideal, t.queue, t.pending, t`cursorX, t`cursorY
    ensures t.Valid()
    ensures t.ideal == Fill(old(t.ideal), y * t.cols + x, y * t.cols + x + n, Blank(t))
  {
    t.SetCursorPos(x, y);
    PutBlanks(t, n);
  }

  /** Blanks the whole rows y0 .. y1. */
  method BlankRows(t: Backend, y0: nat, y1: nat)
    requires t.Valid() && y0 <= y1 <= t.rows && t.cols <= SIZE_MAX && t.rows <= SIZE_MAX
    modifies t`queued, t`ideal, t.queue, t.pending, t`cursorX, t`cursorY
    ensures t.Valid()
    ensures t.ideal == Fill(old(t.ideal), y0 * t.cols, y1 * t.cols, Blank(t))
  {
    hide Holds;
    ghost var s := t.ideal;
    for yc := y0 to y1
      invariant t.Valid() && |t.ideal| == |s|
      invariant t.ideal == Fill(s, y0 * t.cols, yc * t.cols, Blank(t))
    {
      RowOrder(y0, yc, t.cols);
      RowBounds(yc, t.rows, t.cols);
      BlankFrom(t, 0, yc, t.cols);
    }
  }

  /** ED: 0 erases from the cursor on, 1 up to and including it, 2 and 3 everything. */
  method EraseDisplay(t: Backend, mode: nat, x: nat, y: nat)
    requires t.Valid() && x == Reported(t.cursorX, t.cols) && y == t.cursorY && t.cols <= SIZE_MAX && t.rows <= SIZE_MAX
    modifies t`queued, t`ideal, t.queue, t.pending, t`cursorX, t`cursorY
    ensures t.Valid() && t.cursorX == (if mode <= 1 then x else old(t.cursorX)) && t.cursorY == y
    ensures var p := y * t.cols + x;
            t.ideal == (if mode == 0 then Fill(old(t.ideal), p, t.rows * t.cols, Blank(t))
                        else if mode == 1 then Fill(old(t.ideal), 0, p + 1, Blank(t))
                        else if mode == 2 || mode == 3 then Fill(old(t.ideal), 0, t.rows * t.cols, Blank(t))
                        else old(t.ideal))
  {
    hide Holds;
    if mode == 0 {
      BlankFrom(t, x, y, t.cols - x);
      BlankRows(t, y + 1, t.rows);
      RowBounds(y, t.rows, t.cols);
      t.SetCursorPos(x, y);
    } else if mode == 1 {
      BlankRows(t, 0, y);
      BlankFrom(t, 0, y, x + 1);
      t.SetCursorPos(x, y);
    } else if mode == 2 || mode == 3 {
      t.Clear(false);
    }
  }

  /** EL: 0 erases the row from the cursor on, 1 up to and including it, 2 all of it. */
  method EraseLine(t: Backend, mode: nat, x: nat, y: nat)
    requires t.Valid() && x == Reported(t.cursorX, t.cols) && y == t.cursorY && t.cols <= SIZE_MAX && t.rows <= SIZE_MAX
    modifies t`queued, t`ideal, t.queue, t.pending, t`cursorX, t`cursorY
    ensures t.Valid() && t.cursorX == (if mode <= 2 then x else old(t.cursorX)) && t.cursorY == y
    ensures var r := y * t.cols;
            t.ideal == (if mode == 0 then Fill(old(t.ideal), r + x, r + t.cols, Blank(t))
                        else if mode == 1 then Fill(old(t.ideal), r, r + x + 1, Blank(t))
                        else if mode == 2 then Fill(old(t.ideal), r, r + t.cols, Blank(t))
                        else old(t.ideal))
  {
    hide Holds;
    if mode == 0 {
      BlankFrom(t, x, y, t.cols - x);
      t.SetCursorPos(x, y);
    } else if mode == 1 {
      BlankFrom(t, 0, y, x + 1);
      t.SetCursorPos(x, y);
    } else if mode == 2 {
      BlankFrom(t, 0, y, t.cols);
      t.SetCursorPos(x, y);
    }
  }

  /** ECH: erases n cells from the cursor, at most to the end of the row. */
  method EraseChars(t: Backend, n: nat, x: nat, y: nat)
    requires t.Valid() && x == Reported(t.cursorX, t.cols) && y == t.cursorY && t.cols <= SIZE_MAX && t.rows <= SIZE_MAX
    modifies t`queued, t`ideal, t.queue, t.pending, t`cursorX, t`cursorY
    ensures t.Valid() && t.cursorX == x && t.cursorY == y
    ensures var p := y * t.cols + x;
            t.ideal == Fill(old(t.ideal), p, p + (if n > t.cols - x then t.cols - x else n), Blank(t))
  {
    var cx, cy := t.GetCursorPos();
    t.SetCursorPos(cx, cy);
    var remaining := t.cols - cx;
    var count := if n > remaining then remaining else n;
    PutBlanks(t, count);
    t.SetCursorPos(x, y);
  }

  /** The start of row y. */
  ghost function RowStart(y: nat, cols: nat): nat { y * cols }

  /** Copies a cell of row y to another column of it. */
  method MoveInRow(t: Backend, y: nat, from: nat, column: nat)
    requires t.Valid() && y < t.rows && from < t.cols && column < t.cols
    modifies t`queued, t`ideal, t.queue, t.pending
    ensures t.Valid() && t.ideal == CopyCell(old(t.ideal), RowStart(y, t.cols) + from, RowStart(y, t.cols) + column)
  {
    hide Backend.Valid;
    t.MoveCharacter(column, y, from, y);
  }

  /** Moves the cells of row y from column x on n columns to the right, last one first. */
  method ShiftCellsRight(t: Backend, x: nat, y: nat, n: nat)
    requires t.Valid() && y < t.rows && 0 < n && x + n <= t.cols
    modifies t`queued, t`ideal, t.queue, t.pending
    ensures t.Valid() && y * t.cols + t.cols <= |old(t.ideal)|
    ensures t.ideal == OpenGap(old(t.ideal), y * t.cols + x, y * t.cols + t.cols, n)
  {
    hide Holds;
    ghost var s, r := t.ideal, RowStart(y, t.cols);
    ghost var end := r + t.cols;
    RowBounds(y, t.rows, t.cols);
    assert end <= |s| && r == y * t.cols;
    MovedRightEnds(s, r + x, end, n);
    hide MovedRight, CopyCell, OpenGap, Backend.Valid, RowStart;
    var i := t.cols - 1;
    while i >= x + n
      invariant x + n - 1 <= i < t.cols && t.Valid() && t.ideal == MovedRight(s, r + i + 1, end, n)
    {
      MovedRightStep(s, r + i, end, n);
      MoveInRow(t, y, i - n, i);
      i := i - 1;
    }
  }

  /** Positions from .. hi take the cells k places before them. */
  function MovedRight(s: seq<Cell>, from: nat, hi: nat, k: nat): (r: seq<Cell>)
    requires hi <= |s| && k <= from
    ensures |r| == |s|
  {
    seq(|s|, j requires 0 <= j < |s| && hi <= |s| && k <= from => if from <= j < hi then s[j - k] else s[j])
  }

  lemma MovedRightStep(s: seq<Cell>, q: nat, hi: nat, k: nat)
    requires 0 < k <= q < hi <= |s|
    ensures CopyCell(MovedRight(s, q + 1, hi, k), q - k, q) == MovedRight(s, q, hi, k)
  {
  }

  lemma MovedRightEnds(s: seq<Cell>, lo: nat, hi: nat, k: nat)
    requires lo + k <= hi <= |s|
    ensures MovedRight(s, hi, hi, k) == s && MovedRight(s, lo + k, hi, k) == OpenGap(s, lo, hi, k)
  {
  }

  /** ICH: the cells from the cursor on move right by n, and n blanks are inserted. */
  method InsertChars(t: Backend, count: nat, x: nat, y: nat)
    requires t.Valid() && x == Reported(t.cursorX, t.cols) && y == t.cursorY && t.cols <= SIZE_MAX && t.rows <= SIZE_MAX
    modifies t`queued, t`ideal, t.queue, t.pending, t`cursorX, t`cursorY
    ensures t.Valid() && t.cursorX == (if count == 0 then old(t.cursorX) else x) && t.cursorY == y
    ensures y * t.cols + t.cols <= |old(t.ideal)|
    ensures t.ideal == ShiftRight(old(t.ideal), y * t.cols + x, y * t.cols + t.cols,
                                  if count > t.cols - x then t.cols - x else count, Blank(t))
  {
    hide Holds;
    RowBounds(y, t.rows, t.cols);
    var n := count;
    if n == 0 { return; }
    if n > t.cols - x { n := t.cols - x; }
    GapThenFill(t.ideal, y * t.cols + x, y * t.cols + t.cols, n, Blank(t));
    ShiftCellsRight(t, x, y, n);
    BlankFrom(t, x, y, n);
    t.SetCursorPos(x, y);
  }

  /** The shift that makes room for a character in insert mode; the cells made room for keep their content. */
  method InsertShift(t: Backend, insertMode: bool, count: nat)
    requires t.Valid()
    modifies t`queued, t`ideal, t.queue, t.pending
    ensures t.Valid() && t.cursorY * t.cols + t.cols <= |old(t.ideal)|
    ensures t.ideal == if insertMode
                       then OpenGap(old(t.ideal), t.cursorY * t.cols + Reported(t.cursorX, t.cols),
                                    t.cursorY * t.cols + t.cols, count)
                       else old(t.ideal)
  {
    hide Holds;
    RowBounds(t.cursorY, t.rows, t.cols);
    ghost var s, p, end := t.ideal, t.cursorY * t.cols + Reported(t.cursorX, t.cols), t.cursorY * t.cols + t.cols;
    assert end <= |s| && t.cursorY < t.rows && t.cols > 0;
    GapCapped(s, p, end, count);
    hide OpenGap, Backend.Valid;
    if insertMode && count > 0 {
      var x, y := t.GetCursorPos();
      var n := if count > t.cols - x then t.cols - x else count;
      ShiftCellsRight(t, x, y, n);
    }
  }

  /** A gap wider than the stretch is one as wide as the stretch, and a gap of nothing is none. */
  lemma GapCapped(s: seq<Cell>, lo: nat, hi: nat, k: nat)
    requires lo <= hi <= |s|
    ensures OpenGap(s, lo, hi, if k > hi - lo then hi - lo else k) == OpenGap(s, lo, hi, k)
    ensures OpenGap(s, lo, hi, 0) == s
  {
  }

  /** Positions lo .. end take the cells k places after them. */
  function MovedLeft(s: seq<Cell>, lo: nat, end: nat, k: nat): (r: seq<Cell>)
    requires end + k <= |s|
    ensures |r| == |s|
  {
    seq(|s|, j requires 0 <= j < |s| && end + k <= |s| => if lo <= j < end then s[j + k] else s[j])
  }

  lemma MovedLeftStep(s: seq<Cell>, lo: nat, q: nat, k: nat)
    requires lo + k <= q < |s|
    ensures CopyCell(MovedLeft(s, lo, q - k, k), q, q - k) == MovedLeft(s, lo, q - k + 1, k)
  {
  }

  lemma MovedLeftEnds(s: seq<Cell>, lo: nat, hi: nat, k: nat, blank: Cell)
    requires lo + k <= hi <= |s|
    ensures MovedLeft(s, lo, lo, k) == s
    ensures Fill(MovedLeft(s, lo, hi - k, k), hi - k, hi, blank) == ShiftLeft(s, lo, hi, k, blank)
    ensures k == 0 ==> MovedLeft(s, lo, hi - k, k) == ShiftLeft(s, lo, hi, k, blank)
  {
  }

  /** Moves the cells of row y after the first n from column x on n columns to the left. */
  method CloseGap(t: Backend, x: nat, y: nat, n: nat)
    requires t.Valid() && y < t.rows && x + n <= t.cols
    modifies t`queued, t`ideal, t.queue, t.pending
    ensures t.Valid() && y * t.cols + t.cols <= |old(t.ideal)|
    ensures t.ideal == MovedLeft(old(t.ideal), y * t.cols + x, y * t.cols + t.cols - n, n)
  {
    hide Holds;
    ghost var s, r := t.ideal, RowStart(y, t.cols);
    RowBounds(y, t.rows, t.cols);
    assert r + t.cols <= |s| && r == y * t.cols;
    MovedLeftEnds(s, r + x, r + t.cols, n, Blank(t));
    hide MovedLeft, CopyCell, ShiftLeft, Fill, Backend.Valid, RowStart;
    for i := x + n to t.cols
      invariant t.Valid() && t.ideal == MovedLeft(s, r + x, r + i - n, n)
    {
      MovedLeftStep(s, r + x, r + i, n);
      MoveInRow(t, y, i, i - n);
    }
  }

  /** DCH: n cells from the cursor on are deleted, the rest of the row closes up, and blanks fill its end. */
  method DeleteChars(t: Backend, count: nat, x: nat, y: nat)
    requires t.Valid() && x == Reported(t.cursorX, t.cols) && y == t.cursorY && t.cols <= SIZE_MAX && t.rows <= SIZE_MAX
    modifies t`queued, t`ideal, t.queue, t.pending, t`cursorX, t`cursorY
    ensures t.Valid() && t.cursorX == x && t.cursorY == y
    ensures y * t.cols + t.cols <= |old(t.ideal)|
    ensures t.ideal == ShiftLeft(old(t.ideal), y * t.cols + x, y * t.cols + t.cols,
                                 if count > t.cols - x then t.cols - x else count, Blank(t))
  {
    hide Holds;
    RowBounds(y, t.rows, t.cols);
    ghost var s, p, end := t.ideal, y * t.cols + x, y * t.cols + t.cols;
    var n := if count > t.cols - x then t.cols - x else count;
    assert end <= |s| && x < t.cols;
    MovedLeftEnds(s, p, end, n, Blank(t));
    hide Fill, ShiftLeft, MovedLeft, Backend.Valid;
    CloseGap(t, x, y, n);
    t.SetCursorPos(t.cols - n, y);
    var cx, cy := t.GetCursorPos();
    var remaining := t.cols - cx;
    PutBlanks(t, if n > remaining then remaining else n);
    t.SetCursorPos(x, y);
  }

  /** n scrolls of the region are one shift by n rows. */
  method ScrollTimes(t: Backend, n: nat)
    requires t.Valid()
    modifies t`queued, t`ideal, t.queue, t.pending
    ensures t.Valid() && t.bottom * t.cols <= |old(t.ideal)|
    ensures t.ideal == ShiftLeft(old(t.ideal), t.top * t.cols, t.bottom * t.cols, n * t.cols, Blank(t))
  {
    hide Holds, ShiftLeft;
    ghost var s := t.ideal;
    RowOrder(t.bottom, t.rows, t.cols);
    ShiftLeftByNone(s, t.top * t.cols, t.bottom * t.cols, Blank(t));
    for i := 0 to n
      invariant t.Valid() && t.ideal == ShiftLeft(s, t.top * t.cols, t.bottom * t.cols, i * t.cols, Blank(t))
    {
      ShiftLeftTwice(s, t.top * t.cols, t.bottom * t.cols, i * t.cols, t.cols, Blank(t));
      assert i * t.cols + t.cols == (i + 1) * t.cols;
      t.Scroll();
    }
  }

  method RevScrollTimes(t: Backend, n: nat)
    requires t.Valid()
    modifies t`queued, t`ideal, t.queue, t.pending
    ensures t.Valid() && t.bottom * t.cols <= |old(t.ideal)|
    ensures t.ideal == ShiftRight(old(t.ideal), t.top * t.cols, t.bottom * t.cols, n * t.cols, Blank(t))
  {
    hide Holds, ShiftRight;
    ghost var s := t.ideal;
    RowOrder(t.bottom, t.rows, t.cols);
    ShiftRightByNone(s, t.top * t.cols, t.bottom * t.cols, Blank(t));
    for i := 0 to n
      invariant t.Valid() && t.ideal == ShiftRight(s, t.top * t.cols, t.bottom * t.cols, i * t.cols, Blank(t))
    {
      ShiftRightTwice(s, t.top * t.cols, t.bottom * t.cols, i * t.cols, t.cols, Blank(t));
      assert i * t.cols + t.cols == (i + 1) * t.cols;
      t.RevScroll();
    }
  }

  /** DL: inside the margins, n rows from the cursor's on are deleted and the rest of the region moves up. */
  method DeleteLines(t: Backend, n: nat, y: nat)
    requires t.Valid() && y == t.cursorY
    modifies t`queued, t`ideal, t.queue, t.pending, t`top
    ensures t.Valid() && t.top == old(t.top) && t.bottom * t.cols <= |old(t.ideal)|
    ensures t.ideal == if t.top <= y < t.bottom
                       then ShiftLeft(old(t.ideal), y * t.cols, t.bottom * t.cols, Min(n, t.bottom - y) * t.cols,
                                      Blank(t))
                       else old(t.ideal)
  {
    hide Holds, ShiftLeft;
    RowOrder(t.bottom, t.rows, t.cols);
    if y < t.top || y >= t.bottom { return; }
    var top := t.top;
    t.top := y;
    ScrollTimes(t, Min(n, t.bottom - y));
    t.top := top;
  }

  /** IL: inside the margins, n blank rows are inserted at the cursor's and the rest of the region moves down. */
  method InsertLines(t: Backend, n: nat, y: nat)
    requires t.Valid() && y == t.cursorY
    modifies t`queued, t`ideal, t.queue, t.pending, t`top
    ensures t.Valid() && t.top == old(t.top) && t.bottom * t.cols <= |old(t.ideal)|
    ensures t.ideal == if t.top <= y < t.bottom
                       then ShiftRight(old(t.ideal), y * t.cols, t.bottom * t.cols, Min(n, t.bottom - y) * t.cols,
                                       Blank(t))
                       else old(t.ideal)
  {
    hide Holds, ShiftRight;
    RowOrder(t.bottom, t.rows, t.cols);
    if y < t.top || y >= t.bottom { return; }
    var top := t.top;
    t.top := y;
    RevScrollTimes(t, Min(n, t.bottom - y));
    t.top := top;
  }

  /** SU: the region moves up n rows, at most its own height. */
  method ScrollUp(t: Backend, n: nat)
    requires t.Valid()
    modifies t`queued, t`ideal, t.queue, t.pending
    ensures t.Valid() && t.bottom * t.cols <= |old(t.ideal)|
    ensures t.ideal == ShiftLeft(old(t.ideal), t.top * t.cols, t.bottom * t.cols, Min(n, t.bottom - t.top) * t.cols,
                                 Blank(t))
  {
    hide Holds, ShiftLeft;
    ScrollTimes(t, Min(n, t.bottom - t.top));
  }

  /** SD: the region moves down n rows, at most its own height. */
  method ScrollDown(t: Backend, n: nat)
    requires t.Valid()
    modifies t`queued, t`ideal, t.queue, t.pending
    ensures t.Valid() && t.bottom * t.cols <= |old(t.ideal)|
    ensures t.ideal == ShiftRight(old(t.ideal), t.top * t.cols, t.bottom * t.cols, Min(n, t.bottom - t.top) * t.cols,
                                  Blank(t))
  {
    hide Holds, ShiftRight;
    RevScrollTimes(t, Min(n, t.bottom - t.top));
  }
}
