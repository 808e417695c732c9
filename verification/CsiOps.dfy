/** Control characters, cursor movements and editing sequences on the backend, proved against their functions. */
module CsiOps {
  import opened Cells
  import opened Common
  import opened CsiSpec
  import opened Editing
  import opened ScreenOps
  import opened Terminal

  const SIZE_LIMIT: nat := 0xFFFF_FFFF

  function ViewOf(t: Backend, origin: bool): View
    reads t
  {
    View(t.cols, t.rows, t.top, t.bottom, origin)
  }

  /** Where a movement up goes, a row number below the lowest allowed being brought to it. */
  method Up(n: nat, y: nat, v: View) returns (dest: nat)
    requires ViewOk(v) && y < v.rows
    ensures dest == Max(y - Min(n, y), if v.origin then v.top else 0)
  {
    var k := n;
    if k > y { k := y; }
    dest := y - k;
    var lowest := if v.origin then v.top else 0;
    if dest < lowest { dest := lowest; }
  }

  method Down(n: nat, y: nat, v: View) returns (dest: nat)
    requires ViewOk(v) && y < v.rows
    ensures dest == Min(Min(y + n, v.rows - 1), (if v.origin then v.bottom else v.rows) - 1)
  {
    var k := n;
    if y + k > v.rows - 1 { k := v.rows - 1 - y; }
    dest := y + k;
    var limit := if v.origin then v.bottom else v.rows;
    if dest >= limit { dest := limit - 1; }
  }

  method Row(n: nat, v: View) returns (row: nat)
    requires ViewOk(v)
    ensures row == RowOf(n, v)
  {
    var k := n;
    if k != 0 { k := k - 1; }
    var limit, offset := v.rows, 0;
    if v.origin { limit, offset := v.bottom - v.top, v.top; }
    if k >= limit { k := limit - 1; }
    row := k + offset;
  }

  method Column(n: nat, v: View) returns (col: nat)
    requires ViewOk(v)
    ensures col == Min(Index(n), v.cols - 1)
  {
    col := n;
    if col != 0 { col := col - 1; }
    if col >= v.cols { col := v.cols - 1; }
  }

  /** Where a cursor movement goes. */
  method Target(c: char, a: nat, b: nat, x: nat, y: nat, v: View) returns (dx: nat, dy: nat)
    requires ViewOk(v) && x < v.cols && y < v.rows && IsMove(c)
    ensures (dx, dy) == CursorAfter(c, a, b, x, y, v)
  {
    hide RowOf;
    dx, dy := x, y;
    match c
    case 'A' => dy := Up(a, y, v);
    case 'F' => dx := 0; dy := Up(a, y, v);
    case 'B' => dy := Down(a, y, v);
    case 'e' => dy := Down(a, y, v);
    case 'E' => dx := 0; dy := Down(a, y, v);
    case 'C' => dx := if x + a > v.cols - 1 then v.cols - 1 else x + a;
    case 'a' => dx := if x + a > v.cols - 1 then v.cols - 1 else x + a;
    case 'D' => dx := if a > x then 0 else x - a;
    case 'd' => dy := Row(a, v);
    case 'G' => dx := Column(a, v);
    case '`' => dx := Column(a, v);
    case 'H' => dy := Row(a, v); dx := Column(b, v);
    case 'f' => dy := Row(a, v); dx := Column(b, v);
    case _ =>
  }

  ghost function PenOf(t: Backend): Pen
    reads t
  {
    Pen(t.ideal, t.cursorX, t.cursorY)
  }

  function ModesOf(t: Backend): Modes
    reads t
  {
    Modes(ViewOf(t, false), t.wrapEnabled, t.scrollEnabled)
  }

  lemma PenIsOk(t: Backend)
    requires t.Valid()
    ensures PenOk(PenOf(t), ModesOf(t).view)
  {
  }

  /** The cursor movements. */
  method MoveCursor(t: Backend, c: char, a: nat, b: nat, origin: bool)
    requires t.Valid() && t.cols <= SIZE_LIMIT && t.rows <= SIZE_LIMIT && IsMove(c)
    modifies t`cursorX, t`cursorY
    ensures t.Valid() && PenOk(old(PenOf(t)), ViewOf(t, origin))
    ensures PenOf(t) == Moved(c, a, b, old(PenOf(t)), ViewOf(t, origin))
  {
    hide Holds, CursorAfter;
    var x, y := t.GetCursorPos();
    var dx, dy := Target(c, a, b, x, y, ViewOf(t, origin));
    t.SetCursorPos(dx, dy);
  }

  /** The control characters that act on cursor and screen. */
  method ExecuteC0(t: Backend, c: nat)
    requires t.Valid() && t.cols <= SIZE_LIMIT && t.rows <= SIZE_LIMIT
    modifies t`queued, t`ideal, t.queue, t.pending, t`cursorX, t`cursorY
    ensures t.Valid() && PenOk(old(PenOf(t)), ViewOf(t, false))
    ensures PenOf(t) == Controlled(c, old(PenOf(t)), ViewOf(t, false), Blank(t))
  {
    hide Holds, LineFed;
    var x, y := t.GetCursorPos();
    if c == 8 {
      if x > 0 { t.SetCursorPos(x - 1, y); }
    } else if c == 9 {
      x := (x / TAB + 1) * TAB;
      if x >= t.cols { x := t.cols - 1; }
      t.SetCursorPos(x, y);
    } else if c == 11 || c == 12 || c == 10 {
      LineFeed(t, x, y);
    } else if c == 13 {
      t.SetCursorPos(0, y);
    }
  }

  /** A line feed to column x: down a row, scrolling the region on its last row. */
  method LineFeed(t: Backend, x: nat, y: nat)
    requires t.Valid() && t.cols <= SIZE_LIMIT && t.rows <= SIZE_LIMIT
    requires x == Reported(t.cursorX, t.cols) && y == t.cursorY
    modifies t`queued, t`ideal, t.queue, t.pending, t`cursorX, t`cursorY
    ensures t.Valid() && PenOk(old(PenOf(t)), ViewOf(t, false))
    ensures PenOf(t) == LineFed(old(PenOf(t)), ViewOf(t, false), Blank(t))
  {
    hide Holds, ShiftLeft;
    if y == t.bottom - 1 {
      t.Scroll();
      t.SetCursorPos(x, y);
    } else if y < t.rows - 1 {
      t.SetCursorPos(x, y + 1);
    }
  }

  /** NEL: a line feed, and then the first column. */
  method NextLine(t: Backend, y: nat)
    requires t.Valid() && t.cols <= SIZE_LIMIT && t.rows <= SIZE_LIMIT && y == t.cursorY
    modifies t`queued, t`ideal, t.queue, t.pending, t`cursorX, t`cursorY
    ensures t.Valid() && PenOk(old(PenOf(t)), ViewOf(t, false))
    ensures PenOf(t) == LineFed(old(PenOf(t)), ViewOf(t, false), Blank(t)).(x := 0)
  {
    hide Holds, ShiftLeft;
    if y == t.bottom - 1 {
      t.Scroll();
      t.SetCursorPos(0, y);
    } else if y < t.rows - 1 {
      t.SetCursorPos(0, y + 1);
    } else {
      t.SetCursorPos(0, y);
    }
  }

  /** RI: up a row, scrolling the region down on its first row. */
  method ReverseLineFeed(t: Backend, x: nat, y: nat)
    requires t.Valid() && t.cols <= SIZE_LIMIT && t.rows <= SIZE_LIMIT
    requires x == Reported(t.cursorX, t.cols) && y == t.cursorY
    modifies t`queued, t`ideal, t.queue, t.pending, t`cursorX, t`cursorY
    ensures t.Valid() && PenOk(old(PenOf(t)), ViewOf(t, false))
    ensures PenOf(t) == ReverseFed(old(PenOf(t)), ViewOf(t, false), Blank(t))
  {
    hide Holds, ShiftRight;
    if y == t.top {
      t.RevScroll();
      t.SetCursorPos(x, y);
    } else if y > 0 {
      t.SetCursorPos(x, y - 1);
    }
  }

  /** The sequences that change one row, and erasing. */
  method EditCells(t: Backend, c: char, n: nat)
    requires t.Valid() && t.cols <= SIZE_LIMIT && t.rows <= SIZE_LIMIT && c in {'J', 'K', 'X', '@', 'P'}
    modifies t`queued, t`ideal, t.queue, t.pending, t`cursorX, t`cursorY
    ensures t.Valid() && PenOk(old(PenOf(t)), ViewOf(t, false))
    ensures PenOf(t) == Edited(c, n, old(PenOf(t)), ViewOf(t, false), Blank(t))
  {
    hide Holds, ShiftLeft, ShiftRight, Fill;
    RowBounds(t.cursorY, t.rows, t.cols);
    RowOrder(t.bottom, t.rows, t.cols);
    var x, y := t.GetCursorPos();
    if c == 'J' {
      EraseDisplay(t, n, x, y);
    } else if c == 'K' {
      EraseLine(t, n, x, y);
    } else if c == 'X' {
      EraseChars(t, n, x, y);
    } else if c == '@' {
      InsertChars(t, n, x, y);
    } else {
      DeleteChars(t, n, x, y);
    }
  }

  /** The sequences that move rows. */
  method EditRows(t: Backend, c: char, n: nat)
    requires t.Valid() && c in {'L', 'M', 'S', 'T'}
    modifies t`queued, t`ideal, t.queue, t.pending, t`top
    ensures t.Valid() && t.top == old(t.top) && PenOk(old(PenOf(t)), ViewOf(t, false))
    ensures PenOf(t) == Edited(c, n, old(PenOf(t)), ViewOf(t, false), Blank(t))
  {
    hide Holds, ShiftLeft, ShiftRight, Fill;
    RowBounds(t.cursorY, t.rows, t.cols);
    RowOrder(t.bottom, t.rows, t.cols);
    var y := t.cursorY;
    if c == 'M' {
      DeleteLines(t, n, y);
    } else if c == 'L' {
      InsertLines(t, n, y);
    } else if c == 'S' {
      ScrollUp(t, n);
    } else {
      ScrollDown(t, n);
    }
  }

  /** DECSTBM: sets the margins and takes the cursor home. */
  method SetMargins(t: Backend, count: nat, a: nat, b: nat, origin: bool)
    requires t.Valid() && t.cols <= SIZE_LIMIT && t.rows <= SIZE_LIMIT && 0 < a && 0 < b
    modifies t`top, t`bottom, t`cursorX, t`cursorY
    ensures t.Valid() && (t.top, t.bottom) == MarginsAfter(count, a, b, t.rows)
    ensures t.cursorX == 0 && t.cursorY == if origin then t.top else 0
  {
    hide Holds;
    t.top, t.bottom := 0, t.rows;
    var top, bottom := 0, t.rows;
    if count > 0 { top := a - 1; }
    if count > 1 { bottom := b; }
    if top >= t.rows || bottom > t.rows || top >= bottom - 1 {
      top, bottom := 0, t.rows;
    }
    t.top, t.bottom := top, bottom;
    t.SetCursorPos(0, if origin then t.top else 0);
  }

  /** A glyph is printed: in insert mode the rest of the row makes room first. */
  method PrintGlyph(t: Backend, insertMode: bool, room: nat, glyph: nat)
    requires t.Valid()
    modifies t`queued, t`ideal, t.queue, t.pending, t`cursorX, t`cursorY
    ensures t.Valid() && PenOk(old(PenOf(t)), ModesOf(t).view)
    ensures PenOf(t) == Printed(old(PenOf(t)), ModesOf(t), insertMode, room, t.Styled(0), glyph)
  {
    hide Holds, ShiftLeft, OpenGap;
    PenIsOk(t);
    RowBounds(t.cursorY, t.rows, t.cols);
    RowOrder(t.bottom, t.rows, t.cols);
    InsertShift(t, insertMode, room);
    PutGlyph(t, glyph);
  }

  /** A glyph is put at the cursor. */
  method PutGlyph(t: Backend, glyph: nat)
    requires t.Valid()
    modifies t`queued, t`ideal, t.queue, t.pending, t`cursorX, t`cursorY
    ensures t.Valid() && PenOk(old(PenOf(t)), ModesOf(t).view)
    ensures PenOf(t) == Put(old(PenOf(t)), ModesOf(t), t.Styled(0), glyph)
  {
    hide Holds, ShiftLeft;
    PenIsOk(t);
    RowOrder(t.bottom, t.rows, t.cols);
    t.RawPutchar(glyph);
  }

  lemma Bounds(t: Backend)
    requires t.Valid()
    ensures t.cols > 0 && t.cursorX <= t.cols && t.cursorY < t.rows && t.top < t.bottom <= t.rows
  {
  }

  lemma ScreenSize(t: Backend)
    requires t.Valid()
    ensures t.cols > 0 && t.shown.Length == |t.ideal| && t.bottom * t.cols <= |t.ideal|
    ensures t.cursorY * t.cols + t.cols <= |t.ideal|
  {
    RowBounds(t.cursorY, t.rows, t.cols);
    RowOrder(t.bottom, t.rows, t.cols);
  }
}
