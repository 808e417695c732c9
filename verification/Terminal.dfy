/**
 The framebuffer terminal backend: cells are queued until a flush draws them. Every operation
 is proved against a plain screen, ideal, on which it takes effect at once; shown is what the
 display shows.
 */
module Terminal {
  import opened Cells
  import opened ScreenOps

  const SIZE_MAX: nat := 0xFFFF_FFFF_FFFF_FFFF

  class Backend {
    const cols: nat
    const rows: nat
    const grid: array<Cell>
    const queue: array<Item>
    const pending: array<int>
    const shown: array<Cell>
    var queued: nat
    var cursorX: nat
    var cursorY: nat
    var oldX: nat
    var oldY: nat
    var textFg: nat
    var textBg: nat
    var textFgDefault: bool
    var textBgDefault: bool
    var cursorEnabled: bool
    var wrapEnabled: bool
    var scrollEnabled: bool
    var top: nat
    var bottom: nat
    ghost var ideal: seq<Cell>

    /** A blank screen with the cursor in the corner, drawn. */
    constructor (cols: nat, rows: nat, fg: nat, bg: nat)
      requires cols > 0 && rows > 0
      ensures Valid() && fresh(grid) && fresh(queue) && fresh(pending) && fresh(shown)
      ensures this.cols == cols && this.rows == rows && queued == 0
      ensures cursorEnabled && cursorX == 0 && cursorY == 0 && oldX == 0 && oldY == 0
      ensures forall i: nat | i < |ideal| :: pending[i] == NULL && Alike(grid[i], ideal[i])
      ensures forall i: nat | i < |ideal| :: ideal[i] == Cell(0x20, false, true, fg, bg)
      ensures Shows()
    {
      hide *;
      var blank := Cell(0x20, false, true, fg, bg);
      this.cols, this.rows := cols, rows;
      grid := new Cell[rows * cols](_ => blank);
      queue := new Item[rows * cols](_ => Item(0, 0, blank));
      pending := new int[rows * cols](_ => NULL);
      shown := new Cell[rows * cols](_ => blank);
      queued, cursorX, cursorY, oldX, oldY := 0, 0, 0, 0, 0;
      textFg, textBg, textFgDefault, textBgDefault := fg, bg, false, true;
      cursorEnabled, wrapEnabled, scrollEnabled := true, true, true;
      top, bottom := 0, rows;
      ideal := seq(rows * cols, _ => blank);
      new;
      Blank(blank);
      FullRefresh();
      AllDrawn();
    }

    /** A blank screen, before it is drawn for the first time. */
    lemma Blank(blank: Cell)
      requires cols > 0 && rows > 0 && grid != shown && |ideal| == rows * cols && queued == 0 && top == 0
      requires bottom == rows
      requires grid.Length == queue.Length == pending.Length == shown.Length == rows * cols
      requires cursorX == 0 && cursorY == 0 && oldX == 0 && oldY == 0
      requires forall i | 0 <= i < rows * cols :: pending[i] == NULL
      requires forall i | 0 <= i < rows * cols :: grid[i] == blank && shown[i] == blank && ideal[i] == blank
      ensures Valid() && RefreshSafe()
    {
      hide Holds;
      NoneQueued(grid[..], queue[..], pending[..], cols, ideal);
    }

    lemma AllDrawn()
      requires Valid() && queued == 0
      ensures |ideal| == rows * cols == pending.Length == grid.Length == shown.Length
      ensures forall i: nat | i < |ideal| :: pending[i] == NULL && Alike(grid[i], ideal[i])
    {
      hide Holds, Alike;
      NothingPending(grid[..], queue[..], pending[..], cols, ideal);
    }

    /** A redraw keeps the bookkeeping exactly when it does not touch a pending cell or leave a second inverted one. */
    ghost predicate RefreshSafe()
      requires Sized()
      reads this, grid, pending
    {
      forall i: nat | i < rows * cols && cursorEnabled && IsCursor(i) ::
        pending[i] == NULL && (IsOldCursor(i) || Inverted(grid[i]) == grid[i])
    }

    /** Redraws everything already drawn, and the cursor. */
    method FullRefresh()
      requires Valid()
      modifies grid, pending, shown
      ensures Sized() && (Valid() <==> old(RefreshSafe()))
      ensures old(Ranged(queue[..], queued, pending[..], cols))
      ensures (grid[..], pending[..], shown[..]) ==
              Drawn(old(grid[..]), queue[..], old(pending[..]), old(grid[..]), CursorDrawn())
      ensures queued == 0 ==> Shows()
    {
      hide *;
      ghost var grid0, pending0 := grid[..], pending[..];
      ghost var safe := SafeBefore();
      RefreshShown();
      Refreshed(grid0, pending0, safe);
    }

    /** What is known before a redraw. */
    lemma SafeBefore() returns (safe: bool)
      requires Valid()
      ensures Sized() && cursorX <= cols && cursorY < rows && safe == RefreshSafe()
      ensures Ranged(queue[..], queued, pending[..], cols)
      ensures Redrawable(grid[..], pending[..], safe)
    {
      hide Holds, RefreshSafe, Ranged, Inverted, Alike, IsOldCursor;
      safe := RefreshSafe();
      HoldsRanged(grid[..], queue[..], queued, pending[..], cols, ideal);
      if queued == 0 { NothingPending(grid[..], queue[..], pending[..], cols, ideal); }
      if cursorEnabled && cursorX < cols {
        PositionInRange(cursorX, cursorY, cols, rows);
        SafeWithCursor(cursorY * cols + cursorX);
      } else {
        SafeWithoutCursor();
      }
    }

    /** Grid and map hold the plain screen, and a redraw of them is safe or not. */
    ghost predicate Redrawable(grid0: seq<Cell>, pending0: seq<int>, safe: bool)
      reads this, queue
    {
      && Sized() && cursorX <= cols && cursorY < rows && oldX <= cols && oldY < rows && top < bottom <= rows
      && Holds(grid0, queue[..], queued, pending0, cols, ideal) && Ranged(queue[..], queued, pending0, cols)
      && |grid0| == |pending0| == rows * cols
      && (var i := CursorDrawn();
          safe <==> (i != NULL ==> pending0[i] == NULL && (IsOldCursor(i) || Inverted(grid0[i]) == grid0[i])))
      && (queued == 0 ==> forall j: nat | j < |ideal| :: pending0[j] == NULL && Alike(grid0[j], ideal[j]))
    }

    lemma Refreshed(grid0: seq<Cell>, pending0: seq<int>, safe: bool)
      requires Redrawable(grid0, pending0, safe)
      requires (grid[..], pending[..], shown[..]) == Drawn(grid0, queue[..], pending0, grid0, CursorDrawn())
      ensures Sized() && (Valid() <==> safe)
      ensures queued == 0 ==> Shows()
    {
      hide Holds, Ranged, Drawn, Inverted, Alike, IsOldCursor, Valid, Shows;
      DrawnNowhere(grid0, queue[..], pending0, grid0);
      if cursorEnabled && cursorX < cols {
        RefreshOutcome(grid0, pending0, safe, cursorY * cols + cursorX);
      } else {
        RefreshPlain(grid0, pending0);
      }
    }

    /** The drawing of a redraw, whatever is pending: all drawn cells, then the cursor. */
    method RefreshShown()
      requires Sized() && cursorX <= cols && cursorY < rows && Ranged(queue[..], queued, pending[..], cols)
      modifies grid, pending, shown
      ensures (grid[..], pending[..], shown[..]) ==
              Drawn(old(grid[..]), queue[..], old(pending[..]), old(grid[..]), CursorDrawn())
    {
      RedrawGrid();
      if cursorEnabled { DrawCursor(); }
    }

    lemma SafeWithCursor(i: nat)
      requires Sized() && cursorEnabled && cursorX < cols && cursorY < rows
      requires i == cursorY * cols + cursorX < rows * cols
      ensures RefreshSafe() <==> pending[i] == NULL && (IsOldCursor(i) || Inverted(grid[i]) == grid[i])
    {
      assert IsCursor(i);
    }

    lemma SafeWithoutCursor()
      requires Sized() && !(cursorEnabled && cursorX < cols)
      ensures RefreshSafe()
    {
    }

    /** The state after a redraw that drew no cursor. */
    lemma RefreshPlain(grid0: seq<Cell>, pending0: seq<int>)
      requires Sized() && cursorX <= cols && cursorY < rows && oldX <= cols && oldY < rows && top < bottom <= rows
      requires Holds(grid0, queue[..], queued, pending0, cols, ideal)
      requires (grid[..], pending[..], shown[..]) == (grid0, pending0, grid0)
      requires !(cursorEnabled && cursorX < cols)
      requires queued == 0 ==> forall j: nat | j < |ideal| :: Alike(grid0[j], ideal[j])
      ensures Valid()
      ensures queued == 0 ==> Shows()
    {
      hide Holds;
      forall j: nat | j < |ideal|
        ensures shown[j] == grid[j]
      {
        assert shown[j] == shown[..][j] && grid[j] == grid[..][j];
      }
      if queued == 0 { ShowsAlike(); }
    }

    /** The state after a redraw drew the cursor at position i. */
    lemma RefreshOutcome(grid0: seq<Cell>, pending0: seq<int>, safe: bool, i: nat)
      requires Sized() && cursorX < cols && cursorY < rows && cursorEnabled
      requires i == cursorY * cols + cursorX < rows * cols
      requires oldX <= cols && oldY < rows && top < bottom <= rows
      requires Holds(grid0, queue[..], queued, pending0, cols, ideal) && Ranged(queue[..], queued, pending0, cols)
      requires (grid[..], pending[..], shown[..]) == Drawn(grid0, queue[..], pending0, grid0, i)
      requires safe <==> pending0[i] == NULL && (IsOldCursor(i) || Inverted(grid0[i]) == grid0[i])
      requires queued == 0 ==> forall j: nat | j < |ideal| :: pending0[j] == NULL && Alike(grid0[j], ideal[j])
      ensures Valid() <==> safe
      ensures queued == 0 ==> Shows()
    {
      hide Shows;
      forall j: nat | j < |ideal| ensures shown[j] == shown[..][j] && grid[j] == grid[..][j] {}
      if pending0[i] != NULL {
        DroppedEntry(grid0, queue[..], queued, pending0, cols, ideal, i, grid[..]);
      } else {
        assert grid[..] == grid0 && pending[..] == pending0;
        hide Holds;
        assert shown[i] == Inverted(grid[i]);
        assert forall j: nat | j < |ideal| && j != i :: shown[j] == grid[j];
        if queued == 0 { ShowsAlike(); }
      }
    }

    method RedrawGrid()
      requires Sized()
      modifies shown
      ensures shown[..] == grid[..]
    {
      for i := 0 to shown.Length
        invariant shown[..i] == grid[..i]
      {
        shown[i] := grid[i];
      }
    }

    ghost predicate Sized()
      reads `ideal
    {
      && cols > 0 && rows > 0 && |ideal| == rows * cols
      && grid.Length == rows * cols && queue.Length == rows * cols && pending.Length == rows * cols
      && shown.Length == rows * cols && grid != shown
    }

    /** The position of the cursor; none for one past the last column. */
    ghost function CursorAt(): (i: int)
      requires cursorY < rows
      reads `cursorX, `cursorY
      ensures i == NULL || 0 <= i < rows * cols
    {
      if cursorX < cols then PositionInRange(cursorX, cursorY, cols, rows); cursorY * cols + cursorX else NULL
    }

    /** The position the cursor is shown at, if any. */
    ghost function CursorDrawn(): (i: int)
      requires cursorY < rows
      reads `cursorX, `cursorY, `cursorEnabled
      ensures i == NULL || 0 <= i < rows * cols
    {
      if cursorEnabled then CursorAt() else NULL
    }

    /** Position i is the one the cursor was last flushed at. */
    ghost predicate IsOldCursor(i: nat)
      reads this
    {
      oldX < cols && oldY < rows && i == oldY * cols + oldX
    }

    /** Position i is under the cursor; a cursor past the last column is under none. */
    ghost predicate IsCursor(i: nat)
      reads this
    {
      cursorX < cols && cursorY < rows && i == cursorY * cols + cursorX
    }

    /**
     Cursor and margins are in range, the cache holds the plain screen, and away from the
     old cursor the display shows what was last drawn.
     */
    ghost predicate Valid()
      reads this, grid, queue, pending, shown
    {
      && Sized()
      && cursorX <= cols && cursorY < rows && oldX <= cols && oldY < rows
      && top < bottom <= rows
      && Holds(grid[..], queue[..], queued, pending[..], cols, ideal)
      && (forall i: nat | i < rows * cols && !IsOldCursor(i) :: shown[i] == grid[i])
    }

    /** A cell with the current text attributes. */
    function Styled(c: nat): Cell
      reads this
    {
      Cell(c, textFgDefault, textBgDefault, textFg, textBg)
    }

    /** Queues a cell unless it is drawn already, in any state; positions off the screen are ignored. */
    method PushToQueue(c: Cell, x: nat, y: nat)
      requires Sized() && Ranged(queue[..], queued, pending[..], cols)
      modifies `queued, `ideal, queue, pending
      ensures !(x < cols && y < rows) ==>
                && queue[..] == old(queue[..]) && queued == old(queued) && pending[..] == old(pending[..])
                && ideal == old(ideal)
      ensures x < cols && y < rows ==>
                var i := y * cols + x;
                && i < rows * cols && ideal == old(ideal)[i := c]
                && (queue[..], queued, pending[..]) ==
                   Pushed(grid[..], old(queue[..]), old(queued), old(pending[..]), i, Item(x, y, c))
    {
      if x >= cols || y >= rows { return; }
      PositionInRange(x, y, cols, rows);
      var i := y * cols + x;
      ideal := ideal[i := c];
      var q := pending[i];
      if q == NULL {
        if Alike(grid[i], c) { return; }
        if queued == rows * cols { return; }
        queue[queued] := Item(x, y, c);
        pending[i] := queued;
        queued := queued + 1;
      } else {
        queue[q] := queue[q].(c := c);
      }
    }

    /** Puts a cell on the screen. */
    method Push(c: Cell, x: nat, y: nat)
      requires Valid()
      modifies `queued, `ideal, queue, pending
      ensures Valid()
      ensures ideal == if x < cols && y < rows then SetAt(old(ideal), y * cols + x, c) else old(ideal)
    {
      hide Holds, Ranged, Pushed, Offset;
      HoldsRanged(grid[..], queue[..], queued, pending[..], cols, ideal);
      if x < cols && y < rows {
        PositionInRange(x, y, cols, rows);
        ItemOffset(x, y, c, cols);
        PushedHolds(grid[..], queue[..], queued, pending[..], cols, ideal, y * cols + x, Item(x, y, c));
      }
      PushToQueue(c, x, y);
    }

    /** The cell at a position: pending if there is one, else drawn. */
    function CellOf(i: nat): (c: Cell)
      requires Valid() && i < rows * cols
      reads this, grid, queue, pending, shown
      ensures Alike(c, ideal[i])
    {
      assert Alike(CellAt(grid[..], queue[..], pending[..], i), ideal[i]);
      if pending[i] != NULL then queue[pending[i]].c else grid[i]
    }

    /** Copies the cell at position i to (x, y). */
    method PushCopy(i: nat, x: nat, y: nat)
      requires Valid() && i < rows * cols && x < cols && y < rows
      modifies `queued, `ideal, queue, pending
      ensures Valid()
      ensures ideal == SetAt(old(ideal), y * cols + x, old(ideal)[i])
    {
      PositionInRange(x, y, cols, rows);
      ghost var j, c := y * cols + x, ideal[i];
      Push(CellOf(i), x, y);
      AlikeReplaced(grid[..], queue[..], queued, pending[..], cols, ideal, j, c);
      ideal := ideal[j := c];
    }

    method MoveCharacter(newX: nat, newY: nat, oldX: nat, oldY: nat)
      requires Valid()
      modifies `queued, `ideal, queue, pending
      ensures Valid()
      ensures ideal == if oldX < cols && oldY < rows && newX < cols && newY < rows
                       then CopyCell(old(ideal), oldY * cols + oldX, newY * cols + newX) else old(ideal)
    {
      hide Holds;
      if oldX >= cols || oldY >= rows || newX >= cols || newY >= rows { return; }
      PositionInRange(oldX, oldY, cols, rows);
      PushCopy(oldX + oldY * cols, newX, newY);
    }

    /** Blanks row y. */
    method BlankRow(y: nat)
      requires Valid() && y < rows
      modifies `queued, `ideal, queue, pending
      ensures Valid()
      ensures ideal == Fill(old(ideal), y * cols, (y + 1) * cols, Styled(0x20))
    {
      RowBounds(y, rows, cols);
      for i := 0 to cols
        invariant Valid() && |ideal| == |old(ideal)|
        invariant ideal == Fill(old(ideal), y * cols, y * cols + i, Styled(0x20))
      {
        Push(Styled(0x20), i, y);
      }
    }

    /** The copying loop of scroll: positions lo + cols .. hi move up one row. */
    method CopyRowsUp(lo: nat, hi: nat)
      requires Valid() && lo + cols <= hi <= rows * cols
      modifies `queued, `ideal, queue, pending
      ensures Valid() && |ideal| == |old(ideal)|
      ensures forall j: nat | j < |ideal| :: ideal[j] == old(ideal)[if lo <= j < hi - cols then j + cols else j]
    {
      hide Holds;
      ghost var s := ideal;
      for i := lo + cols to hi
        invariant Valid() && |ideal| == |s|
        invariant forall j: nat | j < |s| && !(lo <= j < i - cols) :: ideal[j] == s[j]
        invariant forall j: nat | lo <= j < i - cols :: ideal[j] == s[j + cols]
      {
        var dest := i - cols;
        SplitPosition(dest, cols, rows);
        PushCopy(i, dest % cols, dest / cols);
      }
    }

    /** The copying loop of revscroll: positions lo .. hi - cols move down one row, last one first. */
    method CopyRowsDown(lo: nat, hi: nat)
      requires Valid() && lo + cols <= hi <= rows * cols
      modifies `queued, `ideal, queue, pending
      ensures Valid() && |ideal| == |old(ideal)|
      ensures forall j: nat | j < |ideal| :: ideal[j] == old(ideal)[if lo + cols <= j < hi then j - cols else j]
    {
      hide Holds;
      ghost var s := ideal;
      var i := hi - cols;
      while i > lo
        invariant lo <= i <= hi - cols && Valid() && |ideal| == |s|
        invariant forall j: nat | j < |s| && !(i + cols <= j < hi) :: ideal[j] == s[j]
        invariant forall j: nat | i + cols <= j < hi :: ideal[j] == s[j - cols]
      {
        i := i - 1;
        var dest := i + cols;
        SplitPosition(dest, cols, rows);
        PushCopy(i, dest % cols, dest / cols);
      }
    }

    /** The scroll region moves up one row and its last row is blanked. */
    method Scroll()
      requires Valid()
      modifies `queued, `ideal, queue, pending
      ensures Valid()
      ensures bottom * cols <= |old(ideal)|
      ensures ideal == ShiftLeft(old(ideal), top * cols, bottom * cols, cols, Styled(0x20))
    {
      hide Holds;
      RowOrder(bottom, rows, cols);
      RowOrder(top, bottom - 1, cols);
      RowBounds(bottom - 1, rows, cols);
      CopyRowsUp(top * cols, bottom * cols);
      BlankRow(bottom - 1);
    }

    /** The scroll region moves down one row and its first row is blanked. */
    method RevScroll()
      requires Valid()
      modifies `queued, `ideal, queue, pending
      ensures Valid()
      ensures bottom * cols <= |old(ideal)|
      ensures ideal == ShiftRight(old(ideal), top * cols, bottom * cols, cols, Styled(0x20))
    {
      hide Holds;
      RowOrder(bottom, rows, cols);
      RowOrder(top, bottom - 1, cols);
      RowBounds(bottom - 1, rows, cols);
      RowBounds(top, rows, cols);
      CopyRowsDown(top * cols, bottom * cols);
      BlankRow(top);
    }

    method Clear(move: bool)
      requires Valid()
      modifies `queued, `ideal, queue, pending, `cursorX, `cursorY
      ensures Valid()
      ensures ideal == Fill(old(ideal), 0, rows * cols, Styled(0x20))
      ensures cursorX == (if move then 0 else old(cursorX)) && cursorY == (if move then 0 else old(cursorY))
    {
      hide Holds;
      var size := rows * cols;
      for i := 0 to size
        invariant Valid() && |ideal| == |old(ideal)| && cursorX == old(cursorX) && cursorY == old(cursorY)
        invariant forall j: nat | j < |ideal| :: ideal[j] == if j < i then Styled(0x20) else old(ideal)[j]
      {
        SplitPosition(i, cols, rows);
        Push(Styled(0x20), i % cols, i / cols);
      }
      if move { cursorX, cursorY := 0, 0; }
    }

    method SetCursorPos(x: nat, y: nat)
      requires Valid() && x <= SIZE_MAX && y <= SIZE_MAX
      modifies `cursorX, `cursorY
      ensures Valid()
      ensures cursorX == Clamp(x, cols) && cursorY == Clamp(y, rows)
    {
      hide Holds;
      MoveCursor(x, y);
    }

    /** The clamping alone, in any state. */
    method MoveCursor(x: nat, y: nat)
      requires cols > 0 && rows > 0 && x <= SIZE_MAX && y <= SIZE_MAX
      modifies `cursorX, `cursorY
      ensures cursorX == Clamp(x, cols) && cursorY == Clamp(y, rows)
    {
      cursorX := if x >= cols then (if x > SIZE_MAX / 2 then 0 else cols - 1) else x;
      cursorY := if y >= rows then (if y > SIZE_MAX / 2 then 0 else rows - 1) else y;
    }

    /** The cursor as reported: a pending wrap counts as the last column. */
    method GetCursorPos() returns (x: nat, y: nat)
      requires Valid()
      ensures x == Reported(cursorX, cols) && y == cursorY && x < cols && y < rows
    {
      x := Reported(cursorX, cols);
      y := Reported(cursorY, rows);
    }

    /** Sets whether lines wrap and whether wrapping scrolls. */
    method SetWrapping(wrap: bool, scroll: bool)
      requires Valid()
      modifies `wrapEnabled, `scrollEnabled
      ensures Valid() && wrapEnabled == wrap && scrollEnabled == scroll
    {
      hide Holds;
      wrapEnabled, scrollEnabled := wrap, scroll;
    }

    method SetCursorEnabled(on: bool)
      requires Valid()
      modifies `cursorEnabled
      ensures Valid() && cursorEnabled == on
    {
      hide Holds;
      cursorEnabled := on;
    }

    /** Brings back saved text attributes and a saved cursor. */
    method Restore(fg: nat, bg: nat, fgDefault: bool, bgDefault: bool, x: nat, y: nat)
      requires Valid() && x <= cols && y < rows
      modifies `textFg, `textBg, `textFgDefault, `textBgDefault, `cursorX, `cursorY
      ensures Valid()
      ensures (textFg, textBg, textFgDefault, textBgDefault, cursorX, cursorY) == (fg, bg, fgDefault, bgDefault, x, y)
    {
      hide Holds;
      textFg, textBg, textFgDefault, textBgDefault := fg, bg, fgDefault, bgDefault;
      cursorX, cursorY := x, y;
    }

    method SetRegion(top: nat, bottom: nat)
      requires Valid() && top < bottom <= rows
      modifies `top, `bottom
      ensures Valid() && this.top == top && this.bottom == bottom
    {
      hide Holds;
      this.top, this.bottom := top, bottom;
    }

    /** The modes, margins and attributes a terminal starts with. */
    method Reinit(fg: nat)
      requires Valid()
      modifies `textFg, `textBg, `textFgDefault, `textBgDefault, `cursorEnabled
      modifies `wrapEnabled, `scrollEnabled, `top, `bottom, `cursorX, `cursorY
      ensures Valid() && cursorEnabled && wrapEnabled && scrollEnabled && top == 0 && bottom == rows
      ensures textBg == old(textBg)
      ensures textFg == fg && !textFgDefault && textBgDefault && cursorX == old(cursorX) && cursorY == old(cursorY)
    {
      assert rows > 0 && cursorX <= cols && cursorY < rows;
      hide Valid;
      SetCursorEnabled(true);
      SetWrapping(true, true);
      SetRegion(0, rows);
      Restore(fg, textBg, false, true, cursorX, cursorY);
    }

    /** Where the next character lands, and whether the region scrolls first. */
    function NextLanding(): (l: (nat, nat, bool))
      requires cols > 0 && rows > 0 && bottom > 0
      reads this
    {
      Landing(cursorX, cursorY, cols, rows, bottom, wrapEnabled, scrollEnabled)
    }

    /** Brings a cursor past the last column to where the next character lands. */
    method Wrap()
      requires Valid()
      modifies `queued, `ideal, queue, pending, `cursorX, `cursorY
      ensures Valid() && cursorX < cols
      ensures cursorX == old(NextLanding()).0 && cursorY == old(NextLanding()).1
      ensures bottom * cols <= |old(ideal)|
      ensures ideal == if old(NextLanding()).2 then ShiftLeft(old(ideal), top * cols, bottom * cols, cols, Styled(0x20))
                       else old(ideal)
    {
      hide Holds, ShiftLeft;
      RowOrder(bottom, rows, cols);
      if cursorX >= cols {
        if wrapEnabled && (cursorY < bottom - 1 || scrollEnabled) {
          var y := cursorY + 1;
          cursorX := 0;
          if y == bottom {
            y := y - 1;
            Scroll();
          }
          if y >= rows { y := rows - 1; }
          cursorY := y;
        } else {
          cursorX := cols - 1;
        }
      }
    }

    /** Writes a character at the cursor, wrapping and scrolling first when the cursor is past the last column. */
    method RawPutchar(c: nat)
      requires Valid()
      modifies `queued, `ideal, queue, pending, `cursorX, `cursorY
      ensures Valid()
      ensures cursorX == old(NextLanding()).0 + 1 && cursorY == old(NextLanding()).1
      ensures bottom * cols <= |old(ideal)|
      ensures ideal == SetAt(if old(NextLanding()).2
                             then ShiftLeft(old(ideal), top * cols, bottom * cols, cols, Styled(0x20))
                             else old(ideal),
                             old(NextLanding()).1 * cols + old(NextLanding()).0, Styled(c))
    {
      hide Holds, ShiftLeft, NextLanding;
      Wrap();
      Push(Styled(c), cursorX, cursorY);
      cursorX := cursorX + 1;
    }

    /** Draws the cell under the cursor inverted, settling its pending entry. */
    method DrawCursor()
      requires Sized() && cursorX <= cols && cursorY < rows && Ranged(queue[..], queued, pending[..], cols)
      modifies grid, pending, shown
      ensures (grid[..], pending[..], shown[..]) ==
              Drawn(old(grid[..]), queue[..], old(pending[..]), old(shown[..]), CursorAt())
    {
      hide Offset, Inverted;
      if cursorX >= cols || cursorY >= rows { return; }
      PositionInRange(cursorX, cursorY, cols, rows);
      var i := cursorX + cursorY * cols;
      var q := pending[i];
      var c := if q != NULL then queue[q].c else grid[i];
      shown[i] := Inverted(c);
      if q != NULL {
        grid[i] := queue[q].c;
        pending[i] := NULL;
      }
      assert grid[..] == old(grid[..])[i := c] && pending[..] == old(pending[..])[i := NULL];
      assert shown[..] == old(shown[..])[i := Inverted(c)];
    }

    /** Draws every item whose position has an entry. */
    method DrainQueue()
      requires Sized() && Ranged(queue[..], queued, pending[..], cols)
      modifies grid, pending, shown
      ensures (grid[..], pending[..], shown[..]) ==
              Settled(old(grid[..]), queue[..], queued, old(pending[..]), old(shown[..]), cols, 0)
    {
      hide Offset;
      for i := 0 to queued
        invariant Ranged(queue[..], queued, pending[..], cols)
        invariant Settled(grid[..], queue[..], queued, pending[..], shown[..], cols, i) ==
                  Settled(old(grid[..]), queue[..], queued, old(pending[..]), old(shown[..]), cols, 0)
      {
        ghost var grid0, pending0, shown0 := grid[..], pending[..], shown[..];
        var q := queue[i];
        var offset := Offset(q, cols);
        assert queue[..][i] == q;
        if pending[offset] != NULL {
          shown[offset] := q.c;
          grid[offset] := q.c;
          pending[offset] := NULL;
          assert grid[..] == grid0[offset := q.c] && shown[..] == shown0[offset := q.c];
          assert pending[..] == pending0[offset := NULL];
        }
      }
    }

    /** How position i is to look: as the plain screen has it, with colours exchanged under an enabled cursor. */
    ghost function Look(i: nat, under: nat): Painted
      requires i < |ideal|
      reads this
    {
      if cursorEnabled && IsCursor(i) then Exchanged(Paint(ideal[i], under)) else Paint(ideal[i], under)
    }

    /** The display looks like the plain screen, with the cursor on it. */
    ghost predicate Shows()
      reads this, shown
    {
      && shown.Length == |ideal|
      && forall i: nat, under: nat | i < |ideal| :: Paint(shown[i], under) == Look(i, under)
    }

    /** The cell the display should have at position i. */
    ghost function Displayed(i: nat): Cell
      requires i < |ideal|
      reads this
    {
      if cursorEnabled && IsCursor(i) then Inverted(ideal[i]) else ideal[i]
    }

    lemma ShowsAlike()
      requires shown.Length == |ideal| && forall i: nat | i < |ideal| :: Alike(shown[i], Displayed(i))
      ensures Shows()
    {
      hide Alike, Inverted, Paint, IsCursor;
      forall i: nat, under: nat | i < |ideal| ensures Paint(shown[i], under) == Look(i, under) {
        AlikeIff(shown[i], Displayed(i));
        InvertedPaints(ideal[i], under);
      }
    }

    /** The flush in any state: the cursor, the queued items, and the cell the old cursor was on. */
    method DoubleBufferFlush()
      requires Sized() && cursorX <= cols && cursorY < rows && Ranged(queue[..], queued, pending[..], cols)
      modifies `queued, `oldX, `oldY, grid, pending, shown
      ensures queued == 0 && oldX == cursorX && oldY == cursorY
      ensures var (g, m, s) := Drawn(old(grid[..]), queue[..], old(pending[..]), old(shown[..]), CursorDrawn());
              && Ranged(queue[..], old(queued), m, cols)
              && var (g, m, s) := Settled(g, queue[..], old(queued), m, s, cols, 0);
                 && grid[..] == g && pending[..] == m
                 && shown[..] == if old(OldCursorStale())
                                 then s[old(oldY * cols + oldX) := g[old(oldY * cols + oldX)]] else s
    {
      hide Settled, Ranged, Drawn;
      DrawnRanged(grid[..], queue[..], queued, pending[..], shown[..], cols, CursorDrawn());
      DrawnNowhere(grid[..], queue[..], pending[..], shown[..]);
      if cursorEnabled { DrawCursor(); }
      DrainQueue();
      if (oldX != cursorX || oldY != cursorY) || !cursorEnabled {
        if oldX < cols && oldY < rows {
          PositionInRange(oldX, oldY, cols, rows);
          shown[oldX + oldY * cols] := grid[oldX + oldY * cols];
        }
      }
      oldX, oldY := cursorX, cursorY;
      queued := 0;
    }

    /** The old cursor is somewhere, and no longer where the cursor is shown. */
    ghost predicate OldCursorStale()
      reads this
      ensures OldCursorStale() ==> oldY * cols + oldX < rows * cols
    {
      if (oldX != cursorX || oldY != cursorY || !cursorEnabled) && oldX < cols && oldY < rows then
        PositionInRange(oldX, oldY, cols, rows);
        true
      else false
    }

    /**
     Draws the pending cells and the cursor. Afterwards the display shows the plain screen,
     position by position, with exactly the cell under an enabled cursor inverted.
     */
    method Flush()
      requires Valid()
      modifies `queued, `oldX, `oldY, grid, pending, shown
      ensures Valid() && queued == 0 && oldX == cursorX && oldY == cursorY
      ensures Shows()
    {
      hide *;
      ghost var grid0, pending0, shown0, count := grid[..], pending[..], shown[..], queued;
      ghost var stale := OldCursorStale();
      ghost var last := FlushStarts();
      DoubleBufferFlush();
      FlushEnds(grid0, pending0, shown0, count, last, stale);
    }

    lemma FlushStarts() returns (last: int)
      requires Valid()
      ensures Sized() && cursorX <= cols && cursorY < rows && top < bottom <= rows
      ensures Ranged(queue[..], queued, pending[..], cols)
      ensures FlushesTo(grid[..], queue[..], queued, pending[..], shown[..], cols, ideal, CursorDrawn(), last)
      ensures OldCursorStale() ==> last == oldY * cols + oldX
      ensures !OldCursorStale() ==> last == NULL || last == CursorDrawn()
      ensures OldCursorStale() ==> last != CursorDrawn()
    {
      hide FlushesTo, Holds, Ranged;
      last := if oldX < cols then oldY * cols + oldX else NULL;
      HoldsRanged(grid[..], queue[..], queued, pending[..], cols, ideal);
      FlushShows(grid[..], queue[..], queued, pending[..], shown[..], cols, ideal, CursorDrawn(), last);
      if cursorX < cols && oldX < cols && (oldX != cursorX || oldY != cursorY) { DistinctPositions(); }
    }

    lemma FlushEnds(grid0: seq<Cell>, pending0: seq<int>, shown0: seq<Cell>, count: nat, last: int, stale: bool)
      requires Sized() && queued == 0 && cursorX <= cols && cursorY < rows && top < bottom <= rows
      requires oldX == cursorX && oldY == cursorY
      requires if stale then 0 <= last < rows * cols && last != CursorDrawn() else last == NULL || last == CursorDrawn()
      requires FlushesTo(grid0, queue[..], count, pending0, shown0, cols, ideal, CursorDrawn(), last)
      requires var (g, m, s) := Drawn(grid0, queue[..], pending0, shown0, CursorDrawn());
               && Ranged(queue[..], count, m, cols)
               && var (g, m, s) := Settled(g, queue[..], count, m, s, cols, 0);
                  grid[..] == g && pending[..] == m && shown[..] == if stale then s[last := g[last]] else s
      ensures Valid()
      ensures Shows()
    {
      hide Settled, Drawn, Ranged, Shows;
      ghost var drawn := CursorDrawn();
      forall i: nat | i < |ideal| ensures Alike(shown[i], Displayed(i)) {
        assert Alike(CellAt(grid[..], queue[..], pending[..], i), ideal[i]);
        assert i == drawn <==> cursorEnabled && IsCursor(i);
      }
      ShowsAlike();
      hide Holds;
    }

    lemma DistinctPositions()
      requires cursorX < cols && oldX < cols && (oldX != cursorX || oldY != cursorY)
      ensures cursorY * cols + cursorX != oldY * cols + oldX
    {
      if cursorY * cols + cursorX == oldY * cols + oldX {
        PositionUnique(cursorX, cursorY, oldX, oldY, cols);
        assert false;
      }
    }
  }

  /** Values past the end clamp to the last index; wrapped-around negative ones to zero. */
  function Clamp(x: nat, n: nat): (r: nat)
    requires n > 0
    ensures r < n
  {
    if x < n then x else if x > SIZE_MAX / 2 then 0 else n - 1
  }

  lemma DrawnNowhere(grid: seq<Cell>, queue: seq<Item>, mp: seq<int>, shown: seq<Cell>)
    requires |grid| == |mp| == |shown|
    ensures Drawn(grid, queue, mp, shown, NULL) == (grid, mp, shown)
  {
  }

  lemma DrawnRanged(grid: seq<Cell>, queue: seq<Item>, queued: nat, mp: seq<int>, shown: seq<Cell>, cols: nat, i: int)
    requires |grid| == |mp| == |shown| && (i == NULL || 0 <= i < |grid|) && Ranged(queue, queued, mp, cols)
    ensures Ranged(queue, queued, Drawn(grid, queue, mp, shown, i).1, cols)
  {
    hide Offset;
  }

  lemma ItemOffset(x: nat, y: nat, c: Cell, cols: nat)
    ensures Offset(Item(x, y, c), cols) == y * cols + x
  {
  }

  /** A new cell at position 0 of a screen on which nothing is pending. */
  lemma FirstChange(grid: seq<Cell>, queue: seq<Item>, mp: seq<int>, cols: nat, c: Cell)
    requires 0 < |grid| == |queue| == |mp| && (forall i | 0 <= i < |mp| :: mp[i] == NULL) && grid[0].c != c.c
    ensures Pushed(grid, queue, 0, mp, 0, Item(0, 0, c)) == (queue[0 := Item(0, 0, c)], 1, mp[0 := 0])
    ensures Ranged(queue, 0, mp, cols) && Ranged(queue[0 := Item(0, 0, c)], 1, mp[0 := 0], cols)
  {
  }

  /** Drawn by a redraw, it is not pending any more. */
  lemma RedrawnChange(grid: seq<Cell>, queue: seq<Item>, mp: seq<int>, c: Cell)
    requires 0 < |grid| == |queue| == |mp| && (forall i | 0 <= i < |mp| :: mp[i] == NULL) && queue[0] == Item(0, 0, c)
    ensures Drawn(grid, queue, mp[0 := 0], grid, 0) == (grid[0 := c], mp, grid[0 := Inverted(c)])
  {
    assert mp[0 := 0][0 := NULL] == mp;
  }

  /** As it is still queued, a second change may find no room. */
  lemma SecondChange(grid: seq<Cell>, queue: seq<Item>, mp: seq<int>, cols: nat, c: Cell, d: Cell)
    requires 0 < |grid| == |queue| == |mp| && (forall i | 0 <= i < |mp| :: mp[i] == NULL)
    requires queue[0] == Item(0, 0, c) && grid[0] == c && d.c != c.c
    ensures Ranged(queue, 1, mp, cols)
    ensures var r := Pushed(grid, queue, 1, mp, 0, Item(0, 0, d));
            && r == (if |grid| == 1 then (queue, 1, mp) else (queue[1 := Item(0, 0, d)], 2, mp[0 := 1]))
            && Ranged(r.0, r.1, r.2, cols)
  {
  }

  /** The flush then draws the first change, at the end if not at once. */
  lemma FirstChangeWins(grid: seq<Cell>, queue: seq<Item>, mp: seq<int>, shown: seq<Cell>, cols: nat, c: Cell, d: Cell)
    requires 0 < |grid| == |queue| == |mp| == |shown| && (forall i | 0 <= i < |mp| :: mp[i] == NULL)
    requires queue[0] == Item(0, 0, c) && grid[0] == c
    requires |grid| > 1 ==> queue[1] == Item(0, 0, d)
    ensures var (count, m, i) := if |grid| == 1 then (1, mp, 0) else (2, mp[0 := 1], 1);
            var (g, m, s) := Drawn(grid, queue, m, shown, i);
            && Ranged(queue, count, m, cols)
            && var (g, m, s) := Settled(g, queue, count, m, s, cols, 0);
               g[0] == c && s[0].c == c.c
  {
    if |grid| > 1 {
      var m := mp[0 := 1];
      var (g1, m1, s1) := Drawn(grid, queue, m, shown, 1);
      assert m1 == m && g1 == grid;
      var (g2, m2, s2) := (g1[0 := c], m1[0 := NULL], s1[0 := c]);
      assert Settled(g1, queue, 2, m1, s1, cols, 0) == Settled(g2, queue, 2, m2, s2, cols, 1) == (g2, m2, s2);
    }
  }

  /** A new screen, a change of the cell under the cursor, and a redraw: the change is drawn and still queued. */
  method ChangeAndRefresh(cols: nat, rows: nat, fg: nat, bg: nat, c: Cell) returns (t: Backend)
    requires cols > 0 && rows > 0 && c.c != 0x20
    ensures t.Sized() && t.cols == cols && t.rows == rows && t.cursorEnabled && t.cursorX == 0 && t.cursorY == 0
    ensures fresh(t) && fresh(t.grid) && fresh(t.queue) && fresh(t.pending) && fresh(t.shown) && t.oldX == 0
    ensures t.oldY == 0
    ensures 0 < rows * cols && t.queued == 1 && t.queue[0] == Item(0, 0, c) && t.grid[0] == c
    ensures forall i | 0 <= i < rows * cols :: t.pending[i] == NULL
  {
    hide Holds, Ranged, Pushed, Drawn, Inverted;
    t := new Backend(cols, rows, fg, bg);
    PositionInRange(0, 0, cols, rows);
    ghost var mp := t.pending[..];
    FirstChange(t.grid[..], t.queue[..], mp, cols, c);
    PushedHolds(t.grid[..], t.queue[..], 0, mp, cols, t.ideal, 0, Item(0, 0, c));
    t.PushToQueue(c, 0, 0);
    RedrawnChange(t.grid[..], t.queue[..], mp, c);
    t.FullRefresh();
  }

  /**
   On a screen of any size, a redraw with a changed cell c pending under the cursor leads to a wrong display: the next
   change of that cell, to d, is dropped if the screen has no other cell, and loses to c when the queue is drained if
   the cursor moves on before the flush.
   */
  method RefreshLosesTrack(cols: nat, rows: nat, fg: nat, bg: nat, c: Cell, d: Cell) returns (t: Backend)
    requires cols > 0 && rows > 0 && c.c != 0x20 && d.c != c.c
    ensures t.Sized() && t.queued == 0 && t.ideal[0] == d && t.shown[0].c == c.c
  {
    hide Ranged, Pushed, Drawn, Settled, Inverted;
    t := ChangeAndRefresh(cols, rows, fg, bg, c);
    ghost var mp := t.pending[..];
    SecondChange(t.grid[..], t.queue[..], mp, cols, c, d);
    t.PushToQueue(d, 0, 0);
    FirstChangeWins(t.grid[..], t.queue[..], mp, t.shown[..], cols, c, d);
    if cols > 1 {
      t.MoveCursor(1, 0);
    } else if rows > 1 {
      t.MoveCursor(0, 1);
    }
    t.DoubleBufferFlush();
  }
}
