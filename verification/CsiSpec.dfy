/** What control characters and control sequences do to a cursor and a plain screen, as functions. */
module CsiSpec {
  import opened Cells
  import opened Common
  import opened ScreenOps

  const TAB: nat := 8

  /** The size of the screen, the scroll margins and the origin mode. */
  datatype View = View(cols: nat, rows: nat, top: nat, bottom: nat, origin: bool)

  predicate ViewOk(v: View) {
    v.cols > 0 && v.rows > 0 && v.top < v.bottom <= v.rows
  }

  /** A one-based parameter as an index. */
  function Index(n: nat): nat { if n == 0 then 0 else n - 1 }

  function RowOf(n: nat, v: View): nat
    requires ViewOk(v)
  {
    if v.origin then Min(Index(n), v.bottom - v.top - 1) + v.top else Min(Index(n), v.rows - 1)
  }

  predicate IsMove(c: char) {
    c in {'A', 'B', 'C', 'D', 'E', 'F', 'G', 'H', 'a', 'd', 'e', 'f', '`'}
  }

  /** Where a cursor movement leads: CUU, CUD, CUF, CUB, CNL, CPL, CHA, CUP and their synonyms. */
  function CursorAfter(c: char, a: nat, b: nat, x: nat, y: nat, v: View): (r: (nat, nat))
    requires ViewOk(v) && x < v.cols && y < v.rows
    ensures r.0 < v.cols && r.1 < v.rows
  {
    match c
    case 'A' => (x, Max(y - Min(a, y), if v.origin then v.top else 0))
    case 'F' => (0, Max(y - Min(a, y), if v.origin then v.top else 0))
    case 'B' => (x, Min(Min(y + a, v.rows - 1), (if v.origin then v.bottom else v.rows) - 1))
    case 'e' => (x, Min(Min(y + a, v.rows - 1), (if v.origin then v.bottom else v.rows) - 1))
    case 'E' => (0, Min(Min(y + a, v.rows - 1), (if v.origin then v.bottom else v.rows) - 1))
    case 'C' => (Min(x + a, v.cols - 1), y)
    case 'a' => (Min(x + a, v.cols - 1), y)
    case 'D' => (x - Min(a, x), y)
    case 'd' => (x, RowOf(a, v))
    case 'G' => (Min(Index(a), v.cols - 1), y)
    case '`' => (Min(Index(a), v.cols - 1), y)
    case 'H' => (Min(Index(b), v.cols - 1), RowOf(a, v))
    case 'f' => (Min(Index(b), v.cols - 1), RowOf(a, v))
    case _ => (x, y)
  }

  predicate IsEdit(c: char) {
    c in {'J', 'K', '@', 'P', 'X', 'L', 'M', 'S', 'T'}
  }

  /** ED and EL: from the cursor at p on, up to and including it, or the whole stretch lo .. hi. */
  function Erased(n: nat, s: seq<Cell>, lo: nat, p: nat, hi: nat, blank: Cell): (r: seq<Cell>)
    ensures |r| == |s|
  {
    if n == 0 then Fill(s, p, hi, blank) else if n == 1 then Fill(s, lo, p + 1, blank)
    else if n == 2 then Fill(s, lo, hi, blank) else s
  }

  /** IL, DL, SU and SD: the rows lo .. hi of the screen move up or down by n. */
  function RowsMoved(up: bool, n: nat, s: seq<Cell>, lo: nat, hi: nat, cols: nat, blank: Cell): (r: seq<Cell>)
    requires lo <= hi && hi * cols <= |s|
    ensures |r| == |s|
  {
    if up then ShiftLeft(s, lo * cols, hi * cols, Min(n, hi - lo) * cols, blank)
    else ShiftRight(s, lo * cols, hi * cols, Min(n, hi - lo) * cols, blank)
  }

  /** The screen after ED, EL, ICH, DCH, ECH, IL, DL, SU and SD with the cursor at (x, y). */
  function ScreenAfter(c: char, n: nat, s: seq<Cell>, x: nat, y: nat, v: View, blank: Cell): (r: seq<Cell>)
    requires ViewOk(v) && x < v.cols && y < v.rows && v.bottom * v.cols <= |s| && y * v.cols + v.cols <= |s|
    ensures |r| == |s|
  {
    var row := y * v.cols;
    match c
    case 'J' => Erased(if n == 3 then 2 else n, s, 0, row + x, |s|, blank)
    case 'K' => Erased(n, s, row, row + x, row + v.cols, blank)
    case 'X' => Fill(s, row + x, row + x + Min(n, v.cols - x), blank)
    case '@' => ShiftRight(s, row + x, row + v.cols, Min(n, v.cols - x), blank)
    case 'P' => ShiftLeft(s, row + x, row + v.cols, Min(n, v.cols - x), blank)
    case 'M' => if v.top <= y < v.bottom then RowsMoved(true, n, s, y, v.bottom, v.cols, blank) else s
    case 'L' => if v.top <= y < v.bottom then RowsMoved(false, n, s, y, v.bottom, v.cols, blank) else s
    case 'S' => RowsMoved(true, n, s, v.top, v.bottom, v.cols, blank)
    case 'T' => RowsMoved(false, n, s, v.top, v.bottom, v.cols, blank)
    case _ => s
  }

  /** The margins DECSTBM sets: the whole screen unless at least two rows on the screen are given. */
  function MarginsAfter(count: nat, a: nat, b: nat, rows: nat): (r: (nat, nat))
    requires rows > 0 && a > 0 && b > 0
    ensures r.0 < r.1 <= rows
  {
    var top := if count > 0 then a - 1 else 0;
    var bottom := if count > 1 then b else rows;
    if top >= rows || bottom > rows || top >= bottom - 1 then (0, rows) else (top, bottom)
  }

  // ----- On a screen with its cursor -----

  /** A plain screen and its cursor, which may stand one past the last column. */
  datatype Pen = Pen(cells: seq<Cell>, x: nat, y: nat)

  predicate PenOk(p: Pen, v: View) {
    ViewOk(v) && p.x <= v.cols && p.y < v.rows && |p.cells| == v.rows * v.cols
  }

  /** The cursor after a movement. */
  function Moved(c: char, a: nat, b: nat, p: Pen, v: View): (q: Pen)
    requires PenOk(p, v)
    ensures PenOk(q, v)
  {
    var d := CursorAfter(c, a, b, Reported(p.x, v.cols), p.y, v);
    p.(x := d.0, y := d.1)
  }

  /** Does an editing sequence put the cursor back to its reported column? */
  predicate Settles(c: char, n: nat) {
    c in {'X', 'P'} || (c == '@' && n > 0) || (c == 'J' && n <= 1) || (c == 'K' && n <= 2)
  }

  /** The screen after an editing sequence. */
  ghost function Edited(c: char, n: nat, p: Pen, v: View, blank: Cell): (q: Pen)
    requires PenOk(p, v)
    ensures PenOk(q, v)
  {
    RowBounds(p.y, v.rows, v.cols);
    RowOrder(v.bottom, v.rows, v.cols);
    var x := Reported(p.x, v.cols);
    p.(cells := ScreenAfter(c, n, p.cells, x, p.y, v, blank), x := if Settles(c, n) then x else p.x)
  }

  /** The region scrolled by one row, up or down. */
  ghost function Scrolled(up: bool, cells: seq<Cell>, v: View, blank: Cell): (r: seq<Cell>)
    requires ViewOk(v) && |cells| == v.rows * v.cols
    ensures |r| == |cells|
  {
    RowOrder(v.bottom, v.rows, v.cols);
    if up then ShiftLeft(cells, v.top * v.cols, v.bottom * v.cols, v.cols, blank)
    else ShiftRight(cells, v.top * v.cols, v.bottom * v.cols, v.cols, blank)
  }

  /** A line feed: down a row, scrolling the region on its last one. */
  ghost function LineFed(p: Pen, v: View, blank: Cell): (q: Pen)
    requires PenOk(p, v)
    ensures PenOk(q, v)
  {
    var x := Reported(p.x, v.cols);
    if p.y + 1 == v.bottom then Pen(Scrolled(true, p.cells, v, blank), x, p.y)
    else if p.y + 1 < v.rows then p.(x := x, y := p.y + 1)
    else p
  }

  /** RI: up a row, scrolling the region down on its first one. */
  ghost function ReverseFed(p: Pen, v: View, blank: Cell): (q: Pen)
    requires PenOk(p, v)
    ensures PenOk(q, v)
  {
    var x := Reported(p.x, v.cols);
    if p.y == v.top then Pen(Scrolled(false, p.cells, v, blank), x, p.y)
    else if p.y > 0 then p.(x := x, y := p.y - 1)
    else p
  }

  /** Backspace, tab, line feed and carriage return. */
  ghost function Controlled(c: nat, p: Pen, v: View, blank: Cell): (q: Pen)
    requires PenOk(p, v)
    ensures PenOk(q, v)
  {
    var x := Reported(p.x, v.cols);
    if c == 8 then (if x > 0 then p.(x := x - 1) else p)
    else if c == 9 then p.(x := Min((x / TAB + 1) * TAB, v.cols - 1))
    else if c in {10, 11, 12} then LineFed(p, v, blank)
    else if c == 13 then p.(x := 0)
    else p
  }

  // ----- Laws of the functions -----

  /** In origin mode CUP and VPA stay between the margins. */
  lemma OriginStaysInside(a: nat, b: nat, x: nat, y: nat, v: View)
    requires ViewOk(v) && v.origin && x < v.cols && y < v.rows
    ensures v.top <= CursorAfter('H', a, b, x, y, v).1 < v.bottom
    ensures v.top <= CursorAfter('d', a, b, x, y, v).1 < v.bottom
  {
  }

  /** Deleting cells right after inserting them only loses what the insertion pushed off the row. */
  lemma DeleteUndoesInsert(n: nat, s: seq<Cell>, x: nat, y: nat, v: View, blank: Cell)
    requires ViewOk(v) && x < v.cols && y < v.rows && v.bottom * v.cols <= |s| && y * v.cols + v.cols <= |s|
    ensures var row, k := y * v.cols, Min(n, v.cols - x);
            ScreenAfter('P', n, ScreenAfter('@', n, s, x, y, v, blank), x, y, v, blank) ==
              Fill(s, row + v.cols - k, row + v.cols, blank)
  {
    hide ShiftLeft, ShiftRight, Fill;
    ShiftThereAndBack(s, y * v.cols + x, y * v.cols + v.cols, Min(n, v.cols - x), blank);
  }

  /** Deleting lines right after inserting them only loses what the insertion pushed out of the region. */
  lemma DeleteLinesUndoesInsert(n: nat, s: seq<Cell>, x: nat, y: nat, v: View, blank: Cell)
    requires ViewOk(v) && x < v.cols && v.top <= y < v.bottom && v.bottom * v.cols <= |s| && y * v.cols + v.cols <= |s|
    ensures var end, k := v.bottom * v.cols, Min(n, v.bottom - y) * v.cols;
            k <= end && ScreenAfter('M', n, ScreenAfter('L', n, s, x, y, v, blank), x, y, v, blank) ==
              Fill(s, end - k, end, blank)
  {
    hide ShiftLeft, ShiftRight, Fill;
    var row, k := y * v.cols, Min(n, v.bottom - y);
    RowOrder(y + k, v.bottom, v.cols);
    assert (y + k) * v.cols == row + k * v.cols;
    ShiftThereAndBack(s, row, v.bottom * v.cols, k * v.cols, blank);
  }

  // ----- Printing -----

  datatype Modes = Modes(view: View, wrap: bool, scroll: bool)

  /** Where the next glyph lands, and whether the region scrolls first. */
  function Landed(p: Pen, m: Modes): (l: (nat, nat, bool))
    requires ViewOk(m.view)
  {
    Landing(p.x, p.y, m.view.cols, m.view.rows, m.view.bottom, m.wrap, m.scroll)
  }

  /** The rest of the cursor's row makes room. */
  ghost function Parted(p: Pen, v: View, room: nat): (q: Pen)
    requires PenOk(p, v)
    ensures PenOk(q, v)
  {
    RowBounds(p.y, v.rows, v.cols);
    p.(cells := OpenGap(p.cells, p.y * v.cols + Min(p.x, v.cols - 1), p.y * v.cols + v.cols, room))
  }

  /** A glyph in the given style is put at the cursor, wrapping and scrolling first where the modes say so. */
  ghost function Put(p: Pen, m: Modes, style: Cell, glyph: nat): (q: Pen)
    requires PenOk(p, m.view)
    ensures PenOk(q, m.view)
  {
    var v, l := m.view, Landed(p, m);
    var cells := if l.2 then Scrolled(true, p.cells, v, style.(c := 0x20)) else p.cells;
    Pen(SetAt(cells, l.1 * v.cols + l.0, style.(c := glyph)), l.0 + 1, l.1)
  }

  ghost function Printed(p: Pen, m: Modes, insert: bool, room: nat, style: Cell, glyph: nat): (q: Pen)
    requires PenOk(p, m.view)
    ensures PenOk(q, m.view)
  {
    Put(if insert then Parted(p, m.view, room) else p, m, style, glyph)
  }

  /** The same glyph printed n times. */
  ghost function PrintedTimes(p: Pen, m: Modes, insert: bool, style: Cell, glyph: nat, n: nat): (q: Pen)
    requires PenOk(p, m.view)
    ensures PenOk(q, m.view)
  {
    if n == 0 then p else Printed(PrintedTimes(p, m, insert, style, glyph, n - 1), m, insert, 1, style, glyph)
  }
}
