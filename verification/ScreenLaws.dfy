/** What whole control sequences, control characters and printed bytes do to the cells, place by place. */
module ScreenLaws {
  import opened Cells
  import opened Common
  import opened CsiParams
  import opened CsiSpec
  import opened CursorLaws
  import opened ScreenOps
  import opened TermLaws
  import opened TermSpec
  import opened Utf8

  lemma Place(r: int, c: int, rows: int, cols: int)
    requires 0 <= r < rows && 0 <= c < cols
    ensures 0 <= r * cols + c < rows * cols
  {
    assert r * cols + cols == (r + 1) * cols <= rows * cols;
  }

  lemma PlaceOrder(r: int, c: int, a: int, cols: int)
    requires 0 <= c < cols
    ensures r * cols + c < a * cols <==> r < a
  {
    if r < a {
      assert (r + 1) * cols <= a * cols;
    } else {
      assert a * cols <= r * cols;
    }
  }

  /** The cell in row r and column c. */
  ghost function At(k: Screen, l: Look, r: int, c: int): Cell
    requires LookOk(k, l) && 0 <= r < k.rows && 0 <= c < k.cols
  {
    Place(r, c, k.rows, k.cols);
    l.pen.cells[r * k.cols + c]
  }

  /** What an erased cell holds: a space in the attributes in force. */
  function BlankIn(l: Look): Cell { Cell(0x20, l.fgDefault, l.bgDefault, l.fg, l.bg) }

  /** Only the screen and the cursor's column may have changed. */
  ghost predicate OnlyCells(k: Screen, s: State, n: State, x: int) {
    && 0 <= x && n.look == s.look.(pen := Pen(n.look.pen.cells, x, s.look.pen.y)) && n.front == s.front && Ready(k, n)
  }

  // ----- Rows that move -----

  /** Rows lo .. hi hold what was d rows further down, or d rows further up where d is negative; the rest is blank. */
  ghost predicate RowsShifted(k: Screen, l: Look, n: Look, lo: int, hi: int, d: int, blank: Cell)
    requires LookOk(k, l) && LookOk(k, n)
  {
    forall r, c | 0 <= r < k.rows && 0 <= c < k.cols ::
      At(k, n, r, c) == if 0 <= lo <= r < hi <= k.rows && !(lo <= r + d < hi) then blank
                        else if 0 <= lo <= r < hi <= k.rows then At(k, l, r + d, c)
                        else At(k, l, r, c)
  }

  lemma UpAt(s: seq<Cell>, lo: nat, hi: nat, m: nat, rows: nat, cols: nat, blank: Cell, r: nat, c: nat)
    requires |s| == rows * cols && lo <= hi <= rows && lo + m <= hi && r < rows && c < cols
    ensures hi * cols <= rows * cols && r * cols + c < |s| && (r + m < hi ==> (r + m) * cols + c < |s|)
    ensures ShiftLeft(s, lo * cols, hi * cols, m * cols, blank)[r * cols + c] ==
            if lo <= r < hi then (if r + m < hi then s[(r + m) * cols + c] else blank) else s[r * cols + c]
  {
    RowOrder(hi, rows, cols);
    Place(r, c, rows, cols);
    if r + m < hi { Place(r + m, c, rows, cols); }
    PlaceOrder(r, c, lo, cols);
    PlaceOrder(r, c, hi, cols);
    PlaceOrder(r + m, c, hi, cols);
    assert (r + m) * cols + c == r * cols + c + m * cols;
  }

  lemma DownAt(s: seq<Cell>, lo: nat, hi: nat, m: nat, rows: nat, cols: nat, blank: Cell, r: nat, c: nat)
    requires |s| == rows * cols && lo <= hi <= rows && lo + m <= hi && r < rows && c < cols
    ensures hi * cols <= rows * cols && r * cols + c < |s| && (lo + m <= r ==> 0 <= (r - m) * cols + c < |s|)
    ensures ShiftRight(s, lo * cols, hi * cols, m * cols, blank)[r * cols + c] ==
            if lo <= r < hi then (if lo + m <= r then s[(r - m) * cols + c] else blank) else s[r * cols + c]
  {
    RowOrder(hi, rows, cols);
    Place(r, c, rows, cols);
    if lo + m <= r { Place(r - m, c, rows, cols); }
    PlaceOrder(r, c, lo, cols);
    PlaceOrder(r, c, hi, cols);
    PlaceOrder(r, c, lo + m, cols);
    assert (lo + m) * cols == lo * cols + m * cols;
    assert (r - m) * cols + c == r * cols + c - m * cols;
  }

  /** Rows moved up or down by the function are rows shifted. */
  lemma MovedRows(k: Screen, l: Look, n: Look, up: bool, lo: int, hi: int, m: int, blank: Cell)
    requires LookOk(k, l) && LookOk(k, n) && 0 <= lo <= hi <= k.rows && hi * k.cols <= |l.pen.cells| && m >= 0
    requires n.pen.cells == RowsMoved(up, m, l.pen.cells, lo, hi, k.cols, blank)
    ensures RowsShifted(k, l, n, lo, hi, if up then m else -m, blank)
  {
    forall r, c | 0 <= r < k.rows && 0 <= c < k.cols
      ensures var d := if up then m else -m;
              At(k, n, r, c) == if lo <= r < hi && !(lo <= r + d < hi) then blank
                                else if lo <= r < hi then At(k, l, r + d, c)
                                else At(k, l, r, c)
    {
      if up { MovedUpAt(k, l, n, lo, hi, m, blank, r, c); } else { MovedDownAt(k, l, n, lo, hi, m, blank, r, c); }
    }
  }

  lemma MovedUpAt(k: Screen, l: Look, n: Look, lo: int, hi: int, m: int, blank: Cell, r: int, c: int)
    requires LookOk(k, l) && LookOk(k, n) && 0 <= lo <= hi <= k.rows && hi * k.cols <= |l.pen.cells| && m >= 0
    requires n.pen.cells == RowsMoved(true, m, l.pen.cells, lo, hi, k.cols, blank)
    requires 0 <= r < k.rows && 0 <= c < k.cols
    ensures At(k, n, r, c) == if lo <= r < hi && r + m >= hi then blank
                              else if lo <= r < hi then At(k, l, r + m, c)
                              else At(k, l, r, c)
  {
    UpAt(l.pen.cells, lo, hi, Min(m, hi - lo), k.rows, k.cols, blank, r, c);
    hide ShiftLeft, ShiftRight;
  }

  lemma MovedDownAt(k: Screen, l: Look, n: Look, lo: int, hi: int, m: int, blank: Cell, r: int, c: int)
    requires LookOk(k, l) && LookOk(k, n) && 0 <= lo <= hi <= k.rows && hi * k.cols <= |l.pen.cells| && m >= 0
    requires n.pen.cells == RowsMoved(false, m, l.pen.cells, lo, hi, k.cols, blank)
    requires 0 <= r < k.rows && 0 <= c < k.cols
    ensures At(k, n, r, c) == if lo <= r < hi && r - m < lo then blank
                              else if lo <= r < hi then At(k, l, r - m, c)
                              else At(k, l, r, c)
  {
    DownAt(l.pen.cells, lo, hi, Min(m, hi - lo), k.rows, k.cols, blank, r, c);
    hide ShiftLeft, ShiftRight;
  }

  // ----- Editing sequences -----

  /** The first parameter of ED and EL: nought if left out. */
  function Choice(ns: seq<nat>): nat { if |ns| > 0 then ns[0] else 0 }

  lemma OnlyEdits(c: char)
    requires IsEdit(c)
    ensures '@' <= c <= 'z' && c != '[' && c !in {'b', 'r', 's', 'h', 'l', 'u'} && !IsMove(c)
    ensures DefaultFor(c) == if c in {'J', 'K'} then 0 else 1
  {
  }

  lemma EditActs(k: Screen, s: State, p: Params, c: char)
    requires StateOk(k, s) && IsEdit(c) && Suits(p, c)
    ensures ActedLook(k, s.look, s.front, c, p) ==
            s.look.(pen := Edited(c, p.values[0], s.look.pen, ViewIn(k, s.look, false), BlankIn(s.look)))
    ensures ActedFront(k, s.look.pen, s.front, c, p) == s.front
  {
    OnlyEdits(c);
    hide ReadingOk, CsiParams.Ok, IsMove, IsEdit, MarginsAfter, Repeated, Edited, Moved;
  }

  lemma EditSteps(k: Screen, s: State, ns: seq<nat>, c: char)
    requires Ready(k, s) && Numbers(ns) && IsEdit(c)
    ensures 0 <= Column(k, s) < k.cols && s.look.pen.y < k.rows && s.look.top < s.look.bottom <= k.rows
    ensures |s.look.pen.cells| == k.rows * k.cols && s.look.bottom * k.cols <= k.rows * k.cols
    ensures s.look.pen.y * k.cols + k.cols <= k.rows * k.cols && ViewOk(ViewIn(k, s.look, false))
    ensures var n := Steps(k, s, Sequence(false, ns, c as int));
            var v := if c in {'J', 'K'} then Choice(ns) else Count(ns, 0);
            && OnlyCells(k, s, n, if Settles(c, v) then Column(k, s) else s.look.pen.x)
            && n.look.pen.cells == ScreenAfter(c, v, s.look.pen.cells, Column(k, s), s.look.pen.y,
                                               ViewIn(k, s.look, false), BlankIn(s.look))
  {
    OnlyEdits(c);
    hide Steps, Sequence, StateOk, AtGround, ActedLook, ActedFront, CsiParams.Ok, IsEdit, IsMove, DefaultFor, Edited,
         ScreenAfter, Settles, ViewOk, PenOk;
    var p := OrdinarySteps(k, s, ns, c);
    EditActs(k, s, p, c);
    EditedPen(k, s, c, p.values[0]);
  }

  /** Editing leaves the cursor's row, and takes its column back onto the screen where the code repositions it. */
  lemma EditedPen(k: Screen, s: State, c: char, v: nat)
    requires StateOk(k, s)
    ensures 0 <= Column(k, s) < k.cols && s.look.pen.y < k.rows && s.look.top < s.look.bottom <= k.rows
    ensures |s.look.pen.cells| == k.rows * k.cols && s.look.bottom * k.cols <= k.rows * k.cols
    ensures s.look.pen.y * k.cols + k.cols <= k.rows * k.cols && ViewOk(ViewIn(k, s.look, false))
    ensures Edited(c, v, s.look.pen, ViewIn(k, s.look, false), BlankIn(s.look)) ==
            Pen(ScreenAfter(c, v, s.look.pen.cells, Column(k, s), s.look.pen.y, ViewIn(k, s.look, false),
                            BlankIn(s.look)),
                if Settles(c, v) then Column(k, s) else s.look.pen.x, s.look.pen.y)
  {
    RowBounds(s.look.pen.y, k.rows, k.cols);
    RowOrder(s.look.bottom, k.rows, k.cols);
    hide ScreenAfter, ReadingOk, FrontOk, Settles;
  }

  /** SU and SD: the rows between the margins move up or down. */
  lemma ScrollsRegion(k: Screen, s: State, ns: seq<nat>)
    requires Ready(k, s) && Numbers(ns)
    ensures var l, n := s.look, Steps(k, s, Sequence(false, ns, 'S' as int));
            OnlyCells(k, s, n, l.pen.x) && RowsShifted(k, l, n.look, l.top, l.bottom, Count(ns, 0), BlankIn(l))
    ensures var l, n := s.look, Steps(k, s, Sequence(false, ns, 'T' as int));
            OnlyCells(k, s, n, l.pen.x) && RowsShifted(k, l, n.look, l.top, l.bottom, -Count(ns, 0), BlankIn(l))
  {
    hide Steps, Sequence, RowsMoved, RowsShifted, ReadingOk, FrontOk, OnlyCells;
    var l := s.look;
    var up, down := Steps(k, s, Sequence(false, ns, 'S' as int)), Steps(k, s, Sequence(false, ns, 'T' as int));
    EditSteps(k, s, ns, 'S');
    EditSteps(k, s, ns, 'T');
    MovedRows(k, l, up.look, true, l.top, l.bottom, Count(ns, 0), BlankIn(l));
    MovedRows(k, l, down.look, false, l.top, l.bottom, Count(ns, 0), BlankIn(l));
  }

  /** DL and IL: the rows from the cursor's to the bottom margin move up or down, if it is between the margins. */
  lemma MovesLines(k: Screen, s: State, ns: seq<nat>)
    requires Ready(k, s) && Numbers(ns)
    ensures var l, n := s.look, Steps(k, s, Sequence(false, ns, 'M' as int));
            && OnlyCells(k, s, n, l.pen.x)
            && if l.top <= l.pen.y < l.bottom then
                 RowsShifted(k, l, n.look, l.pen.y, l.bottom, Count(ns, 0), BlankIn(l))
               else n.look == l
    ensures var l, n := s.look, Steps(k, s, Sequence(false, ns, 'L' as int));
            && OnlyCells(k, s, n, l.pen.x)
            && if l.top <= l.pen.y < l.bottom then
                 RowsShifted(k, l, n.look, l.pen.y, l.bottom, -Count(ns, 0), BlankIn(l))
               else n.look == l
  {
    hide Steps, Sequence, RowsMoved, RowsShifted, ReadingOk, FrontOk;
    var l := s.look;
    var up, down := Steps(k, s, Sequence(false, ns, 'M' as int)), Steps(k, s, Sequence(false, ns, 'L' as int));
    EditSteps(k, s, ns, 'M');
    EditSteps(k, s, ns, 'L');
    if l.top <= l.pen.y < l.bottom {
      MovedRows(k, l, up.look, true, l.pen.y, l.bottom, Count(ns, 0), BlankIn(l));
      MovedRows(k, l, down.look, false, l.pen.y, l.bottom, Count(ns, 0), BlankIn(l));
    }
  }

  /** The places a .. b of row y, as positions. */
  lemma InRow(r: int, c: int, y: int, a: int, b: int, cols: int)
    requires 0 <= c < cols && 0 <= a <= b <= cols
    ensures y * cols + a <= r * cols + c < y * cols + b <==> r == y && a <= c < b
  {
    PlaceOrder(r, c, y, cols);
    PlaceOrder(r, c, y + 1, cols);
    assert (y + 1) * cols == y * cols + cols;
  }

  /** In row y the columns a .. b are blank; every other cell stays. */
  ghost predicate RowBlanked(k: Screen, l: Look, n: Look, y: int, a: int, b: int, blank: Cell)
    requires LookOk(k, l) && LookOk(k, n)
  {
    forall r, c | 0 <= r < k.rows && 0 <= c < k.cols ::
      At(k, n, r, c) == if r == y && a <= c < b then blank else At(k, l, r, c)
  }

  /** In row y the columns from x on hold what was d columns further right, or left where d is negative. */
  ghost predicate RowShifted(k: Screen, l: Look, n: Look, y: int, x: int, d: int, blank: Cell)
    requires LookOk(k, l) && LookOk(k, n)
  {
    forall r, c | 0 <= r < k.rows && 0 <= c < k.cols :: RowShiftedAt(k, l, n, y, x, d, blank, r, c)
  }

  ghost predicate RowShiftedAt(k: Screen, l: Look, n: Look, y: int, x: int, d: int, blank: Cell, r: int, c: int)
    requires LookOk(k, l) && LookOk(k, n) && 0 <= r < k.rows && 0 <= c < k.cols
  {
    At(k, n, r, c) == if r == y && 0 <= x <= c && !(x <= c + d < k.cols) then blank
                      else if r == y && 0 <= x <= c then At(k, l, r, c + d)
                      else At(k, l, r, c)
  }

  lemma FilledRow(k: Screen, l: Look, n: Look, y: int, a: int, b: int, blank: Cell)
    requires LookOk(k, l) && LookOk(k, n) && 0 <= y && 0 <= a <= b <= k.cols
    requires y * k.cols >= 0 && n.pen.cells == Fill(l.pen.cells, y * k.cols + a, y * k.cols + b, blank)
    ensures RowBlanked(k, l, n, y, a, b, blank)
  {
    forall r, c | 0 <= r < k.rows && 0 <= c < k.cols
      ensures At(k, n, r, c) == if r == y && a <= c < b then blank else At(k, l, r, c)
    {
      Place(r, c, k.rows, k.cols);
      InRow(r, c, y, a, b, k.cols);
    }
  }

  lemma RightRow(k: Screen, l: Look, n: Look, y: int, x: int, m: int, blank: Cell)
    requires LookOk(k, l) && LookOk(k, n) && 0 <= y < k.rows && 0 <= x < k.cols && m >= 0
    requires y * k.cols >= 0 && y * k.cols + k.cols <= |l.pen.cells|
    requires n.pen.cells == ShiftRight(l.pen.cells, y * k.cols + x, y * k.cols + k.cols, Min(m, k.cols - x), blank)
    ensures RowShifted(k, l, n, y, x, -m, blank)
  {
    var d := -m;
    forall r, c | 0 <= r < k.rows && 0 <= c < k.cols
      ensures RowShiftedAt(k, l, n, y, x, d, blank, r, c)
    {
      Place(r, c, k.rows, k.cols);
      InRow(r, c, y, x, k.cols, k.cols);
    }
  }

  lemma LeftRow(k: Screen, l: Look, n: Look, y: int, x: int, m: int, blank: Cell)
    requires LookOk(k, l) && LookOk(k, n) && 0 <= y < k.rows && 0 <= x < k.cols && m >= 0
    requires y * k.cols >= 0 && y * k.cols + k.cols <= |l.pen.cells|
    requires n.pen.cells == ShiftLeft(l.pen.cells, y * k.cols + x, y * k.cols + k.cols, Min(m, k.cols - x), blank)
    ensures RowShifted(k, l, n, y, x, m, blank)
  {
    forall r, c | 0 <= r < k.rows && 0 <= c < k.cols
      ensures RowShiftedAt(k, l, n, y, x, m, blank, r, c)
    {
      Place(r, c, k.rows, k.cols);
      InRow(r, c, y, x, k.cols, k.cols);
    }
  }

  /** ECH: that many cells from the cursor on are blanked. */
  lemma ErasesCells(k: Screen, s: State, ns: seq<nat>)
    requires Ready(k, s) && Numbers(ns)
    ensures var l, x, n := s.look, Column(k, s), Steps(k, s, Sequence(false, ns, 'X' as int));
            OnlyCells(k, s, n, x) && RowBlanked(k, l, n.look, l.pen.y, x, x + Count(ns, 0), BlankIn(l))
  {
    hide Steps, Sequence, RowBlanked, ReadingOk, FrontOk, OnlyCells, Fill;
    var l, x, n := s.look, Column(k, s), Steps(k, s, Sequence(false, ns, 'X' as int));
    EditSteps(k, s, ns, 'X');
    FilledRow(k, l, n.look, l.pen.y, x, x + Min(Count(ns, 0), k.cols - x), BlankIn(l));
    WiderBlank(k, l, n.look, l.pen.y, x, Count(ns, 0), BlankIn(l));
  }

  lemma WiderBlank(k: Screen, l: Look, n: Look, y: int, x: int, m: int, blank: Cell)
    requires LookOk(k, l) && LookOk(k, n) && 0 <= x < k.cols && m >= 0
    requires RowBlanked(k, l, n, y, x, x + Min(m, k.cols - x), blank)
    ensures RowBlanked(k, l, n, y, x, x + m, blank)
  {
    hide At, LookOk;
  }

  /** ICH and DCH: the cells from the cursor on move right or left within the row. */
  lemma MovesCells(k: Screen, s: State, ns: seq<nat>)
    requires Ready(k, s) && Numbers(ns)
    ensures var l, x, n := s.look, Column(k, s), Steps(k, s, Sequence(false, ns, '@' as int));
            OnlyCells(k, s, n, x) && RowShifted(k, l, n.look, l.pen.y, x, -Count(ns, 0), BlankIn(l))
    ensures var l, x, n := s.look, Column(k, s), Steps(k, s, Sequence(false, ns, 'P' as int));
            OnlyCells(k, s, n, x) && RowShifted(k, l, n.look, l.pen.y, x, Count(ns, 0), BlankIn(l))
  {
    hide Steps, Sequence, RowShifted, ReadingOk, FrontOk, OnlyCells, ShiftLeft, ShiftRight;
    var l, x := s.look, Column(k, s);
    EditSteps(k, s, ns, '@');
    EditSteps(k, s, ns, 'P');
    RightRow(k, l, Steps(k, s, Sequence(false, ns, '@' as int)).look, l.pen.y, x, Count(ns, 0), BlankIn(l));
    LeftRow(k, l, Steps(k, s, Sequence(false, ns, 'P' as int)).look, l.pen.y, x, Count(ns, 0), BlankIn(l));
  }

  /** EL: from the cursor to the end of its row, from the start up to and including it, or all of the row. */
  lemma ErasesLine(k: Screen, s: State, ns: seq<nat>)
    requires Ready(k, s) && Numbers(ns)
    ensures var l, x, m, n := s.look, Column(k, s), Choice(ns), Steps(k, s, Sequence(false, ns, 'K' as int));
            && OnlyCells(k, s, n, if m <= 2 then x else l.pen.x)
            && (m == 0 ==> RowBlanked(k, l, n.look, l.pen.y, x, k.cols, BlankIn(l)))
            && (m == 1 ==> RowBlanked(k, l, n.look, l.pen.y, 0, x + 1, BlankIn(l)))
            && (m == 2 ==> RowBlanked(k, l, n.look, l.pen.y, 0, k.cols, BlankIn(l)))
            && (m > 2 ==> n.look == l)
  {
    hide Steps, Sequence, RowBlanked, ReadingOk, FrontOk, Fill;
    var l, x, m, n := s.look, Column(k, s), Choice(ns), Steps(k, s, Sequence(false, ns, 'K' as int));
    EditSteps(k, s, ns, 'K');
    if m <= 2 {
      FilledRow(k, l, n.look, l.pen.y, if m == 0 then x else 0, if m == 1 then x + 1 else k.cols, BlankIn(l));
    }
  }

  /** The places from (x0, y0) up to but without (x1, y1), in reading order, are blank; every other cell stays. */
  ghost predicate ScreenBlanked(k: Screen, l: Look, n: Look, y0: int, x0: int, y1: int, x1: int, blank: Cell)
    requires LookOk(k, l) && LookOk(k, n)
  {
    forall r, c | 0 <= r < k.rows && 0 <= c < k.cols ::
      At(k, n, r, c) == if (r > y0 || (r == y0 && c >= x0)) && (r < y1 || (r == y1 && c < x1)) then blank
                        else At(k, l, r, c)
  }

  lemma ReadingOrder(r: int, c: int, y: int, x: int, cols: int)
    requires 0 <= c < cols && 0 <= x <= cols
    ensures r * cols + c < y * cols + x <==> r < y || (r == y && c < x)
  {
    PlaceOrder(r, c, y, cols);
    PlaceOrder(r, c, y + 1, cols);
    assert (y + 1) * cols == y * cols + cols;
  }

  lemma FilledScreen(k: Screen, l: Look, n: Look, y0: int, x0: int, y1: int, x1: int, blank: Cell)
    requires LookOk(k, l) && LookOk(k, n) && 0 <= x0 <= k.cols && 0 <= x1 <= k.cols
    requires y0 * k.cols + x0 >= 0 && y1 * k.cols + x1 >= 0
    requires n.pen.cells == Fill(l.pen.cells, y0 * k.cols + x0, y1 * k.cols + x1, blank)
    ensures ScreenBlanked(k, l, n, y0, x0, y1, x1, blank)
  {
    forall r, c | 0 <= r < k.rows && 0 <= c < k.cols
      ensures At(k, n, r, c) == if (r > y0 || (r == y0 && c >= x0)) && (r < y1 || (r == y1 && c < x1)) then blank
                                else At(k, l, r, c)
    {
      Place(r, c, k.rows, k.cols);
      ReadingOrder(r, c, y0, x0, k.cols);
      ReadingOrder(r, c, y1, x1, k.cols);
    }
  }

  /** ED: from the cursor to the end of the screen, from the start up to and including it, or all of the screen. */
  lemma ErasesScreen(k: Screen, s: State, ns: seq<nat>)
    requires Ready(k, s) && Numbers(ns)
    ensures var l, x, m, n := s.look, Column(k, s), Choice(ns), Steps(k, s, Sequence(false, ns, 'J' as int));
            && OnlyCells(k, s, n, if m <= 1 then x else l.pen.x)
            && (m == 0 ==> ScreenBlanked(k, l, n.look, l.pen.y, x, k.rows, 0, BlankIn(l)))
            && (m == 1 ==> ScreenBlanked(k, l, n.look, 0, 0, l.pen.y, x + 1, BlankIn(l)))
            && (m == 2 || m == 3 ==> ScreenBlanked(k, l, n.look, 0, 0, k.rows, 0, BlankIn(l)))
            && (m > 3 ==> n.look == l)
  {
    hide Steps, Sequence, ScreenBlanked, ReadingOk, FrontOk, Fill;
    var l, x, m, n := s.look, Column(k, s), Choice(ns), Steps(k, s, Sequence(false, ns, 'J' as int));
    EditSteps(k, s, ns, 'J');
    if m == 0 {
      FilledScreen(k, l, n.look, l.pen.y, x, k.rows, 0, BlankIn(l));
    } else if m == 1 {
      FilledScreen(k, l, n.look, 0, 0, l.pen.y, x + 1, BlankIn(l));
    } else if m <= 3 {
      FilledScreen(k, l, n.look, 0, 0, k.rows, 0, BlankIn(l));
    }
  }

  // ----- Control characters -----

  /** Everything but the screen, the cursor and what REP repeats is as before, and the parser ready for text. */
  ghost predicate OnlyPen(s: State, n: State) {
    && n.look == s.look.(pen := n.look.pen) && n.front == s.front.(graphic := n.front.graphic)
    && AtGround(n.reading) && n.reading.private == s.reading.private
  }

  lemma PlainFeed(c: Octet)
    requires c < 0x20
    ensures Feed(GROUND, c) == (GROUND, [Plain(c)]) && !IsLead(c) && !IsGraphic(c)
  {
  }

  /** A control character outside sequences. */
  lemma ControlFed(k: Screen, s: State, c: Octet)
    requires StateOk(k, s) && AtGround(s.reading) && c < 0x20 && c !in {ESC, CAN, SUB}
    ensures StateOk(k, Unrepeated(s))
    ensures Step(k, s, c) == if c == 0 then Unrepeated(s) else C0Step(k, Unrepeated(s), c)
  {
    FreshFed(s.reading.decoder, c);
    PlainFeed(c);
    hide LookOk, FrontOk, CsiParams.Ok, C0Step, Feed, IsLead, IsGraphic;
    UnrepeatedOk(k, s);
  }

  /** REP has nothing to repeat. */
  function Unrepeated(s: State): State { Rested(s).(front := s.front.(graphic := false)) }

  lemma UnrepeatedOk(k: Screen, s: State)
    requires StateOk(k, s)
    ensures StateOk(k, Unrepeated(s))
  {
    hide LookOk, CsiParams.Ok;
  }

  lemma ControlSteps(k: Screen, s: State, c: Octet)
    requires StateOk(k, s) && AtGround(s.reading) && c < 0x20 && c !in {ESC, CAN, SUB}
    ensures LookOk(k, s.look)
    ensures var n := Steps(k, s, [c]);
            && n.look == s.look.(pen := Controlled(c, s.look.pen, ViewIn(k, s.look, false), BlankIn(s.look)))
            && n.front == s.front.(graphic := false, charset := CharsetAfter(s.front.charset, c))
            && AtGround(n.reading) && n.reading.private == s.reading.private
  {
    OneStep(k, s, c);
    ControlFed(k, s, c);
    hide Steps, Step, LookOk, FrontOk, ReadingOk, LineFed;
  }

  lemma NextTab(x: int, tab: int)
    requires tab % 8 == 0 && 0 <= x < tab <= x + 8
    ensures (x / 8 + 1) * 8 == tab
  {
  }

  /** Backspace goes back a column, and carriage return to the first. */
  lemma ControlMoves(k: Screen, s: State)
    requires StateOk(k, s) && AtGround(s.reading)
    ensures var n, x := Steps(k, s, [8]), Column(k, s);
            OnlyPen(s, n) && n.look.pen == s.look.pen.(x := if x == 0 then s.look.pen.x else x - 1)
    ensures var n := Steps(k, s, [13]); OnlyPen(s, n) && n.look.pen == s.look.pen.(x := 0)
  {
    hide Steps, FrontOk, ReadingOk, LineFed, AtGround;
    ControlSteps(k, s, 8);
    ControlSteps(k, s, 13);
  }

  /** A tab goes to the next multiple of eight, at most to the last column. */
  lemma TabStops(k: Screen, s: State, tab: nat)
    requires StateOk(k, s) && AtGround(s.reading)
    requires tab % 8 == 0 && Column(k, s) < tab <= Column(k, s) + 8
    ensures var n := Steps(k, s, [9]);
            OnlyPen(s, n) && n.look.pen == s.look.pen.(x := if tab < k.cols then tab else k.cols - 1)
  {
    NextTab(Column(k, s), tab);
    hide Steps, FrontOk, ReadingOk, LineFed, AtGround;
    ControlSteps(k, s, 9);
  }

  /** Shift out and shift in choose between the two character sets. */
  lemma ControlSelects(k: Screen, s: State)
    requires StateOk(k, s) && AtGround(s.reading)
    ensures var n := Steps(k, s, [14]); n.look == s.look && n.front == s.front.(graphic := false, charset := 1)
    ensures var n := Steps(k, s, [15]); n.look == s.look && n.front == s.front.(graphic := false, charset := 0)
  {
    hide Steps, FrontOk, ReadingOk, LineFed;
    ControlSteps(k, s, 14);
    ControlSteps(k, s, 15);
  }

  /** Any other control character only makes REP forget what it repeats. */
  lemma ControlIgnored(k: Screen, s: State, c: Octet)
    requires StateOk(k, s) && AtGround(s.reading) && c < 0x20 && !(8 <= c <= 15) && c !in {ESC, CAN, SUB}
    ensures var n := Steps(k, s, [c]); n.look == s.look && n.front == s.front.(graphic := false) && OnlyPen(s, n)
  {
    hide Steps, FrontOk, ReadingOk, LineFed;
    ControlSteps(k, s, c);
  }

  /** A row down; on the bottom margin the rows between the margins move up instead. */
  ghost predicate Descends(k: Screen, l: Look, n: Look)
    requires LookOk(k, l) && LookOk(k, n)
  {
    if l.pen.y == l.bottom - 1 then n.pen.y == l.pen.y && RowsShifted(k, l, n, l.top, l.bottom, 1, BlankIn(l))
    else n.pen.cells == l.pen.cells && n.pen.y == if l.pen.y == k.rows - 1 then l.pen.y else l.pen.y + 1
  }

  /** A row up; on the top margin the rows between the margins move down instead. */
  ghost predicate Ascends(k: Screen, l: Look, n: Look)
    requires LookOk(k, l) && LookOk(k, n)
  {
    if l.pen.y == l.top then n.pen.y == l.pen.y && RowsShifted(k, l, n, l.top, l.bottom, -1, BlankIn(l))
    else n.pen.cells == l.pen.cells && n.pen.y == if l.pen.y == 0 then 0 else l.pen.y - 1
  }

  lemma ScrolledRows(k: Screen, l: Look, n: Look, up: bool)
    requires LookOk(k, l) && LookOk(k, n)
    requires n.pen.cells == Scrolled(up, l.pen.cells, ViewIn(k, l, false), BlankIn(l))
    ensures RowsShifted(k, l, n, l.top, l.bottom, if up then 1 else -1, BlankIn(l))
  {
    hide RowsShifted, ShiftLeft, ShiftRight;
    RowOrder(l.bottom, k.rows, k.cols);
    MovedRows(k, l, n, up, l.top, l.bottom, 1, BlankIn(l));
  }

  /** The function of a line feed, row by row. */
  lemma LineFeedIs(k: Screen, l: Look, n: Look, q: Pen)
    requires LookOk(k, l) && LookOk(k, n) && q == LineFed(l.pen, ViewIn(k, l, false), BlankIn(l))
    requires n.pen.cells == q.cells && n.pen.y == q.y
    ensures Descends(k, l, n)
    ensures q.x == if l.pen.y == k.rows - 1 && l.bottom != k.rows then l.pen.x else Min(l.pen.x, k.cols - 1)
  {
    hide RowsShifted, Scrolled;
    if l.pen.y == l.bottom - 1 { ScrolledRows(k, l, n, true); }
  }

  lemma ReverseFeedIs(k: Screen, l: Look, n: Look)
    requires LookOk(k, l) && LookOk(k, n) && n.pen == ReverseFed(l.pen, ViewIn(k, l, false), BlankIn(l))
    ensures Ascends(k, l, n)
    ensures n.pen.x == if l.pen.y == 0 && l.top != 0 then l.pen.x else Min(l.pen.x, k.cols - 1)
  {
    hide RowsShifted, Scrolled;
    if l.pen.y == l.top { ScrolledRows(k, l, n, false); }
  }

  /** LF, VT and FF, as IND: down, in the same column. */
  lemma LineFeeds(k: Screen, s: State, c: Octet)
    requires StateOk(k, s) && AtGround(s.reading) && c in {10, 11, 12}
    ensures var n, l := Steps(k, s, [c]), s.look;
            && OnlyPen(s, n) && Descends(k, l, n.look)
            && n.look.pen.x == if l.pen.y == k.rows - 1 && l.bottom != k.rows then l.pen.x else Column(k, s)
    ensures var n, l := Steps(k, s, [ESC, 'D' as int]), s.look;
            && n.look == l.(pen := n.look.pen) && n.front == s.front && AtGround(n.reading) && Descends(k, l, n.look)
            && n.look.pen.x == if l.pen.y == k.rows - 1 && l.bottom != k.rows then l.pen.x else Column(k, s)
  {
    hide Steps, FrontOk, ReadingOk, LineFed, Descends, AtGround, PenOk;
    ControlSteps(k, s, c);
    EscapeTwo(k, s, 'D' as int);
    var q := LineFed(s.look.pen, ViewIn(k, s.look, false), BlankIn(s.look));
    LineFeedIs(k, s.look, Steps(k, s, [c]).look, q);
    LineFeedIs(k, s.look, Steps(k, s, [ESC, 'D' as int]).look, q);
  }

  /** NEL: down and to the first column. RI: up, in the same column. */
  lemma EscapeMoves(k: Screen, s: State)
    requires StateOk(k, s) && AtGround(s.reading)
    ensures var n, l := Steps(k, s, [ESC, 'E' as int]), s.look;
            && n.look == l.(pen := n.look.pen) && n.front == s.front && AtGround(n.reading)
            && Descends(k, l, n.look) && n.look.pen.x == 0
    ensures var n, l := Steps(k, s, [ESC, 'M' as int]), s.look;
            && n.look == l.(pen := n.look.pen) && n.front == s.front && AtGround(n.reading) && Ascends(k, l, n.look)
            && n.look.pen.x == if l.pen.y == 0 && l.top != 0 then l.pen.x else Column(k, s)
  {
    hide Steps, FrontOk, ReadingOk, LineFed, ReverseFed, Descends, Ascends, AtGround, PenOk;
    EscapeTwo(k, s, 'E' as int);
    EscapeTwo(k, s, 'M' as int);
    var q := LineFed(s.look.pen, ViewIn(k, s.look, false), BlankIn(s.look));
    LineFeedIs(k, s.look, Steps(k, s, [ESC, 'E' as int]).look, q);
    ReverseFeedIs(k, s.look, Steps(k, s, [ESC, 'M' as int]).look);
  }

  /** RIS: a blank screen in the default colours, the whole of it between the margins, and the modes of the start. */
  lemma Resets(k: Screen, s: State)
    requires StateOk(k, s) && AtGround(s.reading)
    ensures var n, l := Steps(k, s, [ESC, 'c' as int]), s.look;
            && Blanked(k, n.look, 0, 0, Cell(0x20, false, true, k.defaultFg, l.bg)) && AtGround(n.reading)
            && n.look == Look(n.look.pen, 0, k.rows, true, true, true, k.defaultFg, l.bg, false, true)
            && n.front == Front([false, true], 0, false, false, 0x20, false, 0, 0,
                                Saved(k.defaultFg, l.bg, false, true, 0, 0, false, 0, [false, true]))
  {
    hide Steps, FrontOk, ReadingOk, AtGround;
    EscapeTwo(k, s, 'c' as int);
  }

  // ----- Character sets -----

  /** The state in which the next byte chooses a character set. */
  function Selecting(s: State, g: nat): State { Rested(s).(reading := Rested(s).reading.(offset := 1, gSelect := g)) }

  lemma SelectingOk(k: Screen, s: State, g: nat)
    requires StateOk(k, s) && g <= 2
    ensures StateOk(k, Selecting(s, g))
  {
    hide LookOk, FrontOk, CsiParams.Ok;
  }

  lemma ParenthesisFed(k: Screen, s: State, e: State, c: Octet)
    requires StateOk(k, s) && AtGround(s.reading) && c as char in {'(', ')'}
    requires e == s.(reading := s.reading.(escape := true, offset := 0))
    ensures StateOk(k, e)
    ensures Step(k, e, c) == s.(reading := s.reading.(offset := 1, gSelect := if c as char == '(' then 1 else 2))
  {
    hide LookOk, FrontOk, CsiParams.Ok, ControlStep, TextStep, OscStep;
  }

  lemma SelectFed(k: Screen, s: State, c: Octet)
    requires StateOk(k, s) && AtGround(s.reading) && c as char in {'(', ')'}
    ensures Steps(k, s, [ESC, c]) == Selecting(s, if c as char == '(' then 1 else 2)
  {
    hide Steps, Step, LookOk, FrontOk, ReadingOk;
    EscapeFed(k, s);
    TwoSteps(k, s, ESC, c);
    ParenthesisFed(k, Rested(s), Step(k, s, ESC), c);
  }

  lemma ChoiceFed(k: Screen, s: State, g: nat, c: Octet)
    requires StateOk(k, s) && AtGround(s.reading) && 1 <= g <= 2 && c as char in {'0', 'B'}
    ensures StateOk(k, Selecting(s, g))
    ensures var n := Step(k, Selecting(s, g), c);
            && n.look == s.look && n.front == s.front.(charsets := s.front.charsets[g - 1 := c as char == '0'])
            && AtGround(n.reading) && n.reading.private == s.reading.private
  {
    AsciiFed(GROUND, c);
    SelectingOk(k, s, g);
    hide Feed, IsLead, LookOk, CsiParams.Ok, PlainControlStep, UnselectedStep;
  }

  /** ESC ( and ESC ) choose the special graphics set with 0 and the default set with B for one of the two sets. */
  lemma SelectsSet(k: Screen, s: State, second: bool, special: bool)
    requires StateOk(k, s) && AtGround(s.reading)
    ensures var a, b := if second then ')' as int else '(' as int, if special then '0' as int else 'B' as int;
            var n := Steps(k, s, [ESC, a, b]);
            && n.look == s.look && AtGround(n.reading) && n.reading.private == s.reading.private
            && n.front == s.front.(charsets := if second then [s.front.charsets[0], special]
                                               else [special, s.front.charsets[1]])
  {
    hide Steps, Step, LookOk, ReadingOk, AtGround, Selecting;
    var a, b := if second then ')' as int else '(' as int, if special then '0' as int else 'B' as int;
    assert [ESC, a, b] == [ESC, a] + [b];
    StepsAppend(k, s, [ESC, a], [b]);
    SelectFed(k, s, a);
    ChoiceFed(k, s, if second then 2 else 1, b);
    OneStep(k, Selecting(s, if second then 2 else 1), b);
  }

  // ----- Printing -----

  /** A printable byte of seven bits. */
  predicate IsAscii(c: Octet) { 0x20 <= c <= 0x7E }

  /** A cell in the attributes in force. */
  function CellIn(l: Look, glyph: nat): Cell { Cell(glyph, l.fgDefault, l.bgDefault, l.fg, l.bg) }

  /** The drawings of the special graphics set, as places in the code page. */
  const DRAWINGS: map<char, nat> :=
    map['`' := 0x04, '0' := 0xdb, '-' := 0x18, ',' := 0x1b, '.' := 0x19, 'a' := 0xb1, 'f' := 0xf8, 'g' := 0xf1,
        'h' := 0xb0, 'j' := 0xd9, 'k' := 0xbf, 'l' := 0xda, 'm' := 0xc0, 'n' := 0xc5, 'q' := 0xc4, 's' := 0x5f,
        't' := 0xc3, 'u' := 0xb4, 'v' := 0xc1, 'w' := 0xc2, 'x' := 0xb3, 'y' := 0xf3, 'z' := 0xf2, '~' := 0xfa,
        '_' := 0xff, '+' := 0x1a, '{' := 0xe3, '}' := 0x9c]

  lemma DrawingOf(c: char)
    ensures DecSpecial(c) == if c in DRAWINGS then DRAWINGS[c] else -1
  {
  }

  /** The glyph a byte prints: its drawing where the special graphics set is in use and has one, or itself. */
  function GlyphIn(f: Front, c: Octet): nat
    requires |f.charsets| == 2 && f.charset < 2
  {
    if f.charsets[f.charset] && c as char in DRAWINGS then DRAWINGS[c as char] else c
  }

  lemma PrintSteps(k: Screen, s: State, c: Octet)
    requires StateOk(k, s) && AtGround(s.reading) && IsAscii(c)
    ensures LookOk(k, s.look)
    ensures var n, g := Steps(k, s, [c]), GlyphIn(s.front, c);
            && n.look ==
               s.look.(pen := Printed(s.look.pen, ModesIn(k, s.look), s.front.insert, 1, CellIn(s.look, 0), g))
            && n.front == s.front.(lastPrinted := g, graphic := true)
            && AtGround(n.reading) && n.reading.private == s.reading.private
  {
    hide Steps, Step, LookOk, ReadingOk, Printed, DecSpecial;
    DrawingOf(c as char);
    AsciiFed(s.reading.decoder, c);
    ScalarSteps(k, s, c);
  }

  /** A glyph lands in row y and column x, after the cells from there on have moved right by a gap. */
  ghost predicate Lands(k: Screen, l: Look, n: Look, y: int, x: int, cell: Cell, gap: nat)
    requires LookOk(k, l) && LookOk(k, n)
  {
    forall r, c | 0 <= r < k.rows && 0 <= c < k.cols :: LandsAt(k, l, n, y, x, cell, gap, r, c)
  }

  ghost predicate LandsAt(k: Screen, l: Look, n: Look, y: int, x: int, cell: Cell, gap: nat, r: int, c: int)
    requires LookOk(k, l) && LookOk(k, n) && 0 <= r < k.rows && 0 <= c < k.cols
  {
    At(k, n, r, c) == if r == y && c == x then cell
                      else if r == y && 0 <= x && x + gap <= c then At(k, l, r, c - gap)
                      else At(k, l, r, c)
  }

  lemma LandsThere(k: Screen, l: Look, n: Look, y: int, x: int, cell: Cell, gap: nat)
    requires LookOk(k, l) && LookOk(k, n) && 0 <= y < k.rows && 0 <= x < k.cols && 0 <= y * k.cols
    requires y * k.cols + k.cols <= |l.pen.cells|
    requires n.pen.cells ==
             SetAt(OpenGap(l.pen.cells, y * k.cols + x, y * k.cols + k.cols, gap), y * k.cols + x, cell)
    ensures Lands(k, l, n, y, x, cell, gap)
  {
    forall r, c | 0 <= r < k.rows && 0 <= c < k.cols ensures LandsAt(k, l, n, y, x, cell, gap, r, c) {
      Place(r, c, k.rows, k.cols);
      InRow(r, c, y, x, x + 1, k.cols);
      InRow(r, c, y, x, k.cols, k.cols);
    }
  }

  lemma NoneOpened(cells: seq<Cell>, lo: nat, hi: nat)
    requires hi <= |cells|
    ensures OpenGap(cells, lo, hi, 0) == cells
  {
  }

  /** A glyph put on a row. */
  lemma PutHere(k: Screen, l: Look, insert: bool, room: nat, g: nat)
    requires LookOk(k, l) && l.pen.x < k.cols
    ensures l.pen.y < k.rows && 0 <= l.pen.y * k.cols && l.pen.y * k.cols + k.cols <= |l.pen.cells|
    ensures var i := l.pen.y * k.cols;
            Printed(l.pen, ModesIn(k, l), insert, room, CellIn(l, 0), g) ==
            Pen(SetAt(OpenGap(l.pen.cells, i + l.pen.x, i + k.cols, if insert then room else 0), i + l.pen.x,
                      CellIn(l, g)),
                l.pen.x + 1, l.pen.y)
  {
    hide OpenGap, SetAt, Scrolled;
    RowBounds(l.pen.y, k.rows, k.cols);
    NoneOpened(l.pen.cells, l.pen.y * k.cols + l.pen.x, l.pen.y * k.cols + k.cols);
  }

  lemma PrintedLands(k: Screen, l: Look, n: Look, insert: bool, room: nat, g: nat)
    requires LookOk(k, l) && l.pen.x < k.cols
    requires n == l.(pen := Printed(l.pen, ModesIn(k, l), insert, room, CellIn(l, 0), g)) && LookOk(k, n)
    ensures n.pen.x == l.pen.x + 1 && n.pen.y == l.pen.y
    ensures Lands(k, l, n, l.pen.y, l.pen.x, CellIn(l, g), if insert then room else 0)
  {
    hide OpenGap, SetAt, Printed, CellIn, Lands, PenOk;
    PutHere(k, l, insert, room, g);
    LandsThere(k, l, n, l.pen.y, l.pen.x, CellIn(l, g), if insert then room else 0);
  }

  /** On a row the glyph goes to the cursor's place, which moves on; in insert mode the rest of the row makes room. */
  lemma PrintsHere(k: Screen, s: State, c: Octet)
    requires StateOk(k, s) && AtGround(s.reading) && IsAscii(c) && s.look.pen.x < k.cols
    ensures var n, l, g := Steps(k, s, [c]), s.look, GlyphIn(s.front, c);
            && n.look == l.(pen := Pen(n.look.pen.cells, l.pen.x + 1, l.pen.y))
            && n.front == s.front.(lastPrinted := g, graphic := true)
            && AtGround(n.reading) && n.reading.private == s.reading.private
            && Lands(k, l, n.look, l.pen.y, l.pen.x, CellIn(l, g), if s.front.insert then 1 else 0)
  {
    hide Steps, LookOk, ReadingOk, AtGround, Lands, Printed, GlyphIn, CellIn;
    PrintSteps(k, s, c);
    PrintedLands(k, s.look, Steps(k, s, [c]).look, s.front.insert, 1, GlyphIn(s.front, c));
  }

  /** A glyph put past a full row. */
  lemma PutLast(k: Screen, l: Look, insert: bool, g: nat)
    requires LookOk(k, l) && l.pen.x == k.cols && !l.wrap
    ensures 0 <= l.pen.y * k.cols && l.pen.y * k.cols + k.cols <= |l.pen.cells|
    ensures Printed(l.pen, ModesIn(k, l), insert, 1, CellIn(l, 0), g) ==
            Pen(SetAt(l.pen.cells, l.pen.y * k.cols + (k.cols - 1), CellIn(l, g)), k.cols, l.pen.y)
  {
    hide OpenGap, SetAt, Scrolled;
    RowBounds(l.pen.y, k.rows, k.cols);
    NoGap(l.pen.cells, l.pen.y * k.cols + k.cols - 1);
  }

  /** At the last column there is nothing to make room. */
  lemma NoGap(cells: seq<Cell>, i: nat)
    requires i < |cells|
    ensures OpenGap(cells, i, i + 1, 1) == cells
  {
  }

  /** Past a full row, without wrapping, the glyph replaces the last one. */
  lemma PrintsLast(k: Screen, s: State, c: Octet)
    requires StateOk(k, s) && AtGround(s.reading) && IsAscii(c) && s.look.pen.x == k.cols && !s.look.wrap
    ensures var n, l, g := Steps(k, s, [c]), s.look, GlyphIn(s.front, c);
            && n.look == l.(pen := Pen(n.look.pen.cells, k.cols, l.pen.y))
            && n.front == s.front.(lastPrinted := g, graphic := true)
            && Lands(k, l, n.look, l.pen.y, k.cols - 1, CellIn(l, g), 0)
  {
    hide Steps, ReadingOk, AtGround, Lands, SetAt, Printed, GlyphIn, CellIn;
    PrintSteps(k, s, c);
    var l, g := s.look, GlyphIn(s.front, c);
    PutLast(k, l, s.front.insert, g);
    NoneOpened(l.pen.cells, l.pen.y * k.cols + (k.cols - 1), l.pen.y * k.cols + k.cols);
    LandsThere(k, l, Steps(k, s, [c]).look, l.pen.y, k.cols - 1, CellIn(l, g), 0);
  }

  /** Outside insert mode. */
  function Replacing(s: State): State { s.(front := s.front.(insert := false)) }

  lemma ReplacingOk(k: Screen, s: State)
    requires StateOk(k, s)
    ensures StateOk(k, Replacing(s))
  {
    hide LookOk, ReadingOk;
  }

  /** A carriage return and a line feed. */
  ghost function Returned(k: Screen, l: Look): (r: Look)
    requires LookOk(k, l)
    ensures LookOk(k, r)
  {
    l.(pen := LineFed(l.pen.(x := 0), ViewIn(k, l, false), BlankIn(l)))
  }

  lemma PutWrapped(k: Screen, l: Look, insert: bool, g: nat)
    requires LookOk(k, l) && l.pen.x == k.cols && l.wrap && l.scroll
    ensures Printed(l.pen, ModesIn(k, l), insert, 1, CellIn(l, 0), g) ==
            Printed(Returned(k, l).pen, ModesIn(k, l), false, 1, CellIn(l, 0), g)
  {
    hide OpenGap, SetAt, ShiftLeft, ShiftRight;
    RowBounds(l.pen.y, k.rows, k.cols);
    NoGap(l.pen.cells, l.pen.y * k.cols + k.cols - 1);
  }

  lemma ReturnSteps(k: Screen, s: State)
    requires StateOk(k, s) && AtGround(s.reading)
    ensures LookOk(k, s.look)
    ensures var n := Steps(k, s, [13, 10]);
            n.look == Returned(k, s.look) && n.front == s.front.(graphic := false) && AtGround(n.reading)
  {
    hide Steps, LookOk, FrontOk, ReadingOk, AtGround, LineFed;
    assert [13, 10] == [13] + [10];
    StepsAppend(k, s, [13], [10]);
    ControlSteps(k, s, 13);
    ControlSteps(k, Steps(k, s, [13]), 10);
  }

  /** Past a full row, with wrapping, a glyph is printed as after a carriage return and a line feed. */
  lemma WrapsFirst(k: Screen, s: State, c: Octet)
    requires StateOk(k, s) && AtGround(s.reading) && IsAscii(c) && s.look.pen.x == k.cols && s.look.wrap
    ensures StateOk(k, Replacing(s))
    ensures var n, m := Steps(k, s, [c]), Steps(k, Replacing(s), [13, 10, c]);
            n.look == m.look && n.front == m.front.(insert := s.front.insert)
  {
    hide Steps, LookOk, ReadingOk, AtGround, Printed, LineFed;
    ReplacingOk(k, s);
    var t := Steps(k, Replacing(s), [13, 10]);
    assert [13, 10, c] == [13, 10] + [c];
    StepsAppend(k, Replacing(s), [13, 10], [c]);
    ReturnSteps(k, Replacing(s));
    PrintSteps(k, s, c);
    PrintSteps(k, t, c);
    PutWrapped(k, s.look, s.front.insert, GlyphIn(s.front, c));
  }

  // ----- Runs of text -----

  predicate AllAscii(bytes: seq<Octet>) { forall i | 0 <= i < |bytes| :: IsAscii(bytes[i]) }

  /** The cursor as a position in reading order: the end of a row and the start of the next are the same one. */
  function Position(k: Screen, l: Look): int { l.pen.y * k.cols + l.pen.x }

  /** The position before which text does not scroll: the end of the margins, or of the screen below them. */
  function Limit(k: Screen, l: Look): int { (if l.pen.y < l.bottom then l.bottom else k.rows) * k.cols }

  /** A glyph put past a full row that is not the last one. */
  lemma PutNext(k: Screen, l: Look, g: nat)
    requires LookOk(k, l) && l.wrap && l.scroll && l.pen.x == k.cols && l.pen.y + 1 < k.rows && l.pen.y + 1 != l.bottom
    ensures Printed(l.pen, ModesIn(k, l), false, 1, CellIn(l, 0), g) ==
            Pen(SetAt(l.pen.cells, (l.pen.y + 1) * k.cols, CellIn(l, g)), 1, l.pen.y + 1)
  {
    hide SetAt, Scrolled;
  }

  lemma NextRow(k: Screen, l: Look)
    requires LookOk(k, l) && l.pen.x == k.cols && Position(k, l) < Limit(k, l)
    ensures l.pen.y + 1 < k.rows && l.pen.y + 1 != l.bottom && (l.pen.y + 1) * k.cols == Position(k, l)
  {
    PlaceOrder(l.pen.y + 1, 0, if l.pen.y < l.bottom then l.bottom else k.rows, k.cols);
  }

  /** A glyph printed before the limit lands on the cursor's position, which moves on by one. */
  lemma PutForward(k: Screen, l: Look, q: Pen, g: nat)
    requires LookOk(k, l) && l.scroll && (l.wrap || l.pen.x < k.cols) && Position(k, l) < Limit(k, l)
    requires q == Printed(l.pen, ModesIn(k, l), false, 1, CellIn(l, 0), g)
    ensures 0 <= Position(k, l) < |l.pen.cells| && q.cells == l.pen.cells[Position(k, l) := CellIn(l, g)]
    ensures Position(k, l.(pen := q)) == Position(k, l) + 1 && Limit(k, l.(pen := q)) == Limit(k, l)
    ensures l.pen.x < k.cols ==> q.x == l.pen.x + 1
  {
    RowBounds(l.pen.y, k.rows, k.cols);
    hide Printed;
    if l.pen.x < k.cols {
      PutHere(k, l, false, 1, g);
      NoneOpened(l.pen.cells, Position(k, l), l.pen.y * k.cols + k.cols);
    } else {
      NextRow(k, l);
      RowBounds(l.pen.y + 1, k.rows, k.cols);
      PutNext(k, l, g);
    }
  }

  /** Room for a run of text: it neither scrolls nor, without wrapping, leaves the row. */
  ghost predicate Fits(k: Screen, s: State, bytes: seq<Octet>) {
    && AllAscii(bytes) && !s.front.insert && Position(k, s.look) + |bytes| <= Limit(k, s.look)
    && (s.look.wrap || s.look.pen.x + |bytes| <= k.cols)
  }

  /** The glyphs of the run stand in the attributes in force from position p on; every other cell is as it was. */
  ghost predicate Written(s: State, n: State, p: int, bytes: seq<Octet>)
    requires |s.front.charsets| == 2 && s.front.charset < 2
  {
    && |n.look.pen.cells| == |s.look.pen.cells| && 0 <= p && p + |bytes| <= |s.look.pen.cells|
    && forall i | 0 <= i < |s.look.pen.cells| :: n.look.pen.cells[i] ==
         if p <= i < p + |bytes| then CellIn(s.look, GlyphIn(s.front, bytes[i - p])) else s.look.pen.cells[i]
  }

  /** What a run changes besides the cells. */
  ghost predicate Advanced(k: Screen, s: State, n: State, count: nat) {
    && n.look == s.look.(pen := n.look.pen) && AtGround(n.reading) && n.reading.private == s.reading.private
    && n.front == s.front.(lastPrinted := n.front.lastPrinted, graphic := n.front.graphic)
    && Position(k, n.look) == Position(k, s.look) + count && Limit(k, n.look) == Limit(k, s.look)
    && (s.look.pen.x + count <= k.cols ==> n.look.pen.x == s.look.pen.x + count)
  }

  lemma TypesByte(k: Screen, s: State, c: Octet)
    requires StateOk(k, s) && AtGround(s.reading) && Fits(k, s, [c])
    ensures 0 <= Position(k, s.look) < |s.look.pen.cells| && Advanced(k, s, Steps(k, s, [c]), 1)
    ensures Steps(k, s, [c]).look.pen.cells ==
            s.look.pen.cells[Position(k, s.look) := CellIn(s.look, GlyphIn(s.front, c))]
  {
    hide Steps, ReadingOk, AtGround, Printed, GlyphIn, CellIn, LookOk, Position, Limit;
    assert IsAscii([c][0]);
    PrintSteps(k, s, c);
    PutForward(k, s.look, Steps(k, s, [c]).look.pen, GlyphIn(s.front, c));
  }

  lemma FitsMore(k: Screen, s: State, t: State, bytes: seq<Octet>, n: nat)
    requires Fits(k, s, bytes) && |bytes| == n + 1 && Advanced(k, s, t, n)
    ensures Fits(k, t, [bytes[n]])
  {
    hide AtGround, Position, Limit;
  }

  lemma FitsLess(k: Screen, s: State, bytes: seq<Octet>, n: nat)
    requires Fits(k, s, bytes) && n <= |bytes|
    ensures Fits(k, s, bytes[..n])
  {
    hide Position, Limit;
  }

  lemma AdvancedMore(k: Screen, s: State, t: State, m: State, n: nat)
    requires Advanced(k, s, t, n) && Advanced(k, t, m, 1)
    ensures Advanced(k, s, m, n + 1)
  {
    hide AtGround, Position, Limit;
  }

  lemma WrittenMore(s: State, t: State, m: State, p: int, bytes: seq<Octet>, n: nat)
    requires |bytes| == n + 1 && |s.front.charsets| == 2 && s.front.charset < 2
    requires t.look == s.look.(pen := t.look.pen)
    requires t.front == s.front.(lastPrinted := t.front.lastPrinted, graphic := t.front.graphic)
    requires Written(s, t, p, bytes[..n]) && 0 <= p + n < |t.look.pen.cells|
    requires m.look.pen.cells == t.look.pen.cells[p + n := CellIn(t.look, GlyphIn(t.front, bytes[n]))]
    ensures Written(s, m, p, bytes)
  {
    assert GlyphIn(t.front, bytes[n]) == GlyphIn(s.front, bytes[n]);
    hide GlyphIn;
  }

  lemma NothingWritten(k: Screen, s: State)
    requires StateOk(k, s) && AtGround(s.reading)
    ensures Advanced(k, s, s, 0) && Written(s, s, Position(k, s.look), [])
  {
    hide GlyphIn, ReadingOk;
    RowBounds(s.look.pen.y, k.rows, k.cols);
  }

  /**
   Text that fits is written in reading order from the cursor on, over the ends of rows, and nothing else changes;
   the cursor is then right after it.
   */
  lemma {:induction false} TypesText(k: Screen, s: State, bytes: seq<Octet>)
    requires StateOk(k, s) && AtGround(s.reading) && Fits(k, s, bytes)
    ensures Advanced(k, s, Steps(k, s, bytes), |bytes|) && Written(s, Steps(k, s, bytes), Position(k, s.look), bytes)
    decreases |bytes|
  {
    hide Steps, LookOk, ReadingOk, AtGround, GlyphIn, CellIn, Position, Limit, Fits, Written;
    if bytes == [] {
      NoSteps(k, s);
      NothingWritten(k, s);
    } else {
      var n := |bytes| - 1;
      assert bytes == bytes[..n] + [bytes[n]];
      FitsLess(k, s, bytes, n);
      TypesText(k, s, bytes[..n]);
      var t := Steps(k, s, bytes[..n]);
      StepsAppend(k, s, bytes[..n], [bytes[n]]);
      FitsMore(k, s, t, bytes, n);
      TypesByte(k, t, bytes[n]);
      AdvancedMore(k, s, t, Steps(k, s, bytes), n);
      WrittenMore(s, t, Steps(k, s, bytes), Position(k, s.look), bytes, n);
    }
  }

  // ----- Repetition -----

  function Times(c: Octet, n: nat): seq<Octet> { seq(n, _ => c) }

  lemma {:induction false} RepeatedBytes(k: Screen, s: State, c: Octet, n: nat)
    requires StateOk(k, s) && AtGround(s.reading) && IsAscii(c)
    ensures LookOk(k, s.look)
    ensures var m, g := Steps(k, s, Times(c, n)), GlyphIn(s.front, c);
            && m.look ==
               s.look.(pen := PrintedTimes(s.look.pen, ModesIn(k, s.look), s.front.insert, CellIn(s.look, 0), g, n))
            && m.front == (if n == 0 then s.front else s.front.(lastPrinted := g, graphic := true))
            && AtGround(m.reading) && m.reading.private == s.reading.private
    decreases n
  {
    hide Steps, LookOk, ReadingOk, AtGround, Printed;
    if n == 0 {
      NoSteps(k, s);
    } else {
      RepeatedBytes(k, s, c, n - 1);
      assert Times(c, n) == Times(c, n - 1) + [c];
      StepsAppend(k, s, Times(c, n - 1), [c]);
      PrintSteps(k, Steps(k, s, Times(c, n - 1)), c);
    }
  }

  lemma RepetitionActs(k: Screen, s: State, p: Params)
    requires StateOk(k, s) && Suits(p, 'b')
    ensures ActedFront(k, s.look.pen, s.front, 'b', p) == s.front
    ensures ActedLook(k, s.look, s.front, 'b', p) ==
            if !s.front.graphic then s.look
            else s.look.(pen := PrintedTimes(s.look.pen, ModesIn(k, s.look), s.front.insert, CellIn(s.look, 0),
                                             s.front.lastPrinted, Min(p.values[0], k.cols)))
  {
    hide ReadingOk, CsiParams.Ok, PrintedTimes;
  }

  lemma RepeatsAgain(k: Screen, s: State, c: Octet, ns: seq<nat>)
    requires Ready(k, s) && Numbers(ns) && IsAscii(c) && s.front.graphic
    requires |s.front.charsets| == 2 && s.front.charset < 2 && s.front.lastPrinted == GlyphIn(s.front, c)
    ensures var short, long := Steps(k, s, Sequence(false, ns, 'b' as int)),
                               Steps(k, s, Times(c, Min(Count(ns, 0), k.cols)));
            short.look == long.look && short.front == long.front && Ready(k, short)
  {
    hide Steps, Sequence, StateOk, AtGround, PrintedTimes, ActedLook, ActedFront, CsiParams.Ok, GlyphIn, Times, CellIn;
    var p := OrdinarySteps(k, s, ns, 'b');
    RepetitionActs(k, s, p);
    RepeatedBytes(k, s, c, Min(Count(ns, 0), k.cols));
  }

  /** REP after a printed byte is as good as sending that byte again as often, up to a row of it. */
  lemma RepeatsByte(k: Screen, s: State, c: Octet, ns: seq<nat>)
    requires Ready(k, s) && Numbers(ns) && IsAscii(c)
    ensures var short, long := Steps(k, s, [c] + Sequence(false, ns, 'b' as int)),
                               Steps(k, s, Times(c, 1 + if Count(ns, 0) < k.cols then Count(ns, 0) else k.cols));
            short.look == long.look && short.front == long.front && Ready(k, short)
  {
    hide Steps, Sequence, LookOk, ReadingOk, AtGround, Printed, Numbers;
    var t, m := Steps(k, s, [c]), Min(Count(ns, 0), k.cols);
    PrintSteps(k, s, c);
    StepsAppend(k, s, [c], Sequence(false, ns, 'b' as int));
    assert Times(c, 1 + m) == [c] + Times(c, m);
    StepsAppend(k, s, [c], Times(c, m));
    RepeatsAgain(k, t, c, ns);
  }

  /** After anything but a printed character REP does nothing. */
  lemma RepeatsNothing(k: Screen, s: State, ns: seq<nat>)
    requires Ready(k, s) && Numbers(ns) && !s.front.graphic
    ensures var n := Steps(k, s, Sequence(false, ns, 'b' as int)); n.look == s.look && n.front == s.front && Ready(k, n)
  {
    hide Steps, Sequence, LookOk, ReadingOk, AtGround, PrintedTimes, ActedLook, ActedFront, CsiParams.Ok;
    var p := OrdinarySteps(k, s, ns, 'b');
    RepetitionActs(k, s, p);
  }
}
