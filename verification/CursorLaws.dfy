/** Where whole control sequences take the cursor, and which modes they change, in numbers. */
module CursorLaws {
  import opened Cells
  import opened CsiParams
  import opened CsiSpec
  import opened TermLaws
  import opened TermSpec
  import opened Utf8

  /** Ready for text, and no private marker left behind. */
  ghost predicate Ready(k: Screen, s: State) {
    StateOk(k, s) && AtGround(s.reading) && !s.reading.private
  }

  /** A parameter list that is read as it is printed: at most sixteen numbers of 32 bits. */
  predicate Numbers(ns: seq<nat>) { |ns| <= 16 && forall i | 0 <= i < |ns| :: ns[i] <= 0xFFFF_FFFF }

  /** A parameter of a movement: zero or left out stands for one. */
  function Count(ns: seq<nat>, i: nat): (n: int)
    ensures n >= 1
  {
    if i < |ns| && ns[i] > 0 then ns[i] else 1
  }

  /** The cursor's column: one past the last counts as the last. */
  function Column(k: Screen, s: State): int { if s.look.pen.x >= k.cols then k.cols - 1 else s.look.pen.x }

  /** The bytes only move the cursor to (x, y): cells, margins, modes and attributes stay. */
  ghost predicate Moves(k: Screen, s: State, bytes: seq<Octet>, x: int, y: int)
    requires StateOk(k, s)
  {
    var n := Steps(k, s, bytes);
    && 0 <= x < k.cols && 0 <= y < k.rows && Ready(k, n)
    && n.look == s.look.(pen := s.look.pen.(x := x, y := y)) && n.front == s.front
  }

  // ----- The parameters -----

  /** The final byte finds the numbers printed, and its default for those left out. */
  lemma ParamsAre(ns: seq<nat>, c: char)
    requires Numbers(ns)
    ensures var p := FinalParams(Read(CsiParams.Start(), ns), c);
            && p.index == |ns| && |p.values| == 16
            && forall i | 0 <= i < 16 ::
                 p.values[i] == if i < |ns| && (ns[i] > 0 || DefaultFor(c) == 0) then ns[i] else DefaultFor(c)
  {
    hide Read;
    ListRead(CsiParams.Start(), ns);
  }

  /** What a whole ordinary sequence does. */
  lemma OrdinarySteps(k: Screen, s: State, ns: seq<nat>, c: char) returns (p: Params)
    requires Ready(k, s) && Numbers(ns) && '@' <= c <= 'z' && c != '['
    ensures Suits(p, c) && p.index == |ns|
    ensures p.values[0] == if |ns| > 0 && (ns[0] > 0 || DefaultFor(c) == 0) then ns[0] else DefaultFor(c)
    ensures p.values[1] == if |ns| > 1 && (ns[1] > 0 || DefaultFor(c) == 0) then ns[1] else DefaultFor(c)
    ensures var n := Steps(k, s, Sequence(false, ns, c as int));
            && Ready(k, n)
            && n.look == ActedLook(k, s.look, s.front, c, p) && n.front == ActedFront(k, s.look.pen, s.front, c, p)
  {
    ParamsAre(ns, c);
    p := FinalParams(Read(CsiParams.Start(), ns), c);
    assert c as int as char == c;
    hide Read, Steps, Sequence, FinalParams, ActedLook, ActedFront, LookOk, FrontOk, ReadingOk, CsiParams.Ok;
    SequenceSteps(k, s, false, ns, c as int);
  }

  // ----- Movements -----

  lemma OnlyMoves(c: char)
    requires IsMove(c)
    ensures 'A' <= c <= 'z' && c != '[' && c !in {'b', 'r', 's', 'h', 'l'} && DefaultFor(c) == 1
  {
  }

  /** The effect of a movement: the cursor, and nothing else. */
  lemma MoveActs(k: Screen, s: State, p: Params, c: char)
    requires StateOk(k, s) && IsMove(c) && Suits(p, c)
    ensures ViewOk(ViewIn(k, s.look, s.front.origin)) && 0 <= Column(k, s) < k.cols && s.look.pen.y < k.rows
    ensures var d := CursorAfter(c, p.values[0], p.values[1], Column(k, s), s.look.pen.y,
                                 ViewIn(k, s.look, s.front.origin));
            ActedLook(k, s.look, s.front, c, p) == s.look.(pen := s.look.pen.(x := d.0, y := d.1))
    ensures ActedFront(k, s.look.pen, s.front, c, p) == s.front
  {
    OnlyMoves(c);
    hide CursorAfter, ReadingOk, CsiParams.Ok, IsMove, IsEdit, MarginsAfter, Repeated, Edited;
  }

  lemma MoveSteps(k: Screen, s: State, ns: seq<nat>, c: char)
    requires Ready(k, s) && Numbers(ns) && IsMove(c)
    ensures ViewOk(ViewIn(k, s.look, s.front.origin)) && 0 <= Column(k, s) < k.cols && s.look.pen.y < k.rows
    ensures var d := CursorAfter(c, Count(ns, 0), Count(ns, 1), Column(k, s), s.look.pen.y,
                                 ViewIn(k, s.look, s.front.origin));
            Moves(k, s, Sequence(false, ns, c as int), d.0, d.1)
  {
    OnlyMoves(c);
    hide CursorAfter, Steps, Sequence, StateOk, AtGround, ActedLook, ActedFront, CsiParams.Ok, ViewOk, IsMove,
         DefaultFor;
    var p := OrdinarySteps(k, s, ns, c);
    MoveActs(k, s, p, c);
  }

  /** CUF and HPR go right and CUB left, at most to the edge of the row. */
  lemma GoesAcross(k: Screen, s: State, ns: seq<nat>)
    requires Ready(k, s) && Numbers(ns)
    ensures var x, y, n := Column(k, s), s.look.pen.y, Count(ns, 0);
            var right, left := (if x + n < k.cols then x + n else k.cols - 1), (if x < n then 0 else x - n);
            && Moves(k, s, Sequence(false, ns, 'C' as int), right, y)
            && Moves(k, s, Sequence(false, ns, 'a' as int), right, y)
            && Moves(k, s, Sequence(false, ns, 'D' as int), left, y)
  {
    hide Moves, Sequence, Ready;
    MoveSteps(k, s, ns, 'C');
    MoveSteps(k, s, ns, 'a');
    MoveSteps(k, s, ns, 'D');
  }

  /** CUU and CPL go up, at most to the first row, or to the top margin in origin mode; CPL to the first column. */
  lemma GoesUp(k: Screen, s: State, ns: seq<nat>)
    requires Ready(k, s) && Numbers(ns)
    ensures var x, y, first := Column(k, s), s.look.pen.y - Count(ns, 0), if s.front.origin then s.look.top else 0;
            && Moves(k, s, Sequence(false, ns, 'A' as int), x, if y < first then first else y)
            && Moves(k, s, Sequence(false, ns, 'F' as int), 0, if y < first then first else y)
  {
    hide Moves, Sequence, Ready;
    MoveSteps(k, s, ns, 'A');
    MoveSteps(k, s, ns, 'F');
  }

  /** CUD, VPR and CNL go down, at most to the last row, or that of the margins in origin mode. */
  lemma GoesDown(k: Screen, s: State, ns: seq<nat>)
    requires Ready(k, s) && Numbers(ns)
    ensures var x, y := Column(k, s), s.look.pen.y + Count(ns, 0);
            var last := (if s.front.origin then s.look.bottom else k.rows) - 1;
            && Moves(k, s, Sequence(false, ns, 'B' as int), x, if y > last then last else y)
            && Moves(k, s, Sequence(false, ns, 'e' as int), x, if y > last then last else y)
            && Moves(k, s, Sequence(false, ns, 'E' as int), 0, if y > last then last else y)
  {
    hide Moves, Sequence, Ready;
    MoveSteps(k, s, ns, 'B');
    MoveSteps(k, s, ns, 'e');
    MoveSteps(k, s, ns, 'E');
  }

  /** The row a one-based number names, counted from the top margin in origin mode; too large a one names the last. */
  function NamedRow(k: Screen, s: State, n: nat): int {
    if s.front.origin then (if s.look.top + n <= s.look.bottom then s.look.top + n - 1 else s.look.bottom - 1)
    else (if n <= k.rows then n - 1 else k.rows - 1)
  }

  function NamedColumn(k: Screen, n: nat): int { if n <= k.cols then n - 1 else k.cols - 1 }

  /** CUP and HVP go to a row and a column, VPA to a row, CHA and HPA to a column. */
  lemma GoesTo(k: Screen, s: State, ns: seq<nat>)
    requires Ready(k, s) && Numbers(ns)
    ensures var row, a, b := NamedRow(k, s, Count(ns, 0)), NamedColumn(k, Count(ns, 0)), NamedColumn(k, Count(ns, 1));
            && Moves(k, s, Sequence(false, ns, 'H' as int), b, row)
            && Moves(k, s, Sequence(false, ns, 'f' as int), b, row)
            && Moves(k, s, Sequence(false, ns, 'd' as int), Column(k, s), row)
            && Moves(k, s, Sequence(false, ns, 'G' as int), a, s.look.pen.y)
            && Moves(k, s, Sequence(false, ns, '`' as int), a, s.look.pen.y)
  {
    hide Moves, Sequence, Ready;
    MoveSteps(k, s, ns, 'H');
    MoveSteps(k, s, ns, 'f');
    MoveSteps(k, s, ns, 'd');
    MoveSteps(k, s, ns, 'G');
    MoveSteps(k, s, ns, '`');
  }

  /** Every place on the screen can be reached: outside origin mode by its own numbers. */
  lemma PlaceReached(k: Screen, s: State, x: nat, y: nat)
    requires Ready(k, s) && !s.front.origin && x < k.cols <= 0xFFFF_FFFF && y < k.rows <= 0xFFFF_FFFF
    ensures Moves(k, s, Sequence(false, [y + 1, x + 1], 'H' as int), x, y)
  {
    hide Moves, Sequence, Ready;
    GoesTo(k, s, [y + 1, x + 1]);
  }

  lemma Readied(k: Screen, s: State, bytes: seq<Octet>, x: int, y: int)
    requires StateOk(k, s) && Moves(k, s, bytes, x, y)
    ensures var n := Steps(k, s, bytes);
            Ready(k, n) && n.look == s.look.(pen := s.look.pen.(x := x, y := y)) && n.front == s.front
  {
    hide StateOk, Steps, AtGround;
  }

  /** Going right and as far back left returns exactly when the edge was not met, or from the first column. */
  lemma ForwardThenBack(k: Screen, s: State, n: nat)
    requires Ready(k, s) && 1 <= n <= 0xFFFF_FFFF
    ensures var m := Steps(k, s, Sequence(false, [n], 'C' as int) + Sequence(false, [n], 'D' as int));
            m.look.pen.x == Column(k, s) <==> Column(k, s) + n < k.cols || Column(k, s) == 0
  {
    hide Moves, Sequence, Steps, StateOk;
    var out, back := Sequence(false, [n], 'C' as int), Sequence(false, [n], 'D' as int);
    var x := Column(k, s);
    StepsAppend(k, s, out, back);
    GoesAcross(k, s, [n]);
    var t := Steps(k, s, out);
    Readied(k, s, out, if x + n < k.cols then x + n else k.cols - 1, s.look.pen.y);
    GoesAcross(k, t, [n]);
    Readied(k, t, back, if t.look.pen.x < n then 0 else t.look.pen.x - n, t.look.pen.y);
  }

  // ----- The saved cursor, the margins and insert mode -----

  /** SCOSC and SCORC: the cursor returns to where it was saved, whatever came between that saved nothing else. */
  lemma SavedCursor(k: Screen, s: State, ns: seq<nat>)
    requires Ready(k, s) && Numbers(ns)
    ensures var n := Steps(k, s, Sequence(false, ns, 's' as int));
            n.look == s.look && n.front == s.front.(savedX := Column(k, s), savedY := s.look.pen.y) && Ready(k, n)
    ensures Moves(k, s, Sequence(false, ns, 'u' as int), s.front.savedX, s.front.savedY)
  {
    var p := OrdinarySteps(k, s, ns, 's');
    var q := OrdinarySteps(k, s, ns, 'u');
    SavingActs(k, s, p, q);
    hide Steps, Sequence, AtGround, ActedLook, ActedFront, CsiParams.Ok, LookOk, ReadingOk;
  }

  lemma SavingActs(k: Screen, s: State, p: Params, q: Params)
    requires StateOk(k, s) && Suits(p, 's') && Suits(q, 'u')
    ensures 0 <= Column(k, s) && ActedLook(k, s.look, s.front, 's', p) == s.look
    ensures ActedFront(k, s.look.pen, s.front, 's', p) == s.front.(savedX := Column(k, s), savedY := s.look.pen.y)
    ensures ActedLook(k, s.look, s.front, 'u', q) ==
            s.look.(pen := s.look.pen.(x := s.front.savedX, y := s.front.savedY))
    ensures ActedFront(k, s.look.pen, s.front, 'u', q) == s.front
  {
    hide ReadingOk, CsiParams.Ok;
  }

  /** DECSTBM: rows given in order and on the screen become the margins, anything else the whole screen. */
  lemma SetsMargins(k: Screen, s: State, ns: seq<nat>)
    requires Ready(k, s) && Numbers(ns)
    ensures var n, first, last := Steps(k, s, Sequence(false, ns, 'r' as int)), Count(ns, 0),
                                  if |ns| > 1 then Count(ns, 1) else k.rows;
            var top, bottom := if first < last <= k.rows then first - 1 else 0,
                               if first < last <= k.rows then last else k.rows;
            && Ready(k, n) && n.front == s.front
            && n.look == s.look.(top := top, bottom := bottom,
                                 pen := s.look.pen.(x := 0, y := if s.front.origin then top else 0))
  {
    var p := OrdinarySteps(k, s, ns, 'r');
    MarginsAct(k, s, p);
    hide Steps, Sequence, AtGround, ActedLook, ActedFront, CsiParams.Ok, LookOk, ReadingOk, FrontOk;
  }

  lemma MarginsAct(k: Screen, s: State, p: Params)
    requires StateOk(k, s) && Suits(p, 'r')
    ensures ActedFront(k, s.look.pen, s.front, 'r', p) == s.front
    ensures k.rows > 0 && var m := MarginsAfter(p.index, p.values[0], p.values[1], k.rows);
            ActedLook(k, s.look, s.front, 'r', p) ==
            s.look.(top := m.0, bottom := m.1, pen := s.look.pen.(x := 0, y := if s.front.origin then m.0 else 0))
  {
    hide ReadingOk, CsiParams.Ok, MarginsAfter;
  }

  /** SM and RM: the first parameter switches insert mode if it is 4; nothing else is touched. */
  lemma SwitchesInsert(k: Screen, s: State, ns: seq<nat>)
    requires Ready(k, s) && Numbers(ns)
    ensures var n, four := Steps(k, s, Sequence(false, ns, 'h' as int)), |ns| > 0 && ns[0] == 4;
            Ready(k, n) && n.look == s.look && n.front == s.front.(insert := s.front.insert || four)
    ensures var n, four := Steps(k, s, Sequence(false, ns, 'l' as int)), |ns| > 0 && ns[0] == 4;
            Ready(k, n) && n.look == s.look && n.front == s.front.(insert := s.front.insert && !four)
  {
    var p := OrdinarySteps(k, s, ns, 'h');
    var q := OrdinarySteps(k, s, ns, 'l');
    InsertActs(k, s, p, q);
    hide Steps, Sequence, AtGround, ActedLook, ActedFront, CsiParams.Ok, LookOk, ReadingOk, FrontOk;
  }

  lemma InsertActs(k: Screen, s: State, p: Params, q: Params)
    requires StateOk(k, s) && Suits(p, 'h') && Suits(q, 'l')
    ensures ActedLook(k, s.look, s.front, 'h', p) == s.look && ActedLook(k, s.look, s.front, 'l', q) == s.look
    ensures ActedFront(k, s.look.pen, s.front, 'h', p) ==
            if p.index > 0 && p.values[0] == 4 then s.front.(insert := true) else s.front
    ensures ActedFront(k, s.look.pen, s.front, 'l', q) ==
            if q.index > 0 && q.values[0] == 4 then s.front.(insert := false) else s.front
  {
    hide ReadingOk, CsiParams.Ok;
  }

  // ----- Private modes -----

  /** The final byte that sets or resets modes. */
  function SetOrReset(on: bool): char { if on then 'h' else 'l' }

  /** A parameter of a mode sequence as it is read: zero counts as one, which names no mode. */
  function ModeOf(n: nat): nat { if n == 0 then 1 else n }

  function ModesOf(ns: seq<nat>): seq<nat> { seq(|ns|, i requires 0 <= i < |ns| => ModeOf(ns[i])) }

  lemma PrivateSteps(k: Screen, s: State, ns: seq<nat>, on: bool)
    requires StateOk(k, s) && AtGround(s.reading) && Numbers(ns)
    ensures var n, m := Steps(k, s, Sequence(true, ns, SetOrReset(on) as int)), SwitchedAll(k, s, ModesOf(ns), on);
            Ready(k, n) && n.look == m.look && n.front == m.front
  {
    hide Read, Steps, Sequence, FinalParams, SwitchedAll, StateOk, AtGround, ModesOf, DefaultFor;
    var c := SetOrReset(on);
    ModesRead(ns, on);
    assert c as int as char == c;
    SequenceSteps(k, s, true, ns, c as int);
  }

  lemma ModesRead(ns: seq<nat>, on: bool)
    requires Numbers(ns)
    ensures var p := FinalParams(Read(CsiParams.Start(), ns), SetOrReset(on)); p.values[..p.index] == ModesOf(ns)
  {
    hide Read, FinalParams;
    ParamsAre(ns, SetOrReset(on));
  }

  /** Several modes in one sequence are switched one after the other, as by a sequence for each. */
  lemma ModesInTurn(k: Screen, s: State, ns: seq<nat>, v: nat, on: bool)
    requires StateOk(k, s) && AtGround(s.reading) && Numbers(ns + [v])
    ensures var c := SetOrReset(on) as int;
            var once, apart := Steps(k, s, Sequence(true, ns + [v], c)),
                               Steps(k, s, Sequence(true, ns, c) + Sequence(true, [v], c));
            once.look == apart.look && once.front == apart.front && Ready(k, once) && Ready(k, apart)
  {
    hide Steps, Sequence, SwitchedAll, StateOk, Numbers, ModesOf, AtGround;
    var c := SetOrReset(on) as int;
    NumbersApart(ns, v);
    OneByOne(k, s, ns, v, on);
    var t := Steps(k, s, Sequence(true, ns, c));
    StepsAppend(k, s, Sequence(true, ns, c), Sequence(true, [v], c));
    PrivateSteps(k, s, ns + [v], on);
    PrivateSteps(k, s, ns, on);
    PrivateSteps(k, t, [v], on);
    SwitchingIgnoresReading(k, SwitchedAll(k, s, ModesOf(ns), on), t.reading, ModesOf([v]), on);
  }

  lemma NumbersApart(ns: seq<nat>, v: nat)
    requires Numbers(ns + [v])
    ensures Numbers(ns) && Numbers([v])
  {
    assert (ns + [v])[|ns|] == v;
    assert forall i | 0 <= i < |ns| :: (ns + [v])[i] == ns[i];
  }

  lemma OneByOne(k: Screen, s: State, ns: seq<nat>, v: nat, on: bool)
    requires StateOk(k, s)
    ensures SwitchedAll(k, s, ModesOf(ns + [v]), on) ==
            SwitchedAll(k, SwitchedAll(k, s, ModesOf(ns), on), ModesOf([v]), on)
  {
    hide StateOk, Switched, ModeOf;
    assert ModesOf(ns + [v])[..|ns|] == ModesOf(ns);
    assert ModesOf([v])[..0] == [];
  }

  lemma OneMode(k: Screen, s: State, v: nat, on: bool)
    requires StateOk(k, s) && AtGround(s.reading) && v <= 0xFFFF_FFFF
    ensures var n, m := Steps(k, s, Sequence(true, [v], SetOrReset(on) as int)), Switched(k, s, ModeOf(v), on);
            Ready(k, n) && n.look == m.look && n.front == m.front
  {
    hide Steps, Sequence, StateOk, Switched, ModeOf, AtGround;
    PrivateSteps(k, s, [v], on);
    assert ModesOf([v])[..0] == [];
    assert SwitchedAll(k, s, [], on) == s;
  }

  /** ?6 switches origin mode and takes the cursor home, ?7 only wrapping, ?25 only the cursor. */
  lemma SwitchesMode(k: Screen, s: State, on: bool)
    requires StateOk(k, s) && AtGround(s.reading)
    ensures var n := Steps(k, s, Sequence(true, [6], SetOrReset(on) as int));
            && n.look == s.look.(pen := s.look.pen.(x := 0, y := if on then s.look.top else 0))
            && n.front == s.front.(origin := on) && Ready(k, n)
    ensures var n := Steps(k, s, Sequence(true, [7], SetOrReset(on) as int));
            n.look == s.look.(wrap := on) && n.front == s.front && Ready(k, n)
    ensures var n := Steps(k, s, Sequence(true, [25], SetOrReset(on) as int));
            n.look == s.look.(cursorOn := on) && n.front == s.front && Ready(k, n)
  {
    hide Steps, Sequence, LookOk, FrontOk, ReadingOk, AtGround, SetOrReset;
    OneMode(k, s, 6, on);
    OneMode(k, s, 7, on);
    OneMode(k, s, 25, on);
  }

  /** Any other mode but the alternate screen is ignored. */
  lemma IgnoresMode(k: Screen, s: State, v: nat, on: bool)
    requires StateOk(k, s) && AtGround(s.reading) && v <= 0xFFFF_FFFF && v !in {6, 7, 25, 1049}
    ensures var n := Steps(k, s, Sequence(true, [v], SetOrReset(on) as int));
            n.look == s.look && n.front == s.front && Ready(k, n)
  {
    hide Steps, Sequence, LookOk, FrontOk, ReadingOk, AtGround, SetOrReset;
    OneMode(k, s, v, on);
  }

  /** The screen is blank and the cursor at (x, y). */
  ghost predicate Blanked(k: Screen, l: Look, x: nat, y: nat, blank: Cell) {
    && l.pen.x == x && l.pen.y == y && |l.pen.cells| == k.rows * k.cols
    && forall i | 0 <= i < |l.pen.cells| :: l.pen.cells[i] == blank
  }

  /** ?1049 set: cursor, attributes, origin mode and character sets are saved and the screen is blank. */
  lemma EntersAlternate(k: Screen, s: State)
    requires StateOk(k, s) && AtGround(s.reading)
    ensures var n, l, f := Steps(k, s, Sequence(true, [1049], 'h' as int)), s.look, s.front;
            && Blanked(k, n.look, 0, 0, Cell(0x20, l.fgDefault, l.bgDefault, l.fg, l.bg)) && Ready(k, n)
            && n.look == l.(pen := n.look.pen)
            && n.front == f.(saved := Saved(l.fg, l.bg, l.fgDefault, l.bgDefault, l.pen.x, l.pen.y,
                                            f.origin, f.charset, f.charsets))
  {
    hide Steps, Sequence, FrontOk, ReadingOk, AtGround;
    OneMode(k, s, 1049, true);
  }

  /** ?1049 reset: the screen is blank again, and cursor, attributes, origin mode and character sets as saved. */
  lemma LeavesAlternate(k: Screen, s: State)
    requires StateOk(k, s) && AtGround(s.reading)
    ensures var n, l, v := Steps(k, s, Sequence(true, [1049], 'l' as int)), s.look, s.front.saved;
            && Blanked(k, n.look, v.x, v.y, Cell(0x20, l.fgDefault, l.bgDefault, l.fg, l.bg)) && Ready(k, n)
            && n.look == l.(pen := n.look.pen, fg := v.fg, bg := v.bg, fgDefault := v.fgDefault,
                            bgDefault := v.bgDefault)
            && n.front == s.front.(origin := v.origin, charset := v.charset, charsets := v.charsets)
  {
    hide Steps, Sequence, FrontOk, ReadingOk, AtGround;
    OneMode(k, s, 1049, false);
  }
}
