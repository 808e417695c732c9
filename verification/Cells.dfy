/** Character cells and the queued-cell cache over them: which cell a screen position currently holds. */
module Cells {
  import opened Common

  datatype Cell = Cell(c: nat, fgDefault: bool, bgDefault: bool, fg: nat, bg: nat)

  /** Cells the renderer cannot tell apart: a defaulted colour's stored value does not matter. */
  predicate Alike(a: Cell, b: Cell) {
    && a.c == b.c
    && a.fgDefault == b.fgDefault && a.bgDefault == b.bgDefault
    && (a.fgDefault || a.fg == b.fg)
    && (a.bgDefault || a.bg == b.bg)
  }

  /** The cell with foreground and background exchanged, as the cursor shows it. */
  function Inverted(a: Cell): Cell {
    Cell(a.c, a.bgDefault, a.fgDefault, a.bg, a.fg)
  }

  /** The pixels of a glyph in one colour, the others in another. */
  datatype Painted = Painted(glyph: nat, ink: nat, paper: nat)

  /** What a cell looks like, drawn over a canvas or default background of the given colour. */
  function Paint(a: Cell, under: nat): Painted {
    Painted(a.c, if a.fgDefault then under else a.fg, if a.bgDefault then under else a.bg)
  }

  /** Foreground and background exchanged. */
  function Exchanged(p: Painted): Painted { Painted(p.glyph, p.paper, p.ink) }

  /** Cells are alike exactly if they look the same over every background. */
  lemma AlikeIff(a: Cell, b: Cell)
    ensures Alike(a, b) <==> forall under: nat :: Paint(a, under) == Paint(b, under)
  {
    if forall under: nat :: Paint(a, under) == Paint(b, under) {
      assert Paint(a, 0) == Paint(b, 0);
      assert Paint(a, a.fg + 1) == Paint(b, a.fg + 1) && Paint(a, b.fg + 1) == Paint(b, b.fg + 1);
      assert Paint(a, a.bg + 1) == Paint(b, a.bg + 1) && Paint(a, b.bg + 1) == Paint(b, b.bg + 1);
    }
  }

  /** The cursor's cell looks like the one under it with its colours exchanged. */
  lemma InvertedPaints(a: Cell, under: nat)
    ensures Paint(Inverted(a), under) == Exchanged(Paint(a, under))
  {
  }

  /** A pending cell and where it goes. */
  datatype Item = Item(x: nat, y: nat, c: Cell)

  const NULL: int := -1

  /** The cell a position holds: its pending one if there is one, else the last one drawn. */
  function CellAt(grid: seq<Cell>, queue: seq<Item>, mp: seq<int>, i: nat): Cell
    requires i < |grid| && i < |mp| && (mp[i] == NULL || 0 <= mp[i] < |queue|)
  {
    if mp[i] != NULL then queue[mp[i]].c else grid[i]
  }

  /** Pending entries and non-null map entries are the same thing: each points at the other. */
  ghost predicate Coherent(queue: seq<Item>, queued: nat, mp: seq<int>, cols: nat, n: nat) {
    && |queue| == n && |mp| == n && queued <= n
    && (forall i | 0 <= i < n && mp[i] != NULL :: 0 <= mp[i] < queued && Offset(queue[mp[i]], cols) == i)
    && (forall j | 0 <= j < queued ::
          queue[j].x < cols && Offset(queue[j], cols) < n && mp[Offset(queue[j], cols)] == j)
  }

  function Offset(q: Item, cols: nat): nat {
    q.y * cols + q.x
  }

  /** A position with no pending cell leaves room in the queue: pending positions are distinct. */
  lemma QueueHasRoom(queue: seq<Item>, queued: nat, mp: seq<int>, cols: nat, n: nat, i: nat)
    requires Coherent(queue, queued, mp, cols, n) && i < n && mp[i] == NULL
    ensures queued < n
  {
    var offsets: seq<nat> := seq(queued, j requires 0 <= j < queued && queued <= |queue| => Offset(queue[j], cols));
    RangeSize(0, n);
    forall j | 0 <= j < queued ensures offsets[j] in Range(0, n) - {i} {
      assert mp[Offset(queue[j], cols)] == j;
    }
    Pigeonhole(offsets, Range(0, n) - {i});
    assert |Range(0, n) - {i}| == n - 1;
  }

  /** The number of pending entries is the number of positions that have one. */
  lemma QueueCountsPending(queue: seq<Item>, queued: nat, mp: seq<int>, cols: nat, n: nat)
    requires Coherent(queue, queued, mp, cols, n)
    ensures queued == |set i: nat | i < n && mp[i] != NULL|
  {
    var pending := set i: nat | i < n && mp[i] != NULL;
    var offsets: seq<nat> := seq(queued, j requires 0 <= j < queued && queued <= |queue| => Offset(queue[j], cols));
    forall j | 0 <= j < queued ensures offsets[j] in pending {
      assert mp[Offset(queue[j], cols)] == j;
    }
    Pigeonhole(offsets, pending);
    forall i | i in pending ensures i in offsets {
      assert offsets[mp[i]] == i;
    }
    CoveredSize(offsets, pending);
  }

  lemma {:induction false} CoveredSize(f: seq<nat>, values: set<nat>)
    requires forall x | x in values :: x in f
    ensures |values| <= |f|
    decreases |f|
  {
    if f == [] {
      assert values == {};
    } else {
      var last := f[|f| - 1];
      assert f == f[..|f| - 1] + [last];
      CoveredSize(f[..|f| - 1], values - {last});
    }
  }

  // ----- The cache refines a plain screen -----

  /** Position by position, the cache holds what the plain screen holds. */
  ghost predicate Holds(grid: seq<Cell>, queue: seq<Item>, queued: nat, mp: seq<int>, cols: nat, ideal: seq<Cell>) {
    && |grid| == |ideal| && Coherent(queue, queued, mp, cols, |ideal|)
    && forall i: nat | i < |ideal| :: Alike(CellAt(grid, queue, mp, i), ideal[i])
  }

  lemma PositionInRange(x: nat, y: nat, cols: nat, rows: nat)
    requires x < cols && y < rows
    ensures y * cols + x < rows * cols
  {
    assert (y + 1) * cols <= rows * cols;
  }

  lemma PositionUnique(x: nat, y: nat, x': nat, y': nat, cols: nat)
    requires x < cols && x' < cols && y * cols + x == y' * cols + x'
    ensures x == x' && y == y'
  {
    assert y < y' ==> (y + 1) * cols <= y' * cols;
    assert y' < y ==> (y' + 1) * cols <= y * cols;
  }

  /** A cell like the one drawn needs no pending entry. */
  lemma PushUnchanged(grid: seq<Cell>, queue: seq<Item>, queued: nat, mp: seq<int>, cols: nat, ideal: seq<Cell>, i: nat,
                      c: Cell)
    requires Holds(grid, queue, queued, mp, cols, ideal) && i < |ideal| && mp[i] == NULL && Alike(grid[i], c)
    ensures Holds(grid, queue, queued, mp, cols, ideal[i := c])
  {
  }

  lemma PushPending(grid: seq<Cell>, queue: seq<Item>, queued: nat, mp: seq<int>, cols: nat, ideal: seq<Cell>, i: nat,
                    c: Cell)
    requires Holds(grid, queue, queued, mp, cols, ideal) && i < |ideal| && mp[i] != NULL
    ensures Holds(grid, queue[mp[i] := queue[mp[i]].(c := c)], queued, mp, cols, ideal[i := c])
  {
  }

  lemma PushNew(grid: seq<Cell>, queue: seq<Item>, queued: nat, mp: seq<int>, cols: nat, ideal: seq<Cell>, i: nat,
                q: Item)
    requires Holds(grid, queue, queued, mp, cols, ideal) && i < |ideal| && mp[i] == NULL && queued < |ideal|
    requires q.x < cols && Offset(q, cols) == i
    ensures Holds(grid, queue[queued := q], queued + 1, mp[i := queued], cols, ideal[i := q.c])
  {
    hide Offset;
    var queue', mp' := queue[queued := q], mp[i := queued];
    forall j | 0 <= j < queued + 1
      ensures queue'[j].x < cols && Offset(queue'[j], cols) < |ideal| && mp'[Offset(queue'[j], cols)] == j
    {
    }
  }

  /** Queue, count and map after item q is queued for position i. */
  function Pushed(grid: seq<Cell>, queue: seq<Item>, queued: nat, mp: seq<int>, i: nat, q: Item):
    (r: (seq<Item>, nat, seq<int>))
    requires i < |grid| == |queue| == |mp| && (mp[i] == NULL || 0 <= mp[i] < |queue|)
  {
    if mp[i] != NULL then (queue[mp[i] := queue[mp[i]].(c := q.c)], queued, mp)
    else if Alike(grid[i], q.c) || queued >= |queue| then (queue, queued, mp)
    else (queue[queued := q], queued + 1, mp[i := queued])
  }

  lemma PushedHolds(grid: seq<Cell>, queue: seq<Item>, queued: nat, mp: seq<int>, cols: nat, ideal: seq<Cell>, i: nat,
                    q: Item)
    requires Holds(grid, queue, queued, mp, cols, ideal) && i < |ideal| && q.x < cols && Offset(q, cols) == i
    ensures |grid| == |queue| == |mp| == |ideal| && (mp[i] == NULL || 0 <= mp[i] < |queue|)
    ensures var (queue', queued', mp') := Pushed(grid, queue, queued, mp, i, q);
            Holds(grid, queue', queued', mp', cols, ideal[i := q.c])
  {
    PendingInRange(grid, queue, queued, mp, cols, ideal);
    hide Offset;
    if mp[i] != NULL {
      PushPending(grid, queue, queued, mp, cols, ideal, i, q.c);
    } else if Alike(grid[i], q.c) {
      PushUnchanged(grid, queue, queued, mp, cols, ideal, i, q.c);
    } else {
      QueueHasRoom(queue, queued, mp, cols, |ideal|, i);
      PushNew(grid, queue, queued, mp, cols, ideal, i, q);
    }
  }

  /** The plain screen may as well hold any cell like the one it holds. */
  lemma AlikeReplaced(grid: seq<Cell>, queue: seq<Item>, queued: nat, mp: seq<int>, cols: nat, ideal: seq<Cell>, j: nat,
                      c: Cell)
    requires Holds(grid, queue, queued, mp, cols, ideal) && j < |ideal| && Alike(ideal[j], c)
    ensures Holds(grid, queue, queued, mp, cols, ideal[j := c])
  {
  }

  // ----- Flushing -----

  ghost function Screen(grid: seq<Cell>, queue: seq<Item>, queued: nat, mp: seq<int>, cols: nat,
                        ideal: seq<Cell>): (now: seq<Cell>)
    requires Holds(grid, queue, queued, mp, cols, ideal)
    ensures |now| == |ideal| && forall i: nat | i < |ideal| :: now[i] == CellAt(grid, queue, mp, i)
  {
    seq(|ideal|, i requires 0 <= i < |ideal| && Holds(grid, queue, queued, mp, cols, ideal) =>
        CellAt(grid, queue, mp, i))
  }

  /**
   In the middle of a flush of the screen now: items before done are settled, the cell drawn shows
   the cursor, and away from it and from the old cursor the display shows the drawn cells.
   */
  ghost predicate Flushing(grid: seq<Cell>, queue: seq<Item>, queued: nat, mp: seq<int>, shown: seq<Cell>, cols: nat,
                           now: seq<Cell>, done: nat, drawn: int, last: int)
  {
    var n := |now|;
    && |grid| == n && |queue| == n && |mp| == n && |shown| == n && done <= queued <= n
    && (forall p | 0 <= p < n && mp[p] != NULL :: done <= mp[p] < queued && Offset(queue[mp[p]], cols) == p)
    && (forall p | 0 <= p < n :: now[p] == if mp[p] != NULL then queue[mp[p]].c else grid[p])
    && (forall j | 0 <= j < queued :: Offset(queue[j], cols) < n)
    && (forall j | done <= j < queued :: mp[Offset(queue[j], cols)] == j || mp[Offset(queue[j], cols)] == NULL)
    && (0 <= drawn < n ==> mp[drawn] == NULL && shown[drawn] == Inverted(now[drawn]))
    && (forall p | 0 <= p < n && p != drawn && p != last :: shown[p] == grid[p])
  }

  lemma FlushStarts(grid: seq<Cell>, queue: seq<Item>, queued: nat, mp: seq<int>, shown: seq<Cell>, cols: nat,
                    ideal: seq<Cell>, last: int)
    requires Holds(grid, queue, queued, mp, cols, ideal) && |shown| == |ideal|
    requires forall p | 0 <= p < |ideal| && p != last :: shown[p] == grid[p]
    ensures Flushing(grid, queue, queued, mp, shown, cols, Screen(grid, queue, queued, mp, cols, ideal), 0, NULL, last)
  {
  }

  /** Drawing the cursor's cell inverted and settling its pending entry. */
  lemma FlushDrawsCursor(grid: seq<Cell>, queue: seq<Item>, queued: nat, mp: seq<int>, shown: seq<Cell>, cols: nat,
                         now: seq<Cell>, last: int, i: nat)
    requires Flushing(grid, queue, queued, mp, shown, cols, now, 0, NULL, last) && i < |now|
    ensures |grid| == |mp| == |shown| == |now| && (mp[i] != NULL ==> 0 <= mp[i] < |queue|)
    ensures now[i] == if mp[i] != NULL then queue[mp[i]].c else grid[i]
    ensures Flushing(grid[i := now[i]], queue, queued, mp[i := NULL],
                     shown[i := Inverted(now[i])], cols, now, 0, i, last)
  {
    hide Offset;
  }

  /** Settling the next item: drawn if its position still points at it, skipped if not. */
  lemma FlushSettlesItem(grid: seq<Cell>, queue: seq<Item>, queued: nat, mp: seq<int>, shown: seq<Cell>, cols: nat,
                         now: seq<Cell>, done: nat, drawn: int, last: int)
    requires Flushing(grid, queue, queued, mp, shown, cols, now, done, drawn, last) && done < queued
    ensures var o := Offset(queue[done], cols);
            && o < |mp|
            && (mp[o] == NULL ==> Flushing(grid, queue, queued, mp, shown, cols, now, done + 1, drawn, last))
            && (mp[o] != NULL ==>
                  Flushing(grid[o := queue[done].c], queue, queued, mp[o := NULL], shown[o := queue[done].c],
                           cols, now, done + 1, drawn, last))
  {
    hide Offset;
    var o := Offset(queue[done], cols);
    assert mp[o] == done || mp[o] == NULL;
    forall p | 0 <= p < |now| && mp[p] == done ensures p == o {
      assert Offset(queue[mp[p]], cols) == p;
    }
  }

  /** Map entries and queued items name positions and items there are. */
  ghost predicate Ranged(queue: seq<Item>, queued: nat, mp: seq<int>, cols: nat) {
    && |queue| == |mp| && queued <= |queue|
    && (forall i | 0 <= i < |mp| && mp[i] != NULL :: 0 <= mp[i] < |queue|)
    && (forall j | 0 <= j < queued :: Offset(queue[j], cols) < |mp|)
  }

  lemma HoldsRanged(grid: seq<Cell>, queue: seq<Item>, queued: nat, mp: seq<int>, cols: nat, ideal: seq<Cell>)
    requires Holds(grid, queue, queued, mp, cols, ideal)
    ensures |grid| == |queue| && Ranged(queue, queued, mp, cols)
  {
    hide Offset;
  }

  /** Grid, map and display after the cell at position i is drawn inverted; nothing changes for none. */
  function Drawn(grid: seq<Cell>, queue: seq<Item>, mp: seq<int>, shown: seq<Cell>, i: int):
    (r: (seq<Cell>, seq<int>, seq<Cell>))
    requires |grid| == |mp| == |shown| && (i == NULL || 0 <= i < |grid|)
    requires i == NULL || mp[i] == NULL || 0 <= mp[i] < |queue|
    ensures |r.0| == |r.1| == |r.2| == |grid|
  {
    if i == NULL then (grid, mp, shown)
    else var c := CellAt(grid, queue, mp, i); (grid[i := c], mp[i := NULL], shown[i := Inverted(c)])
  }

  /** Grid, map and display after the items from done on are drawn, where their position has an entry. */
  function Settled(grid: seq<Cell>, queue: seq<Item>, queued: nat, mp: seq<int>, shown: seq<Cell>, cols: nat,
                   done: nat): (r: (seq<Cell>, seq<int>, seq<Cell>))
    requires |grid| == |mp| == |shown| && Ranged(queue, queued, mp, cols)
    ensures |r.0| == |r.1| == |r.2| == |grid|
    decreases queued - done
  {
    if done >= queued then (grid, mp, shown)
    else
      var o := Offset(queue[done], cols);
      if mp[o] == NULL then Settled(grid, queue, queued, mp, shown, cols, done + 1)
      else
        var c := queue[done].c;
        Settled(grid[o := c], queue, queued, mp[o := NULL], shown[o := c], cols, done + 1)
  }

  lemma {:induction false} SettledFlushes(grid: seq<Cell>, queue: seq<Item>, queued: nat, mp: seq<int>,
                                          shown: seq<Cell>, cols: nat, now: seq<Cell>, done: nat, drawn: int, last: int)
    requires Flushing(grid, queue, queued, mp, shown, cols, now, done, drawn, last) && Ranged(queue, queued, mp, cols)
    ensures |grid| == |mp| == |shown|
    ensures var (g, m, s) := Settled(grid, queue, queued, mp, shown, cols, done);
            Flushing(g, queue, queued, m, s, cols, now, queued, drawn, last)
    decreases queued - done
  {
    hide Offset;
    if done < queued {
      FlushSettlesItem(grid, queue, queued, mp, shown, cols, now, done, drawn, last);
      hide Flushing;
      var o := Offset(queue[done], cols);
      if mp[o] == NULL {
        SettledFlushes(grid, queue, queued, mp, shown, cols, now, done + 1, drawn, last);
      } else {
        var c := queue[done].c;
        SettledFlushes(grid[o := c], queue, queued, mp[o := NULL], shown[o := c], cols, now, done + 1, drawn, last);
      }
    }
  }

  /** A flush with the cursor at position i leaves nothing pending, and only position last may be out of date. */
  ghost predicate FlushesTo(grid: seq<Cell>, queue: seq<Item>, queued: nat, mp: seq<int>, shown: seq<Cell>, cols: nat,
                            ideal: seq<Cell>, i: int, last: int)
  {
    && |grid| == |mp| == |shown| == |ideal| && Ranged(queue, queued, mp, cols) && (i == NULL || 0 <= i < |ideal|)
    && var (g, m, s) := Drawn(grid, queue, mp, shown, i);
       && Ranged(queue, queued, m, cols)
       && var (g, m, s) := Settled(g, queue, queued, m, s, cols, 0);
          && Holds(g, queue, 0, m, cols, ideal)
          && (0 <= i < |ideal| ==> s[i] == Inverted(g[i]))
          && (forall p | 0 <= p < |ideal| && p != i && p != last :: s[p] == g[p])
  }

  lemma FlushShows(grid: seq<Cell>, queue: seq<Item>, queued: nat, mp: seq<int>, shown: seq<Cell>, cols: nat,
                   ideal: seq<Cell>, i: int, last: int)
    requires Holds(grid, queue, queued, mp, cols, ideal) && |shown| == |ideal| && (i == NULL || 0 <= i < |ideal|)
    requires forall p | 0 <= p < |ideal| && p != last :: shown[p] == grid[p]
    ensures FlushesTo(grid, queue, queued, mp, shown, cols, ideal, i, last)
  {
    HoldsRanged(grid, queue, queued, mp, cols, ideal);
    var now := Screen(grid, queue, queued, mp, cols, ideal);
    FlushStarts(grid, queue, queued, mp, shown, cols, ideal, last);
    if i != NULL { FlushDrawsCursor(grid, queue, queued, mp, shown, cols, now, last, i); }
    var (g, m, s) := Drawn(grid, queue, mp, shown, i);
    SettledFlushes(g, queue, queued, m, s, cols, now, 0, i, last);
    var (g', m', s') := Settled(g, queue, queued, m, s, cols, 0);
    FlushEnds(g', queue, queued, m', s', cols, now, i, last);
    FlushedHolds(grid, queue, queued, mp, cols, ideal, m');
    ShownAfter(g', queue, queued, m', s', cols, now, i, last);
  }

  /** With every item settled the drawn cells are the flushed screen, and nothing is pending. */
  lemma FlushEnds(grid: seq<Cell>, queue: seq<Item>, queued: nat, mp: seq<int>, shown: seq<Cell>, cols: nat,
                  now: seq<Cell>, drawn: int, last: int)
    requires Flushing(grid, queue, queued, mp, shown, cols, now, queued, drawn, last)
    ensures grid == now && forall p | 0 <= p < |now| :: mp[p] == NULL
  {
  }

  /** An emptied queue holds the plain screen, and cells drawn from it look like it. */
  lemma FlushedHolds(grid: seq<Cell>, queue: seq<Item>, queued: nat, mp: seq<int>, cols: nat, ideal: seq<Cell>,
                     mp': seq<int>)
    requires Holds(grid, queue, queued, mp, cols, ideal) && |mp'| == |ideal| && forall p | 0 <= p < |mp'| ::
                                                                                  mp'[p] == NULL
    ensures Holds(Screen(grid, queue, queued, mp, cols, ideal), queue, 0, mp', cols, ideal)
  {
  }

  lemma ShownAfter(grid: seq<Cell>, queue: seq<Item>, queued: nat, mp: seq<int>, shown: seq<Cell>, cols: nat,
                   now: seq<Cell>, drawn: int, last: int)
    requires Flushing(grid, queue, queued, mp, shown, cols, now, queued, drawn, last)
    ensures |shown| == |grid| == |now|
    ensures 0 <= drawn < |now| ==> shown[drawn] == Inverted(now[drawn])
    ensures forall p | 0 <= p < |now| && p != drawn && p != last :: shown[p] == grid[p]
  {
  }

  /** Dropping a map entry without its queue item leaves the two out of step. */
  lemma DroppedEntry(grid: seq<Cell>, queue: seq<Item>, queued: nat, mp: seq<int>, cols: nat, ideal: seq<Cell>, i: nat,
                     grid': seq<Cell>)
    requires Holds(grid, queue, queued, mp, cols, ideal) && i < |ideal| && mp[i] != NULL
    ensures !Holds(grid', queue, queued, mp[i := NULL], cols, ideal)
  {
    var j := mp[i];
    assert Offset(queue[j], cols) == i && mp[i := NULL][i] != j;
  }

  lemma NoneQueued(grid: seq<Cell>, queue: seq<Item>, mp: seq<int>, cols: nat, ideal: seq<Cell>)
    requires |grid| == |queue| == |mp| == |ideal|
    requires forall i: nat | i < |ideal| :: mp[i] == NULL && Alike(grid[i], ideal[i])
    ensures Holds(grid, queue, 0, mp, cols, ideal)
  {
  }

  lemma NothingPending(grid: seq<Cell>, queue: seq<Item>, mp: seq<int>, cols: nat, ideal: seq<Cell>)
    requires Holds(grid, queue, 0, mp, cols, ideal)
    ensures forall i: nat | i < |ideal| :: mp[i] == NULL && Alike(grid[i], ideal[i])
  {
    forall i: nat | i < |ideal| ensures mp[i] == NULL && Alike(grid[i], ideal[i]) {
      assert Alike(CellAt(grid, queue, mp, i), ideal[i]);
    }
  }

  lemma PendingInRange(grid: seq<Cell>, queue: seq<Item>, queued: nat, mp: seq<int>, cols: nat, ideal: seq<Cell>)
    requires Holds(grid, queue, queued, mp, cols, ideal)
    ensures |mp| == |queue| == |ideal| && forall i: nat | i < |mp| && mp[i] != NULL :: 0 <= mp[i] < |queue|
  {
  }
}
