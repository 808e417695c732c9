/** What code points and malformed bytes print, place by place. */
module TextLaws {
  import CsiParams
  import opened CsiSpec
  import opened ScreenLaws
  import opened ScreenOps
  import opened TermLaws
  import opened TermSpec
  import opened Utf8

  /** The scalar's bytes change only the screen, the cursor's column and what REP repeats. */
  ghost predicate Prints(s: State, n: State, x: nat) {
    && n.look == s.look.(pen := Pen(n.look.pen.cells, x, s.look.pen.y))
    && n.reading == s.reading.(decoder := n.reading.decoder) && n.reading.decoder.remaining == 0
  }

  // ----- Code points -----

  /** A code point the code page has prints its glyph at the cursor. */
  lemma PrintsFound(k: Screen, s: State, cp: nat)
    requires StateOk(k, s) && AtGround(s.reading) && IsScalar(cp) && cp >= 0x80 && s.look.pen.x < k.cols
    requires k.cp437(cp).Some?
    ensures var n, l, g := Steps(k, s, Encode(cp)), s.look, k.cp437(cp).value;
            && Prints(s, n, l.pen.x + 1) && n.front == s.front.(lastPrinted := g, graphic := true)
            && Lands(k, l, n.look, l.pen.y, l.pen.x, CellIn(l, g), if s.front.insert then 1 else 0)
  {
    hide Steps, LookOk, ReadingOk, Lands, Printed, Encode, CellIn;
    ScalarSteps(k, s, cp);
    StyleIs(s.look, 0);
    PrintedLands(k, s.look, Steps(k, s, Encode(cp)).look, s.front.insert, 1, k.cp437(cp).value);
  }

  lemma StyleIs(l: Look, c: nat)
    ensures l.Style(c) == CellIn(l, c)
  {
  }

  /** One of no width that the code page does not have changes nothing. */
  lemma PrintsNothing(k: Screen, s: State, cp: nat)
    requires StateOk(k, s) && AtGround(s.reading) && IsScalar(cp) && cp >= 0x80
    requires k.cp437(cp).None? && k.width(cp) <= 0
    ensures Prints(s, Steps(k, s, Encode(cp)), s.look.pen.x) && Steps(k, s, Encode(cp)).look == s.look
    ensures Steps(k, s, Encode(cp)).front == s.front
  {
    hide Steps, LookOk, ReadingOk, Encode;
    ScalarSteps(k, s, cp);
  }

  lemma {:induction false} BlanksHere(k: Screen, l: Look, m: nat)
    requires LookOk(k, l) && l.pen.x + m <= k.cols
    ensures 0 <= l.pen.y * k.cols
    ensures PrintedTimes(l.pen, ModesIn(k, l), false, CellIn(l, 0), 0x20, m) ==
            Pen(Fill(l.pen.cells, l.pen.y * k.cols + l.pen.x, l.pen.y * k.cols + l.pen.x + m, CellIn(l, 0x20)),
                l.pen.x + m, l.pen.y)
    decreases m
  {
    RowBounds(l.pen.y, k.rows, k.cols);
    var p := l.pen.y * k.cols + l.pen.x;
    if m == 0 {
      assert Fill(l.pen.cells, p, p, CellIn(l, 0x20)) == l.pen.cells;
    } else {
      BlanksHere(k, l, m - 1);
      var q := PrintedTimes(l.pen, ModesIn(k, l), false, CellIn(l, 0), 0x20, m - 1);
      hide Printed, OpenGap, CellIn;
      PutHere(k, l.(pen := q), false, 1, 0x20);
      NoneOpened(q.cells, p + m - 1, l.pen.y * k.cols + k.cols);
      SameStyle(l, q);
      assert SetAt(q.cells, p + m - 1, CellIn(l, 0x20)) == Fill(l.pen.cells, p, p + m, CellIn(l, 0x20));
    }
  }

  lemma SameStyle(l: Look, q: Pen)
    ensures CellIn(l.(pen := q), 0) == CellIn(l, 0) && CellIn(l.(pen := q), 0x20) == CellIn(l, 0x20)
  {
  }

  /** The replacement glyph and blanks over the rest of the width, before which the row makes room by a gap. */
  ghost predicate WideAt(k: Screen, l: Look, n: Look, y: int, x: int, w: int, gap: nat, r: int, c: int)
    requires LookOk(k, l) && LookOk(k, n) && 0 <= r < k.rows && 0 <= c < k.cols
  {
    At(k, n, r, c) == if r == y && c == x then CellIn(l, 0xFE)
                      else if r == y && x < c < x + w then CellIn(l, 0x20)
                      else if r == y && 0 <= x && x + gap <= c then At(k, l, r, c - gap)
                      else At(k, l, r, c)
  }

  ghost predicate Wide(k: Screen, l: Look, n: Look, y: int, x: int, w: int, gap: nat)
    requires LookOk(k, l) && LookOk(k, n)
  {
    forall r, c | 0 <= r < k.rows && 0 <= c < k.cols :: WideAt(k, l, n, y, x, w, gap, r, c)
  }

  lemma WideLands(k: Screen, l: Look, m: Look, n: Look, y: int, x: int, w: int, gap: nat)
    requires LookOk(k, l) && LookOk(k, m) && LookOk(k, n) && 0 <= x && 0 < w && x + w <= k.cols && gap <= w
    requires Lands(k, l, m, y, x, CellIn(l, 0xFE), gap) && 0 <= y && 0 <= y * k.cols
    requires n.pen.cells == Fill(m.pen.cells, y * k.cols + (x + 1), y * k.cols + (x + w), CellIn(l, 0x20))
    ensures Wide(k, l, n, y, x, w, gap)
  {
    hide Lands, LandsAt, LookOk, Fill, At;
    FilledRow(k, m, n, y, x + 1, x + w, CellIn(l, 0x20));
    forall r, c | 0 <= r < k.rows && 0 <= c < k.cols ensures WideAt(k, l, n, y, x, w, gap, r, c) {
      WideThere(k, l, m, n, y, x, w, gap, r, c);
    }
  }

  lemma WideThere(k: Screen, l: Look, m: Look, n: Look, y: int, x: int, w: int, gap: nat, r: int, c: int)
    requires LookOk(k, l) && LookOk(k, m) && LookOk(k, n) && 0 <= r < k.rows && 0 <= c < k.cols && 0 <= x && w > 0
    requires Lands(k, l, m, y, x, CellIn(l, 0xFE), gap) && RowBlanked(k, m, n, y, x + 1, x + w, CellIn(l, 0x20))
    ensures WideAt(k, l, n, y, x, w, gap, r, c)
  {
    hide At, LookOk, CellIn;
    assert LandsAt(k, l, m, y, x, CellIn(l, 0xFE), gap, r, c);
  }

  /** One with a width prints the replacement glyph and blanks over the rest of it, if that fits on the row. */
  lemma PrintsWide(k: Screen, s: State, cp: nat)
    requires StateOk(k, s) && AtGround(s.reading) && IsScalar(cp) && cp >= 0x80
    requires k.cp437(cp).None? && 0 < k.width(cp) && s.look.pen.x + k.width(cp) <= k.cols
    ensures var n, l, w := Steps(k, s, Encode(cp)), s.look, k.width(cp);
            && Prints(s, n, l.pen.x + w) && n.front == s.front.(lastPrinted := 0xFE, graphic := true)
            && Wide(k, l, n.look, l.pen.y, l.pen.x, w, if s.front.insert then w else 0)
  {
    hide Steps, LookOk, ReadingOk, Encode, WideIn, Wide;
    ScalarSteps(k, s, cp);
    WideWritten(k, s.look, s.front, k.width(cp));
  }

  lemma WideWritten(k: Screen, l: Look, f: Front, w: nat)
    requires LookOk(k, l) && w > 0 && l.pen.x + w <= k.cols
    ensures var n := WideIn(k, l, f, w);
            && n.pen.x == l.pen.x + w && n.pen.y == l.pen.y
            && Wide(k, l, n, l.pen.y, l.pen.x, w, if f.insert then w else 0)
  {
    hide Lands, Wide, Printed, PrintedTimes, CellIn, PenOk, Fill;
    var first, n := PrintedIn(k, l, f, w, REPLACEMENT), WideIn(k, l, f, w);
    StyleIs(l, 0);
    StyleIs(first, 0);
    PrintedLands(k, l, first, f.insert, w, REPLACEMENT);
    BlanksHere(k, first, w - 1);
    SameStyle(l, first.pen);
    WideLands(k, l, first, n, l.pen.y, l.pen.x, w, if f.insert then w else 0);
  }

  // ----- Malformed bytes -----

  /** A replacement glyph at the cursor. */
  ghost predicate Replaced(k: Screen, s: State, n: State)
    requires StateOk(k, s) && StateOk(k, n)
  {
    && Prints(s, n, s.look.pen.x + 1)
    && Lands(k, s.look, n.look, s.look.pen.y, s.look.pen.x, CellIn(s.look, 0xFE), if s.front.insert then 1 else 0)
  }

  lemma ReplacedLands(k: Screen, s: State, n: State)
    requires StateOk(k, s) && StateOk(k, n) && s.look.pen.x < k.cols
    requires n.look == PrintedIn(k, s.look, s.front, 1, REPLACEMENT)
    requires n.reading == s.reading.(decoder := n.reading.decoder) && n.reading.decoder.remaining == 0
    ensures Replaced(k, s, n)
  {
    hide LookOk, ReadingOk, FrontOk, Lands, Printed, CellIn;
    StyleIs(s.look, 0);
    PrintedLands(k, s.look, n.look, s.front.insert, 1, REPLACEMENT);
  }

  /** The state after a whole sequence began in s, the decoder being d and having reported at most one event. */
  ghost function Happened(k: Screen, s: State, d: Decoder, events: seq<Event>): State
    requires StateOk(k, s) && |events| <= 1
  {
    var t := s.(reading := s.reading.(decoder := d));
    if events == [] then t
    else match events[0]
      case Glyph(cp) => t.(look := CodePointIn(k, s.look, s.front, cp), front := CodePointFront(k, s.front, cp))
      case _ => t.(look := PrintedIn(k, s.look, s.front, 1, REPLACEMENT), front := Remembered(s.front, REPLACEMENT))
  }

  /** A continuation byte that reports something. */
  lemma ReportFed(k: Screen, s: State, d: Decoder, c: Octet, e: Event)
    requires StateOk(k, s) && AtGround(s.reading) && StateOk(k, Happened(k, s, d, [])) && d.remaining > 0
    requires IsContinuation(c) && Feed(d, c).1 == [e]
    ensures Step(k, Happened(k, s, d, []), c) == Happened(k, s, Feed(d, c).0, [e])
  {
    ReportShape(d, c, e);
    hide Feed, LookOk, FrontOk, CsiParams.Ok, PrintedIn, CodePointIn, CodePointFront, PlainControlStep;
  }

  lemma ReportShape(d: Decoder, c: Octet, e: Event)
    requires d.remaining > 0 && IsContinuation(c) && Feed(d, c).1 == [e]
    ensures c != CAN && c != SUB && !IsLead(c) && IsGraphic(c) && forall special :: GlyphFor(c, special) == REPLACEMENT
    ensures e == Plain(c) || e == Replacement || e.Glyph?
    ensures e == Plain(c) ==> Feed(d, c).0.remaining == 0
  {
    assert forall special :: GlyphFor(c, special) == REPLACEMENT by { DrawingOf(c as char); }
  }

  lemma Counted(d: Decoder, c: Octet)
    requires d.remaining > 0 && IsContinuation(c)
    ensures Feed(d, c).0.remaining == d.remaining - 1 && c != CAN && c != SUB
  {
  }

  lemma NextFed(k: Screen, s: State, d: Decoder, events: seq<Event>, c: Octet)
    requires StateOk(k, s) && AtGround(s.reading) && |events + Feed(d, c).1| <= 1
    requires d.remaining > 0 && IsContinuation(c) && StateOk(k, Happened(k, s, d, events))
    ensures Step(k, Happened(k, s, d, events), c) == Happened(k, s, Feed(d, c).0, events + Feed(d, c).1)
  {
    Counted(d, c);
    hide Feed, LookOk, FrontOk, CsiParams.Ok, PrintedIn, CodePointIn, CodePointFront, Step;
    if Feed(d, c).1 == [] {
      TextFed(k, Happened(k, s, d, events), c);
      assert events + [] == events;
    } else {
      var e := Feed(d, c).1[0];
      assert Feed(d, c).1 == [e] && events == [] && [] + [e] == [e];
      ReportFed(k, s, d, c, e);
    }
  }

  lemma LeadFed(k: Screen, s: State, a: Octet)
    requires StateOk(k, s) && AtGround(s.reading) && IsLead(a)
    ensures FeedAll(GROUND, [a]) == (Start(a), []) && Steps(k, s, [a]) == Happened(k, s, Start(a), [])
  {
    FreshFed(s.reading.decoder, a);
    assert [a][1..] == [];
    hide Steps, Step, LookOk, FrontOk, CsiParams.Ok, FeedAll;
    Unrolled(GROUND, [a]);
    OneStep(k, s, a);
    TextFed(k, s, a);
  }

  /** At most one event is reported within a whole sequence. */
  lemma PrefixReports(b: seq<Octet>, i: nat)
    requires IsWhole(b) && i <= |b|
    ensures |FeedAll(GROUND, b[..i]).1| <= 1
  {
    hide FeedAll, Feed, IsWhole, Value;
    WholeSequence(b);
    FeedAllAppend(GROUND, b[..i], b[i..]);
    assert b == b[..i] + b[i..];
  }

  lemma {:induction false} PrefixHappens(k: Screen, s: State, b: seq<Octet>, i: nat)
    requires StateOk(k, s) && AtGround(s.reading) && IsWhole(b) && 1 <= i <= |b|
    ensures |FeedAll(GROUND, b[..i]).1| <= 1 && FeedAll(GROUND, b[..i]).0.remaining == |b| - i
    ensures Steps(k, s, b[..i]) == Happened(k, s, FeedAll(GROUND, b[..i]).0, FeedAll(GROUND, b[..i]).1)
    decreases i
  {
    hide Steps, Step, StateOk, AtGround, FeedAll, Feed, Happened;
    PrefixReports(b, i);
    if i == 1 {
      assert b[..1] == [b[0]];
      LeadFed(k, s, b[0]);
    } else {
      var n := i - 1;
      PrefixHappens(k, s, b, n);
      var f := FeedAll(GROUND, b[..n]);
      assert b[..i] == b[..n] + [b[n]];
      Continued(b[..n], b[n], f.0, f.1);
      Counted(f.0, b[n]);
      StepsAppend(k, s, b[..n], [b[n]]);
      OneStep(k, Steps(k, s, b[..n]), b[n]);
      NextFed(k, s, f.0, f.1, b[n]);
    }
  }

  /** A whole sequence does what its one report says. */
  lemma WholeSteps(k: Screen, s: State, b: seq<Octet>)
    requires StateOk(k, s) && AtGround(s.reading) && IsWhole(b)
    ensures Steps(k, s, b) == Happened(k, s, FeedAll(GROUND, b).0, Report(Value(b), b))
    ensures FeedAll(GROUND, b).0.remaining == 0
  {
    hide Steps, Step, StateOk, AtGround, FeedAll, Feed, Happened, Value, Report;
    PrefixHappens(k, s, b, |b|);
    assert b[..|b|] == b;
    WholeSequence(b);
  }

  /**
   A whole sequence that is overlong or spells a surrogate prints one replacement glyph, which REP repeats; one above
   0x10FFFF prints nothing at all.
   */
  lemma Malformed(k: Screen, s: State, b: seq<Octet>)
    requires StateOk(k, s) && AtGround(s.reading) && IsWhole(b) && s.look.pen.x < k.cols
    requires Value(b) < (if |b| == 3 then 0x800 else if |b| == 4 then 0x1_0000 else 0x80) || !IsScalar(Value(b))
    ensures var n := Steps(k, s, b);
            if Value(b) > 0x10FFFF then n.look == s.look && n.front == s.front && AtGround(n.reading)
            else Replaced(k, s, n) && n.front == s.front.(lastPrinted := 0xFE, graphic := true)
  {
    WholeLength(b);
    hide Steps, Step, FeedAll, Feed, Value, LookOk, FrontOk, IsWhole, Replaced, PrintedIn;
    WholeSteps(k, s, b);
    if Value(b) <= 0x10FFFF { ReplacedLands(k, s, Steps(k, s, b)); }
  }

  lemma WholeLength(b: seq<Octet>)
    requires IsWhole(b)
    ensures 2 <= |b| <= 4
  {
  }

  /** A byte that begins nothing prints a replacement glyph, which REP repeats. */
  lemma StrayByte(k: Screen, s: State, c: Octet)
    requires StateOk(k, s) && AtGround(s.reading) && s.look.pen.x < k.cols && (0x80 <= c <= 0xC1 || 0xF5 <= c)
    ensures Replaced(k, s, Steps(k, s, [c]))
    ensures Steps(k, s, [c]).front == s.front.(lastPrinted := 0xFE, graphic := true)
  {
    OneStep(k, s, c);
    StrayFed(k, s, c);
    hide Steps, Step, LookOk, FrontOk, ReadingOk, Replaced, PrintedIn;
    ReplacedLands(k, s, Steps(k, s, [c]));
  }

  lemma StrayFed(k: Screen, s: State, c: Octet)
    requires StateOk(k, s) && AtGround(s.reading) && (0x80 <= c <= 0xC1 || 0xF5 <= c)
    ensures Step(k, s, c) == Rested(s).(look := PrintedIn(k, s.look, s.front, 1, REPLACEMENT),
                                        front := Remembered(s.front, REPLACEMENT))
  {
    FreshFed(s.reading.decoder, c);
    assert Feed(GROUND, c) == (GROUND, [Plain(c)]) && IsGraphic(c) && !IsLead(c);
    StrayGlyph(c);
    hide Feed, LookOk, FrontOk, CsiParams.Ok, PrintedIn, GlyphFor;
  }

  lemma StrayGlyph(c: Octet)
    requires c >= 0x80
    ensures GlyphFor(c, true) == REPLACEMENT && GlyphFor(c, false) == REPLACEMENT
  {
    DrawingOf(c as char);
  }

  lemma CutFed(k: Screen, s: State, a: Octet, c: Octet)
    requires StateOk(k, s) && AtGround(s.reading) && IsLead(a) && !IsContinuation(c) && c != CAN && c != SUB
    ensures StateOk(k, Happened(k, s, Start(a), []))
    ensures var t := s.(look := PrintedIn(k, s.look, s.front, 1, REPLACEMENT));
            StateOk(k, t) && Step(k, Happened(k, s, Start(a), []), c) == Step(k, t, c)
  {
    LeadFed(k, s, a);
    CutFeed(a, c);
    FreshFed(s.reading.decoder, c);
    hide Feed, LookOk, FrontOk, CsiParams.Ok, PrintedIn, PlainStep, Fresh, Steps, Start, IsLead;
  }

  lemma CutFeed(a: Octet, c: Octet)
    requires IsLead(a) && !IsContinuation(c)
    ensures Feed(Start(a), c) == (Feed(GROUND, c).0, [Replacement] + Feed(GROUND, c).1)
    ensures Feed(GROUND, c).1 == if IsLead(c) then [] else [Plain(c)]
  {
  }

  /** A sequence cut short after its lead byte prints a replacement glyph that REP does not repeat, before the byte. */
  lemma CutShort(k: Screen, s: State, a: Octet, c: Octet, rest: seq<Octet>) returns (t: State)
    requires StateOk(k, s) && AtGround(s.reading) && s.look.pen.x < k.cols
    requires IsLead(a) && !IsContinuation(c) && c != CAN && c != SUB
    ensures StateOk(k, t) && Replaced(k, s, t) && t.front == s.front
    ensures Steps(k, s, [a, c] + rest) == Steps(k, t, [c] + rest)
  {
    hide Steps, Step, LookOk, FrontOk, Replaced, PrintedIn, Happened, IsLead, IsContinuation;
    t := s.(look := PrintedIn(k, s.look, s.front, 1, REPLACEMENT));
    CutFed(k, s, a, c);
    ReplacedLands(k, s, t);
    LeadFed(k, s, a);
    OneStep(k, s, a);
    TwoSteps(k, s, a, c);
    OneStep(k, t, c);
    StepsAppend(k, s, [a, c], rest);
    StepsAppend(k, t, [c], rest);
  }

  // ----- A character set that is not chosen after all -----

  lemma LeadUnselects(k: Screen, s: State, g: nat, a: Octet)
    requires StateOk(k, s) && AtGround(s.reading) && g <= 2 && IsLead(a)
    ensures StateOk(k, Selecting(s, g)) && StateOk(k, Selecting(s, 0)) && AtGround(Selecting(s, 0).reading)
    ensures Step(k, Selecting(s, g), a) == Step(k, Selecting(s, 0), a)
  {
    SelectingOk(k, s, g);
    SelectingOk(k, s, 0);
    hide LookOk, FrontOk, CsiParams.Ok, PlainStep;
  }

  lemma UnselectedSteps(k: Screen, s: State, c: Octet, b: seq<Octet>)
    requires StateOk(k, s) && AtGround(s.reading) && c as char in {'(', ')'} && b != [] && IsLead(b[0])
    ensures StateOk(k, Selecting(s, 0)) && AtGround(Selecting(s, 0).reading)
    ensures Steps(k, s, [ESC, c] + b) == Steps(k, Selecting(s, 0), b)
  {
    hide *;
    var g, t := if c as char == '(' then 1 else 2, Selecting(s, 0);
    SelectFed(k, s, c);
    LeadUnselects(k, s, g, b[0]);
    StepsAppend(k, s, [ESC, c], b);
    assert b == [b[0]] + b[1..];
    StepsAppend(k, Selecting(s, g), [b[0]], b[1..]);
    StepsAppend(k, t, [b[0]], b[1..]);
    OneStep(k, Selecting(s, g), b[0]);
    OneStep(k, t, b[0]);
  }

  lemma SelectingSame(k: Screen, s: State, cp: nat)
    requires StateOk(k, s) && StateOk(k, Selecting(s, 0)) && AtGround(s.reading) && cp >= 0x80 && IsScalar(cp)
    ensures var n, m := ScalarState(k, Selecting(s, 0), cp), ScalarState(k, s, cp);
            n.look == m.look && n.front == m.front && AtGround(n.reading)
  {
    hide LookOk, FrontOk, ReadingOk, CodePointIn, CodePointFront;
  }

  /** A code point of several bytes after ESC ( or ESC ) is printed as always, and no set is changed. */
  lemma SelectionDropped(k: Screen, s: State, c: Octet, cp: nat)
    requires StateOk(k, s) && AtGround(s.reading) && c as char in {'(', ')'} && IsScalar(cp) && cp >= 0x80
    ensures var n, m := Steps(k, s, [ESC, c] + Encode(cp)), Steps(k, s, Encode(cp));
            n.look == m.look && n.front == m.front && AtGround(n.reading)
  {
    hide Steps, StateOk, AtGround, Encode, ScalarState, IsLead, Selecting;
    LeadOf(cp);
    UnselectedSteps(k, s, c, Encode(cp));
    ScalarSteps(k, Selecting(s, 0), cp);
    ScalarSteps(k, s, cp);
    SelectingSame(k, s, cp);
  }

  lemma LeadOf(cp: nat)
    requires 0x80 <= cp && IsScalar(cp)
    ensures IsLead(Encode(cp)[0])
  {
  }
}
