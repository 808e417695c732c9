/**
 What one byte does to the terminal, as a function: the parser's state and a plain screen, on which every
 operation takes effect at once.
 */
module TermSpec {
  import opened Cells
  import opened Common
  import opened CsiParams
  import opened CsiSpec
  import opened ScreenOps
  import opened Utf8

  const OSC_SIZE: nat := 256
  const REPLACEMENT: nat := 0xFE
  const ESC: Octet := 0x1B
  const CAN: Octet := 0x18
  const SUB: Octet := 0x1A
  const BEL: Octet := 0x07

  /** What a terminal is built with: its size, the code page lookup, the width of a code point, the default colour. */
  datatype Screen = Screen(cols: nat, rows: nat, cp437: nat -> Option<nat>, width: nat -> int, defaultFg: nat)

  /** The screen with its cursor, margins, modes and text attributes. */
  datatype Look = Look(pen: Pen, top: nat, bottom: nat, wrap: bool, scroll: bool, cursorOn: bool,
                       fg: nat, bg: nat, fgDefault: bool, bgDefault: bool) {
    function Style(c: nat): Cell { Cell(c, fgDefault, bgDefault, fg, bg) }
  }

  /** What save_state keeps. */
  datatype Saved = Saved(fg: nat, bg: nat, fgDefault: bool, bgDefault: bool, x: nat, y: nat,
                         origin: bool, charset: nat, charsets: seq<bool>)

  /** Character sets, insert and origin mode, what REP repeats, and the two saved cursors. */
  datatype Front = Front(charsets: seq<bool>, charset: nat, insert: bool, origin: bool, lastPrinted: nat, graphic: bool,
                         savedX: nat, savedY: nat, saved: Saved)

  /** Where in an escape sequence, a command, a UTF-8 sequence or the choice of a character set the bytes are. */
  datatype Reading = Reading(escape: bool, offset: nat, control: bool, private: bool, unhandled: bool, discard: bool,
                             osc: bool, oscEscape: bool, oscBuf: seq<Octet>, params: Params, decoder: Decoder,
                             gSelect: nat)

  datatype State = State(look: Look, front: Front, reading: Reading)

  function ViewIn(k: Screen, l: Look, origin: bool): View { View(k.cols, k.rows, l.top, l.bottom, origin) }

  function ModesIn(k: Screen, l: Look): Modes { Modes(ViewIn(k, l, false), l.wrap, l.scroll) }

  predicate LookOk(k: Screen, l: Look) { PenOk(l.pen, ViewIn(k, l, false)) }

  predicate FrontOk(k: Screen, f: Front) {
    && |f.charsets| == 2 && f.charset < 2 && f.savedX < k.cols && f.savedY < k.rows
    && f.saved.x <= k.cols && f.saved.y < k.rows && |f.saved.charsets| == 2 && f.saved.charset < 2
  }

  predicate ReadingOk(r: Reading) {
    && CsiParams.Ok(r.params) && |r.oscBuf| <= OSC_SIZE && r.gSelect <= 2
    && r.decoder.remaining <= 3 && (r.escape ==> r.decoder.remaining == 0)
    && (r.control || r.osc ==> r.escape) && !(r.control && r.osc)
  }

  /** What every byte keeps. */
  predicate StateOk(k: Screen, s: State) {
    LookOk(k, s.look) && FrontOk(k, s.front) && ReadingOk(s.reading) && s.look.scroll
  }

  // ----- Printing -----

  /** The DEC special graphics set: the glyph for a character, or -1. */
  function DecSpecial(c: char): int {
    match c
    case '`' => 0x04 case '0' => 0xdb case '-' => 0x18 case ',' => 0x1b case '.' => 0x19
    case 'a' => 0xb1 case 'f' => 0xf8 case 'g' => 0xf1 case 'h' => 0xb0 case 'j' => 0xd9
    case 'k' => 0xbf case 'l' => 0xda case 'm' => 0xc0 case 'n' => 0xc5 case 'q' => 0xc4
    case 's' => 0x5f case 't' => 0xc3 case 'u' => 0xb4 case 'v' => 0xc1 case 'w' => 0xc2
    case 'x' => 0xb3 case 'y' => 0xf3 case 'z' => 0xf2 case '~' => 0xfa case '_' => 0xff
    case '+' => 0x1a case '{' => 0xe3 case '}' => 0x9c
    case _ => -1
  }

  /** The glyph of a printable byte in the default or the special graphics set. */
  function GlyphFor(c: Octet, special: bool): nat {
    if special && DecSpecial(c as char) >= 0 then DecSpecial(c as char) else if c <= 0x7E then c else REPLACEMENT
  }

  predicate IsGraphic(c: Octet) { c >= 0x20 && c != 0x7F }

  /** A glyph printed with the modes and attributes in force. */
  ghost function PrintedIn(k: Screen, l: Look, f: Front, room: nat, glyph: nat): (r: Look)
    requires LookOk(k, l)
    ensures LookOk(k, r) && r == l.(pen := r.pen)
  {
    l.(pen := Printed(l.pen, ModesIn(k, l), f.insert, room, l.Style(0), glyph))
  }

  function Remembered(f: Front, glyph: nat): Front { f.(lastPrinted := glyph, graphic := true) }

  /** The replacement for a code point, and blanks over the rest of its width. */
  ghost function WideIn(k: Screen, l: Look, f: Front, w: nat): (r: Look)
    requires LookOk(k, l) && w > 0
    ensures LookOk(k, r) && r == l.(pen := r.pen)
  {
    var first := PrintedIn(k, l, f, w, REPLACEMENT);
    first.(pen := PrintedTimes(first.pen, ModesIn(k, first), false, first.Style(0), 0x20, w - 1))
  }

  /** A code point: its glyph, or the replacement over its width. */
  ghost function CodePointIn(k: Screen, l: Look, f: Front, cp: nat): (r: Look)
    requires LookOk(k, l)
    ensures LookOk(k, r) && r == l.(pen := r.pen)
  {
    var glyph, w := k.cp437(cp), k.width(cp);
    if glyph.Some? then PrintedIn(k, l, f, 1, glyph.value) else if w > 0 then WideIn(k, l, f, w) else l
  }

  /** What REP repeats after a code point; one of no width is not remembered. */
  function CodePointFront(k: Screen, f: Front, cp: nat): Front {
    if k.cp437(cp).Some? then Remembered(f, k.cp437(cp).value)
    else if k.width(cp) > 0 then Remembered(f, REPLACEMENT)
    else f
  }

  // ----- Control sequences -----

  /** The value a parameter left out has. */
  function DefaultFor(c: char): nat {
    if c in {'J', 'K', 'q', 'm', 'c', ']'} then 0 else 1
  }

  /** The parameters a final byte finds. */
  function FinalParams(p: Params, c: char): (q: Params)
    requires CsiParams.Ok(p)
    ensures CsiParams.Ok(q) && !q.reading
    ensures DefaultFor(c) != 0 ==> q.values[0] > 0 && q.values[1] > 0
  {
    Defaulted(Close(p), DefaultFor(c))
  }

  /** The parameters suit the final byte. */
  predicate Suits(p: Params, c: char) {
    CsiParams.Ok(p) && (DefaultFor(c) == 0 || (p.values[0] > 0 && p.values[1] > 0))
  }

  function CharsetAfter(charset: nat, c: nat): nat { if c == 14 then 1 else if c == 15 then 0 else charset }

  /** The margins after a complete sequence. */
  function ActedMargins(v: View, c: char, p: Params): (m: (nat, nat))
    requires ViewOk(v) && Suits(p, c)
    ensures m.0 < m.1 <= v.rows
  {
    if c == 'r' then MarginsAfter(p.index, p.values[0], p.values[1], v.rows) else (v.top, v.bottom)
  }

  /** The screen after a complete sequence other than REP. */
  ghost function ActedPen(pen: Pen, v: View, style: Cell, f: Front, c: char, p: Params): (q: Pen)
    requires PenOk(pen, v) && f.savedX < v.cols && f.savedY < v.rows && Suits(p, c)
    ensures PenOk(q, v)
  {
    if IsMove(c) then Moved(c, p.values[0], p.values[1], pen, v.(origin := f.origin))
    else if IsEdit(c) then Edited(c, p.values[0], pen, v, style.(c := 0x20))
    else if c == 'u' then pen.(x := f.savedX, y := f.savedY)
    else if c == 'r' then pen.(x := 0, y := if f.origin then ActedMargins(v, c, p).0 else 0)
    else pen
  }

  /** REP: the last graphic character again, at most a row of it. */
  ghost function Repeated(k: Screen, l: Look, f: Front, n: nat): (q: Pen)
    requires LookOk(k, l)
    ensures PenOk(q, ViewIn(k, l, false))
  {
    if !f.graphic then l.pen
    else PrintedTimes(l.pen, ModesIn(k, l), f.insert, l.Style(0), f.lastPrinted, Min(n, k.cols))
  }

  /** What a complete sequence does to the screen. */
  ghost function ActedLook(k: Screen, l: Look, f: Front, c: char, p: Params): (r: Look)
    requires LookOk(k, l) && FrontOk(k, f) && Suits(p, c)
    ensures LookOk(k, r) && r.scroll == l.scroll
  {
    if c == 'b' then l.(pen := Repeated(k, l, f, p.values[0]))
    else
      var v := ViewIn(k, l, false);
      var m := ActedMargins(v, c, p);
      l.(pen := ActedPen(l.pen, v, l.Style(0), f, c, p), top := m.0, bottom := m.1)
  }

  /** What it does to modes and the saved cursor. */
  function ActedFront(k: Screen, pen: Pen, f: Front, c: char, p: Params): (r: Front)
    requires k.cols > 0 && pen.y < k.rows && FrontOk(k, f) && Suits(p, c)
    ensures FrontOk(k, r)
  {
    if c == 's' then f.(savedX := Reported(pen.x, k.cols), savedY := pen.y)
    else if (c == 'h' || c == 'l') && p.index > 0 && p.values[0] == 4 then f.(insert := c == 'h')
    else f
  }

  function SavedIn(l: Look, f: Front): Saved {
    Saved(l.fg, l.bg, l.fgDefault, l.bgDefault, l.pen.x, l.pen.y, f.origin, f.charset, f.charsets)
  }

  function RestoredLook(l: Look, v: Saved): Look {
    l.(fg := v.fg, bg := v.bg, fgDefault := v.fgDefault, bgDefault := v.bgDefault, pen := l.pen.(x := v.x, y := v.y))
  }

  function RestoredFront(f: Front, v: Saved): Front {
    f.(origin := v.origin, charset := v.charset, charsets := v.charsets)
  }

  /** DECRC: cursor, attributes, origin mode and character sets as they were saved. */
  function Restored(k: Screen, s: State): (r: State)
    requires StateOk(k, s)
    ensures StateOk(k, r) && r.reading == s.reading
  {
    s.(look := RestoredLook(s.look, s.front.saved), front := RestoredFront(s.front, s.front.saved))
  }

  ghost function Cleared(k: Screen, l: Look): (r: Look)
    requires LookOk(k, l)
    ensures LookOk(k, r)
  {
    l.(pen := Pen(Fill(l.pen.cells, 0, k.rows * k.cols, l.Style(0x20)), 0, 0))
  }

  /** One DEC private mode: origin, wrapping, cursor visibility or the alternate screen. */
  ghost function Switched(k: Screen, s: State, v: nat, on: bool): (r: State)
    requires StateOk(k, s)
    ensures StateOk(k, r) && r.reading == s.reading
  {
    var l, f := s.look, s.front;
    if v == 6 then s.(look := l.(pen := l.pen.(x := 0, y := if on then l.top else 0)), front := f.(origin := on))
    else if v == 7 then s.(look := l.(wrap := on))
    else if v == 25 then s.(look := l.(cursorOn := on))
    else if v == 1049 && on then s.(look := Cleared(k, l), front := f.(saved := SavedIn(l, f)))
    else if v == 1049 then Restored(k, s.(look := Cleared(k, l)))
    else s
  }

  /** The modes of a parameter list, one after the other. */
  ghost function SwitchedAll(k: Screen, s: State, values: seq<nat>, on: bool): (r: State)
    requires StateOk(k, s)
    ensures StateOk(k, r) && r.reading == s.reading
    decreases |values|
  {
    if values == [] then s
    else Switched(k, SwitchedAll(k, s, values[..|values| - 1], on), values[|values| - 1], on)
  }

  /** Setting or resetting the modes named by the parameters. */
  ghost function PrivateModes(k: Screen, s: State, c: char): (n: State)
    requires StateOk(k, s)
    ensures StateOk(k, n) && n.reading == s.reading
  {
    if c == 'h' || c == 'l' then SwitchedAll(k, s, s.reading.params.values[..s.reading.params.index], c == 'h') else s
  }

  function Ended(r: Reading): Reading { r.(control := false, escape := false) }

  /** The byte that ends a private sequence; an intermediate byte makes it an unknown one. */
  ghost function PrivateStep(k: Screen, s: State, c: Octet): (n: State)
    requires StateOk(k, s) && s.reading.control
    ensures StateOk(k, n)
  {
    var t := s.(reading := s.reading.(private := false));
    if 0x20 <= c <= 0x2F then t.(reading := t.reading.(unhandled := true))
    else
      var n := PrivateModes(k, t, c as char);
      n.(reading := Ended(n.reading))
  }

  /** An unknown sequence is skipped up to its final byte; an escape starts a new one. */
  function UnhandledStep(r: Reading, c: Octet): Reading {
    if c == ESC then r.(unhandled := false, control := false, offset := 0)
    else if 0x40 <= c <= 0x7E then Ended(r.(unhandled := false))
    else r
  }

  /** The final byte of an ordinary sequence, its parameters complete. */
  ghost function FinalStep(k: Screen, s: State, c: Octet): (n: State)
    requires StateOk(k, s) && s.reading.control && Suits(s.reading.params, c as char)
    ensures StateOk(k, n)
  {
    var r, ch := s.reading, c as char;
    if c == ESC then s.(reading := r.(control := false, offset := 0))
    else if 0x40 <= c <= 0x7E then
      State(ActedLook(k, s.look, s.front, ch, r.params), ActedFront(k, s.look.pen, s.front, ch, r.params), Ended(r))
    else s.(reading := r.(unhandled := true))
  }

  /** A byte that ends the parameters. */
  ghost function TerminateStep(k: Screen, s: State, c: Octet): (n: State)
    requires StateOk(k, s) && s.reading.control
    ensures StateOk(k, n)
  {
    var t := s.(reading := s.reading.(params := FinalParams(s.reading.params, c as char)));
    if s.reading.private then PrivateStep(k, t, c)
    else if s.reading.unhandled then t.(reading := UnhandledStep(t.reading, c))
    else FinalStep(k, t, c)
  }

  /** A control character: cursor and screen, and the choice between the two character sets. */
  ghost function C0Step(k: Screen, s: State, c: Octet): (n: State)
    requires StateOk(k, s)
    ensures StateOk(k, n) && n.reading == s.reading
  {
    var l, f := s.look, s.front;
    s.(look := l.(pen := Controlled(c, l.pen, ViewIn(k, l, false), l.Style(0x20))),
       front := f.(charset := CharsetAfter(f.charset, c)))
  }

  predicate IsDigit(c: Octet) { 0x30 <= c <= 0x39 }

  const QUESTION: Octet := 0x3F
  const BRACKET: Octet := 0x5B
  const SEMICOLON: Octet := 0x3B

  /** Does a byte only belong to the parameters or the markers of a control sequence? */
  predicate IsParameter(offset: nat, c: Octet) {
    IsDigit(c) || c == SEMICOLON || (offset == 2 && (c == BRACKET || c == QUESTION))
  }

  /** Such a byte: a second bracket drops the sequence and the byte after it, a question mark makes it private. */
  function ParameterStep(r: Reading, c: Octet): (q: Reading)
    requires ReadingOk(r) && r.control && IsParameter(r.offset, c)
    ensures ReadingOk(q)
  {
    if c == BRACKET then Ended(r.(discard := true))
    else if c == QUESTION then r.(private := true)
    else if IsDigit(c) then r.(params := Digit(r.params, c - 0x30))
    else r.(params := Separator(r.params))
  }

  /** A byte inside a control sequence. */
  ghost function ControlStep(k: Screen, s: State, c: Octet): (n: State)
    requires StateOk(k, s) && s.reading.control
    ensures StateOk(k, n)
  {
    if IsParameter(s.reading.offset, c) then s.(reading := ParameterStep(s.reading, c))
    else if c < 0x20 && c != ESC then C0Step(k, s, c)
    else TerminateStep(k, s, c)
  }

  // ----- Escape sequences -----

  /** RIS: everything as at the start, and a blank screen. */
  ghost function ResetLook(k: Screen, l: Look): (r: Look)
    requires LookOk(k, l)
    ensures LookOk(k, r) && r.scroll
  {
    Cleared(k, Look(l.pen, 0, k.rows, true, true, true, k.defaultFg, l.bg, false, true))
  }

  function ResetReading(r: Reading): (q: Reading)
    requires ReadingOk(r)
    ensures ReadingOk(q)
  {
    Reading(false, 0, false, false, false, false, false, false, r.oscBuf, Restarted(r.params),
            r.decoder.(remaining := 0), 0)
  }

  function ResetFront(l: Look): Front {
    Front([false, true], 0, false, false, 0x20, false, 0, 0,
          Saved(l.fg, l.bg, l.fgDefault, l.bgDefault, l.pen.x, l.pen.y, false, 0, [false, true]))
  }

  /** DECSC, DECRC, RIS, IND, NEL, RI and the choice of a character set to select. */
  ghost function EscapeEffect(k: Screen, s: State, c: char): (n: State)
    requires StateOk(k, s)
    ensures StateOk(k, n) && (n.reading.control ==> s.reading.control) && (n.reading.osc ==> s.reading.osc)
  {
    var l, f, v := s.look, s.front, ViewIn(k, s.look, false);
    match c
    case '7' => s.(front := f.(saved := SavedIn(l, f)))
    case '8' => Restored(k, s)
    case 'c' => State(ResetLook(k, l), ResetFront(ResetLook(k, l)), ResetReading(s.reading))
    case 'D' => s.(look := l.(pen := LineFed(l.pen, v, l.Style(0x20))))
    case 'E' => s.(look := l.(pen := LineFed(l.pen, v, l.Style(0x20)).(x := 0)))
    case 'M' => s.(look := l.(pen := ReverseFed(l.pen, v, l.Style(0x20))))
    case '(' => s.(reading := s.reading.(gSelect := 1))
    case ')' => s.(reading := s.reading.(gSelect := 2))
    case _ => s
  }

  /** A byte after an escape, outside control sequences and commands. */
  ghost function PlainEscapeStep(k: Screen, s: State, c: Octet): (n: State)
    requires StateOk(k, s) && s.reading.escape && !s.reading.control && !s.reading.osc
    ensures StateOk(k, n)
  {
    var r := s.reading;
    if c == ESC then s.(reading := r.(offset := 0))
    else if c as char == ']' then s.(reading := r.(osc := true, oscEscape := false, oscBuf := []))
    else if c == BRACKET then s.(reading := r.(params := CsiParams.Start(), unhandled := false, control := true))
    else
      var t := EscapeEffect(k, s, c as char);
      t.(reading := t.reading.(escape := false))
  }

  /** Does a byte of a command leave it for another escape sequence? */
  predicate OscLeft(r: Reading, c: Octet) { r.oscEscape && c as char != '\\' }

  /** A byte of an operating system command. */
  function OscStep(r: Reading, c: Octet): (q: Reading)
    requires ReadingOk(r) && r.osc
    ensures ReadingOk(q)
  {
    if OscLeft(r, c) then r.(osc := false, oscEscape := false)
    else if r.oscEscape || c == BEL then r.(osc := false, oscEscape := false, escape := false)
    else if c == ESC then r.(oscEscape := true)
    else if |r.oscBuf| < OSC_SIZE then r.(oscBuf := r.oscBuf + [c])
    else r
  }

  /** A byte inside an escape sequence or a command. */
  ghost function EscapeStep(k: Screen, s: State, c: Octet): (n: State)
    requires StateOk(k, s) && s.reading.escape
    ensures StateOk(k, n)
  {
    var r := s.reading.(offset := s.reading.offset + 1);
    if r.osc && !OscLeft(r, c) then s.(reading := OscStep(r, c))
    else
      var t := s.(reading := if r.osc then OscStep(r, c).(offset := 1) else r);
      if t.reading.control then ControlStep(k, t, c) else PlainEscapeStep(k, t, c)
  }

  // ----- Text -----

  /** The character sets after a selection: B is the default set, 0 the special graphics set. */
  function Selected(charsets: seq<bool>, i: nat, c: Octet): (r: seq<bool>)
    requires i < |charsets|
    ensures |r| == |charsets|
  {
    if c as char == 'B' then charsets[i := false] else if c as char == '0' then charsets[i := true] else charsets
  }

  /** A control character, a delete or an escape outside sequences. */
  ghost function PlainControlStep(k: Screen, s: State, c: Octet): (n: State)
    requires StateOk(k, s) && s.reading.decoder.remaining == 0
    ensures StateOk(k, n)
  {
    if c == ESC then s.(reading := s.reading.(escape := true, offset := 0))
    else
      var t := s.(front := s.front.(graphic := false));
      if c == 0 || c == 0x7F then t else C0Step(k, t, c)
  }

  /** A byte that is no part of a UTF-8 sequence, when no character set is being chosen. */
  ghost function UnselectedStep(k: Screen, s: State, c: Octet): (n: State)
    requires StateOk(k, s) && s.reading.decoder.remaining == 0
    ensures StateOk(k, n)
  {
    if !IsGraphic(c) then PlainControlStep(k, s, c)
    else
      var glyph := GlyphFor(c, s.front.charsets[s.front.charset]);
      s.(look := PrintedIn(k, s.look, s.front, 1, glyph), front := Remembered(s.front, glyph))
  }

  /** A byte that is no part of a UTF-8 sequence. */
  ghost function PlainStep(k: Screen, s: State, c: Octet): (n: State)
    requires StateOk(k, s) && s.reading.decoder.remaining == 0
    ensures StateOk(k, n)
  {
    if s.reading.gSelect == 0 then UnselectedStep(k, s, c)
    else
      var t := s.(reading := s.reading.(gSelect := 0));
      if IsGraphic(c) then t.(front := s.front.(charsets := Selected(s.front.charsets, s.reading.gSelect - 1, c)))
      else PlainControlStep(k, t, c)
  }

  /** An event of the decoder; a replacement is remembered for REP unless the sequence was only cut short. */
  ghost function EventStep(k: Screen, s: State, e: Event, cut: bool): (n: State)
    requires StateOk(k, s) && (e.Plain? ==> s.reading.decoder.remaining == 0)
    ensures StateOk(k, n)
  {
    match e
    case Replacement =>
      s.(look := PrintedIn(k, s.look, s.front, 1, REPLACEMENT),
         front := if cut then s.front else Remembered(s.front, REPLACEMENT))
    case Glyph(cp) => s.(look := CodePointIn(k, s.look, s.front, cp), front := CodePointFront(k, s.front, cp))
    case Plain(c) => PlainStep(k, s, c)
  }

  /** What the decoder reports for a byte: a replacement at most once and first, then the byte itself or a glyph. */
  lemma FeedShape(d: Decoder, c: Octet)
    requires d.remaining <= 3
    ensures var f := Feed(d, c);
            && f.0.remaining <= 3 && |f.1| <= 2
            && (IsLead(c) ==> forall e | e in f.1 :: e == Replacement)
            && (|f.1| == 2 ==> f.1[0] == Replacement && f.1[1] == Plain(c) && f.0.remaining == 0)
            && (|f.1| == 1 ==> f.1[0] == Replacement || (f.0.remaining == 0 && (f.1[0] == Plain(c) || f.1[0].Glyph?)))
  {
  }

  /** A byte outside escape sequences: the decoder's events are carried out in order. */
  ghost function TextStep(k: Screen, s: State, c: Octet): (n: State)
    requires StateOk(k, s) && !s.reading.escape
    ensures StateOk(k, n)
  {
    FeedShape(s.reading.decoder, c);
    var fed := Feed(s.reading.decoder, c);
    var cut := !IsContinuation(c);
    var r := s.reading.(decoder := fed.0);
    var t := s.(reading := if IsLead(c) then r.(gSelect := 0) else r);
    if |fed.1| == 0 then t
    else if |fed.1| == 1 then EventStep(k, t, fed.1[0], cut)
    else EventStep(k, EventStep(k, t, fed.1[0], cut), fed.1[1], cut)
  }

  // ----- All bytes -----

  /** CAN, SUB or a discarded byte: whatever is being read is given up, but the private marker stays. */
  function Cancelled(s: State): State {
    var r := s.reading;
    s.(front := s.front.(graphic := false),
       reading := r.(discard := false, escape := false, control := false, osc := false, oscEscape := false,
                     decoder := r.decoder.(remaining := 0), gSelect := 0))
  }

  /** Ready for text: no sequence of any kind is being read. */
  predicate AtGround(r: Reading) {
    !r.discard && !r.escape && r.decoder.remaining == 0 && r.gSelect == 0
  }

  ghost function Step(k: Screen, s: State, c: Octet): (n: State)
    requires StateOk(k, s)
    ensures StateOk(k, n)
  {
    if s.reading.discard || c == CAN || c == SUB then Cancelled(s)
    else if s.reading.escape then EscapeStep(k, s, c)
    else TextStep(k, s, c)
  }

  ghost function Steps(k: Screen, s: State, bytes: seq<Octet>): (n: State)
    requires StateOk(k, s)
    ensures StateOk(k, n)
    decreases |bytes|
  {
    if bytes == [] then s else Step(k, Steps(k, s, bytes[..|bytes| - 1]), bytes[|bytes| - 1])
  }
}
