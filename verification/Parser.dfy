/**
 The byte-driven front of the terminal: control characters, escape and control sequences, operating
 system commands and UTF-8 text, acting on the backend. Every method is proved against its function in TermSpec.
 */
module Parser {
  import opened Cells
  import opened Common
  import opened CsiOps
  import opened CsiParams
  import opened CsiSpec
  import opened ScreenOps
  import opened Terminal
  import opened TermLaws
  import opened TermSpec
  import opened Utf8

  /** The backend as a plain screen. */
  ghost function LookOf(t: Backend): Look
    reads t
  {
    Look(PenOf(t), t.top, t.bottom, t.wrapEnabled, t.scrollEnabled, t.cursorEnabled,
         t.textFg, t.textBg, t.textFgDefault, t.textBgDefault)
  }

  class Context {
    const t: Backend
    // The code page lookup and the width of a code point.
    const cp437: nat -> Option<nat>
    const width: nat -> int
    const defaultFg: nat
    var front: Front
    var reading: Reading

    ghost function Kind(): Screen { Screen(t.cols, t.rows, cp437, width, defaultFg) }

    /** Parser and plain screen. */
    ghost function Now(): State
      reads this, t
    {
      State(LookOf(t), front, reading)
    }

    /** The invariant between bytes. */
    ghost predicate Ok()
      reads this, t, t.grid, t.queue, t.pending, t.shown
    {
      StateOk(Kind(), Now()) && t.Valid() && t.cols <= SIZE_LIMIT && t.rows <= SIZE_LIMIT
    }

    constructor (t: Backend, cp437: nat -> Option<nat>, width: nat -> int, defaultFg: nat)
      requires t.Valid() && t.scrollEnabled && t.cols <= SIZE_LIMIT && t.rows <= SIZE_LIMIT
      ensures Ok() && this.t == t && Kind() == Screen(t.cols, t.rows, cp437, width, defaultFg)
      ensures AtGround(reading) && !reading.private && LookOf(t) == old(LookOf(t))
    {
      this.t, this.cp437, this.width, this.defaultFg := t, cp437, width, defaultFg;
      front := Front([false, true], 0, false, false, 0x20, false, 0, 0,
                     Saved(t.textFg, t.textBg, t.textFgDefault, t.textBgDefault, 0, 0, false, 0, [false, true]));
      reading := Reading(false, 0, false, false, false, false, false, false, [], CsiParams.Start(), GROUND, 0);
    }

    method SaveState()
      requires Ok()
      modifies `front
      ensures Ok() && front == old(front).(saved := SavedIn(LookOf(t), old(front)))
    {
      hide Holds, CsiParams.Ok, Backend.Valid;
      front := front.(saved := Saved(t.textFg, t.textBg, t.textFgDefault, t.textBgDefault, t.cursorX, t.cursorY,
                                     front.origin, front.charset, front.charsets));
    }

    method RestoreState()
      requires Ok()
      modifies `front, t`textFg, t`textBg, t`textFgDefault, t`textBgDefault, t`cursorX, t`cursorY
      ensures Now() == Restored(Kind(), old(Now()))
      ensures Ok()
    {
      hide Holds, CsiParams.Ok, Backend.Valid;
      var v := front.saved;
      front := front.(origin := v.origin, charset := v.charset, charsets := v.charsets);
      t.Restore(v.fg, v.bg, v.fgDefault, v.bgDefault, v.x, v.y);
    }

    method ClearAll()
      requires Ok()
      modifies t`queued, t`ideal, t.queue, t.pending, t`cursorX, t`cursorY
      ensures Ok() && LookOf(t) == Cleared(Kind(), old(LookOf(t)))
    {
      hide Holds, CsiParams.Ok, Backend.Valid, Fill;
      t.Clear(true);
    }

    /** The alternate screen is only a cleared one; what is saved and brought back is the state around it. */
    method AlternateScreen(on: bool)
      requires Ok()
      modifies `front, t`queued, t`ideal, t.queue, t.pending, t`cursorX, t`cursorY
      modifies t`textFg, t`textBg, t`textFgDefault, t`textBgDefault
      ensures Now() == Switched(Kind(), old(Now()), 1049, on)
      ensures Ok()
    {
      hide Holds, CsiParams.Ok, Backend.Valid, Cleared;
      if on {
        SaveState();
        ClearAll();
      } else {
        ClearAll();
        RestoreState();
      }
    }

    /** One DEC private mode. */
    method DecMode(v: nat, on: bool)
      requires Ok()
      modifies `front, t, t.queue, t.pending
      ensures Now() == Switched(Kind(), old(Now()), v, on)
      ensures Ok()
    {
      hide Holds, CsiParams.Ok, Backend.Valid, Cleared, Restored, StateOk;
      Bounds(t);
      if v == 6 {
        front := front.(origin := on);
        t.SetCursorPos(0, if on then t.top else 0);
      } else if v == 7 {
        t.SetWrapping(on, t.scrollEnabled);
      } else if v == 25 {
        t.SetCursorEnabled(on);
      } else if v == 1049 {
        AlternateScreen(on);
      }
    }

    method DecPrivateParse(ch: char)
      requires Ok()
      modifies this, t, t.queue, t.pending
      ensures Ok()
      ensures Now() == PrivateModes(Kind(), old(Now()).(reading := old(reading).(private := false)), ch)
    {
      hide Holds, CsiParams.Ok, Backend.Valid, Switched;
      ParamCount(reading.params);
      reading := reading.(private := false);
      assert StateOk(Kind(), Now());
      hide StateOk;
      var p := reading.params;
      if p.index == 0 { return; }
      if ch != 'h' && ch != 'l' { return; }
      ghost var s := Now();
      for i := 0 to p.index
        invariant Ok() && reading == s.reading && Now() == SwitchedAll(Kind(), s, p.values[..i], ch == 'h')
      {
        assert p.values[..i + 1][..i] == p.values[..i];
        DecMode(p.values[i], ch == 'h');
      }
    }

    /** REP: prints the last graphic character again, at most a row of it. */
    method Repeat(n: nat)
      requires Ok()
      modifies t`queued, t`ideal, t.queue, t.pending, t`cursorX, t`cursorY
      ensures LookOf(t) == old(LookOf(t)).(pen := Repeated(Kind(), old(LookOf(t)), front, n))
      ensures Ok()
    {
      hide Holds, CsiParams.Ok, Backend.Valid, Printed, ReadingOk, FrontOk;
      if !front.graphic { return; }
      PenIsOk(t);
      ghost var p := PenOf(t);
      var count := if n > t.cols then t.cols else n;
      for i := 0 to count
        invariant Ok() && PenOk(p, ModesOf(t).view)
        invariant PenOf(t) == PrintedTimes(p, ModesOf(t), front.insert, t.Styled(0), front.lastPrinted, i)
      {
        PrintGlyph(t, front.insert, 1, front.lastPrinted);
      }
    }

    /** The sequences other than REP that act on cursor, screen, margins and modes; others do nothing. */
    method Act(ch: char)
      requires t.Valid() && t.cols <= SIZE_LIMIT && t.rows <= SIZE_LIMIT && ch != 'b'
      requires PenOk(PenOf(t), ViewOf(t, false)) && FrontOk(Kind(), front) && Suits(reading.params, ch)
      modifies `front, t`queued, t`ideal, t.queue, t.pending, t`cursorX, t`cursorY, t`top, t`bottom
      ensures t.Valid() && (t.top, t.bottom) == ActedMargins(old(ViewOf(t, false)), ch, reading.params)
      ensures PenOf(t) == ActedPen(old(PenOf(t)), old(ViewOf(t, false)), t.Styled(0), old(front), ch, reading.params)
      ensures front == ActedFront(Kind(), old(PenOf(t)), old(front), ch, reading.params)
    {
      hide Holds, CsiParams.Ok, Backend.Valid, Moved, Edited, MarginsAfter;
      ParamCount(reading.params);
      Bounds(t);
      var n, m := reading.params.values[0], reading.params.values[1];
      if IsMove(ch) {
        MoveCursor(t, ch, n, m, front.origin);
      } else if ch in {'J', 'K', 'X', '@', 'P'} {
        EditCells(t, ch, n);
      } else if ch in {'L', 'M', 'S', 'T'} {
        EditRows(t, ch, n);
      } else if ch == 'r' {
        SetMargins(t, reading.params.index, n, m, front.origin);
      } else {
        ActOnFront(ch, n);
      }
    }

    /** The saved cursor and insert mode. */
    method ActOnFront(ch: char, n: nat)
      requires t.Valid() && t.cols <= SIZE_LIMIT && t.rows <= SIZE_LIMIT && FrontOk(Kind(), front)
      requires Suits(reading.params, ch) && n == reading.params.values[0]
      modifies `front, t`cursorX, t`cursorY
      ensures t.Valid() && t.cols > 0 && t.cursorY < t.rows
      ensures PenOf(t) == if ch == 'u' then old(PenOf(t)).(x := front.savedX, y := front.savedY) else old(PenOf(t))
      ensures front == ActedFront(Kind(), old(PenOf(t)), old(front), ch, reading.params)
    {
      hide Holds, CsiParams.Ok, Backend.Valid;
      Bounds(t);
      if ch == 's' {
        var x, y := t.GetCursorPos();
        front := front.(savedX := x, savedY := y);
      } else if ch == 'u' {
        t.SetCursorPos(front.savedX, front.savedY);
      } else if ch == 'l' || ch == 'h' {
        if reading.params.index != 0 && n == 4 { front := front.(insert := ch == 'h'); }
      }
    }

    /** Acts with scrolling off and wrapping on, and brings back the modes that were set. */
    method ActUnscrolled(ch: char)
      requires Ok() && Suits(reading.params, ch) && ch != 'b'
      modifies `front, t`queued, t`ideal, t.queue, t.pending, t`cursorX, t`cursorY, t`top, t`bottom
      modifies t`wrapEnabled, t`scrollEnabled
      ensures LookOf(t) == ActedLook(Kind(), old(LookOf(t)), old(front), ch, reading.params)
      ensures front == ActedFront(Kind(), old(PenOf(t)), old(front), ch, reading.params)
      ensures Ok()
    {
      hide Holds, CsiParams.Ok, Backend.Valid, ActedPen, ActedMargins, Repeated, DefaultFor, ReadingOk;
      ParamCount(reading.params);
      var wrap, scroll := t.wrapEnabled, t.scrollEnabled;
      t.SetWrapping(true, false);
      Act(ch);
      t.SetWrapping(wrap, scroll);
    }

    /** What a complete sequence does; REP prints under the modes that were set. */
    method Complete(ch: char)
      requires Ok() && Suits(reading.params, ch)
      modifies `front, t`queued, t`ideal, t.queue, t.pending, t`cursorX, t`cursorY, t`top, t`bottom
      modifies t`wrapEnabled, t`scrollEnabled
      ensures LookOf(t) == ActedLook(Kind(), old(LookOf(t)), old(front), ch, reading.params)
      ensures front == ActedFront(Kind(), old(PenOf(t)), old(front), ch, reading.params)
      ensures Ok()
    {
      ParamCount(reading.params);
      if ch == 'b' {
        hide Holds, CsiParams.Ok, Backend.Valid, Repeated, StateOk;
        Repeat(reading.params.values[0]);
      } else {
        hide Holds, CsiParams.Ok, Backend.Valid, ActedLook, ActedFront, StateOk;
        ActUnscrolled(ch);
      }
    }

    /** The final byte of a control sequence, its parameters complete. */
    method FinalByte(c: Octet, ch: char)
      requires Ok() && reading.control && ch == c as char && Suits(reading.params, ch)
      modifies this, t, t.queue, t.pending
      ensures Now() == FinalStep(Kind(), old(Now()), c)
      ensures Ok()
    {
      hide Holds, CsiParams.Ok, Backend.Valid, ActedLook, ActedFront;
      if c == ESC {
        reading := reading.(control := false, offset := 0);
      } else if 0x40 <= c <= 0x7E {
        Complete(ch);
        reading := reading.(control := false, escape := false);
      } else {
        reading := reading.(unhandled := true);
      }
    }

    /** A byte that ends the parameters: the sequence acts, is private, or is not known. */
    method Terminate(c: Octet, ch: char)
      requires Ok() && reading.control && ch == c as char
      modifies this, t, t.queue, t.pending
      ensures Now() == TerminateStep(Kind(), old(Now()), c)
      ensures Ok()
    {
      hide Holds, CsiParams.Ok, Backend.Valid, PrivateStep, FinalStep, DefaultFor;
      reading := reading.(params := FinalParams(reading.params, ch));
      if reading.private {
        PrivateByte(c, ch);
      } else if reading.unhandled {
        UnhandledByte(c);
      } else {
        FinalByte(c, ch);
      }
    }

    /** After a question mark: an intermediate byte makes the sequence an unknown one, any other ends it. */
    method PrivateByte(c: Octet, ch: char)
      requires Ok() && reading.control && ch == c as char
      modifies this, t, t.queue, t.pending
      ensures Now() == PrivateStep(Kind(), old(Now()), c)
      ensures Ok()
    {
      hide Holds, CsiParams.Ok, Backend.Valid, PrivateModes;
      if 0x20 <= c <= 0x2F {
        reading := reading.(private := false, unhandled := true);
        return;
      }
      DecPrivateParse(ch);
      reading := reading.(control := false, escape := false);
    }

    /** An unknown sequence is skipped up to its final byte; an escape starts a new one. */
    method UnhandledByte(c: Octet)
      modifies `reading
      ensures reading == UnhandledStep(old(reading), c)
    {
      if c == ESC {
        reading := reading.(unhandled := false, control := false, offset := 0);
      } else if 0x40 <= c <= 0x7E {
        reading := reading.(unhandled := false, control := false, escape := false);
      }
    }

    /** A control character. */
    method Control(c: Octet)
      requires Ok()
      modifies `front, t`queued, t`ideal, t.queue, t.pending, t`cursorX, t`cursorY
      ensures Now() == C0Step(Kind(), old(Now()), c)
      ensures Ok()
    {
      hide Holds, CsiParams.Ok, Backend.Valid, Controlled;
      if c == 14 {
        front := front.(charset := 1);
      } else if c == 15 {
        front := front.(charset := 0);
      }
      ExecuteC0(t, c);
    }

    /** A byte inside a control sequence. */
    method ControlSequenceParse(c: Octet, ch: char)
      requires Ok() && reading.control && ch == c as char
      modifies this, t, t.queue, t.pending
      ensures Now() == ControlStep(Kind(), old(Now()), c)
      ensures Ok()
    {
      hide Holds, CsiParams.Ok, Backend.Valid, C0Step, TerminateStep, Digit, Separator, LookOk, FrontOk;
      if reading.offset == 2 && (ch == '[' || ch == '?') {
        if ch == '[' {
          reading := reading.(discard := true, control := false, escape := false);
        } else {
          reading := reading.(private := true);
        }
      } else if c < 0x20 && c != ESC {
        Control(c);
      } else if 0x30 <= c <= 0x39 {
        reading := reading.(params := Digit(reading.params, c - 0x30));
      } else if ch == ';' {
        reading := reading.(params := Separator(reading.params));
      } else {
        Terminate(c, ch);
      }
    }

    /** A byte of an operating system command; false when an escape in it starts another sequence. */
    method OscParse(c: Octet, ch: char) returns (done: bool)
      requires ReadingOk(reading) && reading.osc && ch == c as char
      modifies `reading
      ensures reading == OscStep(old(reading), c) && done == !OscLeft(old(reading), c)
    {
      hide CsiParams.Ok;
      if reading.oscEscape {
        reading := reading.(oscEscape := false, osc := false);
        if ch == '\\' {
          reading := reading.(escape := false);
          return true;
        }
        return false;
      }
      if c == ESC {
        reading := reading.(oscEscape := true);
      } else if c == 7 {
        reading := reading.(oscEscape := false, osc := false, escape := false);
      } else if |reading.oscBuf| < OSC_SIZE {
        reading := reading.(oscBuf := reading.oscBuf + [c]);
      }
      return true;
    }

    /** RIS: everything as at the start, and a blank screen. */
    method FullReset()
      requires Ok()
      modifies this, t, t.queue, t.pending
      ensures Now() == EscapeEffect(Kind(), old(Now()), 'c')
      ensures Ok()
    {
      hide Holds, Fill, Backend.Valid, CsiParams.Ok;
      Bounds(t);
      reading := Reading(false, 0, false, false, false, false, false, false, reading.oscBuf, Restarted(reading.params),
                         Decoder(0, reading.decoder.codePoint), 0);
      front := front.(charsets := [false, true], charset := 0, insert := false, origin := false,
                      lastPrinted := 0x20, graphic := false, savedX := 0, savedY := 0);
      t.Reinit(defaultFg);
      ClearAll();
      SaveState();
    }

    /** A byte after an escape. */
    method EscapeParse(c: Octet, ch: char)
      requires Ok() && reading.escape && ch == c as char
      modifies this, t, t.queue, t.pending
      ensures Now() == EscapeStep(Kind(), old(Now()), c)
      ensures Ok()
    {
      hide Holds, CsiParams.Ok, Backend.Valid, ControlStep, PlainEscapeStep, LookOk, FrontOk;
      reading := reading.(offset := reading.offset + 1);
      if reading.osc {
        var done := OscParse(c, ch);
        if done { return; }
        reading := reading.(offset := 1);
      }
      if reading.control {
        ControlSequenceParse(c, ch);
      } else {
        PlainEscape(c, ch);
      }
    }

    /** The escape sequences of two bytes, and the starts of longer ones. */
    method PlainEscape(c: Octet, ch: char)
      requires Ok() && reading.escape && !reading.control && !reading.osc && ch == c as char
      modifies this, t, t.queue, t.pending
      ensures Now() == PlainEscapeStep(Kind(), old(Now()), c)
      ensures Ok()
    {
      hide Holds, CsiParams.Ok, Backend.Valid, EscapeEffect;
      if c == ESC {
        reading := reading.(offset := 0);
        return;
      }
      if ch == ']' {
        reading := reading.(oscEscape := false, osc := true, oscBuf := []);
        return;
      }
      if ch == '[' {
        reading := reading.(params := CsiParams.Start(), unhandled := false, control := true);
        return;
      }
      EscapeAct(c, ch);
      reading := reading.(escape := false);
    }

    /** DECSC, DECRC, RIS, IND, NEL, RI and the selection of character sets. */
    method EscapeAct(c: Octet, ch: char)
      requires Ok() && ch == c as char
      modifies this, t, t.queue, t.pending
      ensures Now() == EscapeEffect(Kind(), old(Now()), ch)
      ensures Ok()
    {
      hide Holds, CsiParams.Ok, Backend.Valid, LineFed, ReverseFed, ResetLook, Restored, StateOk;
      var x, y := t.GetCursorPos();
      if ch == '7' {
        SaveState();
      } else if ch == '8' {
        RestoreState();
      } else if ch == 'c' {
        FullReset();
      } else if ch == 'D' {
        LineFeed(t, x, y);
      } else if ch == 'E' {
        NextLine(t, y);
      } else if ch == 'M' {
        ReverseLineFeed(t, x, y);
      } else if ch == '(' || ch == ')' {
        reading := reading.(gSelect := c - 0x27);
      }
    }

    /** Prints a glyph and remembers it for REP. */
    method Print(glyph: nat, room: nat)
      requires Ok()
      modifies `front, t`queued, t`ideal, t.queue, t.pending, t`cursorX, t`cursorY
      ensures Ok() && LookOf(t) == PrintedIn(Kind(), old(LookOf(t)), old(front), room, glyph)
      ensures front == Remembered(old(front), glyph)
    {
      hide Holds, CsiParams.Ok, Backend.Valid, Printed;
      front := front.(lastPrinted := glyph, graphic := true);
      PrintGlyph(t, front.insert, room, glyph);
    }

    /** A decoded code point: its glyph, or the replacement and blanks over its width. */
    method PrintCodePoint(cp: nat)
      requires Ok()
      modifies `front, t`queued, t`ideal, t.queue, t.pending, t`cursorX, t`cursorY
      ensures Ok() && LookOf(t) == CodePointIn(Kind(), old(LookOf(t)), old(front), cp)
      ensures front == CodePointFront(Kind(), old(front), cp)
    {
      hide Holds, CsiParams.Ok, Backend.Valid, PrintedIn, WideIn, PenOk;
      var glyph := cp437(cp);
      if glyph.Some? {
        Print(glyph.value, 1);
      } else {
        var w := width(cp);
        if w > 0 { PrintWide(w); }
      }
    }

    /** The replacement, and blanks after it that are put without making room. */
    method PrintWide(w: nat)
      requires Ok() && w > 0
      modifies `front, t`queued, t`ideal, t.queue, t.pending, t`cursorX, t`cursorY
      ensures Ok() && LookOf(t) == WideIn(Kind(), old(LookOf(t)), old(front), w)
      ensures front == Remembered(old(front), REPLACEMENT)
    {
      hide Holds, CsiParams.Ok, Backend.Valid, PrintedIn, PrintedTimes;
      Print(REPLACEMENT, w);
      BlankAfter(w - 1);
    }

    method BlankAfter(n: nat)
      requires Ok()
      modifies t`queued, t`ideal, t.queue, t.pending, t`cursorX, t`cursorY
      ensures Ok() && PenOk(old(PenOf(t)), ModesOf(t).view)
      ensures PenOf(t) == PrintedTimes(old(PenOf(t)), ModesOf(t), false, t.Styled(0), 0x20, n)
    {
      hide Holds, CsiParams.Ok, Backend.Valid, Put;
      PenIsOk(t);
      ghost var p := PenOf(t);
      for i := 0 to n
        invariant Ok() && PenOk(p, ModesOf(t).view)
        invariant PenOf(t) == PrintedTimes(p, ModesOf(t), false, t.Styled(0), 0x20, i)
      {
        PutGlyph(t, 0x20);
      }
    }

    /** A printable byte, translated by the character set in use. */
    method PrintPlain(c: Octet)
      requires Ok() && IsGraphic(c)
      modifies `front, t`queued, t`ideal, t.queue, t.pending, t`cursorX, t`cursorY
      ensures Ok() && front == Remembered(old(front), GlyphFor(c, old(front.charsets[front.charset])))
      ensures LookOf(t) ==
              PrintedIn(Kind(), old(LookOf(t)), old(front), 1, GlyphFor(c, old(front.charsets[front.charset])))
    {
      hide Holds, CsiParams.Ok, Backend.Valid, PrintedIn, DecSpecial;
      var special := if front.charsets[front.charset] then DecSpecial(c as char) else -1;
      if special >= 0 {
        Print(special, 1);
      } else if c <= 0x7E {
        Print(c, 1);
      } else {
        Print(REPLACEMENT, 1);
      }
    }

    /** A control character, a delete or an escape outside escape sequences. */
    method PlainControl(c: Octet)
      requires Ok() && reading.decoder.remaining == 0 && (c < 0x20 || c == 0x7F)
      modifies `front, `reading, t`queued, t`ideal, t.queue, t.pending, t`cursorX, t`cursorY
      ensures Now() == PlainControlStep(Kind(), old(Now()), c)
      ensures Ok()
    {
      hide Holds, CsiParams.Ok, Backend.Valid, C0Step;
      if c != ESC { front := front.(graphic := false); }
      if c == 0 || c == 0x7F { return; }
      if c == ESC {
        reading := reading.(offset := 0, escape := true);
        return;
      }
      Control(c);
    }

    /** A byte that is no part of a UTF-8 sequence, outside escape sequences and the choice of a character set. */
    method UnselectedByte(c: Octet)
      requires Ok() && reading.decoder.remaining == 0
      modifies `front, `reading, t`queued, t`ideal, t.queue, t.pending, t`cursorX, t`cursorY
      ensures Now() == UnselectedStep(Kind(), old(Now()), c)
      ensures Ok()
    {
      hide Holds, CsiParams.Ok, Backend.Valid, PrintedIn, PlainControlStep, GlyphFor, PenOk;
      if c < 0x20 || c == 0x7F {
        PlainControl(c);
      } else {
        PrintPlain(c);
      }
    }

    /** A byte that is no part of a UTF-8 sequence, outside escape sequences. */
    method PlainByte(c: Octet)
      requires Ok() && reading.decoder.remaining == 0
      modifies `front, `reading, t`queued, t`ideal, t.queue, t.pending, t`cursorX, t`cursorY
      ensures Now() == PlainStep(Kind(), old(Now()), c)
      ensures Ok()
    {
      hide Holds, CsiParams.Ok, Backend.Valid, UnselectedStep, PlainControlStep, PenOk;
      if reading.gSelect > 0 {
        if c <= 0x1F || c == 0x7F {
          reading := reading.(gSelect := 0);
          PlainControl(c);
        } else {
          front := front.(charsets := Selected(front.charsets, reading.gSelect - 1, c));
          reading := reading.(gSelect := 0);
        }
      } else {
        UnselectedByte(c);
      }
    }

    /** CAN, SUB or a discarded byte: whatever is being read is given up. */
    method Cancel()
      modifies `front, `reading
      ensures Now() == Cancelled(old(Now()))
    {
      reading := reading.(discard := false, escape := false, control := false, osc := false, oscEscape := false,
                          decoder := reading.decoder.(remaining := 0), gSelect := 0);
      front := front.(graphic := false);
    }

    /** The replacement glyph: remembered for REP when a sequence turns out bad, not when one is cut short. */
    method PrintReplacement(cut: bool)
      requires Ok()
      modifies `front, t`queued, t`ideal, t.queue, t.pending, t`cursorX, t`cursorY
      ensures Now() == EventStep(Kind(), old(Now()), Replacement, cut)
      ensures Ok()
    {
      hide Holds, CsiParams.Ok, Backend.Valid, Printed;
      if cut {
        PrintGlyph(t, front.insert, 1, REPLACEMENT);
      } else {
        Print(REPLACEMENT, 1);
      }
    }

    /** Carries out a decoder event other than a replacement. */
    method Deliver(e: Event, ghost cut: bool)
      requires Ok() && !e.Replacement? && (e.Plain? ==> reading.decoder.remaining == 0)
      modifies `front, `reading, t`queued, t`ideal, t.queue, t.pending, t`cursorX, t`cursorY
      ensures Now() == EventStep(Kind(), old(Now()), e, cut)
      ensures Ok()
    {
      hide Holds, CsiParams.Ok, Backend.Valid, CodePointIn, CodePointFront, PlainStep;
      match e
      case Glyph(cp) => PrintCodePoint(cp);
      case Plain(c) => PlainByte(c);
    }

    /** A byte outside escape sequences, fed to the UTF-8 decoder, whose events are carried out. */
    method TextByte(c: Octet)
      requires Ok() && !reading.escape
      modifies `front, `reading, t`queued, t`ideal, t.queue, t.pending, t`cursorX, t`cursorY
      ensures Now() == TextStep(Kind(), old(Now()), c)
      ensures Ok()
    {
      hide Holds, CsiParams.Ok, Backend.Valid, Feed, EventStep;
      var fed := Feed(reading.decoder, c);
      FeedShape(reading.decoder, c);
      reading := reading.(decoder := fed.0);
      if IsLead(c) { reading := reading.(gSelect := 0); }
      var events := fed.1;
      if |events| > 0 && events[0] == Replacement {
        PrintReplacement(!IsContinuation(c));
        events := events[1..];
      }
      if |events| > 0 { Deliver(events[0], !IsContinuation(c)); }
    }

    /** One byte of output. */
    method PutChar(c: Octet)
      requires Ok()
      modifies this, t, t.queue, t.pending
      ensures Now() == Step(Kind(), old(Now()), c)
      ensures Ok()
    {
      hide Holds, CsiParams.Ok, Backend.Valid, EscapeStep, TextStep, StateOk;
      if reading.discard || c == 0x18 || c == 0x1A {
        Cancel();
      } else if reading.escape {
        EscapeParse(c, c as char);
      } else {
        TextByte(c);
      }
    }

    /** A write ends with a flush, after which the display shows the screen the bytes make. */
    method Write(bytes: seq<Octet>)
      requires Ok()
      modifies this, t, t.grid, t.queue, t.pending, t.shown
      ensures Now() == Steps(Kind(), old(Now()), bytes)
      ensures Ok() && t.queued == 0 && t.Shows()
    {
      hide Holds, CsiParams.Ok, Backend.Valid, Step, StateOk;
      ghost var s := Now();
      for i := 0 to |bytes|
        invariant Ok() && Now() == Steps(Kind(), s, bytes[..i])
      {
        assert bytes[..i + 1][..i] == bytes[..i];
        PutChar(bytes[i]);
      }
      assert bytes[..|bytes|] == bytes;
      t.Flush();
      ScreenSize(t);
    }

    /** Text written from the ground state is on the display, its scalars printed in order. */
    method WriteText(cps: seq<nat>)
      requires Ok() && AtGround(reading) && IsText(cps)
      modifies this, t, t.grid, t.queue, t.pending, t.shown
      ensures Now() == TextState(Kind(), old(Now()), cps)
      ensures Ok() && AtGround(reading) && t.Shows()
    {
      hide Holds, CsiParams.Ok, Backend.Valid, StateOk, Steps, Encode;
      TextSteps(Kind(), Now(), cps);
      Write(EncodeAll(cps));
    }
  }
}
