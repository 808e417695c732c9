/** What whole byte sequences do to the terminal: text, control sequences, commands, saving and resetting. */
module TermLaws {
  import opened Cells
  import opened Common
  import opened CsiParams
  import opened CsiSpec
  import opened TermSpec
  import opened Utf8

  lemma {:induction false} StepsAppend(k: Screen, s: State, a: seq<Octet>, b: seq<Octet>)
    requires StateOk(k, s)
    ensures Steps(k, s, a + b) == Steps(k, Steps(k, s, a), b)
    decreases |b|
  {
    hide Step, StateOk;
    if b == [] {
      assert a + b == a;
    } else {
      StepsAppend(k, s, a, b[..|b| - 1]);
      assert (a + b)[..|a + b| - 1] == a + b[..|b| - 1];
    }
  }

  lemma NoSteps(k: Screen, s: State)
    requires StateOk(k, s)
    ensures Steps(k, s, []) == s
  {
  }

  lemma OneStep(k: Screen, s: State, c: Octet)
    requires StateOk(k, s)
    ensures Steps(k, s, [c]) == Step(k, s, c)
  {
    hide Step, StateOk;
    assert [c][..0] == [];
    assert Steps(k, s, []) == s;
  }

  lemma TwoSteps(k: Screen, s: State, a: Octet, b: Octet)
    requires StateOk(k, s)
    ensures Steps(k, s, [a, b]) == Step(k, Step(k, s, a), b)
  {
    hide Step, StateOk;
    OneStep(k, s, a);
    assert [a, b][..1] == [a];
  }

  // ----- Text -----

  predicate IsPrintable(cp: nat) { IsScalar(cp) && cp >= 0x20 && cp != 0x7F }

  predicate IsText(cps: seq<nat>)
    ensures IsText(cps) ==> forall i | 0 <= i < |cps| :: IsScalar(cps[i])
  {
    forall i | 0 <= i < |cps| :: IsPrintable(cps[i])
  }

  /**
   A scalar printed: its glyph in the character set in use, or of the code page, or the replacement over its width.
   */
  ghost function ScalarState(k: Screen, s: State, cp: nat): (n: State)
    requires StateOk(k, s) && !s.reading.escape && IsPrintable(cp)
    ensures StateOk(k, n) && n.reading == s.reading.(decoder := GROUND)
  {
    var t := s.(reading := s.reading.(decoder := GROUND));
    if cp < 0x80 then
      var glyph := GlyphFor(cp, s.front.charsets[s.front.charset]);
      t.(look := PrintedIn(k, s.look, s.front, 1, glyph), front := Remembered(s.front, glyph))
    else t.(look := CodePointIn(k, s.look, s.front, cp), front := CodePointFront(k, s.front, cp))
  }

  /** The scalars of a text printed one after the other. */
  ghost function TextState(k: Screen, s: State, cps: seq<nat>): (n: State)
    requires StateOk(k, s) && !s.reading.escape && IsText(cps)
    ensures StateOk(k, n) && n.reading == s.reading.(decoder := n.reading.decoder)
    ensures AtGround(s.reading) ==> AtGround(n.reading)
    decreases |cps|
  {
    if |cps| == 0 then s else ScalarState(k, TextState(k, s, cps[..|cps| - 1]), cps[|cps| - 1])
  }

  /** Bytes of text never cancel or escape: what they do is up to the decoder's events. */
  lemma TextFed(k: Screen, s: State, c: Octet)
    requires StateOk(k, s) && !s.reading.discard && !s.reading.escape && s.reading.gSelect == 0
    requires c != CAN && c != SUB && Feed(s.reading.decoder, c).1 == []
    ensures Step(k, s, c) == s.(reading := s.reading.(decoder := Feed(s.reading.decoder, c).0))
  {
    hide Feed;
  }

  /** The state after the first bytes of a scalar's encoding. */
  ghost function Within(s: State, cp: nat, i: nat): State
    requires 0x80 <= cp <= LAST && i <= |Encode(cp)|
  {
    s.(reading := s.reading.(decoder := Stage(cp, i)))
  }

  lemma FreshFed(d: Decoder, c: Octet)
    requires d.remaining == 0
    ensures Feed(d, c) == Feed(GROUND, c)
  {
  }

  lemma EncodedHigh(cp: nat, i: nat)
    requires 0x80 <= cp <= LAST && i < |Encode(cp)|
    ensures Encode(cp)[i] >= 0x80
  {
  }

  lemma AsciiFed(d: Decoder, cp: nat)
    requires d.remaining == 0 && IsPrintable(cp) && cp < 0x80
    ensures Encode(cp) == [cp] && Feed(d, cp) == (GROUND, [Plain(cp)]) && cp != CAN && cp != SUB && IsGraphic(cp)
    ensures !IsLead(cp)
  {
  }

  lemma FirstByte(k: Screen, s: State, cp: nat)
    requires StateOk(k, s) && AtGround(s.reading) && 0x80 <= cp && IsScalar(cp) && 1 < |Encode(cp)|
    ensures Steps(k, s, Encode(cp)[..1]) == Within(s, cp, 1)
  {
    var b := Encode(cp);
    EncodedHigh(cp, 0);
    StageStep(cp, 0);
    LastStage(cp);
    FreshFed(s.reading.decoder, b[0]);
    hide Feed, Encode, Stage, Step;
    TextFed(k, s, b[0]);
    OneStep(k, s, b[0]);
    assert b[..1] == [b[0]];
  }

  /** All bytes of an encoding but the last only move the decoder on. */
  lemma {:induction false} PrefixSteps(k: Screen, s: State, cp: nat, i: nat)
    requires StateOk(k, s) && AtGround(s.reading) && 0x80 <= cp && IsScalar(cp) && 1 <= i < |Encode(cp)|
    ensures Steps(k, s, Encode(cp)[..i]) == Within(s, cp, i)
    decreases i
  {
    hide Feed, Encode, Stage, Step;
    if i == 1 {
      FirstByte(k, s, cp);
    } else {
      var b := Encode(cp);
      EncodedHigh(cp, i - 1);
      StageStep(cp, i - 1);
      PrefixSteps(k, s, cp, i - 1);
      assert b[..i][..i - 1] == b[..i - 1];
      TextFed(k, Within(s, cp, i - 1), b[i - 1]);
    }
  }

  lemma GlyphFed(k: Screen, s: State, c: Octet, cp: nat)
    requires StateOk(k, s) && !s.reading.discard && !s.reading.escape && s.reading.gSelect == 0 && c >= 0x80
    requires Feed(s.reading.decoder, c) == (GROUND, [Glyph(cp)]) && 0x80 <= cp && IsScalar(cp)
    ensures Step(k, s, c) == ScalarState(k, s, cp)
  {
    hide Feed, CodePointIn, CodePointFront, PenOk, CsiParams.Ok;
  }

  lemma PlainFed(k: Screen, s: State, cp: nat)
    requires StateOk(k, s) && AtGround(s.reading) && IsPrintable(cp) && cp < 0x80
    ensures Step(k, s, cp) == ScalarState(k, s, cp)
  {
    AsciiFed(s.reading.decoder, cp);
    hide Feed, PrintedIn, GlyphFor, PenOk, CsiParams.Ok;
  }

  lemma HighSteps(k: Screen, s: State, cp: nat, b: seq<Octet>, i: nat)
    requires StateOk(k, s) && AtGround(s.reading) && 0x80 <= cp && IsScalar(cp)
    requires b == Encode(cp) && |b| == i + 1 && i >= 1
    ensures Steps(k, s, b) == ScalarState(k, s, cp)
  {
    EncodedHigh(cp, i);
    LastStage(cp);
    StageStep(cp, i);
    PrefixSteps(k, s, cp, i);
    hide Feed, Encode, Stage, Step, CodePointIn, CodePointFront, IsScalar;
    GlyphFed(k, Within(s, cp, i), b[i], cp);
    assert Steps(k, s, b) == Step(k, Steps(k, s, b[..i]), b[i]);
  }

  /** The encoding of a printable scalar, sent byte by byte, prints exactly that scalar. */
  lemma ScalarSteps(k: Screen, s: State, cp: nat)
    requires StateOk(k, s) && AtGround(s.reading) && IsPrintable(cp)
    ensures Steps(k, s, Encode(cp)) == ScalarState(k, s, cp)
  {
    hide Step, ScalarState, Steps;
    if cp < 0x80 {
      PlainFed(k, s, cp);
      OneStep(k, s, cp);
    } else {
      HighSteps(k, s, cp, Encode(cp), |Encode(cp)| - 1);
    }
  }

  lemma {:induction false} EncodeAllSplit(cps: seq<nat>, n: nat)
    requires |cps| == n + 1 && forall i | 0 <= i < |cps| :: IsScalar(cps[i])
    ensures EncodeAll(cps) == EncodeAll(cps[..n]) + Encode(cps[n])
    decreases n
  {
    hide Encode;
    if n == 0 {
      assert EncodeAll(cps) == Encode(cps[0]) + EncodeAll(cps[1..]);
    } else {
      EncodeAllSplit(cps[1..], n - 1);
      assert cps[1..][..n - 1] == cps[..n][1..];
    }
  }

  /** The encoding of any printable text prints its scalars in order and leaves the parser ready for text. */
  lemma {:induction false} TextSteps(k: Screen, s: State, cps: seq<nat>)
    requires StateOk(k, s) && AtGround(s.reading) && IsText(cps)
    ensures Steps(k, s, EncodeAll(cps)) == TextState(k, s, cps)
    decreases |cps|
  {
    hide Step, Encode, ScalarState, StateOk;
    if |cps| > 0 {
      var n := |cps| - 1;
      TextSteps(k, s, cps[..n]);
      EncodeAllSplit(cps, n);
      StepsAppend(k, s, EncodeAll(cps[..n]), Encode(cps[n]));
      ScalarSteps(k, TextState(k, s, cps[..n]), cps[n]);
    }
  }

  // ----- Only well-formed sequences are looked up -----

  lemma PrivateDecoder(k: Screen, s: State, c: Octet)
    requires StateOk(k, s) && s.reading.control
    ensures PrivateStep(k, s, c).reading.decoder == s.reading.decoder
  {
    hide SwitchedAll, LookOk, FrontOk, CsiParams.Ok;
  }

  lemma ControlDecoder(k: Screen, s: State, c: Octet)
    requires StateOk(k, s) && s.reading.control
    ensures ControlStep(k, s, c).reading.decoder == s.reading.decoder
  {
    hide PrivateStep, ActedLook, ActedFront, LookOk, FrontOk, CsiParams.Ok, FinalParams, Digit, Separator;
    if !IsParameter(s.reading.offset, c) && !(c < 0x20 && c != ESC) && s.reading.private {
      PrivateDecoder(k, s.(reading := s.reading.(params := FinalParams(s.reading.params, c as char))), c);
    }
  }

  lemma EffectDecoder(k: Screen, s: State, c: char)
    requires StateOk(k, s) && s.reading.decoder.remaining == 0
    ensures EscapeEffect(k, s, c).reading.decoder.remaining == 0
  {
    hide LookOk, FrontOk, CsiParams.Ok, LineFed, ReverseFed, ResetLook;
  }

  lemma PlainDecoder(k: Screen, s: State, c: Octet)
    requires StateOk(k, s) && s.reading.escape && !s.reading.control && !s.reading.osc
    ensures PlainEscapeStep(k, s, c).reading.decoder.remaining == 0
  {
    hide EscapeEffect, LookOk, FrontOk, CsiParams.Ok;
    EffectDecoder(k, s, c as char);
  }

  /** Inside an escape sequence no UTF-8 sequence begins. */
  lemma EscapeDecoder(k: Screen, s: State, c: Octet)
    requires StateOk(k, s) && s.reading.escape
    ensures EscapeStep(k, s, c).reading.decoder.remaining == 0
  {
    hide ControlStep, PlainEscapeStep, LookOk, FrontOk, CsiParams.Ok;
    var r := s.reading.(offset := s.reading.offset + 1);
    if !r.osc || OscLeft(r, c) {
      var t := s.(reading := if r.osc then OscStep(r, c).(offset := 1) else r);
      if t.reading.control { ControlDecoder(k, t, c); } else { PlainDecoder(k, t, c); }
    }
  }

  lemma PlainStepDecoder(k: Screen, s: State, c: Octet)
    requires StateOk(k, s) && s.reading.decoder.remaining == 0
    ensures PlainStep(k, s, c).reading.decoder == s.reading.decoder
  {
    hide LookOk, FrontOk, CsiParams.Ok, PrintedIn, GlyphFor, Controlled;
  }

  lemma EventDecoder(k: Screen, s: State, e: Event, cut: bool)
    requires StateOk(k, s) && (e.Plain? ==> s.reading.decoder.remaining == 0)
    ensures EventStep(k, s, e, cut).reading.decoder == s.reading.decoder
  {
    hide PlainStep, StateOk, CodePointIn, CodePointFront, PrintedIn;
    if e.Plain? { PlainStepDecoder(k, s, e.c); }
  }

  lemma TextDecoder(k: Screen, s: State, c: Octet)
    requires StateOk(k, s) && !s.reading.escape
    ensures TextStep(k, s, c).reading.decoder == Feed(s.reading.decoder, c).0
  {
    FeedShape(s.reading.decoder, c);
    var fed, cut := Feed(s.reading.decoder, c), !IsContinuation(c);
    var r := s.reading.(decoder := fed.0);
    var t := s.(reading := if IsLead(c) then r.(gSelect := 0) else r);
    assert StateOk(k, t);
    hide EventStep, StateOk, Feed;
    if |fed.1| > 0 {
      EventDecoder(k, t, fed.1[0], cut);
      if |fed.1| > 1 { EventDecoder(k, EventStep(k, t, fed.1[0], cut), fed.1[1], cut); }
    }
  }

  /** Every byte is taken in by the decoder, or leaves it with no sequence begun. */
  lemma StepDecoder(k: Screen, s: State, c: Octet)
    requires StateOk(k, s)
    ensures var d := Step(k, s, c).reading.decoder; d.remaining == 0 || d == Feed(s.reading.decoder, c).0
  {
    hide EscapeStep, TextStep, StateOk;
    if s.reading.discard || c == CAN || c == SUB {
    } else if s.reading.escape {
      EscapeDecoder(k, s, c);
    } else {
      TextDecoder(k, s, c);
    }
  }

  lemma {:induction false} StreamTracks(k: Screen, s: State, bytes: seq<Octet>) returns (p: seq<Octet>)
    requires StateOk(k, s) && s.reading.decoder.remaining == 0
    ensures EndsIn(bytes, Steps(k, s, bytes).reading.decoder, p)
    decreases |bytes|
  {
    hide Step, Steps, StateOk, Feed, EndsIn;
    if bytes == [] {
      NoSteps(k, s);
      NothingEnds(s.reading.decoder);
      p := [];
    } else {
      var n := |bytes| - 1;
      p := StreamTracks(k, s, bytes[..n]);
      var t := Steps(k, s, bytes[..n]);
      StepDecoder(k, t, bytes[n]);
      LastStep(k, s, bytes, n);
      p := EndsInMore(bytes[..n], t.reading.decoder, p, bytes[n], Step(k, t, bytes[n]).reading.decoder);
      assert bytes[..n] + [bytes[n]] == bytes;
    }
  }

  lemma LastStep(k: Screen, s: State, bytes: seq<Octet>, n: nat)
    requires StateOk(k, s) && |bytes| == n + 1
    ensures Steps(k, s, bytes) == Step(k, Steps(k, s, bytes[..n]), bytes[n])
  {
    hide Step, StateOk;
  }

  /**
   Over every stream of bytes, escape sequences, commands and cancelled or discarded bytes among them, a code
   point is looked up only when the bytes just sent are its encoding: never for an overlong form, a surrogate or
   a value above 0x10FFFF.
   */
  lemma LookupsAreWellFormed(k: Screen, s: State, bytes: seq<Octet>, c: Octet, cp: nat)
    requires StateOk(k, s) && s.reading.decoder.remaining == 0
    requires Glyph(cp) in Feed(Steps(k, s, bytes).reading.decoder, c).1
    ensures IsScalar(cp) && cp >= 0x80
    ensures |Encode(cp)| <= |bytes| + 1 && (bytes + [c])[|bytes| + 1 - |Encode(cp)|..] == Encode(cp)
  {
    hide Feed, Encode, Steps, StateOk, EndsIn;
    var p := StreamTracks(k, s, bytes);
    LookupEnds(bytes, Steps(k, s, bytes).reading.decoder, p, c, cp);
  }

  // ----- Control sequences -----

  predicate AllDigits(ds: seq<nat>) { forall i | 0 <= i < |ds| :: ds[i] < 10 }

  /** Decimal digits as bytes. */
  function DigitBytes(ds: seq<nat>): (b: seq<Octet>)
    requires AllDigits(ds)
    ensures |b| == |ds| && forall i | 0 <= i < |ds| :: b[i] == ds[i] + 0x30
  {
    seq(|ds|, i requires 0 <= i < |ds| && ds[i] < 10 => ds[i] + 0x30)
  }

  /** A parameter list as it is printed: numbers with semicolons between them. */
  function ParamBytes(ns: seq<nat>): seq<Octet> {
    if |ns| == 0 then []
    else if |ns| == 1 then DigitBytes(Decimal(ns[0]))
    else DigitBytes(Decimal(ns[0])) + [SEMICOLON] + ParamBytes(ns[1..])
  }

  /** A whole control sequence. */
  function Sequence(marker: bool, ns: seq<nat>, final: Octet): seq<Octet> {
    [ESC, BRACKET] + (if marker then [QUESTION] else []) + ParamBytes(ns) + [final]
  }

  /** The state inside a control sequence that started in s. */
  function Inside(s: State, offset: nat, p: Params, private: bool): State {
    s.(reading := s.reading.(escape := true, control := true, offset := offset, params := p,
                             private := private, unhandled := false))
  }

  lemma InsideOk(k: Screen, s: State, offset: nat, p: Params, private: bool)
    requires StateOk(k, s) && AtGround(s.reading) && CsiParams.Ok(p)
    ensures StateOk(k, Inside(s, offset, p, private))
  {
    hide LookOk, FrontOk;
  }

  lemma ParameterFed(k: Screen, s: State, offset: nat, p: Params, private: bool, c: Octet)
    requires StateOk(k, s) && AtGround(s.reading) && CsiParams.Ok(p) && offset > 0 && (IsDigit(c) || c == SEMICOLON)
    ensures StateOk(k, Inside(s, offset, p, private))
    ensures Step(k, Inside(s, offset, p, private), c) ==
            Inside(s, offset + 1, if c == SEMICOLON then Separator(p) else Digit(p, c - 0x30), private)
  {
    hide LookOk, FrontOk, CsiParams.Ok, Digit, Separator;
  }

  lemma DigitFed(k: Screen, s: State, offset: nat, p: Params, private: bool, ds: seq<nat>, n: nat)
    requires StateOk(k, s) && AtGround(s.reading) && CsiParams.Ok(p) && offset > 0 && |ds| == n + 1 && AllDigits(ds)
    requires StateOk(k, Inside(s, offset, p, private)) && AllDigits(ds[..n])
    requires Steps(k, Inside(s, offset, p, private), DigitBytes(ds[..n])) ==
             Inside(s, offset + n, Digits(p, ds[..n]), private)
    ensures Steps(k, Inside(s, offset, p, private), DigitBytes(ds)) == Inside(s, offset + n + 1, Digits(p, ds), private)
  {
    hide Step, StateOk, Inside, Digit, CsiParams.Ok;
    assert DigitBytes(ds)[..n] == DigitBytes(ds[..n]);
    ParameterFed(k, s, offset + n, Digits(p, ds[..n]), private, DigitBytes(ds)[n]);
  }

  lemma {:induction false} DigitSteps(k: Screen, s: State, offset: nat, p: Params, private: bool, ds: seq<nat>)
    requires StateOk(k, s) && AtGround(s.reading) && CsiParams.Ok(p) && offset > 0 && AllDigits(ds)
    ensures StateOk(k, Inside(s, offset, p, private))
    ensures Steps(k, Inside(s, offset, p, private), DigitBytes(ds)) == Inside(s, offset + |ds|, Digits(p, ds), private)
    decreases |ds|
  {
    InsideOk(k, s, offset, p, private);
    hide Step, StateOk, Inside, Digit;
    if ds == [] {
      assert DigitBytes(ds) == [];
    } else {
      hide Steps, DigitBytes, Digits;
      var n := |ds| - 1;
      DigitSteps(k, s, offset, p, private, ds[..n]);
      DigitFed(k, s, offset, p, private, ds, n);
    }
  }

  /** A number and the semicolon after it. */
  lemma NumberSteps(k: Screen, s: State, offset: nat, p: Params, private: bool, n: nat)
    requires StateOk(k, s) && AtGround(s.reading) && CsiParams.Ok(p) && offset > 0
    ensures StateOk(k, Inside(s, offset, p, private))
    ensures Steps(k, Inside(s, offset, p, private), DigitBytes(Decimal(n)) + [SEMICOLON]) ==
            Inside(s, offset + |Decimal(n)| + 1, Separator(Digits(p, Decimal(n))), private)
  {
    hide Step, StateOk, Inside, Digit, Digits, Separator, Steps, Decimal, DigitBytes;
    var ds := Decimal(n);
    DigitSteps(k, s, offset, p, private, ds);
    StepsAppend(k, Inside(s, offset, p, private), DigitBytes(ds), [SEMICOLON]);
    ParameterFed(k, s, offset + |ds|, Digits(p, ds), private, SEMICOLON);
    OneStep(k, Inside(s, offset + |ds|, Digits(p, ds), private), SEMICOLON);
  }

  /** The parameter list is read as Read says, up to the byte that closes its last value. */
  lemma {:induction false} ParamSteps(k: Screen, s: State, offset: nat, p: Params, private: bool, ns: seq<nat>)
    returns (q: Params)
    requires StateOk(k, s) && AtGround(s.reading) && CsiParams.Ok(p) && offset > 0
    ensures CsiParams.Ok(q) && Close(q) == Close(Read(p, ns))
    ensures StateOk(k, Inside(s, offset, p, private))
    ensures Steps(k, Inside(s, offset, p, private), ParamBytes(ns)) == Inside(s, offset + |ParamBytes(ns)|, q, private)
    decreases |ns|
  {
    hide Step, StateOk, Inside, Digit, Digits, Decimal, CsiParams.Ok, DigitBytes, Read, Close, Separator, Steps;
    InsideOk(k, s, offset, p, private);
    ReadOne(p, ns);
    if |ns| == 0 {
      q := p;
      NoSteps(k, Inside(s, offset, p, private));
    } else if |ns| == 1 {
      DigitSteps(k, s, offset, p, private, Decimal(ns[0]));
      q := Digits(p, Decimal(ns[0]));
    } else {
      var ds := Decimal(ns[0]);
      var tail := ParamBytes(ns[1..]);
      assert ParamBytes(ns) == DigitBytes(ds) + [SEMICOLON] + tail;
      hide ParamBytes;
      NumberSteps(k, s, offset, p, private, ns[0]);
      q := ParamSteps(k, s, offset + |ds| + 1, Separator(Digits(p, ds)), private, ns[1..]);
      StepsAppend(k, Inside(s, offset, p, private), DigitBytes(ds) + [SEMICOLON], tail);
      assert offset + |ds| + 1 + |tail| == offset + |ParamBytes(ns)|;
    }
  }

  lemma ReadOne(p: Params, ns: seq<nat>)
    requires CsiParams.Ok(p)
    ensures |ns| == 0 ==> Read(p, ns) == p
    ensures |ns| == 1 ==> Close(Read(p, ns)) == Close(Digits(p, Decimal(ns[0])))
    ensures |ns| > 1 ==> Read(p, ns) == Read(Separator(Digits(p, Decimal(ns[0]))), ns[1..])
  {
    hide Digits, Decimal, Separator;
  }

  function Rested(s: State): State { s.(reading := s.reading.(decoder := GROUND)) }

  lemma EscapeFed(k: Screen, s: State)
    requires StateOk(k, s) && AtGround(s.reading)
    ensures StateOk(k, Rested(s)) && AtGround(Rested(s).reading)
    ensures Step(k, s, ESC) == Rested(s).(reading := Rested(s).reading.(escape := true, offset := 0))
  {
    hide LookOk, FrontOk, CsiParams.Ok;
    FreshFed(s.reading.decoder, ESC);
    assert Feed(GROUND, ESC) == (GROUND, [Plain(ESC)]);
  }

  lemma BracketFed(k: Screen, s: State)
    requires StateOk(k, s) && AtGround(s.reading)
    ensures var e := s.(reading := s.reading.(escape := true, offset := 0));
            StateOk(k, e) && Step(k, e, BRACKET) == Inside(s, 1, CsiParams.Start(), s.reading.private)
  {
    hide LookOk, FrontOk, CsiParams.Ok, CsiParams.Start;
  }

  lemma QuestionFed(k: Screen, s: State, p: Params, private: bool)
    requires StateOk(k, s) && AtGround(s.reading) && CsiParams.Ok(p)
    ensures StateOk(k, Inside(s, 1, p, private)) && Step(k, Inside(s, 1, p, private), QUESTION) == Inside(s, 2, p, true)
  {
    hide LookOk, FrontOk, CsiParams.Ok;
  }

  lemma OpenSteps(k: Screen, s: State, marker: bool)
    requires StateOk(k, s) && AtGround(s.reading)
    ensures Steps(k, s, [ESC, BRACKET] + if marker then [QUESTION] else []) ==
            Inside(Rested(s), if marker then 2 else 1, CsiParams.Start(), s.reading.private || marker)
  {
    hide Step, Steps, CsiParams.Ok, CsiParams.Start;
    EscapeFed(k, s);
    BracketFed(k, Rested(s));
    TwoSteps(k, s, ESC, BRACKET);
    if marker {
      var i := Inside(Rested(s), 1, CsiParams.Start(), s.reading.private);
      QuestionFed(k, Rested(s), CsiParams.Start(), s.reading.private);
      StepsAppend(k, s, [ESC, BRACKET], [QUESTION]);
      OneStep(k, i, QUESTION);
    } else {
      assert [ESC, BRACKET] + [] == [ESC, BRACKET];
    }
  }

  /** The effect of a private sequence: the modes it names, or nothing. */
  ghost function PrivateEffect(k: Screen, s: State, p: Params, c: char): State
    requires StateOk(k, s) && CsiParams.Ok(p)
  {
    if c == 'h' || c == 'l' then SwitchedAll(k, s, p.values[..p.index], c == 'h') else s
  }

  /** The effect of an ordinary one. */
  ghost function Effect(k: Screen, s: State, p: Params, c: char): State
    requires StateOk(k, s) && Suits(p, c)
  {
    s.(look := ActedLook(k, s.look, s.front, c, p), front := ActedFront(k, s.look.pen, s.front, c, p))
  }

  lemma {:induction false} SwitchingIgnoresReading(k: Screen, s: State, r: Reading, values: seq<nat>, on: bool)
    requires StateOk(k, s) && StateOk(k, s.(reading := r))
    ensures SwitchedAll(k, s.(reading := r), values, on) == SwitchedAll(k, s, values, on).(reading := r)
    decreases |values|
  {
    hide LookOk, FrontOk, ReadingOk, Cleared;
    if values != [] { SwitchingIgnoresReading(k, s, r, values[..|values| - 1], on); }
  }

  /** n shows the screen and the modes of m, and is ready for text with no private marker left. */
  ghost predicate Done(n: State, m: State) {
    n.look == m.look && n.front == m.front && AtGround(n.reading) && !n.reading.private
  }

  lemma PrivateFinal(k: Screen, s: State, offset: nat, q: Params, c: Octet)
    requires StateOk(k, s) && AtGround(s.reading) && CsiParams.Ok(q) && offset > 0 && 0x40 <= c <= 0x7E
    requires !(offset == 1 && c == BRACKET)
    ensures StateOk(k, Inside(s, offset, q, true))
    ensures Done(Step(k, Inside(s, offset, q, true), c), PrivateEffect(k, s, FinalParams(q, c as char), c as char))
  {
    hide LookOk, FrontOk, CsiParams.Ok, FinalParams, SwitchedAll;
    InsideOk(k, s, offset, q, true);
    var p := FinalParams(q, c as char);
    ParamCount(p);
    var r := s.reading.(escape := true, control := true, offset := offset + 1, params := p,
                        private := false, unhandled := false);
    if c as char == 'h' || c as char == 'l' {
      SwitchingIgnoresReading(k, s, r, p.values[..p.index], c as char == 'h');
    }
  }

  lemma OrdinaryFinal(k: Screen, s: State, offset: nat, q: Params, c: Octet)
    requires StateOk(k, s) && AtGround(s.reading) && CsiParams.Ok(q) && offset > 0 && 0x40 <= c <= 0x7E
    requires !(offset == 1 && c == BRACKET)
    ensures StateOk(k, Inside(s, offset, q, false))
    ensures Done(Step(k, Inside(s, offset, q, false), c), Effect(k, s, FinalParams(q, c as char), c as char))
  {
    hide LookOk, FrontOk, CsiParams.Ok, FinalParams, ActedLook, ActedFront;
    InsideOk(k, s, offset, q, false);
  }

  lemma FinalClosed(p: Params, q: Params, c: char)
    requires CsiParams.Ok(p) && CsiParams.Ok(q) && Close(p) == Close(q)
    ensures FinalParams(p, c) == FinalParams(q, c)
  {
  }

  /**
   A whole control sequence, with or without the private marker: it acts with exactly the parameters printed,
   as a private one if it has the marker or the marker of an earlier sequence was left set.
   */
  lemma SequenceSteps(k: Screen, s: State, marker: bool, ns: seq<nat>, final: Octet)
    requires StateOk(k, s) && AtGround(s.reading) && 0x40 <= final <= 0x7E
    requires !(final == BRACKET && ns == [] && !marker)
    ensures var p, c := FinalParams(Read(CsiParams.Start(), ns), final as char), final as char;
            Done(Steps(k, s, Sequence(marker, ns, final)),
                 if marker || s.reading.private then PrivateEffect(k, s, p, c) else Effect(k, s, p, c))
  {
    hide *;
    var open := [ESC, BRACKET] + if marker then [QUESTION] else [];
    var offset, private := if marker then 2 else 1, s.reading.private || marker;
    SequenceParts(marker, ns, final);
    SomeBytes(ns);
    EscapeFed(k, s);
    OpenSteps(k, s, marker);
    var q := ParamSteps(k, Rested(s), offset, CsiParams.Start(), private, ns);
    FinalClosed(q, Read(CsiParams.Start(), ns), final as char);
    StepsAppend(k, s, open, ParamBytes(ns));
    StepsAppend(k, s, open + ParamBytes(ns), [final]);
    SequenceEnd(k, s, offset + |ParamBytes(ns)|, q, private, final);
  }

  lemma SequenceParts(marker: bool, ns: seq<nat>, final: Octet)
    ensures Sequence(marker, ns, final) ==
            ([ESC, BRACKET] + if marker then [QUESTION] else []) + ParamBytes(ns) + [final]
  {
  }

  lemma SomeBytes(ns: seq<nat>)
    ensures ns == [] <==> ParamBytes(ns) == []
  {
  }

  lemma SequenceEnd(k: Screen, s: State, offset: nat, q: Params, private: bool, final: Octet)
    requires StateOk(k, s) && AtGround(s.reading) && 0x40 <= final <= 0x7E && CsiParams.Ok(q) && offset > 0
    requires !(final == BRACKET && offset == 1)
    ensures StateOk(k, Inside(Rested(s), offset, q, private))
    ensures var p, c := FinalParams(q, final as char), final as char;
            Done(Steps(k, Inside(Rested(s), offset, q, private), [final]),
                 if private then PrivateEffect(k, s, p, c) else Effect(k, s, p, c))
  {
    hide Step, Steps, CsiParams.Ok, FinalParams, Inside, SwitchedAll, ActedLook, ActedFront;
    EscapeFed(k, s);
    var p, c := FinalParams(q, final as char), final as char;
    if private {
      PrivateFinal(k, Rested(s), offset, q, final);
      ParamCount(p);
      SwitchingIgnoresReading(k, s, Rested(s).reading, p.values[..p.index], c == 'h');
    } else {
      OrdinaryFinal(k, Rested(s), offset, q, final);
    }
    OneStep(k, Inside(Rested(s), offset, q, private), final);
  }

  // ----- A private marker left behind -----

  lemma CancelFed(k: Screen, s: State, offset: nat, p: Params, private: bool)
    requires StateOk(k, s) && AtGround(s.reading) && CsiParams.Ok(p)
    ensures StateOk(k, Inside(s, offset, p, private))
    ensures var n := Step(k, Inside(s, offset, p, private), CAN);
            && AtGround(n.reading) && n.reading.private == private
            && n.look == s.look && n.front == s.front.(graphic := false)
  {
    hide LookOk, FrontOk, CsiParams.Ok;
  }

  /** Cancelling a sequence right after its marker leaves the marker set. */
  lemma MarkerStays(k: Screen, s: State)
    requires StateOk(k, s) && AtGround(s.reading)
    ensures var n := Steps(k, s, [ESC, BRACKET, QUESTION, CAN]);
            AtGround(n.reading) && n.reading.private && n.look == s.look && n.front == s.front.(graphic := false)
  {
    assert [ESC, BRACKET, QUESTION, CAN] == [ESC, BRACKET] + [QUESTION] + [CAN];
    EscapeFed(k, s);
    OpenSteps(k, s, true);
    hide *;
    CancelFed(k, Rested(s), 2, CsiParams.Start(), true);
    StepsAppend(k, s, [ESC, BRACKET] + [QUESTION], [CAN]);
    OneStep(k, Inside(Rested(s), 2, CsiParams.Start(), true), CAN);
    assert Rested(s).look == s.look && Rested(s).front == s.front by { RestedSame(s); }
  }

  lemma RestedSame(s: State)
    ensures Rested(s).look == s.look && Rested(s).front == s.front && Rested(s).reading.private == s.reading.private
  {
  }

  /** So the next sequence is taken for a private one, and does nothing unless it ends in h or l or a bare bracket. */
  lemma Swallowed(k: Screen, s: State, ns: seq<nat>, final: Octet)
    requires StateOk(k, s) && AtGround(s.reading) && 0x40 <= final <= 0x7E && final as char != 'h'
    requires final as char != 'l'
    requires !(final == BRACKET && ns == [])
    ensures var n := Steps(k, s, [ESC, BRACKET, QUESTION, CAN] + Sequence(false, ns, final));
            n.look == s.look && n.front == s.front.(graphic := false)
  {
    hide Step, Steps, CsiParams.Ok, FinalParams, Read, Sequence;
    MarkerStays(k, s);
    var m := Steps(k, s, [ESC, BRACKET, QUESTION, CAN]);
    SequenceSteps(k, m, false, ns, final);
    StepsAppend(k, s, [ESC, BRACKET, QUESTION, CAN], Sequence(false, ns, final));
  }

  /** An input where that shows: CHA does not take the cursor to the first column. */
  lemma ColumnSwallowed(k: Screen, s: State)
    requires StateOk(k, s) && AtGround(s.reading) && !s.reading.private && s.look.pen.x > 0
    ensures Steps(k, s, Sequence(false, [1], 'G' as int)).look.pen.x == 0
    ensures Steps(k, s, [ESC, BRACKET, QUESTION, CAN] + Sequence(false, [1], 'G' as int)).look.pen.x == s.look.pen.x
  {
    FirstColumn();
    hide Step, Steps, CsiParams.Ok, FinalParams, Read, Sequence, Effect, StateOk;
    SequenceSteps(k, s, false, [1], 'G' as int);
    ToFirstColumn(k, s, FinalParams(Read(CsiParams.Start(), [1]), 'G'));
    Swallowed(k, s, [1], 'G' as int);
  }

  lemma FirstColumn()
    ensures FinalParams(Read(CsiParams.Start(), [1]), 'G').values[0] == 1
  {
    hide Read;
    ListRead(CsiParams.Start(), [1]);
    assert Read(CsiParams.Start(), [1]).values[0] == [1][0];
  }

  lemma ToFirstColumn(k: Screen, s: State, p: Params)
    requires StateOk(k, s) && Suits(p, 'G') && p.values[0] == 1
    ensures Effect(k, s, p, 'G').look.pen.x == 0
  {
  }

  // ----- Saving, restoring and resetting -----

  lemma EscapeIgnoresReading(k: Screen, s: State, r: Reading, c: char)
    requires StateOk(k, s) && StateOk(k, s.(reading := r))
    ensures EscapeEffect(k, s.(reading := r), c).look == EscapeEffect(k, s, c).look
    ensures EscapeEffect(k, s.(reading := r), c).front == EscapeEffect(k, s, c).front
  {
    hide LookOk, FrontOk, ReadingOk, LineFed, ReverseFed, ResetLook;
  }

  lemma EscapeGround(k: Screen, s: State, c: char)
    requires StateOk(k, s) && c in {'7', '8', 'c', 'D', 'E', 'M'}
    ensures var r := EscapeEffect(k, s, c).reading; if c == 'c' then AtGround(r) else r == s.reading
  {
    hide LookOk, FrontOk, LineFed, ReverseFed, ResetLook;
  }

  lemma EscapeFinal(k: Screen, s: State, e: State, c: Octet)
    requires StateOk(k, s) && AtGround(s.reading) && c as char in {'7', '8', 'c', 'D', 'E', 'M'}
    requires e == s.(reading := s.reading.(escape := true, offset := 0))
    ensures StateOk(k, e)
    ensures var n := Step(k, e, c);
            && AtGround(n.reading)
            && n.look == EscapeEffect(k, s, c as char).look && n.front == EscapeEffect(k, s, c as char).front
  {
    hide LookOk, FrontOk, CsiParams.Ok;
    var r := s.reading.(escape := true, offset := 1);
    assert StateOk(k, s.(reading := r));
    EscapeIgnoresReading(k, s, r, c as char);
    EscapeGround(k, s.(reading := r), c as char);
    hide EscapeEffect, ControlStep, TextStep, OscStep;
  }

  lemma EscapeTwo(k: Screen, s: State, c: Octet)
    requires StateOk(k, s) && AtGround(s.reading) && c as char in {'7', '8', 'c', 'D', 'E', 'M'}
    ensures var n := Steps(k, s, [ESC, c]);
            && AtGround(n.reading)
            && n.look == EscapeEffect(k, s, c as char).look && n.front == EscapeEffect(k, s, c as char).front
  {
    hide Step, Steps, EscapeEffect, CsiParams.Ok;
    EscapeFed(k, s);
    TwoSteps(k, s, ESC, c);
    EscapeFinal(k, Rested(s), Step(k, s, ESC), c);
    EscapeIgnoresReading(k, s, Rested(s).reading, c as char);
  }

  /**
   DECSC and DECRC: whatever happened in between, as long as nothing else was saved, cursor, attributes, origin
   mode and character sets are as at the save, and the cells stay as they are.
   */
  lemma SaveThenRestore(k: Screen, s: State, t: State)
    requires StateOk(k, s) && AtGround(s.reading) && StateOk(k, t) && AtGround(t.reading)
    requires t.front.saved == Steps(k, s, [ESC, '7' as int]).front.saved
    ensures var n, l, f := Steps(k, t, [ESC, '8' as int]), s.look, s.front;
            && n.look == t.look.(fg := l.fg, bg := l.bg, fgDefault := l.fgDefault, bgDefault := l.bgDefault,
                                 pen := t.look.pen.(x := l.pen.x, y := l.pen.y))
            && n.front == t.front.(origin := f.origin, charset := f.charset, charsets := f.charsets)
  {
    hide LookOk, FrontOk, CsiParams.Ok, Steps, Step;
    EscapeTwo(k, s, '7' as int);
    EscapeTwo(k, t, '8' as int);
  }

  /** Alike on the display: the background colour kept behind the default one does not show. */
  ghost predicate LooksAlike(a: Look, b: Look) {
    && a == b.(bg := a.bg, pen := b.pen.(cells := a.pen.cells)) && |a.pen.cells| == |b.pen.cells|
    && forall i | 0 <= i < |a.pen.cells| :: Alike(a.pen.cells[i], b.pen.cells[i])
  }

  /** RIS forgets everything that shows: any two states look the same after it and have the same modes. */
  lemma ResetForgets(k: Screen, s: State, t: State)
    requires StateOk(k, s) && AtGround(s.reading) && StateOk(k, t) && AtGround(t.reading)
    ensures LooksAlike(Steps(k, s, [ESC, 'c' as int]).look, Steps(k, t, [ESC, 'c' as int]).look)
    ensures var f, g := Steps(k, s, [ESC, 'c' as int]).front, Steps(k, t, [ESC, 'c' as int]).front;
            f == g.(saved := g.saved.(bg := f.saved.bg))
  {
    hide CsiParams.Ok, Steps, Step;
    EscapeTwo(k, s, 'c' as int);
    EscapeTwo(k, t, 'c' as int);
    ResetAlike(k, s.look, t.look);
  }

  lemma ResetAlike(k: Screen, l: Look, m: Look)
    requires LookOk(k, l) && LookOk(k, m)
    ensures LooksAlike(ResetLook(k, l), ResetLook(k, m))
  {
  }

  // ----- Operating system commands -----

  /** The state inside a command. */
  function InCommand(s: State, offset: nat, buf: seq<Octet>): State {
    s.(reading := s.reading.(escape := true, osc := true, oscEscape := false, offset := offset, oscBuf := buf))
  }

  predicate IsPayload(b: seq<Octet>) { forall i | 0 <= i < |b| :: b[i] !in {ESC, BEL, CAN, SUB} }

  /** A prefix of at most a buffer's size. */
  function Kept256(b: seq<Octet>): seq<Octet> { b[..Min(|b|, OSC_SIZE)] }

  lemma CommandFed(k: Screen, s: State, offset: nat, buf: seq<Octet>, c: Octet)
    requires StateOk(k, s) && AtGround(s.reading) && |buf| <= OSC_SIZE && c !in {ESC, CAN, SUB}
    ensures StateOk(k, InCommand(s, offset, buf))
    ensures var n := Step(k, InCommand(s, offset, buf), c);
            if c == BEL then n == s.(reading := s.reading.(oscEscape := false, offset := offset + 1, oscBuf := buf))
            else n == InCommand(s, offset + 1, if |buf| < OSC_SIZE then buf + [c] else buf)
  {
    hide LookOk, FrontOk, CsiParams.Ok;
  }

  lemma CommandOpens(k: Screen, s: State)
    requires StateOk(k, s) && AtGround(s.reading)
    ensures Steps(k, s, [ESC, ']' as int]) == InCommand(Rested(s), 1, [])
  {
    EscapeFed(k, s);
    TwoSteps(k, s, ESC, ']' as int);
    hide LookOk, FrontOk, CsiParams.Ok, Steps, Feed, EscapeEffect;
  }

  lemma KeptMore(b: seq<Octet>, n: nat)
    requires |b| == n + 1
    ensures |Kept256(b[..n])| <= OSC_SIZE
    ensures Kept256(b) == if |Kept256(b[..n])| < OSC_SIZE then Kept256(b[..n]) + [b[n]] else Kept256(b[..n])
  {
  }

  lemma InCommandOk(k: Screen, s: State, offset: nat, buf: seq<Octet>)
    requires StateOk(k, s) && AtGround(s.reading) && |buf| <= OSC_SIZE
    ensures StateOk(k, InCommand(s, offset, buf))
  {
    hide LookOk, FrontOk;
  }

  lemma {:induction false} PayloadSteps(k: Screen, s: State, b: seq<Octet>)
    requires StateOk(k, s) && AtGround(s.reading) && IsPayload(b)
    ensures StateOk(k, InCommand(s, 1, []))
    ensures Steps(k, InCommand(s, 1, []), b) == InCommand(s, 1 + |b|, Kept256(b))
    decreases |b|
  {
    InCommandOk(k, s, 1, []);
    hide Step, StateOk, InCommand;
    if b == [] {
      NoSteps(k, InCommand(s, 1, []));
      assert Kept256(b) == b;
    } else {
      hide Kept256;
      var n := |b| - 1;
      PayloadSteps(k, s, b[..n]);
      KeptMore(b, n);
      CommandFed(k, s, 1 + n, Kept256(b[..n]), b[n]);
    }
  }

  /** A command touches neither the screen nor the modes, and its first 256 bytes are kept. */
  lemma CommandSteps(k: Screen, s: State, b: seq<Octet>)
    requires StateOk(k, s) && AtGround(s.reading) && IsPayload(b)
    ensures var n := Steps(k, s, [ESC, ']' as int] + b + [BEL]);
            n.look == s.look && n.front == s.front && AtGround(n.reading) && n.reading.oscBuf == Kept256(b)
  {
    hide Step, Steps, Kept256;
    EscapeFed(k, s);
    var r := Rested(s);
    CommandOpens(k, s);
    PayloadSteps(k, r, b);
    StepsAppend(k, s, [ESC, ']' as int], b);
    StepsAppend(k, s, [ESC, ']' as int] + b, [BEL]);
    KeptFits(b);
    CommandFed(k, r, 1 + |b|, Kept256(b), BEL);
    OneStep(k, InCommand(r, 1 + |b|, Kept256(b)), BEL);
  }

  lemma KeptFits(b: seq<Octet>)
    ensures |Kept256(b)| <= OSC_SIZE
  {
  }
}
