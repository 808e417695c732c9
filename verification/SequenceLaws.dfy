/** Sequences that do not simply end: unknown, interrupted, restarted and nested ones. */
module SequenceLaws {
  import opened Common
  import opened CsiParams
  import opened CsiSpec
  import opened CursorLaws
  import opened ScreenLaws
  import opened TermLaws
  import opened TermSpec
  import opened Utf8

  /** The bytes leave the screen and the modes as they were, and the parser ready for text. */
  ghost predicate Nothing(k: Screen, s: State, n: State) {
    n.look == s.look && n.front == s.front && Ready(k, n)
  }

  /** A sequence up to its parameters. */
  function Opened(marker: bool, ns: seq<nat>): seq<Octet> {
    [ESC, BRACKET] + (if marker then [QUESTION] else []) + ParamBytes(ns)
  }

  lemma OpenedSteps(k: Screen, s: State, marker: bool, ns: seq<nat>) returns (offset: nat, q: Params)
    requires StateOk(k, s) && AtGround(s.reading)
    ensures offset > 0 && CsiParams.Ok(q) && Close(q) == Close(Read(CsiParams.Start(), ns))
    ensures offset == 1 <==> !marker && ns == []
    ensures StateOk(k, Rested(s)) && AtGround(Rested(s).reading)
    ensures Steps(k, s, Opened(marker, ns)) == Inside(Rested(s), offset, q, s.reading.private || marker)
  {
    hide *;
    var open := [ESC, BRACKET] + if marker then [QUESTION] else [];
    EscapeFed(k, s);
    OpenSteps(k, s, marker);
    q := ParamSteps(k, Rested(s), if marker then 2 else 1, CsiParams.Start(), s.reading.private || marker, ns);
    offset := (if marker then 2 else 1) + |ParamBytes(ns)|;
    StepsAppend(k, s, open, ParamBytes(ns));
    SomeBytes(ns);
    OpenedParts(marker, ns);
  }

  lemma OpenedParts(marker: bool, ns: seq<nat>)
    ensures Opened(marker, ns) == ([ESC, BRACKET] + if marker then [QUESTION] else []) + ParamBytes(ns)
  {
  }

  // ----- Parameters left out -----

  /** A parameter list in which some parameters are left out. */
  function FieldBytes(fs: seq<Option<nat>>): seq<Octet> {
    if |fs| == 0 then []
    else FieldOf(fs[0]) + if |fs| == 1 then [] else [SEMICOLON] + FieldBytes(fs[1..])
  }

  function FieldOf(f: Option<nat>): seq<Octet> { if f.None? then [] else DigitBytes(Decimal(f.value)) }

  /** The same with zeros in their places. */
  function Filled(fs: seq<Option<nat>>): (ns: seq<nat>)
    ensures |ns| == |fs|
  {
    seq(|fs|, i requires 0 <= i < |fs| => if fs[i].None? then 0 else fs[i].value)
  }

  /** Nothing has been read from the parameter at the index on. */
  predicate Unread(p: Params) {
    CsiParams.Ok(p) && !p.reading && forall i | p.index <= i < COUNT :: p.values[i] == 0
  }

  /** A number and its semicolon leave the next parameter unread, and nought is as good as nothing. */
  lemma FieldRead(p: Params, n: nat)
    requires Unread(p) && p.index < COUNT
    ensures var q := Separator(Digits(p, Decimal(n))); Unread(q) && q.index == p.index + 1
    ensures Separator(p) == Separator(Digits(p, Decimal(0)))
  {
    NumberKept(p, n);
    NumberKept(p, 0);
    hide Digits, Decimal;
  }

  lemma OneField(k: Screen, s: State, offset: nat, p: Params, private: bool, f: Option<nat>)
    requires StateOk(k, s) && AtGround(s.reading) && Unread(p) && p.index < COUNT && offset > 0
    ensures StateOk(k, Inside(s, offset, p, private))
    ensures var b, n := FieldOf(f) + [SEMICOLON], if f.None? then 0 else f.value;
            Steps(k, Inside(s, offset, p, private), b) ==
            Inside(s, offset + |b|, Separator(Digits(p, Decimal(n))), private)
  {
    hide Step, Steps, StateOk, Inside, Digits, Separator, Decimal, DigitBytes, AtGround;
    if f.None? {
      FieldRead(p, 0);
      ParameterFed(k, s, offset, p, private, SEMICOLON);
      OneStep(k, Inside(s, offset, p, private), SEMICOLON);
      assert FieldOf(f) + [SEMICOLON] == [SEMICOLON];
    } else {
      NumberSteps(k, s, offset, p, private, f.value);
    }
  }

  lemma LastField(k: Screen, s: State, offset: nat, p: Params, private: bool, n: nat) returns (q: Params)
    requires StateOk(k, s) && AtGround(s.reading) && CsiParams.Ok(p) && offset > 0
    ensures CsiParams.Ok(q) && Close(q) == Close(Read(p, [n])) && StateOk(k, Inside(s, offset, p, private))
    ensures Steps(k, Inside(s, offset, p, private), FieldOf(Some(n))) ==
            Inside(s, offset + |FieldOf(Some(n))|, q, private)
  {
    hide *;
    OneNumber(n);
    q := ParamSteps(k, s, offset, p, private, [n]);
  }

  lemma OneNumber(n: nat)
    ensures ParamBytes([n]) == FieldOf(Some(n))
  {
  }

  lemma FieldParts(fs: seq<Option<nat>>)
    requires |fs| > 1
    ensures FieldBytes(fs) == (FieldOf(fs[0]) + [SEMICOLON]) + FieldBytes(fs[1..])
    ensures Filled(fs)[1..] == Filled(fs[1..]) && Filled(fs)[0] == if fs[0].None? then 0 else fs[0].value
  {
    hide FieldOf;
    var a, b, c := FieldOf(fs[0]), [SEMICOLON], FieldBytes(fs[1..]);
    assert FieldBytes(fs) == a + (b + c);
    hide FieldBytes;
    assert a + (b + c) == (a + b) + c;
  }

  lemma {:induction false} FieldSteps(k: Screen, s: State, offset: nat, p: Params, private: bool, fs: seq<Option<nat>>)
    returns (q: Params)
    requires StateOk(k, s) && AtGround(s.reading) && Unread(p) && offset > 0
    requires 0 < |fs| && p.index + |fs| <= COUNT && fs[|fs| - 1].Some?
    ensures CsiParams.Ok(q) && CsiParams.Ok(p) && Close(q) == Close(Read(p, Filled(fs)))
    ensures StateOk(k, Inside(s, offset, p, private))
    ensures Steps(k, Inside(s, offset, p, private), FieldBytes(fs)) ==
            Inside(s, offset + |FieldBytes(fs)|, q, private)
    decreases |fs|
  {
    hide Step, Steps, StateOk, Inside, Digits, Decimal, DigitBytes, AtGround, Read, Close, Separator, FieldOf, Unread;
    UnreadOk(p);
    if |fs| == 1 {
      q := LastField(k, s, offset, p, private, fs[0].value);
      assert Filled(fs) == [fs[0].value] && FieldBytes(fs) == FieldOf(fs[0]) + [] == FieldOf(fs[0]);
    } else {
      FieldParts(fs);
      hide FieldBytes, Filled;
      var n, b := if fs[0].None? then 0 else fs[0].value, FieldOf(fs[0]) + [SEMICOLON];
      FieldRead(p, n);
      OneField(k, s, offset, p, private, fs[0]);
      q := FieldSteps(k, s, offset + |b|, Separator(Digits(p, Decimal(n))), private, fs[1..]);
      StepsAppend(k, Inside(s, offset, p, private), b, FieldBytes(fs[1..]));
      ReadOne(p, Filled(fs));
    }
  }

  lemma UnreadOk(p: Params)
    requires Unread(p)
    ensures CsiParams.Ok(p)
  {
  }

  lemma StartUnread()
    ensures Unread(CsiParams.Start()) && CsiParams.Start().index == 0
  {
  }

  /** A parameter left out before the last one counts as zero, in every sequence. */
  lemma EmptyIsZero(k: Screen, s: State, fs: seq<Option<nat>>, final: Octet)
    requires Ready(k, s) && 0x40 <= final <= 0x7E && 0 < |fs| <= 16 && fs[|fs| - 1].Some?
    ensures var n := Steps(k, s, [ESC, BRACKET] + FieldBytes(fs) + [final]);
            var m := Steps(k, s, Sequence(false, Filled(fs), final));
            n.look == m.look && n.front == m.front && Ready(k, n)
  {
    hide Steps, Step, Sequence, Inside, Effect, FinalParams, Read, LookOk, FrontOk, ReadingOk, FieldBytes, Filled,
         Unread, CsiParams.Start;
    StartUnread();
    EscapeFed(k, s);
    OpenSteps(k, s, false);
    assert [ESC, BRACKET] + [] == [ESC, BRACKET];
    var q := FieldSteps(k, Rested(s), 1, CsiParams.Start(), false, fs);
    var o := 1 + |FieldBytes(fs)|;
    SomeField(fs);
    StepsAppend(k, s, [ESC, BRACKET], FieldBytes(fs));
    StepsAppend(k, s, [ESC, BRACKET] + FieldBytes(fs), [final]);
    SequenceEnd(k, s, o, q, false, final);
    FinalClosed(q, Read(CsiParams.Start(), Filled(fs)), final as char);
    SequenceSteps(k, s, false, Filled(fs), final);
  }

  lemma SomeField(fs: seq<Option<nat>>)
    requires |fs| > 0 && fs[|fs| - 1].Some?
    ensures FieldBytes(fs) != []
  {
  }

  // ----- Unknown sequences -----

  predicate IsIntermediate(c: Octet) { 0x20 <= c <= 0x2F }

  /** Bytes that belong to a sequence before its final byte. */
  predicate IsMiddle(c: Octet) { 0x20 <= c <= 0x3F }

  predicate AllMiddle(b: seq<Octet>) { forall i | 0 <= i < |b| :: IsMiddle(b[i]) }

  /** Inside a sequence that is being skipped. */
  function Skipping(s: State, offset: nat, p: Params): State {
    s.(reading := s.reading.(escape := true, control := true, offset := offset, params := p,
                             private := false, unhandled := true))
  }

  lemma SkippingOk(k: Screen, s: State, offset: nat, p: Params)
    requires StateOk(k, s) && AtGround(s.reading) && CsiParams.Ok(p)
    ensures StateOk(k, Skipping(s, offset, p))
  {
    hide LookOk, FrontOk;
  }

  lemma IntermediateFed(k: Screen, s: State, offset: nat, q: Params, private: bool, c: Octet) returns (p: Params)
    requires StateOk(k, s) && AtGround(s.reading) && CsiParams.Ok(q) && offset > 0 && IsIntermediate(c)
    ensures CsiParams.Ok(p) && StateOk(k, Inside(s, offset, q, private))
    ensures Step(k, Inside(s, offset, q, private), c) == Skipping(s, offset + 1, p)
  {
    hide LookOk, FrontOk, CsiParams.Ok, FinalParams, ActedLook, ActedFront, SwitchedAll;
    InsideOk(k, s, offset, q, private);
    p := FinalParams(q, c as char);
  }

  lemma MiddleFed(k: Screen, s: State, offset: nat, q: Params, c: Octet) returns (p: Params)
    requires StateOk(k, s) && AtGround(s.reading) && CsiParams.Ok(q) && offset > 1 && IsMiddle(c)
    ensures CsiParams.Ok(p) && StateOk(k, Skipping(s, offset, q))
    ensures Step(k, Skipping(s, offset, q), c) == Skipping(s, offset + 1, p)
  {
    hide LookOk, FrontOk, CsiParams.Ok, FinalParams, ActedLook, ActedFront, SwitchedAll, Digit, Separator;
    SkippingOk(k, s, offset, q);
    p := if c == SEMICOLON then Separator(q) else if IsDigit(c) then Digit(q, c - 0x30) else FinalParams(q, c as char);
  }

  lemma {:induction false} MiddleSteps(k: Screen, s: State, offset: nat, q: Params, b: seq<Octet>) returns (p: Params)
    requires StateOk(k, s) && AtGround(s.reading) && CsiParams.Ok(q) && offset > 1 && AllMiddle(b)
    ensures CsiParams.Ok(p) && StateOk(k, Skipping(s, offset, q))
    ensures Steps(k, Skipping(s, offset, q), b) == Skipping(s, offset + |b|, p)
    decreases |b|
  {
    hide *;
    SkippingOk(k, s, offset, q);
    if b == [] {
      p := q;
      NoSteps(k, Skipping(s, offset, q));
    } else {
      var n := |b| - 1;
      MiddleParts(b, n);
      p := MiddleSteps(k, s, offset, q, b[..n]);
      LastStep(k, Skipping(s, offset, q), b, n);
      p := MiddleFed(k, s, offset + n, p, b[n]);
    }
  }

  lemma MiddleParts(b: seq<Octet>, n: nat)
    requires AllMiddle(b) && |b| == n + 1
    ensures AllMiddle(b[..n]) && IsMiddle(b[n])
  {
  }

  lemma SkippedFinal(k: Screen, s: State, offset: nat, q: Params, c: Octet)
    requires StateOk(k, s) && AtGround(s.reading) && CsiParams.Ok(q) && offset > 1 && 0x40 <= c <= 0x7E
    ensures StateOk(k, Skipping(s, offset, q)) && Nothing(k, s, Step(k, Skipping(s, offset, q), c))
  {
    hide LookOk, FrontOk, CsiParams.Ok, FinalParams, ActedLook, ActedFront, SwitchedAll;
    SkippingOk(k, s, offset, q);
  }

  lemma SkippedSteps(k: Screen, s: State, marker: bool, ns: seq<nat>, c: Octet, b: seq<Octet>)
    returns (offset: nat, p: Params)
    requires StateOk(k, s) && AtGround(s.reading) && IsIntermediate(c) && AllMiddle(b)
    ensures offset > 1 && CsiParams.Ok(p) && StateOk(k, Rested(s)) && AtGround(Rested(s).reading)
    ensures Steps(k, s, Opened(marker, ns) + [c] + b) == Skipping(Rested(s), offset, p)
  {
    hide *;
    var o, q := OpenedSteps(k, s, marker, ns);
    var r, head := Rested(s), Opened(marker, ns);
    p := IntermediateFed(k, r, o, q, s.reading.private || marker, c);
    OneStep(k, Inside(r, o, q, s.reading.private || marker), c);
    StepsAppend(k, s, head, [c]);
    p := MiddleSteps(k, r, o + 1, p, b);
    StepsAppend(k, s, head + [c], b);
    offset := o + 1 + |b|;
  }

  /** A sequence with an intermediate byte, private or not, is skipped whole, and nothing of it is taken for text. */
  lemma UnknownSkipped(k: Screen, s: State, marker: bool, ns: seq<nat>, c: Octet, b: seq<Octet>, final: Octet)
    requires StateOk(k, s) && AtGround(s.reading) && IsIntermediate(c) && AllMiddle(b) && 0x40 <= final <= 0x7E
    ensures Nothing(k, s, Steps(k, s, Opened(marker, ns) + [c] + b + [final]))
  {
    hide *;
    var offset, p := SkippedSteps(k, s, marker, ns, c, b);
    SkippedFinal(k, Rested(s), offset, p, final);
    OneStep(k, Skipping(Rested(s), offset, p), final);
    StepsAppend(k, s, Opened(marker, ns) + [c] + b, [final]);
    NothingRested(k, s, Steps(k, s, Opened(marker, ns) + [c] + b + [final]));
  }

  lemma NothingRested(k: Screen, s: State, n: State)
    requires Nothing(k, Rested(s), n)
    ensures Nothing(k, s, n)
  {
    hide Ready;
  }

  // ----- A second bracket -----

  lemma SecondBracketFed(k: Screen, s: State, private: bool, c: Octet)
    requires StateOk(k, s) && AtGround(s.reading)
    ensures StateOk(k, Inside(s, 1, CsiParams.Start(), private))
    ensures var n := Step(k, Step(k, Inside(s, 1, CsiParams.Start(), private), BRACKET), c);
            && n.look == s.look && n.front == s.front.(graphic := false) && AtGround(n.reading)
            && n.reading.private == private
  {
    hide LookOk, FrontOk, CsiParams.Ok, CsiParams.Start;
    InsideOk(k, s, 1, CsiParams.Start(), private);
  }

  /** A second bracket ends the sequence and drops the byte after it, whatever that is. */
  lemma SecondBracket(k: Screen, s: State, c: Octet)
    requires StateOk(k, s) && AtGround(s.reading)
    ensures var n := Steps(k, s, [ESC, BRACKET, BRACKET, c]);
            && n.look == s.look && n.front == s.front.(graphic := false) && AtGround(n.reading)
            && n.reading.private == s.reading.private
  {
    assert [ESC, BRACKET, BRACKET, c] == ([ESC, BRACKET] + []) + [BRACKET, c];
    EscapeFed(k, s);
    OpenSteps(k, s, false);
    hide *;
    var i := Inside(Rested(s), 1, CsiParams.Start(), s.reading.private);
    StepsAppend(k, s, [ESC, BRACKET] + [], [BRACKET, c]);
    TwoSteps(k, i, BRACKET, c);
    SecondBracketFed(k, Rested(s), s.reading.private, c);
    RestedSame(s);
  }

  // ----- Control characters inside a sequence -----

  lemma ControlInsideFed(k: Screen, s: State, offset: nat, q: Params, private: bool, c: Octet)
    requires StateOk(k, s) && AtGround(s.reading) && CsiParams.Ok(q) && offset > 0 && c < 0x20 && c !in {ESC, CAN, SUB}
    ensures StateOk(k, Inside(s, offset, q, private)) && AtGround(C0Step(k, s, c).reading)
    ensures Step(k, Inside(s, offset, q, private), c) == Inside(C0Step(k, s, c), offset + 1, q, private)
  {
    hide LookOk, FrontOk, CsiParams.Ok, Controlled;
    InsideOk(k, s, offset, q, private);
  }

  lemma RestedControl(k: Screen, s: State, c: Octet)
    requires StateOk(k, s) && StateOk(k, Rested(s))
    ensures C0Step(k, Rested(s), c) == Rested(C0Step(k, s, c))
  {
    hide LookOk, FrontOk, ReadingOk, Controlled;
  }

  /** The state in which a control character has acted on its own; what REP repeats is not forgotten. */
  ghost function Acted(k: Screen, s: State, c: Octet): State
    requires StateOk(k, s)
  {
    var n := Steps(k, s, [c]);
    s.(look := n.look, front := n.front.(graphic := s.front.graphic))
  }

  lemma ActedIs(k: Screen, s: State, c: Octet)
    requires StateOk(k, s) && AtGround(s.reading) && c < 0x20 && c !in {ESC, CAN, SUB}
    ensures Acted(k, s, c) == C0Step(k, s, c)
  {
    OneStep(k, s, c);
    ControlFed(k, s, c);
    hide Steps, Step, LookOk, FrontOk, ReadingOk, LineFed;
  }

  /** A control character before the final byte acts at once, and the sequence goes on as if it had come before it. */
  lemma ControlInside(k: Screen, s: State, ns: seq<nat>, c: Octet, final: Octet)
    requires Ready(k, s) && c < 0x20 && c !in {ESC, CAN, SUB} && 0x40 <= final <= 0x7E
    requires !(final == BRACKET && ns == [])
    ensures Ready(k, Acted(k, s, c))
    ensures var n := Steps(k, s, Opened(false, ns) + [c, final]);
            var m := Steps(k, Acted(k, s, c), Sequence(false, ns, final));
            n.look == m.look && n.front == m.front && Ready(k, n)
  {
    var o, q := OpenedSteps(k, s, false, ns);
    ActedIs(k, s, c);
    hide Steps, Step, Opened, Sequence, Inside, Effect, FinalParams, Read, LookOk, FrontOk, ReadingOk, Controlled,
         Acted;
    var r, t := Rested(s), C0Step(k, s, c);
    ControlInsideFed(k, r, o, q, false, c);
    RestedControl(k, s, c);
    StepsAppend(k, s, Opened(false, ns), [c, final]);
    TwoSteps(k, Inside(r, o, q, false), c, final);
    SequenceEnd(k, t, o + 1, q, false, final);
    OneStep(k, Inside(Rested(t), o + 1, q, false), final);
    FinalClosed(q, Read(CsiParams.Start(), ns), final as char);
    SequenceSteps(k, t, false, ns, final);
  }

  // ----- An escape inside a sequence -----

  lemma EscapeInsideFed(k: Screen, s: State, offset: nat, q: Params)
    requires StateOk(k, s) && AtGround(s.reading) && CsiParams.Ok(q) && offset > 0
    ensures StateOk(k, Inside(s, offset, q, false))
    ensures var p := FinalParams(q, ESC as char);
            var t := s.(reading := s.reading.(params := p, private := false, unhandled := false));
            && Step(k, Inside(s, offset, q, false), ESC) == t.(reading := t.reading.(escape := true, offset := 0))
            && StateOk(k, t) && AtGround(t.reading)
  {
    hide LookOk, FrontOk, CsiParams.Ok, FinalParams, ActedLook, ActedFront;
    InsideOk(k, s, offset, q, false);
  }

  lemma EscapePrivateFed(k: Screen, s: State, offset: nat, q: Params)
    requires StateOk(k, s) && AtGround(s.reading) && CsiParams.Ok(q) && offset > 0
    ensures StateOk(k, Inside(s, offset, q, true)) && Nothing(k, s, Step(k, Inside(s, offset, q, true), ESC))
  {
    hide LookOk, FrontOk, CsiParams.Ok, FinalParams, SwitchedAll;
    InsideOk(k, s, offset, q, true);
  }

  /** An escape gives up an ordinary sequence and starts anew, whatever follows. */
  lemma EscapeRestarts(k: Screen, s: State, ns: seq<nat>, rest: seq<Octet>) returns (t: State)
    requires Ready(k, s)
    ensures Nothing(k, s, t)
    ensures Steps(k, s, Opened(false, ns) + [ESC] + rest) == Steps(k, t, [ESC] + rest)
  {
    hide Steps, Step, Opened, LookOk, FrontOk, ReadingOk, FinalParams, CsiParams.Ok;
    var o, q := OpenedSteps(k, s, false, ns);
    var r := Rested(s);
    EscapeInsideFed(k, r, o, q);
    t := r.(reading := r.reading.(params := FinalParams(q, ESC as char), private := false, unhandled := false));
    EscapeFed(k, t);
    OneStep(k, Inside(r, o, q, false), ESC);
    OneStep(k, t, ESC);
    StepsAppend(k, s, Opened(false, ns), [ESC]);
    StepsAppend(k, s, Opened(false, ns) + [ESC], rest);
    StepsAppend(k, t, [ESC], rest);
  }

  lemma EscapeSkippedFed(k: Screen, s: State, offset: nat, q: Params) returns (t: State)
    requires StateOk(k, s) && AtGround(s.reading) && CsiParams.Ok(q) && offset > 1
    ensures StateOk(k, Skipping(s, offset, q)) && Nothing(k, s, t) && t.reading.decoder == s.reading.decoder
    ensures Step(k, Skipping(s, offset, q), ESC) == t.(reading := t.reading.(escape := true, offset := 0))
  {
    hide LookOk, FrontOk, CsiParams.Ok, FinalParams, ActedLook, ActedFront, SwitchedAll;
    SkippingOk(k, s, offset, q);
    t := s.(reading := s.reading.(params := FinalParams(q, ESC as char), private := false, unhandled := false));
  }

  /** It does so in a sequence that is being skipped, too, private or not. */
  lemma EscapeUnskips(k: Screen, s: State, marker: bool, ns: seq<nat>, c: Octet, b: seq<Octet>, rest: seq<Octet>)
    returns (t: State)
    requires StateOk(k, s) && AtGround(s.reading) && IsIntermediate(c) && AllMiddle(b)
    ensures Nothing(k, s, t)
    ensures Steps(k, s, Opened(marker, ns) + [c] + b + [ESC] + rest) == Steps(k, t, [ESC] + rest)
  {
    hide *;
    var offset, q := SkippedSteps(k, s, marker, ns, c, b);
    var head := Opened(marker, ns) + [c] + b;
    t := EscapeSkippedFed(k, Rested(s), offset, q);
    NothingRested(k, s, t);
    EscapeAgain(k, s, t);
    OneStep(k, Skipping(Rested(s), offset, q), ESC);
    OneStep(k, t, ESC);
    StepsAppend(k, s, head, [ESC]);
    StepsAppend(k, s, head + [ESC], rest);
    StepsAppend(k, t, [ESC], rest);
  }

  lemma EscapeAgain(k: Screen, s: State, t: State)
    requires Nothing(k, s, t) && t.reading.decoder == Rested(s).reading.decoder
    ensures StateOk(k, t) && Step(k, t, ESC) == t.(reading := t.reading.(escape := true, offset := 0))
  {
    hide Step, StateOk;
    EscapeFed(k, t);
  }

  /** In a private sequence it only ends that sequence: what follows is taken for text. */
  lemma EscapeSwallowed(k: Screen, s: State, ns: seq<nat>, rest: seq<Octet>) returns (t: State)
    requires StateOk(k, s) && AtGround(s.reading)
    ensures Nothing(k, s, t)
    ensures Steps(k, s, Opened(true, ns) + [ESC] + rest) == Steps(k, t, rest)
  {
    hide Steps, Step, Opened, LookOk, FrontOk, ReadingOk, FinalParams, CsiParams.Ok, Inside;
    var o, q := OpenedSteps(k, s, true, ns);
    EscapePrivateFed(k, Rested(s), o, q);
    t := Step(k, Inside(Rested(s), o, q, true), ESC);
    OneStep(k, Inside(Rested(s), o, q, true), ESC);
    StepsAppend(k, s, Opened(true, ns), [ESC]);
    StepsAppend(k, s, Opened(true, ns) + [ESC], rest);
  }

  /** So an escape inside a sequence starts a new one exactly if that sequence is not private. */
  lemma RestartsIff(k: Screen, s: State, marker: bool, ns: seq<nat>)
    requires Ready(k, s)
    ensures Steps(k, s, Opened(marker, ns) + [ESC]).reading.escape <==> !marker
  {
    hide Steps, Step, Opened, StateOk;
    assert Opened(marker, ns) + [ESC] + [] == Opened(marker, ns) + [ESC];
    if marker {
      var t := EscapeSwallowed(k, s, ns, []);
      NoSteps(k, t);
    } else {
      var t := EscapeRestarts(k, s, ns, []);
      assert [ESC] + [] == [ESC];
      EscapeFed(k, t);
      OneStep(k, t, ESC);
    }
  }

  /** An input where that shows: the bracket after the escape is printed. */
  lemma BracketPrinted(k: Screen, s: State)
    requires Ready(k, s) && s.look.pen.x < k.cols && !s.front.charsets[s.front.charset]
    ensures var n := Steps(k, s, Opened(true, [25]) + [ESC] + [BRACKET]);
            && n.look.pen.x == s.look.pen.x + 1 && n.front.lastPrinted == '[' as int && AtGround(n.reading)
            && Lands(k, s.look, n.look, s.look.pen.y, s.look.pen.x, CellIn(s.look, '[' as int),
                     if s.front.insert then 1 else 0)
  {
    hide Steps, Opened, LookOk, ReadingOk, AtGround, Lands;
    var t := EscapeSwallowed(k, s, [25], [BRACKET]);
    PrintsHere(k, t, BRACKET);
  }

  // ----- Ends of commands -----

  lemma CommandEscaped(k: Screen, s: State, offset: nat, buf: seq<Octet>, c: Octet)
    requires StateOk(k, s) && AtGround(s.reading) && |buf| <= OSC_SIZE && c !in {CAN, SUB}
    ensures StateOk(k, InCommand(s, offset, buf))
    ensures var n := Step(k, Step(k, InCommand(s, offset, buf), ESC), c);
            var t := s.(reading := s.reading.(oscEscape := false, oscBuf := buf));
            var e := t.(reading := t.reading.(escape := true, offset := 0));
            && StateOk(k, t) && AtGround(t.reading) && StateOk(k, e)
            && (c as char == '\\' ==> n == t.(reading := t.reading.(offset := offset + 2)))
            && (c as char != '\\' ==> n == Step(k, e, c))
  {
    hide LookOk, FrontOk, CsiParams.Ok, EscapeEffect, ControlStep, TextStep;
    InCommandOk(k, s, offset, buf);
  }

  /** The state inside a command whose bytes are b. */
  lemma CommandInside(k: Screen, s: State, b: seq<Octet>)
    requires StateOk(k, s) && AtGround(s.reading) && IsPayload(b)
    ensures StateOk(k, Rested(s)) && AtGround(Rested(s).reading) && |Kept256(b)| <= OSC_SIZE
    ensures Steps(k, s, [ESC, ']' as int] + b) == InCommand(Rested(s), 1 + |b|, Kept256(b))
  {
    hide Step, Steps, Kept256, InCommand, StateOk, AtGround;
    EscapeFed(k, s);
    CommandOpens(k, s);
    PayloadSteps(k, Rested(s), b);
    StepsAppend(k, s, [ESC, ']' as int], b);
    KeptFits(b);
  }

  /** A command ended by ESC \ touches nothing, and its first 256 bytes are kept. */
  lemma CommandClosed(k: Screen, s: State, b: seq<Octet>)
    requires StateOk(k, s) && AtGround(s.reading) && IsPayload(b)
    ensures var n := Steps(k, s, [ESC, ']' as int] + b + [ESC, '\\' as int]);
            n.look == s.look && n.front == s.front && AtGround(n.reading) && n.reading.oscBuf == Kept256(b)
  {
    hide Step, Steps, Kept256, InCommand, LookOk, FrontOk, ReadingOk;
    CommandInside(k, s, b);
    CommandEscaped(k, Rested(s), 1 + |b|, Kept256(b), '\\' as int);
    TwoSteps(k, InCommand(Rested(s), 1 + |b|, Kept256(b)), ESC, '\\' as int);
    StepsAppend(k, s, [ESC, ']' as int] + b, [ESC, '\\' as int]);
  }

  /** An escape followed by anything else gives the command up, and the escape sequence acts as it always does. */
  lemma CommandLeft(k: Screen, s: State, b: seq<Octet>, c: Octet, rest: seq<Octet>) returns (t: State)
    requires StateOk(k, s) && AtGround(s.reading) && IsPayload(b) && c as char != '\\' && c !in {CAN, SUB}
    ensures StateOk(k, t) && t.look == s.look && t.front == s.front && AtGround(t.reading)
    ensures t.reading.private == s.reading.private
    ensures Steps(k, s, [ESC, ']' as int] + b + [ESC, c] + rest) == Steps(k, t, [ESC, c] + rest)
  {
    hide Step, Steps, Kept256, InCommand, LookOk, FrontOk, ReadingOk;
    CommandInside(k, s, b);
    var r := Rested(s);
    CommandEscaped(k, r, 1 + |b|, Kept256(b), c);
    t := r.(reading := r.reading.(oscEscape := false, oscBuf := Kept256(b)));
    EscapeFed(k, t);
    TwoSteps(k, InCommand(r, 1 + |b|, Kept256(b)), ESC, c);
    TwoSteps(k, t, ESC, c);
    StepsAppend(k, s, [ESC, ']' as int] + b, [ESC, c]);
    StepsAppend(k, s, [ESC, ']' as int] + b + [ESC, c], rest);
    StepsAppend(k, t, [ESC, c], rest);
  }
}
