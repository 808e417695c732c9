/**
 The log ring: any number of threads take tickets, wait for their slot, fill it and publish it; one
 thread prints the slots in order. Every shared-memory access is one step, and a run is any
 interleaving of steps.
 */
module LogRing {
  const LINE: nat := 512
  const RING: nat := 64 * 4096 / (LINE + 4)
  const COUNTER: nat := 0x1_0000_0000
  const NUL: char := '\0'

  /** A message that fits a slot with its terminator. */
  type Text = t: seq<char> | |t| < LINE && NUL !in t

  datatype Writer = Writer(ticket: nat, text: Text, writing: bool) {
    function Slot(): nat { ticket % RING }
  }

  datatype Reader = Idle | Reading(pos: nat) | Cleared

  /** The ring and its threads; issued and taken record the messages by ticket and how many were printed. */
  datatype Ring = Ring(
    writeIdx: nat, readIdx: nat, ready: seq<bool>, lines: seq<seq<char>>,
    writers: map<nat, Writer>, reader: Reader, output: seq<char>,
    issued: seq<Text>, taken: nat)

  datatype Step =
    | Take(p: nat, text: Text)
    | SeeFree(p: nat)
    | Scribble(p: nat, pos: nat, c: char)
    | Publish(p: nat)
    | SeeReady
    | Emit
    | Clear
    | Advance

  function Init(): Ring {
    Ring(0, 0, seq(RING, _ => false), seq(RING, _ => seq(LINE, _ => NUL)), map[], Idle, [], [], 0)
  }

  predicate Shaped(s: Ring) {
    && |s.ready| == RING && |s.lines| == RING && s.readIdx < RING
    && (forall k | 0 <= k < RING :: |s.lines[k]| == LINE)
    && (s.reader.Reading? ==> s.reader.pos < LINE)
  }

  /** The line holds the text and its terminator. */
  predicate HoldsText(line: seq<char>, text: seq<char>) {
    |text| < |line| && line[..|text|] == text && line[|text|] == NUL
  }

  predicate Enabled(s: Ring, e: Step)
    requires Shaped(s)
  {
    match e
    case Take(p, _) => p !in s.writers
    case SeeFree(p) => p in s.writers && !s.writers[p].writing && !s.ready[s.writers[p].Slot()]
    case Scribble(p, pos, _) => p in s.writers && s.writers[p].writing && pos < LINE
    case Publish(p) =>
      p in s.writers && s.writers[p].writing && HoldsText(s.lines[s.writers[p].Slot()], s.writers[p].text)
    case SeeReady => s.reader.Idle? && s.ready[s.readIdx]
    case Emit => s.reader.Reading? && s.lines[s.readIdx][s.reader.pos] != NUL && s.reader.pos + 1 < LINE
    case Clear => s.reader.Reading? && s.lines[s.readIdx][s.reader.pos] == NUL
    case Advance => s.reader.Cleared?
  }

  function Next(s: Ring, e: Step): (n: Ring)
    requires Shaped(s) && Enabled(s, e)
    ensures Shaped(n)
  {
    match e
    case Take(p, text) =>
      s.(writers := s.writers[p := Writer(s.writeIdx, text, false)],
         writeIdx := (s.writeIdx + 1) % COUNTER, issued := s.issued + [text])
    case SeeFree(p) =>
      s.(writers := s.writers[p := s.writers[p].(writing := true)])
    case Scribble(p, pos, c) =>
      var k := s.writers[p].Slot();
      s.(lines := s.lines[k := s.lines[k][pos := c]])
    case Publish(p) =>
      s.(ready := s.ready[s.writers[p].Slot() := true], writers := s.writers - {p})
    case SeeReady =>
      s.(reader := Reading(0))
    case Emit =>
      s.(output := s.output + [s.lines[s.readIdx][s.reader.pos]], reader := Reading(s.reader.pos + 1))
    case Clear =>
      s.(ready := s.ready[s.readIdx := false], reader := Cleared, taken := s.taken + 1)
    case Advance =>
      s.(readIdx := (s.readIdx + 1) % RING, reader := Idle)
  }

  /** No ticket is issued a whole ring ahead of an unpublished one, and no ticket number is issued twice. */
  predicate InStep(s: Ring, e: Step) {
    e.Take? ==> |s.issued| < COUNTER && forall p | p in s.writers :: |s.issued| < s.writers[p].ticket + RING
  }

  // ----- What every step keeps -----

  predicate Held(s: Ring, t: nat) {
    exists p :: p in s.writers && s.writers[p].ticket == t
  }

  /** Ticket t is published and not yet printed. */
  predicate Pending(s: Ring, t: nat) {
    s.taken <= t < |s.issued| && !Held(s, t)
  }

  ghost predicate Tickets(s: Ring) {
    && s.writeIdx == |s.issued| % COUNTER && |s.issued| <= COUNTER && s.taken <= |s.issued|
    && (forall p, q | p in s.writers && q in s.writers && p != q :: s.writers[p].ticket != s.writers[q].ticket)
    && (forall p | p in s.writers ::
          var w := s.writers[p];
          && s.taken <= w.ticket < |s.issued| <= w.ticket + RING
          && s.issued[w.ticket] == w.text
          && (w.writing ==> w.ticket < s.taken + RING))
  }

  ghost predicate Slots(s: Ring)
    requires Shaped(s)
  {
    && (forall t: nat | Pending(s, t) ::
          t < s.taken + RING && s.ready[t % RING] && HoldsText(s.lines[t % RING], s.issued[t]))
    && (forall k | 0 <= k < RING && s.ready[k] :: exists t: nat :: Pending(s, t) && t % RING == k)
  }

  function Concat(texts: seq<Text>): seq<char> {
    if texts == [] then [] else Concat(texts[..|texts| - 1]) + texts[|texts| - 1]
  }

  /** The printed text is the first messages by ticket and a part of the next one. */
  ghost predicate Printed(s: Ring)
    requires s.taken <= |s.issued|
  {
    match s.reader
    case Idle => s.readIdx == s.taken % RING && s.output == Concat(s.issued[..s.taken])
    case Reading(k) =>
      && s.readIdx == s.taken % RING && Pending(s, s.taken) && k <= |s.issued[s.taken]|
      && s.output == Concat(s.issued[..s.taken]) + s.issued[s.taken][..k]
    case Cleared =>
      && s.taken > 0 && s.readIdx == (s.taken - 1) % RING && s.output == Concat(s.issued[..s.taken])
  }

  ghost predicate Inv(s: Ring) {
    Shaped(s) && Tickets(s) && Slots(s) && Printed(s)
  }

  lemma SameSlot(t: nat, u: nat)
    requires t <= u < t + RING && t % RING == u % RING
    ensures t == u
  {
  }

  lemma InitInv()
    ensures Inv(Init())
  {
  }

  /** The slot of the next message to print, once it is published, is ready; another ready slot is another ticket's. */
  lemma PendingSlot(s: Ring, k: nat) returns (t: nat)
    requires Inv(s) && k < RING && s.ready[k]
    ensures Pending(s, t) && t % RING == k && t < s.taken + RING
  {
    t :| Pending(s, t) && t % RING == k;
  }

  lemma SamePending(s: Ring, n: Ring)
    requires n.taken == s.taken && n.issued == s.issued && n.writers == s.writers
    ensures forall t: nat :: Pending(n, t) <==> Pending(s, t)
  {
  }

  lemma TakePending(s: Ring, p: nat, text: Text, n: Ring)
    requires Shaped(s) && Tickets(s) && |s.issued| < COUNTER && Enabled(s, Take(p, text)) && n == Next(s, Take(p, text))
    ensures forall t: nat :: Pending(n, t) <==> Pending(s, t)
  {
    forall t: nat ensures Pending(n, t) <==> Pending(s, t) {
      assert p in n.writers && n.writers[p].ticket == |s.issued|;
      if Held(s, t) {
        var q :| q in s.writers && s.writers[q].ticket == t;
        assert n.writers[q].ticket == t;
      }
      if Held(n, t) {
        var q :| q in n.writers && n.writers[q].ticket == t;
        assert q == p || s.writers[q].ticket == t;
      }
    }
  }

  lemma TakeTickets(s: Ring, p: nat, text: Text)
    requires Shaped(s) && Tickets(s) && Enabled(s, Take(p, text)) && InStep(s, Take(p, text))
    ensures Tickets(Next(s, Take(p, text)))
  {
    assert s.writeIdx == |s.issued|;
  }

  lemma TakeInv(s: Ring, p: nat, text: Text)
    requires Inv(s) && Enabled(s, Take(p, text)) && InStep(s, Take(p, text))
    ensures Inv(Next(s, Take(p, text)))
  {
    hide Held, HoldsText;
    var n := Next(s, Take(p, text));
    TakePending(s, p, text, n);
    TakeTickets(s, p, text);
    hide Tickets;
    assert s.taken <= |s.issued| by { TakenWithin(s); }
    PrintedSame(s, n);
    forall t: nat | t < |s.issued| ensures n.issued[t] == s.issued[t] { }
  }

  lemma TakenWithin(s: Ring)
    requires Tickets(s)
    ensures s.taken <= |s.issued|
  {
  }

  /** Printing is unaffected by a step that keeps the reader, the pending tickets and the old messages. */
  lemma PrintedSame(s: Ring, n: Ring)
    requires s.taken <= |s.issued| <= |n.issued| && s.issued <= n.issued && Printed(s)
    requires n.reader == s.reader && n.readIdx == s.readIdx && n.taken == s.taken && n.output == s.output
    requires Pending(s, s.taken) ==> Pending(n, s.taken)
    ensures Printed(n)
  {
    hide Held, Concat;
    assert n.issued[..s.taken] == s.issued[..s.taken];
  }

  lemma SeeFreePending(s: Ring, p: nat, n: Ring)
    requires Shaped(s) && Enabled(s, SeeFree(p)) && n == Next(s, SeeFree(p))
    ensures forall t: nat :: Pending(n, t) <==> Pending(s, t)
  {
    forall t: nat ensures Held(n, t) <==> Held(s, t) {
      if q :| q in s.writers && s.writers[q].ticket == t { assert n.writers[q].ticket == t; }
      if q :| q in n.writers && n.writers[q].ticket == t { assert s.writers[q].ticket == t; }
    }
  }

  lemma SeeFreeInv(s: Ring, p: nat)
    requires Inv(s) && Enabled(s, SeeFree(p))
    ensures Inv(Next(s, SeeFree(p)))
  {
    hide Held;
    var n := Next(s, SeeFree(p));
    SeeFreePending(s, p, n);
    EarlierLapTaken(s, p);
    assert Tickets(n);
    PrintedSame(s, n);
  }

  lemma EarlierLap(t: nat)
    requires t >= RING
    ensures (t - RING) % RING == t % RING
  {
  }

  /** A ticket a ring ahead of the reader finds its slot still published. */
  lemma LapPending(s: Ring, p: nat)
    requires Inv(s) && p in s.writers && s.writers[p].ticket >= s.taken + RING
    ensures s.ready[s.writers[p].Slot()]
  {
    hide HoldsText, Printed;
    var t := s.writers[p].ticket;
    EarlierLap(t);
    assert Pending(s, t - RING) by { assert !Held(s, t - RING); }
  }

  /** A free slot means that the message one ring earlier has been printed. */
  lemma EarlierLapTaken(s: Ring, p: nat)
    requires Inv(s) && p in s.writers && !s.ready[s.writers[p].Slot()]
    ensures s.writers[p].ticket < s.taken + RING
  {
    hide Inv;
    if s.writers[p].ticket >= s.taken + RING {
      LapPending(s, p);
      assert false;
    }
  }

  lemma ScribbleInv(s: Ring, p: nat, pos: nat, c: char)
    requires Inv(s) && Enabled(s, Scribble(p, pos, c))
    ensures Inv(Next(s, Scribble(p, pos, c)))
  {
    var n := Next(s, Scribble(p, pos, c));
    var w := s.writers[p];
    SamePending(s, n);
    forall t: nat | Pending(s, t) ensures t % RING != w.Slot() {
      WrittenSlotNotPending(s, p, t);
    }
  }

  /** A slot that a writer is filling is not a published one. */
  lemma WrittenSlotNotPending(s: Ring, p: nat, t: nat)
    requires Inv(s) && p in s.writers && s.writers[p].writing && Pending(s, t)
    ensures t % RING != s.writers[p].Slot()
  {
    var w := s.writers[p];
    assert t != w.ticket by { assert Held(s, w.ticket); }
    if t % RING == w.Slot() {
      if t <= w.ticket { SameSlot(t, w.ticket); } else { SameSlot(w.ticket, t); }
      assert false;
    }
  }

  lemma PublishPending(s: Ring, p: nat, n: Ring)
    requires Shaped(s) && Tickets(s) && Enabled(s, Publish(p)) && n == Next(s, Publish(p))
    ensures forall t: nat :: Pending(n, t) <==> Pending(s, t) || t == s.writers[p].ticket
  {
    var w := s.writers[p];
    forall t: nat ensures Pending(n, t) <==> Pending(s, t) || t == w.ticket {
      if Held(s, t) && t != w.ticket {
        var q :| q in s.writers && s.writers[q].ticket == t;
        assert q in n.writers && n.writers[q].ticket == t;
      }
      if Held(n, t) {
        var q :| q in n.writers && n.writers[q].ticket == t;
        assert s.writers[q].ticket == t && t != w.ticket;
      }
    }
  }

  lemma PublishInv(s: Ring, p: nat)
    requires Inv(s) && Enabled(s, Publish(p))
    ensures Inv(Next(s, Publish(p)))
  {
    hide Pending, HoldsText;
    var n := Next(s, Publish(p));
    var w := s.writers[p];
    PublishPending(s, p, n);
    assert Tickets(n);
    PrintedSame(s, n);
    forall k | 0 <= k < RING && n.ready[k] ensures exists t: nat :: Pending(n, t) && t % RING == k {
      if k == w.Slot() {
        assert Pending(n, w.ticket);
      } else {
        var t: nat :| Pending(s, t) && t % RING == k;
        assert Pending(n, t);
      }
    }
  }

  /** While a line is printed, its text and terminator are in place. */
  lemma LineInPlace(s: Ring)
    requires Inv(s) && s.reader.Reading?
    ensures Pending(s, s.taken) && s.readIdx == s.taken % RING && HoldsText(s.lines[s.readIdx], s.issued[s.taken])
    ensures var k := s.reader.pos; var text := s.issued[s.taken];
            if k < |text| then s.lines[s.readIdx][k] == text[k] != NUL else s.lines[s.readIdx][k] == NUL
  {
    var line, text := s.lines[s.readIdx], s.issued[s.taken];
    assert HoldsText(line, text);
    if s.reader.pos < |text| {
      assert line[..|text|][s.reader.pos] == line[s.reader.pos];
      assert text[s.reader.pos] in text;
    }
  }

  lemma SeeReadyInv(s: Ring)
    requires Inv(s) && Enabled(s, SeeReady)
    ensures Inv(Next(s, SeeReady))
  {
    hide HoldsText, Concat, Held;
    var n := Next(s, SeeReady);
    SamePending(s, n);
    var t := PendingSlot(s, s.readIdx);
    SameSlot(s.taken, t);
  }

  lemma EmitInv(s: Ring)
    requires Inv(s) && Enabled(s, Emit)
    ensures Inv(Next(s, Emit))
  {
    hide Concat, HoldsText, Held;
    var n := Next(s, Emit);
    SamePending(s, n);
    LineInPlace(s);
    var text, k := s.issued[s.taken], s.reader.pos;
    assert text[..k + 1] == text[..k] + [text[k]];
  }

  lemma ClearInv(s: Ring)
    requires Inv(s) && Enabled(s, Clear)
    ensures Inv(Next(s, Clear))
  {
    hide HoldsText, Held;
    var n := Next(s, Clear);
    LineInPlace(s);
    ClearPending(s, n);
    var text := s.issued[s.taken];
    assert text[..s.reader.pos] == text;
    assert n.issued[..n.taken][..n.taken - 1] == s.issued[..s.taken];
  }

  lemma ClearPending(s: Ring, n: Ring)
    requires Inv(s) && Enabled(s, Clear) && n == Next(s, Clear) && Pending(s, s.taken) && s.readIdx == s.taken % RING
    ensures Tickets(n) && Slots(n)
  {
    hide HoldsText, Printed;
    forall t: nat ensures Pending(n, t) <==> Pending(s, t) && t != s.taken {
      SameHeld(s, n, t);
    }
    ClearTickets(s, n);
    ClearSlots(s, n);
  }

  lemma ClearTickets(s: Ring, n: Ring)
    requires Inv(s) && Enabled(s, Clear) && n == Next(s, Clear) && Pending(s, s.taken)
    ensures Tickets(n)
  {
    hide HoldsText, Printed, Slots;
  }

  lemma ClearSlots(s: Ring, n: Ring)
    requires Inv(s) && Enabled(s, Clear) && n == Next(s, Clear) && s.readIdx == s.taken % RING
    requires forall t: nat :: Pending(n, t) <==> Pending(s, t) && t != s.taken
    ensures Slots(n)
  {
    hide HoldsText, Printed, Held, Tickets;
    forall t: nat | Pending(n, t) ensures t % RING != s.readIdx && t < n.taken + RING {
      assert Pending(s, t);
      if t % RING == s.readIdx { SameSlot(s.taken, t); }
    }
    forall k | 0 <= k < RING && n.ready[k] ensures exists t: nat :: Pending(n, t) && t % RING == k {
      var t: nat :| Pending(s, t) && t % RING == k;
      assert Pending(n, t);
    }
  }

  lemma SameHeld(s: Ring, n: Ring, t: nat)
    requires n.writers == s.writers
    ensures Held(n, t) <==> Held(s, t)
  {
  }

  lemma AdvanceInv(s: Ring)
    requires Inv(s) && Enabled(s, Advance)
    ensures Inv(Next(s, Advance))
  {
    hide HoldsText, Held, Concat;
    SamePending(s, Next(s, Advance));
    NextSlot(s.taken - 1);
  }

  lemma NextSlot(t: nat)
    ensures (t % RING + 1) % RING == (t + 1) % RING
  {
  }

  lemma StepInv(s: Ring, e: Step)
    requires Inv(s) && Enabled(s, e) && InStep(s, e)
    ensures Inv(Next(s, e))
  {
    hide Next, Enabled, Inv, InStep;
    match e
    case Take(p, text) => TakeInv(s, p, text);
    case SeeFree(p) => SeeFreeInv(s, p);
    case Scribble(p, pos, c) => ScribbleInv(s, p, pos, c);
    case Publish(p) => PublishInv(s, p);
    case SeeReady => SeeReadyInv(s);
    case Emit => EmitInv(s);
    case Clear => ClearInv(s);
    case Advance => AdvanceInv(s);
  }

  // ----- Whole runs -----

  /** Every step of the run is possible when it is taken, and tickets stay within a ring of the unpublished ones. */
  predicate Legal(s: Ring, run: seq<Step>)
    requires Shaped(s)
    decreases |run|
  {
    run == [] || (Enabled(s, run[0]) && InStep(s, run[0]) && Legal(Next(s, run[0]), run[1..]))
  }

  function After(s: Ring, run: seq<Step>): (n: Ring)
    requires Shaped(s) && Legal(s, run)
    ensures Shaped(n)
    decreases |run|
  {
    if run == [] then s else After(Next(s, run[0]), run[1..])
  }

  lemma {:induction false} RunInv(s: Ring, run: seq<Step>)
    requires Inv(s) && Legal(s, run)
    ensures Inv(After(s, run))
    decreases |run|
  {
    if run != [] {
      StepInv(s, run[0]);
      RunInv(Next(s, run[0]), run[1..]);
    }
  }

  /**
   After every run: the messages come out once each, in ticket order; a slot has at most one writer,
   and no writer has the slot being printed.
   */
  lemma EveryRun(run: seq<Step>)
    requires Legal(Init(), run)
    ensures var s := After(Init(), run);
            && s.taken <= |s.issued|
            && Concat(s.issued[..s.taken]) <= s.output
            && (s.taken == |s.issued| ==> s.output == Concat(s.issued))
            && (s.taken < |s.issued| ==> s.output <= Concat(s.issued[..s.taken + 1]))
            && (forall p, q | p in s.writers && q in s.writers && p != q && s.writers[p].writing
                              && s.writers[q].writing ::
                  s.writers[p].Slot() != s.writers[q].Slot())
            && (s.reader.Reading? ==> forall p | p in s.writers && s.writers[p].writing ::
                                        s.writers[p].Slot() != s.readIdx)
  {
    InitInv();
    RunInv(Init(), run);
    var s := After(Init(), run);
    OutputOrder(s);
    OneWriter(s);
  }

  lemma OutputOrder(s: Ring)
    requires Inv(s)
    ensures s.taken <= |s.issued| && Concat(s.issued[..s.taken]) <= s.output
    ensures s.taken == |s.issued| ==> s.output == Concat(s.issued)
    ensures s.taken < |s.issued| ==> s.output <= Concat(s.issued[..s.taken + 1])
  {
    if s.taken < |s.issued| {
      assert s.issued[..s.taken + 1][..s.taken] == s.issued[..s.taken];
    } else {
      assert s.issued[..s.taken] == s.issued;
    }
  }

  lemma OneWriter(s: Ring)
    requires Inv(s)
    ensures forall p, q | p in s.writers && q in s.writers && p != q && s.writers[p].writing && s.writers[q].writing ::
              s.writers[p].Slot() != s.writers[q].Slot()
    ensures s.reader.Reading? ==> forall p | p in s.writers && s.writers[p].writing :: s.writers[p].Slot() != s.readIdx
  {
    forall p, q | p in s.writers && q in s.writers && p != q && s.writers[p].writing && s.writers[q].writing
      ensures s.writers[p].Slot() != s.writers[q].Slot()
    {
      var a, b := s.writers[p].ticket, s.writers[q].ticket;
      if a % RING == b % RING {
        if a <= b { SameSlot(a, b); } else { SameSlot(b, a); }
        assert false;
      }
    }
    if s.reader.Reading? {
      forall p | p in s.writers && s.writers[p].writing ensures s.writers[p].Slot() != s.readIdx {
        WrittenSlotNotPending(s, p, s.taken);
      }
    }
  }

  /** Nothing deadlocks: while a message is not printed, the reader or the writer of that message can go on. */
  lemma NoDeadlock(s: Ring)
    requires Inv(s) && s.taken < |s.issued|
    ensures || (exists p :: p in s.writers && (s.writers[p].writing || Enabled(s, SeeFree(p))))
            || Enabled(s, SeeReady) || Enabled(s, Emit) || Enabled(s, Clear) || Enabled(s, Advance)
  {
    hide HoldsText, Concat;
    if s.reader.Reading? {
      LineInPlace(s);
    } else if s.reader.Idle? {
      if Held(s, s.taken) {
        var p :| p in s.writers && s.writers[p].ticket == s.taken;
        if !s.writers[p].writing && s.ready[s.writers[p].Slot()] {
          var t := PendingSlot(s, s.writers[p].Slot());
          SameSlot(s.taken, t);
          assert false;
        }
      } else {
        assert Pending(s, s.taken);
      }
    }
  }

  /** A ticket issued a whole ring ahead of an unpublished one gets that one's slot: both may then write it. */
  lemma LappedWritersCollide(s: Ring, p: nat, q: nat, text: Text)
    requires Inv(s) && |s.issued| < COUNTER && p in s.writers && q !in s.writers
    requires s.writers[p].ticket + RING == |s.issued| && !s.writers[p].writing && !s.ready[s.writers[p].Slot()]
    ensures var n := Next(s, Take(q, text));
            && Enabled(n, SeeFree(p)) && Enabled(Next(n, SeeFree(p)), SeeFree(q))
            && var m := Next(Next(n, SeeFree(p)), SeeFree(q));
               m.writers[p].writing && m.writers[q].writing && m.writers[p].Slot() == m.writers[q].Slot()
  {
    hide Inv;
    TicketsOf(s);
    assert s.writeIdx == |s.issued|;
    EarlierLap(|s.issued|);
  }

  lemma TicketsOf(s: Ring)
    requires Inv(s)
    ensures Shaped(s) && s.writeIdx == |s.issued| % COUNTER
  {
  }

  /** That state is reached: a full ring of tickets with none of them published. */
  lemma LapReachable() returns (run: seq<Step>)
    ensures Legal(Init(), run)
    ensures var s := After(Init(), run);
            0 in s.writers && s.writers[0] == Writer(0, [], false) && |s.issued| == RING && !s.ready[0]
  {
    InitInv();
    run := TakeMany(Init(), 0);
  }

  lemma {:induction false} TakeMany(s: Ring, k: nat) returns (run: seq<Step>)
    requires Inv(s) && k == |s.issued| <= RING && !s.ready[0]
    requires (forall p | p in s.writers :: p < k) && (k > 0 ==> 0 in s.writers && s.writers[0] == Writer(0, [], false))
    ensures Legal(s, run)
    ensures var n := After(s, run);
            0 in n.writers && n.writers[0] == Writer(0, [], false) && |n.issued| == RING && !n.ready[0]
    decreases RING - k
  {
    hide Inv;
    TicketsOf(s);
    if k == RING {
      run := [];
    } else {
      var e := Take(k, []);
      assert Enabled(s, e) && InStep(s, e);
      StepInv(s, e);
      var rest := TakeMany(Next(s, e), k + 1);
      run := [e] + rest;
      assert run[1..] == rest;
    }
  }

  // ----- The ticket counter wraps -----

  /**
   Message t gets the ticket t modulo 2^32, and the printing thread looks for it in slot t modulo the ring's
   size. The two slots agree exactly when the counter has wrapped a multiple of 127 times.
   */
  lemma SlotsAgreeIff(t: nat)
    ensures (t % COUNTER) % RING == t % RING <==> t / COUNTER % 127 == 0
  {
    var wraps, ticket := t / COUNTER, t % COUNTER;
    var laps, rest := wraps / 127, wraps % 127;
    assert t == COUNTER * wraps + ticket && wraps == 127 * laps + rest;
    Reduced(t, wraps, laps, rest, ticket);
  }

  /** 2^32 is sixteen more than a multiple of 508, and 508 is four times 127. */
  lemma Reduced(t: nat, wraps: nat, laps: nat, rest: nat, ticket: nat)
    requires t == 0x1_0000_0000 * wraps + ticket && wraps == 127 * laps + rest && rest < 127
    ensures t % 508 == ticket % 508 <==> rest == 0
  {
    assert t - ticket == 508 * (8454660 * wraps + 4 * laps) + 16 * rest;
    Congruent(t, ticket, 8454660 * wraps + 4 * laps, 16 * rest);
    if 16 * rest % 508 == 0 {
      assert 4 * rest == 127 * (16 * rest / 508);
    }
  }

  lemma Congruent(t: nat, u: nat, laps: nat, rest: nat)
    requires t - u == 508 * laps + rest
    ensures t % 508 == u % 508 <==> rest % 508 == 0
  {
    var d := t / 508 - u / 508 - laps - rest / 508;
    assert t % 508 - u % 508 - rest % 508 == -508 * d;
  }

  /** All messages so far are printed, and the printing thread waits for the next one. */
  ghost predicate Drained(s: Ring, k: nat) {
    Inv(s) && s.taken == |s.issued| == k && s.reader.Idle? && s.writers == map[]
  }

  lemma NoneReady(s: Ring, k: nat, slot: nat)
    requires Drained(s, k) && slot < RING
    ensures !s.ready[slot]
  {
    hide HoldsText, Printed;
    if s.ready[slot] {
      var t := PendingSlot(s, slot);
      assert false;
    }
  }

  /** The state after an empty message is issued and published. */
  function Published(s: Ring): (n: Ring)
    requires Shaped(s)
    ensures Shaped(n)
  {
    var slot := s.writeIdx % RING;
    s.(ready := s.ready[slot := true], lines := s.lines[slot := s.lines[slot][0 := NUL]],
       writeIdx := (s.writeIdx + 1) % COUNTER, issued := s.issued + [[]])
  }

  /** With no message left to print, an empty one can be issued and published at once. */
  lemma PublishEmpty(s: Ring, k: nat)
    requires Drained(s, k)
    ensures var a := Next(s, Take(0, [])); Enabled(s, Take(0, [])) && Enabled(a, SeeFree(0))
    ensures var b := Next(Next(s, Take(0, [])), SeeFree(0)); Enabled(b, Scribble(0, 0, NUL))
    ensures var c := Next(Next(Next(s, Take(0, [])), SeeFree(0)), Scribble(0, 0, NUL));
            Enabled(c, Publish(0)) && Next(c, Publish(0)) == Published(s)
  {
    hide Inv;
    assert Shaped(s) by { TicketsOf(s); }
    NoneReady(s, k, s.writeIdx % RING);
    var c := Next(Next(Next(s, Take(0, [])), SeeFree(0)), Scribble(0, 0, NUL));
    assert Next(c, Publish(0)).writers == map[];
  }

  /** After 2^32 messages the next one is published in slot 0, and the printing thread does not see it from slot 16. */
  lemma WrapStalls(s: Ring)
    requires Drained(s, COUNTER)
    ensures var n := Published(s);
            && n.taken < |n.issued| && n.writers == map[]
            && !Enabled(n, SeeReady) && !Enabled(n, Emit) && !Enabled(n, Clear) && !Enabled(n, Advance)
  {
    DrainedAt(s, COUNTER);
    NoneReady(s, COUNTER, 16);
    hide Inv, Drained, Shaped;
    assert s.readIdx == 16 && s.writeIdx == 0;
  }

  lemma Prefixed(s: Ring, e: Step, rest: seq<Step>)
    requires Shaped(s) && Enabled(s, e) && InStep(s, e) && Legal(Next(s, e), rest)
    ensures Legal(s, [e] + rest) && After(s, [e] + rest) == After(Next(s, e), rest)
  {
    assert ([e] + rest)[1..] == rest;
  }

  lemma DrainedAt(s: Ring, k: nat)
    requires Drained(s, k)
    ensures Shaped(s) && s.writeIdx == k % COUNTER && s.readIdx == k % RING
  {
  }

  lemma PublishedAhead(s: Ring, k: nat)
    requires Drained(s, k) && k < COUNTER
    ensures var a := Published(s);
            && a.ready[a.readIdx] && a.lines[a.readIdx][0] == NUL && a.reader.Idle? && a.writers == map[]
            && a.taken == k && |a.issued| == k + 1
  {
    DrainedAt(s, k);
    hide Inv, Drained;
    assert s.writeIdx == k;
  }

  /** A published empty message is printed and its slot freed. */
  lemma PrintEmpty(a: Ring)
    requires Shaped(a) && a.reader.Idle? && a.ready[a.readIdx] && a.lines[a.readIdx][0] == NUL
    ensures Enabled(a, SeeReady) && Enabled(Next(a, SeeReady), Clear)
    ensures var b := Next(Next(a, SeeReady), Clear);
            && Enabled(b, Advance)
            && var n := Next(b, Advance);
               n.taken == a.taken + 1 && n.issued == a.issued && n.reader.Idle? && n.writers == a.writers
  {
  }

  lemma {:induction false} Steps(s: Ring, run: seq<Step>, rest: seq<Step>)
    requires Shaped(s) && Legal(s, run) && Legal(After(s, run), rest)
    ensures Legal(s, run + rest) && After(s, run + rest) == After(After(s, run), rest)
    decreases |run|
  {
    hide Next, Enabled, InStep;
    if run == [] {
      assert run + rest == rest;
    } else {
      Steps(Next(s, run[0]), run[1..], rest);
      assert (run + rest)[1..] == run[1..] + rest && (run + rest)[0] == run[0];
    }
  }

  /** One more message, from the ticket to the slot freed again. */
  lemma DrainOne(s: Ring, k: nat) returns (run: seq<Step>)
    requires Drained(s, k) && k < COUNTER
    ensures Legal(s, run) && Drained(After(s, run), k + 1)
  {
    hide Inv, Next, Enabled, Published, After, Legal;
    TicketsOf(s);
    PublishEmpty(s, k);
    PublishedAhead(s, k);
    PrintEmpty(Published(s));
    var a := Next(s, Take(0, []));
    var b := Next(a, SeeFree(0));
    var c := Next(b, Scribble(0, 0, NUL));
    var d := Next(c, Publish(0));
    var e := Next(d, SeeReady);
    var f := Next(e, Clear);
    var n := Next(f, Advance);
    NoSteps(n);
    Prefixed(f, Advance, []);
    Prefixed(e, Clear, [Advance] + []);
    Prefixed(d, SeeReady, [Clear] + ([Advance] + []));
    Prefixed(c, Publish(0), [SeeReady] + ([Clear] + ([Advance] + [])));
    run := [Publish(0)] + ([SeeReady] + ([Clear] + ([Advance] + [])));
    Prefixed(b, Scribble(0, 0, NUL), run);
    Prefixed(a, SeeFree(0), [Scribble(0, 0, NUL)] + run);
    Prefixed(s, Take(0, []), [SeeFree(0)] + ([Scribble(0, 0, NUL)] + run));
    run := [Take(0, [])] + ([SeeFree(0)] + ([Scribble(0, 0, NUL)] + run));
    RunInv(s, run);
  }

  lemma NoSteps(s: Ring)
    requires Shaped(s)
    ensures Legal(s, []) && After(s, []) == s
  {
  }

  lemma {:induction false} DrainMore(s: Ring, k: nat) returns (run: seq<Step>)
    requires Drained(s, k) && k <= COUNTER
    ensures Legal(s, run) && Drained(After(s, run), COUNTER)
    decreases COUNTER - k
  {
    hide Inv, Next, Enabled, After, Legal;
    if k == COUNTER {
      TicketsOf(s);
      NoSteps(s);
      run := [];
    } else {
      TicketsOf(s);
      var first := DrainOne(s, k);
      var rest := DrainMore(After(s, first), k + 1);
      Steps(s, first, rest);
      run := first + rest;
    }
  }

  /** That state is reached, by issuing and printing one message after the other. */
  lemma WrapReachable() returns (run: seq<Step>)
    ensures Legal(Init(), run) && Drained(After(Init(), run), COUNTER)
  {
    InitInv();
    run := DrainMore(Init(), 0);
  }
}
