/** The log ring once its ticket counter has wrapped: messages then come out in the wrong order. */
module LogWrap {
  import opened LogRing

  /** Every step of the run is possible when it is taken. */
  predicate Possible(s: Ring, run: seq<Step>)
    requires Shaped(s)
    decreases |run|
  {
    run == [] || (Enabled(s, run[0]) && Possible(Next(s, run[0]), run[1..]))
  }

  function Reached(s: Ring, run: seq<Step>): (n: Ring)
    requires Shaped(s) && Possible(s, run)
    ensures Shaped(n)
    decreases |run|
  {
    if run == [] then s else Reached(Next(s, run[0]), run[1..])
  }

  lemma First(s: Ring, e: Step, rest: seq<Step>)
    requires Shaped(s) && Enabled(s, e) && Possible(Next(s, e), rest)
    ensures Possible(s, [e] + rest) && Reached(s, [e] + rest) == Reached(Next(s, e), rest)
  {
    hide Next, Enabled;
    assert ([e] + rest)[1..] == rest;
  }

  lemma {:induction false} Joined(s: Ring, run: seq<Step>, rest: seq<Step>)
    requires Shaped(s) && Possible(s, run) && Possible(Reached(s, run), rest)
    ensures Possible(s, run + rest) && Reached(s, run + rest) == Reached(Reached(s, run), rest)
    decreases |run|
  {
    hide Next, Enabled;
    if run == [] {
      assert run + rest == rest;
    } else {
      Joined(Next(s, run[0]), run[1..], rest);
      assert (run + rest)[1..] == run[1..] + rest && (run + rest)[0] == run[0];
    }
  }

  /** The state after a message of one character is issued and published. */
  function Said(s: Ring, c: char): (n: Ring)
    requires Shaped(s) && c != NUL
    ensures Shaped(n)
  {
    var slot := s.writeIdx % RING;
    s.(ready := s.ready[slot := true], lines := s.lines[slot := s.lines[slot][0 := c][1 := NUL]],
       writeIdx := (s.writeIdx + 1) % COUNTER, issued := s.issued + [[c]])
  }

  lemma Say(s: Ring, c: char) returns (run: seq<Step>)
    requires Shaped(s) && s.writers == map[] && !s.ready[s.writeIdx % RING] && c != NUL
    ensures Possible(s, run) && Reached(s, run) == Said(s, c)
  {
    var s1 := Next(s, Take(0, [c]));
    var s2 := Next(s1, SeeFree(0));
    var s3 := Next(s2, Scribble(0, 0, c));
    var s4 := Next(s3, Scribble(0, 1, NUL));
    assert Enabled(s4, Publish(0));
    var s5 := Next(s4, Publish(0));
    assert s5.writers == s.writers;
    assert s5 == Said(s, c);
    First(s4, Publish(0), []);
    First(s3, Scribble(0, 1, NUL), [Publish(0)] + []);
    First(s2, Scribble(0, 0, c), [Scribble(0, 1, NUL)] + ([Publish(0)] + []));
    run := [Scribble(0, 0, c)] + ([Scribble(0, 1, NUL)] + ([Publish(0)] + []));
    First(s1, SeeFree(0), run);
    First(s, Take(0, [c]), [SeeFree(0)] + run);
    run := [Take(0, [c])] + ([SeeFree(0)] + run);
  }

  function Many(n: nat): seq<Text> { seq(n, _ => ['a']) }

  /** The counter has wrapped at state s0, and n messages are published since. */
  ghost predicate Ahead(s0: Ring, s: Ring, n: nat) {
    && Shaped(s) && s.writeIdx == n && s.readIdx == 16 && s.reader == Idle && s.writers == map[]
    && s.issued == s0.issued + Many(n) && s.output == s0.output
    && (forall k | n <= k < RING :: !s.ready[k])
  }

  lemma AheadMore(s0: Ring, s: Ring, n: nat)
    requires Ahead(s0, s, n) && n < 16
    ensures Ahead(s0, Said(s, 'a'), n + 1)
  {
    assert Many(n + 1) == Many(n) + [['a']];
  }

  lemma {:induction false} SayMany(s0: Ring, s: Ring, n: nat) returns (run: seq<Step>)
    requires Ahead(s0, s, n) && n <= 16
    ensures Possible(s, run) && Ahead(s0, Reached(s, run), 16)
    decreases 16 - n
  {
    hide Said, Possible, Reached;
    if n == 16 {
      run := [];
      Nothing(s);
    } else {
      var first := Say(s, 'a');
      AheadMore(s0, s, n);
      hide Ahead;
      var rest := SayMany(s0, Said(s, 'a'), n + 1);
      Joined(s, first, rest);
      run := first + rest;
    }
  }

  lemma Nothing(s: Ring)
    requires Shaped(s)
    ensures Possible(s, []) && Reached(s, []) == s
  {
  }

  lemma {:induction false} ConcatMany(texts: seq<Text>, n: nat)
    ensures Concat(texts + Many(n)) == Concat(texts) + seq(n, _ => 'a')
  {
    if n == 0 {
      assert texts + Many(0) == texts;
    } else {
      var all := texts + Many(n);
      assert all[..|all| - 1] == texts + Many(n - 1);
      ConcatMany(texts, n - 1);
    }
  }

  /**
   All 2^32 messages so far are printed. Of the next seventeen the last one is printed first, as it is the one whose
   slot the printing thread is waiting for: the output is not the messages in ticket order.
   */
  lemma WrapMisorders(s: Ring) returns (run: seq<Step>)
    requires Drained(s, COUNTER)
    ensures Shaped(s) && Possible(s, run)
    ensures var n := Reached(s, run);
            && n.issued == s.issued + Many(16) + [['b']] && n.output == s.output + ['b']
            && !(n.output <= Concat(n.issued))
  {
    DrainedAt(s, COUNTER);
    StartsAhead(s);
    hide Drained, Said;
    run := SayMany(s, s, 0);
    var m := Reached(s, run);
    var last := Say(m, 'b');
    Joined(s, run, last);
    run := run + last;
    PrintsLast(s, m);
    var n := Said(m, 'b');
    Joined(s, run, [SeeReady, Emit]);
    run := run + [SeeReady, Emit];
    OutOfOrder(s, n.issued);
  }

  lemma StartsAhead(s: Ring)
    requires Drained(s, COUNTER)
    ensures Ahead(s, s, 0) && s.output == Concat(s.issued)
  {
    DrainedAt(s, COUNTER);
    forall k | 0 <= k < RING ensures !s.ready[k] { NoneReady(s, COUNTER, k); }
    assert s.issued + Many(0) == s.issued;
    assert s.issued[..s.taken] == s.issued;
  }

  lemma PrintsLast(s0: Ring, m: Ring)
    requires Ahead(s0, m, 16)
    ensures var n := Said(m, 'b');
            && Possible(n, [SeeReady, Emit])
            && var e := Reached(n, [SeeReady, Emit]);
               e.output == s0.output + ['b'] && e.issued == n.issued == s0.issued + Many(16) + [['b']]
  {
    var n := Said(m, 'b');
    assert [SeeReady, Emit][1..] == [Emit] && [Emit][1..] == [];
    assert Enabled(n, SeeReady) && Enabled(Next(n, SeeReady), Emit);
  }

  lemma OutOfOrder(s: Ring, issued: seq<Text>)
    requires s.output == Concat(s.issued) && issued == s.issued + Many(16) + [['b']]
    ensures !(s.output + ['b'] <= Concat(issued))
  {
    assert issued[..|issued| - 1] == s.issued + Many(16);
    ConcatMany(s.issued, 16);
    assert Concat(issued) == s.output + seq(16, _ => 'a') + ['b'];
    assert Concat(issued)[|s.output|] == 'a' && (s.output + ['b'])[|s.output|] == 'b';
  }
}
