/** The run list, the life of threads on it, and the choice of the next thread. */
module Scheduler {
  import opened Common
  import opened HList
  import opened RoundRobin

  datatype ThreadState = Runnable | StartingUp | Zombie

  const BOOT: nat := 0
  const KERNEL: nat := 0

  /** The threads that are listed are those that have not exited, and the boot thread is one of them. */
  ghost predicate Listed(order: seq<nat>, state: map<nat, ThreadState>) {
    && (forall t | t in order :: t in state && state[t] != Zombie)
    && (forall t | t in state && state[t] != Zombie :: t in order)
    && BOOT in state && state[BOOT] == Runnable
  }

  ghost predicate Member(members: map<nat, seq<nat>>, p: nat, t: nat) {
    p in members && t in members[p]
  }

  /** The threads of a process belong to it; the boot thread is the kernel's. */
  ghost predicate Families(proc: map<nat, nat>, members: map<nat, seq<nat>>, threads: set<nat>) {
    && proc.Keys == threads && BOOT in proc && proc[BOOT] == KERNEL
    && (forall p, t {:trigger Member(members, p, t)} | Member(members, p, t) :: t in proc && proc[t] == p)
    && (forall t {:trigger proc[t]} | t in proc :: Member(members, proc[t], t))
  }

  /** The threads of process p have exited, the others are as before. */
  ghost predicate ProcGone(s0: map<nat, ThreadState>, s: map<nat, ThreadState>, proc: map<nat, nat>, p: nat) {
    s.Keys == s0.Keys == proc.Keys && forall t | t in s :: s[t] == if proc[t] == p then Zombie else s0[t]
  }

  /** The threads listed in gone have exited, the others are as before. */
  ghost predicate Gone(s0: map<nat, ThreadState>, s: map<nat, ThreadState>, gone: seq<nat>) {
    s.Keys == s0.Keys && forall t | t in s :: s[t] == if t in gone then Zombie else s0[t]
  }

  lemma GoneMore(s0: map<nat, ThreadState>, s: map<nat, ThreadState>, gone: seq<nat>, t: nat)
    requires Gone(s0, s, gone) && t in s
    ensures Gone(s0, s[t := Zombie], gone + [t]) && (s[t] == Zombie ==> s[t := Zombie] == s)
  {
  }

  lemma CodesMore(s0: map<nat, ThreadState>, s: map<nat, ThreadState>, codes: map<nat, int>, current: nat, code: int,
                  t: nat)
    requires Codes(s0, s, codes, current, code) && t in s && t in s0
    ensures Codes(s0, s[t := Zombie], codes[t := if t == current then code else -1], current, code)
  {
  }

  lemma NothingGone(s: map<nat, ThreadState>, codes: map<nat, int>, current: nat, code: int)
    ensures Codes(s, s, codes, current, code) && Gone(s, s, [])
  {
  }

  lemma GoneProc(s0: map<nat, ThreadState>, s: map<nat, ThreadState>, proc: map<nat, nat>, members: map<nat, seq<nat>>,
                 p: nat)
    requires Families(proc, members, s.Keys) && p in members && Gone(s0, s, members[p])
    ensures ProcGone(s0, s, proc, p)
  {
    MemberKnown(proc, members, s.Keys, p);
  }

  /** Threads that exited have the given code if current, and -1 otherwise. */
  ghost predicate Codes(s0: map<nat, ThreadState>, s: map<nat, ThreadState>, codes: map<nat, int>, current: nat,
                        code: int) {
    forall t | t in s && t in s0 && s0[t] != s[t] :: t in codes && codes[t] == if t == current then code else -1
  }

  function RunnableOf(state: map<nat, ThreadState>): set<nat> {
    set t | t in state && state[t] == Runnable
  }

  function ZombiesOf(state: map<nat, ThreadState>): set<nat> {
    set t | t in state && state[t] == Zombie
  }

  lemma {:induction false} FoundIn(order: seq<nat>, t: nat) returns (k: nat)
    requires t in order
    ensures k < |order| && order[k] == t
  {
    k :| 0 <= k < |order| && order[k] == t;
  }

  lemma BootListed(order: seq<nat>, state: map<nat, ThreadState>)
    requires Listed(order, state)
    ensures BOOT in order && BOOT in RunnableOf(state)
  {
  }

  lemma SpawnFamilies(proc: map<nat, nat>, members: map<nat, seq<nat>>, threads: set<nat>, t: nat, p: nat)
    requires Families(proc, members, threads) && t !in threads
    ensures Families(proc[t := p], members[p := [t] + if p in members then members[p] else []], threads + {t})
  {
    var ps, ms := proc[t := p], members[p := [t] + if p in members then members[p] else []];
    forall u | u in ps ensures Member(ms, ps[u], u) {
      if u == t {
        assert ms[p][0] == t;
      } else {
        assert Member(members, proc[u], u);
        if proc[u] == p {
          var k :| 0 <= k < |members[p]| && members[p][k] == u;
          assert ms[p][k + 1] == u;
        }
      }
    }
    forall q, u | Member(ms, q, u) ensures u in ps && ps[u] == q {
      if q != p {
        assert Member(members, q, u);
      } else if u != t {
        var k :| 0 <= k < |ms[p]| && ms[p][k] == u;
        assert members[p][k - 1] == u;
        assert Member(members, q, u);
      }
    }
  }

  lemma SpawnListed(order: seq<nat>, state: map<nat, ThreadState>, t: nat, s: ThreadState)
    requires Listed(order, state) && t !in state && s != Zombie
    ensures t !in order && Listed([t] + order, state[t := s]) && ZombiesOf(state[t := s]) == ZombiesOf(state)
  {
  }

  lemma ExitListed(order: seq<nat>, o: seq<nat>, state: map<nat, ThreadState>, t: nat)
    requires Listed(order, state) && t in state && t != BOOT && forall u :: u in o <==> u in order && u != t
    ensures Listed(o, state[t := Zombie])
  {
  }

  lemma ListedOne(order: seq<nat>, state: map<nat, ThreadState>, t: nat)
    requires Listed(order, state) && t in state && state[t] != Zombie
    ensures t in order
  {
  }

  lemma NotBoot(proc: map<nat, nat>, members: map<nat, seq<nat>>, threads: set<nat>, t: nat)
    requires Families(proc, members, threads) && t in threads
    ensures t in proc && (proc[t] != KERNEL ==> t != BOOT)
  {
  }

  lemma MemberKnown(proc: map<nat, nat>, members: map<nat, seq<nat>>, threads: set<nat>, p: nat)
    requires Families(proc, members, threads) && p in members
    ensures forall t | t in members[p] :: t in threads && t in proc && proc[t] == p
    ensures forall t | t in proc && proc[t] == p :: t in members[p]
  {
    forall t | t in members[p] ensures t in threads && t in proc && proc[t] == p { assert Member(members, p, t); }
    forall t | t in proc && proc[t] == p ensures t in members[p] { assert Member(members, proc[t], t); }
  }

  lemma DistinctOf(l: Links, order: seq<nat>)
    requires Linked(l, order)
    ensures Distinct(order)
  {
  }

  datatype Event =
    | Spawn(t: nat, p: nat, runnable: bool)
    | MakeRunnable(t: nat)
    | ThreadExit(t: nat, code: int)
    | ProcExit(p: nat, code: int)
    | Switch

  lemma SpawnValid(q: RunQueue, t: nat, p: nat, s: ThreadState)
    requires q.Valid() && t !in q.state && s != Zombie
    ensures Linked(q.List(), q.order) && t !in q.order && q.current in q.state
    ensures Listed([t] + q.order, q.state[t := s]) && ZombiesOf(q.state[t := s]) == ZombiesOf(q.state)
    ensures var list := [t] + if p in q.members then q.members[p] else [];
            && Families(q.proc[t := p], q.members[p := list], q.state[t := s].Keys)
            && q.members[p := list].Keys == q.members.Keys + {p}
    ensures q.state[t := s].Keys == q.next.Keys + {t}
  {
    hide Linked, Families, Listed, ZombiesOf;
    SpawnFamilies(q.proc, q.members, q.state.Keys, t, p);
    SpawnListed(q.order, q.state, t, s);
    assert q.state[t := s].Keys == q.state.Keys + {t};
  }

  lemma Assemble(q: RunQueue)
    requires Linked(q.List(), q.order) && q.next.Keys == q.state.Keys && q.current in q.state
    requires Listed(q.order, q.state) && Families(q.proc, q.members, q.state.Keys)
    ensures q.Valid()
  {
    hide Linked, Families, Listed;
  }

  class RunQueue {
    var first: Option<nat>
    var next: map<nat, Option<nat>>
    var pprev: map<nat, Option<Cell>>
    var state: map<nat, ThreadState>
    var proc: map<nat, nat>
    var members: map<nat, seq<nat>>
    var exitCode: map<nat, int>
    var procExited: set<nat>
    var current: nat
    ghost var order: seq<nat>

    ghost function List(): Links
      reads `first, `next, `pprev
    {
      Links(first, next, pprev)
    }

    ghost predicate Valid()
      reads this
    {
      && Linked(List(), order) && next.Keys == state.Keys && current in state
      && Listed(order, state) && Families(proc, members, state.Keys)
    }

    /** The boot thread alone. */
    constructor ()
      ensures Valid() && order == [BOOT] && current == BOOT && procExited == {}
    {
      first, next, pprev := Some(BOOT), map[BOOT := None], map[BOOT := Some(Head)];
      state, proc, members := map[BOOT := Runnable], map[BOOT := KERNEL], map[KERNEL := [BOOT]];
      exitCode, procExited, current, order := map[], {}, BOOT, [BOOT];
      new;
      assert BOOT in members[KERNEL];
    }

    /** hlist_add_head, pointer by pointer. */
    method AddToList(n: nat)
      requires Linked(List(), order) && n !in order
      modifies this`first, this`next, this`pprev, this`order
      ensures Linked(List(), order) && order == [n] + old(order) && next.Keys == old(next.Keys) + {n}
    {
      AddHeadLinked(List(), order, n);
      ghost var was := List();
      var f := first;
      next := next[n := f];
      if f.Some? { pprev := pprev[f.value := Some(NextOf(n))]; }
      first := Some(n);
      pprev := pprev[n := Some(Head)];
      order := [n] + order;
      assert List() == AddHead(was, n);
    }

    /** hlist_del, pointer by pointer. */
    method DelFromList(n: nat)
      requires Linked(List(), order) && n in order
      modifies this`first, this`next, this`pprev, this`order
      ensures Linked(List(), order) && next.Keys == old(next.Keys) && n !in order
      ensures forall t :: t in order <==> t in old(order) && t != n
      ensures exists k :: 0 <= k < |old(order)| && old(order)[k] == n && order == Without(old(order), k)
    {
      ghost var k: nat := FoundIn(order, n);
      DelLinked(List(), order, k);
      ghost var was := List();
      var after, before := next[n], pprev[n];
      if before.value.Head? { first := after; } else { next := next[before.value.node := after]; }
      if after.Some? { pprev := pprev[after.value := before]; }
      next := next[n := None];
      pprev := pprev[n := None];
      assert List() == Del(was, n);
      DelKeys(was, order, k);
      order := Without(order, k);
      WithoutMembers(old(order), k);
    }

    /** A new thread of a process, starting up or runnable, at the head of the list. */
    method Spawn(t: nat, p: nat, runnable: bool)
      requires Valid() && t !in state
      modifies this
      ensures Valid() && order == [t] + old(order) && current == old(current)
      ensures state == old(state)[t := if runnable then Runnable else StartingUp]
      ensures ZombiesOf(state) == ZombiesOf(old(state))
      ensures proc == old(proc)[t := p] && members.Keys == old(members.Keys) + {p} && procExited == old(procExited)
    {
      hide *;
      var s := if runnable then Runnable else StartingUp;
      SpawnValid(this, t, p, s);
      var list := [t] + if p in members then members[p] else [];
      AddToList(t);
      state, proc, members := state[t := s], proc[t := p], members[p := list];
      Assemble(this);
    }

    /** A thread that was starting up becomes runnable. */
    method MakeRunnable(t: nat)
      requires Valid() && t in state && state[t] == StartingUp
      modifies this`state
      ensures Valid() && state == old(state)[t := Runnable]
    {
      hide Linked, Families;
      state := state[t := Runnable];
      assert state.Keys == old(state.Keys);
    }

    /** Takes a thread off the list for good. */
    method ExitLocked(t: nat, code: int)
      requires Valid() && t in state && state[t] != Zombie && t in proc && proc[t] != KERNEL
      modifies this`first, this`next, this`pprev, this`order, this`state, this`exitCode
      ensures Valid() && state == old(state)[t := Zombie] && exitCode == old(exitCode)[t := code]
      ensures forall u :: u in order <==> u in old(order) && u != t
    {
      hide Linked, Families, Listed, Without;
      ListedOne(order, state, t);
      NotBoot(proc, members, state.Keys, t);
      ghost var order0 := order;
      exitCode := exitCode[t := code];
      DelFromList(t);
      ExitListed(order0, order, state, t);
      state := state[t := Zombie];
      assert state.Keys == old(state.Keys);
    }

    /** usthread_exit: kernel threads and threads that have exited are left alone. */
    method ThreadExit(t: nat, code: int)
      requires Valid() && t in state && t in proc
      modifies this
      ensures Valid() && current == old(current)
      ensures proc == old(proc) && members == old(members) && procExited == old(procExited)
      ensures old(proc[t] == KERNEL || state[t] == Zombie) ==>
               state == old(state) && exitCode == old(exitCode) && order == old(order)
      ensures old(proc[t] != KERNEL && state[t] != Zombie) ==>
                state == old(state)[t := Zombie] && exitCode == old(exitCode)[t := code] && t !in order
    {
      hide Linked, Listed, Families;
      if proc[t] == KERNEL { return; }
      if state[t] == Zombie { return; }
      ExitLocked(t, code);
    }

    /** usproc_exit: every thread of the process that has not exited does, the current one with the process's code. */
    method ProcExit(p: nat, code: int)
      requires Valid() && p in members
      modifies this
      ensures Valid() && current == old(current)
      ensures p == KERNEL || old(p in procExited) ==>
               state == old(state) && exitCode == old(exitCode) && procExited == old(procExited) && order == old(order)
      ensures p != KERNEL && old(p !in procExited) ==> procExited == old(procExited) + {p}
      ensures p != KERNEL && old(p !in procExited) ==> ProcGone(old(state), state, proc, p)
      ensures proc == old(proc) && members == old(members) && Codes(old(state), state, exitCode, current, code)
    {
      hide Linked, Listed, Families, Gone, Codes, ProcGone;
      NothingGone(state, exitCode, current, code);
      if p == KERNEL { return; }
      if p in procExited { return; }
      MemberKnown(proc, members, state.Keys, p);
      var rest := members[p];
      ghost var s0 := state;
      var done := 0;
      while done < |rest|
        invariant Valid() && done <= |rest| && current == old(current) && state.Keys == s0.Keys
        invariant proc == old(proc) && members == old(members) && procExited == old(procExited)
        invariant Gone(s0, state, rest[..done]) && Codes(s0, state, exitCode, current, code)
      {
        var t := rest[done];
        assert t in members[p] && rest[..done + 1] == rest[..done] + [t];
        GoneMore(s0, state, rest[..done], t);
        if state[t] != Zombie {
          CodesMore(s0, state, exitCode, current, code, t);
          ExitLocked(t, if t == current then code else -1);
        }
        done := done + 1;
      }
      assert rest[..done] == rest;
      procExited := procExited + {p};
      GoneProc(s0, state, proc, members, p);
    }

    /** The selection loop: the first runnable thread after the current one, going round the list. */
    method SelectNext() returns (t: nat)
      requires Valid()
      ensures t in order && t in state && state[t] == Runnable
      ensures exists cands :: Candidates(order, current, cands) && t == Pick(cands, RunnableOf(state), current)
    {
      hide Listed, Families, Linked, Candidates, Pick, AtCandidate, Following;
      ghost var run := RunnableOf(state);
      assert BOOT in order && BOOT in run by { BootListed(order, state); }
      ghost var c: nat, cands := CandidatesFor(List(), order, current);
      CandidateIn(order, c, cands, BOOT);
      ghost var boot: nat := FoundIn(cands, BOOT);
      var node := next[current];
      ghost var k := 0;
      while true
        invariant k <= boot && forall i | 0 <= i < k :: cands[i] !in run
        invariant AtCandidate(List(), order, current, c, cands, node, k)
        decreases boot - k
      {
        CandidateHere(List(), order, current, c, cands, node, k);
        if node.None? { node := first; }
        if node.None? { return current; }
        if state[node.value] == Runnable {
          PickIs(cands, run, current, k);
          return node.value;
        }
        if node.value == current { return current; }
        node := next[node.value];
        CandidateMoves(List(), order, current, c, cands, k, node);
        k := k + 1;
      }
    }

    /** A switch: the next thread becomes current; a thread that has exited never does. */
    method Switch()
      requires Valid()
      modifies this`current
      ensures Valid() && state[current] == Runnable && current in order && current !in ZombiesOf(state)
      ensures exists cands ::
                Candidates(order, old(current), cands) && current == Pick(cands, RunnableOf(state), old(current))
    {
      hide Linked, Listed, Families, Candidates, Pick;
      var t := SelectNext();
      current := t;
    }

    /** A switch, with the one thread it can choose. */
    method Chosen()
      requires Valid()
      modifies this`current
      ensures Valid() && current in RunnableOf(state)
      ensures current == Pick(CandidatesOf(order, old(current)), RunnableOf(state), old(current))
    {
      hide Listed, Families, Candidates, CandidatesOf, Pick, Linked, Distinct;
      DistinctOf(List(), order);
      ghost var before := current;
      Switch();
      ghost var cands :| Candidates(order, before, cands) && current == Pick(cands, RunnableOf(state), before);
      CandidatesAre(order, before, cands);
    }

    /** Switches on an unchanged list follow the turns, so each runnable thread runs within |order| of them. */
    method SwitchMany(n: nat)
      requires Valid()
      modifies this`current
      ensures Valid() && Distinct(order) && current == Turn(order, RunnableOf(state), old(current), n)
    {
      hide Listed, Families, CandidatesOf, Pick, Linked, Distinct;
      DistinctOf(List(), order);
      for k := 0 to n
        invariant Valid() && current == Turn(order, RunnableOf(state), old(current), k)
      {
        Chosen();
      }
    }

    /** All that a history speaks of. */
    ghost function Now(): Moment
      reads this
    {
      Moment(state, proc, members.Keys, procExited, order, current)
    }

    /** One event; those that do not apply are ignored. */
    method Handle(e: Event) returns (choice: Option<nat>)
      requires Valid()
      modifies this
      ensures Valid() && Follows(old(Now()), e, choice, Now())
    {
      hide Linked, Listed, Families, Candidates, CandidatesOf, Pick, Gone, Codes, ProcGone, Without, Distinct;
      hide ZombiesOf, RunnableOf;
      choice := None;
      match e {
        case Spawn(t, p, runnable) => if t !in state { Spawn(t, p, runnable); }
        case MakeRunnable(t) => if t in state && state[t] == StartingUp { MakeRunnable(t); }
        case ThreadExit(t, code) => if t in state && t in proc { ThreadExit(t, code); }
        case ProcExit(p, code) => if p in members { ProcExit(p, code); }
        case Switch =>
          Chosen();
          choice := Some(current);
      }
    }

    /** Any events, in any order: the code goes through them as `Told` says. */
    method History(events: seq<Event>) returns (chosen: seq<Option<nat>>, ghost moments: seq<Moment>)
      requires Valid()
      modifies this
      ensures Valid() && Told(events, chosen, moments)
      ensures moments[0] == old(Now()) && moments[|events|] == Now()
    {
      hide Follows, Linked, Families, Listed;
      chosen, moments := [], [Now()];
      for i := 0 to |events|
        invariant Valid() && Told(events[..i], chosen, moments) && moments[0] == old(Now()) && moments[i] == Now()
      {
        var choice := Handle(events[i]);
        ToldMore(events[..i], chosen, moments, events[i], choice, Now());
        assert events[..i + 1] == events[..i] + [events[i]];
        chosen, moments := chosen + [choice], moments + [Now()];
      }
      assert events[..|events|] == events;
    }
  }

  // ----- Histories -----

  /** The threads with their states and processes, the processes, those that have exited, the list, and who runs. */
  datatype Moment = Moment(state: map<nat, ThreadState>, proc: map<nat, nat>, procs: set<nat>, exited: set<nat>,
                           order: seq<nat>, current: nat)

  /** What an event makes of a moment, and the thread it chooses. */
  ghost predicate Follows(m: Moment, e: Event, choice: Option<nat>, n: Moment) {
    match e
    case Spawn(t, p, runnable) =>
      && choice.None?
      && n == if t in m.state then m
              else m.(state := m.state[t := if runnable then Runnable else StartingUp], proc := m.proc[t := p],
                      procs := m.procs + {p}, order := [t] + m.order)
    case MakeRunnable(t) =>
      && choice.None?
      && n == if t in m.state && m.state[t] == StartingUp then m.(state := m.state[t := Runnable]) else m
    case ThreadExit(t, _) =>
      && choice.None?
      && n == if t in m.state && t in m.proc && m.proc[t] != KERNEL && m.state[t] != Zombie
              then m.(state := m.state[t := Zombie], order := n.order) else m
    case ProcExit(p, _) =>
      && choice.None?
      && if p in m.procs && p != KERNEL && p !in m.exited
         then && n == m.(state := n.state, order := n.order, exited := m.exited + {p})
              && ProcGone(m.state, n.state, m.proc, p)
         else n == m
    case Switch =>
      && choice == Some(n.current) && n == m.(current := n.current) && n.current in RunnableOf(m.state)
      && n.current == Pick(CandidatesOf(m.order, m.current), RunnableOf(m.state), m.current)
  }

  /** The moments before, between and after the events, and the thread each event chose. */
  ghost predicate Told(events: seq<Event>, chosen: seq<Option<nat>>, moments: seq<Moment>) {
    && |chosen| == |events| && |moments| == |events| + 1
    && forall k | 0 <= k < |events| :: Follows(moments[k], events[k], chosen[k], moments[k + 1])
  }

  lemma ToldMore(events: seq<Event>, chosen: seq<Option<nat>>, moments: seq<Moment>, e: Event, choice: Option<nat>,
                 n: Moment)
    requires Told(events, chosen, moments) && Follows(moments[|events|], e, choice, n)
    ensures Told(events + [e], chosen + [choice], moments + [n])
  {
    hide Follows;
  }

  /** Exits are for good. */
  lemma ExitsStay(m: Moment, e: Event, choice: Option<nat>, n: Moment)
    requires Follows(m, e, choice, n)
    ensures ZombiesOf(m.state) <= ZombiesOf(n.state)
  {
    hide Pick, CandidatesOf, RunnableOf;
  }

  lemma {:induction false} ExitsStayOver(events: seq<Event>, chosen: seq<Option<nat>>, moments: seq<Moment>, i: nat,
                                         j: nat)
    requires Told(events, chosen, moments) && i <= j < |moments|
    ensures ZombiesOf(moments[i].state) <= ZombiesOf(moments[j].state)
    decreases j
  {
    hide Follows, ZombiesOf;
    if i < j {
      ExitsStayOver(events, chosen, moments, i, j - 1);
      ExitsStay(moments[j - 1], events[j - 1], chosen[j - 1], moments[j]);
    }
  }

  /** In every history: a thread that has exited at some moment is not chosen by any event after it. */
  lemma NeverChosenAgain(events: seq<Event>, chosen: seq<Option<nat>>, moments: seq<Moment>, i: nat, k: nat)
    requires Told(events, chosen, moments) && i <= k < |events| && chosen[k].Some?
    ensures events[k].Switch? && chosen[k].value !in ZombiesOf(moments[i].state)
  {
    ExitsStayOver(events, chosen, moments, i, k);
    hide Pick, CandidatesOf;
    assert Follows(moments[k], events[k], chosen[k], moments[k + 1]);
  }

  /** So a thread that an event of the history makes exit is not chosen by a later one. */
  lemma ExitedInside(events: seq<Event>, chosen: seq<Option<nat>>, moments: seq<Moment>, i: nat, k: nat)
    requires Told(events, chosen, moments) && i < k < |events| && chosen[k].Some? && events[i].ThreadExit?
    requires var t := events[i].t; t in moments[i].state && t in moments[i].proc && moments[i].proc[t] != KERNEL
    ensures chosen[k].value != events[i].t
  {
    NeverChosenAgain(events, chosen, moments, i + 1, k);
    assert Follows(moments[i], events[i], chosen[i], moments[i + 1]);
  }
}
