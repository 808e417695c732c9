/** Which thread the scheduler takes next, and that every runnable thread gets its turn. */
module RoundRobin {
  import opened Common
  import opened HList

  /** The listed threads in the order in which they are looked at: those after current, then from the start up to it. */
  function Following(order: seq<nat>, c: nat): (r: seq<nat>)
    requires c < |order|
    ensures |r| == |order| && r[|r| - 1] == order[c]
    ensures forall k | 0 <= k < |r| :: r[k] == order[if c + 1 + k < |order| then c + 1 + k else c + 1 + k - |order|]
  {
    order[c + 1..] + order[..c + 1]
  }

  /** The candidates when current is listed, and when it is not. */
  ghost predicate Candidates(order: seq<nat>, current: nat, cands: seq<nat>) {
    if current in order then exists c :: 0 <= c < |order| && order[c] == current && cands == Following(order, c)
    else cands == order
  }

  /** The first runnable candidate, or the current thread. */
  ghost function Pick(cands: seq<nat>, runnable: set<nat>, current: nat): (t: nat)
    ensures (exists k :: 0 <= k < |cands| && cands[k] in runnable) ==> t in runnable && t in cands
  {
    if cands == [] then current
    else if cands[0] in runnable then cands[0]
    else Pick(cands[1..], runnable, current)
  }

  lemma {:induction false} PickIs(cands: seq<nat>, runnable: set<nat>, current: nat, k: nat)
    requires k < |cands| && (forall i | 0 <= i < k :: cands[i] !in runnable) && cands[k] in runnable
    ensures Pick(cands, runnable, current) == cands[k]
  {
    if k > 0 { PickIs(cands[1..], runnable, current, k - 1); }
  }

  /** Where the pointers lead from one candidate to the next. */
  lemma NextCandidate(l: Links, order: seq<nat>, c: nat, k: nat)
    requires Linked(l, order) && c < |order| && k < |order|
    ensures var cands := Following(order, c);
            var at := if k == 0 then order[c] else cands[k - 1];
            at in l.next && (if l.next[at].Some? then l.next[at] else l.first) == Some(cands[k])
  {
    var i := if k == 0 then c else if c + k < |order| then c + k else c + k - |order|;
    NodeAt(l, order, i);
  }

  // ----- Turns -----

  ghost function IndexOf(order: seq<nat>, t: nat): (i: nat)
    requires t in order
    ensures i < |order| && order[i] == t
  {
    var i :| 0 <= i < |order| && order[i] == t; i
  }

  /** The candidates, whether current is listed or has exited. */
  ghost function CandidatesOf(order: seq<nat>, current: nat): (cands: seq<nat>) {
    if current in order then Following(order, IndexOf(order, current)) else order
  }

  lemma CandidatesAre(order: seq<nat>, current: nat, cands: seq<nat>)
    requires Distinct(order) && Candidates(order, current, cands)
    ensures cands == CandidatesOf(order, current)
  {
    if current in order {
      var c :| 0 <= c < |order| && order[c] == current && cands == Following(order, c);
      assert c == IndexOf(order, current);
    }
  }

  /**
   The thread that runs after the given number of switches on an unchanged list, whichever thread is current first.
   */
  ghost function Turn(order: seq<nat>, runnable: set<nat>, current: nat, n: nat): nat {
    if n == 0 then current
    else
      var t := Turn(order, runnable, current, n - 1);
      Pick(CandidatesOf(order, t), runnable, t)
  }

  /** How many candidates are looked at from the current thread until the one at j. */
  ghost function Distance(order: seq<nat>, current: nat, j: nat): (d: nat)
    requires j < |order|
    ensures 1 <= d <= |order|
  {
    if current !in order then j + 1
    else
      var c := IndexOf(order, current);
      if j > c then j - c else j - c + |order|
  }

  /** One switch takes the wanted thread or comes nearer to it. */
  lemma TurnNearer(order: seq<nat>, runnable: set<nat>, current: nat, j: nat)
    requires Distinct(order) && j < |order| && order[j] in runnable
    ensures var t := Pick(CandidatesOf(order, current), runnable, current);
            t in order && (t == order[j] || Distance(order, t, j) < Distance(order, current, j))
  {
    var cands, d := CandidatesOf(order, current), Distance(order, current, j);
    assert cands[d - 1] == order[j];
    var k := 0;
    while cands[k] !in runnable
      invariant k < d && forall i | 0 <= i < k :: cands[i] !in runnable
      decreases d - k
    {
      assert k != d - 1;
      k := k + 1;
    }
    PickIs(cands, runnable, current, k);
    var b := IndexOf(order, cands[k]);
    if current in order {
      var c := IndexOf(order, current);
      assert b == if c + 1 + k < |order| then c + 1 + k else c + 1 + k - |order|;
    } else {
      assert b == k;
    }
  }

  /**
   Every runnable listed thread runs within as many switches as threads are listed, whichever thread is current:
   one that runs, one that waits, or one that has just exited and is not listed any more.
   */
  lemma EveryoneGetsATurn(order: seq<nat>, runnable: set<nat>, current: nat, t: nat) returns (n: nat)
    requires Distinct(order) && t in order && t in runnable
    ensures 1 <= n <= |order| && Turn(order, runnable, current, n) == t
  {
    n := TurnFrom(order, runnable, current, IndexOf(order, t), 0);
  }

  lemma {:induction false} TurnFrom(order: seq<nat>, runnable: set<nat>, current: nat, j: nat, done: nat)
    returns (n: nat)
    requires Distinct(order) && j < |order| && order[j] in runnable
    requires done + Distance(order, Turn(order, runnable, current, done), j) <= |order|
    ensures done < n <= |order| && Turn(order, runnable, current, n) == order[j]
    decreases Distance(order, Turn(order, runnable, current, done), j)
  {
    hide CandidatesOf, Pick, IndexOf, Distinct;
    TurnNearer(order, runnable, Turn(order, runnable, current, done), j);
    hide Distance;
    if Turn(order, runnable, current, done + 1) == order[j] {
      n := done + 1;
    } else {
      n := TurnFrom(order, runnable, current, j, done + 1);
    }
  }

  // ----- One round of the selection loop -----

  datatype Verdict = Found(thread: nat) | Go(node: Option<nat>)

  /** One round of the loop, from the pointer it holds: a null pointer goes to the head. */
  function Visit(l: Links, runnable: set<nat>, current: nat, node: Option<nat>): Verdict {
    var at := if node.None? then l.first else node;
    if at.None? then Found(current)
    else if at.value in runnable then Found(at.value)
    else if at.value == current then Found(current)
    else Go(if at.value in l.next then l.next[at.value] else None)
  }

  /** The loop after a number of rounds. */
  function Rounds(l: Links, runnable: set<nat>, current: nat, node: Option<nat>, n: nat): Verdict {
    if n == 0 then Go(node)
    else
      var v := Rounds(l, runnable, current, node, n - 1);
      if v.Found? then v else Visit(l, runnable, current, v.node)
  }

  /** With a list of which none is runnable, and current not on it, the loop never ends. */
  lemma {:induction false} NeverFound(l: Links, order: seq<nat>, runnable: set<nat>, current: nat, n: nat)
    requires Linked(l, order) && order != [] && current !in order && (forall t | t in order :: t !in runnable)
    ensures var v := Rounds(l, runnable, current, None, n); v.Go? && (v.node.Some? ==> v.node.value in order)
  {
    if n > 0 {
      NeverFound(l, order, runnable, current, n - 1);
      var node := Rounds(l, runnable, current, None, n - 1).node;
      var at := if node.None? then order[0] else node.value;
      var i :| 0 <= i < |order| && order[i] == at;
      NodeAt(l, order, i);
    }
  }

  /** The loop's pointer leads to the k-th candidate. */
  ghost predicate AtCandidate(l: Links, order: seq<nat>, current: nat, c: nat, cands: seq<nat>, node: Option<nat>,
                              k: nat) {
    && k < |cands| == |order| && Linked(l, order)
    && (if current in order then c < |order| && order[c] == current && cands == Following(order, c) else cands == order)
    && (if k == 0 then current in l.next && node == l.next[current]
        else cands[k - 1] in l.next && node == l.next[cands[k - 1]])
  }

  lemma CandidateHere(l: Links, order: seq<nat>, current: nat, c: nat, cands: seq<nat>, node: Option<nat>, k: nat)
    requires AtCandidate(l, order, current, c, cands, node, k)
    ensures (if node.Some? then node else l.first) == Some(cands[k])
    ensures cands[k] in order && cands[k] in l.next
    ensures cands[k] == current ==> k == |cands| - 1
  {
    if current in order {
      NextCandidate(l, order, c, k);
      if cands[k] == current { CurrentLast(order, c, k); }
    } else if k > 0 {
      NodeAt(l, order, k - 1);
    }
    var j: nat :| j < |order| && order[j] == cands[k];
    NodeAt(l, order, j);
  }

  lemma CurrentLast(order: seq<nat>, c: nat, k: nat)
    requires Distinct(order) && c < |order| && k < |order| && Following(order, c)[k] == order[c]
    ensures k == |order| - 1
  {
  }

  lemma CandidateIn(order: seq<nat>, c: nat, cands: seq<nat>, t: nat)
    requires t in order && (cands == order || (c < |order| && cands == Following(order, c)))
    ensures t in cands
  {
    var j :| 0 <= j < |order| && order[j] == t;
    if cands != order {
      assert cands[if j > c then j - c - 1 else j - c - 1 + |order|] == t;
    }
  }

  lemma CandidatesFor(l: Links, order: seq<nat>, current: nat) returns (c: nat, cands: seq<nat>)
    requires Linked(l, order) && order != [] && current in l.next
    ensures Candidates(order, current, cands) && |cands| == |order|
    ensures AtCandidate(l, order, current, c, cands, l.next[current], 0)
    ensures cands == order || (c < |order| && cands == Following(order, c))
  {
    if current in order {
      c :| 0 <= c < |order| && order[c] == current;
      cands := Following(order, c);
    } else {
      c, cands := 0, order;
    }
  }

  lemma CandidateMoves(l: Links, order: seq<nat>, current: nat, c: nat, cands: seq<nat>, k: nat, node: Option<nat>)
    requires k + 1 < |cands| && exists at :: AtCandidate(l, order, current, c, cands, at, k)
    requires cands[k] in l.next && node == l.next[cands[k]]
    ensures AtCandidate(l, order, current, c, cands, node, k + 1)
  {
  }
}
