/**
 The intrusive list: a head with a first pointer, nodes with a next pointer and a pointer back to
 whichever pointer leads to them. The list is given by a sequence that all pointers agree with.
 */
module HList {
  import opened Common

  /** A pointer cell that can lead to a node: the head's or a node's next. */
  datatype Cell = Head | NextOf(node: nat)

  datatype Links = Links(first: Option<nat>, next: map<nat, Option<nat>>, pprev: map<nat, Option<Cell>>)

  function After(order: seq<nat>, i: nat): Option<nat>
    requires i < |order|
  {
    if i + 1 < |order| then Some(order[i + 1]) else None
  }

  function Leading(order: seq<nat>, i: nat): Cell
    requires i < |order|
  {
    if i == 0 then Head else NextOf(order[i - 1])
  }

  ghost predicate Distinct(order: seq<nat>) {
    forall i, j | 0 <= i < j < |order| :: order[i] != order[j]
  }

  /** The pointers form the list of the nodes in order; the other nodes point nowhere. */
  ghost predicate Linked(l: Links, order: seq<nat>) {
    && Distinct(order) && l.next.Keys == l.pprev.Keys
    && l.first == (if order == [] then None else Some(order[0]))
    && (forall i {:trigger After(order, i)} | 0 <= i < |order| ::
          order[i] in l.next && l.next[order[i]] == After(order, i))
    && (forall i {:trigger Leading(order, i)} | 0 <= i < |order| ::
          order[i] in l.pprev && l.pprev[order[i]] == Some(Leading(order, i)))
    && (forall n | n in l.next && n !in order :: l.next[n] == None && l.pprev[n] == None)
  }

  /** hlist_add_head. */
  function AddHead(l: Links, n: nat): (r: Links) {
    var next := l.next[n := l.first];
    var pprev := if l.first.Some? then l.pprev[l.first.value := Some(NextOf(n))] else l.pprev;
    Links(Some(n), next, pprev[n := Some(Head)])
  }

  /** hlist_del. */
  function Del(l: Links, n: nat): (r: Links)
    requires n in l.next && n in l.pprev && l.pprev[n].Some?
  {
    var next, pprev := l.next[n], l.pprev[n];
    var first := if pprev.value.Head? then next else l.first;
    var nexts := if pprev.value.NextOf? then l.next[pprev.value.node := next] else l.next;
    var pprevs := if next.Some? then l.pprev[next.value := pprev] else l.pprev;
    Links(first, nexts[n := None], pprevs[n := None])
  }

  /** What the pointers of the i-th node hold. */
  lemma NodeAt(l: Links, order: seq<nat>, i: nat)
    requires Linked(l, order) && i < |order|
    ensures order[i] in l.next && order[i] in l.pprev
    ensures l.next[order[i]] == After(order, i) && l.pprev[order[i]] == Some(Leading(order, i))
  {
    var next, cell := After(order, i), Leading(order, i);
  }

  lemma AddHeadLinked(l: Links, order: seq<nat>, n: nat)
    requires Linked(l, order) && n !in order
    ensures Linked(AddHead(l, n), [n] + order)
  {
    var r, o := AddHead(l, n), [n] + order;
    if order != [] { NodeAt(l, order, 0); }
    forall i | 0 <= i < |o| ensures o[i] in r.next && r.next[o[i]] == After(o, i) {
      if i > 0 { assert o[i] == order[i - 1] && After(order, i - 1) == After(o, i); }
    }
    forall i | 0 <= i < |o| ensures o[i] in r.pprev && r.pprev[o[i]] == Some(Leading(o, i)) {
      if i > 1 { assert o[i] == order[i - 1] && Leading(order, i - 1) == Leading(o, i); }
      if i == 1 { assert o[1] == order[0]; }
    }
  }

  /** The list without its k-th node. */
  function Without(order: seq<nat>, k: nat): (r: seq<nat>)
    requires k < |order|
    ensures |r| == |order| - 1 && forall i | 0 <= i < |r| :: r[i] == order[if i < k then i else i + 1]
  {
    order[..k] + order[k + 1..]
  }

  lemma DelLinked(l: Links, order: seq<nat>, k: nat)
    requires Linked(l, order) && k < |order|
    ensures order[k] in l.next && order[k] in l.pprev && l.pprev[order[k]].Some?
    ensures Linked(Del(l, order[k]), Without(order, k)) && order[k] !in Without(order, k)
  {
    hide After, Leading;
    var n := order[k];
    NodeAt(l, order, k);
    var r, o := Del(l, n), Without(order, k);
    DelRest(l, order, k);
    forall i | 0 <= i < |o| ensures o[i] in r.next && r.next[o[i]] == After(o, i) { DelNext(l, order, k, i); }
    forall i | 0 <= i < |o| ensures o[i] in r.pprev && r.pprev[o[i]] == Some(Leading(o, i)) { DelPrev(l, order, k, i); }
  }

  /** The head and the nodes off the list after a removal. */
  lemma DelRest(l: Links, order: seq<nat>, k: nat)
    requires Linked(l, order) && k < |order|
    requires order[k] in l.next && order[k] in l.pprev && l.next[order[k]] == After(order, k)
    requires l.pprev[order[k]] == Some(Leading(order, k))
    ensures var r, o := Del(l, order[k]), Without(order, k);
            && Distinct(o) && order[k] !in o && r.next.Keys == r.pprev.Keys
            && r.first == (if o == [] then None else Some(o[0]))
            && forall m | m in r.next && m !in o :: r.next[m] == None && r.pprev[m] == None
  {
    var n := order[k];
    var r, o := Del(l, n), Without(order, k);
    if k > 0 { NodeAt(l, order, k - 1); }
    if k + 1 < |order| { NodeAt(l, order, k + 1); }
    forall m | m in r.next && m !in o ensures r.next[m] == None && r.pprev[m] == None {
      if m != n { NotIn(order, k, m); }
    }
  }

  lemma NotIn(order: seq<nat>, k: nat, m: nat)
    requires k < |order| && m != order[k] && m !in Without(order, k)
    ensures m !in order
  {
    forall i | 0 <= i < |order| ensures order[i] != m {
      if i != k { assert Without(order, k)[if i < k then i else i - 1] == order[i]; }
    }
  }

  lemma DelNext(l: Links, order: seq<nat>, k: nat, i: nat)
    requires Linked(l, order) && k < |order| && i < |order| - 1
    requires order[k] in l.next && order[k] in l.pprev && l.next[order[k]] == After(order, k)
    requires l.pprev[order[k]] == Some(Leading(order, k))
    ensures var r, o := Del(l, order[k]), Without(order, k); o[i] in r.next && r.next[o[i]] == After(o, i)
  {
    var a := if i < k then i else i + 1;
    NodeAt(l, order, a);
  }

  lemma DelPrev(l: Links, order: seq<nat>, k: nat, i: nat)
    requires Linked(l, order) && k < |order| && i < |order| - 1
    requires order[k] in l.next && order[k] in l.pprev && l.next[order[k]] == After(order, k)
    requires l.pprev[order[k]] == Some(Leading(order, k))
    ensures var r, o := Del(l, order[k]), Without(order, k); o[i] in r.pprev && r.pprev[o[i]] == Some(Leading(o, i))
  {
    var a := if i < k then i else i + 1;
    NodeAt(l, order, a);
  }

  lemma DelKeys(l: Links, order: seq<nat>, k: nat)
    requires Linked(l, order) && k < |order|
    ensures order[k] in l.next && order[k] in l.pprev && l.pprev[order[k]].Some?
    ensures Del(l, order[k]).next.Keys == l.next.Keys
  {
    NodeAt(l, order, k);
    if k > 0 { NodeAt(l, order, k - 1); }
  }

  lemma WithoutMembers(order: seq<nat>, k: nat)
    requires Distinct(order) && k < |order|
    ensures forall t :: t in Without(order, k) <==> t in order && t != order[k]
  {
    forall t ensures t in Without(order, k) <==> t in order && t != order[k] {
      if t in order && t != order[k] && t !in Without(order, k) { NotIn(order, k, t); }
    }
  }
}
