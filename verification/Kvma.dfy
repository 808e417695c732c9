/**
 The kernel virtual-address allocator: a sorted list of free page runs threaded through
 a pool of 512 nodes. A node is a pool index; a node with no pages is unused.
 */
module Kvma {
  import opened Common
  import opened FreeRegions

  const POOL: nat := 512
  const NULL: int := -1

  datatype Node = Node(base: nat, pages: nat, next: int)

  /** The list from head runs through exactly these nodes. */
  ghost predicate Linked(p: seq<Node>, head: int, nodes: seq<int>) {
    && (forall i | 0 <= i < |nodes| :: 0 <= nodes[i] < |p|)
    && (forall i, j | 0 <= i < j < |nodes| :: nodes[i] != nodes[j])
    && head == At(nodes, 0)
    && (forall i {:trigger p[nodes[i]]} | 0 <= i < |nodes| :: p[nodes[i]].next == At(nodes, i + 1))
  }

  /** Node i of the list, or the null pointer past its end. */
  function At(nodes: seq<int>, i: nat): int {
    if i < |nodes| then nodes[i] else NULL
  }

  /** Listed nodes are exactly those with pages. */
  ghost predicate PoolOk(p: seq<Node>, head: int, nodes: seq<int>) {
    |p| == POOL && Linked(p, head, nodes) && forall n | 0 <= n < POOL :: p[n].pages > 0 <==> n in nodes
  }

  ghost function RegionsOf(p: seq<Node>, nodes: seq<int>): (rs: seq<Region>)
    requires forall i | 0 <= i < |nodes| :: 0 <= nodes[i] < |p|
    ensures |rs| == |nodes| && forall i {:trigger rs[i]} | 0 <= i < |nodes| ::
                                 rs[i] == Region(p[nodes[i]].base, p[nodes[i]].pages)
  {
    seq(|nodes|, i requires 0 <= i < |nodes| => Region(p[nodes[i]].base, p[nodes[i]].pages))
  }

  lemma SetNode(p: seq<Node>, head: int, nodes: seq<int>, k: nat, x: Node)
    requires PoolOk(p, head, nodes) && k < |nodes| && x.pages > 0 && x.next == p[nodes[k]].next
    ensures PoolOk(p[nodes[k] := x], head, nodes)
    ensures RegionsOf(p[nodes[k] := x], nodes) == RegionsOf(p, nodes)[k := Region(x.base, x.pages)]
  {
  }

  /** The pool after the pointer that leads to list position k is set to n. */
  function Redirect(p: seq<Node>, nodes: seq<int>, k: nat, n: int): seq<Node>
    requires k <= |nodes| && forall i | 0 <= i < |nodes| :: 0 <= nodes[i] < |p|
  {
    if k == 0 then p else p[nodes[k - 1] := p[nodes[k - 1]].(next := n)]
  }

  ghost predicate Distinct(nodes: seq<int>) {
    forall i, j | 0 <= i < j < |nodes| :: nodes[i] != nodes[j]
  }

  function Without(nodes: seq<int>, k: nat): (r: seq<int>)
    requires k < |nodes|
    ensures |r| == |nodes| - 1
    ensures forall i | 0 <= i < |r| :: r[i] == if i < k then nodes[i] else nodes[i + 1]
  {
    nodes[..k] + nodes[k + 1..]
  }

  function With(nodes: seq<int>, k: nat, n: int): (r: seq<int>)
    requires k <= |nodes|
    ensures |r| == |nodes| + 1
    ensures forall i | 0 <= i < |r| :: r[i] == if i < k then nodes[i] else if i == k then n else nodes[i - 1]
  {
    nodes[..k] + [n] + nodes[k..]
  }

  lemma WithoutMembers(nodes: seq<int>, k: nat)
    requires Distinct(nodes) && k < |nodes|
    ensures Distinct(Without(nodes, k)) && forall n :: n in Without(nodes, k) <==> n in nodes && n != nodes[k]
  {
    var r := Without(nodes, k);
    forall n | n in nodes && n != nodes[k] ensures n in r {
      var i :| 0 <= i < |nodes| && nodes[i] == n;
      assert r[if i < k then i else i - 1] == n;
    }
  }

  lemma WithMembers(nodes: seq<int>, k: nat, n: int)
    requires Distinct(nodes) && k <= |nodes| && n !in nodes
    ensures Distinct(With(nodes, k, n)) && forall x :: x in With(nodes, k, n) <==> x in nodes || x == n
  {
    var r := With(nodes, k, n);
    assert r[k] == n;
    forall x | x in nodes ensures x in r {
      var i :| 0 <= i < |nodes| && nodes[i] == x;
      assert r[if i < k then i else i + 1] == x;
    }
  }

  /** Unlinking node k and emptying it removes its region. */
  lemma RemoveNode(p: seq<Node>, head: int, nodes: seq<int>, k: nat, x: Node, p': seq<Node>)
    requires PoolOk(p, head, nodes) && k < |nodes| && x.pages == 0
    requires p' == Redirect(p, nodes, k, p[nodes[k]].next)[nodes[k] := x]
    ensures PoolOk(p', if k == 0 then p[nodes[k]].next else head, Without(nodes, k))
    ensures RegionsOf(p', Without(nodes, k)) == RegionsOf(p, nodes)[..k] + RegionsOf(p, nodes)[k + 1..]
  {
    hide At, Redirect;
    var r := Without(nodes, k);
    WithoutMembers(nodes, k);
    RemovedRest(p, head, nodes, k, x, p');
    forall i | 0 <= i < |r| ensures 0 <= r[i] < POOL && r[i] != nodes[k] {
      assert r[i] == if i < k then nodes[i] else nodes[i + 1];
    }
    forall i {:trigger p'[r[i]]} | 0 <= i < |r|
      ensures p'[r[i]].next == At(r, i + 1) && p'[r[i]].base == p[r[i]].base && p'[r[i]].pages == p[r[i]].pages
    {
      RemovedLink(p, head, nodes, k, x, p', i);
    }
  }

  lemma RemovedRest(p: seq<Node>, head: int, nodes: seq<int>, k: nat, x: Node, p': seq<Node>)
    requires PoolOk(p, head, nodes) && k < |nodes| && x.pages == 0
    requires p' == Redirect(p, nodes, k, p[nodes[k]].next)[nodes[k] := x]
    ensures (if k == 0 then p[nodes[k]].next else head) == At(Without(nodes, k), 0)
    ensures |p'| == POOL && forall n | 0 <= n < POOL :: p'[n].pages == if n == nodes[k] then 0 else p[n].pages
  {
  }

  lemma RemovedLink(p: seq<Node>, head: int, nodes: seq<int>, k: nat, x: Node, p': seq<Node>, i: nat)
    requires PoolOk(p, head, nodes) && k < |nodes| && i < |nodes| - 1
    requires p' == Redirect(p, nodes, k, p[nodes[k]].next)[nodes[k] := x]
    ensures var r := Without(nodes, k);
            0 <= r[i] < POOL && p'[r[i]].next == At(r, i + 1)
            && p'[r[i]].base == p[r[i]].base && p'[r[i]].pages == p[r[i]].pages
  {
    var j := if i < k then i else i + 1;
    assert Without(nodes, k)[i] == nodes[j] && nodes[j] != nodes[k];
    assert p[nodes[j]].next == At(nodes, j + 1) && p[nodes[k]].next == At(nodes, k + 1);
    if k > 0 && j != k - 1 {
      assert nodes[j] != nodes[k - 1];
    }
  }

  /** Linking a filled unused node at position k inserts its region. */
  lemma InsertNode(p: seq<Node>, head: int, nodes: seq<int>, k: nat, n: int, x: Node, p': seq<Node>)
    requires PoolOk(p, head, nodes) && k <= |nodes| && 0 <= n < POOL && p[n].pages == 0
    requires x.pages > 0 && x.next == At(nodes, k)
    requires p' == Redirect(p[n := x], nodes, k, n)
    ensures PoolOk(p', if k == 0 then n else head, With(nodes, k, n))
    ensures RegionsOf(p', With(nodes, k, n)) ==
            RegionsOf(p, nodes)[..k] + [Region(x.base, x.pages)] + RegionsOf(p, nodes)[k..]
  {
    hide At, Redirect;
    var r := With(nodes, k, n);
    assert n !in nodes;
    WithMembers(nodes, k, n);
    InsertedRest(p, head, nodes, k, n, x, p');
    forall i | 0 <= i < |r| ensures 0 <= r[i] < POOL {
      assert r[i] == if i < k then nodes[i] else if i == k then n else nodes[i - 1];
    }
    forall i {:trigger p'[r[i]]} | 0 <= i < |r|
      ensures p'[r[i]].next == At(r, i + 1)
      ensures p'[r[i]].base == (if i == k then x else p[r[i]]).base
      ensures p'[r[i]].pages == (if i == k then x else p[r[i]]).pages
    {
      InsertedLink(p, head, nodes, k, n, x, p', i);
    }
  }

  lemma InsertedRest(p: seq<Node>, head: int, nodes: seq<int>, k: nat, n: int, x: Node, p': seq<Node>)
    requires PoolOk(p, head, nodes) && k <= |nodes| && 0 <= n < POOL && p[n].pages == 0
    requires p' == Redirect(p[n := x], nodes, k, n)
    ensures (if k == 0 then n else head) == At(With(nodes, k, n), 0)
    ensures |p'| == POOL && forall m | 0 <= m < POOL :: p'[m].pages == if m == n then x.pages else p[m].pages
  {
  }

  lemma InsertedLink(p: seq<Node>, head: int, nodes: seq<int>, k: nat, n: int, x: Node, p': seq<Node>, i: nat)
    requires PoolOk(p, head, nodes) && k <= |nodes| && 0 <= n < POOL && p[n].pages == 0
    requires x.next == At(nodes, k) && i <= |nodes|
    requires p' == Redirect(p[n := x], nodes, k, n)
    ensures var r := With(nodes, k, n);
            0 <= r[i] < POOL && p'[r[i]].next == At(r, i + 1)
            && p'[r[i]].base == (if i == k then x else p[r[i]]).base
            && p'[r[i]].pages == (if i == k then x else p[r[i]]).pages
  {
    hide PoolOk;
    NewNode(p, head, nodes, k, n);
    if i != k {
      KeptLink(p, head, nodes, k, n, x, p', if i < k then i else i - 1);
    }
  }

  /** An unused node is not on the list. */
  lemma NewNode(p: seq<Node>, head: int, nodes: seq<int>, k: nat, n: int)
    requires PoolOk(p, head, nodes) && 0 <= n < POOL && p[n].pages == 0
    ensures |p| == POOL && n !in nodes && forall i | 0 <= i < |nodes| :: 0 <= nodes[i] < POOL
  {
  }

  /** The j-th node of the old list keeps its region, and its link unless the new node follows it. */
  lemma KeptLink(p: seq<Node>, head: int, nodes: seq<int>, k: nat, n: int, x: Node, p': seq<Node>, j: nat)
    requires PoolOk(p, head, nodes) && k <= |nodes| && 0 <= n < POOL && n !in nodes && j < |nodes|
    requires p' == Redirect(p[n := x], nodes, k, n)
    ensures 0 <= nodes[j] < POOL && p'[nodes[j]].next == if j + 1 == k then n else At(nodes, j + 1)
    ensures p'[nodes[j]].base == p[nodes[j]].base && p'[nodes[j]].pages == p[nodes[j]].pages
  {
    assert nodes[j] != n && p[nodes[j]].next == At(nodes, j + 1);
    if k > 0 && j != k - 1 {
      assert nodes[j] != nodes[k - 1];
    }
  }

  lemma ListFacts(p: seq<Node>, head: int, nodes: seq<int>)
    requires PoolOk(p, head, nodes)
    ensures Distinct(nodes) && forall i | 0 <= i < |nodes| :: 0 <= nodes[i] < POOL && p[nodes[i]].pages > 0
  {
  }

  /** A full pool means 512 listed nodes. */
  lemma FullPool(p: seq<Node>, head: int, nodes: seq<int>)
    requires PoolOk(p, head, nodes) && forall n | 0 <= n < POOL :: p[n].pages > 0
    ensures |nodes| >= POOL
  {
    var numbers: seq<int> := seq(POOL, i => i);
    forall i | 0 <= i < POOL ensures numbers[i] in nodes {
      assert p[i].pages > 0;
    }
    Pigeonhole(numbers, Elements(nodes));
    ElementsSize(nodes);
  }

  ghost function Elements(s: seq<int>): set<int> {
    set x | x in s
  }

  lemma {:induction false} ElementsSize(s: seq<int>)
    ensures |Elements(s)| <= |s|
  {
    if s == [] {
      assert Elements(s) == {};
    } else {
      var t := s[..|s| - 1];
      ElementsSize(t);
      assert s == t + [s[|s| - 1]];
      assert Elements(s) == Elements(t) + {s[|s| - 1]};
    }
  }

  class Allocator {
    const pool: array<Node>
    var head: int

    /** The address range managed, in pages. */
    ghost const lo: nat
    ghost const hi: nat
    /** The nodes of the free list, in order. */
    ghost var nodes: seq<int>
    /** The blocks handed out and not yet given back. */
    ghost var live: set<Region>

    /** One free region spanning the whole range. */
    constructor (lo: nat, count: nat)
      requires count > 0
      ensures Valid() && fresh(pool) && this.lo == lo && hi == lo + count
      ensures live == {} && Regions() == [Region(lo, count)]
    {
      pool := new Node[POOL](_ => Node(0, 0, NULL));
      this.lo, this.hi := lo, lo + count;
      new;
      pool[0] := Node(lo, count, NULL);
      head := 0;
      nodes, live := [0], {};
      assert Regions() == [Region(lo, count)];
      WholeRange(lo, count);
    }

    ghost function Regions(): seq<Region>
      requires PoolOk(pool[..], head, nodes)
      reads this, pool
    {
      RegionsOf(pool[..], nodes)
    }

    /**
     The pool's used nodes are exactly the list's, the list is canonical, and free regions and
     live blocks split the range between them.
     */
    ghost predicate Valid()
      reads this, pool
    {
      && pool.Length == POOL && PoolOk(pool[..], head, nodes)
      && Canonical(Regions()) && Accounts(Regions(), live, lo, hi)
    }

    lemma RegionAt(i: nat)
      requires pool.Length == POOL && PoolOk(pool[..], head, nodes) && i < |nodes|
      ensures 0 <= nodes[i] < POOL && pool[nodes[i]].pages > 0
      ensures |Regions()| == |nodes| && Regions()[i] == Region(pool[nodes[i]].base, pool[nodes[i]].pages)
    {
      ListFacts(pool[..], head, nodes);
      assert pool[..][nodes[i]] == pool[nodes[i]];
    }

    lemma ListLength()
      requires PoolOk(pool[..], head, nodes)
      ensures |Regions()| == |nodes|
    {
    }

    /** An unused pool node; None is the pool-exhausted panic. */
    method NodeAlloc() returns (r: Option<int>)
      requires pool.Length == POOL
      ensures r.None? <==> forall n | 0 <= n < POOL :: pool[n].pages > 0
      ensures r.Some? ==> 0 <= r.value < POOL && pool[r.value].pages == 0
    {
      for i := 0 to POOL
        invariant forall n | 0 <= n < i :: pool[n].pages > 0
      {
        if pool[i].pages == 0 { return Some(i); }
      }
      r := None;
    }

    /** First fit; k is the region it took from, None the address-space-exhausted panic. */
    method Alloc(count: nat) returns (r: Option<nat>, ghost k: nat)
      requires Valid()
      modifies this, pool
      ensures Valid()
      ensures r.None? <==> forall i | 0 <= i < |old(Regions())| :: old(Regions())[i].pages < count
      ensures count > 0 ==> (r.None? <==> !exists s: nat :: FreeRun(old(Regions()), s, count))
      ensures r.None? ==> Regions() == old(Regions()) && live == old(live)
      ensures r.Some? ==> k < |old(Regions())| && old(Regions())[k].pages >= count && r.value == old(Regions())[k].base
                          && forall i | 0 <= i < k :: old(Regions())[i].pages < count
      ensures r.Some? && count == 0 ==> Regions() == old(Regions()) && live == old(live)
      ensures r.Some? && count > 0 ==> Regions() == TakeFront(old(Regions()), k, count)
                                       && live == old(live) + {Region(r.value, count)}
    {
      hide Canonical, Accounts, FreeRun, TakeFront;
      ghost var rs := Regions();
      if count > 0 { FitsIffRunExists(rs, count); }
      k := 0;
      var prev, cur := NULL, head;
      while cur != NULL
        invariant k <= |nodes| && cur == At(nodes, k) && prev == (if k > 0 then nodes[k - 1] else NULL)
        invariant forall i | 0 <= i < k :: rs[i].pages < count
        decreases |nodes| - k
      {
        assert rs[k] == Region(pool[..][nodes[k]].base, pool[..][nodes[k]].pages);
        if pool[cur].pages >= count {
          r := Some(pool[cur].base);
          Carve(prev, cur, count, k);
          return;
        }
        assert pool[..][nodes[k]].next == At(nodes, k + 1);
        prev := cur;
        cur := pool[cur].next;
        k := k + 1;
      }
      r := None;
    }

    /** Takes count pages from the front of node cur, unlinking the node when it is used up. */
    method Carve(prev: int, cur: int, count: nat, ghost k: nat)
      requires Valid() && k < |nodes| && cur == nodes[k] && prev == (if k > 0 then nodes[k - 1] else NULL)
      requires count <= pool[cur].pages
      modifies this, pool
      ensures Valid()
      ensures count == 0 ==> Regions() == old(Regions()) && live == old(live)
      ensures count > 0 ==> Regions() == TakeFront(old(Regions()), k, count)
                            && live == old(live) + {Region(old(Regions())[k].base, count)}
    {
      hide Canonical, Accounts, FreeAt, PoolOk, At;
      ghost var rs := Regions();
      RegionAt(k);
      if count > 0 {
        TakeFrontIsExact(rs, k, count);
        TakeAccounts(rs, live, lo, hi, k, count);
        live := live + {Region(rs[k].base, count)};
      }
      var rest := pool[cur].pages - count;
      if rest == 0 {
        Unlink(prev, cur, k, Node(0, 0, NULL));
        assert Regions() == rs[..k] + [] + rs[k + 1..];
      } else {
        Resize(cur, k, pool[cur].base + count, rest);
        assert count == 0 ==> Regions() == rs;
        assert Regions() == rs[..k] + [Region(rs[k].base + count, rs[k].pages - count)] + rs[k + 1..];
      }
    }

    /** *prev = cur->next, and node cur becomes the unused node x. */
    method Unlink(prev: int, cur: int, ghost k: nat, x: Node)
      requires pool.Length == POOL && PoolOk(pool[..], head, nodes) && x.pages == 0
      requires k < |nodes| && cur == nodes[k] && prev == (if k > 0 then nodes[k - 1] else NULL)
      modifies this`head, this`nodes, pool
      ensures PoolOk(pool[..], head, nodes) && nodes == Without(old(nodes), k)
      ensures Regions() == old(Regions())[..k] + old(Regions())[k + 1..]
    {
      hide Linked, At;
      ghost var p, h, was := pool[..], head, nodes;
      ListFacts(p, h, was);
      assert k > 0 ==> was[k - 1] != was[k];
      if prev == NULL { head := pool[cur].next; } else { pool[prev] := pool[prev].(next := pool[cur].next); }
      pool[cur] := x;
      nodes := Without(nodes, k);
      assert pool[..] == Redirect(p, was, k, p[was[k]].next)[was[k] := x];
      RemoveNode(p, h, was, k, x, pool[..]);
    }

    /** Links the unused node n, filled with the block, in front of cur. */
    method Link(prev: int, cur: int, ghost k: nat, n: int, base: nat, count: nat)
      requires pool.Length == POOL && PoolOk(pool[..], head, nodes) && count > 0
      requires k <= |nodes| && cur == At(nodes, k) && prev == (if k > 0 then nodes[k - 1] else NULL)
      requires 0 <= n < POOL && pool[n].pages == 0
      modifies this`head, this`nodes, pool
      ensures PoolOk(pool[..], head, nodes)
      ensures Regions() == old(Regions())[..k] + [Region(base, count)] + old(Regions())[k..]
    {
      hide Linked, At;
      ghost var p, h, was := pool[..], head, nodes;
      ListFacts(p, h, was);
      assert k > 0 ==> was[k - 1] != n;
      pool[n] := Node(base, count, cur);
      if prev == NULL { head := n; } else { pool[prev] := pool[prev].(next := n); }
      nodes := With(nodes, k, n);
      assert pool[..] == Redirect(p[n := Node(base, count, cur)], was, k, n);
      InsertNode(p, h, was, k, n, Node(base, count, cur), pool[..]);
    }

    /**
     Gives a live block back, joining it to the free neighbours it touches. False is the
     pool-exhausted panic, which cannot happen while at most 512 blocks are live.
     */
    method Free(base: nat, count: nat) returns (ok: bool, ghost k: nat)
      requires Valid() && Region(base, count) in live
      modifies this, pool
      ensures ok ==> Valid() && live == old(live) - {Region(base, count)}
      ensures ok ==> Position(old(Regions()), base, k) && Regions() == GiveBack(old(Regions()), base, count, k)
      ensures |old(live)| <= POOL ==> ok
    {
      hide Canonical, Accounts, GiveBack, PoolOk;
      ghost var rs, b := Regions(), Region(base, count);
      var prev, cur;
      prev, cur, k := Locate(base);
      SortedPosition(rs, base, k);
      FreeStep(rs, live, lo, hi, b, k);
      ok := Join(prev, cur, base, count, k);
      if ok { live := live - {b}; }
    }

    /** The first listed node that does not start below base, and the node before it. */
    method Locate(base: nat) returns (prev: int, cur: int, ghost k: nat)
      requires pool.Length == POOL && PoolOk(pool[..], head, nodes)
      ensures k <= |nodes| && cur == At(nodes, k) && prev == (if k > 0 then nodes[k - 1] else NULL)
      ensures |Regions()| == |nodes| && forall i | 0 <= i < k :: Regions()[i].base < base
      ensures k < |nodes| ==> Regions()[k].base >= base
    {
      ghost var rs := Regions();
      k := 0;
      prev, cur := NULL, head;
      while cur != NULL && pool[cur].base < base
        invariant k <= |nodes| && cur == At(nodes, k) && prev == (if k > 0 then nodes[k - 1] else NULL)
        invariant forall i | 0 <= i < k :: rs[i].base < base
        decreases |nodes| - k
      {
        assert rs[k] == Region(pool[..][nodes[k]].base, pool[..][nodes[k]].pages);
        assert pool[..][nodes[k]].next == At(nodes, k + 1);
        prev := cur;
        cur := pool[cur].next;
        k := k + 1;
      }
      assert k < |nodes| ==> rs[k] == Region(pool[..][nodes[k]].base, pool[..][nodes[k]].pages);
    }

    /** Rewrites the base and length of listed node n. */
    method Resize(n: int, ghost k: nat, base: nat, count: nat)
      requires pool.Length == POOL && PoolOk(pool[..], head, nodes) && k < |nodes| && n == nodes[k] && count > 0
      modifies pool
      ensures PoolOk(pool[..], head, nodes) && Regions() == old(Regions())[k := Region(base, count)]
    {
      hide Linked;
      ghost var p := pool[..];
      ListFacts(p, head, nodes);
      pool[n] := Node(base, count, pool[n].next);
      SetNode(p, head, nodes, k, pool[n]);
      assert pool[..] == p[nodes[k] := pool[n]];
    }

    /** The block touches the node before it: grow that node, over the next one too if they now touch. */
    method JoinLeft(prev: int, cur: int, base: nat, count: nat, ghost k: nat)
      requires pool.Length == POOL && PoolOk(pool[..], head, nodes) && count > 0
      requires 0 < k <= |nodes| && cur == At(nodes, k) && prev == nodes[k - 1]
      requires |Regions()| == |nodes| && Regions()[k - 1].End() == base
      modifies this`head, this`nodes, pool
      ensures PoolOk(pool[..], head, nodes) && Regions() == GiveBack(old(Regions()), base, count, k)
    {
      hide PoolOk;
      ghost var rs := Regions();
      RegionAt(k - 1);
      if k < |nodes| { RegionAt(k); }
      var start, grown := pool[prev].base, pool[prev].pages + count;
      if cur != NULL && start + grown == pool[cur].base {
        grown := grown + pool[cur].pages;
        Unlink(prev, cur, k, pool[cur].(pages := 0));
        Resize(prev, k - 1, start, grown);
        assert Regions() == rs[..k - 1] + [Region(rs[k - 1].base, grown)] + rs[k + 1..];
      } else {
        Resize(prev, k - 1, start, grown);
        assert Regions() == rs[..k - 1] + [Region(rs[k - 1].base, grown)] + rs[k..];
      }
    }

    /** The list surgery of kvma_free at position k. */
    method Join(prev: int, cur: int, base: nat, count: nat, ghost k: nat) returns (ok: bool)
      requires pool.Length == POOL && PoolOk(pool[..], head, nodes) && count > 0
      requires k <= |nodes| && cur == At(nodes, k) && prev == (if k > 0 then nodes[k - 1] else NULL)
      modifies this`head, this`nodes, pool
      ensures ok ==> PoolOk(pool[..], head, nodes) && Regions() == GiveBack(old(Regions()), base, count, k)
      ensures !ok ==> |GiveBack(old(Regions()), base, count, k)| > POOL
    {
      hide PoolOk;
      ghost var rs := Regions();
      if k > 0 { RegionAt(k - 1); }
      if k < |nodes| { RegionAt(k); }
      if prev != NULL && pool[prev].base + pool[prev].pages == base {
        JoinLeft(prev, cur, base, count, k);
        return true;
      }
      if cur != NULL && base + count == pool[cur].base {
        Resize(cur, k, base, pool[cur].pages + count);
        assert Regions() == rs[..k] + [Region(base, count + rs[k].pages)] + rs[k + 1..];
        return true;
      }
      var n := NodeAlloc();
      if n.None? {
        FullPool(pool[..], head, nodes);
        ListLength();
        return false;
      }
      Link(prev, cur, k, n.value, base, count);
      ok := true;
    }
  }

  /** Giving back a block just allocated restores the very same list of regions. */
  method AllocThenFree(a: Allocator, count: nat) returns (ok: bool)
    requires a.Valid() && count > 0 && |a.live| < POOL
    modifies a, a.pool
    ensures a.Valid() && a.Regions() == old(a.Regions()) && a.live == old(a.live)
    ensures ok <==> exists s: nat :: FreeRun(old(a.Regions()), s, count)
  {
    hide Canonical, Accounts, PoolOk, FreeRun, TakeFront, GiveBack;
    ghost var rs, live := a.Regions(), a.live;
    var r, k := a.Alloc(count);
    if r.None? { return false; }
    TakenIsNew(rs, live, a.lo, a.hi, k, count);
    var done, j := a.Free(r.value, count);
    TakeThenGiveBack(rs, k, count, j);
    assert live + {Region(r.value, count)} - {Region(r.value, count)} == live;
    ok := true;
  }

  lemma TakenIsNew(rs: seq<Region>, live: set<Region>, lo: nat, hi: nat, i: nat, count: nat)
    requires Canonical(rs) && Accounts(rs, live, lo, hi) && i < |rs| && 0 < count <= rs[i].pages
    ensures Region(rs[i].base, count) !in live
  {
    TakeAccounts(rs, live, lo, hi, i, count);
  }

  lemma WholeRange(lo: nat, count: nat)
    requires count > 0
    ensures Canonical([Region(lo, count)]) && Accounts([Region(lo, count)], {}, lo, lo + count)
  {
    forall x: nat ensures FreeAt([Region(lo, count)], x) <==> lo <= x < lo + count {
      SingleFree(Region(lo, count), x);
    }
  }
}
