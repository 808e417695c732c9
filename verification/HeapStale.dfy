/**
 force_free on every table, regions that touch among them. When an earlier slot is taken in, the slots move down
 under the loop's pointer; the loop then goes on with another region, and drops what its pointer reaches.
 */
module HeapStale {
  import opened HeapGrowth
  import opened HeapTable

  ghost predicate Sound(t: seq<Slot>, count: nat) { Bounded(t, count) && Disjoint(t) && Aligned(t) }

  /** The range shares no byte with the free ones. */
  ghost predicate Separate(t: seq<Slot>, n: Slot) { forall x: nat | n.Has(x) :: !FreeByte(t, x) }

  // ----- One turn of the loop -----

  lemma SoundCount(t: seq<Slot>, count: nat)
    requires Sound(t, count)
    ensures count <= |t| && Bounded(t, count)
  {
  }

  /** The table once slot p has taken in slot j, which is dropped. */
  function TakenIn(t: seq<Slot>, count: nat, p: nat, j: nat): (u: seq<Slot>)
    requires j < count <= |t| && p < |t| && !Apart(t[j], t[p])
    ensures |u| == |t|
  {
    RemovedIn(t[p := Hull(t[p], t[j])], count, j)
  }

  lemma EmptyApart(t: seq<Slot>, p: nat, j: nat)
    requires Aligned(t) && p < |t| && j < |t| && !Apart(t[p], t[j])
    ensures t[p].Empty() <==> t[j].Empty()
  {
  }

  /** A region over two touching ones is apart from all that both are apart from. */
  lemma HullDisjoint(a: Slot, b: Slot, c: Slot)
    requires !Apart(a, b) && !c.Empty()
    requires (a.End() <= c.base || c.End() <= a.base) && (b.End() <= c.base || c.End() <= b.base)
    ensures Hull(a, b).End() <= c.base || c.End() <= Hull(a, b).base
  {
  }

  lemma HullMisses(t: seq<Slot>, p: nat, j: nat, c: nat)
    requires Disjoint(t) && p < |t| && j < |t| && !Apart(t[p], t[j]) && !t[p].Empty() && !t[j].Empty()
    requires c < |t| && c != p && c != j && !t[c].Empty()
    ensures var h := Hull(t[p], t[j]); h.End() <= t[c].base || t[c].End() <= h.base
  {
    HullDisjoint(t[p], t[j], t[c]);
  }

  /** The table with region j joined to region p and its slot emptied. */
  function JoinedAt(t: seq<Slot>, p: nat, j: nat): (m: seq<Slot>)
    requires p < |t| && j < |t| && !Apart(t[p], t[j])
    ensures |m| == |t|
  {
    t[p := Hull(t[p], t[j])][j := EMPTY]
  }

  lemma HullPutFull(t: seq<Slot>, p: nat, j: nat)
    requires Disjoint(t) && Aligned(t) && p < |t| && j < |t| && p != j && !Apart(t[p], t[j])
    requires !t[p].Empty() && !t[j].Empty()
    ensures Disjoint(JoinedAt(t, p, j)) && Aligned(JoinedAt(t, p, j))
  {
    var h := Hull(t[p], t[j]);
    AlignedSlot(t, p);
    AlignedSlot(t, j);
    hide Disjoint, Aligned, Hull, IsAligned;
    AlignedHull(t[p], t[j]);
    HullLonger(t[p], t[j]);
    forall c | 0 <= c < |t| && c != p && c != j && !t[c].Empty() ensures h.End() <= t[c].base || t[c].End() <= h.base {
      HullMisses(t, p, j, c);
    }
    PutApart(t, p, j, h);
  }

  lemma HullPutEmpty(t: seq<Slot>, p: nat, j: nat)
    requires Aligned(t) && p < |t| && j < |t| && t[p].Empty() && t[j].Empty()
    ensures !Apart(t[p], t[j]) && JoinedAt(t, p, j) == t
  {
    EmptyHull();
    assert t[p] == EMPTY && t[j] == EMPTY;
  }

  lemma HullPut(t: seq<Slot>, p: nat, j: nat)
    requires Disjoint(t) && Aligned(t) && p < |t| && j < |t| && p != j && !Apart(t[p], t[j])
    ensures Disjoint(JoinedAt(t, p, j)) && Aligned(JoinedAt(t, p, j))
  {
    hide Disjoint, Aligned, Hull, JoinedAt;
    EmptyApart(t, p, j);
    if t[p].Empty() { HullPutEmpty(t, p, j); } else { HullPutFull(t, p, j); }
  }

  lemma HullLonger(a: Slot, b: Slot)
    requires !Apart(a, b)
    ensures Hull(a, b).length >= a.length
  {
  }

  lemma EmptyHull()
    ensures !Apart(EMPTY, EMPTY) && Hull(EMPTY, EMPTY) == EMPTY
  {
  }

  lemma PutApart(t: seq<Slot>, p: nat, j: nat, h: Slot)
    requires Disjoint(t) && Aligned(t) && p < |t| && j < |t| && p != j && IsAligned(h) && !h.Empty()
    requires forall c | 0 <= c < |t| && c != p && c != j && !t[c].Empty() ::
               h.End() <= t[c].base || t[c].End() <= h.base
    ensures var m := t[p := h][j := EMPTY]; Disjoint(m) && Aligned(m)
  {
  }

  lemma TakenInIs(t: seq<Slot>, count: nat, p: nat, j: nat)
    requires Sound(t, count) && j < count && p < |t| && !Apart(t[j], t[p])
    ensures TakenIn(t, count, p, j) == Dropped(t[p := Hull(t[p], t[j])], j)
    ensures TakenIn(t, count, p, j) == Dropped(JoinedAt(t, p, j), j)
    ensures Bounded(TakenIn(t, count, p, j), count - 1)
    ensures p == j ==> Hull(t[p], t[j]) == t[p]
  {
    SoundCount(t, count);
    HullBounded(t, count, p, j);
    hide Sound, Hull, Bounded, RemovedIn, Dropped;
    HullSelf(t[p]);
    DropsAlike(t[p := Hull(t[p], t[j])], count, j);
  }

  lemma HullSelf(a: Slot)
    ensures !Apart(a, a) && Hull(a, a) == a
  {
  }

  lemma HullBounded(t: seq<Slot>, count: nat, p: nat, j: nat)
    requires Sound(t, count) && p < |t| && j < |t| && !Apart(t[p], t[j])
    ensures Bounded(t[p := Hull(t[p], t[j])], count)
  {
    hide Hull, Disjoint;
    if p >= count {
      EmptyApart(t, p, j);
      assert t[p] == EMPTY && t[j] == EMPTY;
      EmptyHull();
    }
  }

  lemma DropsAlike(m: seq<Slot>, count: nat, j: nat)
    requires Bounded(m, count) && j < count
    ensures RemovedIn(m, count, j) == Dropped(m, j) == Dropped(m[j := EMPTY], j) && Bounded(Dropped(m, j), count - 1)
  {
  }

  lemma TakenInSound(t: seq<Slot>, count: nat, p: nat, j: nat)
    requires Sound(t, count) && j < count && p < |t| && !Apart(t[j], t[p])
    ensures Sound(TakenIn(t, count, p, j), count - 1)
  {
    SoundCount(t, count);
    hide Hull, TakenIn, Dropped, JoinedAt, Disjoint, Aligned, Bounded;
    TakenInIs(t, count, p, j);
    if p == j { EmptiedSound(t, j); } else { HullPut(t, p, j); }
    DropDisjoint(JoinedAt(t, p, j), j);
  }

  lemma EmptiedApart(t: seq<Slot>, j: nat)
    requires j < |t| && Disjoint(t) && Aligned(t)
    ensures Disjoint(t[j := EMPTY]) && Aligned(t[j := EMPTY])
  {
  }

  lemma EmptiedSound(t: seq<Slot>, j: nat)
    requires j < |t| && Disjoint(t) && Aligned(t)
    ensures !Apart(t[j], t[j]) && Disjoint(JoinedAt(t, j, j)) && Aligned(JoinedAt(t, j, j))
  {
    hide Hull, Disjoint, Aligned;
    HullSelf(t[j]);
    EmptiedApart(t, j);
    assert JoinedAt(t, j, j) == t[j := EMPTY];
  }

  lemma TakenInFree(t: seq<Slot>, count: nat, p: nat, j: nat)
    requires Sound(t, count) && j < count && p < |t| && !Apart(t[j], t[p])
    ensures p != j ==> SameFree(t, TakenIn(t, count, p, j))
    ensures Within(TakenIn(t, count, p, j), t)
  {
    SoundCount(t, count);
    hide Sound, Hull, TakenIn, Dropped, FreeByte, JoinedAt, RemovedIn, Bounded;
    TakenInIs(t, count, p, j);
    if p != j {
      AbsorbFree(t, p, j, TakenIn(t, count, p, j));
    } else {
      assert t[p := t[p]] == t;
      forall x: nat | FreeByte(Dropped(t, j), x) ensures FreeByte(t, x) { DroppedLess(t, j, x); }
    }
  }

  lemma DroppedLess(t: seq<Slot>, j: nat, x: nat)
    requires j < |t| && FreeByte(Dropped(t, j), x)
    ensures FreeByte(t, x)
  {
    DropFree(t, j, x);
  }

  // ----- The whole loop is safe -----

  /** Every free byte of u is one of t. */
  ghost predicate Within(u: seq<Slot>, t: seq<Slot>) { forall x: nat | FreeByte(u, x) :: FreeByte(t, x) }

  lemma WithinTransitive(u: seq<Slot>, v: seq<Slot>, t: seq<Slot>)
    requires Within(u, v) && Within(v, t)
    ensures Within(u, t)
  {
    hide FreeByte;
  }

  lemma WithinSelf(t: seq<Slot>)
    ensures Within(t, t)
  {
  }

  lemma AbsorbingTurn(t: seq<Slot>, count: nat, p: nat, i: int, j: nat)
    requires p < |t| && count <= |t|
    ensures j >= count ==> Absorbing(t, count, p, i, j) == (t, count)
    ensures j < count && (j == i || Apart(t[j], t[p])) ==>
              Absorbing(t, count, p, i, j) == Absorbing(t, count, p, i, j + 1)
    ensures j < count && j != i && !Apart(t[j], t[p]) ==>
              Absorbing(t, count, p, i, j) ==
              Absorbing(TakenIn(t, count, p, j), count - 1, p, if j < i then i - 1 else i, j)
  {
    AbsorbingOne(t, count, p, i, j);
  }

  /** Whatever the table, the loop leaves a sound one with no byte that was not free. */
  lemma {:induction false} AbsorbingSafe(t: seq<Slot>, count: nat, p: nat, i: int, j: nat)
    requires Sound(t, count) && p < |t|
    ensures count <= |t| && var r := Absorbing(t, count, p, i, j); Sound(r.0, r.1) && Within(r.0, t)
    decreases count + count - j
  {
    hide Sound, Within, TakenIn, Absorbing;
    SoundCount(t, count);
    AbsorbingTurn(t, count, p, i, j);
    if j >= count {
      WithinSelf(t);
    } else if j == i || Apart(t[j], t[p]) {
      AbsorbingSafe(t, count, p, i, j + 1);
    } else {
      var u, i' := TakenIn(t, count, p, j), if j < i then i - 1 else i;
      TakenInSound(t, count, p, j);
      TakenInFree(t, count, p, j);
      AbsorbingSafe(u, count - 1, p, i', j);
      WithinTransitive(Absorbing(u, count - 1, p, i', j).0, u, t);
    }
  }

  // ----- What the loop loses -----

  /** Table, count and skipped slot when the loop reaches its own pointer p, or the end. */
  function Reaching(t: seq<Slot>, count: nat, p: nat, i: int, j: nat): (r: (seq<Slot>, nat, int))
    requires p < |t| && count <= |t|
    ensures |r.0| == |t| && r.1 <= count
    decreases count, p - j
  {
    if j >= p || j >= count then (t, count, i)
    else if j == i || Apart(t[j], t[p]) then Reaching(t, count, p, i, j + 1)
    else Reaching(TakenIn(t, count, p, j), count - 1, p, if j < i then i - 1 else i, j)
  }

  /**
   The state of the loop before its pointer p, begun on table m: with a slots taken in, the pointer is a slots
   behind, the skipped slot holds the range, and no byte is lost.
   */
  ghost predicate Moving(m: seq<Slot>, n: Slot, p: nat, a: nat, u: seq<Slot>, count: nat, i: int) {
    && p < |m| == |u| && Sound(u, count) && SameFree(m, u) && 0 <= i <= p
    && u[i].base <= n.base && n.End() <= u[i].End()
    && (a == 0 ==> u == m && i == p)
    && (a > 0 ==> i < p && forall k | p <= k < |u| :: u[k] == if k + a < |m| then m[k + a] else EMPTY)
  }

  lemma HullOver(a: Slot, b: Slot)
    requires !Apart(a, b)
    ensures Hull(a, b).base <= a.base && a.End() <= Hull(a, b).End()
  {
  }

  lemma SlotMoves(w: seq<Slot>, i: nat, j: nat)
    requires i < |w| && j < |w| && i != j
    ensures var i' := if j < i then i - 1 else i; |Dropped(w, j)| == |w| && Dropped(w, j)[i'] == w[i]
  {
  }

  lemma TailMoves(m: seq<Slot>, w: seq<Slot>, p: nat, a: nat, j: nat)
    requires j < p < |w| == |m| && forall k | p < k < |w| :: w[k] == if k + a < |m| then m[k + a] else EMPTY
    ensures |Dropped(w, j)| == |w|
    ensures forall k | p <= k < |w| :: Dropped(w, j)[k] == if k + a + 1 < |m| then m[k + a + 1] else EMPTY
  {
    var v := Dropped(w, j);
    forall k | p <= k < |w| ensures v[k] == if k + a + 1 < |m| then m[k + a + 1] else EMPTY {
      if k + 1 < |w| { assert v[k] == w[k + 1]; }
    }
  }

  lemma MovingSlots(m: seq<Slot>, n: Slot, p: nat, a: nat, u: seq<Slot>, count: nat, i: int, j: nat)
    requires Moving(m, n, p, a, u, count, i) && j < p && j < count && j != i && !Apart(u[j], u[p])
    ensures var v, i' := TakenIn(u, count, p, j), if j < i then i - 1 else i;
            && |v| == |u| && 0 <= i' < p && v[i'].base <= n.base && n.End() <= v[i'].End()
            && forall k | p <= k < |v| :: v[k] == if k + a + 1 < |m| then m[k + a + 1] else EMPTY
  {
    hide Sound, SameFree, Hull, TakenIn, RemovedIn, Bounded, JoinedAt, Dropped;
    TakenInIs(u, count, p, j);
    HullOver(u[p], u[j]);
    var w := u[p := Hull(u[p], u[j])];
    SlotMoves(w, i, j);
    TailMoves(m, w, p, a, j);
  }

  lemma MovingMore(m: seq<Slot>, n: Slot, p: nat, a: nat, u: seq<Slot>, count: nat, i: int, j: nat)
    requires Moving(m, n, p, a, u, count, i) && j < p && j < count && j != i && !Apart(u[j], u[p])
    ensures Moving(m, n, p, a + 1, TakenIn(u, count, p, j), count - 1, if j < i then i - 1 else i)
  {
    MovingSlots(m, n, p, a, u, count, i, j);
    hide Sound, SameFree, TakenIn;
    TakenInSound(u, count, p, j);
    TakenInFree(u, count, p, j);
    SameFreeTransitive(m, u, TakenIn(u, count, p, j));
  }

  lemma {:induction false} ReachingMoves(m: seq<Slot>, n: Slot, p: nat, a: nat, u: seq<Slot>, count: nat, i: int,
                                         j: nat)
    requires Moving(m, n, p, a, u, count, i) && count <= |u|
    ensures var r := Reaching(u, count, p, i, j); Moving(m, n, p, a + (count - r.1), r.0, r.1, r.2)
    ensures var r := Reaching(u, count, p, i, j);
            j <= p ==> Absorbing(u, count, p, i, j) == if r.1 <= p then (r.0, r.1) else Absorbing(r.0, r.1, p, r.2, p)
    decreases count, p - j
  {
    hide Moving, TakenIn, Absorbing;
    assert p < |u| by { MovingLength(m, n, p, a, u, count, i); }
    AbsorbingTurn(u, count, p, i, j);
    if j < p && j < count {
      if j == i || Apart(u[j], u[p]) {
        ReachingMoves(m, n, p, a, u, count, i, j + 1);
      } else {
        MovingMore(m, n, p, a, u, count, i, j);
        ReachingMoves(m, n, p, a + 1, TakenIn(u, count, p, j), count - 1, if j < i then i - 1 else i, j);
      }
    }
  }

  lemma MovingLength(m: seq<Slot>, n: Slot, p: nat, a: nat, u: seq<Slot>, count: nat, i: int)
    requires Moving(m, n, p, a, u, count, i)
    ensures p < |u| && count <= |u|
  {
  }

  /** The pointer reaches the region it now points at, and the loop drops it and all later ones. */
  lemma {:induction false} DropsRest(u: seq<Slot>, count: nat, p: nat, i: int)
    requires p <= count <= |u| && p < |u| && i < p && forall k | count <= k < |u| :: u[k] == EMPTY
    ensures var r := Absorbing(u, count, p, i, p).0;
            |r| == |u| && (forall k | 0 <= k < p :: r[k] == u[k]) && (forall k | p <= k < |u| :: r[k] == EMPTY)
    decreases count
  {
    if p < count {
      var v := RemovedIn(u[p := Hull(u[p], u[p])], count, p);
      DropsRest(v, count - 1, p, i);
    }
  }

  /** With no earlier slot taken in, the pointer stays with its region and the loop only takes in later slots. */
  lemma {:induction false} PointerStays(t: seq<Slot>, count: nat, p: nat, j: nat)
    requires Sound(t, count) && p < count && p <= j
    ensures count <= |t| && SameFree(t, Absorbing(t, count, p, p, j).0)
    decreases count + count - j
  {
    hide Sound, SameFree, TakenIn, Absorbing;
    SoundCount(t, count);
    AbsorbingTurn(t, count, p, p, j);
    if j >= count {
      SameFreeReflexive(t);
    } else if j == p || Apart(t[j], t[p]) {
      PointerStays(t, count, p, j + 1);
    } else {
      var u := TakenIn(t, count, p, j);
      TakenInSound(t, count, p, j);
      TakenInFree(t, count, p, j);
      PointerStays(u, count - 1, p, j);
      SameFreeTransitive(t, u, Absorbing(u, count - 1, p, p, j).0);
    }
  }

  /** The bytes from slot p on are lost when these slots are emptied. */
  lemma EmptiedFrom(u: seq<Slot>, r: seq<Slot>, p: nat)
    requires Disjoint(u) && p < |u| == |r|
    requires (forall k | 0 <= k < p :: r[k] == u[k]) && (forall k | p <= k < |u| :: r[k] == EMPTY)
    ensures SameFree(u, r) <==> forall k | p <= k < |u| :: u[k].Empty()
  {
    if forall k | p <= k < |u| :: u[k].Empty() {
      forall x: nat ensures FreeByte(r, x) <==> FreeByte(u, x) {
        if k :| 0 <= k < |u| && u[k].Has(x) { assert r[k].Has(x); }
        if k :| 0 <= k < |r| && r[k].Has(x) { assert u[k].Has(x); }
      }
    } else {
      var k :| p <= k < |u| && !u[k].Empty();
      assert u[k].Has(u[k].base) && FreeByte(u, u[k].base);
      forall l | 0 <= l < |r| ensures !r[l].Has(u[k].base) {}
      assert !FreeByte(r, u[k].base);
    }
  }

  lemma PrefixKept(u: seq<Slot>, r: seq<Slot>, p: nat, i: nat, n: Slot, x: nat)
    requires i < p < |u| == |r| && (forall k | 0 <= k < p :: r[k] == u[k])
    requires u[i].base <= n.base && n.End() <= u[i].End() && n.Has(x)
    ensures FreeByte(r, x)
  {
    assert r[i].Has(x);
  }

  // ----- The range added to any table -----

  lemma Misses(t: seq<Slot>, k: nat, n: Slot)
    requires k < |t| && !t[k].Empty() && !n.Empty() && Separate(t, n)
    ensures t[k].End() <= n.base || n.End() <= t[k].base
  {
    assert t[k].Has(t[k].base) && FreeByte(t, t[k].base) && !n.Has(t[k].base);
    assert t[k].Has(n.base) ==> FreeByte(t, n.base);
    assert n.Has(n.base);
  }

  /** The first region the range meets is widened over it. */
  lemma WidenedSound(t: seq<Slot>, count: nat, n: Slot, i: nat)
    requires Sound(t, count) && i < count && IsAligned(n) && !n.Empty() && Separate(t, n) && !Apart(n, t[i])
    ensures count <= |t| && Sound(t[i := Hull(t[i], n)], count) && Gained(t, t[i := Hull(t[i], n)], n)
  {
    SoundCount(t, count);
    var h := Hull(t[i], n);
    assert !t[i].Empty();
    AlignedSlot(t, i);
    AlignedHull(t[i], n);
    AlignedPut(t, i, h);
    HullLonger(t[i], n);
    HullBytes(t, i, n);
    forall c | 0 <= c < |t| && c != i && !t[c].Empty() ensures h.End() <= t[c].base || t[c].End() <= h.base {
      Misses(t, c, n);
      HullDisjoint(t[i], n, t[c]);
    }
    hide Hull, FreeByte, Aligned;
  }

  lemma HullBytes(t: seq<Slot>, i: nat, n: Slot)
    requires i < |t| && !Apart(t[i], n)
    ensures Gained(t, t[i := Hull(t[i], n)], n)
  {
    var u := t[i := Hull(t[i], n)];
    forall x: nat ensures FreeByte(u, x) <==> FreeByte(t, x) || n.Has(x) {
      if k :| 0 <= k < |t| && t[k].Has(x) { assert u[k].Has(x); }
      if n.Has(x) { assert u[i].Has(x); }
      if k :| 0 <= k < |u| && u[k].Has(x) { assert t[k].Has(x) || n.Has(x); }
    }
  }

  /** How many earlier slots are taken in before the loop reaches its pointer, for the range n. */
  function Earlier(t: seq<Slot>, count: nat, n: Slot): nat
    requires count <= |t|
  {
    var i := FirstMeeting(t, count, n, 0);
    if i < count then count - Reaching(t[i := Hull(t[i], n)], count, i, i, 0).1 else 0
  }

  /** Earlier slots are taken in, and there are regions further on than these slots reach. */
  ghost predicate Loses(t: seq<Slot>, count: nat, n: Slot)
    requires count <= |t|
  {
    var i, a := FirstMeeting(t, count, n, 0), Earlier(t, count, n);
    i < count && a > 0 && exists k :: i + a <= k < count && !t[k].Empty()
  }

  lemma {:induction false} ReachingTakes(m: seq<Slot>, count: nat, p: nat, j: nat)
    requires j <= p < count <= |m|
    ensures Reaching(m, count, p, p, j).1 < count <==> exists k :: j <= k < p && !Apart(m[k], m[p])
    decreases p - j
  {
    hide TakenIn, Apart;
    if j < p && Apart(m[j], m[p]) { ReachingTakes(m, count, p, j + 1); }
  }

  /** Earlier slots are taken in exactly if one is not apart from the first region met, widened over the range. */
  lemma EarlierIff(t: seq<Slot>, count: nat, n: Slot)
    requires count <= |t|
    ensures var i := FirstMeeting(t, count, n, 0);
            Earlier(t, count, n) > 0 <==>
            i < count && !Apart(t[i], n) && exists k :: 0 <= k < i && !Apart(t[k], Hull(t[i], n))
  {
    hide Reaching;
    var i := FirstMeeting(t, count, n, 0);
    if i < count {
      var m := t[i := Hull(t[i], n)];
      ReachingTakes(m, count, i, 0);
      hide Apart, Hull;
      assert forall k | 0 <= k < i :: m[k] == t[k];
    }
  }

  /** The loop from the widened table m on: it keeps all bytes exactly if it takes in none, or none lies further on. */
  lemma LoopKeepsIff(m: seq<Slot>, count: nat, p: nat, n: Slot)
    requires Sound(m, count) && p < count && m[p].base <= n.base && n.End() <= m[p].End()
    ensures count <= |m| && |Absorbing(m, count, p, p, 0).0| == |m|
    ensures forall x: nat | n.Has(x) :: FreeByte(Absorbing(m, count, p, p, 0).0, x)
    ensures var a := count - Reaching(m, count, p, p, 0).1;
            SameFree(m, Absorbing(m, count, p, p, 0).0) <==> a == 0 || forall k | p + a <= k < |m| :: m[k].Empty()
  {
    hide Absorbing, Reaching, Moving, Sound, SameFree, Bounded, FreeByte;
    SoundCount(m, count);
    MovingStarts(m, count, p, n);
    var w := Absorbing(m, count, p, p, 0).0;
    ReachingMoves(m, n, p, 0, m, count, p, 0);
    var r := Reaching(m, count, p, p, 0);
    if r.1 == count {
      assert r.0 == m && r.2 == p by { NoneMoved(m, n, p, r.0, r.1, r.2); }
      PointerStays(m, count, p, p);
      forall x: nat | n.Has(x) ensures FreeByte(w, x) { InSlot(m, w, p, x); }
    } else {
      LoopMoved(m, count, p, n, count - r.1, r.0, r.1, r.2, w);
    }
  }

  lemma MovingStarts(m: seq<Slot>, count: nat, p: nat, n: Slot)
    requires Sound(m, count) && p < count && m[p].base <= n.base && n.End() <= m[p].End()
    ensures Moving(m, n, p, 0, m, count, p)
  {
    SameFreeReflexive(m);
  }

  lemma NoneMoved(m: seq<Slot>, n: Slot, p: nat, u: seq<Slot>, count: nat, i: int)
    requires Moving(m, n, p, 0, u, count, i)
    ensures u == m && i == p
  {
  }

  lemma InSlot(m: seq<Slot>, w: seq<Slot>, p: nat, x: nat)
    requires p < |m| && m[p].Has(x) && SameFree(m, w)
    ensures FreeByte(w, x)
  {
    assert FreeByte(m, x);
  }

  lemma LoopMoved(m: seq<Slot>, count: nat, p: nat, n: Slot, a: nat, u: seq<Slot>, left: nat, i: int, w: seq<Slot>)
    requires Moving(m, n, p, a, u, left, i) && a > 0 && left <= |u| && left + a == count <= |m| && Bounded(m, count)
    requires w == if left <= p then u else Absorbing(u, left, p, i, p).0
    ensures |w| == |m| && forall x: nat | n.Has(x) :: FreeByte(w, x)
    ensures SameFree(m, w) <==> forall k | p + a <= k < |m| :: m[k].Empty()
  {
    assert forall k | left <= k < |u| :: u[k] == EMPTY;
    if left > p { DropsRest(u, left, p, i); }
    hide Absorbing;
    assert (forall k | 0 <= k < p :: w[k] == u[k]) && (forall k | p <= k < |u| :: w[k] == EMPTY);
    forall x: nat | n.Has(x) ensures FreeByte(w, x) { PrefixKept(u, w, p, i, n, x); }
    EmptiedFrom(u, w, p);
    SameAs(m, u, w);
    LaterSlots(m, u, p, a);
  }

  lemma SameAs(m: seq<Slot>, u: seq<Slot>, w: seq<Slot>)
    requires SameFree(m, u)
    ensures SameFree(m, w) <==> SameFree(u, w)
  {
    hide FreeByte;
  }

  lemma LaterSlots(m: seq<Slot>, u: seq<Slot>, p: nat, a: nat)
    requires p < |m| == |u| && forall k | p <= k < |u| :: u[k] == if k + a < |m| then m[k + a] else EMPTY
    ensures (forall k | p <= k < |u| :: u[k].Empty()) <==> forall k | p + a <= k < |m| :: m[k].Empty()
  {
    if forall k | p <= k < |u| :: u[k].Empty() {
      forall k | p + a <= k < |m| ensures m[k].Empty() { assert u[k - a].Empty(); }
    }
  }

  /**
   force_free with a new range, on every sound table: the table stays sound, no byte becomes free that was neither
   free nor in the range, and the range becomes free if the table takes it. Nothing is lost exactly if no earlier
   slots are taken in, or there is no region further on than they reach.
   */
  lemma ForceFreeKeepsIff(t: seq<Slot>, count: nat, n: Slot)
    requires Sound(t, count) && IsAligned(n) && !n.Empty() && Separate(t, n)
    ensures count <= |t| && Sound(ForceFreed(t, count, n).0, ForceFreed(t, count, n).1)
    ensures forall x: nat | FreeByte(ForceFreed(t, count, n).0, x) :: FreeByte(t, x) || n.Has(x)
    ensures Accepts(t, count, n) ==> forall x: nat | n.Has(x) :: FreeByte(ForceFreed(t, count, n).0, x)
    ensures Accepts(t, count, n) ==> (Gained(t, ForceFreed(t, count, n).0, n) <==> !Loses(t, count, n))
    ensures !Accepts(t, count, n) ==> ForceFreed(t, count, n) == (t, count)
  {
    SoundCount(t, count);
    var i := FirstMeeting(t, count, n, 0);
    if i < count {
      Meets(t, count, n, i);
    } else {
      Appends(t, count, n);
    }
  }

  lemma Meets(t: seq<Slot>, count: nat, n: Slot, i: nat)
    requires Sound(t, count) && IsAligned(n) && !n.Empty() && Separate(t, n) && count <= |t|
    requires i == FirstMeeting(t, count, n, 0) < count
    ensures Accepts(t, count, n) && Sound(ForceFreed(t, count, n).0, ForceFreed(t, count, n).1)
    ensures forall x: nat | FreeByte(ForceFreed(t, count, n).0, x) :: FreeByte(t, x) || n.Has(x)
    ensures forall x: nat | n.Has(x) :: FreeByte(ForceFreed(t, count, n).0, x)
    ensures Gained(t, ForceFreed(t, count, n).0, n) <==> !Loses(t, count, n)
  {
    hide Sound, FreeByte, Absorbing, Hull, Reaching, Apart, Gained, SameFree, Separate, IsAligned;
    HullCovers(t[i], n);
    var m := t[i := Hull(t[i], n)];
    WidenedSound(t, count, n, i);
    AbsorbingSafe(m, count, i, i, 0);
    LoopKeepsIff(m, count, i, n);
    var w := ForceFreed(t, count, n).0;
    GainedAs(t, m, w, n);
    WithinGained(t, m, w, n);
    BoundedEnd(t, count);
    TailEmpty(t, m, count, i, Earlier(t, count, n));
  }

  lemma GainedAs(t: seq<Slot>, m: seq<Slot>, w: seq<Slot>, n: Slot)
    requires Gained(t, m, n)
    ensures Gained(t, w, n) <==> SameFree(m, w)
  {
    hide FreeByte;
  }

  lemma WithinGained(t: seq<Slot>, m: seq<Slot>, w: seq<Slot>, n: Slot)
    requires Gained(t, m, n) && Within(w, m)
    ensures forall x: nat | FreeByte(w, x) :: FreeByte(t, x) || n.Has(x)
  {
    hide FreeByte;
  }

  lemma BoundedEnd(t: seq<Slot>, count: nat)
    requires Sound(t, count)
    ensures count <= |t| && forall k | count <= k < |t| :: t[k] == EMPTY
  {
  }

  lemma HullCovers(a: Slot, n: Slot)
    requires !Apart(n, a)
    ensures !Apart(a, n) && Hull(a, n).base <= n.base && n.End() <= Hull(a, n).End()
  {
  }

  lemma TailEmpty(t: seq<Slot>, m: seq<Slot>, count: nat, i: nat, a: nat)
    requires count <= |t| == |m| && i < count && forall k | i < k < |t| :: m[k] == t[k]
    requires a > 0 ==> forall k | count <= k < |t| :: t[k].Empty()
    ensures a > 0 ==>
             ((forall k | i + a <= k < |m| :: m[k].Empty()) <==> !exists k :: i + a <= k < count && !t[k].Empty())
  {
  }

  lemma Appends(t: seq<Slot>, count: nat, n: Slot)
    requires Sound(t, count) && IsAligned(n) && !n.Empty() && Separate(t, n) && count <= |t|
    requires FirstMeeting(t, count, n, 0) == count
    ensures Sound(ForceFreed(t, count, n).0, ForceFreed(t, count, n).1) && !Loses(t, count, n)
    ensures Accepts(t, count, n) ==> Gained(t, ForceFreed(t, count, n).0, n)
    ensures !Accepts(t, count, n) ==> ForceFreed(t, count, n) == (t, count)
  {
    if count < |t| {
      assert t[count] == EMPTY;
      PutFree(t, count, n);
      AppendedSound(t, count, n);
    }
    hide Sound, FreeByte;
  }

  lemma AppendedSound(t: seq<Slot>, count: nat, n: Slot)
    requires Sound(t, count) && IsAligned(n) && !n.Empty() && Separate(t, n) && count < |t|
    ensures Sound(t[count := n], count + 1)
  {
    AlignedPut(t, count, n);
    forall c | 0 <= c < |t| && !t[c].Empty() ensures t[c].End() <= n.base || n.End() <= t[c].base { Misses(t, c, n); }
    hide FreeByte, Aligned;
  }

  // ----- Where nothing is lost -----

  lemma HullApart(a: Slot, b: Slot, c: Slot)
    requires !Apart(b, c) && Apart(a, b) && Apart(a, c) && (!a.Empty() || a.base == 0)
    ensures Apart(a, Hull(b, c))
  {
  }

  /** A pointer whose slot no earlier one meets is reached with nothing taken in. */
  lemma {:induction false} NoneTaken(m: seq<Slot>, count: nat, p: nat, i: int, j: nat)
    requires p < |m| && count <= |m| && forall k | j <= k < p && k < count :: Apart(m[k], m[p])
    ensures Reaching(m, count, p, i, j) == (m, count, i)
    decreases p - j
  {
    if j < p && j < count { NoneTaken(m, count, p, i, j + 1); }
  }

  /** If no region touches an earlier one that the range meets, nothing is lost. */
  lemma FirstMetKeeps(t: seq<Slot>, count: nat, n: Slot)
    requires count <= |t| && Aligned(t)
    requires var i := FirstMeeting(t, count, n, 0); i < count ==> forall j | 0 <= j < i :: Apart(t[j], t[i])
    ensures !Loses(t, count, n)
  {
    var i := FirstMeeting(t, count, n, 0);
    if i < count {
      var m := t[i := Hull(t[i], n)];
      forall k | 0 <= k < i ensures Apart(m[k], m[i]) { HullApart(t[k], t[i], n); }
      NoneTaken(m, count, i, i, 0);
    }
  }

  lemma CoalescedApart(t: seq<Slot>, i: nat, j: nat)
    requires Coalesced(t) && Aligned(t) && i < |t| && j < |t| && i != j && !t[i].Empty()
    ensures Apart(t[j], t[i])
  {
  }

  lemma MetIsRegion(t: seq<Slot>, i: nat, n: Slot)
    requires Aligned(t) && i < |t| && n.base > 0 && !Apart(n, t[i])
    ensures !t[i].Empty()
  {
  }

  lemma CoalescedKeeps(t: seq<Slot>, count: nat, n: Slot)
    requires Bounded(t, count) && Coalesced(t) && Aligned(t) && n.base > 0
    ensures count <= |t| && !Loses(t, count, n)
  {
    BoundedTail(t, count);
    hide Coalesced, Loses, Aligned, Bounded, Apart, FirstMeeting;
    var i := FirstMeeting(t, count, n, 0);
    if i < count {
      MetIsRegion(t, i, n);
      forall j | 0 <= j < i ensures Apart(t[j], t[i]) { CoalescedApart(t, i, j); }
    }
    FirstMetKeeps(t, count, n);
  }

  lemma NotTaken(t: seq<Slot>, count: nat, n: Slot)
    requires count <= |t|
    ensures !Accepts(t, count, n) ==> ForceFreed(t, count, n) == (t, count)
  {
  }
}
