/**
 Adding a page range to the heap's free bytes. `ForceFreed` follows the loops of the source on the
 table as a value. It adds exactly the range when no two regions touch, and can drop a region when
 two do: the joining loop keeps pointing at the slot it started with while the slots move down.
 */
module HeapGrowth {
  import opened Common
  import opened HeapTable

  const LOWEST: nat := 0x10000

  /** The start of the page of an address. */
  function PageStart(x: nat): (s: nat)
    ensures s <= x < s + 0x1000 && s % 0x1000 == 0
  {
    x / 0x1000 * 0x1000
  }

  lemma PageAligned(x: nat)
    requires x % 0x1000 == 0
    ensures x % 8 == 0
  {
    assert x == x / 0x1000 * 512 * 8;
  }

  /** The pages over size bytes at address, above the lowest address the heap uses. */
  function PageRange(address: nat, size: nat): (r: Option<Slot>)
    ensures r.Some? ==> r.value.base >= LOWEST && r.value.base % 0x1000 == 0 && r.value.End() % 0x1000 == 0
    ensures r.Some? ==> forall x: nat | address <= x < address + size && x >= LOWEST :: r.value.Has(x)
    ensures r.None? ==> address + size <= LOWEST
  {
    var start := PageStart(address);
    var end := PageStart(address + size + 0xFFF);
    if end <= LOWEST then None
    else
      var from := if start < LOWEST then LOWEST else start;
      Some(Slot(from, end - from))
  }

  /** Whole pages are freed as they are. */
  lemma WholePages(address: nat, pages: nat)
    requires address % 0x1000 == 0 && address >= LOWEST && pages > 0
    ensures PageRange(address, pages * 0x1000) == Some(Slot(address, pages * 0x1000))
    ensures IsAligned(Slot(address, pages * 0x1000))
  {
    PageAligned(address);
    PageAligned(pages * 0x1000);
  }

  /** The two regions neither share a byte nor touch. */
  predicate Apart(a: Slot, b: Slot) {
    a.End() < b.base || b.End() < a.base
  }

  /** The smallest region over two regions that share a byte or touch. */
  function Hull(a: Slot, b: Slot): (h: Slot)
    requires !Apart(a, b)
    ensures forall x: nat :: h.Has(x) <==> a.Has(x) || b.Has(x)
    ensures forall c: Slot {:trigger Apart(c, h)} :: Apart(c, a) && Apart(c, b) && !c.Empty() ==> Apart(c, h)
    ensures h.length >= a.length && h.length >= b.length
  {
    var start := if a.base < b.base then a.base else b.base;
    var end := if a.End() > b.End() then a.End() else b.End();
    Slot(start, end - start)
  }

  // ----- The loops -----

  /** The first of count regions, from k on, that meets n, or count. */
  function FirstMeeting(t: seq<Slot>, count: nat, n: Slot, k: nat): (i: nat)
    requires k <= count <= |t|
    ensures k <= i <= count && (i < count ==> !Apart(n, t[i])) && forall j | k <= j < i :: Apart(n, t[j])
    decreases count - k
  {
    if k == count || !Apart(n, t[k]) then k else FirstMeeting(t, count, n, k + 1)
  }

  /** The first count slots without slot j, and one more empty slot after them. */
  function RemovedIn(t: seq<Slot>, count: nat, j: nat): (u: seq<Slot>)
    requires j < count <= |t|
    ensures |u| == |t|
    ensures forall k | 0 <= k < |t| ::
              u[k] == if k < j || k >= count then t[k] else if k + 1 < count then t[k + 1] else EMPTY
  {
    t[..j] + t[j + 1..count] + [EMPTY] + t[count..]
  }

  /** The joining loop: slot p takes in every region it meets, except that slot i is skipped. */
  function Absorbing(t: seq<Slot>, count: nat, p: nat, i: int, j: nat): (r: (seq<Slot>, nat))
    requires p < |t| && count <= |t|
    ensures |r.0| == |t| && r.1 <= count
    decreases count + count - j
  {
    if j >= count then (t, count)
    else if j == i || Apart(t[j], t[p]) then Absorbing(t, count, p, i, j + 1)
    else Absorbing(RemovedIn(t[p := Hull(t[p], t[j])], count, j), count - 1, p, if j < i then i - 1 else i, j)
  }

  /** One turn of the loop. */
  lemma AbsorbingOne(t: seq<Slot>, count: nat, p: nat, i: int, j: nat)
    requires p < |t| && count <= |t|
    ensures Absorbing(t, count, p, i, j) ==
            if j >= count then (t, count)
            else if j == i || Apart(t[j], t[p]) then Absorbing(t, count, p, i, j + 1)
            else Absorbing(RemovedIn(t[p := Hull(t[p], t[j])], count, j), count - 1, p, if j < i then i - 1 else i, j)
  {
  }

  function ForceFreed(t: seq<Slot>, count: nat, n: Slot): (r: (seq<Slot>, nat))
    requires count <= |t|
    ensures |r.0| == |t| && r.1 <= |t|
  {
    var i := FirstMeeting(t, count, n, 0);
    if i < count then Absorbing(t[i := Hull(t[i], n)], count, i, i, 0)
    else if count < |t| then (t[count := n], count + 1)
    else (t, count)
  }

  // ----- Tables in which no two regions touch -----

  /** Coalesced apart from slot r. */
  ghost predicate OthersApart(t: seq<Slot>, r: nat) {
    forall i, j | 0 <= i < |t| && 0 <= j < |t| && i != j && i != r && j != r && !t[i].Empty() && !t[j].Empty() ::
      Apart(t[i], t[j])
  }

  /** Slot r is apart from the other regions among the first j slots. */
  ghost predicate RowApart(t: seq<Slot>, r: nat, j: nat)
    requires r < |t|
  {
    forall k | 0 <= k < j && k < |t| && k != r && !t[k].Empty() :: Apart(t[k], t[r])
  }

  lemma ApartIsCoalesced(t: seq<Slot>, r: nat)
    requires r < |t| && OthersApart(t, r) && RowApart(t, r, |t|)
    ensures Coalesced(t)
  {
    forall i, j | 0 <= i < |t| && 0 <= j < |t| && i != j && !t[i].Empty() && !t[j].Empty()
      ensures t[i].End() < t[j].base || t[j].End() < t[i].base
    {
      assert i == r ==> Apart(t[j], t[r]);
      assert j == r ==> Apart(t[i], t[r]);
      assert i != r && j != r ==> Apart(t[i], t[j]);
    }
  }

  /** Widening the first region a new range meets. */
  lemma AbsorbFirst(t: seq<Slot>, r: nat, n: Slot)
    requires r < |t| && !t[r].Empty() && Coalesced(t) && !n.Empty() && !Apart(n, t[r])
    requires forall k | 0 <= k < r :: Apart(n, t[k])
    ensures var u := t[r := Hull(t[r], n)];
            OthersApart(u, r) && RowApart(u, r, r)
            && forall x: nat :: FreeByte(u, x) <==> FreeByte(t, x) || n.Has(x)
  {
    var u := t[r := Hull(t[r], n)];
    forall k | 0 <= k < r && !t[k].Empty() ensures Apart(u[k], u[r]) {
      assert t[k].End() < t[r].base || t[r].End() < t[k].base;
      assert Apart(n, t[k]);
    }
    forall x: nat ensures FreeByte(u, x) <==> FreeByte(t, x) || n.Has(x) {
      if k :| 0 <= k < |t| && t[k].Has(x) { assert u[k].Has(x); }
      if n.Has(x) { assert u[r].Has(x); }
      if k :| 0 <= k < |u| && u[k].Has(x) { assert t[k].Has(x) || n.Has(x); }
    }
  }

  /** Absorbing a later region that the grown one has come to meet. */
  lemma AbsorbNext(t: seq<Slot>, r: nat, j: nat)
    requires r < j < |t| && OthersApart(t, r) && RowApart(t, r, j) && !Apart(t[j], t[r]) && !t[j].Empty()
    ensures var u := Dropped(t[r := Hull(t[r], t[j])], j);
            OthersApart(u, r) && RowApart(u, r, j) && SameFree(t, u)
  {
    var h := Hull(t[r], t[j]);
    var m := t[r := h];
    var u := Dropped(m, j);
    forall k | 0 <= k < j && k != r && !u[k].Empty() ensures Apart(u[k], u[r]) {
      assert Apart(t[k], t[r]) && Apart(t[k], t[j]);
    }
    forall a, b | 0 <= a < |u| && 0 <= b < |u| && a != b && a != r && b != r && !u[a].Empty() && !u[b].Empty()
      ensures Apart(u[a], u[b])
    {
      var a', b' := if a < j then a else a + 1, if b < j then b else b + 1;
      assert u[a] == t[a'] && u[b] == t[b'];
    }
    AbsorbFree(t, r, j, u);
  }

  lemma AbsorbFree(t: seq<Slot>, r: nat, j: nat, u: seq<Slot>)
    requires r < |t| && j < |t| && j != r && !Apart(t[j], t[r]) && u == Dropped(t[r := Hull(t[r], t[j])], j)
    ensures SameFree(t, u)
  {
    var m := t[r := Hull(t[r], t[j])];
    forall x: nat ensures FreeByte(u, x) <==> FreeByte(t, x) {
      DropFree(m, j, x);
      if k :| 0 <= k < |t| && t[k].Has(x) { assert m[if k == j then r else k].Has(x); }
      if k :| 0 <= k < |m| && k != j && m[k].Has(x) { assert t[k].Has(x) || t[j].Has(x); }
    }
  }

  lemma AlignedHull(a: Slot, b: Slot)
    requires IsAligned(a) && IsAligned(b) && !Apart(a, b)
    ensures IsAligned(Hull(a, b))
  {
    var h := Hull(a, b);
    MultipleSum(a.base, a.length);
    MultipleSum(b.base, b.length);
    assert (h.base == a.base || h.base == b.base) && (h.End() == a.End() || h.End() == b.End());
    MultipleDifference(h.End(), h.base);
  }

  lemma MultipleSum(x: nat, y: nat)
    requires x % 8 == 0 && y % 8 == 0
    ensures (x + y) % 8 == 0
  {
  }

  lemma MultipleDifference(x: nat, y: nat)
    requires x >= y && x % 8 == 0 && y % 8 == 0
    ensures (x - y) % 8 == 0
  {
  }

  /** What holds of slot t[r] and its table while the joining loop runs on a table whose other regions are apart. */
  ghost predicate Growing(t: seq<Slot>, count: nat, r: nat) {
    r < count && Bounded(t, count) && Aligned(t) && OthersApart(t, r) && !t[r].Empty()
  }

  /** An aligned region meets no empty slot. */
  lemma MeetsRegion(t: seq<Slot>, j: nat, n: Slot)
    requires j < |t| && Aligned(t) && n.base > 0 && !Apart(t[j], n)
    ensures !t[j].Empty()
  {
  }

  lemma AbsorbStep(t: seq<Slot>, count: nat, r: nat, j: nat)
    requires Growing(t, count, r) && r < j < count && RowApart(t, r, j) && !Apart(t[j], t[r])
    ensures var u := RemovedIn(t[r := Hull(t[r], t[j])], count, j);
            Growing(u, count - 1, r) && RowApart(u, r, j) && SameFree(t, u)
  {
    hide OthersApart, RowApart, SameFree;
    MeetsRegion(t, j, t[r]);
    AbsorbNext(t, r, j);
    AlignedHull(t[r], t[j]);
    var m := t[r := Hull(t[r], t[j])];
    assert RemovedIn(m, count, j) == Dropped(m, j);
    AlignedPut(t, r, Hull(t[r], t[j]));
    AlignedDrop(m, j);
  }

  /** The joining loop on such a table: the same free bytes, and no two regions touch any more. */
  lemma {:induction false} AbsorbingExact(t: seq<Slot>, count: nat, r: nat, j: nat)
    requires Growing(t, count, r) && j <= count && RowApart(t, r, if j <= r then r else j)
    ensures var u := Absorbing(t, count, r, r, j);
            Bounded(u.0, u.1) && Coalesced(u.0) && Aligned(u.0) && SameFree(t, u.0)
    decreases count + count - j
  {
    hide OthersApart, RowApart, Coalesced, SameFree, Aligned, Bounded, Growing;
    SlotInside(t, count, r);
    if j == count {
      LoopEnds(t, count, r);
    } else if j == r || Apart(t[j], t[r]) {
      RowGrows(t, count, r, j);
      AbsorbingExact(t, count, r, j + 1);
    } else {
      MeetsLater(t, count, r, j);
      AbsorbStep(t, count, r, j);
      var u := RemovedIn(t[r := Hull(t[r], t[j])], count, j);
      AbsorbingExact(u, count - 1, r, j) by { assert Growing(u, count - 1, r); SlotInside(u, count - 1, r); }
      SameFreeTransitive(t, u, Absorbing(t, count, r, r, j).0);
    }
  }

  lemma SlotInside(t: seq<Slot>, count: nat, r: nat)
    requires Growing(t, count, r)
    ensures r < count <= |t|
  {
  }

  lemma LoopEnds(t: seq<Slot>, count: nat, r: nat)
    requires Growing(t, count, r) && RowApart(t, r, count)
    ensures Bounded(t, count) && Aligned(t) && Coalesced(t) && SameFree(t, t)
  {
    assert RowApart(t, r, |t|);
    ApartIsCoalesced(t, r);
  }

  lemma RowGrows(t: seq<Slot>, count: nat, r: nat, j: nat)
    requires r < |t| && j < |t| && RowApart(t, r, if j <= r then r else j) && (j == r || Apart(t[j], t[r]))
    ensures RowApart(t, r, if j + 1 <= r then r else j + 1)
  {
  }

  /** Only a later slot can meet region r while the earlier ones are apart from it. */
  lemma MeetsLater(t: seq<Slot>, count: nat, r: nat, j: nat)
    requires Growing(t, count, r) && j < count && j != r && !Apart(t[j], t[r])
    requires RowApart(t, r, if j <= r then r else j)
    ensures r < j
  {
    MeetsRegion(t, j, t[r]);
  }

  /** A range that meets nothing takes the next slot. */
  lemma AppendApart(t: seq<Slot>, count: nat, n: Slot)
    requires Bounded(t, count) && count < |t| && Coalesced(t) && !n.Empty()
    requires forall k | 0 <= k < count :: Apart(n, t[k])
    ensures Bounded(t[count := n], count + 1) && Coalesced(t[count := n])
    ensures forall x: nat :: FreeByte(t[count := n], x) <==> FreeByte(t, x) || n.Has(x)
  {
    var u := t[count := n];
    forall i, j | 0 <= i < |u| && 0 <= j < |u| && i != j && !u[i].Empty() && !u[j].Empty()
      ensures u[i].End() < u[j].base || u[j].End() < u[i].base
    {
      if i == count { assert Apart(n, t[j]); } else if j == count { assert Apart(n, t[i]); }
    }
    PutFree(t, count, n);
  }

  /** Whether the table can take the range: it has a slot left or the range meets a region. */
  ghost predicate Accepts(t: seq<Slot>, count: nat, n: Slot)
    requires count <= |t|
  {
    count < |t| || exists k :: 0 <= k < count && !Apart(n, t[k])
  }

  /** On a table in which no two regions touch, exactly the range is added, and still none touch. */
  lemma ForceFreeExact(t: seq<Slot>, count: nat, n: Slot)
    requires Bounded(t, count) && Coalesced(t) && Aligned(t) && IsAligned(n) && !n.Empty()
    ensures var u := ForceFreed(t, count, n);
            && Bounded(u.0, u.1) && Coalesced(u.0) && Aligned(u.0)
            && forall x: nat :: FreeByte(u.0, x) <==> FreeByte(t, x) || (Accepts(t, count, n) && n.Has(x))
  {
    hide Coalesced, Aligned, FreeByte, OthersApart, RowApart;
    var i := FirstMeeting(t, count, n, 0);
    if i < count {
      assert Accepts(t, count, n);
      MeetsRegion(t, i, n);
      AbsorbFirst(t, i, n);
      AlignedSlot(t, i);
      AlignedHull(t[i], n);
      AlignedPut(t, i, Hull(t[i], n));
      var m := t[i := Hull(t[i], n)];
      AbsorbingExact(m, count, i, 0);
    } else if count < |t| {
      AppendApart(t, count, n);
      AlignedPut(t, count, n);
    }
  }

  lemma AlignedSlot(t: seq<Slot>, i: nat)
    requires i < |t| && Aligned(t) && !t[i].Empty()
    ensures IsAligned(t[i])
  {
  }
}
