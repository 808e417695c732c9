/** A run of the heap, on the pages of the address allocator, that loses pages. */
module HeapLoss {
  import opened Common
  import opened FreeRegions
  import opened HeapBlocks
  import opened HeapGrowth
  import opened HeapPages
  import opened HeapSeeds
  import opened HeapStale
  import opened HeapTable
  import opened Kvma

  /** Pages for another use, then a request for five whole pages: it fails and leaves them in the table. */
  method FarPages(lo: nat, count: nat) returns (h: PagedHeap, failed: Option<nat>)
    requires lo * 0x1000 >= LOWEST && count >= 37
    ensures h.Valid() && failed.None? && h.heap.live == {} && h.heap.slots.Length > 5 && h.heap.count == 5 && lo > 0
    ensures fresh(h) && fresh(h.heap) && fresh(h.heap.slots) && fresh(h.pages) && fresh(h.pages.pool)
    ensures h.heap.slots[..] ==
            Table(Seeds(lo * 0x1000) + [Slot(lo * 0x1000 + 0x20000, 0x5000)], h.heap.slots.Length)
    ensures h.owned == SeedRegions(lo) + {Region(lo + 32, 5)}
    ensures h.pages.live == SeedRegions(lo) + {Region(lo + 4, 28)} + {Region(lo + 32, 5)}
    ensures h.pages.Regions() == Piece(lo + 37, count - 37)
  {
    hide *;
    ghost var va := lo * 0x1000;
    h := new PagedHeap(lo, count);
    Start(h, va);
    Sizes(va);
    FarGrant(h.heap.slots[..], va);
    HandedPiece(lo + 4, count - 4, 28);
    var other := h.PageAlloc(28);
    HandedPiece(lo + 32, count - 32, 5);
    ghost var granted: Option<nat>, grew: bool;
    failed, granted, grew := h.Kmalloc(0x4FF8, true);
  }

  /**
   From the start, wherever the range of addresses begins: pages for another use, then a request for five whole pages,
   which fails and leaves them in the table, apart from the seeds. The other pages go back, and the next request gets
   pages directly behind the seeds. The five pages are then gone: the heap owns them, but they are not free,
   and no part of the one block there is.
   */
  method RegionLost(lo: nat, count: nat) returns (h: PagedHeap, failed: Option<nat>, r: Option<nat>)
    requires lo * 0x1000 >= LOWEST && count >= 37
    ensures h.Valid() && failed.None? && r.Some? && r.value >= 8 && h.heap.live == {r.value - 8}
    ensures h.owned == h.pages.live == SeedRegions(lo) + {Region(lo + 32, 5), Region(lo + 4, 6)}
    ensures forall x: nat | Bytes(Region(lo + 32, 5)).Has(x) ::
              !FreeByte(h.heap.slots[..], x) && !BlockFor(r, 0x5100).Has(x)
  {
    hide *;
    ghost var va := lo * 0x1000;
    h, failed := FarPages(lo, count);
    Sizes(va);
    Numbers(lo);
    GivenFront(lo + 4, 28, lo + 37, count - 37);
    h.PageFree(lo + 4, 28);
    ghost var between := h.heap.slots[..];
    NearGrant(between, va);
    HandedFront(lo + 4, 28, Piece(lo + 37, count - 37), 6);
    ghost var granted: Option<nat>, grew: bool;
    r, granted, grew := h.Kmalloc(0x5100, true);
    Gone(between, h.heap.slots[..], BlockFor(r, 0x5100), va);
    LostBytes(lo, va, Bytes(Region(lo + 32, 5)));
  }

  lemma Start(h: PagedHeap, va: nat)
    requires h.Valid() && Seeded(h.heap.slots[..], h.heap.count, va) && va >= LOWEST
    ensures h.heap.slots.Length > 5 && h.heap.count == 4 && va > 0
  {
  }

  lemma Sizes(va: nat)
    ensures Allocatable(0x4FF8) && Full(0x4FF8) == 0x5000 && Need(0x4FF8) == 0x5008 && Tame(0x4FF8)
    ensures Allocatable(0x5100) && Full(0x5100) == 0x5108 && Need(0x5100) == 0x5110 && Tame(0x5100)
    ensures Pages(0x4FF8) == 5 && Pages(0x5100) == 6
    ensures Grant(va + 0x20000, 0x4FF8) == Slot(va + 0x20000, 0x5000)
    ensures Grant(va + 0x4000, 0x5100) == Slot(va + 0x4000, 0x6000)
  {
  }

  /** The regions in use are few, and the pages given back are not the heap's. */
  lemma Numbers(lo: nat)
    ensures var owned := SeedRegions(lo) + {Region(lo + 32, 5)};
            && Region(lo + 4, 28) !in owned && |SeedRegions(lo) + {Region(lo + 4, 28)} + {Region(lo + 32, 5)}| <= POOL
            && SeedRegions(lo) + {Region(lo + 4, 28)} + {Region(lo + 32, 5)} - {Region(lo + 4, 28)} == owned
            && owned + {Region(lo + 4, 6)} == SeedRegions(lo) + {Region(lo + 32, 5), Region(lo + 4, 6)}
  {
  }

  lemma LostBytes(lo: nat, va: nat, lost: Slot)
    requires va == lo * 0x1000 && lost == Bytes(Region(lo + 32, 5))
    ensures forall x: nat | lost.Has(x) :: va + 0x20000 <= x < va + 0x25000
  {
  }

  /** First fit on a range in one piece. */
  lemma HandedPiece(base: nat, c: nat, k: nat)
    requires 0 < k <= c
    ensures forall r, after | Handed(Piece(base, c), k, r, after) :: r == Some(base) && after == Piece(base + k, c - k)
    ensures exists s: nat :: FreeRegions.FreeRun(Piece(base, c), s, k)
  {
    assert Piece(base, c)[0] == Region(base, c);
    assert FreeRegions.FreeRun(Piece(base, c), base, k);
  }

  lemma HandedFront(base: nat, c: nat, rest: seq<Region>, k: nat)
    requires 0 < k <= c
    ensures forall r, after | Handed([Region(base, c)] + rest, k, r, after) :: r == Some(base)
    ensures exists s: nat :: FreeRegions.FreeRun([Region(base, c)] + rest, s, k)
  {
    assert ([Region(base, c)] + rest)[0] == Region(base, c);
    assert FreeRegions.FreeRun([Region(base, c)] + rest, base, k);
  }

  /** Pages given back before a range they do not touch. */
  lemma GivenFront(base: nat, count: nat, next: nat, c: nat)
    requires base + count < next
    ensures forall after | GivenBack(Piece(next, c), base, count, after) ::
              after == [Region(base, count)] + Piece(next, c)
  {
    var rs := Piece(next, c);
    assert GiveBack(rs, base, count, 0) == [Region(base, count)] + rs;
    hide GiveBack;
    assert c > 0 ==> rs[0] == Region(next, c);
    forall k: nat | Position(rs, base, k) ensures k == 0 {}
  }

  /** The first request: pages apart from the seeds, and these too few. */
  lemma FarGrant(t: seq<Slot>, va: nat)
    requires Seeded(t, 4, va) && va % 0x1000 == 0 && va >= LOWEST
    ensures StillSeeded(t, 4) && forall s: nat :: !HeapTable.FreeRun(t, s, 0x5008)
    ensures var n := Slot(va + 0x20000, 0x5000);
            Separate(t, n) && !Touches(t, n) && Accepts(t, 4, n)
            && ForceFreed(t, 4, n) == (Table(Seeds(va) + [n], |t|), 5)
  {
    SeedTable(t, va);
    GrowsApart(t, Slot(va + 0x20000, 0x5000), va);
    hide FreeByte, ForceFreed;
    forall s: nat ensures !HeapTable.FreeRun(t, s, 0x5008) {
      assert !FreeByte(t, if s < va then s else s + 0x5007);
    }
  }

  /** The free bytes between the requests. */
  lemma BetweenBytes(t: seq<Slot>, va: nat)
    requires |t| >= 5 && t == Table(Seeds(va) + [Slot(va + 0x20000, 0x5000)], |t|)
    ensures forall x: nat :: FreeByte(t, x) <==> va <= x < va + 0x4000 || va + 0x20000 <= x < va + 0x25000
  {
    var regions := Seeds(va) + [Slot(va + 0x20000, 0x5000)];
    TableBytes(regions, |t|);
    hide FreeByte;
    forall x: nat ensures InSome(regions, x) <==> va <= x < va + 0x4000 || va + 0x20000 <= x < va + 0x25000 {
      if va <= x < va + 0x4000 { assert regions[(x - va) / 0x1000].Has(x); }
      if va + 0x20000 <= x < va + 0x25000 { assert regions[4].Has(x); }
    }
  }

  /** The second request: pages directly behind the seeds. */
  lemma NearGrant(t: seq<Slot>, va: nat)
    requires |t| > 5 && t == Table(Seeds(va) + [Slot(va + 0x20000, 0x5000)], |t|) && va > 0
    ensures forall s: nat :: !HeapTable.FreeRun(t, s, 0x5110)
    ensures var m := Slot(va + 0x4000, 0x6000);
            Separate(t, m) && Accepts(t, 5, m) && ForceFreed(t, 5, m) == (Table(Regions(m, va), |t|), 3)
  {
    BetweenBytes(t, va);
    GrowsOver(|t|, Slot(va + 0x20000, 0x5000), Slot(va + 0x4000, 0x6000), va);
    hide FreeByte, ForceFreed, Table;
    forall s: nat ensures !HeapTable.FreeRun(t, s, 0x5110) {
      assert !FreeByte(t, if s < va || va + 0x4000 <= s < va + 0x20000 then s
                          else if s < va + 0x4000 then va + 0x4000 else s + 0x510F);
    }
  }

  lemma Gone(t: seq<Slot>, u: seq<Slot>, block: Slot, va: nat)
    requires |t| > 5 && t == Table(Seeds(va) + [Slot(va + 0x20000, 0x5000)], |t|)
    requires Accounted(Table(Regions(Slot(va + 0x4000, 0x6000), va), |t|), u, block, EMPTY, false)
    ensures forall x: nat | va + 0x20000 <= x < va + 0x25000 :: FreeByte(t, x) && !FreeByte(u, x) && !block.Has(x)
  {
    BetweenBytes(t, va);
    TableBytes(Regions(Slot(va + 0x4000, 0x6000), va), |t|);
    hide FreeByte, Table;
  }
}