/**
 The heap on the pages of the kernel address allocator: its bytes lie on regions the allocator has handed out,
 so the pages it grows by are new, and pages handed out to others are apart from it.
 */
module HeapPages {
  import opened Common
  import opened FreeRegions
  import opened Heap
  import opened HeapBlocks
  import opened HeapGrowth
  import opened HeapStale
  import opened HeapTable
  import opened Kvma

  /** The byte lies on a page of one of the regions. */
  ghost predicate OnPages(owned: set<Region>, x: nat) { LiveAt(owned, x / 0x1000) }

  /** Free bytes and blocks in use lie on the owned regions. */
  ghost predicate Housed(t: seq<Slot>, live: set<nat>, words: map<nat, nat>, owned: set<Region>) {
    && (forall x: nat | FreeByte(t, x) :: OnPages(owned, x))
    && (forall b, x: nat | b in live && b in words && BlockOf(words, b).Has(x) :: OnPages(owned, x))
  }

  /** The bytes of a region. */
  function Bytes(r: Region): Slot { Slot(r.base * 0x1000, r.pages * 0x1000) }

  lemma ByteOfPage(r: Region, x: nat)
    ensures Bytes(r).Has(x) <==> r.Has(x / 0x1000)
  {
    var p := x / 0x1000;
    assert x == p * 0x1000 + x % 0x1000;
    if r.Has(p) {
      assert p + 1 <= r.base + r.pages;
    }
  }

  /** A region taken from the free list has no page in common with the regions handed out. */
  lemma NewRegion(rs: seq<Region>, live: set<Region>, lo: nat, hi: nat, i: nat, count: nat, p: nat)
    requires Canonical(rs) && Accounts(rs, live, lo, hi) && i < |rs| && 0 < count <= rs[i].pages
    requires Region(rs[i].base, count).Has(p)
    ensures !LiveAt(live, p) && lo <= p < hi
  {
    assert rs[i].Has(p);
    assert FreeAt(rs, p);
  }

  /** So its bytes are apart from all that is housed. */
  lemma NewBytes(t: seq<Slot>, live: set<nat>, words: map<nat, nat>, owned: set<Region>, r: Region)
    requires Housed(t, live, words, owned) && forall p: nat | r.Has(p) :: !LiveAt(owned, p)
    ensures Separate(t, Bytes(r))
    ensures forall b | b in live && b in words :: !Overlapping(BlockOf(words, b), Bytes(r))
  {
    hide FreeByte, LiveAt;
    forall x: nat | Bytes(r).Has(x) ensures !OnPages(owned, x) {
      ByteOfPage(r, x);
    }
  }

  /** The region has no page in common with the owned ones. */
  ghost predicate New(owned: set<Region>, r: Region) { forall p: nat | r.Has(p) :: !LiveAt(owned, p) }

  lemma OwnedMore(owned: set<Region>, more: set<Region>, x: nat)
    requires owned <= more && OnPages(owned, x)
    ensures OnPages(more, x)
  {
  }

  lemma OwnedNew(owned: set<Region>, r: Region, x: nat)
    requires r in owned && Bytes(r).Has(x)
    ensures OnPages(owned, x)
  {
    ByteOfPage(r, x);
  }

  /** Everything stays housed when the free bytes and a new block come from the old free bytes and owned pages. */
  lemma Rehoused(t: seq<Slot>, u: seq<Slot>, live: set<nat>, words: map<nat, nat>, r: Option<nat>, size: nat,
                 grant: Slot, lost: bool, owned: set<Region>, more: set<Region>)
    requires Housed(t, live, words, owned) && owned <= more && forall x: nat | grant.Has(x) :: OnPages(more, x)
    requires Accounted(t, u, BlockFor(r, size), grant, lost)
    ensures r.None? ==> Housed(u, live, words, more)
    ensures r.Some? && r.value >= 8 && r.value - 8 !in live ==>
              Housed(u, live + {r.value - 8}, words[r.value - 8 := size], more)
  {
    hide FreeByte, Full, OnPages;
    forall x: nat | OnPages(owned, x) ensures OnPages(more, x) {
      OwnedMore(owned, more, x);
    }
  }

  lemma FreedHoused(t: seq<Slot>, u: seq<Slot>, live: set<nat>, words: map<nat, nat>, b: nat, owned: set<Region>)
    requires Housed(t, live, words, owned) && b in live && b in words
    requires forall x: nat | FreeByte(u, x) :: FreeByte(t, x) || BlockOf(words, b).Has(x)
    ensures Housed(u, live - {b}, words, owned)
  {
    hide FreeByte, Full, OnPages;
  }

  /** The free list of a range of count pages from base on. */
  function Piece(base: nat, count: nat): seq<Region> { if count == 0 then [] else [Region(base, count)] }

  /** While the range is in one piece, its pages are handed out in order. */
  method FirstPage(p: Allocator, ghost base: nat, ghost count: nat) returns (page: nat)
    requires p.Valid() && count > 0 && p.Regions() == Piece(base, count)
    modifies p, p.pool
    ensures p.Valid() && p.Regions() == Piece(base + 1, count - 1)
    ensures page == base && p.live == old(p.live) + {Region(base, 1)}
  {
    hide Canonical, Accounts, PoolOk;
    assert p.Regions()[0].pages >= 1;
    ghost var k: nat;
    var r;
    r, k := p.Alloc(1);
    page := r.value;
  }

  /** The seed pages of the heap. */
  function SeedRegions(lo: nat): set<Region> {
    {Region(lo, 1), Region(lo + 1, 1), Region(lo + 2, 1), Region(lo + 3, 1)}
  }

  method SeedPages(p: Allocator, ghost lo: nat, ghost count: nat) returns (page: nat)
    requires p.Valid() && count >= 4 && p.Regions() == Piece(lo, count)
    modifies p, p.pool
    ensures p.Valid() && page == lo && p.live == old(p.live) + SeedRegions(lo)
    ensures p.Regions() == Piece(lo + 4, count - 4)
  {
    hide Canonical, Accounts, PoolOk, Piece, Allocator.Valid;
    page := FirstPage(p, lo, count);
    var b := FirstPage(p, lo + 1, count - 1);
    var c := FirstPage(p, lo + 2, count - 2);
    var d := FirstPage(p, lo + 3, count - 3);
  }

  lemma SeedsHoused(t: seq<Slot>, words: map<nat, nat>, lo: nat, owned: set<Region>)
    requires owned == SeedRegions(lo)
    requires forall x: nat :: FreeByte(t, x) <==> lo * 0x1000 <= x < lo * 0x1000 + 0x4000
    ensures Housed(t, {}, words, owned)
  {
    hide FreeByte;
    forall x: nat | FreeByte(t, x) ensures OnPages(owned, x) {
      var r := Region(x / 0x1000, 1);
      assert r in owned && r.Has(x / 0x1000);
    }
  }

  class PagedHeap {
    const heap: KernelHeap
    const pages: Allocator
    // The regions the heap has.
    ghost var owned: set<Region>

    ghost predicate Valid()
      reads this, heap, heap.slots, pages, pages.pool
    {
      && heap.Valid() && pages.Valid() && owned <= pages.live && pages.lo * 0x1000 >= LOWEST
      && Housed(heap.slots[..], heap.live, heap.words, owned)
    }

    /** The four seed pages are the first four of the address range. */
    constructor (lo: nat, count: nat)
      requires count >= 4 && lo * 0x1000 >= LOWEST
      ensures Valid() && fresh(heap) && fresh(heap.slots) && fresh(pages) && fresh(pages.pool)
      ensures Seeded(heap.slots[..], heap.count, lo * 0x1000) && heap.live == {}
      ensures owned == pages.live == SeedRegions(lo) && pages.Regions() == Piece(lo + 4, count - 4)
    {
      var p := new Allocator(lo, count);
      hide Canonical, Accounts, PoolOk, Housed, LiveOk, Disjoint, Aligned, Bounded, FreeByte, SeedRegions;
      assert p.Regions() == Piece(lo, count);
      var a := SeedPages(p, lo, count);
      pages := p;
      heap := new KernelHeap(a * 0x1000);
      owned := SeedRegions(lo);
      new;
      SeedsHoused(heap.slots[..], heap.words, lo, owned);
    }

    /**
     Allocates size bytes; frames says whether the frame allocator has the pages when the heap has to grow.
     That the pages it grows by are new is no assumption here. The table may have any shape.
     */
    method Kmalloc(size: nat, frames: bool) returns (r: Option<nat>, ghost granted: Option<nat>, ghost grew: bool)
      requires Valid() && (Allocatable(size) ==> Tame(size))
      modifies this, heap, heap.slots, pages, pages.pool
      ensures Valid() && (Coalesced(old(heap.slots[..])) ==> Coalesced(heap.slots[..]))
      ensures r.None? ==> heap.live == old(heap.live) && heap.words == old(heap.words)
      ensures r.Some? ==> r.value >= 8 && r.value - 8 !in old(heap.live) && heap.live == old(heap.live) + {r.value - 8}
      ensures r.Some? ==> heap.words == old(heap.words)[r.value - 8 := size]
      ensures r.None? && Allocatable(size) ==> forall s: nat :: !HeapTable.FreeRun(heap.slots[..], s, Need(size))
      ensures granted.Some? <==>
                Allocatable(size) && frames && (forall s: nat :: !HeapTable.FreeRun(old(heap.slots[..]), s, Need(size)))
                && exists s: nat :: FreeRegions.FreeRun(old(pages.Regions()), s, Pages(size))
      ensures granted.None? ==> pages.live == old(pages.live) && owned == old(owned)
                                && pages.Regions() == old(pages.Regions())
      ensures granted.Some? ==> Handed(old(pages.Regions()), Pages(size), granted, pages.Regions())
      ensures granted.Some? ==> New(old(owned), Region(granted.value, Pages(size)))
      ensures granted.Some? ==> pages.live == old(pages.live) + {Region(granted.value, Pages(size))}
                                && owned == old(owned) + {Region(granted.value, Pages(size))}
      ensures granted.Some? ==> Separate(old(heap.slots[..]), Grant(granted.value * 0x1000, size))
      ensures old(heap.count) <= |old(heap.slots[..])|
      ensures grew <==>
                granted.Some? && Accepts(old(heap.slots[..]), old(heap.count), Grant(granted.value * 0x1000, size))
      ensures grew && (Coalesced(old(heap.slots[..])) || StillSeeded(old(heap.slots[..]), old(heap.count))) ==>
                !Loses(old(heap.slots[..]), old(heap.count), Grant(granted.value * 0x1000, size))
      ensures grew && Full(size) % 0x1000 != 0 ==> r.Some?
      ensures grew && Full(size) % 0x1000 == 0 ==>
                !Loses(old(heap.slots[..]), old(heap.count), Grant(granted.value * 0x1000, size)) ==>
                (r.Some? <==> Touches(old(heap.slots[..]), Grant(granted.value * 0x1000, size)))
      ensures r.Some? && StillSeeded(old(heap.slots[..]), old(heap.count)) ==>
                (grew ==> Touches(old(heap.slots[..]), Grant(granted.value * 0x1000, size))) ==>
                Coalesced(heap.slots[..])
      ensures Accounted(old(heap.slots[..]), heap.slots[..], BlockFor(r, size),
                        if grew then Grant(granted.value * 0x1000, size) else EMPTY,
                        grew && Loses(old(heap.slots[..]), old(heap.count), Grant(granted.value * 0x1000, size)))
      ensures grew ==> var grant := Grant(granted.value * 0x1000, size);
                       var (t, c) := ForceFreed(old(heap.slots[..]), old(heap.count), grant);
                       heap.count == c && (r.None? ==> heap.slots[..] == t)
                       && Accounted(t, heap.slots[..], BlockFor(r, size), EMPTY, false)
    {
      hide KernelHeap.Valid, FreeByte, Housed, Coalesced, Full, Need;
      hide Pages, Tame, StillSeeded, Separate, Loses, Touches;
      hide Canonical, Accounts, PoolOk, Accepts, Accounted, FreeRegions.FreeRun, HeapTable.FreeRun, Grantable, Bytes;
      hide OnPages, ForceFreed, BlockFor, TakeFront, New, HandedAt;
      ghost var t, live, words, have := heap.slots[..], heap.live, heap.words, owned;
      CountFits(heap);
      granted := None;
      r, grew := heap.Kmalloc(size, None);
      if r.Some? {
        Rehoused(t, heap.slots[..], live, words, r, size, EMPTY, false, have, have);
        return;
      }
      if size == 0 || size > SIZE_MAX - 8 || !frames { return; }
      SomePages(size);
      ghost var rs := pages.Regions();
      var va, k := pages.Alloc(Pages(size));
      if va.None? { return; }
      granted := va;
      assert HandedAt(rs, Pages(size), va.value, pages.Regions(), k) by { HandedHere(rs, Pages(size), k); }
      ghost var region := Region(va.value, Pages(size));
      Granted(t, live, words, have, rs, old(pages.live), pages.lo, pages.hi, k, size);
      r, grew := heap.Kmalloc(size, Some(va.value * 0x1000));
      owned := owned + {region};
      forall x: nat | Bytes(region).Has(x) ensures OnPages(owned, x) { OwnedNew(owned, region, x); }
      Rehoused(t, heap.slots[..], live, words, r, size, if grew then Bytes(region) else EMPTY,
               grew && Loses(t, old(heap.count), Bytes(region)), have, owned);
    }

    /** Gives a block back: afterwards no two regions touch, unless the table had no empty slot. */
    method Kfree(address: nat) returns (ghost placed: bool, ghost block: Slot)
      requires Valid() && (address != 0 ==> address >= 8 && address - 8 in heap.live)
      modifies heap, heap.slots
      ensures heap.words == old(heap.words)
      ensures address != 0 ==> address - 8 in heap.words && block == BlockOf(heap.words, address - 8)
      ensures Valid()
      ensures heap.live == if address == 0 then old(heap.live) else old(heap.live) - {address - 8}
      ensures placed <==> address != 0 && HasEmpty(old(heap.slots[..]))
      ensures placed ==> Coalesced(heap.slots[..]) && Gained(old(heap.slots[..]), heap.slots[..], block)
      ensures !placed ==> heap.slots[..] == old(heap.slots[..]) && heap.count == old(heap.count)
    {
      hide FreeByte, Housed, LiveOk, Bounded, Disjoint, Aligned, Coalesced, Full, Canonical, Accounts, PoolOk;
      ghost var t, live, words := heap.slots[..], heap.live, heap.words;
      placed, block := heap.Kfree(address);
      if address != 0 { FreedHoused(t, heap.slots[..], live, words, address - 8, owned); }
    }

    /** Pages for another use: they are apart from every free byte and every block of the heap. */
    method PageAlloc(count: nat) returns (r: Option<nat>)
      requires Valid() && count > 0
      modifies pages, pages.pool
      ensures Valid() && (r.None? ==> pages.live == old(pages.live))
      ensures Handed(old(pages.Regions()), count, r, pages.Regions())
      ensures r.Some? ==> pages.live == old(pages.live) + {Region(r.value, count)} && Region(r.value, count) !in owned
      ensures r.Some? ==> Separate(heap.slots[..], Bytes(Region(r.value, count)))
      ensures r.Some? ==> forall b | b in heap.live && b in heap.words ::
                            !Overlapping(BlockOf(heap.words, b), Bytes(Region(r.value, count)))
    {
      hide FreeByte, Housed, LiveOk, Bounded, Disjoint, Aligned;
      hide Full, Separate, Overlapping, Canonical, Accounts, PoolOk;
      ghost var rs, handed := pages.Regions(), pages.live;
      ghost var k: nat;
      r, k := pages.Alloc(count);
      if r.None? { return; }
      HandedHere(rs, count, k);
      ghost var region := Region(r.value, count);
      forall p: nat | region.Has(p) ensures !LiveAt(owned, p) {
        Unowned(rs, handed, owned, pages.lo, pages.hi, k, count, p);
      }
      assert region.Has(r.value);
      NewBytes(heap.slots[..], heap.live, heap.words, owned, region);
    }

    /** Such pages given back, as long as the node pool suffices. */
    method PageFree(base: nat, count: nat)
      requires Valid() && Region(base, count) in pages.live && Region(base, count) !in owned && |pages.live| <= POOL
      modifies pages, pages.pool
      ensures Valid() && pages.live == old(pages.live) - {Region(base, count)}
      ensures GivenBack(old(pages.Regions()), base, count, pages.Regions())
    {
      hide FreeByte, Housed, LiveOk, Bounded, Disjoint, Aligned, Full, Canonical, Accounts, PoolOk;
      ghost var k: nat;
      var ok;
      ok, k := pages.Free(base, count);
    }
  }

  lemma Unowned(rs: seq<Region>, handed: set<Region>, owned: set<Region>, lo: nat, hi: nat, k: nat, count: nat, p: nat)
    requires owned <= handed && Canonical(rs) && Accounts(rs, handed, lo, hi)
    requires k < |rs| && 0 < count <= rs[k].pages && Region(rs[k].base, count).Has(p)
    ensures !LiveAt(owned, p) && lo <= p
  {
    NewRegion(rs, handed, lo, hi, k, count, p);
    forall b | b in owned ensures !b.Has(p) { assert b in handed; }
  }

  lemma CountFits(h: KernelHeap)
    requires h.Valid()
    ensures h.count <= h.slots.Length
  {
    BoundedTail(h.slots[..], h.count);
  }

  lemma HandedHere(rs: seq<Region>, count: nat, k: nat)
    requires k < |rs| && rs[k].pages >= count && forall i | 0 <= i < k :: rs[i].pages < count
    ensures HandedAt(rs, count, rs[k].base, TakeFront(rs, k, count), k)
  {
  }

  lemma SomePages(size: nat)
    requires Tame(size)
    ensures Pages(size) > 0
  {
    TameSizes(size);
  }

  /** The pages the allocator takes for a request can be granted to the heap. */
  lemma Granted(t: seq<Slot>, live: set<nat>, words: map<nat, nat>, owned: set<Region>,
                rs: seq<Region>, handed: set<Region>, lo: nat, hi: nat, k: nat, size: nat)
    requires Housed(t, live, words, owned) && owned <= handed && lo * 0x1000 >= LOWEST
    requires Canonical(rs) && Accounts(rs, handed, lo, hi) && k < |rs| && 0 < Pages(size) <= rs[k].pages
    ensures var va := rs[k].base * 0x1000;
            && Bytes(Region(rs[k].base, Pages(size))) == Grant(va, size)
            && Separate(t, Grant(va, size)) && Grantable(va, size, live, words)
            && New(owned, Region(rs[k].base, Pages(size)))
  {
    hide Housed, Separate, Overlapping, Full, Canonical, Accounts;
    var region := Region(rs[k].base, Pages(size));
    forall p: nat | region.Has(p) ensures !LiveAt(owned, p) && lo <= p {
      Unowned(rs, handed, owned, lo, hi, k, Pages(size), p);
    }
    assert region.Has(rs[k].base);
    NewBytes(t, live, words, owned, region);
  }
}
