/** Block sizes, block headers, and the bytes that blocks in use hold. */
module HeapBlocks {
  import opened Common
  import opened HeapGrowth
  import opened HeapTable

  const SIZE_MAX: nat := 0xFFFF_FFFF_FFFF_FFFF
  const WORD: nat := 0x1_0000_0000

  /** Rounding down to eight with the source's 32-bit mask, which also drops the upper half. */
  function Masked(x: nat): (m: nat)
    ensures m % 8 == 0 && m <= x && m < WORD
    ensures x < WORD ==> x < m + 8
  {
    x % WORD / 8 * 8
  }

  /** The bytes a block of the given size takes, its header word included. */
  function Full(size: nat): nat {
    Masked((size + 15) % (SIZE_MAX + 1))
  }

  /** The free bytes the search asks for: it adds room for a second header. */
  function Need(size: nat): nat {
    Masked((Full(size) + 15) % (SIZE_MAX + 1))
  }

  predicate Allocatable(size: nat) {
    0 < size <= SIZE_MAX - 8
  }

  /** A block has room for its header and the bytes asked for exactly when the rounded size fits 32 bits. */
  lemma BlockHoldsRequest(size: nat)
    requires Allocatable(size)
    ensures Full(size) >= size + 8 <==> size + 15 < WORD
  {
    if size + 15 >= WORD {
      assert Full(size) % 8 == 0 && Full(size) < WORD;
    }
  }

  /** The sizes for which the search asks for more than the block takes, and the block is not empty. */
  predicate Tame(size: nat) {
    8 <= (size + 15) % (SIZE_MAX + 1) % WORD < WORD - 8
  }

  /** For exactly these sizes a block has its header inside and is cut from a longer region. */
  lemma TameSizes(size: nat)
    ensures Tame(size) <==> Full(size) > 0 && Need(size) == Full(size) + 8
    ensures 0 < size <= WORD - 24 ==> Tame(size)
  {
    var x := (size + 15) % (SIZE_MAX + 1);
    assert Full(size) == x % WORD / 8 * 8;
    if Full(size) + 15 < WORD {
      assert Full(size) + 15 == (Full(size) / 8 + 1) * 8 + 7;
    }
  }

  /** The bytes of a block in use. */
  function BlockOf(words: map<nat, nat>, b: nat): Slot
    requires b in words
  {
    Slot(b, Full(words[b]))
  }

  function Pages(size: nat): nat {
    (Full(size) + 0xFFF) / 0x1000
  }

  /** The pages the heap grows by for a request. */
  function Grant(va: nat, size: nat): Slot {
    Slot(va, Pages(size) * 0x1000)
  }

  ghost predicate Overlapping(a: Slot, b: Slot) {
    exists x: nat :: a.Has(x) && b.Has(x)
  }

  /** Blocks in use share no byte with one another or with the free bytes. */
  ghost predicate LiveOk(t: seq<Slot>, live: set<nat>, words: map<nat, nat>) {
    && (forall b | b in live :: b in words && b >= LOWEST && b % 8 == 0 && Allocatable(words[b]) && Tame(words[b]))
    && (forall b, x: nat | b in live && b in words && BlockOf(words, b).Has(x) :: !FreeByte(t, x))
    && (forall b, c | b in live && c in live && b != c && b in words && c in words ::
          !Overlapping(BlockOf(words, b), BlockOf(words, c)))
  }

  /** The page allocators return whole pages that no block in use is on. */
  ghost predicate Grantable(va: nat, size: nat, live: set<nat>, words: map<nat, nat>) {
    && va % 0x1000 == 0 && va >= LOWEST
    && forall b | b in live && b in words :: !Overlapping(BlockOf(words, b), Grant(va, size))
  }

  lemma LiveSame(t: seq<Slot>, u: seq<Slot>, live: set<nat>, words: map<nat, nat>)
    requires LiveOk(t, live, words) && SameFree(t, u)
    ensures LiveOk(u, live, words)
  {
    hide FreeByte, Overlapping, Full, Tame;
  }

  lemma LiveGrows(t: seq<Slot>, u: seq<Slot>, live: set<nat>, words: map<nat, nat>, n: Slot)
    requires LiveOk(t, live, words)
    requires forall b | b in live && b in words :: !Overlapping(BlockOf(words, b), n)
    requires forall x: nat | FreeByte(u, x) :: FreeByte(t, x) || n.Has(x)
    ensures LiveOk(u, live, words)
  {
    hide FreeByte, Full, Tame;
  }

  /** A block cut from the free bytes joins the blocks in use. */
  lemma LiveAdds(t: seq<Slot>, u: seq<Slot>, live: set<nat>, words: map<nat, nat>, b: nat, size: nat)
    requires LiveOk(t, live, words) && b >= LOWEST && b % 8 == 0 && Allocatable(size) && Tame(size)
    requires var block := Slot(b, Full(size));
             && (forall x: nat | block.Has(x) :: FreeByte(t, x))
             && (forall x: nat :: FreeByte(u, x) <==> FreeByte(t, x) && !block.Has(x))
    ensures b !in live && LiveOk(u, live + {b}, words[b := size])
  {
    hide FreeByte, Tame, Full;
    var w := words[b := size];
    var block := Slot(b, Full(size));
    assert block == BlockOf(w, b);
    TameSizes(size);
    assert block.Has(b);
    forall c | c in live ensures BlockOf(words, c).Has(c) { TameSizes(words[c]); }
    forall c | c in live
      ensures c in words && BlockOf(w, c) == BlockOf(words, c) && !Overlapping(BlockOf(words, c), block)
    {
    }
  }

  /** A block no longer in use may become free. */
  lemma LiveRemoves(t: seq<Slot>, u: seq<Slot>, live: set<nat>, words: map<nat, nat>, b: nat)
    requires LiveOk(t, live, words) && b in live
    requires forall x: nat | FreeByte(u, x) :: FreeByte(t, x) || BlockOf(words, b).Has(x)
    ensures LiveOk(u, live - {b}, words)
  {
    hide FreeByte, Tame, Full;
    forall c, x: nat | c in live - {b} && BlockOf(words, c).Has(x) ensures !FreeByte(u, x) {
      assert !Overlapping(BlockOf(words, b), BlockOf(words, c));
    }
  }

  /** The region at i without its first n bytes. */
  function Cut(t: seq<Slot>, i: nat, n: nat): (u: seq<Slot>)
    requires i < |t| && n <= t[i].length
  {
    t[i := Slot(t[i].base + n, t[i].length - n)]
  }

  lemma CutKeeps(t: seq<Slot>, count: nat, i: nat, n: nat)
    requires i < count && Bounded(t, count) && Disjoint(t) && Aligned(t) && n % 8 == 0 && n < t[i].length
    ensures Bounded(Cut(t, i, n), count) && Disjoint(Cut(t, i, n)) && Aligned(Cut(t, i, n))
    ensures Coalesced(t) ==> Coalesced(Cut(t, i, n))
    ensures IsAligned(t[i])
  {
    assert t[i].base % 8 == 0 && t[i].length % 8 == 0;
    AlignedCut(t[i], n);
    AlignedPut(t, i, Slot(t[i].base + n, t[i].length - n));
  }

  lemma AlignedCut(a: Slot, n: nat)
    requires IsAligned(a) && n % 8 == 0 && n < a.length
    ensures IsAligned(Slot(a.base + n, a.length - n))
  {
    MultipleDifference(a.length, n);
  }

  lemma CutBytes(t: seq<Slot>, i: nat, n: nat)
    requires i < |t| && Disjoint(t) && n < t[i].length
    ensures forall x: nat | Slot(t[i].base, n).Has(x) :: FreeByte(t, x)
    ensures forall x: nat :: FreeByte(Cut(t, i, n), x) <==> FreeByte(t, x) && !Slot(t[i].base, n).Has(x)
  {
    var u := Cut(t, i, n);
    forall x: nat ensures FreeByte(u, x) <==> FreeByte(t, x) && !Slot(t[i].base, n).Has(x) {
      if k :| 0 <= k < |t| && t[k].Has(x) {
        if !Slot(t[i].base, n).Has(x) { assert u[k].Has(x); }
      }
      if k :| 0 <= k < |u| && u[k].Has(x) {
        assert t[k].Has(x);
        assert k != i ==> t[k].End() <= t[i].base || t[i].End() <= t[k].base;
      }
    }
    forall x: nat | Slot(t[i].base, n).Has(x) ensures FreeByte(t, x) { assert t[i].Has(x); }
  }

  // ----- The seed pages -----

  ghost predicate Seeded(t: seq<Slot>, count: nat, va: nat) {
    && |t| > 4 && count == 4
    && (forall k | 0 <= k < 4 :: t[k] == Slot(va + k * 0x1000, 0x1000))
    && (forall k | 4 <= k < |t| :: t[k] == EMPTY)
  }

  lemma SeedTable(t: seq<Slot>, va: nat)
    requires Seeded(t, 4, va) && va % 0x1000 == 0 && va >= LOWEST
    ensures Bounded(t, 4) && Disjoint(t) && Aligned(t)
    ensures forall x: nat :: FreeByte(t, x) <==> va <= x < va + 0x4000
  {
    forall k | 0 <= k < 4 ensures t[k].base % 8 == 0 {
      PageAligned(t[k].base);
    }
    forall x: nat ensures FreeByte(t, x) <==> va <= x < va + 0x4000 {
      if va <= x < va + 0x4000 {
        assert t[(x - va) / 0x1000].Has(x);
      }
    }
  }

  lemma FullAligned(size: nat)
    ensures Full(size) % 8 == 0
  {
  }

  /** kfree recomputes the block's size from its header. */
  lemma HeaderGivesSize(t: seq<Slot>, live: set<nat>, words: map<nat, nat>, b: nat)
    requires LiveOk(t, live, words) && b in live
    ensures b in words && Full(words[b]) > 0 && IsAligned(BlockOf(words, b))
    ensures (words[b] + 8) % (SIZE_MAX + 1) == words[b] + 8
  {
    hide FreeByte, Full, Tame;
    TameSizes(words[b]);
    FullAligned(words[b]);
  }

  /** A block in use can take an empty slot. */
  lemma PlaceBlock(t: seq<Slot>, live: set<nat>, words: map<nat, nat>, b: nat, i: nat)
    requires LiveOk(t, live, words) && b in live && Disjoint(t) && Aligned(t) && i < |t| && t[i].Empty()
    ensures b in words && var u := t[i := BlockOf(words, b)];
            Disjoint(u) && Aligned(u) && forall x: nat :: FreeByte(u, x) <==> FreeByte(t, x) || BlockOf(words, b).Has(x)
  {
    hide Full, Tame;
    HeaderGivesSize(t, live, words, b);
    var n := BlockOf(words, b);
    AlignedPut(t, i, n);
    PutFree(t, i, n);
    forall k | 0 <= k < |t| && !t[k].Empty() ensures t[k].End() <= n.base || n.End() <= t[k].base {
      NoCommonByte(t, k, n);
    }
  }

  lemma NoCommonByte(t: seq<Slot>, k: nat, n: Slot)
    requires k < |t| && !t[k].Empty() && forall x: nat | n.Has(x) :: !FreeByte(t, x)
    ensures t[k].End() <= n.base || n.End() <= t[k].base || n.Empty()
  {
    assert t[k].Has(t[k].base) && FreeByte(t, t[k].base) && !n.Has(t[k].base);
    assert t[k].Has(n.base) ==> FreeByte(t, n.base) && !n.Has(n.base);
  }

  ghost predicate StillSeeded(t: seq<Slot>, count: nat) {
    exists va: nat :: va % 0x1000 == 0 && va >= LOWEST && Seeded(t, count, va)
  }

  // ----- Bytes before and after an allocation -----

  function BlockFor(r: Option<nat>, size: nat): Slot {
    if r.Some? && r.value >= 8 then Slot(r.value - 8, Full(size)) else EMPTY
  }

  /** The range touches a free byte. */
  ghost predicate Touches(t: seq<Slot>, n: Slot) { (n.base > 0 && FreeByte(t, n.base - 1)) || FreeByte(t, n.End()) }

  /**
   The free bytes of u and the block come from those of t and the grant, and all of these are there unless some are
   lost.
   */
  ghost predicate Accounted(t: seq<Slot>, u: seq<Slot>, block: Slot, grant: Slot, lost: bool) {
    && (forall x: nat | FreeByte(u, x) || block.Has(x) :: FreeByte(t, x) || grant.Has(x))
    && (!lost <==> forall x: nat | FreeByte(t, x) || grant.Has(x) :: FreeByte(u, x) || block.Has(x))
  }

  lemma AccountedSame(t: seq<Slot>, u: seq<Slot>)
    ensures SameFree(t, u) ==> Accounted(t, u, EMPTY, EMPTY, false)
    ensures Accounted(t, t, EMPTY, EMPTY, false)
  {
    hide FreeByte;
  }

  lemma AccountedGrown(t: seq<Slot>, g: seq<Slot>, u: seq<Slot>, n: Slot, grew: bool, lost: bool)
    requires SameFree(g, u) && (!grew ==> g == t)
    requires grew ==> (forall x: nat | FreeByte(g, x) :: FreeByte(t, x) || n.Has(x)) && (Gained(t, g, n) <==> !lost)
    ensures Accounted(t, u, EMPTY, if grew then n else EMPTY, grew && lost)
  {
    hide FreeByte;
  }

  lemma AccountedCut(t: seq<Slot>, u: seq<Slot>, v: seq<Slot>, block: Slot, grant: Slot, lost: bool)
    requires Accounted(t, u, EMPTY, grant, lost) && forall x: nat | block.Has(x) :: FreeByte(u, x)
    requires forall x: nat :: FreeByte(v, x) <==> FreeByte(u, x) && !block.Has(x)
    ensures Accounted(t, v, block, grant, lost)
  {
    hide FreeByte;
  }

  lemma AccountedBack(t: seq<Slot>, u: seq<Slot>, v: seq<Slot>, block: Slot, grant: Slot, lost: bool)
    requires Accounted(t, u, block, grant, lost) && Gained(u, v, block)
    ensures Accounted(t, v, EMPTY, grant, lost)
  {
    hide FreeByte;
  }

  // ----- Free bytes in one piece -----

  /** The free bytes are the ones from slot 0's base to hi. */
  ghost predicate OnePiece(t: seq<Slot>, hi: nat) {
    t != [] && !t[0].Empty() && forall x: nat :: FreeByte(t, x) <==> t[0].base <= x < hi
  }

  /** The search stops at slot 0. */
  lemma PieceFirst(t: seq<Slot>, count: nat, hi: nat, i: nat, size: nat, merged: seq<bool>, need: nat)
    requires OnePiece(t, hi) && Run(t, count, i, size, merged) && 0 < need <= size
    requires i > 0 ==> !FreeRun(t, t[0].base, need)
    ensures i == 0
  {
    RunIsFree(t, count, i, size, merged, need);
    assert FreeByte(t, t[i].base) && FreeByte(t, t[i].base + need - 1);
  }

  /** A region that is not merged would begin where the run ends. */
  lemma PieceMerged(t: seq<Slot>, count: nat, hi: nat, size: nat, merged: seq<bool>, k: nat)
    requires OnePiece(t, hi) && Run(t, count, 0, size, merged) && Complete(t, count, 0, size, merged)
    requires Disjoint(t) && Bounded(t, count) && k < |t| && !t[k].Empty()
    ensures merged[k]
  {
    var e := t[0].base + size;
    if !merged[k] {
      assert t[k].Has(t[k].base);
      assert FreeByte(t, t[k].base);
      RunMisses(t, count, 0, size, merged, k, t[k].base);
      assert FreeByte(t, e);
      var l :| 0 <= l < |t| && t[l].Has(e);
      assert MergedByte(t, merged, e - 1) && !MergedByte(t, merged, e);
      RunMisses(t, count, 0, size, merged, l, if t[l].base < e then e - 1 else e);
      assert false;
    }
  }

  /** An allocation from free bytes in one piece leaves no two regions touching. */
  lemma PieceUsed(t: seq<Slot>, count: nat, hi: nat, i: nat, size: nat, merged: seq<bool>, need: nat)
    requires OnePiece(t, hi) && Disjoint(t) && Bounded(t, count)
    requires Run(t, count, i, size, merged) && Complete(t, count, i, size, merged) && 0 < need <= size
    requires forall k | 0 <= k < i :: t[k].Empty() || !FreeRun(t, t[k].base, need)
    ensures i < |t| == |merged| && Coalesced(Collapsed(t, i, size, merged))
  {
    PieceFirst(t, count, hi, i, size, merged, need);
    forall k | 0 <= k < |t| && !t[k].Empty() ensures merged[k] { PieceMerged(t, count, hi, size, merged, k); }
  }

  lemma SeedPiece(t: seq<Slot>, count: nat)
    requires StillSeeded(t, count)
    ensures t != [] && OnePiece(t, t[0].base + 0x4000)
  {
    var va: nat :| va % 0x1000 == 0 && va >= LOWEST && Seeded(t, count, va);
    SeedTable(t, va);
  }
}
