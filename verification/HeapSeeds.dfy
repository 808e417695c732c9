/** Growing a heap that still has only its seed pages, four regions that touch, and requests of whole pages. */
module HeapSeeds {
  import opened HeapBlocks
  import opened HeapGrowth
  import opened HeapStale
  import opened HeapTable

  const PAGE: nat := 0x1000

  /** The table with regions in the first slots and nothing after them. */
  function Table(regions: seq<Slot>, size: nat): (t: seq<Slot>)
    requires |regions| <= size
    ensures |t| == size && forall k | 0 <= k < size :: t[k] == if k < |regions| then regions[k] else EMPTY
  {
    seq(size, k requires 0 <= k < size => if k < |regions| then regions[k] else EMPTY)
  }

  /** The granted range is no part of the seed pages. */
  predicate Beside(n: Slot, va: nat) { n.End() <= va || va + 4 * PAGE <= n.base }

  function Seeds(va: nat): seq<Slot> {
    [Slot(va, PAGE), Slot(va + PAGE, PAGE), Slot(va + 2 * PAGE, PAGE), Slot(va + 3 * PAGE, PAGE)]
  }

  /** The regions the seeds and a range beside them become: one, three, or the five of them. */
  function Regions(n: Slot, va: nat): (r: seq<Slot>)
    ensures |r| <= 5
  {
    if n.End() == va then [Slot(n.base, n.length + 4 * PAGE)]
    else if n.base == va + 4 * PAGE then
      [Slot(va, PAGE), Slot(va + PAGE, PAGE), Slot(va + 2 * PAGE, 2 * PAGE + n.length)]
    else Seeds(va) + [n]
  }

  function Grown(t: seq<Slot>, n: Slot, va: nat): (r: (seq<Slot>, nat))
    requires |t| > 4
  {
    (Table(Regions(n, va), |t|), |Regions(n, va)|)
  }

  /** A range just before the seeds: all become one region. */
  lemma GrowsBefore(t: seq<Slot>, n: Slot, va: nat)
    requires Seeded(t, 4, va) && n.End() == va
    ensures ForceFreed(t, 4, n) == Grown(t, n, va)
  {
    var h1, h2, h3, h4 := Slot(n.base, n.length + PAGE), Slot(n.base, n.length + 2 * PAGE),
                          Slot(n.base, n.length + 3 * PAGE), Slot(n.base, n.length + 4 * PAGE);
    assert FirstMeeting(t, 4, n, 0) == 0;
    var t1 := Table([h1, t[1], t[2], t[3]], |t|);
    assert t[0 := Hull(t[0], n)] == t1;
    var t2 := Table([h2, t[2], t[3]], |t|);
    assert RemovedIn(t1[0 := Hull(t1[0], t1[1])], 4, 1) == t2;
    var t3 := Table([h3, t[3]], |t|);
    assert RemovedIn(t2[0 := Hull(t2[0], t2[1])], 3, 1) == t3;
    var t4 := Table([h4], |t|);
    assert RemovedIn(t3[0 := Hull(t3[0], t3[1])], 2, 1) == t4;
    assert Absorbing(t1, 4, 0, 0, 0) == Absorbing(t1, 4, 0, 0, 1) == Absorbing(t2, 3, 0, 0, 1);
    assert Absorbing(t2, 3, 0, 0, 1) == Absorbing(t3, 2, 0, 0, 1) == Absorbing(t4, 1, 0, 0, 1) == (t4, 1);
  }

  /** A range just behind the seeds: the pointer is left at an empty slot after the first join. */
  lemma GrowsBehind(t: seq<Slot>, n: Slot, va: nat)
    requires Seeded(t, 4, va) && n.base == va + 4 * PAGE && !n.Empty()
    ensures ForceFreed(t, 4, n) == Grown(t, n, va)
  {
    assert FirstMeeting(t, 4, n, 0) == 3 by {
      assert FirstMeeting(t, 4, n, 1) == FirstMeeting(t, 4, n, 2) == FirstMeeting(t, 4, n, 3) == 3;
    }
    var h1, h2 := Slot(va + 3 * PAGE, PAGE + n.length), Slot(va + 2 * PAGE, 2 * PAGE + n.length);
    var t1 := Table([t[0], t[1], t[2], h1], |t|);
    assert t[3 := Hull(t[3], n)] == t1;
    var t2 := Table([t[0], t[1], h2], |t|);
    assert RemovedIn(t1[3 := Hull(t1[3], t1[2])], 4, 2) == t2;
    assert Absorbing(t1, 4, 3, 3, 0) == Absorbing(t1, 4, 3, 3, 1) == Absorbing(t1, 4, 3, 3, 2);
    assert Absorbing(t1, 4, 3, 3, 2) == Absorbing(t2, 3, 3, 2, 2) == Absorbing(t2, 3, 3, 2, 3) == (t2, 3);
  }

  lemma GrowsApart(t: seq<Slot>, n: Slot, va: nat)
    requires Seeded(t, 4, va) && Beside(n, va) && n.End() != va && n.base != va + 4 * PAGE
    ensures ForceFreed(t, 4, n) == Grown(t, n, va)
  {
    assert FirstMeeting(t, 4, n, 0) == 4 by {
      assert FirstMeeting(t, 4, n, 1) == FirstMeeting(t, 4, n, 2) == FirstMeeting(t, 4, n, 3) == 4;
    }
    assert t[4 := n] == Table(Seeds(va) + [n], |t|);
  }

  /** Behind the seeds, with a region elsewhere: the pointer is left at that region, which takes itself in. */
  lemma GrowsOver(size: nat, n: Slot, m: Slot, va: nat)
    requires size > 5 && va > 0 && m.base == va + 4 * PAGE && !m.Empty() && !n.Empty()
    requires n.End() < va || m.End() < n.base
    ensures ForceFreed(Table(Seeds(va) + [n], size), 5, m) == (Table(Regions(m, va), size), 3)
  {
    var t := Table(Seeds(va) + [n], size);
    assert t[3] == Slot(va + 3 * PAGE, PAGE) && t[4] == n;
    assert FirstMeeting(t, 5, m, 0) == 3 by {
      assert FirstMeeting(t, 5, m, 1) == FirstMeeting(t, 5, m, 2) == FirstMeeting(t, 5, m, 3) == 3;
    }
    var h1, h2 := Slot(va + 3 * PAGE, PAGE + m.length), Slot(va + 2 * PAGE, 2 * PAGE + m.length);
    var t1 := Table([t[0], t[1], t[2], h1, n], size);
    assert t[3 := Hull(t[3], m)] == t1;
    var t2 := Table([t[0], t[1], h2, n], size);
    assert RemovedIn(t1[3 := Hull(t1[3], t1[2])], 5, 2) == t2;
    var t3 := Table([t[0], t[1], h2], size);
    assert RemovedIn(t2[3 := Hull(t2[3], t2[3])], 4, 3) == t3;
    assert Absorbing(t1, 5, 3, 3, 0) == Absorbing(t1, 5, 3, 3, 1) == Absorbing(t1, 5, 3, 3, 2);
    assert Absorbing(t1, 5, 3, 3, 2) == Absorbing(t2, 4, 3, 2, 2) == Absorbing(t2, 4, 3, 2, 3);
    assert Absorbing(t2, 4, 3, 2, 3) == Absorbing(t3, 3, 3, 2, 3) == (t3, 3);
  }

  /** A range that touches the seed pages joins their bytes into one piece. */
  lemma TouchedSeeds(t: seq<Slot>, count: nat, n: Slot)
    requires StillSeeded(t, count) && IsAligned(n) && !n.Empty() && Separate(t, n)
    requires Touches(t, n)
    ensures count <= |t| && exists hi: nat :: OnePiece(ForceFreed(t, count, n).0, hi)
  {
    var va: nat :| va % 0x1000 == 0 && va >= LOWEST && Seeded(t, count, va);
    SeedTable(t, va);
    assert n.Has(n.base) && n.Has(n.End() - 1);
    var hi := if n.End() == va then va + 4 * PAGE else n.End();
    if n.End() == va { GrowsBefore(t, n, va); } else { GrowsBehind(t, n, va); }
    RegionsPiece(n, va, hi);
    hide ForceFreed, Seeded, Regions, FreeByte, InSome;
    TableBytes(Regions(n, va), |t|);
    assert OnePiece(Table(Regions(n, va), |t|), hi);
  }

  lemma RegionsPiece(n: Slot, va: nat, hi: nat)
    requires (n.End() == va && hi == va + 4 * PAGE) || (n.base == va + 4 * PAGE && hi == n.End())
    ensures Regions(n, va) != [] && !Regions(n, va)[0].Empty()
    ensures forall x: nat :: InSome(Regions(n, va), x) <==> Regions(n, va)[0].base <= x < hi
  {
    var r := Regions(n, va);
    forall x: nat ensures InSome(r, x) <==> r[0].base <= x < hi {
      assert |r| == 3 ==> r[1].base == va + PAGE && r[2].base == va + 2 * PAGE;
      if r[0].base <= x < hi { assert r[0].Has(x) || (|r| == 3 && (r[1].Has(x) || r[2].Has(x))); }
    }
  }

  ghost predicate InSome(regions: seq<Slot>, x: nat) { exists k :: 0 <= k < |regions| && regions[k].Has(x) }

  lemma TableBytes(regions: seq<Slot>, size: nat)
    requires |regions| <= size
    ensures forall x: nat :: FreeByte(Table(regions, size), x) <==> InSome(regions, x)
  {
    var t := Table(regions, size);
    forall x: nat ensures FreeByte(t, x) <==> InSome(regions, x) {
      if k :| 0 <= k < |regions| && regions[k].Has(x) { assert t[k].Has(x); }
      if k :| 0 <= k < |t| && t[k].Has(x) { assert regions[k].Has(x); }
    }
  }

  /** Four seed pages, and regions that touch neither these nor one another. */
  ghost predicate SeedsAnd(t: seq<Slot>, count: nat, va: nat) {
    && Sound(t, count) && 4 <= count <= |t| && va >= LOWEST
    && (forall k | 0 <= k < 4 :: t[k] == Seeds(va)[k])
    && (forall k, l | 4 <= k < count && 0 <= l < count && l != k && !t[k].Empty() && !t[l].Empty() :: Apart(t[k], t[l]))
  }

  lemma FirstFour(t: seq<Slot>, count: nat, va: nat)
    requires SeedsAnd(t, count, va)
    ensures 4 <= count <= |t| && va > 0 && t[0] == Slot(va, PAGE) && t[1] == Slot(va + PAGE, PAGE)
    ensures t[2] == Slot(va + 2 * PAGE, PAGE) && t[3] == Slot(va + 3 * PAGE, PAGE)
  {
    assert t[0] == Seeds(va)[0] && t[1] == Seeds(va)[1] && t[2] == Seeds(va)[2] && t[3] == Seeds(va)[3];
  }

  /** The one slot taken in: the third seed, by the pointer at the fourth. */
  lemma BehindSeeds(t: seq<Slot>, count: nat, va: nat, n: Slot)
    requires SeedsAnd(t, count, va) && n.base == va + 4 * PAGE && !n.Empty()
    ensures count <= |t| && FirstMeeting(t, count, n, 0) == 3 && Earlier(t, count, n) == 1
  {
    FirstFour(t, count, va);
    hide SeedsAnd;
    assert FirstMeeting(t, count, n, 0) == 3 by {
      assert FirstMeeting(t, count, n, 1) == FirstMeeting(t, count, n, 2) == FirstMeeting(t, count, n, 3) == 3;
    }
    var m := t[3 := Hull(t[3], n)];
    assert m[3] == Slot(va + 3 * PAGE, PAGE + n.length);
    hide Hull, TakenIn;
    OneTaken(m, count);
  }

  lemma OneTaken(m: seq<Slot>, count: nat)
    requires 4 <= count <= |m| && Apart(m[0], m[3]) && Apart(m[1], m[3]) && !Apart(m[2], m[3])
    ensures Reaching(m, count, 3, 3, 0).1 == count - 1
  {
    hide TakenIn;
    assert Reaching(m, count, 3, 3, 0) == Reaching(m, count, 3, 3, 1) == Reaching(m, count, 3, 3, 2);
    var u := TakenIn(m, count, 3, 2);
    assert Reaching(m, count, 3, 3, 2) == Reaching(u, count - 1, 3, 2, 2);
    assert Reaching(u, count - 1, 3, 2, 2) == Reaching(u, count - 1, 3, 2, 3) == (u, count - 1, 2);
  }

  /** A range beside the seeds but not directly behind them meets the first of them or none. */
  lemma Beyond(t: seq<Slot>, count: nat, va: nat, n: Slot)
    requires SeedsAnd(t, count, va) && !n.Empty() && Separate(t, n) && n.base != va + 4 * PAGE
    ensures count <= |t| && var i := FirstMeeting(t, count, n, 0); i == 0 || 4 <= i
  {
    FirstFour(t, count, va);
    hide SeedsAnd, Separate;
    Misses(t, 0, n);
    Misses(t, 1, n);
    Misses(t, 2, n);
    Misses(t, 3, n);
  }

  lemma OtherApart(t: seq<Slot>, count: nat, va: nat, i: nat, j: nat)
    requires SeedsAnd(t, count, va) && 4 <= i < count && j < i && !t[i].Empty()
    ensures Apart(t[j], t[i])
  {
    if t[j].Empty() { assert t[j] == EMPTY; }
  }

  /** On such a table force_free loses bytes exactly for a range directly behind the seeds, when there are others. */
  lemma SeedsLoseIff(t: seq<Slot>, count: nat, va: nat, n: Slot)
    requires SeedsAnd(t, count, va) && IsAligned(n) && !n.Empty() && Separate(t, n)
    ensures count <= |t|
    ensures Loses(t, count, n) <==> n.base == va + 4 * PAGE && exists k :: 4 <= k < count && !t[k].Empty()
  {
    SoundAligned(t, count, va);
    hide SeedsAnd, Aligned, Separate, FirstMeeting, Earlier, Apart;
    if n.base == va + 4 * PAGE {
      BehindSeeds(t, count, va, n);
    } else {
      var i := FirstMeeting(t, count, n, 0);
      Beyond(t, count, va, n);
      if i < count {
        MetIsRegion(t, i, n);
        forall j | 0 <= j < i ensures Apart(t[j], t[i]) { OtherApart(t, count, va, i, j); }
      }
      FirstMetKeeps(t, count, n);
    }
  }

  lemma SoundAligned(t: seq<Slot>, count: nat, va: nat)
    requires SeedsAnd(t, count, va)
    ensures Aligned(t) && 4 <= count <= |t|
  {
  }

  /** With only the seeds there is nothing to lose. */
  lemma SeedsKeep(t: seq<Slot>, count: nat, n: Slot)
    requires StillSeeded(t, count) && Sound(t, count) && IsAligned(n) && !n.Empty() && Separate(t, n)
    ensures count <= |t| && !Loses(t, count, n)
  {
    var va: nat :| va % 0x1000 == 0 && va >= LOWEST && Seeded(t, count, va);
    assert SeedsAnd(t, count, va);
    SeedsLoseIff(t, count, va, n);
  }

  // ----- Requests of whole pages -----

  /** The pages granted have room for the eight bytes more that the search asks for, unless the block is whole pages. */
  lemma GrantSuffices(size: nat)
    requires Tame(size)
    ensures Full(size) % PAGE != 0 ==> Need(size) <= Pages(size) * PAGE
    ensures Full(size) % PAGE == 0 ==> Pages(size) * PAGE == Full(size) && Need(size) == Full(size) + 8
  {
    hide Full, Need;
    TameSizes(size);
    FullAligned(size);
    RoundedUp(Full(size));
  }

  lemma RoundedUp(n: nat)
    requires n % 8 == 0
    ensures var up := (n + 0xFFF) / 0x1000 * 0x1000; if n % 0x1000 == 0 then up == n else n + 8 <= up
  {
    var q, r := n / 0x1000, n % 0x1000;
    assert n == 0x1000 * q + r;
    if r == 0 {
      assert (n + 0xFFF) / 0x1000 == q;
    } else {
      assert (n + 0xFFF) / 0x1000 == q + 1;
      assert r % 8 == 0;
    }
  }

  /** A table with no run of n + 8 bytes has one with n bytes more exactly when these touch a region of it. */
  lemma RunBeside(t: seq<Slot>, u: seq<Slot>, va: nat, n: nat, m: nat)
    requires Aligned(t) && Gained(t, u, Slot(va, n)) && va % 8 == 0 && va > 0 && n % 8 == 0 && m == n + 8
    requires forall s: nat :: !FreeRun(t, s, m)
    ensures (exists s: nat :: FreeRun(u, s, m)) <==> FreeByte(t, va - 1) || FreeByte(t, va + n)
  {
    if FreeByte(t, va - 1) {
      EightBefore(t, va);
      assert FreeRun(u, va - 8, m);
    }
    if FreeByte(t, va + n) {
      EightAfter(t, va + n);
      assert FreeRun(u, va, m);
    }
    if s: nat :| FreeRun(u, s, m) {
      assert !FreeRun(t, s, m);
      var x: nat :| s <= x < s + m && !FreeByte(t, x);
      assert FreeByte(u, x) && Slot(va, n).Has(x);
      assert s < va ==> FreeByte(u, va - 1);
      assert s >= va ==> FreeByte(u, va + n);
    }
  }

  lemma EightBefore(t: seq<Slot>, a: nat)
    requires Aligned(t) && a % 8 == 0 && a > 0 && FreeByte(t, a - 1)
    ensures a >= 8 && forall x: nat | a - 8 <= x < a :: FreeByte(t, x)
  {
    var k :| 0 <= k < |t| && t[k].Has(a - 1);
    assert t[k].base <= a - 8;
    forall x: nat | a - 8 <= x < a ensures FreeByte(t, x) { assert t[k].Has(x); }
  }

  lemma EightAfter(t: seq<Slot>, a: nat)
    requires Aligned(t) && a % 8 == 0 && FreeByte(t, a)
    ensures forall x: nat | a <= x < a + 8 :: FreeByte(t, x)
  {
    var k :| 0 <= k < |t| && t[k].Has(a);
    assert t[k].End() >= a + 8;
    forall x: nat | a <= x < a + 8 ensures FreeByte(t, x) { assert t[k].Has(x); }
  }

  /** When the pages the heap grew by are enough for the request. */
  lemma GrantUse(t: seq<Slot>, u: seq<Slot>, va: nat, size: nat, lost: bool)
    requires Aligned(t) && Tame(size) && va % PAGE == 0 && va >= LOWEST
    requires forall x: nat | Grant(va, size).Has(x) :: FreeByte(u, x)
    requires !lost ==> Gained(t, u, Grant(va, size))
    requires forall s: nat :: !FreeRun(t, s, Need(size))
    ensures Full(size) % PAGE != 0 ==> FreeRun(u, va, Need(size))
    ensures Full(size) % PAGE == 0 && !lost ==>
              ((exists s: nat :: FreeRun(u, s, Need(size))) <==> Touches(t, Grant(va, size)))
  {
    hide Full, Need, Aligned, FreeByte, Tame;
    GrantSuffices(size);
    FullAligned(size);
    PageAligned(va);
    if Full(size) % PAGE == 0 && !lost { RunBeside(t, u, va, Full(size), Need(size)); }
  }

  /** The seed pages, grown or not by pages that touch them, have their bytes in one piece. */
  lemma SeedsInOnePiece(t: seq<Slot>, count: nat, g: seq<Slot>, grew: bool, n: Slot) returns (hi: nat)
    requires StillSeeded(t, count) && count <= |t|
    requires !grew ==> g == t
    requires grew ==> IsAligned(n) && !n.Empty() && Separate(t, n) && Touches(t, n) && g == ForceFreed(t, count, n).0
    ensures OnePiece(g, hi)
  {
    hide StillSeeded, OnePiece, ForceFreed, Touches, Separate;
    if grew {
      TouchedSeeds(t, count, n);
      hi :| OnePiece(g, hi);
    } else {
      SeedPiece(t, count);
      hi := t[0].base + 0x4000;
    }
  }

  lemma SeedsTouch(t: seq<Slot>, count: nat)
    requires StillSeeded(t, count)
    ensures !Coalesced(t)
  {
    assert t[0].End() == t[1].base && !t[0].Empty() && !t[1].Empty();
  }

  lemma GrantAligned(va: nat, size: nat)
    requires va % 0x1000 == 0 && va >= LOWEST && Tame(size)
    ensures IsAligned(Grant(va, size)) && !Grant(va, size).Empty()
  {
    hide Full;
    TameSizes(size);
    PageAligned(va);
    PageAligned(Pages(size) * 0x1000);
  }

  /** An allocation from them leaves no two regions touching. */
  lemma SeedRoom(t: seq<Slot>, before: nat, g: seq<Slot>, grew: bool, n: Slot, count: nat, i: nat, size: nat,
                 merged: seq<bool>, need: nat)
    requires StillSeeded(t, before) && before <= |t| && (!grew ==> g == t)
    requires grew ==> IsAligned(n) && !n.Empty() && Separate(t, n) && Touches(t, n) && g == ForceFreed(t, before, n).0
    requires Disjoint(g) && Bounded(g, count) && 0 < need <= size
    requires Run(g, count, i, size, merged) && Complete(g, count, i, size, merged)
    requires forall k | 0 <= k < i :: g[k].Empty() || !FreeRun(g, g[k].base, need)
    ensures i < |g| == |merged| && Coalesced(Collapsed(g, i, size, merged))
  {
    hide *;
    var hi := SeedsInOnePiece(t, before, g, grew, n);
    PieceUsed(g, count, hi, i, size, merged, need);
  }
}
