/** The kernel heap: first fit over the region table, with sorting and joining on every free. */
module Heap {
  import opened Common
  import opened HeapBlocks
  import opened HeapGrowth
  import opened HeapSeeds
  import opened HeapStale
  import opened HeapTable

  class KernelHeap {
    const slots: array<Slot>
    var count: nat
    // The words kmalloc writes before its blocks, and the header addresses of the blocks in use.
    var words: map<nat, nat>
    ghost var live: set<nat>

    /** Four seed pages at va, one slot each. */
    constructor (va: nat)
      requires va % 0x1000 == 0 && va >= LOWEST
      ensures fresh(slots) && Valid() && live == {} && Seeded(slots[..], count, va)
      ensures forall x: nat :: FreeByte(slots[..], x) <==> va <= x < va + 0x4000
    {
      slots := new Slot[SLOTS](k => if k < 4 then Slot(va + k * 0x1000, 0x1000) else EMPTY);
      count := 4;
      words := map[];
      live := {};
      new;
      SeedTable(slots[..], va);
    }

    /** The table is sound, and every block in use is apart from the free bytes and from the others. */
    ghost predicate Valid()
      reads this, slots
    {
      && slots.Length == SLOTS && Bounded(slots[..], count) && Disjoint(slots[..]) && Aligned(slots[..])
      && LiveOk(slots[..], live, words)
    }

    /** Brings the regions to the front, by address. */
    method Sort()
      requires slots.Length == SLOTS && Disjoint(slots[..]) && Aligned(slots[..])
      modifies slots
      ensures Sorted(slots[..]) && Disjoint(slots[..]) && Aligned(slots[..]) && SameFree(old(slots[..]), slots[..])
    {
      hide Disjoint, Aligned, SameFree, FreeByte;
      ghost var t0 := slots[..];
      SameFreeReflexive(t0);
      for i := 0 to SLOTS - 1
        invariant Disjoint(slots[..]) && Aligned(slots[..]) && SameFree(t0, slots[..])
        invariant forall a, b | 0 <= a < i && a < b < SLOTS :: Before(slots[a], slots[b])
      {
        for j := i + 1 to SLOTS
          invariant Disjoint(slots[..]) && Aligned(slots[..]) && SameFree(t0, slots[..])
          invariant forall a, b | 0 <= a < i && a < b < SLOTS :: Before(slots[a], slots[b])
          invariant forall b | i < b < j :: Before(slots[i], slots[b])
        {
          if slots[j].length == 0 { continue; }
          if slots[i].length == 0 || slots[j].base < slots[i].base {
            ghost var t := slots[..];
            slots[i], slots[j] := slots[j], slots[i];
            assert slots[..] == Swapped(t, i, j);
            SwapKeeps(t, i, j);
            SameFreeTransitive(t0, t, slots[..]);
          }
        }
      }
    }

    /** Drops slot j, moving the later ones down and emptying the last. */
    method DropSlot(j: nat)
      requires slots.Length == SLOTS && j < SLOTS
      modifies slots
      ensures slots[..] == Dropped(old(slots[..]), j)
    {
      for k := j to SLOTS - 1
        invariant forall a | 0 <= a < SLOTS && !(j <= a < k) :: slots[a] == old(slots[a])
        invariant forall a | j <= a < k :: slots[a] == old(slots[a + 1])
      {
        slots[k] := slots[k + 1];
      }
      slots[SLOTS - 1] := EMPTY;
    }

    /** Joins touching regions of a sorted table. */
    method Merge()
      requires slots.Length == SLOTS && Sorted(slots[..]) && Disjoint(slots[..]) && Aligned(slots[..])
      modifies slots
      ensures Sorted(slots[..]) && Coalesced(slots[..]) && Disjoint(slots[..]) && Aligned(slots[..])
      ensures SameFree(old(slots[..]), slots[..])
    {
      hide Disjoint, Aligned, SameFree, FreeByte, Sorted, SettledBefore, Coalesced;
      ghost var t0 := slots[..];
      SameFreeReflexive(t0);
      NothingSettled(t0);
      for i := 0 to SLOTS - 1
        invariant Sorted(slots[..]) && Disjoint(slots[..]) && Aligned(slots[..]) && SameFree(t0, slots[..])
        invariant SettledBefore(slots[..], i)
      {
        MergeRow(i, t0);
        SettledRowEnds(slots[..], i);
      }
      SettledIsCoalesced(slots[..]);
    }

    /** Grows region i over every region it touches. */
    method MergeRow(i: nat, ghost t0: seq<Slot>)
      requires slots.Length == SLOTS && i < SLOTS - 1
      requires Sorted(slots[..]) && Disjoint(slots[..]) && Aligned(slots[..]) && SameFree(t0, slots[..])
      requires SettledBefore(slots[..], i)
      modifies slots
      ensures Sorted(slots[..]) && Disjoint(slots[..]) && Aligned(slots[..]) && SameFree(t0, slots[..])
      ensures SettledBefore(slots[..], i) && SettledRow(slots[..], i, SLOTS)
    {
      hide Disjoint, Aligned, SameFree, FreeByte, Sorted, SettledBefore, Packed;
      if slots[i].length == 0 {
        EmptyRowSettled(slots[..], i);
        return;
      }
      ghost var c: nat := SortedIsPacked(slots[..]);
      var j := i + 1;
      while j < SLOTS
        invariant i < j <= SLOTS && !slots[i].Empty() && Packed(slots[..], c)
        invariant Sorted(slots[..]) && Disjoint(slots[..]) && Aligned(slots[..]) && SameFree(t0, slots[..])
        invariant SettledBefore(slots[..], i) && SettledRow(slots[..], i, j)
        decreases c + SLOTS - j
      {
        ghost var t := slots[..];
        if slots[j].length != 0 && slots[i].base + slots[i].length == slots[j].base {
          JoinInOrder(t, i, j, c);
          JoinKeeps(t, i, j);
          slots[i] := Slot(slots[i].base, slots[i].length + slots[j].length);
          assert slots[..] == t[i := Slot(t[i].base, t[i].length + t[j].length)];
          DropSlot(j);
          SameFreeTransitive(t0, t, slots[..]);
          c := c - 1;
        } else {
          RowAdvances(t, i, j);
          j := j + 1;
        }
      }
    }

    /** The run of touching regions that starts with region i. */
    method FindRun(i: nat) returns (size: nat, merged: seq<bool>)
      requires slots.Length == SLOTS && i < count <= SLOTS && !slots[i].Empty() && Aligned(slots[..])
      ensures Run(slots[..], count, i, size, merged) && Complete(slots[..], count, i, size, merged)
      ensures Coalesced(slots[..]) ==> size == slots[i].length && forall k | 0 <= k < SLOTS :: merged[k] == (k == i)
    {
      hide Aligned, Run, Coalesced;
      ghost var t := slots[..];
      size := slots[i].length;
      merged := seq(SLOTS, k => k == i);
      RunStarts(t, count, i, merged);
      ghost var left := set k | 0 <= k < SLOTS && !merged[k];
      var changed := true;
      while changed
        invariant |merged| == SLOTS && Run(t, count, i, size, merged) && left == set k | 0 <= k < SLOTS && !merged[k]
        invariant Coalesced(t) ==> size == t[i].length && forall k | 0 <= k < SLOTS :: merged[k] == (k == i)
        invariant !changed ==> Complete(t, count, i, size, merged)
        decreases |left|, if changed then 1 else 0
      {
        changed := false;
        ghost var before := left;
        for j := 0 to count
          invariant |merged| == SLOTS && Run(t, count, i, size, merged) && left == set k | 0 <= k < SLOTS && !merged[k]
          invariant Coalesced(t) ==> size == t[i].length && forall k | 0 <= k < SLOTS :: merged[k] == (k == i)
          invariant if changed then |left| < |before| else left == before
          invariant !changed ==> forall k | 0 <= k < j && !merged[k] && !t[k].Empty() :: t[k].base != t[i].base + size
        {
          if merged[j] || slots[j].length == 0 { continue; }
          if slots[j].base == slots[i].base + size {
            if Coalesced(t) { CoalescedRun(t, i, j); }
            RunGrows(t, count, i, size, merged, j);
            size := size + slots[j].length;
            assert j in left;
            left := left - {j};
            merged := merged[j := true];
            changed := true;
          }
        }
      }
    }

    /**
     First fit for a number of bytes, collapsing the run of touching regions it uses into one slot.
     It fails exactly when no such run of free bytes exists.
     */
    method FirstFit(requested: nat) returns (r: Option<nat>, ghost size: nat, ghost merged: seq<bool>)
      requires slots.Length == SLOTS && requested > 0
      requires Bounded(slots[..], count) && Disjoint(slots[..]) && Aligned(slots[..])
      modifies slots
      ensures Bounded(slots[..], count) && Disjoint(slots[..]) && Aligned(slots[..])
      ensures SameFree(old(slots[..]), slots[..])
      ensures r.None? ==> slots[..] == old(slots[..])
      ensures r.Some? ==> r.value < count <= SLOTS && slots[r.value].length >= requested && slots[r.value].base > 0xFFFF
      ensures r.Some? ==> Run(old(slots[..]), count, r.value, size, merged)
      ensures r.Some? ==> Complete(old(slots[..]), count, r.value, size, merged)
      ensures r.Some? ==> slots[..] == Collapsed(old(slots[..]), r.value, size, merged)
      ensures r.Some? ==> forall k | 0 <= k < r.value ::
                            old(slots[k].Empty()) || !FreeRun(old(slots[..]), old(slots[k].base), requested)
      ensures r.None? <==> forall s: nat :: !FreeRun(old(slots[..]), s, requested)
      ensures Coalesced(old(slots[..])) ==> slots[..] == old(slots[..])
    {
      hide Disjoint, Aligned, SameFree, FreeRun, FreeByte, Run, Coalesced, Complete, Bounded;
      ghost var t := slots[..];
      SameFreeReflexive(t);
      BoundedTail(t, count);
      for i := 0 to count
        invariant slots[..] == t
        invariant forall s: nat | FreeRun(t, s, requested) :: StartsLater(t, i, s)
        invariant forall k | 0 <= k < i :: t[k].Empty() || !FreeRun(t, t[k].base, requested)
      {
        if slots[i].length == 0 {
          EmptyStartsNothing(t, i, requested);
          continue;
        }
        var n, m := FindRun(i);
        if n >= requested {
          CollapseKeeps(t, count, i, n, m);
          CollapseBounded(t, count, i, n, m);
          RunIsFree(t, count, i, n, m, requested);
          RegionHigh(t, i);
          Collapse(i, n, m);
          if Coalesced(t) { CollapseNothing(t, i, n, m); }
          return Some(i), n, m;
        }
        ShortRun(t, count, i, n, m, requested);
      }
      NoRunLeft(t, count, requested);
      return None, 0, [];
    }

    /** Writes the collapsed run back: the other merged slots are cleared. */
    method Collapse(i: nat, size: nat, merged: seq<bool>)
      requires slots.Length == SLOTS && i < count <= SLOTS && |merged| == SLOTS
      requires forall k | 0 <= k < SLOTS && merged[k] :: k < count
      modifies slots
      ensures slots[..] == Collapsed(old(slots[..]), i, size, merged)
    {
      for j := 0 to count
        invariant forall k | 0 <= k < SLOTS :: slots[k] == if k < j && merged[k] && k != i then EMPTY else old(slots[k])
      {
        if merged[j] && j != i { slots[j] := EMPTY; }
      }
      slots[i] := Slot(slots[i].base, size);
    }

    /** The joining loop of force_free, with its pointer fixed at slot p. */
    method Absorb(p: nat)
      requires slots.Length == SLOTS && p < SLOTS && count <= SLOTS
      modifies this`count, slots
      ensures (slots[..], count) == Absorbing(old(slots[..]), old(count), p, p, 0)
    {
      hide Absorbing, Hull, RemovedIn;
      var i: int, j := p, 0;
      while j < count
        invariant j <= count <= SLOTS
        invariant Absorbing(slots[..], count, p, i, j) == Absorbing(old(slots[..]), old(count), p, p, 0)
        decreases count + count - j
      {
        ghost var t := slots[..];
        AbsorbingOne(t, count, p, i, j);
        if j == i {
          j := j + 1;
          continue;
        }
        if !Apart(slots[j], slots[p]) {
          slots[p] := Hull(slots[p], slots[j]);
          assert slots[..] == t[p := Hull(t[p], t[j])];
          RemoveSlot(j);
          count := count - 1;
          if j < i { i := i - 1; }
        } else {
          j := j + 1;
        }
      }
      AbsorbingOne(slots[..], count, p, i, j);
    }

    /** Drops slot j of the first count, emptying the last of them. */
    method RemoveSlot(j: nat)
      requires slots.Length == SLOTS && j < count <= SLOTS
      modifies slots
      ensures slots[..] == RemovedIn(old(slots[..]), count, j)
    {
      for k := j to count - 1
        invariant forall a | 0 <= a < SLOTS && !(j <= a < k) :: slots[a] == old(slots[a])
        invariant forall a | j <= a < k :: slots[a] == old(slots[a + 1])
      {
        slots[k] := slots[k + 1];
      }
      slots[count - 1] := EMPTY;
    }

    /** Gives the pages over a range to the heap, as `ForceFreed` says for every table. */
    method ForceFree(address: nat, size: nat)
      requires slots.Length == SLOTS && count <= SLOTS
      modifies this`count, slots
      ensures count <= SLOTS
      ensures match PageRange(address, size)
              case None => slots[..] == old(slots[..]) && count == old(count)
              case Some(n) => (slots[..], count) == ForceFreed(old(slots[..]), old(count), n)
    {
      var range := PageRange(address, size);
      if range.None? { return; }
      var n := range.value;
      ghost var t := slots[..];
      for i := 0 to count
        invariant slots[..] == t && FirstMeeting(t, count, n, 0) == FirstMeeting(t, count, n, i)
      {
        if !Apart(n, slots[i]) {
          slots[i] := Hull(slots[i], n);
          assert slots[..] == t[i := Hull(t[i], n)];
          Absorb(i);
          return;
        }
      }
      if count < SLOTS {
        slots[count] := n;
        assert slots[..] == t[count := n];
        count := count + 1;
      }
    }

    /** Growing the heap by granted pages; on a table with touching regions it can lose free bytes, never gain any. */
    method Grow(va: nat, size: nat) returns (ghost grew: bool)
      requires Valid() && Tame(size) && Grantable(va, size, live, words)
      requires Coalesced(slots[..]) || Separate(slots[..], Grant(va, size))
      modifies this`count, slots
      ensures Valid() && (Coalesced(old(slots[..])) ==> Coalesced(slots[..]))
      ensures grew == Accepts(old(slots[..]), old(count), Grant(va, size))
      ensures forall x: nat | FreeByte(slots[..], x) :: old(FreeByte(slots[..], x)) || (grew && Grant(va, size).Has(x))
      ensures grew ==> forall x: nat | Grant(va, size).Has(x) :: FreeByte(slots[..], x)
      ensures grew ==> (Gained(old(slots[..]), slots[..], Grant(va, size)) <==>
                        !Loses(old(slots[..]), old(count), Grant(va, size)))
      ensures grew ==> (slots[..], count) == ForceFreed(old(slots[..]), old(count), Grant(va, size))
      ensures !grew ==> slots[..] == old(slots[..]) && count == old(count)
    {
      hide Disjoint, Coalesced, Aligned, FreeByte, LiveOk, ForceFreed, Bounded, Tame, Accepts, Full, Separate, Loses;
      ghost var t := slots[..];
      TameSizes(size);
      WholePages(va, Pages(size));
      BoundedTail(t, count);
      ForceFree(va, Pages(size) * 0x1000);
      ghost var n := Grant(va, size);
      grew := Accepts(t, old(count), n);
      if Coalesced(t) {
        ForceFreeExact(t, old(count), n);
        CoalescedIsDisjoint(slots[..]);
        CoalescedKeeps(t, old(count), n);
        NotTaken(t, old(count), n);
      } else {
        ForceFreeKeepsIff(t, old(count), n);
      }
      LiveGrows(t, slots[..], live, words, n);
    }

    /** Cuts a block from the front of region i and writes its header. */
    method CutBlock(i: nat, size: nat) returns (b: nat)
      requires Valid() && Allocatable(size) && Tame(size) && i < count && slots[i].length >= Need(size)
      modifies this`words, this`live, slots
      ensures Valid() && b >= LOWEST && b % 8 == 0 && (Coalesced(old(slots[..])) ==> Coalesced(slots[..]))
      ensures words == old(words)[b := size] && live == old(live) + {b} && b !in old(live)
      ensures forall x: nat | Slot(b, Full(size)).Has(x) :: old(FreeByte(slots[..], x))
      ensures forall x: nat :: FreeByte(slots[..], x) <==> old(FreeByte(slots[..], x)) && !Slot(b, Full(size)).Has(x)
    {
      hide Disjoint, Coalesced, Aligned, FreeByte, LiveOk, Bounded, Tame, Full, Need;
      ghost var t := slots[..];
      TameSizes(size);
      BoundedTail(t, count);
      var full := Full(size);
      FullAligned(size);
      CutKeeps(t, count, i, full);
      CutBytes(t, i, full);
      b := slots[i].base;
      LiveAdds(t, Cut(t, i, full), live, words, b, size);
      words := words[b := size];
      live := live + {b};
      slots[i] := Slot(slots[i].base + full, slots[i].length - full);
      assert slots[..] == Cut(t, i, full);
    }

    /** The search of kmalloc: for a region, and if there is none, again after growing. */
    method FindRoom(size: nat, granted: Option<nat>) returns (region: Option<nat>, ghost grew: bool)
      requires Valid() && Allocatable(size) && Tame(size)
      requires granted.Some? ==> Grantable(granted.value, size, live, words)
      requires granted.Some? ==> Coalesced(slots[..]) || Separate(slots[..], Grant(granted.value, size))
      modifies this`count, slots
      ensures Valid() && (Coalesced(old(slots[..])) ==> Coalesced(slots[..]))
      ensures region.Some? ==> region.value < count <= SLOTS && slots[region.value].base > 0xFFFF
      ensures region.Some? ==> slots[region.value].length >= Need(size)
      ensures region.None? ==> forall s: nat :: !FreeRun(slots[..], s, Need(size))
      ensures grew <==> granted.Some? && Accepts(old(slots[..]), old(count), Grant(granted.value, size))
                        && forall s: nat :: !FreeRun(old(slots[..]), s, Need(size))
      ensures region.Some? && StillSeeded(old(slots[..]), old(count)) ==>
                (grew ==> Touches(old(slots[..]), Grant(granted.value, size))) ==> Coalesced(slots[..])
      ensures !grew ==> count == old(count) && (region.None? ==> slots[..] == old(slots[..]))
      ensures !grew ==> (region.Some? <==> exists s: nat :: FreeRun(old(slots[..]), s, Need(size)))
      ensures grew && (Coalesced(old(slots[..])) || StillSeeded(old(slots[..]), old(count))) ==>
                !Loses(old(slots[..]), old(count), Grant(granted.value, size))
      ensures grew && Full(size) % 0x1000 != 0 ==> region.Some?
      ensures grew && Full(size) % 0x1000 == 0 && !Loses(old(slots[..]), old(count), Grant(granted.value, size)) ==>
                (region.Some? <==> Touches(old(slots[..]), Grant(granted.value, size)))
      ensures Accounted(old(slots[..]), slots[..], EMPTY, if grew then Grant(granted.value, size) else EMPTY,
                        grew && Loses(old(slots[..]), old(count), Grant(granted.value, size)))
      ensures grew ==> var (t, c) := ForceFreed(old(slots[..]), old(count), Grant(granted.value, size));
                       count == c && (region.None? ==> slots[..] == t) && SameFree(t, slots[..])
    {
      hide Disjoint, Coalesced, Aligned, FreeByte, LiveOk, Bounded, Tame, Full, Need, FreeRun, Run, Complete;
      hide Collapsed, StillSeeded, Separate, Loses, OnePiece, Touches, ForceFreed, Accepts, SameFree, Accounted, Gained;
      grew := false;
      TameSizes(size);
      ghost var t := slots[..];
      BoundedTail(t, count);
      ghost var n: nat, m: seq<bool>;
      region, n, m := FirstFit(Need(size));
      LiveSame(t, slots[..], live, words);
      AccountedSame(t, slots[..]);
      ghost var g := t;
      if region.None? {
        if granted.None? { return None, false; }
        ghost var grant := Grant(granted.value, size);
        GrantAligned(granted.value, size);
        if StillSeeded(t, count) {
          SeedsTouch(t, count);
          SeedsKeep(t, count, grant);
        } else if Coalesced(t) {
          CoalescedKeeps(t, count, grant);
        }
        grew := Grow(granted.value, size);
        g := slots[..];
        if grew { GrantUse(t, g, granted.value, size, Loses(t, old(count), grant)); }
        region, n, m := FirstFit(Need(size));
        LiveSame(g, slots[..], live, words);
        AccountedGrown(t, g, slots[..], grant, grew, Loses(t, old(count), grant));
      }
      if region.Some? && StillSeeded(t, old(count)) && (grew ==> Touches(t, Grant(granted.value, size))) {
        SeedRoom(t, old(count), g, grew, if grew then Grant(granted.value, size) else EMPTY, count, region.value, n, m,
                 Need(size));
      }
    }

    /**
     Allocates size bytes. granted is the address the page allocators return when the heap has to
     grow, None when one of them fails.
     */
    method Kmalloc(size: nat, granted: Option<nat>) returns (r: Option<nat>, ghost grew: bool)
      requires Valid() && (Allocatable(size) ==> Tame(size))
      requires granted.Some? ==> Grantable(granted.value, size, live, words)
      requires granted.Some? ==> Coalesced(slots[..]) || Separate(slots[..], Grant(granted.value, size))
      modifies this, slots
      ensures Valid() && (Coalesced(old(slots[..])) ==> Coalesced(slots[..]))
      ensures grew <==> Allocatable(size) && granted.Some?
                        && Accepts(old(slots[..]), old(count), Grant(granted.value, size))
                        && forall s: nat :: !FreeRun(old(slots[..]), s, Need(size))
      ensures r.Some? && StillSeeded(old(slots[..]), old(count)) ==>
                (grew ==> Touches(old(slots[..]), Grant(granted.value, size))) ==> Coalesced(slots[..])
      ensures r.Some? ==> Allocatable(size) && r.value >= LOWEST + 8 && r.value % 8 == 0 && r.value - 8 !in old(live)
      ensures r.None? ==> live == old(live) && words == old(words)
      ensures r.Some? ==> words == old(words)[r.value - 8 := size] && live == old(live) + {r.value - 8}
      ensures r.None? && Allocatable(size) ==> forall s: nat :: !FreeRun(slots[..], s, Need(size))
      ensures !grew ==> count == old(count) && (r.None? ==> slots[..] == old(slots[..]))
      ensures !grew ==> (r.Some? <==> Allocatable(size) && exists s: nat :: FreeRun(old(slots[..]), s, Need(size)))
      ensures grew && (Coalesced(old(slots[..])) || StillSeeded(old(slots[..]), old(count))) ==>
                !Loses(old(slots[..]), old(count), Grant(granted.value, size))
      ensures grew && Full(size) % 0x1000 != 0 ==> r.Some?
      ensures grew && Full(size) % 0x1000 == 0 && !Loses(old(slots[..]), old(count), Grant(granted.value, size)) ==>
                (r.Some? <==> Touches(old(slots[..]), Grant(granted.value, size)))
      ensures Accounted(old(slots[..]), slots[..], BlockFor(r, size),
                        if grew then Grant(granted.value, size) else EMPTY,
                        grew && Loses(old(slots[..]), old(count), Grant(granted.value, size)))
      ensures grew ==> var (t, c) := ForceFreed(old(slots[..]), old(count), Grant(granted.value, size));
                       count == c && (r.None? ==> slots[..] == t)
                       && Accounted(t, slots[..], BlockFor(r, size), EMPTY, false)
    {
      hide Disjoint, Coalesced, Aligned, FreeByte, LiveOk, Bounded, Tame, Full, Need, FreeRun;
      hide StillSeeded, Separate, Loses, Touches, Accepts, SameFree, Accounted, ForceFreed;
      ghost var t := slots[..];
      BoundedTail(t, count);
      AccountedSame(t, t);
      if size == 0 || size > SIZE_MAX - 8 { return None, false; }
      var region: Option<nat>;
      region, grew := FindRoom(size, granted);
      ghost var u := slots[..];
      ghost var g := if grew then ForceFreed(t, old(count), Grant(granted.value, size)).0 else t;
      AccountedSame(g, u);
      if region.None? || slots[region.value].base <= 0xFFFF { return None, grew; }
      var b := CutBlock(region.value, size);
      r := Some(b + 8);
      if grew { AccountedCut(g, u, slots[..], Slot(b, Full(size)), EMPTY, false); }
      AccountedCut(t, u, slots[..], Slot(b, Full(size)), if grew then Grant(granted.value, size) else EMPTY,
                   grew && Loses(t, old(count), Grant(granted.value, size)));
    }

    /** Gives a block back: into the first empty slot, or nowhere when there is none. */
    method Kfree(address: nat) returns (ghost placed: bool, ghost block: Slot)
      requires Valid() && (address != 0 ==> address >= 8 && address - 8 in live)
      modifies this, slots
      ensures Valid() && words == old(words)
      ensures placed <==> address != 0 && HasEmpty(old(slots[..]))
      ensures placed ==> Coalesced(slots[..]) && Gained(old(slots[..]), slots[..], block)
      ensures !placed ==> slots[..] == old(slots[..]) && count == old(count)
      ensures address == 0 ==> live == old(live)
      ensures address != 0 ==> live == old(live) - {address - 8}
      ensures address != 0 ==> address - 8 in words && block == BlockOf(words, address - 8)
    {
      hide Disjoint, Coalesced, Aligned, FreeByte, LiveOk, Bounded, Full, Sorted, Packed, Masked;
      placed, block := false, EMPTY;
      if address == 0 { return; }
      ghost var t := slots[..];
      var b := address - 8;
      HeaderGivesSize(t, live, words, b);
      block := BlockOf(words, b);
      var size := (words[b] + 8) % (SIZE_MAX + 1);
      if size == 0 { return; }
      size := Full(words[b]);
      live := live - {b};
      LiveRemoves(t, t, old(live), words, b);
      for i := 0 to SLOTS
        invariant slots[..] == t && count == old(count) && live == old(live) - {b} && words == old(words)
        invariant forall k | 0 <= k < i :: !t[k].Empty()
      {
        if slots[i].length == 0 {
          PlaceBlock(t, old(live), words, b, i);
          slots[i] := Slot(b, size);
          assert slots[..] == t[i := BlockOf(words, b)];
          Tidy();
          LiveRemoves(t, slots[..], old(live), words, b);
          assert t[i].Empty();
          placed := true;
          return;
        }
      }
    }

    /**
     A block given straight back leaves the free bytes as they were, except for pages grown by and bytes lost then.
     */
    method AllocateThenFree(size: nat, granted: Option<nat>)
      returns (r: Option<nat>, ghost grew: bool, ghost placed: bool)
      requires Valid() && (Allocatable(size) ==> Tame(size))
      requires granted.Some? ==> Grantable(granted.value, size, live, words)
      requires granted.Some? ==> Coalesced(slots[..]) || Separate(slots[..], Grant(granted.value, size))
      modifies this, slots
      ensures Valid() && live == old(live) && (Coalesced(old(slots[..])) || placed ==> Coalesced(slots[..]))
      ensures grew ==> granted.Some?
      ensures placed ==> Accounted(old(slots[..]), slots[..], EMPTY,
                                   if grew then Grant(granted.value, size) else EMPTY,
                                   grew && Loses(old(slots[..]), old(count), Grant(granted.value, size)))
    {
      hide Disjoint, Coalesced, Aligned, FreeByte, LiveOk, Bounded, Tame, Full, Need, FreeRun, StillSeeded;
      hide Separate, Loses, Touches, Accepts, Accounted, Gained;
      placed := false;
      ghost var t := slots[..];
      BoundedTail(t, count);
      r, grew := Kmalloc(size, granted);
      if r.Some? {
        ghost var u, block := slots[..], EMPTY;
        placed, block := Kfree(r.value);
        if placed {
          AccountedBack(t, u, slots[..], block, if grew then Grant(granted.value, size) else EMPTY,
                        grew && Loses(t, old(count), Grant(granted.value, size)));
        }
      }
    }

    /** The sorting, joining and recounting at the end of kfree. */
    method Tidy()
      requires slots.Length == SLOTS && Disjoint(slots[..]) && Aligned(slots[..])
      modifies this`count, slots
      ensures Bounded(slots[..], count) && Packed(slots[..], count)
      ensures Disjoint(slots[..]) && Coalesced(slots[..]) && Aligned(slots[..]) && SameFree(old(slots[..]), slots[..])
    {
      hide Disjoint, Coalesced, Aligned, SameFree, Sorted, Packed;
      ghost var t := slots[..];
      Sort();
      ghost var u := slots[..];
      Merge();
      SameFreeTransitive(t, u, slots[..]);
      ghost var v := slots[..];
      ghost var c: nat := SortedIsPacked(v);
      PackedAt(v, c, 0);
      count := 0;
      for i := 0 to SLOTS
        invariant slots[..] == v && count == if i <= c then i else c
      {
        PackedAt(v, c, i);
        if slots[i].length > 0 { count := count + 1; }
      }
      SortedBounded(slots[..], c);
    }
  }

  /**
   A request whose block is exactly a page: the heap grows by that page, looks for eight bytes more, and fails.
   Here the seed pages are all but used up, and the page granted lies elsewhere.
   */
  method WholePageFails() returns (h: KernelHeap, r: Option<nat>)
    ensures r.None? && h.Valid() && FreeByte(h.slots[..], 0x100000)
  {
    h := new KernelHeap(0x10000);
    SizesHere();
    hide KernelHeap.Valid, Full, Need, Tame, FreeByte, Coalesced, Loses, Accounted, Touches, Overlapping, SameFree;
    ghost var t := h.slots[..];
    assert FreeRun(t, 0x10000, 16376);
    hide FreeRun;
    var first, grew := h.Kmalloc(16360, None);
    SameRuns(t, h.slots[..], 0x10000, 16376);
    ghost var b := first.value - 8;
    LiveBytes(h, b);
    NearlyUsed(t, h.slots[..], b);
    Elsewhere(h.words, b);
    ghost var u := h.slots[..];
    r, grew := h.Kmalloc(4088, Some(0x100000));
    GrantFree(u, h.slots[..], Slot(0x100000, 4096), false, 0x100000);
  }

  lemma SameRuns(t: seq<Slot>, u: seq<Slot>, s: nat, n: nat)
    ensures Accounted(t, u, EMPTY, EMPTY, false) ==> (FreeRun(t, s, n) <==> FreeRun(u, s, n))
  {
    hide FreeByte;
  }

  lemma SizesHere()
    ensures Tame(16360) && Full(16360) == 16368 && Need(16360) == 16376
    ensures Tame(4088) && Full(4088) == 4096 && Need(4088) == 4104
  {
  }

  lemma LiveBytes(h: KernelHeap, b: nat)
    requires h.Valid() && b in h.live && b in h.words && BlockOf(h.words, b) == Slot(b, 16368)
    ensures forall x: nat | Slot(b, 16368).Has(x) :: !FreeByte(h.slots[..], x)
  {
    forall x: nat | Slot(b, 16368).Has(x) ensures !FreeByte(h.slots[..], x) {
      assert BlockOf(h.words, b).Has(x);
    }
  }

  /** Sixteen free bytes around a block in the seed pages are no run of 4104. */
  lemma NearlyUsed(t: seq<Slot>, u: seq<Slot>, b: nat)
    requires forall x: nat :: FreeByte(t, x) <==> 0x10000 <= x < 0x14000
    requires Accounted(t, u, Slot(b, 16368), EMPTY, false)
    requires forall x: nat | Slot(b, 16368).Has(x) :: !FreeByte(u, x)
    ensures 0x10000 <= b <= 0x10010 && (forall s: nat :: !FreeRun(u, s, 4104))
    ensures !Touches(u, Slot(0x100000, 4096))
  {
    hide FreeByte;
    assert Slot(b, 16368).Has(b) && Slot(b, 16368).Has(b + 16367);
    forall s: nat ensures !FreeRun(u, s, 4104) {
      assert !FreeByte(u, if s < 0x10000 || b <= s < b + 16368 then s else s + 4103);
    }
  }

  lemma Elsewhere(words: map<nat, nat>, b: nat)
    requires b in words && BlockOf(words, b) == Slot(b, 16368) && b <= 0x10010 && Full(4088) == 4096
    ensures Grantable(0x100000, 4088, {b}, words) && Grant(0x100000, 4088) == Slot(0x100000, 4096)
  {
  }

  lemma GrantFree(t: seq<Slot>, u: seq<Slot>, n: Slot, lost: bool, x: nat)
    requires Accounted(t, u, EMPTY, n, lost) && !lost && n.Has(x)
    ensures FreeByte(u, x)
  {
  }
}
