/**
 Mapping, unmapping and tearing down address spaces: the operations of the virtual
 memory manager over the frame allocator and the page tables.
 */
module Vmm {
  import opened Common
  import opened FrameBitmap
  import opened PageTables
  import opened Growth
  import opened Pruning
  import opened Rights
  import opened Teardown

  class VirtualMemory {
    const pmm: Pmm
    var mem: Memory

    constructor (pmm: Pmm, mem: Memory)
      ensures this.pmm == pmm && this.mem == mem
    {
      this.pmm, this.mem := pmm, mem;
    }

    /** A consistent allocator with frame 0 reserved, and a tree of tables below root. */
    ghost predicate Ok(root: nat)
      reads this, pmm, pmm.bitmap
    {
      pmm.Valid() && 0 in pmm.Used() && Tree(mem, root, pmm.Used())
    }

    /**
     The next-level table below entry idx, created zeroed when absent; None is the out-of-memory panic.
     Frame 0, should it be free, is handed out as it is: the zeroing takes address zero for a failure.
     */
    method TableGetOrCreate(table: nat, idx: nat, flags: Flags) returns (r: Option<nat>)
      requires pmm.Valid() && table in mem && idx < |mem[table]| && table in pmm.Used()
      modifies this, pmm, pmm.bitmap
      ensures pmm.Valid()
      ensures var w := old(Load(mem, table, idx));
              w.present ==> r == Some(w.frame) && mem == Store(old(mem), table, idx, Widened(w, flags))
                            && pmm.Used() == old(pmm.Used())
      ensures !old(Load(mem, table, idx)).present && r.Some? ==>
                r.value !in old(pmm.Used()) && pmm.Used() == old(pmm.Used()) + {r.value}
                && mem == if r.value == 0 then Store(old(mem), table, idx, Word(0, true, Perm(flags)))
                          else LinkTable(old(mem), table, idx, r.value, flags)
      ensures r.None? ==> mem == old(mem) && |pmm.Used()| == pmm.bits
      ensures r.Some? ==> var w, n := old(Load(mem, table, idx)), Load(mem, table, idx);
                          && n.present && (n.flags.huge <==> w.present && w.flags.huge)
                          && (n.flags.user <==> flags.user || (w.present && w.flags.user))
                          && (n.flags.writable <==> flags.writable || (w.present && w.flags.writable))
                          && (n.flags.owned <==> flags.owned || (w.present && w.flags.owned))
    {
      var w := mem[table][idx];
      if !w.present {
        var f := pmm.Alloc();
        if f.None? { return None; }
        if f.value != 0 { mem := mem[f.value := ZeroPage()]; }
        mem := Store(mem, table, idx, Word(f.value, true, Perm(flags)));
        return f;
      }
      if Widened(w, flags) != w {
        mem := Store(mem, table, idx, Widened(w, flags));
      } else {
        assert mem[table][idx := w] == mem[table];
      }
      r := Some(w.frame);
    }

    /** One level of map_4k on the path p, as a step of the tree. */
    method Descend(ghost root: nat, ghost p: Path, ghost k: nat, table: nat, idx: nat,
                   flags: Flags) returns (r: Option<nat>)
      requires Ok(root) && |p| == 4 && IsPath(p) && k < 3 && p[k] == idx
      requires TableAt(mem, root, p[..k]) == Some(table)
      requires k > 0 ==> LeafAt(mem, root, p[..k + 1]).None?
      requires Opened(mem, root, p, k, flags)
      modifies this, pmm, pmm.bitmap
      ensures r.Some? ==> Ok(root) && TableAt(mem, root, p[..k + 1]) == r
                          && Grew(old(mem), mem, root, old(pmm.Used()), pmm.Used(), p)
      ensures r.Some? ==> WordsGrew(old(mem), mem, root, p) && Opened(mem, root, p, k + 1, flags)
      ensures r.None? ==> |pmm.Used()| == pmm.bits
    {
      assert IsTablePath(p[..k]);
      assert Init(p[..k + 1]) == p[..k] && Last(p[..k + 1]) == idx;
      ghost var m, used := mem, pmm.Used();
      r := TableGetOrCreate(table, idx, flags);
      if r.Some? {
        if Load(m, table, idx).present {
          GrewByWidening(m, root, used, p, k, flags);
          WidenedWords(m, root, p, k, flags);
        } else {
          GrewByLinking(m, root, used, p, k, r.value, flags);
          LinkedGrew(m, root, used, p, k, r.value, flags);
        }
        OpenedStays(m, mem, root, p, k, flags);
      }
    }

    /** The first two levels of map_4k: the page directory for va. */
    method DescendTwice(root: nat, va: nat, flags: Flags) returns (r: Option<nat>)
      requires Ok(root) && NoHugePage(mem, root, va)
      modifies this, pmm, pmm.bitmap
      ensures r.Some? ==> Ok(root) && TableAt(mem, root, PathOf(va)[..2]) == r
                          && Grew(old(mem), mem, root, old(pmm.Used()), pmm.Used(), PathOf(va))
      ensures r.Some? ==> WordsGrew(old(mem), mem, root, PathOf(va)) && Opened(mem, root, PathOf(va), 2, flags)
      ensures r.None? ==> |pmm.Used()| == pmm.bits
    {
      ghost var p, m0, u0 := PathOf(va), mem, pmm.Used();
      assert p[..0] == [];
      var pdpt := Descend(root, p, 0, root, (va / 0x80_0000_0000) % 512, flags);
      if pdpt.None? { return None; }
      ghost var m1, u1 := mem, pmm.Used();
      assert IsPath(p[..2]);
      r := Descend(root, p, 1, pdpt.value, (va / 0x4000_0000) % 512, flags);
      if r.Some? {
        GrewTablesTransitive(m0, m1, mem, root, u0, u1, pmm.Used(), p);
        WordsGrewTransitive(m0, m1, mem, root, p);
      }
    }

    method DescendToLast(root: nat, va: nat, flags: Flags) returns (r: Option<nat>)
      requires Ok(root) && NoHugePage(mem, root, va)
      modifies this, pmm, pmm.bitmap
      ensures r.Some? ==> Ok(root) && TableAt(mem, root, PathOf(va)[..3]) == r
                          && Grew(old(mem), mem, root, old(pmm.Used()), pmm.Used(), PathOf(va))
      ensures r.Some? ==> WordsGrew(old(mem), mem, root, PathOf(va)) && Opened(mem, root, PathOf(va), 3, flags)
      ensures r.None? ==> |pmm.Used()| == pmm.bits
    {
      ghost var p, m0, u0 := PathOf(va), mem, pmm.Used();
      var pd := DescendTwice(root, va, flags);
      if pd.None? { return None; }
      ghost var m1, u1 := mem, pmm.Used();
      assert IsPath(p[..3]);
      r := Descend(root, p, 2, pd.value, (va / 0x20_0000) % 512, flags);
      if r.Some? {
        GrewTablesTransitive(m0, m1, mem, root, u0, u1, pmm.Used(), p);
        WordsGrewTransitive(m0, m1, mem, root, p);
      }
    }

    /** Maps one page; false is the out-of-memory panic. */
    method MapPage(root: nat, va: nat, frame: nat, flags: Flags) returns (ok: bool)
      requires Ok(root) && NoHugePage(mem, root, va)
      modifies this, pmm, pmm.bitmap
      ensures ok ==> Ok(root)
      ensures ok ==> Mapped(old(mem), mem, root, old(pmm.Used()), pmm.Used(), PathOf(va), Word(frame, true, flags))
      ensures ok ==> RightsMapped(old(mem), mem, root, PathOf(va), flags)
      ensures !ok ==> |pmm.Used()| == pmm.bits
    {
      hide RightsMapped, WordsGrew, Opened, Mapped, Grew, TableAt, LeafAt, Tree;
      ghost var m0, u0 := mem, pmm.Used();
      var pt := DescendToLast(root, va, flags);
      if pt.None? { return false; }
      LeafMapped(m0, mem, root, u0, pmm.Used(), va, frame, flags);
      mem := Store(mem, pt.value, (va / 0x1000) % 512, Word(frame, true, flags));
      ok := true;
    }

    /** Maps count consecutive pages; false is the out-of-memory panic. */
    method MapPages(root: nat, va: nat, frame: nat, count: nat, flags: Flags) returns (ok: bool)
      requires Ok(root) && count <= ADDRESS_PAGES
      requires forall i: nat | i < count :: NoHugePage(mem, root, va + i * 0x1000)
      modifies this, pmm, pmm.bitmap
      ensures ok ==> Ok(root) && RangeMapped(old(mem), mem, root, va, frame, count, flags)
      ensures ok ==> OnlyTablesGrew(old(mem), mem, root, old(pmm.Used()), pmm.Used())
      ensures ok ==> RangeRights(old(mem), mem, root, va, count, flags)
      ensures ok ==> forall v: nat :: VirtToPhys(mem, root, v) ==
                                      var i := PagesAbove(va, v);
                                      if i < count then Page4K(frame + i, v % 0x1000) else VirtToPhys(old(mem), root, v)
      ensures !ok ==> |pmm.Used()| == pmm.bits
    {
      hide PathOf, PagesAbove, AddressOf, LeafAt, VirtToPhys, Tree, OnlyTablesGrew, GrewTables;
      hide RightsMapped, RangeRights;
      ghost var m0, u0 := mem, pmm.Used();
      NothingGrew(m0, root, u0);
      NoRangeYet(m0, root, va, flags);
      for i := 0 to count
        invariant Ok(root) && RangeMapped(m0, mem, root, va, frame, i, flags)
        invariant OnlyTablesGrew(m0, mem, root, u0, pmm.Used()) && RangeRights(m0, mem, root, va, i, flags)
      {
        ghost var m1, u1 := mem, pmm.Used();
        assert NoHugePage(mem, root, va + i * 0x1000) by {
          assert IsPath(PathOf(va + i * 0x1000)[..2]) && IsPath(PathOf(va + i * 0x1000)[..3]);
          assert NoHugePage(m0, root, va + i * 0x1000);
        }
        var done := MapPage(root, va + i * 0x1000, frame + i, flags);
        if !done { return false; }
        RangeMappedStep(m0, m1, mem, root, va, frame, i, flags, u1, pmm.Used());
        RangeRightsStep(m0, m1, mem, root, va, frame, i, flags);
        GrowthIsGrowth(m1, mem, root, u1, pmm.Used(), PathOf(va + i * 0x1000));
        OnlyTablesGrewTransitive(m0, m1, mem, root, u0, u1, pmm.Used());
      }
      forall v: nat
        ensures VirtToPhys(mem, root, v) ==
                var i := PagesAbove(va, v);
                if i < count then Page4K(frame + i, v % 0x1000) else VirtToPhys(m0, root, v)
      {
        RangeMappedWalk(m0, mem, root, va, frame, count, flags, v);
      }
      ok := true;
    }

    method TableIsEmpty(f: nat) returns (empty: bool)
      requires f in mem
      ensures empty == IsEmptyTable(mem, f)
    {
      for i := 0 to |mem[f]|
        invariant forall j | 0 <= j < i :: mem[f][j] == ZERO
      {
        if mem[f][i] != ZERO { return false; }
      }
      empty := true;
    }

    /** The three tables below the root on va's path, unless one is missing or a huge page is in the way. */
    method FindTables(root: nat, va: nat) returns (r: Option<(nat, nat, nat)>)
      requires Ok(root)
      ensures r.Some? <==> WholePath(mem, root, PathOf(va))
      ensures r.Some? ==> TableAt(mem, root, PathOf(va)[..0]) == Some(root)
                          && TableAt(mem, root, PathOf(va)[..1]) == Some(r.value.0)
                          && TableAt(mem, root, PathOf(va)[..2]) == Some(r.value.1)
                          && TableAt(mem, root, PathOf(va)[..3]) == Some(r.value.2)
    {
      ghost var p := PathOf(va);
      TableSteps(mem, root, p);
      PrefixesAreTablePaths(p);
      assert p[..0] == [];
      assert TableAt(mem, root, p[..0]) == Some(root);
      var e4 := mem[root][(va / 0x80_0000_0000) % 512];
      if !e4.present {
        assert TableAt(mem, root, p[..1]).None?;
        return None;
      }
      assert TableAt(mem, root, p[..1]) == Some(e4.frame);
      var e3 := mem[e4.frame][(va / 0x4000_0000) % 512];
      if !e3.present || e3.flags.huge {
        assert TableAt(mem, root, p[..2]).None?;
        return None;
      }
      assert TableAt(mem, root, p[..2]) == Some(e3.frame);
      var e2 := mem[e3.frame][(va / 0x20_0000) % 512];
      if !e2.present || e2.flags.huge {
        assert TableAt(mem, root, p[..3]).None?;
        return None;
      }
      r := Some((e4.frame, e3.frame, e2.frame));
    }

    /** Unlinks and frees the path's table at depth k - 1 if it has become empty. */
    method PruneLevel(ghost m0: Memory, ghost u0: set<nat>, ghost root: nat, ghost p: Path, ghost k: nat,
                      parent: nat, idx: nat, child: nat) returns (empty: bool)
      requires |p| == 4 && IsPath(p) && 2 <= k <= 4 && idx == p[k - 2]
      requires pmm.Valid() && 0 in pmm.Used() && Tree(m0, root, u0)
      requires UnmappedTo(m0, mem, root, u0, pmm.Used(), p, k)
      requires TableAt(m0, root, p[..k - 2]) == Some(parent) && TableAt(m0, root, p[..k - 1]) == Some(child)
      modifies this, pmm, pmm.bitmap
      ensures pmm.Valid() && 0 in pmm.Used()
      ensures empty <==> OthersZero(m0, child, p[k - 1])
      ensures UnmappedTo(m0, mem, root, u0, pmm.Used(), p, if empty then k - 1 else k)
    {
      hide Tree, TableAt, UnmappedTo, Store, OthersZero, IsEmptyTable, IsPath;
      RemainingTable(m0, mem, root, u0, pmm.Used(), p, k);
      EmptyMeansOthersZero(m0, mem, root, u0, pmm.Used(), p, k);
      empty := TableIsEmpty(child);
      if empty {
        UnmapStep(m0, mem, root, u0, pmm.Used(), p, k, parent, child);
        mem := Store(mem, parent, idx, ZERO);
        pmm.Free(child);
      }
    }

    /**
     Clears the leaf of va and gives back every table this empties on the way up.
     k is the depth from which the path's tables went; nothing happens when a table
     is missing or a huge page is in the way.
     */
    method UnmapPage(root: nat, va: nat) returns (ghost k: nat)
      requires Ok(root)
      modifies this, pmm, pmm.bitmap
      ensures Ok(root)
      ensures !WholePath(old(mem), root, PathOf(va)) ==> mem == old(mem) && pmm.Used() == old(pmm.Used())
      ensures WholePath(old(mem), root, PathOf(va)) ==>
                && 1 <= k <= 4 && UnmappedTo(old(mem), mem, root, old(pmm.Used()), pmm.Used(), PathOf(va), k)
                && PrunedExactly(old(mem), root, PathOf(va), k)
    {
      hide Tree, TableAt, UnmappedTo, Store, OthersZero, IsPath, Load, WholePath;
      ghost var p, m0, u0 := PathOf(va), mem, pmm.Used();
      k := 4;
      var t := FindTables(root, va);
      if t.None? { return; }
      var (pdpt, pd, pt) := t.value;
      UnmapStart(m0, root, u0, p);
      mem := Store(mem, pt, (va / 0x1000) % 512, ZERO);
      var empty := PruneLevel(m0, u0, root, p, 4, pd, (va / 0x20_0000) % 512, pt);
      if empty {
        k := 3;
        empty := PruneLevel(m0, u0, root, p, 3, pdpt, (va / 0x4000_0000) % 512, pd);
        if empty {
          k := 2;
          empty := PruneLevel(m0, u0, root, p, 2, root, (va / 0x80_0000_0000) % 512, pdpt);
          if empty { k := 1; }
        }
      }
      RemainingTable(m0, mem, root, u0, pmm.Used(), p, k);
    }

    /** Mapping a page that was not mapped and unmapping it: the two operations undo each other. */
    method MapThenUnmap(root: nat, va: nat, frame: nat, flags: Flags) returns (ok: bool)
      requires Ok(root) && NoHugePage(mem, root, va) && LeafAt(mem, root, PathOf(va)).None?
      modifies this, pmm, pmm.bitmap
      ensures ok ==> Ok(root)
      ensures ok ==> forall v: nat :: VirtToPhys(mem, root, v) == VirtToPhys(old(mem), root, v)
      ensures ok ==> pmm.Used() <= old(pmm.Used())
      ensures ok ==> (pmm.Used() == old(pmm.Used()) <==> DeepestStays(old(mem), root, PathOf(va)))
      ensures ok && DeepestStays(old(mem), root, PathOf(va)) ==> pmm.freePages == old(pmm.freePages)
    {
      hide Tree, TableAt, LeafAt, UnmappedTo, PathOf, VirtToPhys, DeepestStays, Mapped, NoHugePage, PrunedExactly;
      ghost var m0, u0 := mem, pmm.Used();
      ok := MapPage(root, va, frame, flags);
      if ok {
        ghost var m1, u1 := mem, pmm.Used();
        MappedHasWholePath(m0, m1, root, u0, u1, PathOf(va), Word(frame, true, flags));
        ghost var k := UnmapPage(root, va);
        MapUnmapRoundTrip(m0, m1, mem, root, u0, u1, pmm.Used(), PathOf(va), Word(frame, true, flags), k);
        forall v: nat ensures VirtToPhys(mem, root, v) == VirtToPhys(m0, root, v) {
          SameLeavesSameWalk(m0, mem, root, v);
        }
      }
    }

    /** One entry of a table being torn down. */
    method FreeEntry(ghost m0: Memory, ghost root: nat, ghost u0: set<nat>, ghost p: Path,
                     table: nat, level: nat, i: nat) returns (ghost calls: nat)
      requires 1 <= level <= 4 && |p| == 4 - level && IsTablePath(p) && IsUserPath(p + [i])
      requires Tree(m0, root, u0) && Exclusive(m0, root, u0) && pmm.Valid()
      requires TableAt(m0, root, p) == Some(table) && table in mem && |mem[table]| == ENTRIES
      requires Load(mem, table, i) == Load(m0, table, i) && Intact(m0, mem, root, p + [i])
      requires forall f: nat | ReleasedAt(m0, root, p + [i], f) :: f in pmm.Used()
      modifies this, pmm, pmm.bitmap
      ensures pmm.Valid()
      ensures forall f: nat :: f in pmm.Used() <==> f in old(pmm.Used()) && !ReleasedAt(m0, root, p + [i], f)
      ensures calls == old(|pmm.Used()|) - |pmm.Used()|
      ensures forall f: nat | f != table && !Below(m0, root, p + [i], f) :: SameFrame(old(mem), mem, f)
      ensures table in mem && |mem[table]| == ENTRIES && !Load(mem, table, i).present
      ensures forall j: nat | j != i :: Load(mem, table, j) == Load(old(mem), table, j)
      decreases level, 0
    {
      hide Tree, TableAt, Exclusive, Intact, Below, ReleasedAt, Released, Store;
      UserPathIndex(p, i);
      TableNotBelow(m0, root, u0, p, i, table);
      var e := mem[table][i];
      calls := 0;
      if !e.present {
        AbsentReleasesNothing(m0, root, p, i);
        return;
      }
      var leaf := level == 1 || (level < 4 && e.flags.huge);
      if leaf {
        LeafReleasesItsFrame(m0, root, p, i);
        if e.flags.owned {
          assert ReleasedAt(m0, root, p + [i], e.frame);
          pmm.Free(e.frame);
          calls := 1;
        }
      } else {
        TableReleasesItselfAndBelow(m0, root, p, i);
        assert ReleasedAt(m0, root, p + [i], e.frame);
        TableNotReleasedBelow(m0, root, u0, p + [i], e.frame);
        ghost var below := FreeUserTables(m0, root, u0, p + [i], e.frame, level - 1);
        pmm.Free(e.frame);
        calls := below + 1;
      }
      mem := Store(mem, table, i, ZERO);
    }

    method FreeUserTables(ghost m0: Memory, ghost root: nat, ghost u0: set<nat>, ghost p: Path,
                          table: nat, level: nat) returns (ghost calls: nat)
      requires 1 <= level <= 4 && |p| == 4 - level && IsTablePath(p) && (p != [] ==> IsUserPath(p))
      requires Tree(m0, root, u0) && Exclusive(m0, root, u0) && pmm.Valid()
      requires TableAt(m0, root, p) == Some(table) && Intact(m0, mem, root, p)
      requires forall f: nat | Released(m0, root, p, if level == 4 then 256 else 512, f) :: f in pmm.Used()
      modifies this, pmm, pmm.bitmap
      ensures pmm.Valid()
      ensures forall f: nat :: f in pmm.Used() <==>
                f in old(pmm.Used()) && !Released(m0, root, p, if level == 4 then 256 else 512, f)
      ensures calls == old(|pmm.Used()|) - |pmm.Used()|
      ensures forall f: nat | !Below(m0, root, p, f) :: SameFrame(old(mem), mem, f)
      ensures forall j: nat | j < if level == 4 then 256 else 512 :: !Load(mem, table, j).present
      ensures forall j: nat | j >= if level == 4 then 256 else 512 :: Load(mem, table, j) == Load(m0, table, j)
      decreases level, 1
    {
      hide Tree, TableAt, Exclusive, Below, ReleasedAt, IsPath, Released, Intact;
      var n := if level == 4 then 256 else 512;
      calls := 0;
      TearStart(m0, mem, root, u0, p, table);
      for i := 0 to n
        invariant pmm.Valid() && table in mem && |mem[table]| == ENTRIES
        invariant forall f: nat :: f in pmm.Used() <==> f in old(pmm.Used()) && !Released(m0, root, p, i, f)
        invariant calls == old(|pmm.Used()|) - |pmm.Used()|
        invariant forall f: nat | !Below(m0, root, p, f) :: SameFrame(old(mem), mem, f)
        invariant forall j: nat | j < i :: !Load(mem, table, j).present
        invariant forall j: nat | j >= i :: Load(mem, table, j) == Load(m0, table, j)
        invariant forall j: nat | i <= j < n :: Intact(m0, mem, root, p + [j])
      {
        ghost var m1 := mem;
        TearEntry(m0, root, u0, p, i, n, table);
        ghost var more := FreeEntry(m0, root, u0, p, table, level, i);
        calls := calls + more;
        forall j: nat | i + 1 <= j < n ensures Intact(m0, mem, root, p + [j]) {
          IntactPreserved(m0, m1, mem, root, u0, p, i, j, table);
        }
      }
    }

    /**
     Tears down the user half of an address space that is neither the kernel's nor the current
     one: frees, each exactly once, the frames the user half holds and the root, and nothing else.
     */
    method PagetableFreeOwned(root: nat, kernelRoot: nat, cr3: nat) returns (done: bool, ghost calls: nat)
      requires pmm.Valid() && (root != 0 ==> Tree(mem, root, pmm.Used()) && Exclusive(mem, root, pmm.Used()))
      modifies this, pmm, pmm.bitmap
      ensures pmm.Valid()
      ensures done == (root != 0 && root != kernelRoot && root != cr3)
      ensures !done ==> mem == old(mem) && pmm.Used() == old(pmm.Used()) && pmm.freePages == old(pmm.freePages)
      ensures done ==> forall f: nat ::
                         f in pmm.Used() <==> f in old(pmm.Used()) && f != root && !UserHeld(old(mem), root, f)
      ensures done ==> calls == pmm.freePages - old(pmm.freePages) == old(|pmm.Used()|) - |pmm.Used()|
      ensures done ==>
               forall r, f: nat | Reaches(old(mem), root, r, f) && !(IsUserPath(r) && Holds(old(mem), root, r, f))
                                          && f != root && f in old(pmm.Used()) :: f in pmm.Used()
      ensures done ==> forall j: nat | j >= 256 :: Load(mem, root, j) == Load(old(mem), root, j)
      ensures done ==> forall va: nat | va < 0x8000_0000_0000 :: FreedAt(old(mem), root, pmm.Used(), va)
      ensures done ==> forall va: nat | 0x8000_0000_0000 <= va < 0x1_0000_0000_0000 ::
                         KeptAt(old(mem), root, old(pmm.Used()), pmm.Used(), va)
    {
      hide Tree, Exclusive, UserHeld, Released, ReleasedAt, Reaches, Holds, FreedAt, KeptAt;
      done, calls := false, 0;
      if root == 0 || root == kernelRoot { return; }
      if cr3 == root { return; }
      ghost var m0, u0 := mem, pmm.Used();
      ReleasedIsUserHeld(m0, root);
      RootIsNotHeld(m0, root, u0);
      UserHalfIsUsed(m0, root, u0);
      ghost var below := FreeUserTables(m0, root, u0, [], root, 4);
      assert root in pmm.Used();
      pmm.Free(root);
      calls := below + 1;
      done := true;
      forall r, f: nat | Reaches(m0, root, r, f) && !(IsUserPath(r) && Holds(m0, root, r, f)) && f != root && f in u0
        ensures f in pmm.Used()
      {
        OthersAreNotHeld(m0, root, u0, r, f);
      }
      forall va: nat | va < 0x8000_0000_0000 ensures FreedAt(m0, root, pmm.Used(), va) {
        UserAddressFreed(m0, root, pmm.Used(), va);
      }
      forall va: nat | 0x8000_0000_0000 <= va < 0x1_0000_0000_0000 ensures KeptAt(m0, root, u0, pmm.Used(), va) {
        KernelAddressKept(m0, root, u0, pmm.Used(), va);
      }
    }
  }
}
