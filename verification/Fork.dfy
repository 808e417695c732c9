/** The page copy of fork: four nested loops over the parent's user half. */
module Fork {
  import opened Common
  import opened PageTables
  import opened Rights
  import opened Growth
  import opened Teardown
  import opened Vmm
  import opened ForkCopy

  /** The copying invariant on a live address-space pair. */
  ghost predicate Copying(vm: VirtualMemory, m0: Memory, parent: nat, child: nat, u0: set<nat>, lo: nat, hi: nat,
                          bound: nat)
    reads vm, vm.pmm, vm.pmm.bitmap
  {
    && vm.pmm.Valid() && ForkReady(m0, parent, child, u0)
    && CopyInv(m0, vm.mem, parent, child, u0, vm.pmm.Used(), lo, hi, bound)
  }

  lemma CopyingFacts(m0: Memory, m: Memory, parent: nat, child: nat, u0: set<nat>, u: set<nat>, lo: nat, hi: nat,
                     bound: nat)
    requires ForkReady(m0, parent, child, u0) && CopyInv(m0, m, parent, child, u0, u, lo, hi, bound)
    ensures 0 in u && Tree(m, child, u) && ParentKept(m0, m, parent)
  {
  }

  /** The frame page p is mapped to in the child: a fresh copy if owned, the parent's own frame if not. */
  method FrameFor(vm: VirtualMemory, ghost m0: Memory, ghost parent: nat, ghost child: nat, ghost u0: set<nat>,
                  ghost lo: nat, ghost hi: nat, ghost p: Path, pte: Word) returns (r: Option<nat>)
    requires IsUserPage(p) && LeafAt(m0, parent, p) == Some(pte)
    requires Copying(vm, m0, parent, child, u0, lo, hi, AddressOf(p))
    modifies vm, vm.pmm, vm.pmm.bitmap
    ensures r.Some? ==> Copying(vm, m0, parent, child, u0, lo, hi, AddressOf(p))
                        && RightWord(m0, vm.mem, parent, child, u0, vm.pmm.Used(), lo, hi, p, Word(r.value, true,
                                     pte.flags))
  {
    hide Tree, TableAt, LeafAt, AddressOf, ForkReady, CopyInv, PathOf, Private, IsTable, Belongs, IsPath;
    if !pte.flags.owned { return Some(pte.frame); }
    CopyingFacts(m0, vm.mem, parent, child, u0, vm.pmm.Used(), lo, hi, AddressOf(p));
    OwnedPage(m0, vm.mem, parent, child, u0, p, pte);
    ghost var m, u := vm.mem, vm.pmm.Used();
    var g := vm.pmm.AllocPages(1);
    if g.None? { return None; }
    InvAfterFreshFrame(m0, m, parent, child, u0, u, lo, hi, AddressOf(p), g.value, m[pte.frame],
                       m[g.value := m[pte.frame]]);
    vm.mem := vm.mem[g.value := vm.mem[pte.frame]];
    assert vm.pmm.Used() == u + {g.value};
    StartIsContained(m0, m, parent, child, u0, u, lo, hi, AddressOf(p));
    r := g;
  }

  lemma StartIsContained(m0: Memory, m: Memory, parent: nat, child: nat, u0: set<nat>, u: set<nat>, lo: nat, hi: nat,
                         bound: nat)
    requires CopyInv(m0, m, parent, child, u0, u, lo, hi, bound)
    ensures u0 <= u
  {
  }

  /** One present page of the parent; false is the out-of-memory panic. */
  method CopyPage(vm: VirtualMemory, ghost m0: Memory, ghost parent: nat, child: nat, ghost u0: set<nat>,
                  lo: nat, hi: nat, ghost p: Path, va: nat, pte: Word) returns (ok: bool)
    requires IsUserPage(p) && va == AddressOf(p) && LeafAt(m0, parent, p) == Some(pte)
    requires Copying(vm, m0, parent, child, u0, lo, hi, va)
    modifies vm, vm.pmm, vm.pmm.bitmap
    ensures ok ==> Copying(vm, m0, parent, child, u0, lo, hi, va + 0x1000)
  {
    hide Tree, TableAt, LeafAt, AddressOf, ForkReady, CopyInv;
    hide PathOf, Mapped, NoHugePage, RightWord, IsTable, Belongs, IsPath, RightsMapped;
    if lo <= va < hi {
      SkipPage(m0, parent, lo, hi, p);
      SkipAhead(m0, vm.mem, parent, child, u0, vm.pmm.Used(), lo, hi, va, va + 0x1000);
      return true;
    }
    var frame := FrameFor(vm, m0, parent, child, u0, lo, hi, p, pte);
    if frame.None? { return false; }
    ghost var m1, u1 := vm.mem, vm.pmm.Used();
    CopyingFacts(m0, m1, parent, child, u0, u1, lo, hi, va);
    ChildHasNoHugePage(m0, m1, parent, child, u0, u1, lo, hi, va, p);
    ok := vm.MapPage(child, va, frame.value, pte.flags);
    if ok {
      CopyStep(m0, m1, vm.mem, parent, child, u0, u1, vm.pmm.Used(), lo, hi, p, Word(frame.value, true, pte.flags),
               va + 0x1000);
    }
  }

  lemma SkipPage(m0: Memory, parent: nat, lo: nat, hi: nat, p: Path)
    requires IsUserPage(p) && lo <= AddressOf(p) < hi
    ensures forall q | Copies(m0, parent, lo, hi, q) :: !(AddressOf(p) <= AddressOf(q) < AddressOf(p) + 0x1000)
  {
    hide AddressOf, LeafAt;
    forall q | Copies(m0, parent, lo, hi, q) ensures !(AddressOf(p) <= AddressOf(q) < AddressOf(p) + 0x1000) {
      if AddressOf(p) <= AddressOf(q) < AddressOf(p) + 0x1000 {
        SameAddressSamePath(p, q);
        assert false;
      }
    }
  }

  lemma OwnedPage(m0: Memory, m: Memory, parent: nat, child: nat, u0: set<nat>, p: Path, pte: Word)
    requires ForkReady(m0, parent, child, u0) && ParentKept(m0, m, parent)
    requires IsUserPage(p) && LeafAt(m0, parent, p) == Some(pte) && pte.flags.owned
    ensures pte.frame in u0 && pte.frame in m0 && pte.frame in m && m[pte.frame] == m0[pte.frame]
  {
    assert Owned(m0, parent, p, pte.frame);
    assert Belongs(m0, parent, pte.frame);
  }

  /** The pages of one page table. */
  method CopyPageTable(vm: VirtualMemory, ghost m0: Memory, ghost parent: nat, child: nat, ghost u0: set<nat>,
                       lo: nat, hi: nat, ghost p: Path, pt: nat, base: nat) returns (ok: bool)
    requires IsUserPath(p) && |p| == 3 && TableAt(m0, parent, p) == Some(pt) && base == BaseOf(p)
    requires Copying(vm, m0, parent, child, u0, lo, hi, base)
    modifies vm, vm.pmm, vm.pmm.bitmap
    ensures ok ==> Copying(vm, m0, parent, child, u0, lo, hi, base + 512 * 0x1000)
  {
    hide Tree, TableAt, LeafAt, AddressOf, BaseOf, ForkReady, CopyInv, Load;
    for i1 := 0 to 512
      invariant Copying(vm, m0, parent, child, u0, lo, hi, base + i1 * 0x1000)
    {
      EntryFacts(m0, vm.mem, parent, child, u0, vm.pmm.Used(), lo, hi, base + i1 * 0x1000, p, pt, i1);
      var pte := vm.mem[pt][i1];
      if !pte.present {
        SkipAhead(m0, vm.mem, parent, child, u0, vm.pmm.Used(), lo, hi, base + i1 * 0x1000,
                  base + i1 * 0x1000 + 0x1000);
      } else {
        ok := CopyPage(vm, m0, parent, child, u0, lo, hi, p + [i1], base + i1 * 0x1000, pte);
        if !ok { return; }
      }
      assert base + i1 * 0x1000 + 0x1000 == base + (i1 + 1) * 0x1000;
    }
    ok := true;
  }

  /** What is known about entry i of the parent's table at p when the copying reaches it. */
  lemma EntryFacts(m0: Memory, m: Memory, parent: nat, child: nat, u0: set<nat>, u: set<nat>, lo: nat, hi: nat,
                   bound: nat,
                   p: Path, t: nat, i: nat)
    requires ForkReady(m0, parent, child, u0) && CopyInv(m0, m, parent, child, u0, u, lo, hi, bound)
    requires IsTablePath(p) && TableAt(m0, parent, p) == Some(t) && i < ENTRIES
    requires if p == [] then i < USER_ENTRIES else IsUserPath(p)
    ensures t in m && i < |m[t]| && m[t][i] == Load(m0, t, i)
    ensures IsUserPath(p + [i]) && BaseOf(p + [i]) == BaseOf(p) + i * SpanOf(|p| + 1)
    ensures |p| == 3 ==> BaseOf(p + [i]) == AddressOf(p + [i])
    ensures !m[t][i].present ==> forall q | Copies(m0, parent, lo, hi, q) ::
              !(BaseOf(p + [i]) <= AddressOf(q) < BaseOf(p + [i]) + SpanOf(|p| + 1))
    ensures m[t][i].present && |p| < 3 ==> TableAt(m0, parent, p + [i]) == Some(m[t][i].frame)
    ensures m[t][i].present && |p| == 3 ==> LeafAt(m0, parent, p + [i]) == Some(m[t][i])
  {
    ParentWords(m0, m, parent, child, u0, p, t);
    BaseStep(p, i);
    assert (p + [i])[0] == if p == [] then i else p[0];
    assert Init(p + [i]) == p && Last(p + [i]) == i;
    assert |p| == 3 ==> p + [i] + seq(0, _ => 0) == p + [i];
    assert Load(m, t, i) == Load(m0, t, i);
    if m[t][i].present {
      PresentEntry(m0, parent, child, u0, p, i, t);
    } else {
      AbsentSubtree(m0, parent, lo, hi, p + [i]);
    }
  }

  /** The page tables of one page directory. */
  method CopyDirectory(vm: VirtualMemory, ghost m0: Memory, ghost parent: nat, child: nat, ghost u0: set<nat>,
                      lo: nat, hi: nat, ghost p: Path, pd: nat, base: nat) returns (ok: bool)
    requires IsUserPath(p) && |p| == 2 && TableAt(m0, parent, p) == Some(pd) && base == BaseOf(p)
    requires Copying(vm, m0, parent, child, u0, lo, hi, base)
    modifies vm, vm.pmm, vm.pmm.bitmap
    ensures ok ==> Copying(vm, m0, parent, child, u0, lo, hi, base + 512 * 0x20_0000)
  {
    hide Tree, TableAt, LeafAt, AddressOf, BaseOf, ForkReady, CopyInv, Load;
    for i2 := 0 to 512
      invariant Copying(vm, m0, parent, child, u0, lo, hi, base + i2 * 0x20_0000)
    {
      EntryFacts(m0, vm.mem, parent, child, u0, vm.pmm.Used(), lo, hi, base + i2 * 0x20_0000, p, pd, i2);
      var e := vm.mem[pd][i2];
      if !e.present {
        SkipAhead(m0, vm.mem, parent, child, u0, vm.pmm.Used(), lo, hi, base + i2 * 0x20_0000,
                  base + i2 * 0x20_0000 + 0x20_0000);
      } else {
        ok := CopyPageTable(vm, m0, parent, child, u0, lo, hi, p + [i2], e.frame, base + i2 * 0x20_0000);
        if !ok { return; }
      }
      assert base + i2 * 0x20_0000 + 0x20_0000 == base + (i2 + 1) * 0x20_0000;
    }
    ok := true;
  }

  /** The page directories of one pointer table. */
  method CopyPointerTable(vm: VirtualMemory, ghost m0: Memory, ghost parent: nat, child: nat, ghost u0: set<nat>,
                         lo: nat, hi: nat, ghost p: Path, pdpt: nat, base: nat) returns (ok: bool)
    requires IsUserPath(p) && |p| == 1 && TableAt(m0, parent, p) == Some(pdpt) && base == BaseOf(p)
    requires Copying(vm, m0, parent, child, u0, lo, hi, base)
    modifies vm, vm.pmm, vm.pmm.bitmap
    ensures ok ==> Copying(vm, m0, parent, child, u0, lo, hi, base + 512 * 0x4000_0000)
  {
    hide Tree, TableAt, LeafAt, AddressOf, BaseOf, ForkReady, CopyInv, Load;
    for i3 := 0 to 512
      invariant Copying(vm, m0, parent, child, u0, lo, hi, base + i3 * 0x4000_0000)
    {
      EntryFacts(m0, vm.mem, parent, child, u0, vm.pmm.Used(), lo, hi, base + i3 * 0x4000_0000, p, pdpt, i3);
      var e := vm.mem[pdpt][i3];
      if !e.present {
        SkipAhead(m0, vm.mem, parent, child, u0, vm.pmm.Used(), lo, hi, base + i3 * 0x4000_0000,
                  base + i3 * 0x4000_0000 + 0x4000_0000);
      } else {
        ok := CopyDirectory(vm, m0, parent, child, u0, lo, hi, p + [i3], e.frame, base + i3 * 0x4000_0000);
        if !ok { return; }
      }
      assert base + i3 * 0x4000_0000 + 0x4000_0000 == base + (i3 + 1) * 0x4000_0000;
    }
    ok := true;
  }

  /**
   Copies the parent's user half into the child, except the addresses lo .. hi: every present page
   arrives with its flags, owned pages as private copies in fresh frames, unowned pages in the
   parent's own frame; every other leaf of the child, and all of the parent, stays as it was.
   */
  method CopyUserPages(vm: VirtualMemory, parent: nat, child: nat, lo: nat, hi: nat) returns (ok: bool)
    requires vm.pmm.Valid() && ForkReady(vm.mem, parent, child, vm.pmm.Used())
    modifies vm, vm.pmm, vm.pmm.bitmap
    ensures ok ==> vm.pmm.Valid() && Tree(vm.mem, child, vm.pmm.Used())
    ensures ok ==> Forked(old(vm.mem), vm.mem, parent, child, old(vm.pmm.Used()), vm.pmm.Used(), lo, hi)
    ensures ok ==> ForkedByAddress(old(vm.mem), vm.mem, parent, child, old(vm.pmm.Used()), lo, hi)
  {
    hide Tree, TableAt, LeafAt, AddressOf, ForkReady, CopyInv, Load, Forked, ForkedByAddress;
    ghost var m0, u0 := vm.mem, vm.pmm.Used();
    CopyStart(m0, parent, child, u0, lo, hi);
    RootFacts(m0, parent);
    for i4 := 0 to 256
      invariant Copying(vm, m0, parent, child, u0, lo, hi, i4 * 0x80_0000_0000)
    {
      EntryFacts(m0, vm.mem, parent, child, u0, vm.pmm.Used(), lo, hi, i4 * 0x80_0000_0000, [], parent, i4);
      assert [] + [i4] == [i4];
      var e := vm.mem[parent][i4];
      if !e.present {
        SkipAhead(m0, vm.mem, parent, child, u0, vm.pmm.Used(), lo, hi,
                  i4 * 0x80_0000_0000, i4 * 0x80_0000_0000 + 0x80_0000_0000);
      } else {
        ok := CopyPointerTable(vm, m0, parent, child, u0, lo, hi, [i4], e.frame, i4 * 0x80_0000_0000);
        if !ok { return; }
      }
      assert i4 * 0x80_0000_0000 + 0x80_0000_0000 == (i4 + 1) * 0x80_0000_0000;
    }
    assert 256 * 0x80_0000_0000 == USER_TOP;
    CopyComplete(m0, vm.mem, parent, child, u0, vm.pmm.Used(), lo, hi);
    AddressesCopied(m0, vm.mem, parent, child, u0, vm.pmm.Used(), lo, hi);
    CopyingFacts(m0, vm.mem, parent, child, u0, vm.pmm.Used(), lo, hi, USER_TOP);
    ok := true;
  }

  lemma AddressesCopied(m0: Memory, m: Memory, parent: nat, child: nat, u0: set<nat>, u: set<nat>, lo: nat, hi: nat)
    requires ForkReady(m0, parent, child, u0) && Forked(m0, m, parent, child, u0, u, lo, hi)
    ensures ForkedByAddress(m0, m, parent, child, u0, lo, hi)
  {
    hide Forked, CopiedAt, VirtToPhys, NoHugeInUserHalf, Tree, Belongs;
    forall va: nat | va < 0x1_0000_0000_0000
      ensures if va < 0x8000_0000_0000 && VirtToPhys(m0, parent, va) != NotPresent && !(lo <= va / 0x1000 * 0x1000 < hi)
              then CopiedAt(m0, m, parent, child, u0, va)
              else VirtToPhys(m, child, va) == VirtToPhys(m0, child, va)
    {
      ForkedAt(m0, m, parent, child, u0, u, lo, hi, va);
    }
  }

  lemma RootFacts(m: Memory, root: nat)
    ensures IsTablePath([]) && TableAt(m, root, []) == Some(root) && BaseOf([]) == 0
  {
    assert [] + seq(4, _ => 0) == [0, 0, 0, 0];
  }
}
