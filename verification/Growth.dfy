/**
 How a tree of page tables grows while pages are mapped: which tables appear, which
 words change, and what the walker then answers.
 */
module Growth {
  import opened Common
  import opened PageTables

  /** Frame f holds one of the tables walked for path p. */
  ghost predicate OnPath(m: Memory, root: nat, p: Path, f: nat)
    requires |p| == 4
  {
    exists k: nat :: k <= 3 && TableAt(m, root, p[..k]) == Some(f)
  }

  ghost predicate SameFrame(m: Memory, m': Memory, f: nat) {
    (f in m' <==> f in m) && (f in m ==> m'[f] == m[f])
  }

  /** In the tables on path p, the words off the path are the old ones, or zero in a new table. */
  ghost predicate OffPathWords(m: Memory, m': Memory, root: nat, used: set<nat>, p: Path)
    requires |p| == 4
  {
    forall k: nat, j: nat | k <= 3 && j != p[k] && TableAt(m', root, p[..k]).Some? ::
      var f := TableAt(m', root, p[..k]).value;
      Load(m', f, j) == if f in used then Load(m, f, j) else ZERO
  }

  lemma OneWordOffPath(m: Memory, m': Memory, root: nat, used: set<nat>, p: Path, t: nat)
    requires |p| == 4 && IsPath(p) && t <= 3 && Tree(m, root, used)
    requires TableAt(m, root, p[..t]).Some? && DiffersAt(m, m', used, TableAt(m, root, p[..t]).value, p[t])
    requires forall k: nat | k <= 3 && TableAt(m', root, p[..k]).Some? ::
               TableAt(m', root, p[..k]) == TableAt(m, root, p[..k])
               || (TableAt(m', root, p[..k]).value !in used && forall j ::
                                                                 Load(m', TableAt(m', root, p[..k]).value, j) == ZERO)
    ensures OffPathWords(m, m', root, used, p)
  {
    forall k: nat, j: nat | k <= 3 && j != p[k] && TableAt(m', root, p[..k]).Some?
      ensures var f := TableAt(m', root, p[..k]).value;
              Load(m', f, j) == if f in used then Load(m, f, j) else ZERO
    {
      assert IsTablePath(p[..k]) && IsTablePath(p[..t]);
      if TableAt(m', root, p[..k]) == TableAt(m, root, p[..t]) {
        assert TableAt(m', root, p[..k]) == TableAt(m, root, p[..k]);
        assert |p[..k]| == |p[..t]|;
      }
    }
  }

  /**
   From m to m' only tables on path p were created or written: every table stayed, each
   new table is a newly used frame, and every frame off the path kept its words.
   */
  ghost predicate GrewTables(m: Memory, m': Memory, root: nat, used: set<nat>, used': set<nat>, p: Path)
    requires |p| == 4
  {
    && used <= used'
    && (forall q | IsTablePath(q) && TableAt(m, root, q).Some? :: TableAt(m', root, q) == TableAt(m, root, q))
    && (forall q | IsTablePath(q) && TableAt(m', root, q) != TableAt(m, root, q) ::
          q <= p && TableAt(m', root, q).value !in used)
    && (forall f | f in used' && f !in used :: OnPath(m', root, p, f))
    && (forall f | f in used && !OnPath(m, root, p, f) :: SameFrame(m, m', f))
    && OffPathWords(m, m', root, used, p)
  }

  /** Growth that moved no leaf. */
  ghost predicate Grew(m: Memory, m': Memory, root: nat, used: set<nat>, used': set<nat>, p: Path)
    requires |p| == 4
  {
    SameLeaves(m, m', root) && GrewTables(m, m', root, used, used', p)
  }

  /** Growth that set the leaf at p to w and moved no other leaf. */
  ghost predicate Mapped(m: Memory, m': Memory, root: nat, used: set<nat>, used': set<nat>, p: Path, w: Word)
    requires |p| == 4
  {
    && (forall q | IsPath(q) :: LeafAt(m', root, q) == if q == p then Some(w) else LeafAt(m, root, q))
    && GrewTables(m, m', root, used, used', p)
  }

  lemma GrewTablesTransitive(m0: Memory, m1: Memory, m2: Memory, root: nat,
                             u0: set<nat>, u1: set<nat>, u2: set<nat>, p: Path)
    requires |p| == 4 && IsPath(p)
    requires GrewTables(m0, m1, root, u0, u1, p) && GrewTables(m1, m2, root, u1, u2, p)
    ensures GrewTables(m0, m2, root, u0, u2, p)
  {
    forall k: nat | k <= 3 ensures IsTablePath(p[..k]) {}
    forall f | f in u0 && !OnPath(m0, root, p, f) ensures SameFrame(m0, m2, f) {
      forall k: nat | k <= 3 ensures TableAt(m1, root, p[..k]) != Some(f) {
        assert TableAt(m0, root, p[..k]) != Some(f);
      }
    }
    forall f | f in u2 && f !in u0 ensures OnPath(m2, root, p, f) {
      if f in u1 {
        var k: nat :| k <= 3 && TableAt(m1, root, p[..k]) == Some(f);
        assert TableAt(m2, root, p[..k]) == Some(f);
      }
    }
    OffPathWordsTransitive(m0, m1, m2, root, u0, u1, u2, p);
  }

  lemma OffPathWordsTransitive(m0: Memory, m1: Memory, m2: Memory, root: nat,
                               u0: set<nat>, u1: set<nat>, u2: set<nat>, p: Path)
    requires |p| == 4 && IsPath(p)
    requires GrewTables(m0, m1, root, u0, u1, p) && GrewTables(m1, m2, root, u1, u2, p)
    ensures OffPathWords(m0, m2, root, u0, p)
  {
    forall k: nat, j: nat | k <= 3 && j != p[k] && TableAt(m2, root, p[..k]).Some?
      ensures var f := TableAt(m2, root, p[..k]).value;
              Load(m2, f, j) == if f in u0 then Load(m0, f, j) else ZERO
    {
      var f := TableAt(m2, root, p[..k]).value;
      assert IsTablePath(p[..k]);
      if f in u1 {
        assert TableAt(m1, root, p[..k]) == Some(f);
      }
    }
  }

  lemma GrewByOneWrite(m: Memory, m': Memory, root: nat, used: set<nat>, used': set<nat>, p: Path, t: nat)
    requires |p| == 4 && IsPath(p) && used <= used' && t <= 3 && TableAt(m, root, p[..t]).Some?
    requires forall q | IsTablePath(q) && TableAt(m', root, q) != TableAt(m, root, q) ::
               TableAt(m, root, q).None? && q <= p && TableAt(m', root, q).value !in used
    requires forall f | f in used' && f !in used :: OnPath(m', root, p, f)
    requires forall f | f in used && Some(f) != TableAt(m, root, p[..t]) :: SameFrame(m, m', f)
    requires OffPathWords(m, m', root, used, p)
    ensures GrewTables(m, m', root, used, used', p)
  {
  }

  lemma PrefixesAreTablePaths(p: Path)
    requires |p| == 4 && IsPath(p)
    ensures forall k: nat | k <= 3 :: IsTablePath(p[..k])
    ensures forall k: nat | k <= 3 :: p[..k] + [p[k]] == p[..k + 1]
    ensures forall k: nat | k <= 3 :: Init(p[..k + 1]) == p[..k] && Last(p[..k + 1]) == p[k]
  {
  }

  lemma GrewByWidening(m: Memory, root: nat, used: set<nat>, p: Path, k: nat, flags: Flags)
    requires |p| == 4 && IsPath(p) && k < 3 && Tree(m, root, used) && TableAt(m, root, p[..k]).Some?
    requires Descends(Load(m, TableAt(m, root, p[..k]).value, p[k]), k)
    ensures var f := TableAt(m, root, p[..k]).value;
            var m' := Store(m, f, p[k], Widened(Load(m, f, p[k]), flags));
            Grew(m, m', root, used, used, p) && Tree(m', root, used)
            && TableAt(m', root, p[..k + 1]) == Some(Load(m, f, p[k]).frame)
  {
    PrefixesAreTablePaths(p);
    var f := TableAt(m, root, p[..k]).value;
    var m' := Store(m, f, p[k], Widened(Load(m, f, p[k]), flags));
    WidenKeepsTree(m, root, used, p[..k], p[k], flags);
    OneWordOffPath(m, m', root, used, p, k);
    hide OffPathWords, SameLeaves, Tree, GrewTables;
    GrewByOneWrite(m, m', root, used, used, p, k);
  }

  lemma GrewByLinking(m: Memory, root: nat, used: set<nat>, p: Path, k: nat, g: nat, flags: Flags)
    requires |p| == 4 && IsPath(p) && k < 3 && Tree(m, root, used) && TableAt(m, root, p[..k]).Some?
    requires !Load(m, TableAt(m, root, p[..k]).value, p[k]).present && g !in used && g != 0
    ensures var m' := LinkTable(m, TableAt(m, root, p[..k]).value, p[k], g, flags);
            Grew(m, m', root, used, used + {g}, p) && Tree(m', root, used + {g})
            && TableAt(m', root, p[..k + 1]) == Some(g)
  {
    hide SameLeaves, GrewTables, TableAt, DiffersAt, SameFrame;
    PrefixesAreTablePaths(p);
    var f := TableAt(m, root, p[..k]).value;
    var m' := LinkTable(m, f, p[k], g, flags);
    LinkAddsOneTable(m, root, used, p[..k], p[k], g, flags);
    NoTableBelowAbsent(m, root, p[..k], p[k]);
    hide Tree;
    LinkedWords(m, used, f, p[k], g, flags);
    LinkedGrowth(m, m', root, used, p, k, g);
  }

  /** Linking a new table writes one word of the frames in use and zeroes the new one. */
  lemma LinkedWords(m: Memory, used: set<nat>, f: nat, i: nat, g: nat, flags: Flags)
    requires f in m && i < |m[f]| && f in used && g !in used
    ensures var m' := LinkTable(m, f, i, g, flags);
            DiffersAt(m, m', used, f, i) && (forall j :: Load(m', g, j) == ZERO) && forall h | h in used && h != f ::
                                                                                      SameFrame(m, m', h)
  {
  }

  lemma LinkedGrowth(m: Memory, m': Memory, root: nat, used: set<nat>, p: Path, k: nat, g: nat)
    requires |p| == 4 && IsPath(p) && k < 3 && Tree(m, root, used) && TableAt(m, root, p[..k]).Some?
    requires g !in used && TableAt(m, root, p[..k + 1]).None?
    requires forall q | IsTablePath(q) ::
               TableAt(m', root, q) == if q == p[..k + 1] then Some(g) else TableAt(m, root, q)
    requires DiffersAt(m, m', used, TableAt(m, root, p[..k]).value, p[k]) && forall j :: Load(m', g, j) == ZERO
    requires forall h | h in used && Some(h) != TableAt(m, root, p[..k]) :: SameFrame(m, m', h)
    ensures GrewTables(m, m', root, used, used + {g}, p)
  {
    hide OffPathWords, Tree, GrewTables, TableAt, DiffersAt, Load;
    PrefixesAreTablePaths(p);
    assert TableAt(m', root, p[..k + 1]) == Some(g);
    OneWordOffPath(m, m', root, used, p, k);
    GrewByOneWrite(m, m', root, used, used + {g}, p, k);
  }

  lemma MappedByLeafWrite(m: Memory, m1: Memory, root: nat, used: set<nat>, used': set<nat>, p: Path, w: Word)
    requires |p| == 4 && IsPath(p) && Tree(m1, root, used') && w.present
    requires Grew(m, m1, root, used, used', p) && TableAt(m1, root, p[..3]).Some?
    ensures var m2 := Store(m1, TableAt(m1, root, p[..3]).value, p[3], w);
            Mapped(m, m2, root, used, used', p, w) && Tree(m2, root, used')
  {
    hide OffPathWords, GrewTables, LeafAt;
    PrefixesAreTablePaths(p);
    var pt := TableAt(m1, root, p[..3]).value;
    var m2 := Store(m1, pt, p[3], w);
    LeafWriteIsLocal(m1, root, used', p[..3], p[3], w);
    OneWordOffPath(m1, m2, root, used', p, 3);
    GrewByOneWrite(m1, m2, root, used', used', p, 3);
    GrewTablesTransitive(m, m1, m2, root, used, used', used', p);
    hide OffPathWords, Tree, GrewTables, TableAt, LeafAt;
  }

  ghost predicate IsTable(m: Memory, root: nat, f: nat) {
    exists q :: IsTablePath(q) && TableAt(m, root, q) == Some(f)
  }

  /**
   The path-free form of growth: tables stayed, new tables and newly used frames are the
   same frames, and a used frame that held no table kept its words.
   */
  ghost predicate OnlyTablesGrew(m: Memory, m': Memory, root: nat, used: set<nat>, used': set<nat>) {
    && used <= used'
    && (forall q | IsTablePath(q) && TableAt(m, root, q).Some? :: TableAt(m', root, q) == TableAt(m, root, q))
    && (forall q | IsTablePath(q) && TableAt(m', root, q) != TableAt(m, root, q) :: TableAt(m', root, q).value !in used)
    && (forall f | f in used' && f !in used :: IsTable(m', root, f))
    && (forall f | f in used && !IsTable(m, root, f) :: SameFrame(m, m', f))
  }

  lemma GrowthIsGrowth(m: Memory, m': Memory, root: nat, used: set<nat>, used': set<nat>, p: Path)
    requires |p| == 4 && IsPath(p) && GrewTables(m, m', root, used, used', p)
    ensures OnlyTablesGrew(m, m', root, used, used')
  {
    forall k: nat | k <= 3 ensures IsTablePath(p[..k]) {}
  }

  lemma NothingGrew(m: Memory, root: nat, used: set<nat>)
    ensures OnlyTablesGrew(m, m, root, used, used)
  {
  }

  lemma OnlyTablesGrewTransitive(m0: Memory, m1: Memory, m2: Memory, root: nat, u0: set<nat>, u1: set<nat>,
                                 u2: set<nat>)
    requires OnlyTablesGrew(m0, m1, root, u0, u1) && OnlyTablesGrew(m1, m2, root, u1, u2)
    ensures OnlyTablesGrew(m0, m2, root, u0, u2)
  {
    forall f | f in u2 && f !in u0 ensures IsTable(m2, root, f) {
      if f in u1 {
        var q :| IsTablePath(q) && TableAt(m1, root, q) == Some(f);
        assert TableAt(m2, root, q) == Some(f);
      }
    }
  }

  /** How many pages v lies above va, going round the 48-bit address space. */
  function PagesAbove(va: nat, v: nat): (n: nat)
    ensures n < ADDRESS_PAGES
  {
    (PageOf(v) + ADDRESS_PAGES - PageOf(va)) % ADDRESS_PAGES
  }

  lemma PagesAboveMeaning(va: nat, v: nat, i: nat)
    requires i < ADDRESS_PAGES
    ensures PagesAbove(va, v) == i <==> PathOf(v) == PathOf(va + i * 0x1000)
  {
    SamePathSamePage(v, va + i * 0x1000);
    var a, b := va / 0x1000, v / 0x1000;
    assert (va + i * 0x1000) / 0x1000 == a + i;
    ModularDistance(a, b, i);
  }

  lemma ModularDistance(a: nat, b: nat, i: nat)
    requires i < ADDRESS_PAGES
    ensures (b % ADDRESS_PAGES + ADDRESS_PAGES - a % ADDRESS_PAGES) % ADDRESS_PAGES == i
            <==> b % ADDRESS_PAGES == (a + i) % ADDRESS_PAGES
  {
    var x, y := a % ADDRESS_PAGES, b % ADDRESS_PAGES;
    assert (a + i) % ADDRESS_PAGES == (x + i) % ADDRESS_PAGES;
    assert (x + i) % ADDRESS_PAGES == if x + i < ADDRESS_PAGES then x + i else x + i - ADDRESS_PAGES;
    assert (y + ADDRESS_PAGES - x) % ADDRESS_PAGES == if y < x then y + ADDRESS_PAGES - x else y - x;
  }

  /** The 4 KiB leaves of m' are those of m, with count pages from va mapped to consecutive frames. */
  ghost predicate RangeMapped(m: Memory, m': Memory, root: nat, va: nat, frame: nat, count: nat, flags: Flags) {
    && (forall q | IsPath(q) && |q| == 4 ::
          LeafAt(m', root, q) ==
          var i := PagesAbove(va, AddressOf(q));
          if i < count then Some(Word(frame + i, true, flags)) else LeafAt(m, root, q))
    && (forall q | IsPath(q) && |q| < 4 :: LeafAt(m', root, q) == LeafAt(m, root, q))
  }

  lemma RangeMappedStep(m: Memory, m1: Memory, m2: Memory, root: nat, va: nat, frame: nat, i: nat, flags: Flags,
                        used: set<nat>, used': set<nat>)
    requires i < ADDRESS_PAGES && RangeMapped(m, m1, root, va, frame, i, flags)
    requires Mapped(m1, m2, root, used, used', PathOf(va + i * 0x1000), Word(frame + i, true, flags))
    ensures RangeMapped(m, m2, root, va, frame, i + 1, flags)
  {
    hide PathOf, PagesAbove, AddressOf, LeafAt, GrewTables;
    forall q | IsPath(q) && |q| == 4
      ensures LeafAt(m2, root, q) ==
              var j := PagesAbove(va, AddressOf(q));
              if j < i + 1 then Some(Word(frame + j, true, flags)) else LeafAt(m, root, q)
    {
      PathBijection(q);
      PagesAboveMeaning(va, AddressOf(q), i);
    }
  }

  /** What the walker answers after a range was mapped: the range everywhere inside it, the old answer outside. */
  lemma RangeMappedWalk(m: Memory, m': Memory, root: nat, va: nat, frame: nat, count: nat, flags: Flags, v: nat)
    requires RangeMapped(m, m', root, va, frame, count, flags)
    requires forall i: nat | i < count :: NoHugePage(m, root, va + i * 0x1000)
    ensures VirtToPhys(m', root, v) ==
            var i := PagesAbove(va, v);
            if i < count then Page4K(frame + i, v % 0x1000) else VirtToPhys(m, root, v)
  {
    hide PathOf, PageOf, AddressOf, LeafAt, VirtToPhys;
    var p := PathOf(v);
    WalkIsLeafLookup(m, root, v);
    WalkIsLeafLookup(m', root, v);
    AddressOfPath(v);
    PathBijection(p);
    SamePathSamePage(AddressOf(p), v);
    var i := PagesAbove(va, v);
    assert i == PagesAbove(va, AddressOf(p));
    PagesAboveMeaning(va, v, i);
    assert IsPath(p[..2]) && IsPath(p[..3]);
    if i < count {
      assert NoHugePage(m, root, va + i * 0x1000);
    }
  }

  /** No huge page covers the address. */
  predicate NoHugePage(m: Memory, root: nat, va: nat) {
    LeafAt(m, root, PathOf(va)[..2]).None? && LeafAt(m, root, PathOf(va)[..3]).None?
  }
}
