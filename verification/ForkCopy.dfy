/**
 Copying an address space for fork: what one copied page does to the parent's and the
 child's tree, as an invariant over the addresses copied so far.
 */
module ForkCopy {
  import opened Common
  import opened PageTables
  import opened Growth
  import opened Rights
  import opened Teardown

  /** A path of four indices in the user half. */
  ghost predicate IsUserPage(q: Path) {
    |q| == 4 && IsUserPath(q)
  }

  /** A table the user half of an address space is reached through: the root or a user table. */
  ghost predicate IsUserTablePath(q: Path) {
    IsTablePath(q) && (q == [] || IsUserPath(q))
  }

  /** Frame f is a table of the address space or one of its locally owned user pages. */
  ghost predicate Belongs(m: Memory, root: nat, f: nat) {
    || IsTable(m, root, f)
    || exists q :: IsUserPage(q) && Owned(m, root, q, f)
  }

  ghost predicate Owned(m: Memory, root: nat, q: Path, f: nat) {
    LeafAt(m, root, q).Some? && LeafAt(m, root, q).value.flags.owned && LeafAt(m, root, q).value.frame == f
  }

  ghost predicate NoHugeInUserHalf(m: Memory, root: nat) {
    forall q | IsUserPath(q) && |q| < 4 :: LeafAt(m, root, q).None?
  }

  /**
   What fork starts from: two trees, no huge pages in the user halves, everything that belongs to
   the parent in use, and none of it a table the child's user half is reached through.
   */
  ghost predicate ForkReady(m: Memory, parent: nat, child: nat, used: set<nat>) {
    && Tree(m, parent, used) && Tree(m, child, used) && 0 in used
    && NoHugeInUserHalf(m, parent) && NoHugeInUserHalf(m, child)
    && (forall f: nat | Belongs(m, parent, f) :: f in used && f in m && |m[f]| == ENTRIES)
    && (forall q, f | IsUserTablePath(q) && TableAt(m, child, q) == Some(f) :: !Belongs(m, parent, f))
  }

  /** Page q of the parent is to be copied. */
  ghost predicate Copies(m0: Memory, parent: nat, lo: nat, hi: nat, q: Path) {
    IsUserPage(q) && LeafAt(m0, parent, q).Some? && !(lo <= AddressOf(q) < hi)
  }

  /** Page q arrived in the child: same flags; a private copy if owned, the parent's own frame if not. */
  ghost predicate Arrived(m0: Memory, m: Memory, parent: nat, child: nat, u0: set<nat>, u: set<nat>, q: Path)
    requires LeafAt(m0, parent, q).Some?
  {
    var w := LeafAt(m0, parent, q).value;
    && LeafAt(m, child, q).Some?
    && var c := LeafAt(m, child, q).value;
    && c.flags == w.flags
    && (!w.flags.owned ==> c.frame == w.frame)
    && (w.flags.owned ==>
          c.frame !in u0 && c.frame in u && !IsTable(m, child, c.frame)
          && c.frame in m && w.frame in m0 && m[c.frame] == m0[w.frame])
  }

  /** Tables the child's user half gained are frames that were not in use at the start. */
  ghost predicate TablesFresh(m0: Memory, m: Memory, child: nat, u0: set<nat>) {
    forall q | IsUserTablePath(q) && TableAt(m, child, q) != TableAt(m0, child, q) ::
      TableAt(m, child, q).Some? && TableAt(m, child, q).value !in u0
  }

  ghost predicate ParentKept(m0: Memory, m: Memory, parent: nat) {
    forall f: nat | Belongs(m0, parent, f) :: SameFrame(m0, m, f)
  }

  /** Page q is to be copied and lies below the bound. */
  ghost predicate Due(m0: Memory, parent: nat, lo: nat, hi: nat, bound: nat, q: Path) {
    Copies(m0, parent, lo, hi, q) && AddressOf(q) < bound
  }

  ghost predicate AllArrived(m0: Memory, m: Memory, parent: nat, child: nat, u0: set<nat>, u: set<nat>,
                             lo: nat, hi: nat, bound: nat)
  {
    forall q | Due(m0, parent, lo, hi, bound, q) :: Arrived(m0, m, parent, child, u0, u, q)
  }

  ghost predicate OthersKept(m0: Memory, m: Memory, parent: nat, child: nat, lo: nat, hi: nat, bound: nat) {
    forall q | IsPath(q) && !Due(m0, parent, lo, hi, bound, q) :: LeafAt(m, child, q) == LeafAt(m0, child, q)
  }

  /** Frame f is the private copy of page q. */
  ghost predicate Private(m0: Memory, m: Memory, parent: nat, child: nat, lo: nat, hi: nat, bound: nat, q: Path,
                          f: nat) {
    && Due(m0, parent, lo, hi, bound, q)
    && LeafAt(m0, parent, q).value.flags.owned && LeafAt(m, child, q).Some? && LeafAt(m, child, q).value.frame == f
  }

  ghost predicate NoSharing(m0: Memory, m: Memory, parent: nat, child: nat, lo: nat, hi: nat, bound: nat) {
    forall q, q', f: nat | Private(m0, m, parent, child, lo, hi, bound, q, f)
                      && Private(m0, m, parent, child, lo, hi, bound, q', f) :: q == q'
  }

  /** The copying invariant: user pages below the bound are done, all other leaves of the child are as before. */
  ghost predicate CopyInv(m0: Memory, m: Memory, parent: nat, child: nat, u0: set<nat>, u: set<nat>,
                          lo: nat, hi: nat, bound: nat)
  {
    && u0 <= u && Tree(m, child, u)
    && TablesFresh(m0, m, child, u0) && ParentKept(m0, m, parent)
    && AllArrived(m0, m, parent, child, u0, u, lo, hi, bound)
    && OthersKept(m0, m, parent, child, lo, hi, bound)
    && NoSharing(m0, m, parent, child, lo, hi, bound)
    && RightsDone(m0, m, parent, child, lo, hi, bound)
  }

  /** A copied page grants what its flags say, any other address of the child no less than before. */
  ghost predicate RightsDoneAt(m0: Memory, m: Memory, parent: nat, child: nat, lo: nat, hi: nat, bound: nat, v: nat,
                               r: Right)
  {
    if Due(m0, parent, lo, hi, bound, PathOf(v))
    then LeafAt(m0, parent, PathOf(v)).Some?
         && Granted(m, child, v, r) == Bit(LeafAt(m0, parent, PathOf(v)).value.flags, r)
    else Granted(m0, child, v, r) ==> Granted(m, child, v, r)
  }

  ghost predicate RightsDone(m0: Memory, m: Memory, parent: nat, child: nat, lo: nat, hi: nat, bound: nat) {
    forall v: nat, r: Right :: RightsDoneAt(m0, m, parent, child, lo, hi, bound, v, r)
  }

  lemma RightsStart(m0: Memory, parent: nat, child: nat, lo: nat, hi: nat)
    ensures RightsDone(m0, m0, parent, child, lo, hi, 0)
  {
    hide Granted, PathOf, LeafAt, AddressOf;
  }

  lemma RightsFresh(m0: Memory, m: Memory, parent: nat, child: nat, u: set<nat>, lo: nat, hi: nat, bound: nat, g: nat,
                    x: seq<Word>)
    requires RightsDone(m0, m, parent, child, lo, hi, bound) && Tree(m, child, u) && g !in u
    ensures RightsDone(m0, m[g := x], parent, child, lo, hi, bound)
  {
    var m' := m[g := x];
    forall s, j: nat | IsTablePath(s) && TableAt(m, child, s).Some?
      ensures Load(m', TableAt(m, child, s).value, j) == Load(m, TableAt(m, child, s).value, j)
    {
      assert TableAt(m, child, s).value in u;
    }
    hide Due, Walk, PathOf, LeafAt, TableAt, Load, Tree;
    forall v: nat, r: Right ensures RightsDoneAt(m0, m', parent, child, lo, hi, bound, v, r) {
      assert RightsDoneAt(m0, m, parent, child, lo, hi, bound, v, r);
      WalkStays(m, m', child, v);
    }
  }

  lemma RightsStep(m0: Memory, m: Memory, m': Memory, parent: nat, child: nat, u0: set<nat>, u: set<nat>, lo: nat,
                   hi: nat, p: Path, w: Word, b: nat)
    requires IsUserPage(p) && Copies(m0, parent, lo, hi, p) && b == AddressOf(p) + 0x1000
    requires RightsDone(m0, m, parent, child, lo, hi, AddressOf(p))
    requires AllArrived(m0, m, parent, child, u0, u, lo, hi, AddressOf(p))
    requires RightsMapped(m, m', child, p, w.flags) && w.flags == LeafAt(m0, parent, p).value.flags
    ensures RightsDone(m0, m', parent, child, lo, hi, b)
  {
    hide Granted, PageGrants, PathOf, LeafAt, AddressOf, Due;
    assert LeafAt(m0, parent, p).Some?;
    forall v: nat, r: Right ensures RightsDoneAt(m0, m', parent, child, lo, hi, b, v, r) {
      var q := PathOf(v);
      DueStep(m0, parent, lo, hi, p, b, q);
      assert RightsDoneAt(m0, m, parent, child, lo, hi, AddressOf(p), v, r);
      assert RightsAt(m, m', child, p, w.flags, v, r);
      if q != p && Due(m0, parent, lo, hi, AddressOf(p), q) {
        assert Arrived(m0, m, parent, child, u0, u, q);
        LeafGrants(m, child, v, r);
      }
    }
  }

  lemma RightsSkip(m0: Memory, m: Memory, parent: nat, child: nat, lo: nat, hi: nat, bound: nat, bound': nat)
    requires RightsDone(m0, m, parent, child, lo, hi, bound)
    requires forall q :: Due(m0, parent, lo, hi, bound', q) <==> Due(m0, parent, lo, hi, bound, q)
    ensures RightsDone(m0, m, parent, child, lo, hi, bound')
  {
    hide Granted, PathOf, LeafAt, Due;
    forall v: nat, r: Right ensures RightsDoneAt(m0, m, parent, child, lo, hi, bound', v, r) {
      assert RightsDoneAt(m0, m, parent, child, lo, hi, bound, v, r);
    }
  }

  // ----- The parent stays -----

  lemma {:induction false} SameTablesSameTree(m0: Memory, m: Memory, root: nat, q: Path)
    requires IsTablePath(q)
    requires forall f | IsTable(m0, root, f) :: SameFrame(m0, m, f)
    ensures TableAt(m, root, q) == TableAt(m0, root, q)
    decreases |q|
  {
    if q != [] {
      SameTablesSameTree(m0, m, root, Init(q));
      var t := TableAt(m0, root, Init(q));
      if t.Some? {
        assert IsTable(m0, root, t.value);
      }
    }
  }

  /** While everything that belongs to the parent keeps its words, the parent's tables and leaves stay. */
  lemma ParentUnchanged(m0: Memory, m: Memory, parent: nat)
    requires forall f: nat | Belongs(m0, parent, f) :: SameFrame(m0, m, f)
    ensures forall q | IsTablePath(q) :: TableAt(m, parent, q) == TableAt(m0, parent, q)
    ensures SameLeaves(m0, m, parent)
  {
    forall q | IsTablePath(q) ensures TableAt(m, parent, q) == TableAt(m0, parent, q) {
      SameTablesSameTree(m0, m, parent, q);
    }
    forall q | IsPath(q) && 2 <= |q| ensures LeafAt(m, parent, q) == LeafAt(m0, parent, q) {
      var t := TableAt(m0, parent, Init(q));
      assert IsTablePath(Init(q));
      if t.Some? {
        assert IsTable(m0, parent, t.value);
        assert SameFrame(m0, m, t.value);
      }
    }
  }

  // ----- A fresh data frame -----

  /** Filling a frame that was not in use changes no tree. */
  lemma {:induction false} FreshFrameTableAt(m: Memory, root: nat, used: set<nat>, g: nat, x: seq<Word>, q: Path)
    requires Tree(m, root, used) && g !in used && IsTablePath(q)
    ensures TableAt(m[g := x], root, q) == TableAt(m, root, q)
    decreases |q|
  {
    if q != [] {
      FreshFrameTableAt(m, root, used, g, x, Init(q));
    }
  }

  lemma FreshFrame(m: Memory, root: nat, used: set<nat>, g: nat, x: seq<Word>)
    requires Tree(m, root, used) && g !in used
    ensures Tree(m[g := x], root, used + {g})
    ensures forall q | IsTablePath(q) :: TableAt(m[g := x], root, q) == TableAt(m, root, q)
    ensures SameLeaves(m, m[g := x], root)
    ensures !IsTable(m[g := x], root, g)
  {
    var m' := m[g := x];
    forall q | IsTablePath(q) ensures TableAt(m', root, q) == TableAt(m, root, q) {
      FreshFrameTableAt(m, root, used, g, x, q);
    }
    forall q | IsPath(q) && 2 <= |q| ensures LeafAt(m', root, q) == LeafAt(m, root, q) {
      assert IsTablePath(Init(q));
    }
  }

  lemma InvAfterFreshFrame(m0: Memory, m: Memory, parent: nat, child: nat, u0: set<nat>, u: set<nat>,
                           lo: nat, hi: nat, bound: nat, g: nat, x: seq<Word>, m': Memory)
    requires ForkReady(m0, parent, child, u0) && CopyInv(m0, m, parent, child, u0, u, lo, hi, bound) && g !in u
    requires m' == m[g := x]
    ensures CopyInv(m0, m', parent, child, u0, u + {g}, lo, hi, bound)
    ensures !IsTable(m', child, g)
    ensures forall q :: !Private(m0, m', parent, child, lo, hi, bound, q, g)
  {
    FreshFrame(m, child, u, g, x);
    RightsFresh(m0, m, parent, child, u, lo, hi, bound, g, x);
    hide Tree, TableAt, LeafAt, Belongs, Due, NoHugeInUserHalf, RightsDone;
    TablesEquivalent(m, m', child);
    forall q | Due(m0, parent, lo, hi, bound, q) ensures Arrived(m0, m', parent, child, u0, u + {g}, q) {
      DueIsPath(m0, parent, lo, hi, bound, q);
      assert Arrived(m0, m, parent, child, u0, u, q);
    }
    forall q, f | Private(m0, m', parent, child, lo, hi, bound, q, f)
      ensures Private(m0, m, parent, child, lo, hi, bound, q, f) && f in u
    {
      DueIsPath(m0, parent, lo, hi, bound, q);
      assert Arrived(m0, m, parent, child, u0, u, q);
    }
  }

  lemma TablesEquivalent(m: Memory, m': Memory, root: nat)
    requires forall q | IsTablePath(q) :: TableAt(m', root, q) == TableAt(m, root, q)
    ensures forall f: nat :: IsTable(m', root, f) <==> IsTable(m, root, f)
  {
  }

  lemma DueIsPath(m0: Memory, parent: nat, lo: nat, hi: nat, bound: nat, q: Path)
    requires Due(m0, parent, lo, hi, bound, q)
    ensures IsPath(q) && |q| == 4 && LeafAt(m0, parent, q).Some?
  {
  }

  // ----- One copied page -----

  lemma PathPrefixesAreUserTables(p: Path)
    requires IsUserPage(p)
    ensures forall k: nat | k <= 3 :: IsUserTablePath(p[..k])
  {
  }

  lemma SameAddressSamePath(p: Path, q: Path)
    requires |p| == 4 && |q| == 4 && IsPath(p) && IsPath(q)
    requires AddressOf(p) <= AddressOf(q) < AddressOf(p) + 0x1000
    ensures p == q
  {
    PathBijection(p);
    PathBijection(q);
    assert PageOf(AddressOf(p)) == PageOf(AddressOf(q));
    SamePathSamePage(AddressOf(p), AddressOf(q));
  }

  /** A used frame that is no table the child's path is walked through keeps its words when a page is mapped. */
  lemma MappingKeepsFrame(m: Memory, m': Memory, child: nat, u: set<nat>, u': set<nat>, p: Path, w: Word, f: nat)
    requires IsUserPage(p) && Mapped(m, m', child, u, u', p, w) && f in u
    requires forall k: nat | k <= 3 :: TableAt(m, child, p[..k]) != Some(f)
    ensures SameFrame(m, m', f)
  {
  }

  lemma MappingKeepsParent(m0: Memory, m: Memory, m': Memory, parent: nat, child: nat, u0: set<nat>, u: set<nat>,
                           u': set<nat>,
                           p: Path, w: Word)
    requires ForkReady(m0, parent, child, u0) && IsUserPage(p) && u0 <= u && Mapped(m, m', child, u, u', p, w)
    requires TablesFresh(m0, m, child, u0) && ParentKept(m0, m, parent)
    ensures TablesFresh(m0, m', child, u0) && ParentKept(m0, m', parent)
  {
    PathPrefixesAreUserTables(p);
    hide Tree, TableAt, LeafAt, Belongs, NoHugeInUserHalf, OffPathWords;
    forall f: nat | Belongs(m0, parent, f) ensures SameFrame(m0, m', f) {
      assert SameFrame(m0, m, f);
      forall k: nat | k <= 3 ensures TableAt(m, child, p[..k]) != Some(f) {
        assert IsUserTablePath(p[..k]);
      }
      MappingKeepsFrame(m, m', child, u, u', p, w, f);
    }
  }

  lemma MappingKeepsArrived(m0: Memory, m: Memory, m': Memory, parent: nat, child: nat, u0: set<nat>, u: set<nat>,
                            u': set<nat>,
                            p: Path, w: Word, q: Path)
    requires IsUserPage(p) && IsUserPage(q) && q != p && Mapped(m, m', child, u, u', p, w)
    requires LeafAt(m0, parent, q).Some? && Arrived(m0, m, parent, child, u0, u, q)
    ensures Arrived(m0, m', parent, child, u0, u', q)
  {
    var c := LeafAt(m, child, q).value;
    if LeafAt(m0, parent, q).value.flags.owned {
      PathPrefixesAreUserTables(p);
      MappingKeepsFrame(m, m', child, u, u', p, w, c.frame);
      StaysNoTable(m, m', child, u, u', p, w, c.frame);
    }
  }

  lemma StaysNoTable(m: Memory, m': Memory, child: nat, u: set<nat>, u': set<nat>, p: Path, w: Word, f: nat)
    requires IsUserPage(p) && Mapped(m, m', child, u, u', p, w) && f in u && !IsTable(m, child, f)
    ensures !IsTable(m', child, f)
  {
    forall q | IsTablePath(q) ensures TableAt(m', child, q) != Some(f) {
      assert TableAt(m, child, q) != Some(f);
    }
  }

  /** The word mapped for page p is what the copy must arrive as. */
  ghost predicate RightWord(m0: Memory, m: Memory, parent: nat, child: nat, u0: set<nat>, u: set<nat>,
                            lo: nat, hi: nat, p: Path, w: Word)
    requires IsUserPage(p) && LeafAt(m0, parent, p).Some?
  {
    var o := LeafAt(m0, parent, p).value;
    && w.flags == o.flags && w.present
    && (!o.flags.owned ==> w.frame == o.frame)
    && (o.flags.owned ==>
          && w.frame !in u0 && w.frame in u && !IsTable(m, child, w.frame)
          && w.frame in m && o.frame in m0 && m[w.frame] == m0[o.frame]
          && forall q :: !Private(m0, m, parent, child, lo, hi, AddressOf(p), q, w.frame))
  }

  lemma DueStep(m0: Memory, parent: nat, lo: nat, hi: nat, p: Path, b: nat, q: Path)
    requires IsUserPage(p) && Copies(m0, parent, lo, hi, p) && b == AddressOf(p) + 0x1000
    ensures Due(m0, parent, lo, hi, b, q) <==> Due(m0, parent, lo, hi, AddressOf(p), q) || q == p
  {
    if Due(m0, parent, lo, hi, b, q) && !Due(m0, parent, lo, hi, AddressOf(p), q) {
      SameAddressSamePath(p, q);
    }
  }

  lemma CopiedPageArrives(m0: Memory, m: Memory, m': Memory, parent: nat, child: nat, u0: set<nat>, u: set<nat>,
                          u': set<nat>,
                          lo: nat, hi: nat, p: Path, w: Word)
    requires IsUserPage(p) && Copies(m0, parent, lo, hi, p)
    requires Mapped(m, m', child, u, u', p, w) && RightWord(m0, m, parent, child, u0, u, lo, hi, p, w)
    ensures Arrived(m0, m', parent, child, u0, u', p)
  {
    if w.flags.owned {
      PathPrefixesAreUserTables(p);
      MappingKeepsFrame(m, m', child, u, u', p, w, w.frame);
      StaysNoTable(m, m', child, u, u', p, w, w.frame);
    }
  }

  /** Mapping the right word at the bound moves the bound one page up. */
  lemma CopyStep(m0: Memory, m: Memory, m': Memory, parent: nat, child: nat, u0: set<nat>, u: set<nat>, u': set<nat>,
                 lo: nat, hi: nat, p: Path, w: Word, b: nat)
    requires |p| == 4 && b == AddressOf(p) + 0x1000
    requires ForkReady(m0, parent, child, u0) && IsUserPage(p) && Copies(m0, parent, lo, hi, p)
    requires CopyInv(m0, m, parent, child, u0, u, lo, hi, AddressOf(p)) && Tree(m', child, u')
    requires Mapped(m, m', child, u, u', p, w) && RightWord(m0, m, parent, child, u0, u, lo, hi, p, w)
    requires RightsMapped(m, m', child, p, w.flags)
    ensures CopyInv(m0, m', parent, child, u0, u', lo, hi, b)
  {
    RightFlags(m0, m, parent, child, u0, u, lo, hi, p, w);
    RightsStep(m0, m, m', parent, child, u0, u, lo, hi, p, w, b);
    hide RightsDone, RightsMapped;
    hide Tree, TableAt, LeafAt, Belongs, NoHugeInUserHalf, Due, Copies, Arrived, AddressOf, RightWord, ForkReady,
      TablesFresh, ParentKept, OffPathWords;
    MappingKeepsParent(m0, m, m', parent, child, u0, u, u', p, w);
    forall q ensures Due(m0, parent, lo, hi, b, q) <==> Due(m0, parent, lo, hi, AddressOf(p), q) || q == p {
      DueStep(m0, parent, lo, hi, p, b, q);
    }
    CopyStepArrived(m0, m, m', parent, child, u0, u, u', lo, hi, p, w, b);
    CopyStepNoSharing(m0, m, m', parent, child, u0, u, u', lo, hi, p, w, b);
  }

  lemma RightFlags(m0: Memory, m: Memory, parent: nat, child: nat, u0: set<nat>, u: set<nat>, lo: nat, hi: nat, p: Path,
                   w: Word)
    requires IsUserPage(p) && Copies(m0, parent, lo, hi, p) && RightWord(m0, m, parent, child, u0, u, lo, hi, p, w)
    ensures LeafAt(m0, parent, p).Some? && w.flags == LeafAt(m0, parent, p).value.flags
  {
  }

  lemma CopyStepArrived(m0: Memory, m: Memory, m': Memory, parent: nat, child: nat, u0: set<nat>, u: set<nat>,
                        u': set<nat>,
                        lo: nat, hi: nat, p: Path, w: Word, b: nat)
    requires |p| == 4 && b == AddressOf(p) + 0x1000
    requires IsUserPage(p) && Copies(m0, parent, lo, hi, p)
    requires AllArrived(m0, m, parent, child, u0, u, lo, hi, AddressOf(p))
    requires Mapped(m, m', child, u, u', p, w) && RightWord(m0, m, parent, child, u0, u, lo, hi, p, w)
    ensures AllArrived(m0, m', parent, child, u0, u', lo, hi, b)
  {
    hide LeafAt, AddressOf, Arrived, Mapped, RightWord;
    forall q | Due(m0, parent, lo, hi, b, q) ensures Arrived(m0, m', parent, child, u0, u', q) {
      DueStep(m0, parent, lo, hi, p, b, q);
      if q == p {
        CopiedPageArrives(m0, m, m', parent, child, u0, u, u', lo, hi, p, w);
      } else {
        MappingKeepsArrived(m0, m, m', parent, child, u0, u, u', p, w, q);
      }
    }
  }

  lemma CopyStepNoSharing(m0: Memory, m: Memory, m': Memory, parent: nat, child: nat, u0: set<nat>, u: set<nat>,
                          u': set<nat>,
                          lo: nat, hi: nat, p: Path, w: Word, b: nat)
    requires |p| == 4 && b == AddressOf(p) + 0x1000
    requires IsUserPage(p) && Copies(m0, parent, lo, hi, p)
    requires NoSharing(m0, m, parent, child, lo, hi, AddressOf(p))
    requires Mapped(m, m', child, u, u', p, w) && RightWord(m0, m, parent, child, u0, u, lo, hi, p, w)
    ensures NoSharing(m0, m', parent, child, lo, hi, b)
  {
    hide LeafAt, AddressOf, GrewTables;
    forall q, f: nat | Private(m0, m', parent, child, lo, hi, b, q, f)
      ensures (q == p && f == w.frame && LeafAt(m0, parent, p).value.flags.owned)
              || (q != p && Private(m0, m, parent, child, lo, hi, AddressOf(p), q, f))
    {
      DueStep(m0, parent, lo, hi, p, b, q);
      DueIsPath(m0, parent, lo, hi, b, q);
    }
    forall q, q', f: nat | Private(m0, m', parent, child, lo, hi, b, q, f)
                           && Private(m0, m', parent, child, lo, hi, b, q', f)
      ensures q == q'
    {
      assert !Private(m0, m, parent, child, lo, hi, AddressOf(p), q, w.frame) || !w.flags.owned;
      assert !Private(m0, m, parent, child, lo, hi, AddressOf(p), q', w.frame) || !w.flags.owned;
    }
  }

  /** Where nothing is to be copied, the bound may move on. */
  lemma SkipAhead(m0: Memory, m: Memory, parent: nat, child: nat, u0: set<nat>, u: set<nat>,
                  lo: nat, hi: nat, bound: nat, bound': nat)
    requires CopyInv(m0, m, parent, child, u0, u, lo, hi, bound) && bound <= bound'
    requires forall q | Copies(m0, parent, lo, hi, q) :: !(bound <= AddressOf(q) < bound')
    ensures CopyInv(m0, m, parent, child, u0, u, lo, hi, bound')
  {
    hide Tree, TableAt, LeafAt, Belongs, Arrived, TablesFresh, ParentKept, AddressOf, Copies;
    assert forall q :: Due(m0, parent, lo, hi, bound', q) <==> Due(m0, parent, lo, hi, bound, q) by {
      SkipDue(m0, parent, lo, hi, bound, bound');
    }
    RightsSkip(m0, m, parent, child, lo, hi, bound, bound');
    hide Due, RightsDone;
    assert forall q, f: nat :: Private(m0, m, parent, child, lo, hi, bound', q, f) <==>
                               Private(m0, m, parent, child, lo, hi, bound, q, f);
    hide Private;
  }

  lemma SkipDue(m0: Memory, parent: nat, lo: nat, hi: nat, bound: nat, bound': nat)
    requires bound <= bound' && forall q | Copies(m0, parent, lo, hi, q) :: !(bound <= AddressOf(q) < bound')
    ensures forall q :: Due(m0, parent, lo, hi, bound', q) <==> Due(m0, parent, lo, hi, bound, q)
  {
  }

  lemma CopyStart(m0: Memory, parent: nat, child: nat, u0: set<nat>, lo: nat, hi: nat)
    requires ForkReady(m0, parent, child, u0)
    ensures CopyInv(m0, m0, parent, child, u0, u0, lo, hi, 0)
  {
    RightsStart(m0, parent, child, lo, hi);
    hide RightsDone;
  }

  // ----- Which addresses lie below an entry -----

  /** The first address below a path prefix. */
  function BaseOf(p: Path): nat
    requires |p| <= 4
  {
    AddressOf(p + seq(4 - |p|, _ => 0))
  }

  function SpanOf(depth: nat): nat
    requires 1 <= depth <= 4
  {
    if depth == 1 then 0x80_0000_0000 else if depth == 2 then 0x4000_0000 else if depth == 3 then 0x20_0000 else 0x1000
  }

  /** The addresses from a prefix's base over its span are exactly the pages below the prefix. */
  lemma SpanIsPrefix(p: Path, q: Path)
    requires 1 <= |p| <= 4 && IsPath(p) && |q| == 4 && IsPath(q)
    requires BaseOf(p) <= AddressOf(q) < BaseOf(p) + SpanOf(|p|)
    ensures p <= q
  {
    var r := p + seq(4 - |p|, _ => 0);
    assert forall k | 0 <= k < |p| :: r[k] == p[k];
    assert forall k | |p| <= k < 4 :: r[k] == 0;
    if |p| == 1 {
      assert p[0] == q[0];
    } else if |p| == 2 {
      assert p[0] == q[0] && p[1] == q[1];
    } else if |p| == 3 {
      assert p[0] == q[0] && p[1] == q[1] && p[2] == q[2];
    } else {
      assert r == p;
      SameAddressSamePath(p, q);
    }
  }

  /** An entry that is not present has nothing to copy below it. */
  lemma AbsentSubtree(m0: Memory, parent: nat, lo: nat, hi: nat, p: Path)
    requires 1 <= |p| <= 4 && IsPath(p) && TableAt(m0, parent, Init(p)).Some?
    requires !Load(m0, TableAt(m0, parent, Init(p)).value, Last(p)).present
    ensures forall q | Copies(m0, parent, lo, hi, q) :: !(BaseOf(p) <= AddressOf(q) < BaseOf(p) + SpanOf(|p|))
  {
    assert p == Init(p) + [Last(p)];
    forall q | Copies(m0, parent, lo, hi, q) ensures !(BaseOf(p) <= AddressOf(q) < BaseOf(p) + SpanOf(|p|)) {
      if BaseOf(p) <= AddressOf(q) < BaseOf(p) + SpanOf(|p|) {
        SpanIsPrefix(p, q);
        AbsentHoldsNothing(m0, parent, Init(p), Last(p), q);
        assert false;
      }
    }
  }

  lemma BaseStep(p: Path, i: nat)
    requires |p| <= 3
    ensures BaseOf(p + [i]) == BaseOf(p) + i * SpanOf(|p| + 1)
  {
    var r, r' := p + seq(4 - |p|, _ => 0), p + [i] + seq(3 - |p|, _ => 0);
    assert forall k | 0 <= k < 4 && k != |p| :: r[k] == r'[k];
    assert r[|p|] == 0 && r'[|p|] == i;
  }

  /** While the parent is kept, its tables read as they did at the start. */
  lemma ParentWords(m0: Memory, m: Memory, parent: nat, child: nat, u0: set<nat>, p: Path, t: nat)
    requires ForkReady(m0, parent, child, u0) && ParentKept(m0, m, parent)
    requires IsTablePath(p) && TableAt(m0, parent, p) == Some(t)
    ensures t in m && |m[t]| == ENTRIES && forall i: nat :: Load(m, t, i) == Load(m0, t, i)
  {
    assert IsTable(m0, parent, t);
    assert Belongs(m0, parent, t);
  }

  lemma PresentEntry(m0: Memory, parent: nat, child: nat, u0: set<nat>, p: Path, i: nat, t: nat)
    requires ForkReady(m0, parent, child, u0) && IsTablePath(p) && TableAt(m0, parent, p) == Some(t)
    requires IsUserPath(p + [i]) && Load(m0, t, i).present
    ensures |p| < 3 ==> TableAt(m0, parent, p + [i]) == Some(Load(m0, t, i).frame)
    ensures |p| == 3 ==> LeafAt(m0, parent, p + [i]) == Some(Load(m0, t, i))
  {
    assert Init(p + [i]) == p && Last(p + [i]) == i;
    if 0 < |p| < 3 {
      assert LeafAt(m0, parent, p + [i]).None?;
    }
  }

  lemma ChildHasNoHugePage(m0: Memory, m: Memory, parent: nat, child: nat, u0: set<nat>, u: set<nat>,
                           lo: nat, hi: nat, bound: nat, p: Path)
    requires ForkReady(m0, parent, child, u0) && CopyInv(m0, m, parent, child, u0, u, lo, hi, bound) && IsUserPage(p)
    ensures PathOf(AddressOf(p)) == p && NoHugePage(m, child, AddressOf(p))
  {
    PathBijection(p);
    assert IsUserPath(p[..2]) && IsUserPath(p[..3]);
    assert !Due(m0, parent, lo, hi, bound, p[..2]) && !Due(m0, parent, lo, hi, bound, p[..3]);
  }

  const USER_TOP: nat := 0x8000_0000_0000

  lemma UserPagesBelowTop(q: Path)
    requires IsUserPage(q)
    ensures AddressOf(q) < USER_TOP
  {
  }

  /** The finished copy, page by page. */
  ghost predicate Forked(m0: Memory, m: Memory, parent: nat, child: nat, u0: set<nat>, u: set<nat>, lo: nat, hi: nat) {
    && (forall q | Copies(m0, parent, lo, hi, q) :: Arrived(m0, m, parent, child, u0, u, q))
    && (forall q | IsPath(q) && !Copies(m0, parent, lo, hi, q) :: LeafAt(m, child, q) == LeafAt(m0, child, q))
    && (forall q, q' | q != q' && Copies(m0, parent, lo, hi, q) && Copies(m0, parent, lo, hi, q')
                       && LeafAt(m0, parent, q).value.flags.owned && LeafAt(m0, parent, q').value.flags.owned ::
          LeafAt(m, child, q).value.frame != LeafAt(m, child, q').value.frame)
    && SameLeaves(m0, m, parent)
    && (forall f: nat | Belongs(m0, parent, f) :: SameFrame(m0, m, f))
    && RightsDone(m0, m, parent, child, lo, hi, USER_TOP)
  }

  /** Address va is in the child what it is in the parent: the same byte of an equal or the same page, same rights. */
  ghost predicate CopiedAt(m0: Memory, m: Memory, parent: nat, child: nat, u0: set<nat>, va: nat) {
    var t, c, ws, cs := VirtToPhys(m0, parent, va), VirtToPhys(m, child, va), Walk(m0, parent, va), Walk(m, child, va);
    && t.Page4K? && c.Page4K? && t.offset == c.offset == va % 0x1000
    && |ws| == |cs| == 4 && ws[3].flags == cs[3].flags
    && (if ws[3].flags.owned then c.frame !in u0 && c.frame in m && t.frame in m0 && m[c.frame] == m0[t.frame]
        else c.frame == t.frame)
    && forall r: Right :: Granted(m, child, va, r) == PageGrants(m0, parent, va, r)
  }

  /** Every address below 128 TiB that is mapped and not left out is copied; all other addresses stay. */
  ghost predicate ForkedByAddress(m0: Memory, m: Memory, parent: nat, child: nat, u0: set<nat>, lo: nat, hi: nat) {
    forall va: nat | va < 0x1_0000_0000_0000 ::
      if va < 0x8000_0000_0000 && VirtToPhys(m0, parent, va) != NotPresent && !(lo <= va / 0x1000 * 0x1000 < hi)
      then CopiedAt(m0, m, parent, child, u0, va)
      else VirtToPhys(m, child, va) == VirtToPhys(m0, child, va)
  }

  lemma ForkedAt(m0: Memory, m: Memory, parent: nat, child: nat, u0: set<nat>, u: set<nat>, lo: nat, hi: nat, va: nat)
    requires Forked(m0, m, parent, child, u0, u, lo, hi) && NoHugeInUserHalf(m0, parent) && va < 0x1_0000_0000_0000
    requires NoHugeInUserHalf(m0, child)
    ensures if va < 0x8000_0000_0000 && VirtToPhys(m0, parent, va) != NotPresent && !(lo <= va / 0x1000 * 0x1000 < hi)
            then CopiedAt(m0, m, parent, child, u0, va)
            else VirtToPhys(m, child, va) == VirtToPhys(m0, child, va)
  {
    hide *;
    CopiesAt(m0, parent, lo, hi, va);
    if Copies(m0, parent, lo, hi, PathOf(va)) {
      CopyArrives(m0, m, parent, child, u0, u, lo, hi, va);
    } else {
      OtherStays(m0, m, parent, child, u0, u, lo, hi, va);
    }
  }

  lemma CopiesAt(m0: Memory, parent: nat, lo: nat, hi: nat, va: nat)
    requires NoHugeInUserHalf(m0, parent) && va < 0x1_0000_0000_0000
    ensures Copies(m0, parent, lo, hi, PathOf(va)) <==>
            va < 0x8000_0000_0000 && VirtToPhys(m0, parent, va) != NotPresent && !(lo <= va / 0x1000 * 0x1000 < hi)
  {
    hide PathOf, VirtToPhys, AddressOf, LeafAt, TableAt, Load;
    var q := PathOf(va);
    UserHalf(va);
    AddressOfPath(va);
    assert PageOf(va) == va / 0x1000;
    WalkIsLeafLookup(m0, parent, va);
    if IsUserPath(q) { UserPrefixes(q); }
  }

  lemma UserPrefixes(q: Path)
    requires IsUserPage(q)
    ensures IsUserPath(q[..2]) && IsUserPath(q[..3])
  {
  }

  lemma CopyArrives(m0: Memory, m: Memory, parent: nat, child: nat, u0: set<nat>, u: set<nat>, lo: nat, hi: nat,
                    va: nat)
    requires Forked(m0, m, parent, child, u0, u, lo, hi) && Copies(m0, parent, lo, hi, PathOf(va))
    requires NoHugeInUserHalf(m0, parent) && NoHugeInUserHalf(m0, child)
    ensures CopiedAt(m0, m, parent, child, u0, va)
  {
    hide PathOf, VirtToPhys, AddressOf, LeafAt, TableAt, Load, Walk, RightsDone, Belongs, SameLeaves, Granted,
         PageGrants;
    var q := PathOf(va);
    assert Arrived(m0, m, parent, child, u0, u, q);
    UserPrefixes(q);
    WalkIsLeafLookup(m0, parent, va);
    WalkIsLeafLookup(m, child, va);
    WalkEnds(m0, parent, va);
    WalkEnds(m, child, va);
    assert IsPath(q[..2]) && IsPath(q[..3]) && |q[..2]| == 2 && |q[..3]| == 3;
    forall r: Right ensures Granted(m, child, va, r) == PageGrants(m0, parent, va, r) {
      LeafGrants(m0, parent, va, r);
      CopiedRights(m0, m, parent, child, lo, hi, va, r);
    }
  }

  lemma CopiedRights(m0: Memory, m: Memory, parent: nat, child: nat, lo: nat, hi: nat, va: nat, r: Right)
    requires RightsDone(m0, m, parent, child, lo, hi, USER_TOP) && Copies(m0, parent, lo, hi, PathOf(va))
    ensures LeafAt(m0, parent, PathOf(va)).Some?
    ensures Granted(m, child, va, r) == Bit(LeafAt(m0, parent, PathOf(va)).value.flags, r)
  {
    hide PathOf, AddressOf, LeafAt, Granted;
    UserPagesBelowTop(PathOf(va));
    assert RightsDoneAt(m0, m, parent, child, lo, hi, USER_TOP, va, r);
  }

  lemma OtherStays(m0: Memory, m: Memory, parent: nat, child: nat, u0: set<nat>, u: set<nat>, lo: nat, hi: nat, va: nat)
    requires Forked(m0, m, parent, child, u0, u, lo, hi) && !Copies(m0, parent, lo, hi, PathOf(va))
    ensures VirtToPhys(m, child, va) == VirtToPhys(m0, child, va)
  {
    hide PathOf, VirtToPhys, AddressOf, LeafAt, TableAt, RightsDone, Belongs, SameLeaves;
    var q := PathOf(va);
    WalkIsLeafLookup(m, child, va);
    WalkIsLeafLookup(m0, child, va);
    assert IsPath(q[..2]) && IsPath(q[..3]) && |q[..2]| == 2 && |q[..3]| == 3;
  }

  lemma CopyComplete(m0: Memory, m: Memory, parent: nat, child: nat, u0: set<nat>, u: set<nat>, lo: nat, hi: nat)
    requires CopyInv(m0, m, parent, child, u0, u, lo, hi, USER_TOP)
    ensures Forked(m0, m, parent, child, u0, u, lo, hi)
  {
    ParentUnchanged(m0, m, parent);
    hide LeafAt, TableAt, Belongs, Tree, AddressOf, RightsDone;
    forall q | IsUserPage(q) ensures AddressOf(q) < USER_TOP {
      UserPagesBelowTop(q);
    }
    forall q, q' | q != q' && Copies(m0, parent, lo, hi, q) && Copies(m0, parent, lo, hi, q')
                   && LeafAt(m0, parent, q).value.flags.owned && LeafAt(m0, parent, q').value.flags.owned
      ensures LeafAt(m, child, q).Some? && LeafAt(m, child, q').Some?
      ensures LeafAt(m, child, q).value.frame != LeafAt(m, child, q').value.frame
    {
      assert Arrived(m0, m, parent, child, u0, u, q) && Arrived(m0, m, parent, child, u0, u, q');
      assert Private(m0, m, parent, child, lo, hi, USER_TOP, q, LeafAt(m, child, q).value.frame);
      assert Private(m0, m, parent, child, lo, hi, USER_TOP, q', LeafAt(m, child, q').value.frame);
    }
  }
}
