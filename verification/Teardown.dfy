/**
 What tearing down an address space gives back: the frames reachable from its user half
 as tables or as locally owned leaves, described on the tree as it was at the start.
 */
module Teardown {
  import opened Common
  import opened PageTables
  import opened Growth
  import opened Rights

  const USER_ENTRIES: nat := 256

  /** Frame f is the table, or the locally owned leaf page, at path r. */
  ghost predicate Holds(m: Memory, root: nat, r: Path, f: nat) {
    && IsPath(r)
    && ((|r| <= 3 && TableAt(m, root, r) == Some(f))
        || (LeafAt(m, root, r).Some? && LeafAt(m, root, r).value.flags.owned && LeafAt(m, root, r).value.frame == f))
  }

  /** Frame f is held at q or somewhere below it. */
  ghost predicate ReleasedAt(m: Memory, root: nat, q: Path, f: nat) {
    exists r :: q <= r && Holds(m, root, r, f)
  }

  /** Frame f is held below one of the first n entries of the table at p. */
  ghost predicate Released(m: Memory, root: nat, p: Path, n: nat, f: nat) {
    exists j: nat :: j < n && ReleasedAt(m, root, p + [j], f)
  }

  ghost predicate IsUserPath(r: Path) {
    IsPath(r) && r != [] && r[0] < USER_ENTRIES
  }

  /** The user half is the lower half of the 48-bit addresses. */
  lemma UserHalf(va: nat)
    requires va < 0x1_0000_0000_0000
    ensures IsUserPath(PathOf(va)) <==> va < 0x8000_0000_0000
  {
    assert PathOf(va)[0] == va / 0x80_0000_0000;
  }

  /**
   Frame f is the table at path r, of either half, or the page of the user-half leaf there, owned or not.
   Kernel-half leaves do not count: the direct map covers every frame.
   */
  ghost predicate Reaches(m: Memory, root: nat, r: Path, f: nat) {
    && IsPath(r)
    && ((|r| <= 3 && TableAt(m, root, r) == Some(f))
        || (IsUserPath(r) && LeafAt(m, root, r).Some? && LeafAt(m, root, r).value.frame == f))
  }

  /** The user half holds frame f. */
  ghost predicate UserHeld(m: Memory, root: nat, f: nat) {
    exists r :: IsUserPath(r) && Holds(m, root, r, f)
  }

  /** Every frame the user half holds is in use, is no other table, and is on no other user page. */
  ghost predicate Exclusive(m: Memory, root: nat, used: set<nat>) {
    && (forall r, f | IsUserPath(r) && Holds(m, root, r, f) :: f in used)
    && (forall r, r', f | IsUserPath(r) && Holds(m, root, r, f) && Reaches(m, root, r', f) :: r == r')
  }

  /** Visiting the first 256 entries of the root meets exactly the frames the user half holds. */
  lemma ReleasedIsUserHeld(m: Memory, root: nat)
    ensures forall f: nat :: Released(m, root, [], USER_ENTRIES, f) <==> UserHeld(m, root, f)
  {
    forall f: nat | Released(m, root, [], USER_ENTRIES, f) ensures UserHeld(m, root, f) {
      var j: nat :| j < USER_ENTRIES && ReleasedAt(m, root, [] + [j], f);
      var r :| [] + [j] <= r && Holds(m, root, r, f);
      assert r[0] == j;
    }
    forall f: nat | UserHeld(m, root, f) ensures Released(m, root, [], USER_ENTRIES, f) {
      var r :| IsUserPath(r) && Holds(m, root, r, f);
      assert [] + [r[0]] <= r;
      assert ReleasedAt(m, root, [] + [r[0]], f);
    }
  }

  /** The tables walked for a mapped address are not in use, nor is its page if owned. */
  ghost predicate FreedAt(m: Memory, root: nat, used: set<nat>, va: nat) {
    var ws := Walk(m, root, va);
    && (forall k | 0 <= k < |ws| - 1 :: ws[k].frame !in used)
    && (ws != [] && ws[|ws| - 1].flags.owned ==> ws[|ws| - 1].frame !in used)
  }

  /** The tables walked for a mapped address, below the root, are in use if they were. */
  ghost predicate KeptAt(m: Memory, root: nat, before: set<nat>, used: set<nat>, va: nat) {
    var ws := Walk(m, root, va);
    forall k | 0 <= k < |ws| - 1 && ws[k].frame in before && ws[k].frame != root :: ws[k].frame in used
  }

  /** The words walked for an address lead to the tables on its path. */
  lemma WalkedTables(m: Memory, root: nat, va: nat, k: nat)
    requires k < |Walk(m, root, va)| - 1
    ensures |Walk(m, root, va)| <= 4 && TableAt(m, root, PathOf(va)[..k + 1]) == Some(Walk(m, root, va)[k].frame)
  {
    var q := PathOf(va);
    WalkTables(m, root, va);
    assert q[0] == (va / 0x80_0000_0000) % 512 && q[1] == (va / 0x4000_0000) % 512 && q[2] == (va / 0x20_0000) % 512;
    hide PathOf, Load, TableAt;
    assert k == 0 || k == 1 || k == 2;
  }

  lemma UserAddressFreed(m: Memory, root: nat, used: set<nat>, va: nat)
    requires va < 0x8000_0000_0000 && forall f: nat | UserHeld(m, root, f) :: f !in used
    ensures FreedAt(m, root, used, va)
  {
    var q, ws := PathOf(va), Walk(m, root, va);
    UserHalf(va);
    WalkEnds(m, root, va);
    hide PathOf, Walk, LeafAt, TableAt;
    forall k | 0 <= k < |ws| - 1 ensures ws[k].frame !in used {
      WalkedTables(m, root, va, k);
      assert Holds(m, root, q[..k + 1], ws[k].frame);
    }
    if ws != [] && ws[|ws| - 1].flags.owned {
      assert q[..4] == q;
      assert Holds(m, root, q[..|ws|], ws[|ws| - 1].frame);
    }
  }

  lemma KernelAddressKept(m: Memory, root: nat, before: set<nat>, used: set<nat>, va: nat)
    requires 0x8000_0000_0000 <= va < 0x1_0000_0000_0000
    requires forall r, f: nat | Reaches(m, root, r, f) && !(IsUserPath(r) && Holds(m, root, r, f)) && f != root
                                && f in before :: f in used
    ensures KeptAt(m, root, before, used, va)
  {
    var q, ws := PathOf(va), Walk(m, root, va);
    UserHalf(va);
    hide PathOf, Walk, LeafAt, TableAt;
    forall k | 0 <= k < |ws| - 1 && ws[k].frame in before && ws[k].frame != root ensures ws[k].frame in used {
      WalkedTables(m, root, va, k);
      assert q[..k + 1][0] == q[0];
      assert Reaches(m, root, q[..k + 1], ws[k].frame);
    }
  }

  lemma RootIsNotHeld(m: Memory, root: nat, used: set<nat>)
    requires Exclusive(m, root, used)
    ensures !UserHeld(m, root, root)
  {
    assert Reaches(m, root, [], root);
  }

  lemma OthersAreNotHeld(m: Memory, root: nat, used: set<nat>, r: Path, f: nat)
    requires Exclusive(m, root, used) && Reaches(m, root, r, f) && !(IsUserPath(r) && Holds(m, root, r, f))
    ensures !UserHeld(m, root, f)
  {
  }

  /** The tables at q and below still have the words they had in m0. */
  ghost predicate Intact(m0: Memory, m: Memory, root: nat, q: Path) {
    forall r | IsTablePath(r) && q <= r && TableAt(m0, root, r).Some? ::
      var f := TableAt(m0, root, r).value; f in m && f in m0 && m[f] == m0[f]
  }

  /** Frame f is a table at q or below. */
  ghost predicate Below(m: Memory, root: nat, q: Path, f: nat) {
    exists r :: IsTablePath(r) && q <= r && TableAt(m, root, r) == Some(f)
  }

  lemma NoTableUnder(m: Memory, root: nat, p: Path, i: nat, r: Path)
    requires TableAt(m, root, p).Some? && !Descends(Load(m, TableAt(m, root, p).value, i), |p|)
    requires p + [i] <= r
    ensures TableAt(m, root, r).None?
    ensures r != p + [i] ==> LeafAt(m, root, r).None?
  {
    NoTableBelowAbsent(m, root, p, i);
    NoTableBelow(m, root, p + [i], r);
    if r != p + [i] {
      assert p + [i] <= Init(r);
      NoTableBelow(m, root, p + [i], Init(r));
    }
  }

  lemma LeafAtEntry(m: Memory, root: nat, p: Path, i: nat)
    requires TableAt(m, root, p).Some? && 1 <= |p|
    ensures LeafAt(m, root, p + [i]) ==
            var w := Load(m, TableAt(m, root, p).value, i); if IsLeafWord(w, |p|) then Some(w) else None
  {
    assert Init(p + [i]) == p && Last(p + [i]) == i;
  }

  lemma AbsentHoldsNothing(m: Memory, root: nat, p: Path, i: nat, r: Path)
    requires IsTablePath(p) && TableAt(m, root, p).Some? && !Load(m, TableAt(m, root, p).value, i).present
    requires p + [i] <= r
    ensures TableAt(m, root, r).None? && LeafAt(m, root, r).None?
  {
    NoTableUnder(m, root, p, i, r);
    if 1 <= |p| { LeafAtEntry(m, root, p, i); }
  }

  lemma AbsentReleasesNothing(m: Memory, root: nat, p: Path, i: nat)
    requires IsTablePath(p) && TableAt(m, root, p).Some? && !Load(m, TableAt(m, root, p).value, i).present
    ensures forall f :: !ReleasedAt(m, root, p + [i], f)
  {
    hide Load, TableAt, LeafAt;
    forall r, f | p + [i] <= r ensures !Holds(m, root, r, f) {
      AbsentHoldsNothing(m, root, p, i, r);
    }
  }

  lemma LeafReleasesItsFrame(m: Memory, root: nat, p: Path, i: nat)
    requires IsTablePath(p) && i < ENTRIES && TableAt(m, root, p).Some?
    requires IsLeafWord(Load(m, TableAt(m, root, p).value, i), |p|)
    ensures var w := Load(m, TableAt(m, root, p).value, i);
            forall f :: ReleasedAt(m, root, p + [i], f) <==> w.flags.owned && f == w.frame
  {
    var w := Load(m, TableAt(m, root, p).value, i);
    LeafAtEntry(m, root, p, i);
    forall r, f | p + [i] <= r ensures Holds(m, root, r, f) <==> r == p + [i] && w.flags.owned && f == w.frame {
      if |p| < 3 || r != p + [i] {
        LeafTableFree(m, root, p, i, r);
      }
    }
    assert w.flags.owned ==> Holds(m, root, p + [i], w.frame);
  }

  lemma LeafTableFree(m: Memory, root: nat, p: Path, i: nat, r: Path)
    requires IsTablePath(p) && TableAt(m, root, p).Some? && p + [i] <= r
    requires IsLeafWord(Load(m, TableAt(m, root, p).value, i), |p|)
    requires |p| < 3 || r != p + [i]
    ensures |r| <= 3 ==> TableAt(m, root, r).None?
    ensures r != p + [i] && IsPath(r) ==> LeafAt(m, root, r).None?
  {
    if |p| < 3 {
      NoTableUnder(m, root, p, i, r);
    }
  }

  lemma TableReleasesItselfAndBelow(m: Memory, root: nat, p: Path, i: nat)
    requires IsTablePath(p + [i]) && TableAt(m, root, p).Some?
    requires Descends(Load(m, TableAt(m, root, p).value, i), |p|)
    ensures var c := Load(m, TableAt(m, root, p).value, i).frame;
            && TableAt(m, root, p + [i]) == Some(c)
            && forall f :: ReleasedAt(m, root, p + [i], f) <==> f == c || Released(m, root, p + [i], ENTRIES, f)
  {
    var n := p + [i];
    var c := Load(m, TableAt(m, root, p).value, i).frame;
    assert Init(n) == p && Last(n) == i;
    assert TableAt(m, root, n) == Some(c) && LeafAt(m, root, n).None?;
    forall f | ReleasedAt(m, root, n, f) ensures f == c || Released(m, root, n, ENTRIES, f) {
      var r :| n <= r && Holds(m, root, r, f);
      if r != n {
        var j := r[|n|];
        assert n + [j] <= r;
        assert ReleasedAt(m, root, n + [j], f);
      }
    }
    forall f | f == c || Released(m, root, n, ENTRIES, f) ensures ReleasedAt(m, root, n, f) {
      if f == c {
        assert Holds(m, root, n, f);
      } else {
        var j: nat :| j < ENTRIES && ReleasedAt(m, root, n + [j], f);
        var r :| n + [j] <= r && Holds(m, root, r, f);
        assert n <= r;
      }
    }
  }

  /** The subtrees of two entries share no table, and neither holds the table above them. */
  lemma SubtreesDisjoint(m: Memory, root: nat, used: set<nat>, p: Path, i: nat, j: nat, f: nat)
    requires Tree(m, root, used) && IsTablePath(p) && i != j && Below(m, root, p + [i], f)
    ensures !Below(m, root, p + [j], f)
    ensures TableAt(m, root, p) != Some(f)
  {
    var r :| IsTablePath(r) && p + [i] <= r && TableAt(m, root, r) == Some(f);
    assert r[|p|] == i;
    forall q | IsTablePath(q) && TableAt(m, root, q) == Some(f) ensures !(p + [j] <= q) && q != p {
      assert q == r;
      assert (p + [j])[|p|] == j;
    }
  }

  lemma UserPathIndex(p: Path, i: nat)
    requires IsUserPath(p + [i])
    ensures i < ENTRIES
  {
    assert (p + [i])[|p|] == i;
  }

  lemma UserPathBelow(p: Path, q: Path)
    requires IsUserPath(p) && p <= q && IsPath(q)
    ensures IsUserPath(q)
  {
  }

  /** A table's frame is not also released somewhere below it. */
  lemma TableNotReleasedBelow(m: Memory, root: nat, used: set<nat>, n: Path, c: nat)
    requires Exclusive(m, root, used) && IsTablePath(n) && IsUserPath(n) && TableAt(m, root, n) == Some(c)
    ensures !Released(m, root, n, ENTRIES, c)
  {
    assert Reaches(m, root, n, c);
    forall j: nat, r | n + [j] <= r ensures !Holds(m, root, r, c) {
      assert n <= r && |r| > |n|;
      if IsPath(r) { UserPathBelow(n, r); }
    }
  }

  /** Frames released below different entries of a table differ. */
  lemma ReleasedOnce(m: Memory, root: nat, used: set<nat>, p: Path, i: nat, f: nat)
    requires Exclusive(m, root, used) && IsUserPath(p + [i]) && ReleasedAt(m, root, p + [i], f)
    requires forall j: nat | j < i :: IsUserPath(p + [j])
    ensures !Released(m, root, p, i, f)
  {
    var r :| p + [i] <= r && Holds(m, root, r, f);
    UserPathBelow(p + [i], r);
    assert r[|p|] == i && Reaches(m, root, r, f);
    forall j: nat, q | j < i && p + [j] <= q ensures !Holds(m, root, q, f) {
      assert (p + [j])[|p|] == j;
      if IsPath(q) { UserPathBelow(p + [j], q); }
    }
  }

  lemma ReleasedStep(m: Memory, root: nat, p: Path, i: nat)
    ensures forall f: nat ::
              Released(m, root, p, i + 1, f) <==> Released(m, root, p, i, f) || ReleasedAt(m, root, p + [i], f)
  {
  }

  lemma TableNotBelow(m: Memory, root: nat, used: set<nat>, p: Path, i: nat, table: nat)
    requires Tree(m, root, used) && IsTablePath(p) && TableAt(m, root, p) == Some(table)
    ensures !Below(m, root, p + [i], table)
  {
    forall r | IsTablePath(r) && TableAt(m, root, r) == Some(table) ensures !(p + [i] <= r) {
      assert r == p;
    }
  }

  lemma BelowEntryIsBelow(m: Memory, root: nat, p: Path, i: nat, f: nat)
    requires Below(m, root, p + [i], f)
    ensures Below(m, root, p, f)
  {
    var r :| IsTablePath(r) && p + [i] <= r && TableAt(m, root, r) == Some(f);
    assert p <= r;
  }

  lemma IntactEntries(m0: Memory, m: Memory, root: nat, p: Path)
    requires Intact(m0, m, root, p)
    ensures forall j: nat :: Intact(m0, m, root, p + [j])
  {
    forall j: nat, r | IsTablePath(r) && p + [j] <= r ensures p <= r {}
  }

  /** Tearing down entry i leaves the subtree of any other entry as it was. */
  lemma IntactPreserved(m0: Memory, m: Memory, m': Memory, root: nat, used: set<nat>, p: Path, i: nat, j: nat,
                        table: nat)
    requires Tree(m0, root, used) && IsTablePath(p) && TableAt(m0, root, p) == Some(table) && i != j
    requires Intact(m0, m, root, p + [j])
    requires forall f: nat | f != table && !Below(m0, root, p + [i], f) :: SameFrame(m, m', f)
    ensures Intact(m0, m', root, p + [j])
  {
    forall r | IsTablePath(r) && p + [j] <= r && TableAt(m0, root, r).Some?
      ensures var f := TableAt(m0, root, r).value; f in m' && f in m0 && m'[f] == m0[f]
    {
      var f := TableAt(m0, root, r).value;
      assert Below(m0, root, p + [j], f);
      SubtreesDisjoint(m0, root, used, p, j, i, f);
    }
  }

  lemma TearStart(m0: Memory, m: Memory, root: nat, used: set<nat>, p: Path, table: nat)
    requires Tree(m0, root, used) && IsTablePath(p) && TableAt(m0, root, p) == Some(table) && Intact(m0, m, root, p)
    ensures table in m && |m[table]| == ENTRIES && forall j: nat :: Load(m, table, j) == Load(m0, table, j)
    ensures forall j: nat :: Intact(m0, m, root, p + [j])
    ensures forall f: nat :: !Released(m0, root, p, 0, f)
  {
    IntactEntries(m0, m, root, p);
  }

  /** What holds before entry i of the table at p is torn down, the earlier ones being gone. */
  lemma TearEntry(m0: Memory, root: nat, used: set<nat>, p: Path, i: nat, n: nat, table: nat)
    requires Tree(m0, root, used) && Exclusive(m0, root, used) && IsTablePath(p) && TableAt(m0, root, p) == Some(table)
    requires i < n <= ENTRIES && (p == [] ==> n <= USER_ENTRIES) && (p != [] ==> IsUserPath(p))
    ensures IsUserPath(p + [i])
    ensures forall f: nat | ReleasedAt(m0, root, p + [i], f) ::
              Released(m0, root, p, n, f) && !Released(m0, root, p, i, f)
    ensures forall f: nat :: Released(m0, root, p, i + 1, f) <==>
                             Released(m0, root, p, i, f) || ReleasedAt(m0, root, p + [i], f)
    ensures forall f: nat | !Below(m0, root, p, f) :: f != table && !Below(m0, root, p + [i], f)
  {
    forall j: nat | j < n ensures IsUserPath(p + [j]) {
      assert (p + [j])[0] == if p == [] then j else p[0];
    }
    ReleasedStep(m0, root, p, i);
    forall f: nat | ReleasedAt(m0, root, p + [i], f)
      ensures Released(m0, root, p, n, f) && !Released(m0, root, p, i, f)
    {
      ReleasedOnce(m0, root, used, p, i, f);
    }
    forall f: nat | Below(m0, root, p + [i], f) ensures Below(m0, root, p, f) {
      BelowEntryIsBelow(m0, root, p, i, f);
    }
  }

  lemma UserHalfIsUsed(m: Memory, root: nat, used: set<nat>)
    requires Tree(m, root, used) && Exclusive(m, root, used)
    ensures root in used && IsTablePath([]) && TableAt(m, root, []) == Some(root) && Intact(m, m, root, [])
    ensures forall f: nat | Released(m, root, [], USER_ENTRIES, f) :: f in used
  {
    ReleasedIsUserHeld(m, root);
    assert IsTablePath([]);
  }
}
