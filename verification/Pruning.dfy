/**
 How a tree of page tables shrinks when a page is unmapped and the tables emptied on
 its path are given back.
 */
module Pruning {
  import opened Common
  import opened PageTables
  import opened Growth

  /** Every word of table f other than word i is zero. */
  ghost predicate OthersZero(m: Memory, f: nat, i: nat) {
    forall j: nat | j != i :: Load(m, f, j) == ZERO
  }

  ghost predicate WholePath(m: Memory, root: nat, p: Path)
    requires |p| == 4
  {
    forall t: nat | t <= 3 :: TableAt(m, root, p[..t]).Some?
  }

  /** Word j of frame f is the path word of one of the tables at depth d or deeper. */
  ghost predicate PathWord(m: Memory, root: nat, p: Path, d: nat, f: nat, j: nat)
    requires |p| == 4
  {
    exists t: nat :: d <= t <= 3 && TableAt(m, root, p[..t]) == Some(f) && j == p[t]
  }

  /** Frame f is one of the path's tables at depth d or deeper. */
  ghost predicate PathTable(m: Memory, root: nat, p: Path, d: nat, f: nat)
    requires |p| == 4
  {
    exists t: nat :: d <= t <= 3 && TableAt(m, root, p[..t]) == Some(f)
  }

  /** Leaves and tables once the leaf at p is cleared and the path's tables at depth k, ..., 3 are gone. */
  ghost predicate UnmappedTree(m: Memory, m': Memory, root: nat, used': set<nat>, p: Path, k: nat)
    requires |p| == 4 && 1 <= k <= 4
  {
    && WholePath(m, root, p)
    && Tree(m', root, used')
    && (forall q | IsPath(q) :: LeafAt(m', root, q) == if q == p then None else LeafAt(m, root, q))
    && (forall q | IsTablePath(q) :: TableAt(m', root, q) == if |q| >= k && q <= p then None else TableAt(m, root, q))
  }

  /** Frames and words at that point: the gone tables are free, and only path words were zeroed. */
  ghost predicate UnmappedWords(m: Memory, m': Memory, root: nat, used: set<nat>, used': set<nat>, p: Path, k: nat)
    requires |p| == 4 && 1 <= k <= 4
  {
    && (forall f: nat :: f in used' <==> f in used && !PathTable(m, root, p, k, f))
    && m'.Keys == m.Keys
    && (forall f: nat | f in m :: |m'[f]| == |m[f]|)
    && (forall f: nat, j: nat :: Load(m', f, j) == if PathWord(m, root, p, k - 1, f, j) then ZERO else Load(m, f, j))
  }

  /**
   The state after the leaf at p was cleared and the path's tables at depth k, ..., 3 were
   unlinked and freed: every other leaf, table and word is as before.
   */
  ghost predicate UnmappedTo(m: Memory, m': Memory, root: nat, used: set<nat>, used': set<nat>, p: Path, k: nat)
    requires |p| == 4 && 1 <= k <= 4
  {
    UnmappedTree(m, m', root, used', p, k) && UnmappedWords(m, m', root, used, used', p, k)
  }

  /** Pruning stopped at the first table, going up from the last level, that holds another word. */
  ghost predicate PrunedExactly(m: Memory, root: nat, p: Path, k: nat)
    requires |p| == 4 && 1 <= k <= 4 && WholePath(m, root, p)
  {
    && (forall t: nat | k <= t <= 3 :: OthersZero(m, TableAt(m, root, p[..t]).value, p[t]))
    && (k > 1 ==> !OthersZero(m, TableAt(m, root, p[..k - 1]).value, p[k - 1]))
  }

  lemma UnmapStart(m: Memory, root: nat, used: set<nat>, p: Path)
    requires |p| == 4 && IsPath(p) && Tree(m, root, used) && WholePath(m, root, p)
    ensures var pt := TableAt(m, root, p[..3]).value;
            pt in m && p[3] < |m[pt]| && UnmappedTo(m, Store(m, pt, p[3], ZERO), root, used, used, p, 4)
  {
    PrefixesAreTablePaths(p);
    LeafWriteIsLocal(m, root, used, p[..3], p[3], ZERO);
    PathWordStep(m, root, p, 3);
    hide Tree, TableAt, LeafAt, Load, PathWord;
  }

  /** While the pruning has reached depth k, the path's table at depth k - 1 is still in place. */
  lemma RemainingTable(m: Memory, m': Memory, root: nat, used: set<nat>, used': set<nat>, p: Path, k: nat)
    requires |p| == 4 && IsPath(p) && 1 <= k <= 4 && UnmappedTo(m, m', root, used, used', p, k)
    ensures Tree(m', root, used')
    ensures TableAt(m, root, p[..k - 1]).Some?
    ensures var c := TableAt(m, root, p[..k - 1]).value; c in m' && c in used' && c != 0
  {
    PrefixesAreTablePaths(p);
    assert TableAt(m', root, p[..k - 1]) == TableAt(m, root, p[..k - 1]);
  }

  lemma EmptyMeansOthersZero(m: Memory, m': Memory, root: nat, used: set<nat>, used': set<nat>, p: Path, k: nat)
    requires |p| == 4 && IsPath(p) && 2 <= k <= 4 && Tree(m, root, used) && UnmappedTo(m, m', root, used, used', p, k)
    ensures var f := TableAt(m, root, p[..k - 1]).value;
            IsEmptyTable(m', f) <==> OthersZero(m, f, p[k - 1])
  {
    PrefixesAreTablePaths(p);
    var f := TableAt(m, root, p[..k - 1]).value;
    assert f in m' && |m'[f]| == ENTRIES;
    forall t: nat | k - 1 <= t <= 3 && TableAt(m, root, p[..t]) == Some(f) ensures t == k - 1 {
      assert |p[..t]| == |p[..k - 1]|;
    }
    if IsEmptyTable(m', f) {
      forall j: nat | j != p[k - 1] ensures Load(m, f, j) == ZERO {
        assert Load(m', f, j) == ZERO && !PathWord(m, root, p, k - 1, f, j);
      }
    }
    if OthersZero(m, f, p[k - 1]) {
      forall j: nat | j < |m'[f]| ensures m'[f][j] == ZERO {
        assert j == p[k - 1] ==> PathWord(m, root, p, k - 1, f, j);
        assert Load(m', f, j) == ZERO;
      }
    }
  }

  lemma PathTableStep(m: Memory, root: nat, p: Path, d: nat)
    requires |p| == 4 && d <= 3 && TableAt(m, root, p[..d]).Some?
    ensures forall f: nat ::
              PathTable(m, root, p, d, f) <==> PathTable(m, root, p, d + 1, f) || Some(f) == TableAt(m, root, p[..d])
  {
    forall f: nat | Some(f) == TableAt(m, root, p[..d]) ensures PathTable(m, root, p, d, f) {}
  }

  lemma PathWordStep(m: Memory, root: nat, p: Path, d: nat)
    requires |p| == 4 && d <= 3 && TableAt(m, root, p[..d]).Some?
    ensures forall f: nat, j: nat :: PathWord(m, root, p, d, f, j) <==>
                           PathWord(m, root, p, d + 1, f, j) || (Some(f) == TableAt(m, root, p[..d]) && j == p[d])
  {
    forall f: nat, j: nat | Some(f) == TableAt(m, root, p[..d]) && j == p[d] ensures PathWord(m, root, p, d, f, j) {}
  }

  lemma UnmapStepWords(m: Memory, m': Memory, root: nat, used: set<nat>, used': set<nat>, p: Path, k: nat, f: nat,
                       c: nat)
    requires |p| == 4 && 2 <= k <= 4 && UnmappedWords(m, m', root, used, used', p, k)
    requires TableAt(m, root, p[..k - 2]) == Some(f) && TableAt(m, root, p[..k - 1]) == Some(c)
    requires f in m' && p[k - 2] < |m'[f]|
    ensures UnmappedWords(m, Store(m', f, p[k - 2], ZERO), root, used, used' - {c}, p, k - 1)
  {
    hide PathTable, PathWord, TableAt, Load, Store;
    PathTableStep(m, root, p, k - 1);
    PathWordStep(m, root, p, k - 2);
  }

  lemma UnmapStepTree(m: Memory, m': Memory, root: nat, used': set<nat>, p: Path, k: nat, f: nat, c: nat, n: Path)
    requires |p| == 4 && IsPath(p) && 2 <= k <= 4 && UnmappedTree(m, m', root, used', p, k)
    requires n == p[..k - 2] && IsTablePath(n) && n + [p[k - 2]] == p[..k - 1] && IsTablePath(n + [p[k - 2]])
    requires TableAt(m, root, n) == Some(f) && TableAt(m, root, n + [p[k - 2]]) == Some(c)
    requires f in m' && |m'[f]| == ENTRIES && IsEmptyTable(m', c)
    ensures UnmappedTree(m, Store(m', f, p[k - 2], ZERO), root, used' - {c}, p, k - 1)
  {
    hide TableAt, LeafAt, Tree, Load, Store, IsEmptyTable;
    UnlinkRemovesOneTable(m', root, used', n, p[k - 2]);
    var m2 := Store(m', f, p[k - 2], ZERO);
    forall q | IsTablePath(q)
      ensures TableAt(m2, root, q) == if |q| >= k - 1 && q <= p then None else TableAt(m, root, q)
    {
      if |q| == k - 1 && q <= p {
        assert q == p[..k - 1];
      }
    }
  }

  /** Unlinking the emptied table c at depth k - 1 extends the pruning by one level. */
  lemma UnmapStep(m: Memory, m': Memory, root: nat, used: set<nat>, used': set<nat>, p: Path, k: nat, f: nat, c: nat)
    requires |p| == 4 && IsPath(p) && 2 <= k <= 4 && UnmappedTo(m, m', root, used, used', p, k)
    requires TableAt(m, root, p[..k - 2]) == Some(f) && TableAt(m, root, p[..k - 1]) == Some(c)
    requires IsEmptyTable(m', c)
    ensures f in m' && p[k - 2] < |m'[f]|
    ensures UnmappedTo(m, Store(m', f, p[k - 2], ZERO), root, used, used' - {c}, p, k - 1)
  {
    PrefixesAreTablePaths(p);
    assert TableAt(m', root, p[..k - 2]) == Some(f);
    UnmapStepTree(m, m', root, used', p, k, f, c, p[..k - 2]);
    UnmapStepWords(m, m', root, used, used', p, k, f, c);
    hide UnmappedTree, UnmappedWords;
  }

  // ----- Mapping and then unmapping -----

  /** The deepest level at which the path already has a table. */
  ghost function Deepest(m: Memory, root: nat, p: Path): (d: nat)
    requires |p| == 4
    ensures d <= 3
    ensures forall t: nat | d < t <= 3 :: TableAt(m, root, p[..t]).None?
    ensures d > 0 ==> TableAt(m, root, p[..d]).Some?
  {
    if TableAt(m, root, p[..3]).Some? then 3
    else if TableAt(m, root, p[..2]).Some? then 2
    else if TableAt(m, root, p[..1]).Some? then 1
    else 0
  }

  /** The deepest table on the path is the root, or holds a word off the path. */
  ghost predicate DeepestStays(m: Memory, root: nat, p: Path)
    requires |p| == 4
  {
    var d := Deepest(m, root, p);
    d == 0 || !OthersZero(m, TableAt(m, root, p[..d]).value, p[d])
  }

  lemma {:induction false} TablesAbove(m: Memory, root: nat, p: Path, d: nat, t: nat)
    requires |p| == 4 && t <= d <= 3 && TableAt(m, root, p[..d]).Some?
    ensures TableAt(m, root, p[..t]).Some?
    decreases d
  {
    if t < d {
      assert Init(p[..d]) == p[..d - 1];
      TablesAbove(m, root, p, d - 1, t);
    }
  }

  /** After a mapping, new path tables hold only their path word, and old ones kept their other words. */
  lemma TablesAfterMapping(m0: Memory, m1: Memory, root: nat, u0: set<nat>, u1: set<nat>, p: Path, t: nat)
    requires |p| == 4 && IsPath(p) && t <= 3 && Tree(m0, root, u0) && GrewTables(m0, m1, root, u0, u1, p)
    requires TableAt(m1, root, p[..t]).Some?
    ensures var f := TableAt(m1, root, p[..t]).value;
            if t <= Deepest(m0, root, p) then Some(f) == TableAt(m0, root, p[..t]) && f in u0
                                              && (OthersZero(m1, f, p[t]) <==> OthersZero(m0, f, p[t]))
            else f !in u0 && OthersZero(m1, f, p[t])
  {
    PrefixesAreTablePaths(p);
    var f := TableAt(m1, root, p[..t]).value;
    var d := Deepest(m0, root, p);
    if t <= d {
      if d > 0 { TablesAbove(m0, root, p, d, t); } else { assert p[..0] == []; }
    }
    assert forall j: nat | j != p[t] :: Load(m1, f, j) == if f in u0 then Load(m0, f, j) else ZERO;
  }

  lemma MappedHasWholePath(m0: Memory, m1: Memory, root: nat, u0: set<nat>, u1: set<nat>, p: Path, w: Word)
    requires |p| == 4 && IsPath(p) && Mapped(m0, m1, root, u0, u1, p, w)
    ensures WholePath(m1, root, p)
  {
    assert LeafAt(m1, root, p) == Some(w);
    assert Init(p) == p[..3];
    forall t: nat | t <= 3 ensures TableAt(m1, root, p[..t]).Some? {
      TablesAbove(m1, root, p, 3, t);
    }
  }

  /**
   Mapping an unmapped page and unmapping it again: every leaf is as before, every frame the
   mapping took is free again, and the used frames are exactly the old ones if and only if the
   deepest table already on the path was the root or held something else.
   */
  lemma MapUnmapRoundTrip(m0: Memory, m1: Memory, m2: Memory, root: nat, u0: set<nat>, u1: set<nat>, u2: set<nat>,
                          p: Path, w: Word, k: nat)
    requires |p| == 4 && IsPath(p) && Tree(m0, root, u0) && LeafAt(m0, root, p).None?
    requires Mapped(m0, m1, root, u0, u1, p, w)
    requires 1 <= k <= 4 && UnmappedTo(m1, m2, root, u1, u2, p, k) && PrunedExactly(m1, root, p, k)
    ensures SameLeaves(m0, m2, root)
    ensures u2 <= u0
    ensures u2 == u0 <==> DeepestStays(m0, root, p)
  {
    hide Tree, TableAt, LeafAt, OthersZero, Deepest;
    var d := Deepest(m0, root, p);
    forall t: nat | t <= 3
      ensures var f := TableAt(m1, root, p[..t]).value;
              if t <= d then Some(f) == TableAt(m0, root, p[..t]) && f in u0
                             && (OthersZero(m1, f, p[t]) <==> OthersZero(m0, f, p[t]))
              else f !in u0 && OthersZero(m1, f, p[t])
    {
      TablesAfterMapping(m0, m1, root, u0, u1, p, t);
    }
    assert k <= d + 1;
    forall f | f in u1 && f !in u0 ensures f !in u2 {
      assert OnPath(m1, root, p, f);
      assert PathTable(m1, root, p, k, f);
    }
    if DeepestStays(m0, root, p) {
      assert k == d + 1;
      forall f | f in u0 ensures f in u2 {
        assert !PathTable(m1, root, p, k, f);
      }
    } else {
      assert k <= d;
      assert PathTable(m1, root, p, k, TableAt(m1, root, p[..d]).value);
    }
  }

  // ----- A table that was empty before the mapping -----

  const LINK := Word(0, true, NO_FLAGS)

  /** A root at frame 1 and one table on each level below it, at frames 2, 3 and 4; the last one is empty. */
  function Chain(): (m: Memory)
    ensures m.Keys == {1, 2, 3, 4} && forall f | f in m :: |m[f]| == ENTRIES
    ensures forall f: nat, j: nat :: Load(m, f, j) == if 1 <= f <= 3 && j == 0 then LINK.(frame := f + 1) else ZERO
  {
    map[1 := ZeroPage()[0 := LINK.(frame := 2)], 2 := ZeroPage()[0 := LINK.(frame := 3)],
        3 := ZeroPage()[0 := LINK.(frame := 4)], 4 := ZeroPage()]
  }

  const FIRST: Path := [0, 0, 0, 0]

  lemma {:induction false} ChainTables(q: Path)
    requires |q| <= 3
    ensures TableAt(Chain(), 1, q) == if q == FIRST[..|q|] then Some(|q| + 1) else None
    decreases |q|
  {
    hide Chain;
    if q != [] {
      ChainTables(Init(q));
      assert q == Init(q) + [Last(q)];
      assert FIRST[..|q|] == FIRST[..|q| - 1] + [0];
    }
  }

  lemma ChainTree()
    ensures Tree(Chain(), 1, {1, 2, 3, 4})
  {
    hide Chain, TableAt;
    forall q | IsTablePath(q)
      ensures TableAt(Chain(), 1, q) == if q == FIRST[..|q|] then Some(|q| + 1) else None
    {
      ChainTables(q);
    }
  }

  lemma ChainPath(t: nat)
    requires t <= 3
    ensures TableAt(Chain(), 1, FIRST[..t]) == Some(t + 1)
    ensures OthersZero(Chain(), t + 1, 0)
  {
    hide Chain;
    ChainTables(FIRST[..t]);
  }

  /** The first page is not mapped, and its deepest table has nothing to keep it. */
  lemma ChainDeepest()
    ensures LeafAt(Chain(), 1, FIRST).None?
    ensures Deepest(Chain(), 1, FIRST) == 3 && !DeepestStays(Chain(), 1, FIRST)
  {
    hide Chain, TableAt;
    ChainPath(3);
    assert Init(FIRST) == FIRST[..3];
  }

  lemma NothingGrown(m: Memory, root: nat, used: set<nat>, p: Path)
    requires |p| == 4 && IsPath(p) && Tree(m, root, used)
    ensures Grew(m, m, root, used, used, p)
  {
    PrefixesAreTablePaths(p);
  }

  lemma ChainMapped(w: Word)
    requires w.present
    ensures var m1, u := Store(Chain(), 4, 0, w), {1, 2, 3, 4};
            && Mapped(Chain(), m1, 1, u, u, FIRST, w) && Tree(m1, 1, u) && WholePath(m1, 1, FIRST)
            && forall t: nat | t <= 3 :: TableAt(m1, 1, FIRST[..t]) == Some(t + 1) && OthersZero(m1, t + 1, 0)
  {
    hide Chain, Tree, Grew, GrewTables, WholePath;
    var m1, u := Store(Chain(), 4, 0, w), {1, 2, 3, 4};
    ChainTree();
    ChainPath(3);
    NothingGrown(Chain(), 1, u, FIRST);
    MappedByLeafWrite(Chain(), Chain(), 1, u, u, FIRST, w);
    MappedHasWholePath(Chain(), m1, 1, u, u, FIRST, w);
    forall t: nat | t <= 3 ensures TableAt(m1, 1, FIRST[..t]) == Some(t + 1) && OthersZero(m1, t + 1, 0) {
      ChainPath(t);
      StillThere(Chain(), m1, 1, u, FIRST, w, t);
    }
  }

  lemma StillThere(m: Memory, m1: Memory, root: nat, used: set<nat>, p: Path, w: Word, t: nat)
    requires |p| == 4 && IsPath(p) && t <= 3 && Mapped(m, m1, root, used, used, p, w) && TableAt(m, root, p[..t]).Some?
    ensures TableAt(m1, root, p[..t]) == TableAt(m, root, p[..t])
  {
    PrefixesAreTablePaths(p);
  }

  /** Mapping and unmapping the first page of that tree gives back all three tables, which were there before. */
  lemma EmptyTableLost(w: Word) returns (m1: Memory, m2: Memory)
    requires w.present
    ensures Tree(Chain(), 1, {1, 2, 3, 4}) && LeafAt(Chain(), 1, FIRST).None? && !DeepestStays(Chain(), 1, FIRST)
    ensures Mapped(Chain(), m1, 1, {1, 2, 3, 4}, {1, 2, 3, 4}, FIRST, w)
    ensures UnmappedTo(m1, m2, 1, {1, 2, 3, 4}, {1}, FIRST, 1) && PrunedExactly(m1, 1, FIRST, 1)
  {
    hide Chain, Tree, TableAt, LeafAt, Mapped, DeepestStays, Store, UnmappedTo;
    ChainTree();
    ChainDeepest();
    ChainMapped(w);
    m1 := Store(Chain(), 4, 0, w);
    m2 := ChainUnmapped(m1);
  }

  lemma ChainUnmapped(m1: Memory) returns (m2: Memory)
    requires Tree(m1, 1, {1, 2, 3, 4}) && WholePath(m1, 1, FIRST)
    requires forall t: nat | t <= 3 :: TableAt(m1, 1, FIRST[..t]) == Some(t + 1) && OthersZero(m1, t + 1, 0)
    ensures UnmappedTo(m1, m2, 1, {1, 2, 3, 4}, {1}, FIRST, 1) && PrunedExactly(m1, 1, FIRST, 1)
  {
    hide Tree, UnmappedTree, UnmappedWords, WholePath, Store, IsEmptyTable, OthersZero, TableAt;
    var u := {1, 2, 3, 4};
    UnmapStart(m1, 1, u, FIRST);
    var a := Store(m1, 4, 0, ZERO);
    EmptyMeansOthersZero(m1, a, 1, u, u, FIRST, 4);
    UnmapStep(m1, a, 1, u, u, FIRST, 4, 3, 4);
    var b := Store(a, 3, 0, ZERO);
    EmptyMeansOthersZero(m1, b, 1, u, u - {4}, FIRST, 3);
    UnmapStep(m1, b, 1, u, u - {4}, FIRST, 3, 2, 3);
    var c := Store(b, 2, 0, ZERO);
    EmptyMeansOthersZero(m1, c, 1, u, u - {4} - {3}, FIRST, 2);
    UnmapStep(m1, c, 1, u, u - {4} - {3}, FIRST, 2, 1, 2);
    m2 := Store(c, 1, 0, ZERO);
    assert u - {4} - {3} - {2} == {1};
  }
}
