/**
 Four-level page tables over frames of 512 words, seen as a tree: a path of table
 indices leads from the root to a table or to a leaf word. The lemmas say what one
 word written into one table does to every path.
 */
module PageTables {
  import opened Common

  /** The permission, size and ownership bits of a word; rest holds its remaining flag bits. */
  datatype Flags = Flags(writable: bool, user: bool, huge: bool, owned: bool, rest: nat)

  datatype Word = Word(frame: nat, present: bool, flags: Flags)

  const NO_FLAGS := Flags(false, false, false, false, 0)
  const ZERO := Word(0, false, NO_FLAGS)
  const ENTRIES: nat := 512

  function ZeroPage(): (z: seq<Word>)
    ensures |z| == ENTRIES && forall i | 0 <= i < ENTRIES :: z[i] == ZERO
  {
    seq(ENTRIES, _ => ZERO)
  }

  /** Frame contents, as reached through the direct map. */
  type Memory = map<nat, seq<Word>>

  /** Indices from the root down. */
  type Path = seq<nat>

  predicate IsPath(p: Path) {
    |p| <= 4 && forall k | 0 <= k < |p| :: p[k] < ENTRIES
  }

  function Init(p: Path): Path
    requires p != []
  {
    p[..|p| - 1]
  }

  function Last(p: Path): nat
    requires p != []
  {
    p[|p| - 1]
  }

  function Load(m: Memory, f: nat, i: nat): Word {
    if f in m && i < |m[f]| then m[f][i] else ZERO
  }

  function Store(m: Memory, f: nat, i: nat, w: Word): (r: Memory)
    requires f in m && i < |m[f]|
    ensures r.Keys == m.Keys
    ensures forall g, j :: Load(r, g, j) == if g == f && j == i then w else Load(m, g, j)
    ensures forall g | g in m :: |r[g]| == |m[g]|
    ensures forall g | g in m && g != f :: r[g] == m[g]
  {
    m[f := m[f][i := w]]
  }

  /** Does an entry of a table at this depth point to a table? The top level has no huge pages. */
  predicate Descends(w: Word, depth: nat) {
    w.present && (depth == 0 || !w.flags.huge)
  }

  /** The table a path of at most three indices leads to. */
  function TableAt(m: Memory, root: nat, p: Path): Option<nat>
    decreases |p|
  {
    if p == [] then Some(root)
    else
      var t := TableAt(m, root, Init(p));
      if t.None? then None
      else
        var w := Load(m, t.value, Last(p));
        if Descends(w, |p| - 1) then Some(w.frame) else None
  }

  predicate IsLeafWord(w: Word, depth: nat) {
    w.present && (depth == 3 || (0 < depth && w.flags.huge))
  }

  /** The leaf word at a path of two (1 GiB), three (2 MiB) or four (4 KiB) indices. */
  function LeafAt(m: Memory, root: nat, p: Path): Option<Word> {
    if |p| < 2 then None
    else
      var t := TableAt(m, root, Init(p));
      if t.None? then None
      else
        var w := Load(m, t.value, Last(p));
        if IsLeafWord(w, |p| - 1) then Some(w) else None
  }

  ghost predicate IsTablePath(p: Path) {
    |p| <= 3 && IsPath(p)
  }

  /** Tree-shaped: no two paths share a table, and every table is a used, nonzero frame of 512 words. */
  ghost predicate Tree(m: Memory, root: nat, used: set<nat>) {
    && (forall p, q | IsTablePath(p) && IsTablePath(q) && TableAt(m, root, p).Some?
                      && TableAt(m, root, p) == TableAt(m, root, q) :: p == q)
    && (forall p :: IsTablePath(p) && TableAt(m, root, p).Some? ==>
                      var f := TableAt(m, root, p).value; f in m && |m[f]| == ENTRIES && f in used && f != 0)
  }

  // ----- Addresses -----

  /** The four index fields of a virtual address. */
  function PathOf(va: nat): (p: Path)
    ensures |p| == 4 && IsPath(p)
  {
    [(va / 0x80_0000_0000) % 512, (va / 0x4000_0000) % 512, (va / 0x20_0000) % 512, (va / 0x1000) % 512]
  }

  const ADDRESS_PAGES: nat := 0x10_0000_0000

  function PageOf(va: nat): nat {
    (va / 0x1000) % ADDRESS_PAGES
  }

  /** The address of a path of four indices, in the low 48 bits. */
  function AddressOf(p: Path): nat
    requires |p| == 4
  {
    p[0] * 0x80_0000_0000 + p[1] * 0x4000_0000 + p[2] * 0x20_0000 + p[3] * 0x1000
  }

  lemma NestedDivision(x: nat, a: nat, b: nat)
    requires a == 0x1000 || a == 0x20_0000 || a == 0x4000_0000
    requires b == a * 512
    ensures x / b == (x / a) / 512
  {
  }

  /** Index fields and page addresses determine each other. */
  lemma PathBijection(p: Path)
    requires |p| == 4 && IsPath(p)
    ensures PathOf(AddressOf(p)) == p
    ensures AddressOf(p) == PageOf(AddressOf(p)) * 0x1000 && PageOf(AddressOf(p)) < ADDRESS_PAGES
  {
    var va := AddressOf(p);
    var n3 := p[0];
    var n2 := n3 * 512 + p[1];
    var n1 := n2 * 512 + p[2];
    var n0 := n1 * 512 + p[3];
    assert va == n0 * 0x1000;
    assert va / 0x1000 == n0;
    NestedDivision(va, 0x1000, 0x20_0000);
    NestedDivision(va, 0x20_0000, 0x4000_0000);
    NestedDivision(va, 0x4000_0000, 0x80_0000_0000);
    assert n0 / 512 == n1 && n0 % 512 == p[3];
    assert n1 / 512 == n2 && n1 % 512 == p[2];
    assert n2 / 512 == n3 && n2 % 512 == p[1];
  }

  lemma AddressOfPath(va: nat)
    ensures AddressOf(PathOf(va)) == PageOf(va) * 0x1000
  {
    NestedDivision(va, 0x1000, 0x20_0000);
    NestedDivision(va, 0x20_0000, 0x4000_0000);
    NestedDivision(va, 0x4000_0000, 0x80_0000_0000);
    var n0 := va / 0x1000;
    var n1 := n0 / 512;
    var n2 := n1 / 512;
    var n3 := n2 / 512;
    assert n0 == n1 * 512 + n0 % 512 && n1 == n2 * 512 + n1 % 512 && n2 == n3 * 512 + n2 % 512;
    var low := n0 % 512 + 512 * (n1 % 512) + 0x4_0000 * (n2 % 512);
    assert n0 == 0x800_0000 * n3 + low && low < 0x800_0000;
    var n4 := n3 / 512;
    assert n3 == n4 * 512 + n3 % 512;
    assert n0 == n4 * ADDRESS_PAGES + (0x800_0000 * (n3 % 512) + low);
    RemainderUnique(n0, n4, 0x800_0000 * (n3 % 512) + low);
  }

  lemma RemainderUnique(n: nat, q: nat, r: nat)
    requires n == q * ADDRESS_PAGES + r && r < ADDRESS_PAGES
    ensures n % ADDRESS_PAGES == r
  {
  }

  lemma SamePathSamePage(va: nat, vb: nat)
    ensures PathOf(va) == PathOf(vb) <==> PageOf(va) == PageOf(vb)
  {
    AddressOfPath(va);
    AddressOfPath(vb);
    if PageOf(va) == PageOf(vb) {
      PathBijection(PathOf(va));
      PathBijection(PathOf(vb));
    }
  }

  // ----- The walker -----

  /** The walker's answer: the frame and page offset it puts together, by page size. */
  datatype Translation = NotPresent | Page1G(frame: nat, offset: nat) | Page2M(frame: nat, offset: nat)
                       | Page4K(frame: nat, offset: nat)

  function VirtToPhys(m: Memory, root: nat, va: nat): Translation {
    var e4 := Load(m, root, (va / 0x80_0000_0000) % 512);
    if !e4.present then NotPresent else
    var e3 := Load(m, e4.frame, (va / 0x4000_0000) % 512);
    if !e3.present then NotPresent else
    if e3.flags.huge then Page1G(e3.frame, va % 0x4000_0000) else
    var e2 := Load(m, e3.frame, (va / 0x20_0000) % 512);
    if !e2.present then NotPresent else
    if e2.flags.huge then Page2M(e2.frame, va % 0x20_0000) else
    var e1 := Load(m, e2.frame, (va / 0x1000) % 512);
    if !e1.present then NotPresent else Page4K(e1.frame, va % 0x1000)
  }

  /** The walker reads exactly the leaf words on the address's path. */
  lemma WalkIsLeafLookup(m: Memory, root: nat, va: nat)
    ensures var p := PathOf(va);
            VirtToPhys(m, root, va) ==
            if LeafAt(m, root, p[..2]).Some? then Page1G(LeafAt(m, root, p[..2]).value.frame, va % 0x4000_0000)
            else if LeafAt(m, root, p[..3]).Some? then Page2M(LeafAt(m, root, p[..3]).value.frame, va % 0x20_0000)
            else if LeafAt(m, root, p).Some? then Page4K(LeafAt(m, root, p).value.frame, va % 0x1000)
            else NotPresent
  {
    var p := PathOf(va);
    TableSteps(m, root, p);
    assert Init(p[..2]) == p[..1] && Init(p[..3]) == p[..2] && Init(p) == p[..3];
  }

  lemma TableSteps(m: Memory, root: nat, p: Path)
    requires 3 <= |p|
    ensures TableAt(m, root, p[..1]) == (var w := Load(m, root, p[0]); if w.present then Some(w.frame) else None)
    ensures forall k | 1 <= k < 3 :: TableAt(m, root, p[..k + 1]) ==
              var t := TableAt(m, root, p[..k]);
              if t.None? then None
              else var w := Load(m, t.value, p[k]); if w.present && !w.flags.huge then Some(w.frame) else None
  {
    assert Init(p[..1]) == [] && TableAt(m, root, []) == Some(root);
    forall k | 1 <= k < 3
      ensures Init(p[..k + 1]) == p[..k] && Last(p[..k + 1]) == p[k]
    {
    }
  }

  /** Two trees translate every address alike when they have the same leaves. */
  lemma SameLeavesSameWalk(m: Memory, m': Memory, root: nat, va: nat)
    requires forall q | IsPath(q) && 2 <= |q| && q == PathOf(va)[..|q|] :: LeafAt(m', root, q) == LeafAt(m, root, q)
    ensures VirtToPhys(m', root, va) == VirtToPhys(m, root, va)
  {
    WalkIsLeafLookup(m, root, va);
    WalkIsLeafLookup(m', root, va);
    var p := PathOf(va);
    assert p[..4] == p;
    assert IsPath(p[..2]) && IsPath(p[..3]) && |p[..2]| == 2 && |p[..3]| == 3;
    assert p[..2] == p[..|p[..2]|] && p[..3] == p[..|p[..3]|];
  }

  ghost predicate SameLeaves(m: Memory, m': Memory, root: nat) {
    forall q | IsPath(q) :: LeafAt(m', root, q) == LeafAt(m, root, q)
  }

  // ----- Writing one word -----

  /** m' is m outside the one word (f, i), on all used frames. */
  ghost predicate DiffersAt(m: Memory, m': Memory, used: set<nat>, f: nat, i: nat) {
    forall g, j | g in used && (g != f || j != i) :: Load(m', g, j) == Load(m, g, j)
  }

  lemma {:induction false} WriteElsewhere(m: Memory, m': Memory, root: nat, used: set<nat>, p: Path, i: nat, q: Path)
    requires Tree(m, root, used) && IsTablePath(p) && i < ENTRIES && IsTablePath(q)
    requires TableAt(m, root, p).Some? && DiffersAt(m, m', used, TableAt(m, root, p).value, i)
    requires !(p + [i] <= q)
    ensures TableAt(m', root, q) == TableAt(m, root, q)
    decreases |q|
  {
    if q != [] {
      WriteElsewhere(m, m', root, used, p, i, Init(q));
      var t := TableAt(m, root, Init(q));
      assert q == Init(q) + [Last(q)];
      if t.Some? && t == TableAt(m, root, p) && Last(q) == i {
        assert false;
      }
    }
  }

  lemma {:induction false} NoTableBelow(m: Memory, root: nat, p: Path, q: Path)
    requires p <= q && TableAt(m, root, p).None?
    ensures TableAt(m, root, q).None?
    decreases |q|
  {
    if p != q {
      assert p <= Init(q);
      NoTableBelow(m, root, p, Init(q));
    }
  }

  /** Replacing an entry by one that leads to the same place moves no table. */
  lemma {:induction false} WriteSameTarget(m: Memory, m': Memory, root: nat, used: set<nat>, p: Path, i: nat, q: Path)
    requires Tree(m, root, used) && IsTablePath(p) && i < ENTRIES && IsTablePath(q)
    requires TableAt(m, root, p).Some? && DiffersAt(m, m', used, TableAt(m, root, p).value, i)
    requires var f := TableAt(m, root, p).value;
             Descends(Load(m, f, i), |p|) == Descends(Load(m', f, i), |p|)
             && (Descends(Load(m, f, i), |p|) ==> Load(m, f, i).frame == Load(m', f, i).frame)
    ensures TableAt(m', root, q) == TableAt(m, root, q)
    decreases |q|
  {
    if q != [] {
      WriteSameTarget(m, m', root, used, p, i, Init(q));
      var t := TableAt(m, root, Init(q));
      if t.Some? && t == TableAt(m, root, p) && Last(q) == i {
        assert Init(q) == p;
      }
    }
  }

  /** Permission bits an intermediate entry gets. */
  function Perm(f: Flags): Flags {
    Flags(f.writable, f.user, false, f.owned, 0)
  }

  /** An intermediate entry with the permission bits of f added. */
  function Widened(w: Word, f: Flags): Word {
    w.(flags := Flags(w.flags.writable || f.writable, w.flags.user || f.user, w.flags.huge,
                      w.flags.owned || f.owned, w.flags.rest))
  }

  /** The zeroed frame g hung below entry i of table f. */
  function LinkTable(m: Memory, f: nat, i: nat, g: nat, flags: Flags): (r: Memory)
    requires f in m && i < |m[f]| && f != g
    ensures r.Keys == m.Keys + {g}
    ensures forall h | h in m && h != f && h != g :: r[h] == m[h]
  {
    Store(m[g := ZeroPage()], f, i, Word(g, true, Perm(flags)))
  }

  /** Hanging a fresh zeroed table below an absent entry adds exactly that table and no leaf. */
  lemma LinkAddsOneTable(m: Memory, root: nat, used: set<nat>, p: Path, i: nat, g: nat, flags: Flags)
    requires Tree(m, root, used) && IsTablePath(p + [i]) && IsTablePath(p) && TableAt(m, root, p).Some?
    requires !Load(m, TableAt(m, root, p).value, i).present
    requires g !in used && g != 0
    ensures var m' := LinkTable(m, TableAt(m, root, p).value, i, g, flags);
            && Tree(m', root, used + {g})
            && (forall q | IsTablePath(q) ::
                  TableAt(m', root, q) == if q == p + [i] then Some(g) else TableAt(m, root, q))
            && SameLeaves(m, m', root)
  {
    var f := TableAt(m, root, p).value;
    var m' := LinkTable(m, f, i, g, flags);
    forall q | IsTablePath(q)
      ensures TableAt(m', root, q) == if q == p + [i] then Some(g) else TableAt(m, root, q)
    {
      LinkedTableAt(m, m', root, used, p, i, g, q);
    }
    LinkedLeaves(m, m', root, used, p, i, g);
    GrownTree(m, m', root, used, p + [i], g);
  }

  lemma GrownTree(m: Memory, m': Memory, root: nat, used: set<nat>, n: Path, g: nat)
    requires Tree(m, root, used) && g !in used && g != 0 && g in m' && |m'[g]| == ENTRIES
    requires forall f | f in used && f in m :: f in m' && |m'[f]| == |m[f]|
    requires forall q | IsTablePath(q) :: TableAt(m', root, q) == if q == n then Some(g) else TableAt(m, root, q)
    ensures Tree(m', root, used + {g})
  {
  }

  lemma NoTableBelowAbsent(m: Memory, root: nat, p: Path, i: nat)
    requires TableAt(m, root, p).Some? && !Descends(Load(m, TableAt(m, root, p).value, i), |p|)
    ensures TableAt(m, root, p + [i]).None?
  {
    assert Init(p + [i]) == p;
  }

  /** Entry i of the table at p now points to g, and all of g's words are zero. */
  ghost predicate Links(m: Memory, m': Memory, root: nat, used: set<nat>, p: Path, i: nat, g: nat) {
    && TableAt(m, root, p).Some?
    && var f := TableAt(m, root, p).value;
    && DiffersAt(m, m', used, f, i) && !Load(m, f, i).present
    && Load(m', f, i).frame == g && Load(m', f, i).present && !Load(m', f, i).flags.huge
    && forall j :: Load(m', g, j) == ZERO
  }

  lemma {:induction false} LinkedTableAt(m: Memory, m': Memory, root: nat, used: set<nat>, p: Path, i: nat, g: nat,
                                         q: Path)
    requires Tree(m, root, used) && IsTablePath(p + [i]) && IsTablePath(p) && IsTablePath(q)
    requires Links(m, m', root, used, p, i, g)
    ensures TableAt(m', root, q) == if q == p + [i] then Some(g) else TableAt(m, root, q)
  {
    if p + [i] <= q {
      assert Init(p + [i]) == p && Last(p + [i]) == i;
      WriteElsewhere(m, m', root, used, p, i, p);
      NoTableBelowAbsent(m, root, p, i);
      NoTableBelow(m, root, p + [i], q);
      if q != p + [i] {
        ZeroTableHasNoChild(m', root, p + [i], q);
      }
    } else {
      WriteElsewhere(m, m', root, used, p, i, q);
    }
  }

  lemma LinkedLeaves(m: Memory, m': Memory, root: nat, used: set<nat>, p: Path, i: nat, g: nat)
    requires Tree(m, root, used) && IsTablePath(p + [i]) && IsTablePath(p)
    requires Links(m, m', root, used, p, i, g)
    ensures SameLeaves(m, m', root)
  {
    NoTableBelowAbsent(m, root, p, i);
    forall q | IsPath(q) && 2 <= |q| ensures LeafAt(m', root, q) == LeafAt(m, root, q) {
      assert q == Init(q) + [Last(q)];
      LinkedTableAt(m, m', root, used, p, i, g, Init(q));
    }
  }

  lemma ZeroTableHasNoChild(m: Memory, root: nat, p: Path, q: Path)
    requires p < q && TableAt(m, root, p).Some?
    requires forall j :: Load(m, TableAt(m, root, p).value, j) == ZERO
    ensures TableAt(m, root, q).None?
  {
    var r := q[..|p| + 1];
    assert Init(r) == p;
    NoTableBelow(m, root, r, q);
  }

  /** Widening an entry moves nothing: no table, no leaf. */
  lemma WidenKeepsTree(m: Memory, root: nat, used: set<nat>, p: Path, i: nat, flags: Flags)
    requires Tree(m, root, used) && IsTablePath(p + [i]) && IsTablePath(p) && TableAt(m, root, p).Some?
    requires Descends(Load(m, TableAt(m, root, p).value, i), |p|)
    ensures var f := TableAt(m, root, p).value;
            var m' := Store(m, f, i, Widened(Load(m, f, i), flags));
            && Tree(m', root, used)
            && (forall q | IsTablePath(q) :: TableAt(m', root, q) == TableAt(m, root, q))
            && SameLeaves(m, m', root)
  {
    var f := TableAt(m, root, p).value;
    var m' := Store(m, f, i, Widened(Load(m, f, i), flags));
    forall q | IsTablePath(q) ensures TableAt(m', root, q) == TableAt(m, root, q) {
      WriteSameTarget(m, m', root, used, p, i, q);
    }
    forall q | IsPath(q) && 2 <= |q| ensures LeafAt(m', root, q) == LeafAt(m, root, q) {
      assert IsTablePath(Init(q));
    }
  }

  /** Writing a last-level word changes that one leaf and nothing else. */
  lemma LeafWriteIsLocal(m: Memory, root: nat, used: set<nat>, p: Path, i: nat, w: Word)
    requires Tree(m, root, used) && |p| == 3 && IsPath(p) && i < ENTRIES && TableAt(m, root, p).Some?
    ensures var m' := Store(m, TableAt(m, root, p).value, i, w);
            && Tree(m', root, used)
            && (forall q | IsTablePath(q) :: TableAt(m', root, q) == TableAt(m, root, q))
            && (forall q | IsPath(q) :: LeafAt(m', root, q) ==
                                        if q == p + [i] then (if w.present then Some(w) else None)
                                        else LeafAt(m, root, q))
  {
    var m' := Store(m, TableAt(m, root, p).value, i, w);
    forall q | IsTablePath(q) ensures TableAt(m', root, q) == TableAt(m, root, q) {
      WriteElsewhere(m, m', root, used, p, i, q);
    }
    forall q | IsPath(q) && 2 <= |q|
      ensures LeafAt(m', root, q) ==
              if q == p + [i] then (if w.present then Some(w) else None) else LeafAt(m, root, q)
    {
      assert IsTablePath(Init(q)) && q == Init(q) + [Last(q)];
    }
  }

  /** Every word of the table is zero. */
  predicate IsEmptyTable(m: Memory, f: nat) {
    f in m && forall j | 0 <= j < |m[f]| :: m[f][j] == ZERO
  }

  /** Clearing the entry of an empty table removes exactly that table and no leaf. */
  lemma UnlinkRemovesOneTable(m: Memory, root: nat, used: set<nat>, p: Path, i: nat)
    requires Tree(m, root, used) && IsTablePath(p + [i]) && IsTablePath(p) && TableAt(m, root, p + [i]).Some?
    requires TableAt(m, root, p).Some? && IsEmptyTable(m, TableAt(m, root, p + [i]).value)
    ensures var m' := Store(m, TableAt(m, root, p).value, i, ZERO);
            && Tree(m', root, used - {TableAt(m, root, p + [i]).value})
            && (forall q | IsTablePath(q) :: TableAt(m', root, q) == if q == p + [i] then None else TableAt(m, root, q))
            && SameLeaves(m, m', root)
  {
    var c := TableAt(m, root, p + [i]).value;
    var m' := Store(m, TableAt(m, root, p).value, i, ZERO);
    forall q | IsTablePath(q)
      ensures TableAt(m', root, q) == if q == p + [i] then None else TableAt(m, root, q)
    {
      UnlinkedTableAt(m, root, used, p, i, q);
    }
    UnlinkedLeaves(m, root, used, p, i);
    PrunedTree(m, m', root, used, p + [i]);
  }

  lemma PrunedTree(m: Memory, m': Memory, root: nat, used: set<nat>, n: Path)
    requires Tree(m, root, used) && IsTablePath(n) && TableAt(m, root, n).Some?
    requires forall f | f in m :: f in m' && |m'[f]| == |m[f]|
    requires forall q | IsTablePath(q) :: TableAt(m', root, q) == if q == n then None else TableAt(m, root, q)
    ensures Tree(m', root, used - {TableAt(m, root, n).value})
  {
  }

  lemma UnlinkedLeaves(m: Memory, root: nat, used: set<nat>, p: Path, i: nat)
    requires Tree(m, root, used) && IsTablePath(p + [i]) && IsTablePath(p) && TableAt(m, root, p + [i]).Some?
    requires TableAt(m, root, p).Some? && IsEmptyTable(m, TableAt(m, root, p + [i]).value)
    ensures SameLeaves(m, Store(m, TableAt(m, root, p).value, i, ZERO), root)
  {
    var m' := Store(m, TableAt(m, root, p).value, i, ZERO);
    forall q | IsPath(q) && 2 <= |q| ensures LeafAt(m', root, q) == LeafAt(m, root, q) {
      UnlinkedLeafAt(m, m', root, used, p, i, q);
    }
  }

  lemma UnlinkedLeafAt(m: Memory, m': Memory, root: nat, used: set<nat>, p: Path, i: nat, q: Path)
    requires Tree(m, root, used) && IsTablePath(p + [i]) && IsTablePath(p) && TableAt(m, root, p + [i]).Some?
    requires TableAt(m, root, p).Some? && IsEmptyTable(m, TableAt(m, root, p + [i]).value)
    requires m' == Store(m, TableAt(m, root, p).value, i, ZERO)
    requires IsPath(q) && 2 <= |q|
    ensures LeafAt(m', root, q) == LeafAt(m, root, q)
  {
    UnlinkedTableAt(m, root, used, p, i, Init(q));
    var f := TableAt(m, root, p).value;
    assert Descends(Load(m, f, i), |p|) by { assert Init(p + [i]) == p; }
    if Init(q) != p + [i] {
      var t := TableAt(m, root, Init(q));
      if t == Some(f) && Last(q) == i {
        assert Init(q) == p;
      }
    }
  }

  lemma {:induction false} UnlinkedTableAt(m: Memory, root: nat, used: set<nat>, p: Path, i: nat, q: Path)
    requires Tree(m, root, used) && IsTablePath(p + [i]) && IsTablePath(p) && TableAt(m, root, p + [i]).Some?
    requires TableAt(m, root, p).Some? && IsEmptyTable(m, TableAt(m, root, p + [i]).value)
    requires IsTablePath(q)
    ensures TableAt(Store(m, TableAt(m, root, p).value, i, ZERO), root, q) ==
            if q == p + [i] then None else TableAt(m, root, q)
    decreases |q|
  {
    var m' := Store(m, TableAt(m, root, p).value, i, ZERO);
    if p + [i] <= q {
      assert Init(p + [i]) == p && Last(p + [i]) == i;
      WriteElsewhere(m, m', root, used, p, i, p);
      NoTableBelow(m', root, p + [i], q);
      if q != p + [i] {
        ZeroTableHasNoChild(m, root, p + [i], q);
      }
    } else {
      WriteElsewhere(m, m', root, used, p, i, q);
    }
  }
}
