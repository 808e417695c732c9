/**
 What the processor lets a program do at an address: a right is granted if every word walked for the
 address grants it, from the root's entry down to the page's own.
 */
module Rights {
  import opened Common
  import opened Growth
  import opened PageTables

  datatype Right = User | Write

  predicate Bit(f: Flags, r: Right) { if r.User? then f.user else f.writable }

  /** The words walked for an address, up to the one that maps its page; none if no page is mapped there. */
  function Walk(m: Memory, root: nat, va: nat): seq<Word> {
    var e4 := Load(m, root, (va / 0x80_0000_0000) % 512);
    if !e4.present then [] else
    var e3 := Load(m, e4.frame, (va / 0x4000_0000) % 512);
    if !e3.present then [] else
    if e3.flags.huge then [e4, e3] else
    var e2 := Load(m, e3.frame, (va / 0x20_0000) % 512);
    if !e2.present then [] else
    if e2.flags.huge then [e4, e3, e2] else
    var e1 := Load(m, e2.frame, (va / 0x1000) % 512);
    if !e1.present then [] else [e4, e3, e2, e1]
  }

  /** The processor grants the right at the address. */
  predicate Granted(m: Memory, root: nat, va: nat, r: Right) {
    Walk(m, root, va) != [] && forall w | w in Walk(m, root, va) :: Bit(w.flags, r)
  }

  /** The word that maps the page of the address grants the right. */
  predicate PageGrants(m: Memory, root: nat, va: nat, r: Right) {
    var ws := Walk(m, root, va); ws != [] && Bit(ws[|ws| - 1].flags, r)
  }

  // ----- Walks and trees -----

  lemma WalkTables(m: Memory, root: nat, va: nat)
    ensures var p := PathOf(va);
            && TableAt(m, root, p[..0]) == Some(root)
            && (var e4 := Load(m, root, p[0]);
                && TableAt(m, root, p[..1]) == (if e4.present then Some(e4.frame) else None)
                && (e4.present ==>
                      var e3 := Load(m, e4.frame, p[1]);
                      && TableAt(m, root, p[..2]) == (if e3.present && !e3.flags.huge then Some(e3.frame) else None)
                      && (e3.present && !e3.flags.huge ==>
                            var e2 := Load(m, e3.frame, p[2]);
                            TableAt(m, root, p[..3]) == if e2.present && !e2.flags.huge then Some(e2.frame) else None)))
  {
    var p := PathOf(va);
    hide PathOf, Load;
    assert Init(p[..1]) == p[..0] && Last(p[..1]) == p[0];
    assert Init(p[..2]) == p[..1] && Last(p[..2]) == p[1];
    assert Init(p[..3]) == p[..2] && Last(p[..3]) == p[2];
  }

  /** The last word of a walk is the leaf on the path of the address. */
  lemma WalkEnds(m: Memory, root: nat, va: nat)
    ensures var p, ws := PathOf(va), Walk(m, root, va);
            if LeafAt(m, root, p[..2]).Some? then |ws| == 2 && Some(ws[1]) == LeafAt(m, root, p[..2])
            else if LeafAt(m, root, p[..3]).Some? then |ws| == 3 && Some(ws[2]) == LeafAt(m, root, p[..3])
            else if LeafAt(m, root, p).Some? then |ws| == 4 && Some(ws[3]) == LeafAt(m, root, p)
            else ws == []
  {
    WalkTables(m, root, va);
    var p := PathOf(va);
    assert p[0] == (va / 0x80_0000_0000) % 512 && p[1] == (va / 0x4000_0000) % 512;
    assert p[2] == (va / 0x20_0000) % 512 && p[3] == (va / 0x1000) % 512;
    hide PathOf, Load, TableAt;
    assert Init(p[..2]) == p[..1] && Last(p[..2]) == p[1];
    assert Init(p[..3]) == p[..2] && Last(p[..3]) == p[2];
    assert Init(p) == p[..3] && Last(p) == p[3];
  }

  /** The page on a path of four indices grants what its leaf does. */
  lemma LeafGrants(m: Memory, root: nat, v: nat, r: Right)
    requires LeafAt(m, root, PathOf(v)).Some?
    ensures PageGrants(m, root, v, r) == Bit(LeafAt(m, root, PathOf(v)).value.flags, r)
  {
    var p := PathOf(v);
    WalkEnds(m, root, v);
    WalkTables(m, root, v);
    assert Init(p) == p[..3] && Init(p[..3]) == p[..2] && Last(p[..3]) == p[2];
    assert Init(p[..2]) == p[..1] && Last(p[..2]) == p[1];
    hide PathOf, Load, Walk, TableAt;
  }

  /** Walks through tables that keep their words stay. */
  lemma WalkStays(m: Memory, m': Memory, root: nat, v: nat)
    requires forall s, j: nat | IsTablePath(s) && TableAt(m, root, s).Some? ::
               Load(m', TableAt(m, root, s).value, j) == Load(m, TableAt(m, root, s).value, j)
    ensures Walk(m', root, v) == Walk(m, root, v)
  {
    var q := PathOf(v);
    WalkTables(m, root, v);
    assert q[0] == (v / 0x80_0000_0000) % 512 && q[1] == (v / 0x4000_0000) % 512;
    assert q[2] == (v / 0x20_0000) % 512 && q[3] == (v / 0x1000) % 512;
    assert IsTablePath(q[..0]) && IsTablePath(q[..1]) && IsTablePath(q[..2]) && IsTablePath(q[..3]);
    hide PathOf, Load, TableAt;
  }

  // ----- Words that only gain rights -----

  /** A present word stays where it leads, and keeps its rights. */
  ghost predicate Covers(w: Word, n: Word) {
    w.present ==>
      && n.present && n.frame == w.frame && n.flags.huge == w.flags.huge
      && (w.flags.user ==> n.flags.user) && (w.flags.writable ==> n.flags.writable)
  }

  ghost predicate CoversAt(m: Memory, m': Memory, root: nat, s: Path, j: nat) {
    TableAt(m, root, s).Some? ==>
      Covers(Load(m, TableAt(m, root, s).value, j), Load(m', TableAt(m, root, s).value, j))
  }

  /** All words of all tables but the one at path p. */
  ghost predicate WordsGrew(m: Memory, m': Memory, root: nat, p: Path) {
    forall s, j: nat | IsTablePath(s) && s + [j] != p :: CoversAt(m, m', root, s, j)
  }

  /** The words of path p down to level k grant what the flags ask for. */
  ghost predicate Opened(m: Memory, root: nat, p: Path, k: nat, flags: Flags)
    requires k <= |p|
  {
    forall i | 0 <= i < k :: OpenAt(m, root, p, i, flags)
  }

  ghost predicate OpenAt(m: Memory, root: nat, p: Path, i: nat, flags: Flags)
    requires i < |p|
  {
    && TableAt(m, root, p[..i]).Some?
    && var w := Load(m, TableAt(m, root, p[..i]).value, p[i]);
       w.present && (flags.user ==> w.flags.user) && (flags.writable ==> w.flags.writable)
  }

  lemma WordsGrewTransitive(m0: Memory, m1: Memory, m2: Memory, root: nat, p: Path)
    requires WordsGrew(m0, m1, root, p) && WordsGrew(m1, m2, root, p)
    requires forall s | IsTablePath(s) && TableAt(m0, root, s).Some? :: TableAt(m1, root, s) == TableAt(m0, root, s)
    ensures WordsGrew(m0, m2, root, p)
  {
    hide TableAt, Load;
    forall s, j: nat | IsTablePath(s) && s + [j] != p ensures CoversAt(m0, m2, root, s, j) {
      assert CoversAt(m0, m1, root, s, j) && CoversAt(m1, m2, root, s, j);
    }
  }

  /** An open path stays open. */
  lemma OpenedStays(m: Memory, m': Memory, root: nat, p: Path, k: nat, flags: Flags)
    requires |p| == 4 && IsPath(p) && k <= 3 && Opened(m, root, p, k, flags) && WordsGrew(m, m', root, p)
    requires forall s | IsTablePath(s) && TableAt(m, root, s).Some? :: TableAt(m', root, s) == TableAt(m, root, s)
    ensures Opened(m', root, p, k, flags)
  {
    PrefixesAreTablePaths(p);
    hide TableAt, Load;
    forall i | 0 <= i < k ensures OpenAt(m', root, p, i, flags) {
      assert OpenAt(m, root, p, i, flags);
      assert |p[..i] + [p[i]]| != |p|;
      assert CoversAt(m, m', root, p[..i], p[i]);
    }
  }

  /** One level of mapping: the entry at level k is widened, or a new table is linked there. */
  lemma WidenedWords(m: Memory, root: nat, p: Path, k: nat, flags: Flags)
    requires |p| == 4 && IsPath(p) && k < 3 && TableAt(m, root, p[..k]).Some?
    requires var f := TableAt(m, root, p[..k]).value; f in m && |m[f]| == ENTRIES && Load(m, f, p[k]).present
    ensures var f := TableAt(m, root, p[..k]).value;
            var m' := Store(m, f, p[k], Widened(Load(m, f, p[k]), flags));
            WordsGrew(m, m', root, p) && (TableAt(m', root, p[..k]) == Some(f) ==> OpenAt(m', root, p, k, flags))
  {
    hide TableAt, Load;
  }

  lemma LinkedGrew(m: Memory, root: nat, used: set<nat>, p: Path, k: nat, g: nat, flags: Flags)
    requires |p| == 4 && IsPath(p) && k < 3 && Tree(m, root, used) && TableAt(m, root, p[..k]).Some? && g !in used
    requires !Load(m, TableAt(m, root, p[..k]).value, p[k]).present
    ensures TableAt(m, root, p[..k]).value in m && |m[TableAt(m, root, p[..k]).value]| == ENTRIES
    ensures TableAt(m, root, p[..k]).value in used
    ensures var f := TableAt(m, root, p[..k]).value;
            var m' := LinkTable(m, f, p[k], g, flags);
            WordsGrew(m, m', root, p) && (TableAt(m', root, p[..k]) == Some(f) ==> OpenAt(m', root, p, k, flags))
  {
    PrefixesAreTablePaths(p);
    var f := TableAt(m, root, p[..k]).value;
    assert IsTablePath(p[..k]);
    var m' := LinkTable(m, f, p[k], g, flags);
    forall s, j: nat | IsTablePath(s) && s + [j] != p ensures CoversAt(m, m', root, s, j) {
      if TableAt(m, root, s).Some? { assert TableAt(m, root, s).value != g; }
    }
  }

  /** Writing the leaf of path p. */
  lemma LeafWords(m: Memory, root: nat, used: set<nat>, p: Path, w: Word)
    requires |p| == 4 && IsPath(p) && Tree(m, root, used) && TableAt(m, root, p[..3]).Some?
    ensures var f := TableAt(m, root, p[..3]).value;
            f in m && |m[f]| == ENTRIES && WordsGrew(m, Store(m, f, p[3], w), root, p)
  {
    PrefixesAreTablePaths(p);
    assert IsTablePath(p[..3]);
    var f := TableAt(m, root, p[..3]).value;
    var m' := Store(m, f, p[3], w);
    assert p[..3] + [p[3]] == p;
    forall s, j: nat | IsTablePath(s) && s + [j] != p ensures CoversAt(m, m', root, s, j) {
      assert TableAt(m, root, s) == Some(f) ==> s == p[..3];
    }
  }

  // ----- What is granted after a page is mapped -----

  /** At the page on path p what the flags say; elsewhere no less than before, and no more than the page's own word. */
  ghost predicate RightsAt(m: Memory, m': Memory, root: nat, p: Path, flags: Flags, v: nat, r: Right) {
    if PathOf(v) == p then Granted(m', root, v, r) == Bit(flags, r)
    else (Granted(m, root, v, r) ==> Granted(m', root, v, r)) && (Granted(m', root, v, r) ==> PageGrants(m, root, v, r))
  }

  ghost predicate RightsMapped(m: Memory, m': Memory, root: nat, p: Path, flags: Flags) {
    forall v: nat, r: Right :: RightsAt(m, m', root, p, flags, v, r)
  }

  /** The walk on the words as they were and as they are. */
  lemma WalkCovered(m: Memory, m': Memory, root: nat, v: nat)
    requires var q := PathOf(v);
             && CoversAt(m, m', root, q[..0], q[0]) && CoversAt(m, m', root, q[..1], q[1])
             && CoversAt(m, m', root, q[..2], q[2]) && CoversAt(m, m', root, q[..3], q[3])
    requires Walk(m, root, v) != []
    ensures var ws, ws' := Walk(m, root, v), Walk(m', root, v);
            |ws'| == |ws| && forall i | 0 <= i < |ws| :: ws[i].present && Covers(ws[i], ws'[i])
  {
    var q := PathOf(v);
    WalkTables(m, root, v);
    assert q[0] == (v / 0x80_0000_0000) % 512 && q[1] == (v / 0x4000_0000) % 512;
    assert q[2] == (v / 0x20_0000) % 512 && q[3] == (v / 0x1000) % 512;
    hide PathOf, Load, TableAt;
  }

  lemma GrantedKept(m: Memory, m': Memory, root: nat, p: Path, v: nat, r: Right)
    requires WordsGrew(m, m', root, p) && PathOf(v) != p && |p| == 4 && Granted(m, root, v, r)
    ensures Granted(m', root, v, r)
  {
    hide Load, TableAt, Walk, PathOf, CoversAt;
    var q := PathOf(v);
    assert q[..3] + [q[3]] == q;
    assert IsTablePath(q[..0]) && IsTablePath(q[..1]) && IsTablePath(q[..2]) && IsTablePath(q[..3]);
    assert CoversAt(m, m', root, q[..0], q[0]) && CoversAt(m, m', root, q[..1], q[1]);
    assert CoversAt(m, m', root, q[..2], q[2]) && CoversAt(m, m', root, q[..3], q[3]);
    WalkCovered(m, m', root, v);
    var ws, ws' := Walk(m, root, v), Walk(m', root, v);
    forall w | w in ws' ensures Bit(w.flags, r) {
      var i :| 0 <= i < |ws'| && ws'[i] == w;
      assert ws[i] in ws;
    }
  }

  /** The page's own word always grants what is granted. */
  lemma GrantedByPage(m: Memory, root: nat, v: nat, r: Right)
    ensures Granted(m, root, v, r) ==> PageGrants(m, root, v, r)
  {
    var ws := Walk(m, root, v);
    if ws != [] { assert ws[|ws| - 1] in ws; }
  }

  lemma GrantedHere(m: Memory, root: nat, v: nat, flags: Flags, frame: nat, r: Right)
    requires LeafAt(m, root, PathOf(v)) == Some(Word(frame, true, flags)) && NoHugePage(m, root, v)
    requires Opened(m, root, PathOf(v), 3, flags)
    ensures Granted(m, root, v, r) == Bit(flags, r)
  {
    var q := PathOf(v);
    WalkTables(m, root, v);
    WalkEnds(m, root, v);
    assert q[0] == (v / 0x80_0000_0000) % 512 && q[1] == (v / 0x4000_0000) % 512 && q[2] == (v / 0x20_0000) % 512;
    hide PathOf, Load, TableAt, LeafAt;
    assert OpenAt(m, root, q, 0, flags) && OpenAt(m, root, q, 1, flags) && OpenAt(m, root, q, 2, flags);
    var ws := Walk(m, root, v);
    assert |ws| == 4 && ws[3].flags == flags && ws[3] in ws;
    assert ws == [ws[0], ws[1], ws[2], ws[3]];
  }

  lemma MappedRights(m: Memory, m': Memory, root: nat, used: set<nat>, used': set<nat>, va: nat, frame: nat,
                     flags: Flags)
    requires Mapped(m, m', root, used, used', PathOf(va), Word(frame, true, flags)) && NoHugePage(m, root, va)
    requires WordsGrew(m, m', root, PathOf(va)) && Opened(m', root, PathOf(va), 3, flags)
    ensures RightsMapped(m, m', root, PathOf(va), flags)
  {
    var p := PathOf(va);
    hide PathOf, Load, TableAt, LeafAt, Walk, GrewTables, WordsGrew, Opened;
    forall v: nat, r: Right ensures RightsAt(m, m', root, p, flags, v, r) {
      var q := PathOf(v);
      assert IsPath(q[..2]) && IsPath(q[..3]) && |q[..2]| == 2 && |q[..3]| == 3;
      if q == p {
        GrantedHere(m', root, v, flags, frame, r);
      } else {
        if Granted(m, root, v, r) { GrantedKept(m, m', root, p, v, r); }
        GrantedByPage(m', root, v, r);
        WalkEnds(m, root, v);
        WalkEnds(m', root, v);
      }
    }
  }

  /** The last write of a mapping. */
  lemma LeafMapped(m: Memory, m1: Memory, root: nat, used: set<nat>, used': set<nat>, va: nat, frame: nat, flags: Flags)
    requires Grew(m, m1, root, used, used', PathOf(va)) && Tree(m1, root, used') && NoHugePage(m, root, va)
    requires TableAt(m1, root, PathOf(va)[..3]).Some?
    requires WordsGrew(m, m1, root, PathOf(va)) && Opened(m1, root, PathOf(va), 3, flags)
    ensures TableAt(m1, root, PathOf(va)[..3]).value in m1
    ensures |m1[TableAt(m1, root, PathOf(va)[..3]).value]| == ENTRIES
    ensures var m2 := Store(m1, TableAt(m1, root, PathOf(va)[..3]).value, PathOf(va)[3], Word(frame, true, flags));
            && RightsMapped(m, m2, root, PathOf(va), flags) && Tree(m2, root, used')
            && Mapped(m, m2, root, used, used', PathOf(va), Word(frame, true, flags))
  {
    var p, w := PathOf(va), Word(frame, true, flags);
    LeafWords(m1, root, used', p, w);
    MappedByLeafWrite(m, m1, root, used, used', p, w);
    var m2 := Store(m1, TableAt(m1, root, p[..3]).value, p[3], w);
    PrefixesAreTablePaths(p);
    hide PathOf, TableAt, LeafAt, Tree, WordsGrew, Opened, NoHugePage, OffPathWords;
    LeafWriteIsLocal(m1, root, used', p[..3], p[3], w);
    WordsGrewTransitive(m, m1, m2, root, p);
    OpenedStays(m1, m2, root, p, 3, flags);
    MappedRights(m, m2, root, used, used', va, frame, flags);
  }

  // ----- A range of pages -----

  ghost predicate RangeRightsAt(m: Memory, m': Memory, root: nat, va: nat, count: nat, flags: Flags, v: nat, r: Right) {
    if PagesAbove(va, v) < count then Granted(m', root, v, r) == Bit(flags, r)
    else (Granted(m, root, v, r) ==> Granted(m', root, v, r)) && (Granted(m', root, v, r) ==> PageGrants(m, root, v, r))
  }

  ghost predicate RangeRights(m: Memory, m': Memory, root: nat, va: nat, count: nat, flags: Flags) {
    forall v: nat, r: Right :: RangeRightsAt(m, m', root, va, count, flags, v, r)
  }

  lemma NoRangeYet(m: Memory, root: nat, va: nat, flags: Flags)
    ensures RangeRights(m, m, root, va, 0, flags)
  {
    hide Granted, PageGrants;
    forall v: nat, r: Right ensures RangeRightsAt(m, m, root, va, 0, flags, v, r) { GrantedByPage(m, root, v, r); }
  }

  /** The words that map the pages after a range was mapped. */
  lemma RangePage(m: Memory, m': Memory, root: nat, va: nat, frame: nat, count: nat, flags: Flags, v: nat, r: Right)
    requires RangeMapped(m, m', root, va, frame, count, flags)
    requires forall i: nat | i < count :: NoHugePage(m, root, va + i * 0x1000)
    ensures if PagesAbove(va, v) < count then PageGrants(m', root, v, r) == Bit(flags, r)
            else PageGrants(m', root, v, r) == PageGrants(m, root, v, r)
  {
    hide PathOf, PageOf, AddressOf, LeafAt, Walk;
    var p := PathOf(v);
    WalkEnds(m, root, v);
    WalkEnds(m', root, v);
    AddressOfPath(v);
    PathBijection(p);
    SamePathSamePage(AddressOf(p), v);
    var i := PagesAbove(va, v);
    assert i == PagesAbove(va, AddressOf(p));
    PagesAboveMeaning(va, v, i);
    assert IsPath(p[..2]) && IsPath(p[..3]);
    if i < count { assert NoHugePage(m, root, va + i * 0x1000); }
  }

  lemma RangeRightsStep(m: Memory, m1: Memory, m2: Memory, root: nat, va: nat, frame: nat, i: nat, flags: Flags)
    requires i < ADDRESS_PAGES && RangeRights(m, m1, root, va, i, flags)
    requires RangeMapped(m, m1, root, va, frame, i, flags)
    requires RightsMapped(m1, m2, root, PathOf(va + i * 0x1000), flags)
    requires forall j: nat | j < i :: NoHugePage(m, root, va + j * 0x1000)
    ensures RangeRights(m, m2, root, va, i + 1, flags)
  {
    hide PathOf, PagesAbove, Granted, PageGrants, RangeMapped, NoHugePage;
    var n := i + 1;
    forall v: nat, r: Right ensures RangeRightsAt(m, m2, root, va, n, flags, v, r) {
      PagesAboveMeaning(va, v, i);
      assert RangeRightsAt(m, m1, root, va, i, flags, v, r);
      assert RightsAt(m1, m2, root, PathOf(va + i * 0x1000), flags, v, r);
      RangePage(m, m1, root, va, frame, i, flags, v, r);
    }
  }
}
