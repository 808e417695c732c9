/** The tree of directory entries as a value: entries by number, the root being 0, later entries numbered higher. */
module DentryTree {
  import opened Common
  import opened CStrings

  datatype Node = Node(name: seq<char>, parent: Option<nat>, children: seq<nat>, isDir: bool, refs: int)

  type Nodes = map<nat, Node>

  /** A name that can stand in a path for itself. */
  predicate NameOk(name: seq<char>) {
    name != [] && '/' !in name && NUL !in name && name != "." && name != ".."
  }

  predicate Proper(names: seq<seq<char>>) { forall w | w in names :: NameOk(w) }

  /** Only the root has no parent; every other entry is among its parent's children. */
  ghost predicate Upward(nodes: Nodes, d: nat)
    requires d in nodes
  {
    if d == 0 then nodes[d].parent.None?
    else
      && NUL !in nodes[d].name && nodes[d].parent.Some?
      && var p := nodes[d].parent.value; p < d && p in nodes && d in nodes[p].children
  }

  /** Children name their parent, and siblings have different names. */
  ghost predicate Downward(nodes: Nodes, d: nat)
    requires d in nodes
  {
    var cs := nodes[d].children;
    && (forall c | c in cs :: c in nodes && c != 0 && nodes[c].parent == Some(d))
    && (forall i, j | 0 <= i < j < |cs| && cs[i] in nodes && cs[j] in nodes :: nodes[cs[i]].name != nodes[cs[j]].name)
  }

  ghost predicate Tree(nodes: Nodes) {
    && 0 in nodes
    && (forall d {:trigger Upward(nodes, d)} | d in nodes :: Upward(nodes, d))
    && (forall d {:trigger Downward(nodes, d)} | d in nodes :: Downward(nodes, d))
  }

  /** The first of the entries with the given name. */
  function FindName(nodes: Nodes, cs: seq<nat>, name: seq<char>): (r: Option<nat>)
    requires forall c | c in cs :: c in nodes
    ensures r.Some? ==> r.value in cs && nodes[r.value].name == name
    ensures r.None? ==> forall c | c in cs :: nodes[c].name != name
  {
    if cs == [] then None
    else if nodes[cs[0]].name == name then Some(cs[0])
    else FindName(nodes, cs[1..], name)
  }

  function ParentOf(nodes: Nodes, d: nat): (p: nat)
    requires d in nodes
  {
    if nodes[d].parent.Some? then nodes[d].parent.value else d
  }

  /** The entry a list of path components leads to. */
  ghost function Resolve(nodes: Nodes, d: nat, path: seq<seq<char>>): (r: Option<nat>)
    requires Tree(nodes) && d in nodes
    ensures r.Some? ==> r.value in nodes
    decreases |path|
  {
    assert Upward(nodes, d) && Downward(nodes, d);
    if path == [] then Some(d)
    else if path[0] == "." then Resolve(nodes, d, path[1..])
    else if path[0] == ".." then Resolve(nodes, ParentOf(nodes, d), path[1..])
    else
      var c := FindName(nodes, nodes[d].children, path[0]);
      if c.None? then None else Resolve(nodes, c.value, path[1..])
  }

  /** Where one component leads. */
  ghost function StepTo(nodes: Nodes, d: nat, w: seq<char>): (r: Option<nat>)
    requires Tree(nodes) && d in nodes
    ensures r.Some? ==> r.value in nodes
  {
    Resolve(nodes, d, [w])
  }

  lemma ResolveStep(nodes: Nodes, d: nat, w: seq<char>, rest: seq<seq<char>>)
    requires Tree(nodes) && d in nodes
    ensures var m := StepTo(nodes, d, w);
            Resolve(nodes, d, [w] + rest) == if m.None? then None else Resolve(nodes, m.value, rest)
  {
    ResolveAppend(nodes, d, [w], rest);
  }

  lemma StepsTo(nodes: Nodes, d: nat, w: seq<char>)
    requires Tree(nodes) && d in nodes
    ensures forall c | c in nodes[d].children :: c in nodes
    ensures w == "." ==> StepTo(nodes, d, w) == Some(d)
    ensures w == ".." ==> StepTo(nodes, d, w) == Some(ParentOf(nodes, d))
    ensures w != "." && w != ".." ==> StepTo(nodes, d, w) == FindName(nodes, nodes[d].children, w)
  {
    hide Tree;
    ChildrenIn(nodes, d);
    ParentIn(nodes, d);
    assert [w][1..] == [] && [w] != [];
    ResolveNothing(nodes, d);
    ResolveNothing(nodes, ParentOf(nodes, d));
    var c := FindName(nodes, nodes[d].children, w);
    if c.Some? { ResolveNothing(nodes, c.value); }
  }

  lemma ResolveNothing(nodes: Nodes, d: nat)
    requires Tree(nodes) && d in nodes
    ensures Resolve(nodes, d, []) == Some(d)
  {
  }

  /** The names on the way from the root to an entry. */
  ghost function Names(nodes: Nodes, d: nat): (r: seq<seq<char>>)
    requires Tree(nodes) && d in nodes
    ensures forall w | w in r :: NUL !in w
    decreases d
  {
    assert Upward(nodes, d);
    if d == 0 then [] else Names(nodes, nodes[d].parent.value) + [nodes[d].name]
  }

  /** A component list carried out on a stack of names. */
  function Normalized(names: seq<seq<char>>, path: seq<seq<char>>): seq<seq<char>>
    decreases |path|
  {
    if path == [] then names
    else if path[0] == "." then Normalized(names, path[1..])
    else if path[0] == ".." then Normalized(if names == [] then [] else names[..|names| - 1], path[1..])
    else Normalized(names + [path[0]], path[1..])
  }

  lemma {:induction false} ResolveAppend(nodes: Nodes, d: nat, a: seq<seq<char>>, b: seq<seq<char>>)
    requires Tree(nodes) && d in nodes
    ensures var m := Resolve(nodes, d, a);
            Resolve(nodes, d, a + b) == if m.None? then None else Resolve(nodes, m.value, b)
    decreases |a|
  {
    hide Tree;
    assert Tree(nodes);
    if a == [] {
      assert a + b == b;
    } else {
      assert (a + b)[1..] == a[1..] + b;
      if a[0] == "." {
        ResolveAppend(nodes, d, a[1..], b);
      } else if a[0] == ".." {
        ParentIn(nodes, d);
        ResolveAppend(nodes, ParentOf(nodes, d), a[1..], b);
      } else {
        ChildrenIn(nodes, d);
        var c := FindName(nodes, nodes[d].children, a[0]);
        if c.Some? { ResolveAppend(nodes, c.value, a[1..], b); }
      }
    }
  }

  lemma ParentIn(nodes: Nodes, d: nat)
    requires Tree(nodes) && d in nodes
    ensures ParentOf(nodes, d) in nodes
  {
    assert Upward(nodes, d);
  }

  lemma ChildrenIn(nodes: Nodes, d: nat)
    requires Tree(nodes) && d in nodes
    ensures forall c | c in nodes[d].children :: c in nodes
  {
    assert Downward(nodes, d);
  }

  /** A child is found by its name. */
  lemma FindChild(nodes: Nodes, p: nat, d: nat)
    requires Tree(nodes) && d in nodes && nodes[d].parent == Some(p)
    ensures p in nodes && (forall c | c in nodes[p].children :: c in nodes)
    ensures FindName(nodes, nodes[p].children, nodes[d].name) == Some(d)
  {
    assert Upward(nodes, d);
    assert Downward(nodes, p);
    var cs := nodes[p].children;
    var r := FindName(nodes, cs, nodes[d].name);
    if r.Some? {
      var i :| 0 <= i < |cs| && cs[i] == d;
      var j :| 0 <= j < |cs| && cs[j] == r.value;
      assert !(i < j) && !(j < i);
    }
  }

  /** The names of an entry lead to it, if they are proper. */
  lemma {:induction false} NamesResolve(nodes: Nodes, d: nat)
    requires Tree(nodes) && d in nodes && Proper(Names(nodes, d))
    ensures Resolve(nodes, 0, Names(nodes, d)) == Some(d)
    decreases d
  {
    assert Upward(nodes, d);
    if d != 0 {
      var p := nodes[d].parent.value;
      assert nodes[d].name in Names(nodes, d) && forall w | w in Names(nodes, p) :: w in Names(nodes, d);
      NamesResolve(nodes, p);
      ResolveAppend(nodes, 0, Names(nodes, p), [nodes[d].name]);
      FindChild(nodes, p, d);
      assert Resolve(nodes, p, [nodes[d].name]) == Some(d);
    }
  }

  /** The names of the entry a component list leads to are the list carried out on the names. */
  lemma {:induction false} ResolvedNames(nodes: Nodes, d: nat, path: seq<seq<char>>)
    requires Tree(nodes) && d in nodes && Resolve(nodes, d, path).Some?
    ensures Names(nodes, Resolve(nodes, d, path).value) == Normalized(Names(nodes, d), path)
    decreases |path|
  {
    assert Upward(nodes, d) && Downward(nodes, d);
    if path != [] {
      if path[0] == "." {
        ResolvedNames(nodes, d, path[1..]);
      } else if path[0] == ".." {
        ResolvedNames(nodes, ParentOf(nodes, d), path[1..]);
        assert d != 0 ==> Names(nodes, d)[..|Names(nodes, d)| - 1] == Names(nodes, ParentOf(nodes, d));
      } else {
        var c := FindName(nodes, nodes[d].children, path[0]).value;
        assert Names(nodes, c) == Names(nodes, d) + [path[0]];
        ResolvedNames(nodes, c, path[1..]);
      }
    }
  }

  // ----- Adding an entry -----

  function Added(nodes: Nodes, dir: nat, id: nat, name: seq<char>, isDir: bool): (r: Nodes)
    requires dir in nodes
  {
    nodes[dir := nodes[dir].(children := [id] + nodes[dir].children)][id := Node(name, Some(dir), [], isDir, 0)]
  }

  lemma AddedTree(nodes: Nodes, dir: nat, id: nat, name: seq<char>, isDir: bool)
    requires Tree(nodes) && dir in nodes && id !in nodes && dir < id && NUL !in name
    requires forall c | c in nodes[dir].children :: c in nodes && nodes[c].name != name
    ensures Tree(Added(nodes, dir, id, name, isDir))
  {
    var n := Added(nodes, dir, id, name, isDir);
    assert Downward(nodes, dir);
    forall d | d in n ensures Upward(n, d) {
      if d in nodes {
        assert Upward(nodes, d);
        AddedUpward(nodes, dir, id, name, isDir, d);
      } else {
        assert n[dir].children[0] == id;
      }
    }
    forall d | d in n ensures Downward(n, d) {
      if d == dir { AddedDownward(nodes, dir, id, name, isDir); } else if d in nodes { assert Downward(nodes, d); }
    }
  }

  lemma AddedUpward(nodes: Nodes, dir: nat, id: nat, name: seq<char>, isDir: bool, d: nat)
    requires dir in nodes && id !in nodes && d in nodes && Upward(nodes, d)
    ensures Upward(Added(nodes, dir, id, name, isDir), d)
  {
    if d != 0 && nodes[d].parent.value == dir {
      var cs := nodes[dir].children;
      var i :| 0 <= i < |cs| && cs[i] == d;
      assert ([id] + cs)[i + 1] == d;
    }
  }

  lemma AddedDownward(nodes: Nodes, dir: nat, id: nat, name: seq<char>, isDir: bool)
    requires dir in nodes && id !in nodes && id != 0 && Downward(nodes, dir)
    requires forall c | c in nodes[dir].children :: c in nodes && nodes[c].name != name
    ensures Downward(Added(nodes, dir, id, name, isDir), dir)
  {
    var n := Added(nodes, dir, id, name, isDir);
    var cs, ds := nodes[dir].children, n[dir].children;
    assert forall i | 0 <= i < |cs| :: cs[i] in cs && cs[i] != id && n[cs[i]].name == nodes[cs[i]].name;
    forall i, j | 0 <= i < j < |ds| && ds[i] in n && ds[j] in n ensures n[ds[i]].name != n[ds[j]].name {
      assert ds[j] == cs[j - 1];
      if i > 0 { assert ds[i] == cs[i - 1]; }
    }
  }

  lemma {:induction false} FindSame(a: Nodes, b: Nodes, cs: seq<nat>, name: seq<char>)
    requires forall c | c in cs :: c in a && c in b && a[c].name == b[c].name
    ensures FindName(a, cs, name) == FindName(b, cs, name)
  {
    if cs != [] { FindSame(a, b, cs[1..], name); }
  }

  /** Whatever led somewhere before still leads to the same entry. */
  ghost predicate Extends(a: Nodes, b: Nodes)
    requires Tree(a) && Tree(b)
  {
    && a.Keys <= b.Keys
    && forall d: nat, path {:trigger Resolve(b, d, path)} | d in a && Resolve(a, d, path).Some? ::
         Resolve(b, d, path) == Resolve(a, d, path)
  }

  lemma AddedExtends(nodes: Nodes, dir: nat, id: nat, name: seq<char>, isDir: bool, n: Nodes)
    requires Tree(nodes) && dir in nodes && id !in nodes && n == Added(nodes, dir, id, name, isDir) && Tree(n)
    requires forall c | c in nodes[dir].children :: c in nodes && nodes[c].name != name
    ensures Extends(nodes, n)
  {
    hide Tree;
    forall d: nat, path | d in nodes && Resolve(nodes, d, path).Some?
      ensures Resolve(n, d, path) == Resolve(nodes, d, path)
    {
      AddedResolve(nodes, dir, id, name, isDir, n, d, path);
    }
  }

  lemma {:induction false} AddedResolve(nodes: Nodes, dir: nat, id: nat, name: seq<char>, isDir: bool, n: Nodes, d: nat,
                                        path: seq<seq<char>>)
    requires Tree(nodes) && dir in nodes && id !in nodes && n == Added(nodes, dir, id, name, isDir) && Tree(n)
    requires forall c | c in nodes[dir].children :: c in nodes && nodes[c].name != name
    requires d in nodes && Resolve(nodes, d, path).Some?
    ensures Resolve(n, d, path) == Resolve(nodes, d, path)
    decreases |path|
  {
    hide Tree;
    if path != [] {
      ParentIn(nodes, d);
      ChildrenIn(nodes, d);
      ChildrenIn(n, d);
      if path[0] == "." {
        AddedResolve(nodes, dir, id, name, isDir, n, d, path[1..]);
      } else if path[0] == ".." {
        AddedResolve(nodes, dir, id, name, isDir, n, ParentOf(nodes, d), path[1..]);
      } else {
        var cs := nodes[d].children;
        FindSame(nodes, n, cs, path[0]);
        assert d == dir ==> n[d].children[1..] == cs;
        assert FindName(n, n[d].children, path[0]) == FindName(nodes, cs, path[0]);
        AddedResolve(nodes, dir, id, name, isDir, n, FindName(nodes, cs, path[0]).value, path[1..]);
      }
    }
  }

  /** An added entry is found in its directory. */
  lemma AddedFound(nodes: Nodes, dir: nat, id: nat, name: seq<char>, isDir: bool, n: Nodes)
    requires Tree(nodes) && dir in nodes && id !in nodes && n == Added(nodes, dir, id, name, isDir) && Tree(n)
    requires name != "." && name != ".."
    ensures Resolve(n, dir, [name]) == Some(id)
  {
    FindChild(n, dir, id);
    assert Resolve(n, id, []) == Some(id);
  }

  /** Counting a reference changes no path. */
  lemma {:induction false} RefsResolve(a: Nodes, b: Nodes, d: nat, path: seq<seq<char>>)
    requires Tree(a) && Tree(b) && SameTree(a, b) && d in a
    ensures Resolve(b, d, path) == Resolve(a, d, path)
    decreases |path|
  {
    hide Tree;
    if path != [] {
      ParentIn(a, d);
      ChildrenIn(a, d);
      if path[0] == "." {
        RefsResolve(a, b, d, path[1..]);
      } else if path[0] == ".." {
        RefsResolve(a, b, ParentOf(a, d), path[1..]);
      } else {
        FindSame(a, b, a[d].children, path[0]);
        var c := FindName(a, a[d].children, path[0]);
        if c.Some? { RefsResolve(a, b, c.value, path[1..]); }
      }
    }
  }

  /** The same entries with the same names, parents and children. */
  ghost predicate SameTree(a: Nodes, b: Nodes) {
    a.Keys == b.Keys && forall d | d in a :: b[d] == a[d].(refs := b[d].refs)
  }

  lemma SameTreeKeeps(a: Nodes, b: Nodes)
    requires Tree(a) && SameTree(a, b)
    ensures Tree(b)
  {
    forall d | d in b ensures Upward(b, d) { assert Upward(a, d); }
    forall d | d in b ensures Downward(b, d) { assert Downward(a, d); }
  }

  lemma ChildName(nodes: Nodes, dir: nat, c: nat)
    requires Tree(nodes) && dir in nodes && c in nodes[dir].children
    ensures c in nodes && NUL !in nodes[c].name
  {
    assert Downward(nodes, dir);
    assert Upward(nodes, c);
  }

  lemma SameExtends(nodes: Nodes)
    requires Tree(nodes)
    ensures Extends(nodes, nodes)
  {
  }

  lemma ExtendsTransitive(a: Nodes, b: Nodes, c: Nodes)
    requires Tree(a) && Tree(b) && Tree(c) && Extends(a, b) && Extends(b, c)
    ensures Extends(a, c)
  {
    hide Tree;
    forall d: nat, path | d in a && Resolve(a, d, path).Some? ensures Resolve(c, d, path) == Resolve(a, d, path) {
      assert Resolve(b, d, path) == Resolve(a, d, path);
    }
  }

  /** Only the root has no parent. */
  lemma RootOnly(nodes: Nodes, d: nat)
    requires Tree(nodes) && d in nodes
    ensures Upward(nodes, d) && (d == 0 <==> nodes[d].parent.None?)
    ensures nodes[d].parent.Some? ==> nodes[d].parent.value in nodes && nodes[d].parent.value < d
  {
    assert Upward(nodes, d);
  }

  /** The printed path of an entry is its parent's, a slash and its name. */
  lemma LastName(nodes: Nodes, d: nat)
    requires Tree(nodes) && d in nodes && nodes[d].parent.Some?
    ensures nodes[d].parent.value in nodes && nodes[d].parent.value < d
    ensures Printed(Names(nodes, d)) == Printed(Names(nodes, nodes[d].parent.value)) + "/" + nodes[d].name
  {
    RootOnly(nodes, d);
    PrintedAppend(Names(nodes, nodes[d].parent.value), nodes[d].name);
  }

  lemma RootPath(nodes: Nodes, d: nat)
    requires Tree(nodes) && d in nodes && nodes[d].parent.None?
    ensures d == 0 && Printed(Names(nodes, d)) == []
  {
    RootOnly(nodes, d);
  }

  lemma RootIn(nodes: Nodes)
    requires Tree(nodes)
    ensures 0 in nodes
  {
  }

  lemma StepIs(nodes: Nodes, d: nat, w: seq<char>)
    requires Tree(nodes) && d in nodes
    ensures StepTo(nodes, d, w) == Resolve(nodes, d, [w])
  {
  }

  lemma {:induction false} PrintedClean(names: seq<seq<char>>)
    requires forall w | w in names :: NUL !in w
    ensures NUL !in Printed(names)
  {
    if names != [] {
      assert names[0] in names;
      PrintedClean(names[1..]);
    }
  }

  /** A component list carried out leaves only names it had or was given. */
  lemma {:induction false} NormalizedFrom(names: seq<seq<char>>, path: seq<seq<char>>, w: seq<char>)
    requires w in Normalized(names, path)
    ensures w in names || (w in path && w != "." && w != "..")
    decreases |path|
  {
    if path != [] {
      if path[0] == "." {
        NormalizedFrom(names, path[1..], w);
      } else if path[0] == ".." {
        NormalizedFrom(if names == [] then [] else names[..|names| - 1], path[1..], w);
      } else {
        NormalizedFrom(names + [path[0]], path[1..], w);
      }
    }
  }

  /** An entry that a path leads to has only proper names above it. */
  lemma ReachedIsProper(nodes: Nodes, path: seq<char>, d: nat)
    requires Tree(nodes) && 0 in nodes && d in nodes && Resolve(nodes, 0, Components(path)) == Some(d)
    ensures Names(nodes, d) == Normalized([], Components(path)) && Proper(Names(nodes, d))
  {
    hide Tree, Resolve;
    ResolvedNames(nodes, 0, Components(path));
    assert Names(nodes, 0) == [];
    forall w | w in Names(nodes, d) ensures NameOk(w) {
      NormalizedFrom([], Components(path), w);
      ComponentOk(path, w);
    }
  }

  /** The printed path of an entry leads from the root to it exactly when the names on its way are proper. */
  lemma PrintedResolves(nodes: Nodes, d: nat)
    requires Tree(nodes) && d in nodes
    ensures var path := if d == 0 then "/" else Printed(Names(nodes, d));
            && NUL !in path && 0 in nodes
            && (Resolve(nodes, 0, Components(path)) == Some(d) <==> Proper(Names(nodes, d)))
  {
    hide Tree, Resolve;
    RootIn(nodes);
    PrintedClean(Names(nodes, d));
    var path := if d == 0 then "/" else Printed(Names(nodes, d));
    assert Components("/") == Components([]) by { assert "/"[1..] == []; }
    if Proper(Names(nodes, d)) {
      NamesResolve(nodes, d);
      PrintedSplits(Names(nodes, d));
    } else if Resolve(nodes, 0, Components(path)) == Some(d) {
      ReachedIsProper(nodes, path, d);
    }
  }

  /** The path printed for what a path leads to is the path in normal form. */
  lemma ReverseOfLookup(nodes: Nodes, path: seq<char>)
    requires Tree(nodes) && 0 in nodes && Resolve(nodes, 0, Components(path)).Some?
    ensures Components(Printed(Names(nodes, Resolve(nodes, 0, Components(path)).value))) ==
            Normalized([], Components(path))
  {
    var d := Resolve(nodes, 0, Components(path)).value;
    ReachedIsProper(nodes, path, d);
    PrintedSplits(Names(nodes, d));
  }

  lemma ResolveMore(nodes: Nodes, from: nat, done: seq<seq<char>>, curr: nat, w: seq<char>, child: nat)
    requires Tree(nodes) && from in nodes && curr in nodes && Resolve(nodes, from, done) == Some(curr)
    requires StepTo(nodes, curr, w) == Some(child)
    ensures Resolve(nodes, from, done + [w]) == Some(child)
  {
    ResolveAppend(nodes, from, done, [w]);
  }

  /** A path that leads somewhere leads somewhere at each of its components. */
  lemma PathNeedsStep(nodes: Nodes, from: nat, done: seq<seq<char>>, curr: nat, w: seq<char>, rest: seq<seq<char>>)
    requires Tree(nodes) && from in nodes && curr in nodes && Resolve(nodes, from, done) == Some(curr)
    ensures Resolve(nodes, from, done + ([w] + rest)).Some? ==> StepTo(nodes, curr, w).Some?
  {
    ResolveAppend(nodes, from, done, [w] + rest);
    ResolveStep(nodes, curr, w, rest);
  }

  lemma ExtendsAt(a: Nodes, b: Nodes, d: nat, path: seq<seq<char>>)
    requires Tree(a) && Tree(b) && Extends(a, b) && d in a && Resolve(a, d, path).Some?
    ensures d in b && Resolve(b, d, path) == Resolve(a, d, path)
  {
  }

  lemma ComponentOk(path: seq<char>, w: seq<char>)
    requires w in Components(path) && NUL !in w
    ensures w == "." || w == ".." || NameOk(w)
  {
  }

  lemma CleanStr(s: seq<char>, at: nat)
    requires Terminated(s, at)
    ensures NUL !in CStr(s, at)
  {
  }

  // ----- Creating along a path -----

  /** The components done lead to curr; nodes extends nodes0, and equals it if the whole path led somewhere there. */
  ghost predicate Making(nodes0: Nodes, nodes: Nodes, from: nat, curr: nat, done: seq<seq<char>>, ahead: seq<seq<char>>,
                         all: seq<seq<char>>) {
    && Tree(nodes0) && Tree(nodes) && from in nodes0 && from in nodes && curr in nodes && Extends(nodes0, nodes)
    && Resolve(nodes, from, done) == Some(curr) && all == done + ahead
    && (Resolve(nodes0, from, all).Some? ==> nodes == nodes0)
  }

  lemma MakingStarts(nodes: Nodes, from: nat, all: seq<seq<char>>)
    requires Tree(nodes) && from in nodes
    ensures Making(nodes, nodes, from, from, [], all, all)
  {
    hide Tree;
    SameExtends(nodes);
    ResolveNothing(nodes, from);
  }

  lemma MakingEnters(nodes0: Nodes, before: Nodes, nodes: Nodes, from: nat, curr: nat, child: nat,
                     done: seq<seq<char>>, w: seq<char>, rest: seq<seq<char>>, all: seq<seq<char>>)
    requires Making(nodes0, before, from, curr, done, [w] + rest, all) && Tree(nodes) && Extends(before, nodes)
    requires curr in nodes && child in nodes && StepTo(nodes, curr, w) == Some(child)
    requires StepTo(before, curr, w).Some? ==> nodes == before
    ensures Making(nodes0, nodes, from, child, done + [w], rest, all)
  {
    hide Tree, StepTo;
    ExtendsTransitive(nodes0, before, nodes);
    ExtendsAt(before, nodes, from, done);
    ResolveMore(nodes, from, done, curr, w, child);
    PathNeedsStep(before, from, done, curr, w, rest);
    assert done + ([w] + rest) == done + [w] + rest;
  }

  lemma MakingEnds(nodes0: Nodes, nodes: Nodes, from: nat, curr: nat, done: seq<seq<char>>, all: seq<seq<char>>)
    requires Making(nodes0, nodes, from, curr, done, [], all)
    ensures done == all && Extends(nodes0, nodes) && from in nodes0 && from in nodes
    ensures Resolve(nodes, from, all) == Some(curr)
    ensures Resolve(nodes0, from, all).Some? ==> nodes == nodes0
  {
    assert done + [] == done;
  }

  lemma NextWord(nodes0: Nodes, nodes: Nodes, from: nat, curr: nat, done: seq<seq<char>>, w: seq<char>,
                 rest: seq<seq<char>>, path: seq<char>)
    requires Making(nodes0, nodes, from, curr, done, [w] + rest, Components(path))
    ensures w in Components(path)
  {
    var all := Components(path);
    assert all == done + ([w] + rest);
    assert all[|done|] == w;
  }

  // ----- What is created along a path -----

  /** A first part of the path leads to the entry. */
  ghost predicate OnWay(nodes: Nodes, from: nat, path: seq<seq<char>>, c: nat)
    requires Tree(nodes) && from in nodes
  {
    exists k :: 0 <= k <= |path| && Resolve(nodes, from, path[..k]) == Some(c)
  }

  predicate Dotless(path: seq<seq<char>>) { "." !in path && ".." !in path }

  /** The kinds of the new entries: directories, but for one made by the last component of a path without dots. */
  ghost predicate Kinds(nodes0: Nodes, nodes: Nodes, curr: nat, done: seq<seq<char>>, isDir: bool, ended: bool) {
    && curr in nodes
    && (forall c | c in nodes && c !in nodes0 :: nodes[c].isDir || (c == curr && ended))
    && (Dotless(done) ==> forall c | c in nodes && c !in nodes0 :: c <= curr)
    && (Dotless(done) && ended && curr !in nodes0 ==> nodes[curr].isDir == isDir)
  }

  ghost predicate AllOnWay(nodes0: Nodes, nodes: Nodes, from: nat, done: seq<seq<char>>) {
    Tree(nodes) && from in nodes && forall c | c in nodes && c !in nodes0 :: OnWay(nodes, from, done, c)
  }

  lemma NothingMade(nodes: Nodes, from: nat, isDir: bool, ended: bool)
    requires Tree(nodes) && from in nodes
    ensures Kinds(nodes, nodes, from, [], isDir, ended) && AllOnWay(nodes, nodes, from, [])
  {
  }

  lemma MoreOnWay(nodes0: Nodes, before: Nodes, nodes: Nodes, from: nat, child: nat, done: seq<seq<char>>, w: seq<char>,
                  rest: seq<seq<char>>, all: seq<seq<char>>)
    requires AllOnWay(nodes0, before, from, done) && Tree(nodes) && Extends(before, nodes)
    requires Making(nodes0, nodes, from, child, done + [w], rest, all)
    requires forall c | c in nodes && c !in before :: c == child
    ensures AllOnWay(nodes0, nodes, from, done + [w])
  {
    hide Tree, Resolve;
    forall c | c in nodes && c !in nodes0 ensures OnWay(nodes, from, done + [w], c) {
      if c in before {
        assert OnWay(before, from, done, c);
        var k :| 0 <= k <= |done| && Resolve(before, from, done[..k]) == Some(c);
        assert (done + [w])[..k] == done[..k] && Resolve(nodes, from, done[..k]) == Some(c);
      } else {
        assert (done + [w])[..|done| + 1] == done + [w];
      }
    }
  }

  lemma ChildAfter(nodes: Nodes, d: nat, w: seq<char>, child: nat)
    requires Tree(nodes) && d in nodes && StepTo(nodes, d, w) == Some(child) && w != "." && w != ".."
    ensures d < child
  {
    StepsTo(nodes, d, w);
    hide StepTo;
    assert Downward(nodes, d) && Upward(nodes, child);
  }

  /** What one component makes: nothing for a dot or a double dot, else at most the child it leads to. */
  ghost predicate Entered(before: Nodes, nodes: Nodes, at: nat, child: nat, w: seq<char>, isDir: bool, ended: bool) {
    && child in nodes && (w == "." || w == ".." || at < child)
    && (forall c | c in nodes && c !in before ::
          c == child && w != "." && w != ".." && nodes[c].isDir == (!ended || isDir))
    && (forall c | c in before :: c in nodes && nodes[c].isDir == before[c].isDir)
  }

  lemma KindsEnter(nodes0: Nodes, before: Nodes, nodes: Nodes, at: nat, child: nat, done: seq<seq<char>>, w: seq<char>,
                   isDir: bool, ended: bool)
    requires Kinds(nodes0, before, at, done, isDir, false) && Entered(before, nodes, at, child, w, isDir, ended)
    ensures Kinds(nodes0, nodes, child, done + [w], isDir, ended)
    ensures forall c | c in nodes && c !in before :: c == child
  {
    assert w in done + [w] && forall v | v in done :: v in done + [w];
  }

  /** The whole state of a creation, with the components ahead. */
  ghost predicate Progress(nodes0: Nodes, nodes: Nodes, from: nat, curr: nat, done: seq<seq<char>>,
                           ahead: seq<seq<char>>, all: seq<seq<char>>, isDir: bool)
  {
    && Making(nodes0, nodes, from, curr, done, ahead, all) && AllOnWay(nodes0, nodes, from, done)
    && Kinds(nodes0, nodes, curr, done, isDir, ahead == [])
  }

  lemma ProgressStarts(nodes: Nodes, from: nat, all: seq<seq<char>>, isDir: bool)
    requires Tree(nodes) && from in nodes
    ensures Progress(nodes, nodes, from, from, [], all, all, isDir)
  {
    hide Making, AllOnWay, Kinds;
    MakingStarts(nodes, from, all);
    NothingMade(nodes, from, isDir, all == []);
  }

  lemma ProgressEnters(nodes0: Nodes, before: Nodes, nodes: Nodes, from: nat, at: nat, child: nat,
                       done: seq<seq<char>>, w: seq<char>, rest: seq<seq<char>>, all: seq<seq<char>>, isDir: bool)
    requires Progress(nodes0, before, from, at, done, [w] + rest, all, isDir) && at in before
    requires Tree(before) && Tree(nodes) && Extends(before, nodes)
    requires at in nodes && child in nodes && StepTo(nodes, at, w) == Some(child)
    requires StepTo(before, at, w).Some? ==> nodes == before
    requires Entered(before, nodes, at, child, w, isDir, rest == [])
    ensures Progress(nodes0, nodes, from, child, done + [w], rest, all, isDir)
  {
    hide Making, AllOnWay, Kinds, Entered, StepTo, Tree, Extends;
    MakingEnters(nodes0, before, nodes, from, at, child, done, w, rest, all);
    KindsEnter(nodes0, before, nodes, at, child, done, w, isDir, rest == []);
    MoreOnWay(nodes0, before, nodes, from, child, done, w, rest, all);
  }

  lemma ProgressWord(nodes0: Nodes, nodes: Nodes, from: nat, curr: nat, done: seq<seq<char>>, w: seq<char>,
                     rest: seq<seq<char>>, path: seq<char>, isDir: bool)
    requires Progress(nodes0, nodes, from, curr, done, [w] + rest, Components(path), isDir) && NUL !in w
    ensures w == "." || w == ".." || NameOk(w)
  {
    hide Components, NameOk, Making, AllOnWay, Kinds;
    NextWord(nodes0, nodes, from, curr, done, w, rest, path);
    ComponentOk(path, w);
  }

  lemma ProgressEnds(nodes0: Nodes, nodes: Nodes, from: nat, curr: nat, done: seq<seq<char>>, all: seq<seq<char>>,
                     isDir: bool)
    requires Progress(nodes0, nodes, from, curr, done, [], all, isDir)
    ensures Tree(nodes0) && Tree(nodes) && from in nodes0 && from in nodes && curr in nodes
    ensures Extends(nodes0, nodes) && Resolve(nodes, from, all) == Some(curr)
    ensures Resolve(nodes0, from, all).Some? ==> nodes == nodes0
    ensures forall c | c in nodes && c !in nodes0 :: OnWay(nodes, from, all, c)
    ensures forall c | c in nodes && c !in nodes0 && c != curr :: nodes[c].isDir
    ensures curr !in nodes0 && Dotless(all) ==> nodes[curr].isDir == isDir
  {
    hide OnWay, Tree;
    MakingEnds(nodes0, nodes, from, curr, done, all);
  }
}
