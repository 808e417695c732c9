/** Path resolution, path printing and path creation over the tree of directory entries. */
module Paths {
  import opened Common
  import opened CStrings
  import opened DentryTree

  const ROOT: nat := 0

  /** What cutting a component off the string at a position of s leaves in u. */
  ghost predicate Cut(s: seq<char>, at: nat, u: seq<char>, token: Option<nat>, save: nat)
    requires Terminated(s, at) && Terminated(u, save)
  {
    && (token.None? ==> Components(CStr(s, at)) == [])
    && (token.Some? ==> at < save && Terminated(u, token.value))
    && (token.Some? ==> StrEnd(u, token.value) < save || Components(CStr(u, save)) == [])
    && (token.Some? ==> Components(CStr(s, at)) == [CStr(u, token.value)] + Components(CStr(u, save)))
  }

  /** Cuts the next component of a path off a buffer; strings before the cut stay. */
  method NextComponent(buf: array<char>, at: nat) returns (token: Option<nat>, save: nat)
    requires Terminated(buf[..], at)
    modifies buf
    ensures Terminated(buf[..], save) && at <= save < buf.Length && Cut(old(buf[..]), at, buf[..], token, save)
    ensures token.None? ==> buf[..] == old(buf[..])
    ensures forall t: nat | Terminated(old(buf[..]), t) && StrEnd(old(buf[..]), t) < at ::
              Terminated(buf[..], t) && CStr(buf[..], t) == CStr(old(buf[..]), t)
  {
    hide Components;
    ghost var s := buf[..];
    TerminatedCopy("/");
    token, save := StrtokR(buf, at, "/" + [NUL]);
    if token.Some? {
      TokenIsComponent(s, at, token.value, save, buf[..]);
      ghost var q := StrEnd(buf[..], token.value);
      if q == save { OnlySlashes(CStr(buf[..], save)); }
      forall t: nat | Terminated(s, t) && StrEnd(s, t) < at
        ensures Terminated(buf[..], t) && CStr(buf[..], t) == CStr(s, t)
      {
        StrStays(s, t, q);
      }
    } else {
      OnlySlashes(CStr(s, at));
    }
  }

  /** Copies a name and a slash to the place before position p. */
  method PutBefore(path: array<char>, p: nat, name: seq<char>) returns (q: nat)
    requires |name| < p <= path.Length
    modifies path
    ensures q == p - |name| - 1 && path[q..] == "/" + name + old(path[p..])
  {
    q := p - |name|;
    for k := 0 to |name|
      invariant path[p..] == old(path[p..]) && path[q..q + k] == name[..k]
    {
      path[q + k] := name[k];
    }
    q := q - 1;
    path[q] := '/';
  }

  class Vfs {
    var nodes: Nodes
    var next: nat

    ghost predicate Valid()
      reads this
    {
      Tree(nodes) && forall d | d in nodes :: d < next
    }

    constructor ()
      ensures Valid() && nodes.Keys == {ROOT} && nodes[ROOT].children == []
    {
      nodes, next := map[ROOT := Node("", None, [], true, 0)], 1;
    }

    /** Searches a directory's list for a name. */
    method Lookup(dir: nat, name: seq<char>) returns (r: Option<nat>)
      requires Valid() && dir in nodes && NUL !in name
      ensures (forall c | c in nodes[dir].children :: c in nodes) && r == FindName(nodes, nodes[dir].children, name)
    {
      ghost var all := nodes[dir].children;
      ChildrenIn(nodes, dir);
      TerminatedCopy(name);
      var rest := nodes[dir].children;
      while rest != []
        invariant (forall c | c in rest ::
                     c in nodes && c in all) && FindName(nodes, rest, name) == FindName(nodes, all, name)
      {
        var c := rest[0];
        assert NUL !in nodes[c].name by { assert c in all; ChildName(nodes, dir, c); }
        TerminatedCopy(nodes[c].name);
        var order := Strcmp(name + [NUL], 0, nodes[c].name + [NUL], 0);
        if order == 0 { return Some(c); }
        rest := rest[1..];
      }
      return None;
    }

    /** Adds an entry at the head of a directory's list, unless the name is taken. */
    method Create(dir: nat, name: seq<char>, isDir: bool) returns (created: Option<nat>)
      requires Valid() && dir in nodes && NUL !in name
      modifies this
      ensures Valid() && Extends(old(nodes), nodes)
      ensures created.None? <==> exists c ::
                                   c in old(nodes)[dir].children && c in old(nodes) && old(nodes)[c].name == name
      ensures created.None? ==> nodes == old(nodes)
      ensures created.Some? ==>
               created.value !in old(nodes) && nodes == Added(old(nodes), dir, created.value, name, isDir)
      ensures created.Some? && name != "." && name != ".." ==> Resolve(nodes, dir, [name]) == created
    {
      hide Resolve, Tree, Upward, Downward;
      var taken := Lookup(dir, name);
      if taken.Some? {
        SameExtends(nodes);
        return None;
      }
      ghost var n := Added(nodes, dir, next, name, isDir);
      AddedTree(nodes, dir, next, name, isDir);
      AddedExtends(nodes, dir, next, name, isDir, n);
      if name != "." && name != ".." { AddedFound(nodes, dir, next, name, isDir, n); }
      created := Some(next);
      nodes := nodes[dir := nodes[dir].(children := [next] + nodes[dir].children)];
      nodes := nodes[next := Node(name, Some(dir), [], isDir, 0)];
      next := next + 1;
    }

    /** Where a dot or a double dot leads; None for any other component. */
    method Dots(curr: nat, buf: array<char>, token: nat) returns (r: Option<nat>)
      requires Valid() && curr in nodes && Terminated(buf[..], token)
      ensures r.Some? ==> r.value in nodes && StepTo(nodes, curr, CStr(buf[..], token)) == r
      ensures r.None? <==> CStr(buf[..], token) != "." && CStr(buf[..], token) != ".."
    {
      hide Tree, StepTo, CStr;
      StepsTo(nodes, curr, CStr(buf[..], token));
      TerminatedCopy(".");
      var dot := Strcmp(buf[..], token, "." + [NUL], 0);
      if dot == 0 { return Some(curr); }
      TerminatedCopy("..");
      var dots := Strcmp(buf[..], token, ".." + [NUL], 0);
      if dots == 0 {
        ParentIn(nodes, curr);
        return Some(if nodes[curr].parent.Some? then nodes[curr].parent.value else curr);
      }
      return None;
    }

    /** Follows one component. */
    method Step(curr: nat, buf: array<char>, token: nat) returns (r: Option<nat>)
      requires Valid() && curr in nodes && Terminated(buf[..], token)
      ensures r == StepTo(nodes, curr, CStr(buf[..], token)) && (r.Some? ==> r.value in nodes)
    {
      hide Tree, StepTo;
      StepsTo(nodes, curr, CStr(buf[..], token));
      r := Dots(curr, buf, token);
      if r.None? {
        var n := Strlen(buf[..], token);
        r := Lookup(curr, buf[token..token + n]);
      }
    }

    /** Follows a path from an entry, counting a reference on the entry it leads to. */
    method KpathLookup(start: nat, path: seq<char>) returns (r: Option<nat>)
      requires Valid() && start in nodes && NUL !in path
      modifies this
      ensures Valid() && SameTree(old(nodes), nodes) && r == Resolve(old(nodes), start, Components(path))
      ensures r.None? ==> nodes == old(nodes)
      ensures r.Some? ==> r.value in old(nodes)
      ensures r.Some? ==> nodes == old(nodes)[r.value := old(nodes)[r.value].(refs := old(nodes)[r.value].refs + 1)]
    {
      hide Tree, Components, StrEnd, StepTo, Resolve, CStr, Terminated;
      ghost var goal := Resolve(nodes, start, Components(path));
      var buf := new char[|path| + 1](i => if 0 <= i < |path| then path[i] else NUL);
      assert buf[..] == path + [NUL];
      TerminatedCopy(path);
      var curr := start;
      ResolveNothing(nodes, curr);
      var token, save := NextComponent(buf, 0);
      while token.Some?
        invariant nodes == old(nodes) && next == old(next) && curr in nodes && Terminated(buf[..], save)
        invariant token.Some? ==> Terminated(buf[..], token.value)
        invariant token.Some? ==>
                   goal == Resolve(nodes, curr, [CStr(buf[..], token.value)] + Components(CStr(buf[..], save)))
        invariant token.None? ==> goal == Some(curr)
        decreases buf.Length - save, if token.Some? then 1 else 0
      {
        ResolveStep(nodes, curr, CStr(buf[..], token.value), Components(CStr(buf[..], save)));
        var found := Step(curr, buf, token.value);
        if found.None? { return None; }
        curr := found.value;
        token, save := NextComponent(buf, save);
        ResolveNothing(nodes, curr);
      }
      Hold(curr);
      r := Some(curr);
    }

    method Hold(d: nat)
      requires Valid() && d in nodes
      modifies this`nodes
      ensures Valid() && SameTree(old(nodes), nodes)
      ensures nodes == old(nodes)[d := old(nodes)[d].(refs := old(nodes)[d].refs + 1)]
    {
      hide Tree;
      nodes := nodes[d := nodes[d].(refs := nodes[d].refs + 1)];
      SameTreeKeeps(old(nodes), nodes);
    }

    /** The length of an entry's path with its terminator. */
    method PathLength(d: nat) returns (length: nat)
      requires Valid() && d in nodes
      ensures length == |Printed(Names(nodes, d))| + 1
    {
      hide Tree, Names, Printed, Upward;
      RootOnly(nodes, d);
      length := 1;
      var cur := d;
      while nodes[cur].parent.Some?
        invariant cur in nodes && length + |Printed(Names(nodes, cur))| == 1 + |Printed(Names(nodes, d))|
        decreases cur
      {
        LastName(nodes, cur);
        length := length + |nodes[cur].name| + 1;
        cur := nodes[cur].parent.value;
      }
      RootPath(nodes, cur);
    }

    /**
     Prints the path of an entry: the length is added up first, then the buffer is filled from its end,
     and the filling stops at the buffer's first character.
     */
    method KpathReverse(d: nat) returns (path: array<char>, ghost first: nat)
      requires Valid() && d in nodes
      ensures fresh(path) && first == 0
      ensures path[..] == (if d == ROOT then "/" else Printed(Names(nodes, d))) + [NUL]
    {
      hide Tree, Names, Printed, Upward;
      RootOnly(nodes, d);
      if nodes[d].parent.None? {
        path := new char[2](i => if i == 0 then '/' else NUL);
        assert path[..] == "/" + [NUL];
        return path, 0;
      }
      ghost var all := Printed(Names(nodes, d));
      var length := PathLength(d);
      path := new char[length];
      path[length - 1] := NUL;
      var p, cur := length - 1, d;
      while nodes[cur].parent.Some?
        invariant cur in nodes && fresh(path) && path.Length == |all| + 1
        invariant p == |Printed(Names(nodes, cur))| <= |all| && Printed(Names(nodes, cur)) + path[p..] == all + [NUL]
        decreases cur
      {
        LastName(nodes, cur);
        p := PutBefore(path, p, nodes[cur].name);
        cur := nodes[cur].parent.value;
      }
      RootPath(nodes, cur);
      first := p;
    }

    /** Looking up the printed path of an entry finds the entry exactly when the names on its way are proper. */
    method ReverseThenLookup(d: nat) returns (r: Option<nat>)
      requires Valid() && d in nodes
      modifies this
      ensures Valid() && SameTree(old(nodes), nodes) && (r == Some(d) <==> Proper(Names(old(nodes), d)))
    {
      hide Tree, Names, Printed, Components, Resolve;
      ghost var first: nat;
      var path: array<char>;
      path, first := KpathReverse(d);
      PrintedResolves(nodes, d);
      TerminatedCopy(if d == ROOT then "/" else Printed(Names(nodes, d)));
      var n := Strlen(path[..], 0);
      assert path[..n] == path[..][..n];
      RootIn(nodes);
      r := KpathLookup(ROOT, path[..n]);
    }

    /** Goes to a child, creating it when it is missing. */
    method Enter(curr: nat, word: seq<char>, isDir: bool) returns (child: nat)
      requires Valid() && curr in nodes && NameOk(word)
      modifies this
      ensures Valid() && Extends(old(nodes), nodes) && curr in nodes && child in nodes
      ensures StepTo(nodes, curr, word) == Some(child)
      ensures StepTo(old(nodes), curr, word).Some? ==> nodes == old(nodes)
      ensures forall c | c in nodes && c !in old(nodes) :: c == child && nodes[c].isDir == isDir
      ensures forall c | c in old(nodes) :: c in nodes && nodes[c].isDir == old(nodes)[c].isDir
    {
      hide Tree, StepTo, Resolve, Extends;
      StepsTo(nodes, curr, word);
      var found := Lookup(curr, word);
      if found.Some? {
        SameExtends(nodes);
        return found.value;
      }
      var created := Create(curr, word, isDir);
      assert created.Some?;
      StepIs(nodes, curr, word);
      child := created.value;
    }

    /** Takes the next component off the buffer, then enters the current one: the last one is of the given kind. */
    method EnterToken(curr: nat, buf: array<char>, token: nat, save: nat, isDir: bool) returns (child: nat,
                      following: Option<nat>, after: nat)
      requires Valid() && curr in nodes && Terminated(buf[..], token) && Terminated(buf[..], save)
      requires NameOk(CStr(buf[..], token))
      requires StrEnd(buf[..], token) < save || Components(CStr(buf[..], save)) == []
      modifies this, buf
      ensures Valid() && Extends(old(nodes), nodes) && curr in nodes && child in nodes
      ensures StepTo(nodes, curr, CStr(old(buf[..]), token)) == Some(child)
      ensures StepTo(old(nodes), curr, CStr(old(buf[..]), token)).Some? ==> nodes == old(nodes)
      ensures forall c | c in nodes && c !in old(nodes) :: c == child && nodes[c].isDir == (following.Some? || isDir)
      ensures forall c | c in old(nodes) :: c in nodes && nodes[c].isDir == old(nodes)[c].isDir
      ensures Terminated(buf[..], after) && save <= after < buf.Length
      ensures Cut(old(buf[..]), save, buf[..], following, after)
    {
      hide Tree, StepTo, Resolve, Extends, Components, StrEnd, Terminated;
      following, after := NextComponent(buf, save);
      var n := Strlen(buf[..], token);
      child := Enter(curr, buf[token..token + n], if following.None? then isDir else true);
    }

    /** Follows one component, creating what is missing. */
    method MakeNext(curr: nat, buf: array<char>, token: nat, save: nat, isDir: bool)
      returns (child: nat, following: Option<nat>, after: nat)
      requires Valid() && curr in nodes && Terminated(buf[..], token) && Terminated(buf[..], save)
      requires var w := CStr(buf[..], token); w == "." || w == ".." || NameOk(w)
      requires StrEnd(buf[..], token) < save || Components(CStr(buf[..], save)) == []
      modifies this, buf
      ensures Valid() && Extends(old(nodes), nodes) && curr in nodes && child in nodes
      ensures StepTo(nodes, curr, CStr(old(buf[..]), token)) == Some(child)
      ensures StepTo(old(nodes), curr, CStr(old(buf[..]), token)).Some? ==> nodes == old(nodes)
      ensures Entered(old(nodes), nodes, curr, child, CStr(old(buf[..]), token), isDir, following.None?)
      ensures Terminated(buf[..], after) && save <= after < buf.Length
      ensures Cut(old(buf[..]), save, buf[..], following, after)
    {
      hide Tree, StepTo, Resolve, Extends, Components, StrEnd, Terminated, NameOk;
      ghost var w := CStr(buf[..], token);
      hide CStr;
      var moved := Dots(curr, buf, token);
      if moved.Some? {
        SameExtends(nodes);
        child := moved.value;
        following, after := NextComponent(buf, save);
      } else {
        child, following, after := EnterToken(curr, buf, token, save, isDir);
        ChildAfter(nodes, curr, w, child);
      }
    }

    /** Creates what is missing on a path: directories on the way, the given kind at its end. */
    method KpathCreateForce(start: nat, path: seq<char>, isDir: bool) returns (ghost from: nat, ghost last: nat)
      requires Valid() && start in nodes && NUL !in path
      modifies this
      ensures Valid() && Extends(old(nodes), nodes)
      ensures from == if path != [] && path[0] == '/' then ROOT else start
      ensures from in nodes && Resolve(nodes, from, Components(path)) == Some(last)
      ensures from in old(nodes) && (Resolve(old(nodes), from, Components(path)).Some? ==> nodes == old(nodes))
      ensures forall c | c in nodes && c !in old(nodes) :: OnWay(nodes, from, Components(path), c)
      ensures forall c | c in nodes && c !in old(nodes) && c != last :: nodes[c].isDir
      ensures last in nodes && (last !in old(nodes) && Dotless(Components(path)) ==> nodes[last].isDir == isDir)
    {
      hide Tree, StepTo, Resolve, Extends, Components, CStr;
      hide StrEnd, Terminated, NameOk, Progress, Entered, OnWay, Dotless;
      RootIn(nodes);
      var curr := if |path| > 0 && path[0] == '/' then ROOT else start;
      from := curr;
      ghost var nodes0, all := nodes, Components(path);
      var buf := new char[|path| + 1](i => if 0 <= i < |path| then path[i] else NUL);
      assert buf[..] == path + [NUL];
      TerminatedCopy(path);
      ProgressStarts(nodes, curr, all, isDir);
      ghost var done: seq<seq<char>> := [];
      var token, save := NextComponent(buf, 0);
      while token.Some?
        invariant Valid() && curr in nodes && Terminated(buf[..], save) && save < buf.Length
        invariant token.Some? ==> Terminated(buf[..], token.value)
        invariant token.Some? ==> StrEnd(buf[..], token.value) < save || Components(CStr(buf[..], save)) == []
        invariant Progress(nodes0, nodes, from, curr, done, Ahead(buf[..], token, save), all, isDir)
        decreases buf.Length - save, if token.Some? then 1 else 0
      {
        ghost var w, rest, before, at := CStr(buf[..], token.value), Components(CStr(buf[..], save)), nodes, curr;
        CleanStr(buf[..], token.value);
        ProgressWord(nodes0, nodes, from, curr, done, w, rest, path, isDir);
        curr, token, save := MakeNext(curr, buf, token.value, save, isDir);
        assert Ahead(buf[..], token, save) == rest;
        ProgressEnters(nodes0, before, nodes, from, at, curr, done, w, rest, all, isDir);
        done := done + [w];
      }
      ProgressEnds(nodes0, nodes, from, curr, done, all, isDir);
      last := curr;
    }
  }

  /** The components from a token on. */
  ghost function Ahead(s: seq<char>, token: Option<nat>, save: nat): seq<seq<char>>
    requires Terminated(s, save) && (token.Some? ==> Terminated(s, token.value))
  {
    if token.Some? then [CStr(s, token.value)] + Components(CStr(s, save)) else []
  }

  /** A name with a slash is accepted, and the path printed for it does not lead back to it. */
  method SlashedName() returns (v: Vfs, d: nat, r: Option<nat>)
    ensures v.Valid() && d in v.nodes && v.nodes[d].name == "a/b" && r != Some(d)
  {
    v := new Vfs();
    var created := v.Create(ROOT, "a/b", false);
    d := created.value;
    ghost var n := v.nodes;
    RootOnly(n, d);
    assert Names(n, d) == Names(n, ROOT) + ["a/b"];
    assert "a/b"[1] == '/' && "a/b" in Names(n, d);
    r := v.ReverseThenLookup(d);
  }
}
