/** NUL-terminated strings in buffers, and the splitting of a path into its components. */
module CStrings {
  import opened Common

  const NUL: char := '\0'

  /** A terminator follows position at. */
  predicate Terminated(s: seq<char>, at: nat) {
    exists k :: at <= k < |s| && s[k] == NUL
  }

  function StrEnd(s: seq<char>, at: nat): (e: nat)
    requires Terminated(s, at)
    ensures at <= e < |s| && s[e] == NUL && forall k | at <= k < e :: s[k] != NUL
    decreases |s| - at
  {
    if s[at] == NUL then at else StrEnd(s, at + 1)
  }

  /** The string at a position. */
  function CStr(s: seq<char>, at: nat): (r: seq<char>)
    requires Terminated(s, at)
  {
    s[at..StrEnd(s, at)]
  }

  lemma StrEndUnique(s: seq<char>, at: nat, e: nat)
    requires at <= e < |s| && s[e] == NUL && forall k | at <= k < e :: s[k] != NUL
    ensures Terminated(s, at) && StrEnd(s, at) == e
  {
  }

  method Strlen(s: seq<char>, at: nat) returns (n: nat)
    requires Terminated(s, at)
    ensures n == |CStr(s, at)| && at + n < |s| && s[at..at + n] == CStr(s, at)
  {
    n := 0;
    while s[at + n] != NUL
      invariant at + n <= StrEnd(s, at)
      decreases |s| - n
    {
      n := n + 1;
    }
    StrEndUnique(s, at, at + n);
  }

  /** Zero exactly for equal strings. */
  method Strcmp(a: seq<char>, i: nat, b: seq<char>, j: nat) returns (r: int)
    requires Terminated(a, i) && Terminated(b, j)
    ensures r == 0 <==> CStr(a, i) == CStr(b, j)
  {
    ghost var x, y := CStr(a, i), CStr(b, j);
    var k := 0;
    while a[i + k] != NUL && a[i + k] == b[j + k]
      invariant k <= |x| && k <= |y| && x[..k] == y[..k]
      decreases |a| - k
    {
      assert x[k] == a[i + k] && y[k] == b[j + k];
      k := k + 1;
    }
    r := a[i + k] as int - b[j + k] as int;
    if r == 0 {
      assert k == |x| && k == |y|;
    } else if k < |x| && k < |y| {
      assert x[k] == a[i + k] && y[k] == b[j + k];
    }
  }

  /** Whether a character other than the terminator occurs in a string. */
  method Strchr(s: seq<char>, c: char) returns (found: bool)
    requires Terminated(s, 0) && c != NUL
    ensures found <==> c in CStr(s, 0)
  {
    var k := 0;
    while s[k] != NUL
      invariant k <= StrEnd(s, 0) && c !in s[..k]
      decreases |s| - k
    {
      if s[k] == c {
        assert CStr(s, 0)[k] == c;
        return true;
      }
      k := k + 1;
    }
    StrEndUnique(s, 0, k);
    return false;
  }

  /**
   The next token from position at: the delimiters before it are skipped, the one after it becomes a
   terminator, and save moves past that. At the end of the string there is none and save stays.
   */
  method StrtokR(buf: array<char>, at: nat, delim: seq<char>) returns (token: Option<nat>, save: nat)
    requires Terminated(buf[..], at) && Terminated(delim, 0)
    modifies buf
    ensures token.None? ==>
             buf[..] == old(buf[..]) && save == at && forall c | c in CStr(buf[..], at) :: c in CStr(delim, 0)
    ensures token.Some? ==> NextToken(old(buf[..]), at, CStr(delim, 0), token.value, save, buf[..])
  {
    ghost var s, e := buf[..], StrEnd(buf[..], at);
    ghost var d := CStr(delim, 0);
    var p := at;
    while buf[p] != NUL
      invariant buf[..] == s && at <= p <= e && forall k | at <= k < p :: s[k] in d
      decreases e - p
    {
      var skip := Strchr(delim, buf[p]);
      if !skip { break; }
      p := p + 1;
    }
    if buf[p] == NUL {
      StrEndUnique(s, at, p);
      return None, at;
    }
    var start := p;
    while buf[p] != NUL
      invariant buf[..] == s && start <= p <= e && forall k | start <= k < p :: s[k] !in d
      decreases e - p
    {
      var stop := Strchr(delim, buf[p]);
      if stop { break; }
      p := p + 1;
    }
    assert start < p;
    if buf[p] != NUL {
      buf[p] := NUL;
      save := p + 1;
    } else {
      save := p;
    }
    assert buf[..] == s[p := NUL];
    token := Some(start);
    assert TokenAt(s, at, d, start, p);
    StrEndUnique(buf[..], start, p);
  }

  /** The token of s from at on lies at t..q: delimiters before it, none in it, a delimiter or the end after it. */
  ghost predicate TokenAt(s: seq<char>, at: nat, d: seq<char>, t: nat, q: nat)
    requires Terminated(s, at)
  {
    && at <= t < q <= StrEnd(s, at)
    && (forall k | at <= k < t :: s[k] in d)
    && (forall k | t <= k < q :: s[k] !in d)
    && (q == StrEnd(s, at) || s[q] in d)
  }

  /** The buffer after a token was cut off: the token stands at t, the rest of the string at save. */
  ghost predicate NextToken(s: seq<char>, at: nat, d: seq<char>, t: nat, save: nat, u: seq<char>)
    requires Terminated(s, at)
  {
    && Terminated(u, t)
    && var q := StrEnd(u, t);
       && TokenAt(s, at, d, t, q) && u == s[q := NUL]
       && save == if q < StrEnd(s, at) then q + 1 else q
  }

  // ----- Path components -----

  /** The length of the first component of a path that does not start with a slash. */
  function WordLength(s: seq<char>): (n: nat)
    ensures n <= |s| && (forall k | 0 <= k < n :: s[k] != '/') && (n < |s| ==> s[n] == '/')
  {
    if s == [] || s[0] == '/' then 0 else 1 + WordLength(s[1..])
  }

  /** The components of a path: its maximal parts without a slash. */
  function Components(s: seq<char>): (r: seq<seq<char>>)
    ensures forall w | w in r :: w != [] && '/' !in w
    decreases |s|
  {
    if s == [] then []
    else if s[0] == '/' then Components(s[1..])
    else [s[..WordLength(s)]] + Components(s[WordLength(s)..])
  }

  lemma {:induction false} SkipSlashes(s: seq<char>, k: nat)
    requires k <= |s| && forall i | 0 <= i < k :: s[i] == '/'
    ensures Components(s) == Components(s[k..])
  {
    if k == 0 {
      assert s[0..] == s;
    } else {
      SkipSlashes(s[1..], k - 1);
      assert s[1..][k - 1..] == s[k..];
    }
  }

  lemma WordLengthIs(s: seq<char>, n: nat)
    requires n <= |s| && (forall k | 0 <= k < n :: s[k] != '/') && (n < |s| ==> s[n] == '/')
    ensures WordLength(s) == n
  {
  }

  /** Cutting a token off cuts the first component off. */
  lemma TokenIsComponent(s: seq<char>, at: nat, t: nat, save: nat, u: seq<char>)
    requires Terminated(s, at) && NextToken(s, at, "/", t, save, u)
    ensures Terminated(u, save) && Components(CStr(s, at)) == [CStr(u, t)] + Components(CStr(u, save))
  {
    var e, q := StrEnd(s, at), StrEnd(u, t);
    StrEndUnique(u, save, e);
    assert u[t..q] == s[t..q] && u[save..e] == s[save..e];
    FirstComponent(s, at, t, q, e);
    if q < e { SkipOne(s, q, e); }
  }

  lemma FirstComponent(s: seq<char>, at: nat, t: nat, q: nat, e: nat)
    requires at <= t < q <= e <= |s|
    requires (forall k | at <= k < t :: s[k] == '/') && (forall k | t <= k < q :: s[k] != '/')
    requires q == e || s[q] == '/'
    ensures Components(s[at..e]) == [s[t..q]] + Components(s[q..e])
  {
    var r, w := s[at..e], s[t..e];
    SkipSlashes(r, t - at);
    assert r[t - at..] == w;
    WordLengthIs(w, q - t);
    assert w[..q - t] == s[t..q] && w[q - t..] == s[q..e];
  }

  lemma SkipOne(s: seq<char>, q: nat, e: nat)
    requires q < e <= |s| && s[q] == '/'
    ensures Components(s[q..e]) == Components(s[q + 1..e])
  {
    assert s[q..e][1..] == s[q + 1..e];
  }

  lemma {:induction false} OnlySlashes(s: seq<char>)
    requires forall c | c in s :: c == '/'
    ensures Components(s) == []
  {
    SkipSlashes(s, |s|) by { assert forall i | 0 <= i < |s| :: s[i] in s; }
    assert s[|s|..] == [];
  }

  /** A path printed from its components. */
  function Printed(names: seq<seq<char>>): (s: seq<char>)
  {
    if names == [] then [] else "/" + names[0] + Printed(names[1..])
  }

  lemma LeadComponent(w: seq<char>, rest: seq<char>)
    requires w != [] && '/' !in w && (rest == [] || rest[0] == '/')
    ensures Components("/" + w + rest) == [w] + Components(rest)
  {
    hide Components;
    var s, n := "/" + w + rest, |w| + 1;
    forall k | 1 <= k < n ensures s[k] != '/' { assert s[k] == w[k - 1]; }
    FirstComponent(s, 0, 1, n, |s|);
    assert s[0..|s|] == s && s[1..n] == w && s[n..|s|] == rest;
  }

  /** Printing and splitting are inverse on components without slashes. */
  lemma {:induction false} PrintedSplits(names: seq<seq<char>>)
    requires forall w | w in names :: w != [] && '/' !in w
    ensures Components(Printed(names)) == names
  {
    if names != [] {
      var w, rest := names[0], Printed(names[1..]);
      PrintedSplits(names[1..]) by { assert forall v | v in names[1..] :: v in names; }
      LeadComponent(w, rest) by { assert w in names; }
      assert names == [w] + names[1..];
    }
  }

  lemma {:induction false} PrintedAppend(names: seq<seq<char>>, w: seq<char>)
    ensures Printed(names + [w]) == Printed(names) + "/" + w
  {
    if names != [] {
      PrintedAppend(names[1..], w);
      assert (names + [w])[1..] == names[1..] + [w];
    }
  }

  /** A string that ends before the changed position stays. */
  lemma StrStays(s: seq<char>, t: nat, q: nat)
    requires Terminated(s, t) && StrEnd(s, t) < q < |s|
    ensures Terminated(s[q := NUL], t) && CStr(s[q := NUL], t) == CStr(s, t)
  {
    StrEndUnique(s[q := NUL], t, StrEnd(s, t));
  }

  /** A string with its terminator. */
  lemma TerminatedCopy(path: seq<char>)
    requires NUL !in path
    ensures Terminated(path + [NUL], 0) && CStr(path + [NUL], 0) == path
  {
    var s := path + [NUL];
    forall k | 0 <= k < |path| ensures s[k] != NUL { assert s[k] == path[k]; }
    StrEndUnique(s, 0, |path|);
  }
}
