/**
 The initial user stack: argument count, argument and environment pointers, auxiliary vector and
 strings, written below the stack top, as section 3.4.1 of the System V AMD64 psABI lays them out.
 */
module UserStack {
  import opened LittleEndian

  const STACK_BYTES: nat := 128 * 0x1000
  const AUXV_BYTES: nat := 48 * 8
  const AT_PAGESZ: nat := 6
  const AT_RANDOM: nat := 25
  const AT_NULL: nat := 0
  const PAGE_SIZE: nat := 0x1000

  type Strings = seq<seq<Byte>>

  predicate Clean(all: Strings) {
    forall s | s in all :: 0 !in s
  }

  // ----- Layout -----

  /** The bytes the first k strings take with their terminators. */
  function Offset(all: Strings, k: nat): nat
    requires k <= |all|
  {
    if k == 0 then 0 else Offset(all, k - 1) + |all[k - 1]| + 1
  }

  /** Where the parts are, counted from the bottom of the image. */
  const ARGV: nat := 8

  function Envp(argc: nat): nat { ARGV + 8 * (argc + 1) }

  function Auxv(argc: nat, envc: nat): nat { Envp(argc) + 8 * (envc + 1) }

  function Fixed(argc: nat, envc: nat): nat { Auxv(argc, envc) + AUXV_BYTES }

  function Pad(n: nat): (p: nat)
    ensures p < 16 && (n + p) % 16 == 0
  {
    (16 - n % 16) % 16
  }

  function Total(argc: nat, envc: nat, bytes: nat): (n: nat)
    ensures n % 16 == 0 && n >= Fixed(argc, envc) + bytes
  {
    Fixed(argc, envc) + Pad(Fixed(argc, envc) + bytes) + bytes
  }

  /** The place of the k-th string's pointer. */
  function PointerAt(argc: nat, k: nat): nat {
    if k < argc then ARGV + 8 * k else Envp(argc) + 8 * (k - argc)
  }

  // ----- Bytes in memory -----

  function Splice(m: seq<Byte>, p: nat, b: seq<Byte>): (r: seq<Byte>)
    requires p + |b| <= |m|
    ensures |r| == |m|
  {
    m[..p] + b + m[p + |b|..]
  }

  lemma SpliceSlice(m: seq<Byte>, p: nat, b: seq<Byte>, lo: nat, hi: nat)
    requires p + |b| <= |m| && lo <= hi <= |m|
    ensures hi <= p || p + |b| <= lo ==> Splice(m, p, b)[lo..hi] == m[lo..hi]
    ensures lo == p && hi == p + |b| ==> Splice(m, p, b)[lo..hi] == b
  {
  }

  /** A word in memory. */
  ghost predicate WordIs(m: seq<Byte>, p: nat, v: nat) {
    p + 8 <= |m| && m[p..p + 8] == Bytes(v, 8)
  }

  /** A string with its terminator in memory. */
  ghost predicate StringIs(m: seq<Byte>, p: nat, s: seq<Byte>) {
    p + |s| < |m| && m[p..p + |s| + 1] == s + [0]
  }

  lemma WordStays(m: seq<Byte>, q: nat, b: seq<Byte>, p: nat, v: nat)
    requires q + |b| <= |m| && WordIs(m, p, v) && (p + 8 <= q || q + |b| <= p)
    ensures WordIs(Splice(m, q, b), p, v)
  {
    SpliceSlice(m, q, b, p, p + 8);
  }

  lemma StringStays(m: seq<Byte>, q: nat, b: seq<Byte>, p: nat, s: seq<Byte>)
    requires q + |b| <= |m| && StringIs(m, p, s) && (p + |s| < q || q + |b| <= p)
    ensures StringIs(Splice(m, q, b), p, s)
  {
    SpliceSlice(m, q, b, p, p + |s| + 1);
  }

  /** The first k strings and their pointers are in place. */
  ghost predicate Placed(m: seq<Byte>, base: nat, strings: nat, user: nat, argc: nat, all: Strings, k: nat) {
    && k <= |all|
    && (forall l {:trigger PointerAt(argc, l)} | 0 <= l < k ::
          WordIs(m, base + PointerAt(argc, l), user + Offset(all, l)))
    && (forall l {:trigger Offset(all, l)} | 0 <= l < k :: StringIs(m, strings + Offset(all, l), all[l]))
  }

  lemma {:induction false} OffsetGrows(all: Strings, l: nat, k: nat)
    requires l < k <= |all|
    ensures Offset(all, l) + |all[l]| + 1 <= Offset(all, k)
    decreases k - l
  {
    if l + 1 < k { OffsetGrows(all, l, k - 1); }
  }

  lemma PointersApart(argc: nat, envc: nat, l: nat, k: nat)
    requires l < k < argc + envc
    ensures PointerAt(argc, l) + 8 <= PointerAt(argc, k) && PointerAt(argc, k) + 8 <= Auxv(argc, envc)
  {
  }

  /** Placing the next string and its pointer. */
  lemma PlacedMore(m: seq<Byte>, base: nat, strings: nat, user: nat, argc: nat, all: Strings, k: nat)
    requires Placed(m, base, strings, user, argc, all, k) && k < |all| && argc <= |all|
    requires strings + Offset(all, k + 1) <= |m| && base + Auxv(argc, |all| - argc) <= strings
    requires base + PointerAt(argc, k) + 8 <= strings
    ensures var m1 := Splice(m, strings + Offset(all, k), all[k] + [0]);
            var m2 := Splice(m1, base + PointerAt(argc, k), Bytes(user + Offset(all, k), 8));
            Placed(m2, base, strings, user, argc, all, k + 1)
  {
    hide PointerAt, Auxv, Envp, Offset, Splice, WordIs, StringIs, Bytes;
    OffsetNext(all, k);
    var at, p := strings + Offset(all, k), base + PointerAt(argc, k);
    var m1 := Splice(m, at, all[k] + [0]);
    var v := user + Offset(all, k);
    var m2 := Splice(m1, p, Bytes(v, 8));
    StringPut(m, at, all[k]);
    WordPut(m1, p, v);
    StringStays(m1, p, Bytes(v, 8), at, all[k]);
    forall l | 0 <= l < k ensures WordIs(m2, base + PointerAt(argc, l), user + Offset(all, l)) {
      PointersApart(argc, |all| - argc, l, k);
      WordStays(m, at, all[k] + [0], base + PointerAt(argc, l), user + Offset(all, l));
      WordStays(m1, p, Bytes(v, 8), base + PointerAt(argc, l), user + Offset(all, l));
    }
    forall l | 0 <= l < k ensures StringIs(m2, strings + Offset(all, l), all[l]) {
      OffsetGrows(all, l, k);
      StringStays(m, at, all[k] + [0], strings + Offset(all, l), all[l]);
      StringStays(m1, p, Bytes(v, 8), strings + Offset(all, l), all[l]);
    }
  }

  lemma OffsetNext(all: Strings, k: nat)
    requires k < |all|
    ensures Offset(all, k + 1) == Offset(all, k) + |all[k]| + 1
  {
  }

  lemma WordPut(m: seq<Byte>, p: nat, v: nat)
    requires p + 8 <= |m|
    ensures WordIs(Splice(m, p, Bytes(v, 8)), p, v)
  {
    SpliceSlice(m, p, Bytes(v, 8), p, p + 8);
  }

  lemma StringPut(m: seq<Byte>, p: nat, s: seq<Byte>)
    requires p + |s| < |m|
    ensures StringIs(Splice(m, p, s + [0]), p, s)
  {
    SpliceSlice(m, p, s + [0], p, p + |s| + 1);
  }

  /** Writing a word beside the pointers and strings leaves them in place. */
  lemma PlacedStays(m: seq<Byte>, base: nat, strings: nat, user: nat, argc: nat, all: Strings, k: nat, q: nat, v: nat)
    requires Placed(m, base, strings, user, argc, all, k) && q + 8 <= strings <= |m|
    requires forall l {:trigger PointerAt(argc, l)} | 0 <= l < k ::
               base + PointerAt(argc, l) + 8 <= q || q + 8 <= base + PointerAt(argc, l)
    ensures Placed(Splice(m, q, Bytes(v, 8)), base, strings, user, argc, all, k)
  {
    hide PointerAt, Offset, Splice, WordIs, StringIs, Bytes;
    var b := Bytes(v, 8);
    forall l | 0 <= l < k ensures WordIs(Splice(m, q, b), base + PointerAt(argc, l), user + Offset(all, l)) {
      WordStays(m, q, b, base + PointerAt(argc, l), user + Offset(all, l));
    }
    forall l | 0 <= l < k ensures StringIs(Splice(m, q, b), strings + Offset(all, l), all[l]) {
      StringStays(m, q, b, strings + Offset(all, l), all[l]);
    }
  }

  /** The whole image: pointers and strings, the two null pointers, the auxiliary vector and the count. */
  ghost predicate Image(m: seq<Byte>, base: nat, strings: nat, user: nat, stackTop: nat, argc: nat, all: Strings) {
    && stackTop >= 16 && argc <= |all| && Placed(m, base, strings, user, argc, all, |all|)
    && WordIs(m, base, argc) && WordIs(m, base + ARGV + 8 * argc, 0)
    && WordIs(m, base + Envp(argc) + 8 * (|all| - argc), 0)
    && var x := base + Auxv(argc, |all| - argc);
       && WordIs(m, x, AT_PAGESZ) && WordIs(m, x + 8, PAGE_SIZE)
       && WordIs(m, x + 16, AT_RANDOM) && WordIs(m, x + 24, stackTop - 16)
       && WordIs(m, x + 32, AT_NULL) && WordIs(m, x + 40, 0)
  }

  /** Only bytes of base..tables and strings..top differ. */
  ghost predicate Untouched(m: seq<Byte>, n: seq<Byte>, base: nat, tables: nat, strings: nat, top: nat) {
    |m| == |n| && forall i | 0 <= i < |m| && !(base <= i < tables) && !(strings <= i < top) :: n[i] == m[i]
  }

  lemma UntouchedStarts(m: seq<Byte>, base: nat, tables: nat, strings: nat, top: nat)
    ensures Untouched(m, m, base, tables, strings, top)
  {
  }

  lemma UntouchedSplice(m: seq<Byte>, n: seq<Byte>, base: nat, tables: nat, strings: nat, top: nat, p: nat,
                        b: seq<Byte>)
    requires Untouched(m, n, base, tables, strings, top) && p + |b| <= |n|
    requires (base <= p && p + |b| <= tables) || (strings <= p && p + |b| <= top)
    ensures Untouched(m, Splice(n, p, b), base, tables, strings, top)
  {
  }

  lemma OffsetZero(all: Strings)
    ensures Offset(all, 0) == 0
  {
  }

  lemma OffsetGrowsTo(all: Strings, k: nat)
    requires k < |all|
    ensures Offset(all, k) + |all[k]| + 1 <= Offset(all, |all|)
  {
    OffsetGrows(all, k, |all|);
  }

  method Put(mem: array<Byte>, p: nat, b: seq<Byte>)
    requires p + |b| <= mem.Length
    modifies mem
    ensures mem[..] == Splice(old(mem[..]), p, b)
  {
    for k := 0 to |b|
      invariant forall i | 0 <= i < mem.Length && !(p <= i < p + k) :: mem[i] == old(mem[i])
      invariant mem[p..p + k] == b[..k]
    {
      mem[p + k] := b[k];
    }
    assert mem[p..p + |b|] == b;
    assert mem[..] == old(mem[..p]) + b + old(mem[p + |b|..]);
  }

  /** The sum of the strings' lengths with terminators. */
  method StringBytes(all: Strings) returns (n: nat)
    ensures n == Offset(all, |all|)
  {
    n := 0;
    for i := 0 to |all|
      invariant n == Offset(all, i)
    {
      n := n + |all[i]| + 1;
    }
  }

  lemma {:induction false} OffsetJoin(a: Strings, b: Strings, k: nat)
    requires k <= |a| + |b|
    ensures Offset(a + b, k) == if k <= |a| then Offset(a, k) else Offset(a, |a|) + Offset(b, k - |a|)
  {
    if k > 0 { OffsetJoin(a, b, k - 1); }
  }

  /** Copies the next string and writes its pointer. */
  method PlaceNext(mem: array<Byte>, base: nat, strings: nat, user: nat, argc: nat, ghost all: Strings, s: seq<Byte>,
                   k: nat, off: nat,
                   ghost m0: seq<Byte>, ghost top: nat)
    requires k < |all| && s == all[k] && argc <= |all| && off == Offset(all, k)
    requires Placed(mem[..], base, strings, user, argc, all, k)
    requires strings + off + |s| + 1 <= top <= mem.Length && base + Auxv(argc, |all| - argc) <= strings
    requires Untouched(m0, mem[..], base, base + Auxv(argc, |all| - argc), strings, top)
    modifies mem
    ensures Placed(mem[..], base, strings, user, argc, all, k + 1)
    ensures Untouched(m0, mem[..], base, base + Auxv(argc, |all| - argc), strings, top)
    ensures forall q: nat, v: nat | WordIs(old(mem[..]), q, v) && q + 8 <= strings ::
              q + 8 <= base + PointerAt(argc, k) || base + PointerAt(argc, k) + 8 <= q ==> WordIs(mem[..], q, v)
  {
    hide Placed, Offset, WordIs, StringIs, Bytes, Splice, Untouched;
    ghost var m := mem[..];
    PointerBelow(argc, |all| - argc, k);
    UntouchedSplice(m0, m, base, base + Auxv(argc, |all| - argc), strings, top, strings + off, s + [0]);
    OffsetNext(all, k);
    PlacedMore(m, base, strings, user, argc, all, k);
    Put(mem, strings + off, s + [0]);
    ghost var m1 := mem[..];
    var p := base + PointerAt(argc, k);
    UntouchedSplice(m0, m1, base, base + Auxv(argc, |all| - argc), strings, top, p, Bytes(user + off, 8));
    Put(mem, p, Bytes(user + off, 8));
    forall q: nat, v: nat | WordIs(m, q, v) && q + 8 <= strings && (q + 8 <= p || p + 8 <= q)
      ensures WordIs(mem[..], q, v)
    {
      WordStays(m, strings + off, s + [0], q, v);
      WordStays(m1, p, Bytes(user + off, 8), q, v);
    }
  }

  lemma PointerBelow(argc: nat, envc: nat, k: nat)
    requires k < argc + envc
    ensures PointerAt(argc, k) + 8 <= Auxv(argc, envc)
  {
  }

  /** Writes a word beside the pointers and strings. */
  method PutWord(mem: array<Byte>, base: nat, strings: nat, user: nat, argc: nat, ghost all: Strings, ghost k: nat,
                 q: nat, v: nat,
                 ghost m0: seq<Byte>, ghost tables: nat, ghost top: nat)
    requires Placed(mem[..], base, strings, user, argc, all, k) && base <= q
    requires q + 8 <= tables <= strings <= top <= mem.Length
    requires Untouched(m0, mem[..], base, tables, strings, top)
    requires forall l {:trigger PointerAt(argc, l)} | 0 <= l < k ::
               base + PointerAt(argc, l) + 8 <= q || q + 8 <= base + PointerAt(argc, l)
    modifies mem
    ensures Placed(mem[..], base, strings, user, argc, all, k) && WordIs(mem[..], q, v)
    ensures Untouched(m0, mem[..], base, tables, strings, top)
    ensures forall p: nat, w: nat | WordIs(old(mem[..]), p, w) && (p + 8 <= q || q + 8 <= p) :: WordIs(mem[..], p, w)
  {
    hide Placed, Offset, WordIs, StringIs, Bytes, Splice, Untouched;
    ghost var m := mem[..];
    PlacedStays(m, base, strings, user, argc, all, k, q, v);
    UntouchedSplice(m0, m, base, tables, strings, top, q, Bytes(v, 8));
    WordPut(m, q, v);
    Put(mem, q, Bytes(v, 8));
    forall p: nat, w: nat | WordIs(m, p, w) && (p + 8 <= q || q + 8 <= p) ensures WordIs(mem[..], p, w) {
      WordStays(m, q, Bytes(v, 8), p, w);
    }
  }

  /** Every byte outside a range is as it was. */
  ghost predicate Outside(m: seq<Byte>, n: seq<Byte>, lo: nat, hi: nat) {
    |m| == |n| && forall i | 0 <= i < |m| && !(lo <= i < hi) :: n[i] == m[i]
  }

  method FillZero(mem: array<Byte>, lo: nat, hi: nat)
    requires lo <= hi <= mem.Length
    modifies mem
    ensures Outside(old(mem[..]), mem[..], lo, hi) && forall i | lo <= i < hi :: mem[i] == 0
  {
    for k := lo to hi
      invariant forall i | 0 <= i < mem.Length && !(lo <= i < k) :: mem[i] == old(mem[i])
      invariant forall i | lo <= i < k :: mem[i] == 0
    {
      mem[k] := 0;
    }
  }

  lemma NothingPlaced(m: seq<Byte>, base: nat, strings: nat, user: nat, argc: nat, all: Strings)
    ensures Placed(m, base, strings, user, argc, all, 0)
  {
  }

  lemma PointersBefore(argc: nat, k: nat)
    requires k <= argc
    ensures forall l {:trigger PointerAt(argc, l)} | 0 <= l < k ::
              ARGV <= PointerAt(argc, l) && PointerAt(argc, l) + 8 <= ARGV + 8 * k
  {
  }

  lemma PointersAround(argc: nat, k: nat)
    requires argc <= k
    ensures forall l {:trigger PointerAt(argc, l)} | 0 <= l < k ::
              ARGV <= PointerAt(argc, l) && PointerAt(argc, l) + 8 <= Envp(argc) + 8 * (k - argc)
  {
  }

  /** Argument strings and pointers, and the null pointer after them. */
  method PlaceArgv(mem: array<Byte>, base: nat, strings: nat, user: nat, argv: Strings, ghost envp: Strings,
                   ghost top: nat)
    requires var all := argv + envp;
             && Placed(mem[..], base, strings, user, |argv|, all, 0) && base + Auxv(|argv|, |envp|) <= strings
             && strings + Offset(all, |all|) == top <= mem.Length
    modifies mem
    ensures Placed(mem[..], base, strings, user, |argv|, argv + envp, |argv|)
    ensures WordIs(mem[..], base + ARGV + 8 * |argv|, 0)
    ensures Untouched(old(mem[..]), mem[..], base, base + Auxv(|argv|, |envp|), strings, top)
  {
    hide Placed, Offset, WordIs, PointerAt, Untouched;
    ghost var all := argv + envp;
    var off := 0;
    UntouchedStarts(mem[..], base, base + Auxv(|argv|, |envp|), strings, top);
    OffsetZero(all);
    for i := 0 to |argv|
      invariant Placed(mem[..], base, strings, user, |argv|, all, i) && off == Offset(all, i)
      invariant Untouched(old(mem[..]), mem[..], base, base + Auxv(|argv|, |envp|), strings, top)
    {
      OffsetGrowsTo(all, i);
      PlaceNext(mem, base, strings, user, |argv|, all, argv[i], i, off, old(mem[..]), top);
      OffsetNext(all, i);
      off := off + |argv[i]| + 1;
    }
    PointersBefore(|argv|, |argv|);
    PutWord(mem, base, strings, user, |argv|, all, |argv|, base + ARGV + 8 * |argv|, 0, old(mem[..]),
            base + Auxv(|argv|, |envp|), top);
  }

  /** Environment strings and pointers, and the null pointer after them. */
  method PlaceEnvp(mem: array<Byte>, base: nat, strings: nat, user: nat, ghost argv: Strings, argc: nat, envp: Strings,
                   start: nat,
                   ghost m0: seq<Byte>, ghost top: nat)
    requires argc == |argv| && start == Offset(argv + envp, argc)
    requires var all := argv + envp;
             && Placed(mem[..], base, strings, user, argc, all, argc) && base + Auxv(argc, |envp|) <= strings
             && strings + Offset(all, |all|) == top <= mem.Length
    requires WordIs(mem[..], base + ARGV + 8 * argc, 0)
    requires Untouched(m0, mem[..], base, base + Auxv(argc, |envp|), strings, top)
    modifies mem
    ensures Placed(mem[..], base, strings, user, argc, argv + envp, argc + |envp|)
    ensures WordIs(mem[..], base + ARGV + 8 * argc, 0) && WordIs(mem[..], base + Envp(argc) + 8 * |envp|, 0)
    ensures Untouched(m0, mem[..], base, base + Auxv(argc, |envp|), strings, top)
  {
    hide Placed, Offset, WordIs, Untouched;
    ghost var all := argv + envp;
    var off := start;
    for i := 0 to |envp|
      invariant Placed(mem[..], base, strings, user, argc, all, argc + i) && off == Offset(all, argc + i)
      invariant WordIs(mem[..], base + ARGV + 8 * argc, 0)
      invariant Untouched(m0, mem[..], base, base + Auxv(argc, |envp|), strings, top)
    {
      OffsetGrowsTo(all, argc + i);
      PlaceNext(mem, base, strings, user, argc, all, envp[i], argc + i, off, m0, top);
      OffsetNext(all, argc + i);
      off := off + |envp[i]| + 1;
    }
    PointersAround(argc, argc + |envp|);
    PutWord(mem, base, strings, user, argc, all, argc + |envp|, base + Envp(argc) + 8 * |envp|, 0, m0,
            base + Auxv(argc, |envp|), top);
  }

  lemma UntouchedWiden(m: seq<Byte>, n: seq<Byte>, base: nat, tables: nat, wider: nat, strings: nat, top: nat)
    requires Untouched(m, n, base, tables, strings, top) && tables <= wider
    ensures Untouched(m, n, base, wider, strings, top)
  {
  }

  /** The auxiliary vector, and last the argument count. */
  method PlaceAuxv(mem: array<Byte>, base: nat, strings: nat, user: nat, argc: nat, envc: nat, ghost all: Strings,
                   stackTop: nat,
                   ghost m0: seq<Byte>, ghost top: nat)
    requires argc + envc == |all| && Placed(mem[..], base, strings, user, argc, all, |all|) && stackTop >= 16
    requires base + Fixed(argc, envc) <= strings <= top <= mem.Length
    requires WordIs(mem[..], base + ARGV + 8 * argc, 0) && WordIs(mem[..], base + Envp(argc) + 8 * envc, 0)
    requires Untouched(m0, mem[..], base, base + Auxv(argc, envc), strings, top)
    modifies mem
    ensures Image(mem[..], base, strings, user, stackTop, argc, all)
    ensures Untouched(m0, mem[..], base, base + Auxv(argc, envc) + 48, strings, top)
  {
    hide Placed, Offset, WordIs, Untouched, PointerAt;
    var x := base + Auxv(argc, envc);
    ghost var n := |all|;
    PointersAround(argc, n);
    UntouchedWiden(m0, mem[..], base, x, x + 48, strings, top);
    PutWord(mem, base, strings, user, argc, all, n, x, AT_PAGESZ, m0, x + 48, top);
    PutWord(mem, base, strings, user, argc, all, n, x + 8, PAGE_SIZE, m0, x + 48, top);
    PutWord(mem, base, strings, user, argc, all, n, x + 16, AT_RANDOM, m0, x + 48, top);
    PutWord(mem, base, strings, user, argc, all, n, x + 24, stackTop - 16, m0, x + 48, top);
    PutWord(mem, base, strings, user, argc, all, n, x + 32, AT_NULL, m0, x + 48, top);
    PutWord(mem, base, strings, user, argc, all, n, x + 40, 0, m0, x + 48, top);
    PutWord(mem, base, strings, user, argc, all, n, base, argc, m0, x + 48, top);
  }

  /** Zero from the end of the auxiliary entries to the strings, and nothing changed outside the image. */
  ghost predicate Padded(m0: seq<Byte>, m: seq<Byte>, base: nat, from: nat, strings: nat, top: nat) {
    && Outside(m0, m, base, top) && base <= from && strings <= top <= |m| && forall i | from <= i < strings :: m[i] == 0
  }

  lemma PaddedAfter(m0: seq<Byte>, z: seq<Byte>, m: seq<Byte>, base: nat, tables: nat, strings: nat, top: nat)
    requires Outside(m0, z, base, top) && Untouched(z, m, base, tables, strings, top)
    requires base <= tables <= strings <= top <= |z|
    requires forall i | base <= i < top :: z[i] == 0
    ensures Padded(m0, m, base, tables, strings, top)
  {
  }

  lemma TotalFits(argc: nat, envc: nat, bytes: nat, top: nat, base: nat)
    requires base + Total(argc, envc, bytes) == top
    ensures base + Fixed(argc, envc) <= top - bytes
  {
  }

  /**
   Builds the image below the stack top, seen by the kernel at index top of mem and by the user at
   stackTop. It fails exactly when the image is larger than the stack.
   */
  method SetupUserStackArgs(mem: array<Byte>, top: nat, stackTop: nat, argv: Strings, envp: Strings) returns (ok: bool,
                            rsp: nat)
    requires STACK_BYTES <= top <= mem.Length && STACK_BYTES <= stackTop < WORD_LIMIT
    modifies mem
    ensures ok <==> ImageSize(argv, envp) <= STACK_BYTES
    ensures !ok ==> mem[..] == old(mem[..])
    ensures ok ==> rsp == stackTop - ImageSize(argv, envp)
    ensures ok ==> Complete(old(mem[..]), mem[..], top, stackTop, argv, envp)
    ensures ok && Clean(argv) && Clean(envp) ==>
              rsp + top >= stackTop && Finds(mem[..], rsp + top - stackTop, stackTop - top, stackTop, argv, envp)
  {
    hide Placed, Offset, WordIs, Total, Image, Untouched, Padded, Outside, Finds;
    var argc, envc := |argv|, |envp|;
    ghost var all, m0 := argv + envp, mem[..];
    var a := StringBytes(argv);
    var b := StringBytes(envp);
    OffsetJoin(argv, envp, argc + envc);
    OffsetJoin(argv, envp, argc);
    OffsetZero(envp);
    var total := Total(argc, envc, a + b);
    if total > STACK_BYTES { return false, 0; }
    var base := top - total;
    FillZero(mem, base, top);
    ghost var z := mem[..];
    var strings, user := top - (a + b), stackTop - (a + b);
    TotalFits(argc, envc, a + b, top, base);
    NothingPlaced(mem[..], base, strings, user, argc, all);
    PlaceArgv(mem, base, strings, user, argv, envp, top);
    PlaceEnvp(mem, base, strings, user, argv, argc, envp, a, z, top);
    PlaceAuxv(mem, base, strings, user, argc, envc, all, stackTop, z, top);
    PaddedAfter(m0, z, mem[..], base, base + Auxv(argc, envc) + 48, strings, top);
    if Clean(argv) && Clean(envp) { ReadsBack(m0, mem[..], top, stackTop, argv, envp); }
    return true, stackTop - total;
  }

  /** The size of the image. */
  function ImageSize(argv: Strings, envp: Strings): nat {
    Total(|argv|, |envp|, Offset(argv, |argv|) + Offset(envp, |envp|))
  }

  /** The image stands below top, its strings end at top, and nothing else changed. */
  ghost predicate Complete(m0: seq<Byte>, m: seq<Byte>, top: nat, stackTop: nat, argv: Strings, envp: Strings) {
    && ImageSize(argv, envp) <= top && Offset(argv, |argv|) + Offset(envp, |envp|) <= stackTop
    && var base, bytes := top - ImageSize(argv, envp), Offset(argv, |argv|) + Offset(envp, |envp|);
       && Image(m, base, top - bytes, stackTop - bytes, stackTop, |argv|, argv + envp)
       && Padded(m0, m, base, base + Auxv(|argv|, |envp|) + 48, top - bytes, top)
  }

  // ----- Reading the image back -----

  function ReadWord(m: seq<Byte>, p: nat): nat
    requires p + 8 <= |m|
  {
    Value(m[p..p + 8])
  }

  function ReadString(m: seq<Byte>, p: int): seq<Byte> {
    if 0 <= p < |m| then m[p..][..ZeroAt(m[p..])] else []
  }

  /** The strings of a null-terminated vector of user pointers; user addresses are indices plus shift. */
  function ReadVector(m: seq<Byte>, at: nat, shift: int): Strings
    decreases |m| - at
  {
    if at + 8 > |m| || ReadWord(m, at) == 0 then []
    else [ReadString(m, ReadWord(m, at) - shift)] + ReadVector(m, at + 8, shift)
  }

  /** Where the words after a null-terminated vector begin. */
  function AfterNull(m: seq<Byte>, at: nat): (p: nat)
    ensures p >= at
    decreases |m| - at
  {
    if at + 8 > |m| then at else if ReadWord(m, at) == 0 then at + 8 else AfterNull(m, at + 8)
  }

  /** The pairs of an auxiliary vector, up to the one of type zero. */
  function ReadAuxv(m: seq<Byte>, at: nat): seq<(nat, nat)>
    decreases |m| - at
  {
    if at + 16 > |m| || ReadWord(m, at) == 0 then []
    else [(ReadWord(m, at), ReadWord(m, at + 8))] + ReadAuxv(m, at + 16)
  }

  lemma WordReads(m: seq<Byte>, p: nat, v: nat)
    requires WordIs(m, p, v) && v < WORD_LIMIT
    ensures ReadWord(m, p) == v
  {
    Powers();
    ValueOfBytes(v, 8);
  }

  lemma StringReads(m: seq<Byte>, p: nat, s: seq<Byte>)
    requires StringIs(m, p, s) && 0 !in s
    ensures ReadString(m, p) == s
  {
    var t := m[p..];
    assert forall i | 0 <= i < |s| :: t[i] == m[p..p + |s| + 1][i] == (s + [0])[i] == s[i] && s[i] in s;
    assert t[|s|] == m[p..p + |s| + 1][|s|] == 0;
    assert ZeroAt(t) == |s|;
    assert t[..|s|] == s;
  }

  /** A vector whose words point at strings in place and that ends with a null pointer reads back as those strings. */
  lemma {:induction false} VectorReads(m: seq<Byte>, at: nat, shift: int, ss: Strings, ps: seq<nat>)
    requires |ps| == |ss| && Clean(ss) && WordIs(m, at + 8 * |ss|, 0)
    requires forall k | 0 <= k < |ss| :: 0 < ps[k] < WORD_LIMIT && WordIs(m, at + 8 * k, ps[k])
    requires forall k | 0 <= k < |ss| :: 0 <= ps[k] - shift && StringIs(m, ps[k] - shift, ss[k])
    ensures ReadVector(m, at, shift) == ss && AfterNull(m, at) == at + 8 * |ss| + 8
    decreases |ss|
  {
    hide WordIs, StringIs, ReadString, ReadWord;
    if ss == [] {
      WordInside(m, at + 8 * 0, 0);
      WordReads(m, at, 0);
    } else {
      WordInside(m, at + 8 * 0, ps[0]);
      WordReads(m, at + 8 * 0, ps[0]);
      StringReads(m, ps[0] - shift, ss[0]) by { assert ss[0] in ss; }
      forall k | 0 <= k < |ss| - 1 ensures WordIs(m, at + 8 + 8 * k, ps[1..][k]) {
        assert WordIs(m, at + 8 * (k + 1), ps[k + 1]);
      }
      VectorReads(m, at + 8, shift, ss[1..], ps[1..]);
    }
  }

  lemma WordInside(m: seq<Byte>, p: nat, v: nat)
    requires WordIs(m, p, v)
    ensures p + 8 <= |m|
  {
  }

  /** What a program finds, reading up from its stack pointer at index rsp; user addresses are indices plus shift. */
  ghost predicate Finds(m: seq<Byte>, rsp: nat, shift: int, stackTop: nat, argv: Strings, envp: Strings) {
    && rsp + 8 <= |m| && ReadWord(m, rsp) == |argv|
    && ReadVector(m, rsp + 8, shift) == argv
    && var env := rsp + 8 + 8 * (ReadWord(m, rsp) + 1);
       && ReadVector(m, env, shift) == envp
       && ReadAuxv(m, AfterNull(m, env)) == [(6, 4096), (25, stackTop - 16)]
  }

  /**
   Reading from the user's stack pointer alone recovers the count, the arguments, the environment behind their null
   pointer, and behind its own null pointer the auxiliary vector.
   */
  lemma ReadsBack(m0: seq<Byte>, m: seq<Byte>, top: nat, stackTop: nat, argv: Strings, envp: Strings)
    requires Complete(m0, m, top, stackTop, argv, envp) && Clean(argv) && Clean(envp) && stackTop < WORD_LIMIT
    requires ImageSize(argv, envp) <= stackTop
    ensures Finds(m, top - ImageSize(argv, envp), stackTop - top, stackTop, argv, envp)
    ensures stackTop % 16 == 0 ==> (stackTop - ImageSize(argv, envp)) % 16 == 0
  {
    hide WordIs, StringIs, ReadVector, ReadWord, Padded, Offset, Total, PointerAt, Placed, AfterNull, ReadAuxv;
    var base, bytes := top - ImageSize(argv, envp), Offset(argv, |argv|) + Offset(envp, |envp|);
    var all, argc := argv + envp, |argv|;
    WordInside(m, base, argc);
    CountFits(argv, envp);
    WordReads(m, base, argc);
    var user := stackTop - bytes;
    OffsetJoin(argv, envp, |all|);
    OffsetZero(envp);
    TotalFits(argc, |envp|, bytes, stackTop, stackTop - ImageSize(argv, envp));
    PointerSlots(argc, base);
    PointersRead(m, base, top - bytes, user, argc, all, 0, argc, base + ARGV, stackTop - top, argv);
    PointersRead(m, base, top - bytes, user, argc, all, argc, |envp|, base + Envp(argc), stackTop - top, envp);
    AuxvReads(m, base + Auxv(argc, |envp|), stackTop);
  }

  lemma AuxvReads(m: seq<Byte>, x: nat, stackTop: nat)
    requires 16 <= stackTop < WORD_LIMIT && WordIs(m, x, AT_PAGESZ) && WordIs(m, x + 8, PAGE_SIZE)
    requires WordIs(m, x + 16, AT_RANDOM) && WordIs(m, x + 24, stackTop - 16)
    requires WordIs(m, x + 32, AT_NULL) && WordIs(m, x + 40, 0)
    ensures ReadAuxv(m, x) == [(6, 4096), (25, stackTop - 16)]
  {
    hide WordIs, ReadWord;
    WordInside(m, x + 40, 0);
    WordReads(m, x, AT_PAGESZ);
    WordReads(m, x + 8, PAGE_SIZE);
    WordReads(m, x + 16, AT_RANDOM);
    WordReads(m, x + 24, stackTop - 16);
    WordReads(m, x + 32, AT_NULL);
    assert ReadAuxv(m, x + 32) == [];
    assert ReadAuxv(m, x + 16) == [(25, stackTop - 16)];
  }

  /** The size: the count, both vectors with their null pointers, 384 bytes, the strings, and less than 16 to align. */
  lemma SizeIs(argv: Strings, envp: Strings)
    ensures ImageSize(argv, envp) % 16 == 0
    ensures var n := 8 * (1 + |argv| + 1 + |envp| + 1 + 48) + Offset(argv, |argv|) + Offset(envp, |envp|);
            n <= ImageSize(argv, envp) < n + 16
  {
  }

  lemma PointerSlots(argc: nat, base: nat)
    ensures forall k | 0 <= k < argc :: base + PointerAt(argc, 0 + k) == base + ARGV + 8 * k
    ensures forall k: nat :: base + PointerAt(argc, argc + k) == base + Envp(argc) + 8 * k
  {
  }

  lemma CountFits(argv: Strings, envp: Strings)
    ensures |argv| < ImageSize(argv, envp)
  {
  }

  lemma PointersRead(m: seq<Byte>, base: nat, strings: nat, user: nat, argc: nat, all: Strings, first: nat, n: nat,
                     at: nat, shift: int, ss: Strings)
    requires first + n <= |all| && ss == all[first..first + n] && Clean(ss)
    requires Placed(m, base, strings, user, argc, all, |all|)
    requires forall k | 0 <= k < n :: base + PointerAt(argc, first + k) == at + 8 * k
    requires WordIs(m, at + 8 * n, 0) && user > 0 && user - shift == strings
    requires user + Offset(all, |all|) <= WORD_LIMIT - 1
    ensures ReadVector(m, at, shift) == ss && AfterNull(m, at) == at + 8 * n + 8
  {
    hide WordIs, StringIs, ReadVector, Offset, Clean, AfterNull;
    var ps := seq(n, k requires 0 <= k < n => user + Offset(all, first + k));
    forall k | 0 <= k < n
      ensures 0 < ps[k] < WORD_LIMIT && WordIs(m, at + 8 * k, ps[k]) && 0 <= ps[k] - shift
      ensures StringIs(m, ps[k] - shift, ss[k])
    {
      var l := first + k;
      OffsetGrowsTo(all, l);
      assert WordIs(m, base + PointerAt(argc, l), user + Offset(all, l));
      assert StringIs(m, strings + Offset(all, l), all[l]);
    }
    VectorReads(m, at, shift, ss, ps);
  }
}
