/**
 The heap's table of free byte regions: 102 slots, a slot of length zero being empty. The lemmas
 say what exchanging, joining and dropping slots does to the set of free bytes.
 */
module HeapTable {

  const SLOTS: nat := 102

  datatype Slot = Slot(base: nat, length: nat) {
    function End(): nat { base + length }

    predicate Has(x: nat) { base <= x < End() }

    predicate Empty() { length == 0 }
  }

  const EMPTY := Slot(0, 0)

  ghost predicate FreeByte(t: seq<Slot>, x: nat) {
    exists k :: 0 <= k < |t| && t[k].Has(x)
  }

  /** No two regions share a byte. */
  ghost predicate Disjoint(t: seq<Slot>) {
    forall i, j | 0 <= i < |t| && 0 <= j < |t| && i != j && !t[i].Empty() && !t[j].Empty() ::
      t[i].End() <= t[j].base || t[j].End() <= t[i].base
  }

  /** No two regions share a byte or touch. */
  ghost predicate Coalesced(t: seq<Slot>) {
    forall i, j | 0 <= i < |t| && 0 <= j < |t| && i != j && !t[i].Empty() && !t[j].Empty() ::
      t[i].End() < t[j].base || t[j].End() < t[i].base
  }

  /** Regions are multiples of eight bytes above the lowest address, empty slots are all zero. */
  ghost predicate Aligned(t: seq<Slot>) {
    forall k | 0 <= k < |t| ::
      t[k] == EMPTY || (!t[k].Empty() && t[k].base % 8 == 0 && t[k].length % 8 == 0 && t[k].base >= 0x10000)
  }

  /** The first count slots are the regions. */
  ghost predicate Packed(t: seq<Slot>, count: nat) {
    count <= |t| && forall k | 0 <= k < |t| :: !t[k].Empty() <==> k < count
  }

  /** The first count slots hold all the regions. */
  ghost predicate Bounded(t: seq<Slot>, count: nat) {
    count <= |t| && forall k | count <= k < |t| :: t[k] == EMPTY
  }

  ghost predicate IsAligned(a: Slot) {
    a.base % 8 == 0 && a.length % 8 == 0 && a.base >= 0x10000
  }

  ghost predicate SameFree(t: seq<Slot>, u: seq<Slot>) {
    forall x: nat :: FreeByte(u, x) <==> FreeByte(t, x)
  }

  /** The free bytes of u are those of t and those of n. */
  ghost predicate Gained(t: seq<Slot>, u: seq<Slot>, n: Slot) {
    forall x: nat :: FreeByte(u, x) <==> FreeByte(t, x) || n.Has(x)
  }

  predicate HasEmpty(t: seq<Slot>) {
    exists k :: 0 <= k < |t| && t[k].Empty()
  }

  // ----- Exchanging two slots -----

  function Swapped(t: seq<Slot>, i: nat, j: nat): (u: seq<Slot>)
    requires i < |t| && j < |t|
    ensures |u| == |t|
  {
    t[i := t[j]][j := t[i]]
  }

  lemma SwapKeeps(t: seq<Slot>, i: nat, j: nat)
    requires i < |t| && j < |t| && Disjoint(t) && Aligned(t)
    ensures Disjoint(Swapped(t, i, j)) && Aligned(Swapped(t, i, j)) && SameFree(t, Swapped(t, i, j))
  {
    var u := Swapped(t, i, j);
    forall x: nat ensures FreeByte(u, x) <==> FreeByte(t, x) {
      if k :| 0 <= k < |t| && t[k].Has(x) {
        assert u[if k == i then j else if k == j then i else k].Has(x);
      }
      if k :| 0 <= k < |u| && u[k].Has(x) {
        assert t[if k == i then j else if k == j then i else k].Has(x);
      }
    }
  }

  // ----- Order -----

  /** Regions before empty slots, regions by address. */
  predicate Before(a: Slot, b: Slot) {
    b.Empty() || (!a.Empty() && a.base <= b.base)
  }

  ghost predicate Sorted(t: seq<Slot>) {
    forall i, j | 0 <= i < j < |t| :: Before(t[i], t[j])
  }

  lemma {:induction false} SortedIsPacked(t: seq<Slot>) returns (count: nat)
    requires Sorted(t)
    ensures Packed(t, count)
  {
    count := 0;
    while count < |t| && !t[count].Empty()
      invariant count <= |t| && forall k | 0 <= k < count :: !t[k].Empty()
    {
      count := count + 1;
    }
    assert forall k | count < k < |t| :: Before(t[count], t[k]);
  }

  // ----- Dropping a slot -----

  /** t with slot j dropped and an empty slot added at the end. */
  function Dropped(t: seq<Slot>, j: nat): (u: seq<Slot>)
    requires j < |t|
    ensures |u| == |t|
    ensures forall k | 0 <= k < |t| :: u[k] == if k < j then t[k] else if k + 1 < |t| then t[k + 1] else EMPTY
  {
    t[..j] + t[j + 1..] + [EMPTY]
  }

  lemma DropFree(t: seq<Slot>, j: nat, x: nat)
    requires j < |t|
    ensures FreeByte(Dropped(t, j), x) <==> exists k :: 0 <= k < |t| && k != j && t[k].Has(x)
  {
    var u := Dropped(t, j);
    if k :| 0 <= k < |t| && k != j && t[k].Has(x) {
      assert u[if k < j then k else k - 1].Has(x);
    }
    if k :| 0 <= k < |u| && u[k].Has(x) {
      assert t[if k < j then k else k + 1].Has(x);
    }
  }

  /** Region i grows over the touching region j, whose slot is dropped. */
  lemma JoinKeeps(t: seq<Slot>, i: nat, j: nat)
    requires i < |t| && j < |t| && i != j && Disjoint(t) && Aligned(t)
    requires !t[i].Empty() && !t[j].Empty() && t[i].End() == t[j].base
    ensures var m := t[i := Slot(t[i].base, t[i].length + t[j].length)];
            Disjoint(Dropped(m, j)) && Aligned(Dropped(m, j)) && SameFree(t, Dropped(m, j))
  {
    var m := t[i := Slot(t[i].base, t[i].length + t[j].length)];
    var u := Dropped(m, j);
    forall x: nat ensures FreeByte(u, x) <==> FreeByte(t, x) {
      DropFree(m, j, x);
      if k :| 0 <= k < |t| && t[k].Has(x) {
        assert m[if k == j then i else k].Has(x);
      }
      if k :| 0 <= k < |m| && k != j && m[k].Has(x) {
        assert t[k].Has(x) || (k == i && t[j].Has(x));
      }
    }
    DroppedDisjoint(t, i, j);
  }

  lemma DroppedDisjoint(t: seq<Slot>, i: nat, j: nat)
    requires i < |t| && j < |t| && i != j && Disjoint(t) && Aligned(t)
    requires !t[i].Empty() && !t[j].Empty() && t[i].End() == t[j].base
    ensures var m := t[i := Slot(t[i].base, t[i].length + t[j].length)];
            Disjoint(Dropped(m, j)) && Aligned(Dropped(m, j))
  {
    var m := t[i := Slot(t[i].base, t[i].length + t[j].length)];
    GrownDisjoint(t, i, j);
    DropDisjoint(m[j := EMPTY], j);
    assert Dropped(m, j) == Dropped(m[j := EMPTY], j);
  }

  lemma GrownDisjoint(t: seq<Slot>, i: nat, j: nat)
    requires i < |t| && j < |t| && i != j && Disjoint(t) && Aligned(t)
    requires !t[i].Empty() && !t[j].Empty() && t[i].End() == t[j].base
    ensures var m := t[i := Slot(t[i].base, t[i].length + t[j].length)][j := EMPTY]; Disjoint(m) && Aligned(m)
  {
    var m := t[i := Slot(t[i].base, t[i].length + t[j].length)][j := EMPTY];
    forall a, b | 0 <= a < |m| && 0 <= b < |m| && a != b && !m[a].Empty() && !m[b].Empty()
      ensures m[a].End() <= m[b].base || m[b].End() <= m[a].base
    {
      if a == i {
        assert t[b].End() <= t[i].base || t[i].End() <= t[b].base;
        assert t[b].End() <= t[j].base || t[j].End() <= t[b].base;
      } else if b == i {
        assert t[a].End() <= t[i].base || t[i].End() <= t[a].base;
        assert t[a].End() <= t[j].base || t[j].End() <= t[a].base;
      }
    }
  }

  lemma DropDisjoint(t: seq<Slot>, j: nat)
    requires j < |t| && Disjoint(t) && Aligned(t)
    ensures Disjoint(Dropped(t, j)) && Aligned(Dropped(t, j))
  {
    var u := Dropped(t, j);
    forall a, b | 0 <= a < |u| && 0 <= b < |u| && a != b && !u[a].Empty() && !u[b].Empty()
      ensures u[a].End() <= u[b].base || u[b].End() <= u[a].base
    {
      DropPair(t, j, a, b);
    }
  }

  lemma DropPair(t: seq<Slot>, j: nat, a: nat, b: nat)
    requires j < |t| && Disjoint(t) && a < |t| && b < |t| && a != b
    requires !Dropped(t, j)[a].Empty() && !Dropped(t, j)[b].Empty()
    ensures Dropped(t, j)[a].End() <= Dropped(t, j)[b].base || Dropped(t, j)[b].End() <= Dropped(t, j)[a].base
  {
    var a', b' := if a < j then a else a + 1, if b < j then b else b + 1;
    assert Dropped(t, j)[a] == t[a'] && Dropped(t, j)[b] == t[b'];
  }

  // ----- Joining in a sorted table -----

  /** The first i regions touch nothing after them. */
  ghost predicate SettledBefore(t: seq<Slot>, i: nat) {
    forall a, b | 0 <= a < i && a < b < |t| && !t[a].Empty() && !t[b].Empty() :: t[a].End() < t[b].base
  }

  /** Region i touches none of the slots up to j. */
  ghost predicate SettledRow(t: seq<Slot>, i: nat, j: nat) {
    forall b | i < b < j && b < |t| && !t[b].Empty() && i < |t| :: t[i].End() < t[b].base
  }

  function Joined(t: seq<Slot>, i: nat, j: nat): (u: seq<Slot>)
    requires i < j < |t|
    ensures |u| == |t|
    ensures forall k | 0 <= k < |t| ::
              u[k] == if k == i then Slot(t[i].base, t[i].length + t[j].length)
                      else if k < j then t[k] else if k + 1 < |t| then t[k + 1] else EMPTY
  {
    Dropped(t[i := Slot(t[i].base, t[i].length + t[j].length)], j)
  }

  lemma JoinInOrder(t: seq<Slot>, i: nat, j: nat, count: nat)
    requires i < j < |t| && Sorted(t) && Disjoint(t) && Packed(t, count)
    requires SettledBefore(t, i) && SettledRow(t, i, j)
    requires !t[i].Empty() && !t[j].Empty() && t[i].End() == t[j].base
    ensures count > 0 && Packed(Joined(t, i, j), count - 1) && Sorted(Joined(t, i, j))
    ensures SettledBefore(Joined(t, i, j), i) && SettledRow(Joined(t, i, j), i, j)
  {
    var u := Joined(t, i, j);
    assert Before(t[i], t[i + 1]);
    assert Before(t[i + 1], t[j]);
    JoinSorted(t, i, u);
    JoinSettled(t, i, u);
  }

  lemma JoinSorted(t: seq<Slot>, i: nat, u: seq<Slot>)
    requires i + 1 < |t| && Sorted(t) && u == Joined(t, i, i + 1) && !t[i].Empty()
    ensures Sorted(u)
  {
    forall a, b | 0 <= a < b < |u| ensures Before(u[a], u[b]) {
      var a', b' := if a <= i then a else a + 1, if b <= i then b else b + 1;
      if b' < |t| {
        assert Before(t[a'], t[b']);
      }
    }
  }

  lemma JoinSettled(t: seq<Slot>, i: nat, u: seq<Slot>)
    requires i + 1 < |t| && SettledBefore(t, i) && u == Joined(t, i, i + 1) && !t[i].Empty()
    ensures SettledBefore(u, i)
  {
    forall a, b | 0 <= a < i && a < b < |u| && !u[a].Empty() && !u[b].Empty() ensures u[a].End() < u[b].base {
      var b' := if b <= i then b else b + 1;
      assert t[a].End() < t[b'].base;
    }
  }

  lemma SettledRowEnds(t: seq<Slot>, i: nat)
    requires i < |t| && SettledBefore(t, i) && SettledRow(t, i, |t|)
    ensures SettledBefore(t, i + 1)
  {
  }

  /** A sorted table with everything settled is coalesced. */
  lemma SettledIsCoalesced(t: seq<Slot>)
    requires t != [] && SettledBefore(t, |t| - 1)
    ensures Coalesced(t)
  {
    forall i, j | 0 <= i < |t| && 0 <= j < |t| && i != j && !t[i].Empty() && !t[j].Empty()
      ensures t[i].End() < t[j].base || t[j].End() < t[i].base
    {
      if i < j { assert t[i].End() < t[j].base; } else { assert t[j].End() < t[i].base; }
    }
  }

  lemma SameFreeReflexive(t: seq<Slot>)
    ensures SameFree(t, t)
  {
  }

  lemma SameFreeTransitive(t: seq<Slot>, u: seq<Slot>, v: seq<Slot>)
    requires SameFree(t, u) && SameFree(u, v)
    ensures SameFree(t, v)
  {
  }

  lemma NothingSettled(t: seq<Slot>)
    ensures SettledBefore(t, 0)
  {
  }

  lemma EmptyRowSettled(t: seq<Slot>, i: nat)
    requires Sorted(t) && i < |t| && t[i].Empty()
    ensures SettledRow(t, i, |t|)
  {
    forall b | i < b < |t| ensures t[b].Empty() {
      assert Before(t[i], t[b]);
    }
  }

  /** In a sorted disjoint table, a later region that does not touch region i starts beyond it. */
  lemma RowAdvances(t: seq<Slot>, i: nat, j: nat)
    requires i < j < |t| && Sorted(t) && Disjoint(t) && SettledRow(t, i, j) && !t[i].Empty()
    requires t[j].Empty() || t[i].End() != t[j].base
    ensures SettledRow(t, i, j + 1)
  {
    if !t[j].Empty() {
      assert Before(t[i], t[j]);
    }
  }

  // ----- Runs of touching regions -----

  ghost predicate MergedByte(t: seq<Slot>, merged: seq<bool>, x: nat)
    requires |merged| == |t|
  {
    exists k :: 0 <= k < |t| && merged[k] && t[k].Has(x)
  }

  /** The merged regions, i among them, fill exactly size bytes from region i's base. */
  ghost predicate Run(t: seq<Slot>, count: nat, i: nat, size: nat, merged: seq<bool>) {
    && |merged| == |t| && i < count <= |t| && merged[i]
    && (forall k | 0 <= k < |t| && merged[k] :: k < count && !t[k].Empty())
    && size % 8 == 0 && size >= t[i].length
    && (forall x: nat :: t[i].base <= x < t[i].base + size <==> MergedByte(t, merged, x))
  }

  /** No further region starts where the run ends. */
  ghost predicate Complete(t: seq<Slot>, count: nat, i: nat, size: nat, merged: seq<bool>)
    requires |merged| == |t| && i < |t|
  {
    forall j | 0 <= j < count && j < |t| && !merged[j] && !t[j].Empty() :: t[j].base != t[i].base + size
  }

  lemma RunStarts(t: seq<Slot>, count: nat, i: nat, merged: seq<bool>)
    requires i < count <= |t| && !t[i].Empty() && Aligned(t)
    requires |merged| == |t| && forall k | 0 <= k < |t| :: merged[k] == (k == i)
    ensures Run(t, count, i, t[i].length, merged)
  {
    forall x: nat ensures t[i].base <= x < t[i].base + t[i].length <==> MergedByte(t, merged, x) {
      assert t[i].Has(x) ==> merged[i];
    }
  }

  lemma RunGrows(t: seq<Slot>, count: nat, i: nat, size: nat, merged: seq<bool>, j: nat)
    requires Run(t, count, i, size, merged) && Aligned(t)
    requires j < count && !merged[j] && !t[j].Empty() && t[j].base == t[i].base + size
    ensures Run(t, count, i, size + t[j].length, merged[j := true])
  {
    var m := merged[j := true];
    forall x: nat ensures t[i].base <= x < t[i].base + size + t[j].length <==> MergedByte(t, m, x) {
      if MergedByte(t, merged, x) {
        var k :| 0 <= k < |t| && merged[k] && t[k].Has(x);
        assert m[k];
      }
      if t[j].Has(x) { assert m[j]; }
      if MergedByte(t, m, x) {
        var k :| 0 <= k < |t| && m[k] && t[k].Has(x);
        assert k == j || MergedByte(t, merged, x);
      }
    }
    assert t[j].length % 8 == 0;
  }

  /** In a coalesced table a run never grows beyond its first region. */
  lemma CoalescedRun(t: seq<Slot>, i: nat, j: nat)
    requires Coalesced(t) && i < |t| && j < |t| && i != j && !t[i].Empty() && !t[j].Empty()
    ensures t[j].base != t[i].End()
  {
  }

  /** The table with a run collapsed into slot i. */
  function Collapsed(t: seq<Slot>, i: nat, size: nat, merged: seq<bool>): (u: seq<Slot>)
    requires |merged| == |t| && i < |t|
    ensures |u| == |t| && forall k | 0 <= k < |t| ::
                            u[k] == if k == i then Slot(t[i].base, size) else if merged[k] then EMPTY else t[k]
  {
    seq(|t|, k requires 0 <= k < |t| && |merged| == |t| && i < |t| =>
      if k == i then Slot(t[i].base, size) else if merged[k] then EMPTY else t[k])
  }

  lemma CollapseKeeps(t: seq<Slot>, count: nat, i: nat, size: nat, merged: seq<bool>)
    requires Run(t, count, i, size, merged) && Disjoint(t) && Aligned(t)
    ensures var u := Collapsed(t, i, size, merged); Disjoint(u) && Aligned(u) && SameFree(t, u)
  {
    var u := Collapsed(t, i, size, merged);
    forall x: nat ensures FreeByte(u, x) <==> FreeByte(t, x) {
      if FreeByte(t, x) {
        var k :| 0 <= k < |t| && t[k].Has(x);
        if merged[k] {
          assert MergedByte(t, merged, x);
          assert u[i].Has(x);
        } else {
          assert u[k].Has(x);
        }
      }
      if FreeByte(u, x) {
        var k :| 0 <= k < |u| && u[k].Has(x);
        if k == i {
          assert MergedByte(t, merged, x);
        } else {
          assert t[k].Has(x);
        }
      }
    }
    forall a, b | 0 <= a < |u| && 0 <= b < |u| && a != b && !u[a].Empty() && !u[b].Empty()
      ensures u[a].End() <= u[b].base || u[b].End() <= u[a].base
    {
      if a == i { RunDisjoint(t, count, i, size, merged, b); }
      if b == i { RunDisjoint(t, count, i, size, merged, a); }
    }
  }

  lemma RunDisjoint(t: seq<Slot>, count: nat, i: nat, size: nat, merged: seq<bool>, b: nat)
    requires Run(t, count, i, size, merged) && Disjoint(t) && b < |t| && !merged[b] && !t[b].Empty()
    ensures t[i].base + size <= t[b].base || t[b].End() <= t[i].base
  {
    RunMisses(t, count, i, size, merged, b, t[b].base);
    if t[b].Has(t[i].base) {
      RunMisses(t, count, i, size, merged, b, t[i].base);
      assert false;
    }
  }

  /** A byte of a region outside the run is not in the run. */
  lemma RunMisses(t: seq<Slot>, count: nat, i: nat, size: nat, merged: seq<bool>, b: nat, x: nat)
    requires Run(t, count, i, size, merged) && Disjoint(t) && b < |t| && !merged[b] && t[b].Has(x)
    ensures !(t[i].base <= x < t[i].base + size)
  {
    forall k | 0 <= k < |t| && merged[k] ensures !t[k].Has(x) {
      assert t[k].End() <= t[b].base || t[b].End() <= t[k].base;
    }
    assert !MergedByte(t, merged, x);
  }

  ghost predicate FreeRun(t: seq<Slot>, s: nat, n: nat) {
    forall x: nat | s <= x < s + n :: FreeByte(t, x)
  }

  /** A run of free bytes that starts inside region i lies inside the complete run from i. */
  lemma {:induction false} CompleteRunCovers(t: seq<Slot>, count: nat, i: nat, size: nat, merged: seq<bool>, s: nat,
                                             n: nat)
    requires Run(t, count, i, size, merged) && Complete(t, count, i, size, merged) && Disjoint(t)
    requires forall k | count <= k < |t| :: t[k].Empty()
    requires t[i].Has(s) && FreeRun(t, s, n)
    ensures s + n <= t[i].base + size
  {
    var e := t[i].base + size;
    if s + n > e {
      assert FreeByte(t, e);
      var k :| 0 <= k < |t| && t[k].Has(e);
      assert !MergedByte(t, merged, e);
      assert !merged[k];
      RunDisjoint(t, count, i, size, merged, k);
      assert false;
    }
  }

  /** No region before i contains s. */
  ghost predicate StartsLater(t: seq<Slot>, i: nat, s: nat) {
    forall k | 0 <= k < i && k < |t| :: !t[k].Has(s)
  }

  lemma EmptyStartsNothing(t: seq<Slot>, i: nat, n: nat)
    requires i < |t| && t[i].Empty()
    ensures forall s: nat | StartsLater(t, i, s) :: StartsLater(t, i + 1, s)
  {
  }

  /** A complete run shorter than n bytes starts no run of n free bytes. */
  lemma ShortRun(t: seq<Slot>, count: nat, i: nat, size: nat, merged: seq<bool>, n: nat)
    requires Run(t, count, i, size, merged) && Complete(t, count, i, size, merged) && Disjoint(t) && size < n
    requires forall k | count <= k < |t| :: t[k].Empty()
    ensures forall s: nat | FreeRun(t, s, n) && StartsLater(t, i, s) :: StartsLater(t, i + 1, s)
    ensures t[i].Empty() || !FreeRun(t, t[i].base, n)
  {
    if !t[i].Empty() && FreeRun(t, t[i].base, n) {
      CompleteRunCovers(t, count, i, size, merged, t[i].base, n);
      assert false;
    }
    forall s: nat | FreeRun(t, s, n) && StartsLater(t, i, s) ensures !t[i].Has(s) {
      if t[i].Has(s) {
        CompleteRunCovers(t, count, i, size, merged, s, n);
        assert false;
      }
    }
  }

  lemma RunIsFree(t: seq<Slot>, count: nat, i: nat, size: nat, merged: seq<bool>, n: nat)
    requires Run(t, count, i, size, merged) && n <= size
    ensures FreeRun(t, t[i].base, n)
    ensures |merged| == |t| && forall k | 0 <= k < |t| && merged[k] :: k < count
  {
    forall x: nat | t[i].base <= x < t[i].base + n ensures FreeByte(t, x) {
      assert MergedByte(t, merged, x);
    }
  }

  lemma NoRunLeft(t: seq<Slot>, count: nat, n: nat)
    requires n > 0 && count <= |t| && forall k | count <= k < |t| :: t[k].Empty()
    requires forall s: nat | FreeRun(t, s, n) :: StartsLater(t, count, s)
    ensures forall s: nat :: !FreeRun(t, s, n)
  {
    forall s: nat ensures !FreeRun(t, s, n) {
      if StartsLater(t, count, s) {
        assert !FreeByte(t, s);
      }
    }
  }

  lemma CollapseNothing(t: seq<Slot>, i: nat, size: nat, merged: seq<bool>)
    requires |merged| == |t| && i < |t| && size == t[i].length && forall k | 0 <= k < |t| :: merged[k] == (k == i)
    ensures Collapsed(t, i, size, merged) == t
  {
  }

  // ----- Writing one slot -----

  lemma PutFree(t: seq<Slot>, i: nat, n: Slot)
    requires i < |t| && t[i].Empty()
    ensures forall x: nat :: FreeByte(t[i := n], x) <==> FreeByte(t, x) || n.Has(x)
  {
    var u := t[i := n];
    forall x: nat ensures FreeByte(u, x) <==> FreeByte(t, x) || n.Has(x) {
      if k :| 0 <= k < |t| && t[k].Has(x) { assert u[k].Has(x); }
      if n.Has(x) { assert u[i].Has(x); }
      if k :| 0 <= k < |u| && u[k].Has(x) { assert t[k].Has(x) || n.Has(x); }
    }
  }

  lemma AlignedPut(t: seq<Slot>, i: nat, n: Slot)
    requires i < |t| && Aligned(t) && IsAligned(n) && !n.Empty()
    ensures Aligned(t[i := n])
  {
  }

  lemma AlignedDrop(t: seq<Slot>, j: nat)
    requires j < |t| && Aligned(t)
    ensures Aligned(Dropped(t, j))
  {
  }

  lemma CoalescedIsDisjoint(t: seq<Slot>)
    requires Coalesced(t)
    ensures Disjoint(t)
  {
  }

  lemma BoundedTail(t: seq<Slot>, count: nat)
    requires Bounded(t, count)
    ensures count <= |t| && forall k | count <= k < |t| :: t[k].Empty()
  {
  }

  lemma CollapseBounded(t: seq<Slot>, count: nat, i: nat, size: nat, merged: seq<bool>)
    requires Bounded(t, count) && Run(t, count, i, size, merged) && !t[i].Empty()
    ensures Bounded(Collapsed(t, i, size, merged), count)
  {
  }

  lemma RegionHigh(t: seq<Slot>, i: nat)
    requires Aligned(t) && i < |t| && !t[i].Empty()
    ensures t[i].base > 0xFFFF
  {
  }

  lemma SortedBounded(t: seq<Slot>, count: nat)
    requires Packed(t, count) && Aligned(t)
    ensures Bounded(t, count)
  {
  }

  lemma PackedAt(t: seq<Slot>, count: nat, i: nat)
    requires Packed(t, count) && i < |t|
    ensures count <= |t| && (!t[i].Empty() <==> i < count)
  {
  }
}
