/**
 Lists of free page runs in canonical form: sorted, disjoint and with a gap between
 neighbours. Addresses are counted in pages.
 */
module FreeRegions {
  import opened Common

  datatype Region = Region(base: nat, pages: nat) {
    function End(): nat { base + pages }

    predicate Has(x: nat) { base <= x < End() }
  }

  /** Non-empty regions, each ending strictly before the next begins. */
  ghost predicate Canonical(rs: seq<Region>) {
    && (forall i | 0 <= i < |rs| :: rs[i].pages > 0)
    && (forall i, j | 0 <= i < j < |rs| :: rs[i].End() < rs[j].base)
  }

  ghost predicate FreeAt(rs: seq<Region>, x: nat) {
    exists i :: 0 <= i < |rs| && rs[i].Has(x)
  }

  /** Canonical lists with the same free pages are the same list. */
  lemma {:induction false} CanonicalUnique(rs: seq<Region>, ts: seq<Region>)
    requires Canonical(rs) && Canonical(ts)
    requires forall x: nat :: FreeAt(rs, x) <==> FreeAt(ts, x)
    ensures rs == ts
    decreases |rs|
  {
    if rs == [] {
      assert ts != [] ==> ts[0].Has(ts[0].base) && FreeAt(ts, ts[0].base);
    } else {
      assert rs[0].Has(rs[0].base);
      assert FreeAt(ts, rs[0].base);
      SameFirstRegion(rs, ts);
      forall x: nat ensures FreeAt(rs[1..], x) <==> FreeAt(ts[1..], x) {
        TailFree(rs, x);
        TailFree(ts, x);
      }
      CanonicalUnique(rs[1..], ts[1..]);
      assert rs == [rs[0]] + rs[1..] && ts == [ts[0]] + ts[1..];
    }
  }

  lemma TailFree(rs: seq<Region>, x: nat)
    requires Canonical(rs) && rs != []
    ensures Canonical(rs[1..])
    ensures FreeAt(rs[1..], x) <==> FreeAt(rs, x) && !rs[0].Has(x)
  {
    if FreeAt(rs, x) && !rs[0].Has(x) {
      var i :| 0 <= i < |rs| && rs[i].Has(x);
      assert rs[1..][i - 1].Has(x);
    }
    if FreeAt(rs[1..], x) {
      var i :| 0 <= i < |rs[1..]| && rs[1..][i].Has(x);
      assert rs[i + 1].Has(x);
    }
  }

  /** The first free page at or above everything starts the first region, and its run ends it. */
  lemma SameFirstRegion(rs: seq<Region>, ts: seq<Region>)
    requires Canonical(rs) && Canonical(ts) && rs != [] && ts != []
    requires forall x: nat :: FreeAt(rs, x) <==> FreeAt(ts, x)
    ensures rs[0] == ts[0]
  {
    FirstBaseLow(rs, ts);
    FirstBaseLow(ts, rs);
    FirstEndLow(rs, ts);
    FirstEndLow(ts, rs);
  }

  lemma FirstBaseLow(rs: seq<Region>, ts: seq<Region>)
    requires Canonical(rs) && Canonical(ts) && rs != [] && ts != []
    requires forall x: nat :: FreeAt(rs, x) <==> FreeAt(ts, x)
    ensures rs[0].base <= ts[0].base
  {
    assert ts[0].Has(ts[0].base);
    assert FreeAt(rs, ts[0].base);
    var i :| 0 <= i < |rs| && rs[i].Has(ts[0].base);
  }

  lemma FirstEndLow(rs: seq<Region>, ts: seq<Region>)
    requires Canonical(rs) && Canonical(ts) && rs != [] && ts != [] && rs[0].base == ts[0].base
    requires forall x: nat :: FreeAt(rs, x) <==> FreeAt(ts, x)
    ensures ts[0].End() <= rs[0].End()
  {
    assert !FreeAt(rs, rs[0].End());
    assert rs[0].End() < ts[0].End() ==> ts[0].Has(rs[0].End());
  }

  /** All pages s .. s + count are free. */
  ghost predicate FreeRun(rs: seq<Region>, s: nat, count: nat) {
    forall x: nat | s <= x < s + count :: FreeAt(rs, x)
  }

  /** In a canonical list a run of free pages lies inside one region. */
  lemma {:induction false} RunInOneRegion(rs: seq<Region>, s: nat, count: nat) returns (i: nat)
    requires Canonical(rs) && count > 0 && FreeRun(rs, s, count)
    ensures i < |rs| && rs[i].base <= s && s + count <= rs[i].End()
    decreases count
  {
    if count == 1 {
      assert FreeAt(rs, s);
      i :| 0 <= i < |rs| && rs[i].Has(s);
    } else {
      i := RunInOneRegion(rs, s, count - 1);
      assert FreeAt(rs, s + count - 1);
      var j :| 0 <= j < |rs| && rs[j].Has(s + count - 1);
      if j != i { assert false; }
    }
  }

  /** First-fit fails exactly when no run of that many free pages exists. */
  lemma FitsIffRunExists(rs: seq<Region>, count: nat)
    requires Canonical(rs) && count > 0
    ensures (exists i :: 0 <= i < |rs| && rs[i].pages >= count) <==> (exists s: nat :: FreeRun(rs, s, count))
  {
    if s: nat :| FreeRun(rs, s, count) {
      var i := RunInOneRegion(rs, s, count);
    }
    if i :| 0 <= i < |rs| && rs[i].pages >= count {
      forall x: nat | rs[i].base <= x < rs[i].base + count ensures FreeAt(rs, x) {
        assert rs[i].Has(x);
      }
      assert FreeRun(rs, rs[i].base, count);
    }
  }

  // ----- Splicing -----

  lemma FreeAtConcat(a: seq<Region>, b: seq<Region>, x: nat)
    ensures FreeAt(a + b, x) <==> FreeAt(a, x) || FreeAt(b, x)
  {
    if i :| 0 <= i < |a| && a[i].Has(x) { assert (a + b)[i].Has(x); }
    if i :| 0 <= i < |b| && b[i].Has(x) { assert (a + b)[|a| + i].Has(x); }
    if i :| 0 <= i < |a + b| && (a + b)[i].Has(x) {
      if i < |a| { assert a[i].Has(x); } else { assert b[i - |a|].Has(x); }
    }
  }

  /** rs with its regions lo .. hi replaced by mid. */
  function Splice(rs: seq<Region>, lo: nat, hi: nat, mid: seq<Region>): seq<Region>
    requires lo <= hi <= |rs|
  {
    rs[..lo] + mid + rs[hi..]
  }

  lemma SpliceFree(rs: seq<Region>, lo: nat, hi: nat, mid: seq<Region>, x: nat)
    requires lo <= hi <= |rs|
    ensures FreeAt(Splice(rs, lo, hi, mid), x) <==> FreeAt(rs[..lo], x) || FreeAt(mid, x) || FreeAt(rs[hi..], x)
    ensures FreeAt(rs, x) <==> FreeAt(rs[..lo], x) || FreeAt(rs[lo..hi], x) || FreeAt(rs[hi..], x)
  {
    FreeAtConcat(rs[..lo] + mid, rs[hi..], x);
    FreeAtConcat(rs[..lo], mid, x);
    FreeAtConcat(rs[..lo] + rs[lo..hi], rs[hi..], x);
    FreeAtConcat(rs[..lo], rs[lo..hi], x);
    assert rs[..lo] + rs[lo..hi] + rs[hi..] == rs;
  }

  /** Replacing regions by one that keeps a gap to its new neighbours keeps the form canonical. */
  lemma SpliceCanonical(rs: seq<Region>, lo: nat, hi: nat, r: Region)
    requires Canonical(rs) && lo <= hi <= |rs| && r.pages > 0
    requires lo > 0 ==> rs[lo - 1].End() < r.base
    requires hi < |rs| ==> r.End() < rs[hi].base
    ensures Canonical(Splice(rs, lo, hi, [r]))
  {
    var ts := Splice(rs, lo, hi, [r]);
    forall i | 0 <= i < |ts| ensures ts[i] == if i < lo then rs[i] else if i == lo then r else rs[i - lo - 1 + hi] {}
    hide Splice;
    assert forall i | 0 <= i < lo :: rs[i].End() < r.base;
    assert forall j | hi <= j < |rs| :: r.End() < rs[j].base;
    forall i, j | 0 <= i < j < |ts| ensures ts[i].End() < ts[j].base {
      if i < lo && j > lo { assert rs[i].End() < rs[j - lo - 1 + hi].base; }
    }
  }

  // ----- Taking pages -----

  /** The list after count pages are taken from the front of region i. */
  function TakeFront(rs: seq<Region>, i: nat, count: nat): seq<Region>
    requires i < |rs| && count <= rs[i].pages
  {
    if rs[i].pages == count then Splice(rs, i, i + 1, [])
    else Splice(rs, i, i + 1, [Region(rs[i].base + count, rs[i].pages - count)])
  }

  /** First fit: the front of the first region with count pages is handed out, or there is none and nothing changes. */
  ghost predicate Handed(rs: seq<Region>, count: nat, r: Option<nat>, after: seq<Region>) {
    if r.None? then after == rs && forall i | 0 <= i < |rs| :: rs[i].pages < count
    else exists k :: HandedAt(rs, count, r.value, after, k)
  }

  ghost predicate HandedAt(rs: seq<Region>, count: nat, base: nat, after: seq<Region>, k: int) {
    && 0 <= k < |rs| && rs[k].pages >= count && rs[k].base == base && (forall i | 0 <= i < k :: rs[i].pages < count)
    && after == TakeFront(rs, k, count)
  }

  lemma PartsFree(rs: seq<Region>, lo: nat, hi: nat, x: nat)
    requires Canonical(rs) && lo <= hi <= |rs|
    ensures lo > 0 && FreeAt(rs[..lo], x) ==> x < rs[lo - 1].End()
    ensures hi < |rs| && FreeAt(rs[hi..], x) ==> rs[hi].base <= x
    ensures lo == 0 ==> !FreeAt(rs[..lo], x)
    ensures hi == |rs| ==> !FreeAt(rs[hi..], x)
  {
  }

  lemma SingleFree(r: Region, x: nat)
    ensures FreeAt([r], x) <==> r.Has(x)
  {
    assert [r][0] == r;
  }

  /** Exactly the taken pages stop being free, and the form stays canonical. */
  lemma TakeFrontIsExact(rs: seq<Region>, i: nat, count: nat)
    requires Canonical(rs) && i < |rs| && count <= rs[i].pages
    ensures Canonical(TakeFront(rs, i, count))
    ensures forall x: nat :: FreeAt(TakeFront(rs, i, count), x) <==>
                             FreeAt(rs, x) && !(rs[i].base <= x < rs[i].base + count)
  {
    TakeFrontCanonical(rs, i, count);
    hide FreeAt, TakeFront;
    forall x: nat
      ensures FreeAt(TakeFront(rs, i, count), x) <==> FreeAt(rs, x) && !(rs[i].base <= x < rs[i].base + count)
    {
      TakeFrontFree(rs, i, count, x);
    }
  }

  lemma TakeFrontCanonical(rs: seq<Region>, i: nat, count: nat)
    requires Canonical(rs) && i < |rs| && count <= rs[i].pages
    ensures Canonical(TakeFront(rs, i, count))
  {
    if rs[i].pages == count {
      assert rs[..i] + [] + rs[i + 1..] == rs[..i] + rs[i + 1..];
      RemovalCanonical(rs, i, TakeFront(rs, i, count));
    } else {
      SpliceCanonical(rs, i, i + 1, Region(rs[i].base + count, rs[i].pages - count));
    }
  }

  lemma RemovalCanonical(rs: seq<Region>, i: nat, ts: seq<Region>)
    requires Canonical(rs) && i < |rs| && ts == rs[..i] + rs[i + 1..]
    ensures Canonical(ts)
  {
    assert forall j | 0 <= j < i :: ts[j] == rs[j];
    assert forall j | i <= j < |ts| :: ts[j] == rs[j + 1];
  }

  lemma TakeFrontFree(rs: seq<Region>, i: nat, count: nat, x: nat)
    requires Canonical(rs) && i < |rs| && count <= rs[i].pages
    ensures FreeAt(TakeFront(rs, i, count), x) <==> FreeAt(rs, x) && !(rs[i].base <= x < rs[i].base + count)
  {
    var rest := Region(rs[i].base + count, rs[i].pages - count);
    assert !FreeAt([], x);
    hide FreeAt, Splice;
    SpliceFree(rs, i, i + 1, [], x);
    SpliceFree(rs, i, i + 1, [rest], x);
    SingleFree(rest, x);
    SingleFree(rs[i], x);
    assert rs[i..i + 1] == [rs[i]];
    PartsFree(rs, i, i + 1, x);
  }

  // ----- Giving pages back -----

  /** Where a run starting at base belongs: every earlier region starts below it, every later one does not. */
  ghost predicate Position(rs: seq<Region>, base: nat, k: nat) {
    k <= |rs| && (forall i | 0 <= i < k :: rs[i].base < base) && (forall i | k <= i < |rs| :: rs[i].base >= base)
  }

  /** The list after the run is given back at position k: joined to its neighbours where they touch. */
  function GiveBack(rs: seq<Region>, base: nat, count: nat, k: nat): seq<Region>
    requires k <= |rs|
  {
    var left := k > 0 && rs[k - 1].End() == base;
    var right := k < |rs| && base + count == rs[k].base;
    Splice(rs, if left then k - 1 else k, if right then k + 1 else k,
           [Region(if left then rs[k - 1].base else base,
                   (if left then rs[k - 1].pages else 0) + count + (if right then rs[k].pages else 0))])
  }

  /** A run given back where it belongs. */
  ghost predicate GivenBack(rs: seq<Region>, base: nat, count: nat, after: seq<Region>) {
    exists k: nat :: Position(rs, base, k) && after == GiveBack(rs, base, count, k)
  }

  ghost predicate Outside(rs: seq<Region>, base: nat, count: nat) {
    forall x: nat | base <= x < base + count :: !FreeAt(rs, x)
  }

  lemma OutsideNeighbours(rs: seq<Region>, base: nat, count: nat, k: nat)
    requires Canonical(rs) && count > 0 && Position(rs, base, k) && Outside(rs, base, count)
    ensures k > 0 ==> rs[k - 1].End() <= base
    ensures k < |rs| ==> base + count <= rs[k].base
  {
    assert !FreeAt(rs, base);
    assert k > 0 ==> !rs[k - 1].Has(base);
    assert k < |rs| && rs[k].base < base + count ==> !FreeAt(rs, rs[k].base);
  }

  /** Exactly the given pages become free, and the form stays canonical. */
  lemma GiveBackIsExact(rs: seq<Region>, base: nat, count: nat, k: nat)
    requires Canonical(rs) && count > 0 && Position(rs, base, k) && Outside(rs, base, count)
    ensures Canonical(GiveBack(rs, base, count, k))
    ensures forall x: nat :: FreeAt(GiveBack(rs, base, count, k), x) <==> FreeAt(rs, x) || base <= x < base + count
  {
    OutsideNeighbours(rs, base, count, k);
    var left := k > 0 && rs[k - 1].End() == base;
    var right := k < |rs| && base + count == rs[k].base;
    var lo, hi := if left then k - 1 else k, if right then k + 1 else k;
    var r := Region(if left then rs[k - 1].base else base,
                    (if left then rs[k - 1].pages else 0) + count + (if right then rs[k].pages else 0));
    SpliceCanonical(rs, lo, hi, r);
    forall x: nat ensures FreeAt(GiveBack(rs, base, count, k), x) <==> FreeAt(rs, x) || base <= x < base + count {
      SpliceFree(rs, lo, hi, [r], x);
      SingleFree(r, x);
      JoinedFree(rs, base, count, k, x);
    }
  }

  lemma JoinedFree(rs: seq<Region>, base: nat, count: nat, k: nat, x: nat)
    requires k <= |rs|
    ensures var left := k > 0 && rs[k - 1].End() == base;
            var right := k < |rs| && base + count == rs[k].base;
            FreeAt(rs[if left then k - 1 else k..if right then k + 1 else k], x) <==>
            (left && rs[k - 1].Has(x)) || (right && rs[k].Has(x))
  {
    var left := k > 0 && rs[k - 1].End() == base;
    var right := k < |rs| && base + count == rs[k].base;
    var mid := rs[if left then k - 1 else k..if right then k + 1 else k];
    if left && right {
      assert mid == [rs[k - 1]] + [rs[k]];
      FreeAtConcat([rs[k - 1]], [rs[k]], x);
      SingleFree(rs[k - 1], x);
      SingleFree(rs[k], x);
    } else if left {
      assert mid == [rs[k - 1]];
      SingleFree(rs[k - 1], x);
    } else if right {
      assert mid == [rs[k]];
      SingleFree(rs[k], x);
    }
  }

  /** Taking pages and giving the same pages back restores the very same list. */
  lemma TakeThenGiveBack(rs: seq<Region>, i: nat, count: nat, k: nat)
    requires Canonical(rs) && i < |rs| && 0 < count <= rs[i].pages
    requires Position(TakeFront(rs, i, count), rs[i].base, k)
    ensures GiveBack(TakeFront(rs, i, count), rs[i].base, count, k) == rs
  {
    var ts, b := TakeFront(rs, i, count), rs[i].base;
    TakeFrontIsExact(rs, i, count);
    GiveBackIsExact(ts, b, count, k);
    forall x: nat | b <= x < b + count ensures FreeAt(rs, x) {
      assert rs[i].Has(x);
    }
    CanonicalUnique(GiveBack(ts, b, count, k), rs);
  }

  // ----- Counting regions -----

  /** The pages lo .. hi are split between the free regions and the live blocks. */
  ghost predicate Accounts(rs: seq<Region>, live: set<Region>, lo: nat, hi: nat) {
    && (forall x: nat | FreeAt(rs, x) :: lo <= x < hi)
    && (forall b | b in live :: b.pages > 0 && lo <= b.base && b.End() <= hi)
    && (forall b, x: nat | b in live && b.Has(x) :: !FreeAt(rs, x))
    && (forall b, c, x: nat | b in live && c in live && b.Has(x) && c.Has(x) :: b == c)
    && (forall x: nat | lo <= x < hi :: FreeAt(rs, x) || LiveAt(live, x))
  }

  ghost predicate LiveAt(live: set<Region>, x: nat) {
    exists b :: b in live && b.Has(x)
  }

  /** Behind every region but the last begins a live block. */
  lemma BlockBehind(rs: seq<Region>, live: set<Region>, lo: nat, hi: nat, k: nat) returns (b: Region)
    requires Canonical(rs) && Accounts(rs, live, lo, hi) && k + 1 < |rs|
    ensures b in live && b.base == rs[k].End()
  {
    var e := rs[k].End();
    assert rs[k].Has(e - 1) && rs[k + 1].Has(rs[k + 1].base);
    assert FreeAt(rs, e - 1) && FreeAt(rs, rs[k + 1].base);
    assert !FreeAt(rs, e);
    assert LiveAt(live, e);
    b :| b in live && b.Has(e);
    assert !b.Has(e - 1);
  }

  /** There is at most one region more than there are live blocks. */
  lemma FewRegions(rs: seq<Region>, live: set<Region>, lo: nat, hi: nat)
    requires Canonical(rs) && Accounts(rs, live, lo, hi)
    ensures |rs| <= |live| + 1
  {
    var bs: seq<Region> := [];
    while |bs| + 1 < |rs|
      invariant |bs| + 1 <= |rs| || bs == []
      invariant forall k | 0 <= k < |bs| :: k < |rs| && bs[k] in live && bs[k].base == rs[k].End()
      decreases |rs| - |bs|
    {
      var b := BlockBehind(rs, live, lo, hi, |bs|);
      bs := bs + [b];
    }
    Pigeonhole(bs, live);
  }

  lemma TakeAccounts(rs: seq<Region>, live: set<Region>, lo: nat, hi: nat, i: nat, count: nat)
    requires Canonical(rs) && Accounts(rs, live, lo, hi) && i < |rs| && 0 < count <= rs[i].pages
    ensures Accounts(TakeFront(rs, i, count), live + {Region(rs[i].base, count)}, lo, hi)
    ensures Region(rs[i].base, count) !in live
  {
    TakeFrontIsExact(rs, i, count);
    var ts, b := TakeFront(rs, i, count), Region(rs[i].base, count);
    hide TakeFront, FreeAt;
    forall x: nat | b.Has(x) ensures FreeAt(rs, x) {
      RegionIsFree(rs, i, x);
    }
    forall x: nat | lo <= x < hi ensures FreeAt(ts, x) || LiveAt(live + {b}, x) {
      if LiveAt(live, x) {
        var c :| c in live && c.Has(x);
        assert c in live + {b};
      } else if b.Has(x) {
        assert b in live + {b};
      }
    }
    assert b.Has(b.base) && FreeAt(rs, b.base);
    assert b.Has(b.End() - 1) && FreeAt(rs, b.End() - 1);
  }

  lemma RegionIsFree(rs: seq<Region>, i: nat, x: nat)
    requires i < |rs| && rs[i].Has(x)
    ensures FreeAt(rs, x)
  {
  }

  lemma LiveIsOutside(rs: seq<Region>, live: set<Region>, lo: nat, hi: nat, b: Region)
    requires Accounts(rs, live, lo, hi) && b in live
    ensures Outside(rs, b.base, b.pages)
  {
    forall x: nat | b.base <= x < b.base + b.pages ensures !FreeAt(rs, x) {
      assert b.Has(x);
    }
  }

  lemma GiveBackAccounts(rs: seq<Region>, live: set<Region>, lo: nat, hi: nat, b: Region, k: nat)
    requires Canonical(rs) && Accounts(rs, live, lo, hi) && b in live && Position(rs, b.base, k)
    ensures Accounts(GiveBack(rs, b.base, b.pages, k), live - {b}, lo, hi)
  {
    LiveIsOutside(rs, live, lo, hi, b);
    GiveBackIsExact(rs, b.base, b.pages, k);
    var ts := GiveBack(rs, b.base, b.pages, k);
    hide GiveBack, FreeAt;
    forall c, x: nat | c in live - {b} && c.Has(x) ensures !FreeAt(ts, x) {
      assert !b.Has(x);
    }
    forall x: nat | lo <= x < hi ensures FreeAt(ts, x) || LiveAt(live - {b}, x) {
      if LiveAt(live, x) && !b.Has(x) {
        var c :| c in live && c.Has(x);
        assert c in live - {b};
      }
    }
  }

  lemma SortedPosition(rs: seq<Region>, base: nat, k: nat)
    requires Canonical(rs) && k <= |rs| && (forall i | 0 <= i < k :: rs[i].base < base)
    requires k < |rs| ==> rs[k].base >= base
    ensures Position(rs, base, k)
  {
  }

  /** Giving a live block back, in one: the new list is canonical, accounts, and is short. */
  lemma FreeStep(rs: seq<Region>, live: set<Region>, lo: nat, hi: nat, b: Region, k: nat)
    requires Canonical(rs) && Accounts(rs, live, lo, hi) && b in live && Position(rs, b.base, k)
    ensures b.pages > 0
    ensures Canonical(GiveBack(rs, b.base, b.pages, k))
    ensures Accounts(GiveBack(rs, b.base, b.pages, k), live - {b}, lo, hi)
    ensures |GiveBack(rs, b.base, b.pages, k)| <= |live|
  {
    LiveIsOutside(rs, live, lo, hi, b);
    GiveBackIsExact(rs, b.base, b.pages, k);
    GiveBackAccounts(rs, live, lo, hi, b, k);
    FewRegions(GiveBack(rs, b.base, b.pages, k), live - {b}, lo, hi);
  }
}
