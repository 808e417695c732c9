/** Whole runs of the heap on its pages: any requests and returns, in any order. */
module HeapRuns {
  import opened Common
  import opened FreeRegions
  import opened HeapBlocks
  import opened HeapGrowth
  import opened HeapPages
  import opened HeapStale
  import opened HeapTable

  // ----- Runs -----

  /** A kmalloc, or a kfree of the k-th block held, when there are that many. */
  datatype Request = Get(size: nat, frames: bool) | Put(k: nat)

  datatype Block = Block(address: nat, size: nat)

  /** A request and its answer, the table and its count before and after, and the region the heap got for it. */
  datatype Event = Event(request: Request, result: Option<nat>, table: seq<Slot>, count: nat, after: seq<Slot>,
                         left: nat, region: Option<Region>)

  /** The bytes of a block, its header among them. */
  function BlockBytes(block: Block): Slot {
    if block.address >= 8 then Slot(block.address - 8, Full(block.size)) else EMPTY
  }

  /** The blocks held after a request. */
  function HeldNext(held: seq<Block>, e: Event): seq<Block> {
    match e.request
    case Get(size, _) => if e.result.Some? then held + [Block(e.result.value, size)] else held
    case Put(k) => if k < |held| then held[..k] + held[k + 1..] else held
  }

  /** The bytes given back. */
  function Returned(held: seq<Block>, e: Event): Slot {
    if e.request.Put? && e.request.k < |held| then BlockBytes(held[e.request.k]) else EMPTY
  }

  /** The pages that became free bytes: the region given to the heap, if the table takes it. */
  ghost function GrantAt(e: Event): Slot {
    if e.region.Some? && e.count <= |e.table| && Accepts(e.table, e.count, Bytes(e.region.value))
    then Bytes(e.region.value) else EMPTY
  }

  /** The growing loses bytes. */
  ghost predicate LosesAt(e: Event) {
    GrantAt(e) != EMPTY && e.count <= |e.table| && Loses(e.table, e.count, GrantAt(e))
  }

  function BlockAt(e: Event): Slot {
    if e.request.Get? then BlockFor(e.result, e.request.size) else EMPTY
  }

  /** What a request does, with the blocks held and the regions owned before it. */
  ghost predicate Happens(held: seq<Block>, owned: set<Region>, e: Event) {
    match e.request
    case Get(size, frames) =>
      && e.count <= |e.table| && Accounted(e.table, e.after, BlockAt(e), GrantAt(e), LosesAt(e))
      && (forall x: nat | BlockAt(e).Has(x) :: !FreeByte(e.after, x))
      && (e.result.Some? ==> e.result.value >= 8)
      && (e.result.None? && Allocatable(size) ==> forall s: nat :: !HeapTable.FreeRun(e.after, s, Need(size)))
      && (e.region.Some? ==> frames && forall s: nat :: !HeapTable.FreeRun(e.table, s, Need(size)))
      && (e.region.Some? ==> e.region.value.pages == Pages(size) && New(owned, e.region.value))
    case Put(k) =>
      && e.result.None? && e.region.None?
      && if k < |held| && HasEmpty(e.table) then Gained(e.table, e.after, Returned(held, e))
         else e.after == e.table && e.left == e.count
  }

  function HeldAfter(run: seq<Event>): seq<Block> {
    if run == [] then [] else HeldNext(HeldAfter(run[..|run| - 1]), run[|run| - 1])
  }

  function OwnedAfter(owned: set<Region>, run: seq<Event>): set<Region> {
    if run == [] then owned
    else
      var r := run[|run| - 1].region;
      OwnedAfter(owned, run[..|run| - 1]) + if r.Some? then {r.value} else {}
  }

  function TableAfter(t: seq<Slot>, run: seq<Event>): seq<Slot> { if run == [] then t else run[|run| - 1].after }

  function CountAfter(c: nat, run: seq<Event>): nat { if run == [] then c else run[|run| - 1].left }

  /** A run from table t with count c: each request finds the table the one before it left, and does what it does. */
  ghost predicate Runs(t: seq<Slot>, c: nat, owned: set<Region>, run: seq<Event>) {
    run == [] ||
    (var before, e := run[..|run| - 1], run[|run| - 1];
     && Runs(t, c, owned, before) && e.table == TableAfter(t, before) && e.count == CountAfter(c, before)
     && Happens(HeldAfter(before), OwnedAfter(owned, before), e))
  }

  // ----- The balance of bytes -----

  /** The pages the heap has grown by. */
  ghost function GrownBy(run: seq<Event>): seq<Slot> {
    if run == [] then []
    else
      var e := run[|run| - 1];
      GrownBy(run[..|run| - 1]) + if GrantAt(e) != EMPTY then [GrantAt(e)] else []
  }

  /** The blocks given back when all slots of the table were taken. */
  function DroppedBy(run: seq<Event>): seq<Slot> {
    if run == [] then []
    else
      var before, e := run[..|run| - 1], run[|run| - 1];
      DroppedBy(before) + if e.request.Put? && !HasEmpty(e.table) then [Returned(HeldAfter(before), e)] else []
  }

  ghost predicate InAny(ranges: seq<Slot>, x: nat) { exists k :: 0 <= k < |ranges| && ranges[k].Has(x) }

  ghost predicate InHeld(held: seq<Block>, x: nat) { exists k :: 0 <= k < |held| && BlockBytes(held[k]).Has(x) }

  /** The byte is free, in a block held, or in one dropped. */
  ghost predicate Known(t: seq<Slot>, held: seq<Block>, dropped: seq<Slot>, x: nat) {
    FreeByte(t, x) || InHeld(held, x) || InAny(dropped, x)
  }

  /** No byte is two of these at once; all lie on owned pages. */
  ghost predicate Parted(t: seq<Slot>, held: seq<Block>, dropped: seq<Slot>, owned: set<Region>) {
    && (forall x: nat | Known(t, held, dropped, x) :: OnPages(owned, x))
    && (forall x: nat | FreeByte(t, x) :: !InHeld(held, x) && !InAny(dropped, x))
    && (forall x: nat | InHeld(held, x) :: !InAny(dropped, x))
    && (forall i, j | 0 <= i < j < |held| :: !Overlapping(BlockBytes(held[i]), BlockBytes(held[j])))
  }

  /** The bytes known come from those free at first and the pages grown by, all of these unless some are lost. */
  ghost predicate Books(t0: seq<Slot>, t: seq<Slot>, held: seq<Block>, grown: seq<Slot>, dropped: seq<Slot>, lost: bool)
  {
    && (forall x: nat | Known(t, held, dropped, x) :: FreeByte(t0, x) || InAny(grown, x))
    && (!lost <==> forall x: nat | FreeByte(t0, x) || InAny(grown, x) :: Known(t, held, dropped, x))
  }

  lemma InMore(ranges: seq<Slot>, n: Slot, x: nat)
    ensures InAny(ranges + [n], x) <==> InAny(ranges, x) || n.Has(x)
  {
    if k :| 0 <= k < |ranges| && ranges[k].Has(x) { assert (ranges + [n])[k].Has(x); }
    if n.Has(x) { assert (ranges + [n])[|ranges|].Has(x); }
    if k :| 0 <= k < |ranges + [n]| && (ranges + [n])[k].Has(x) { assert k < |ranges| ==> ranges[k].Has(x); }
  }

  lemma HoldMore(held: seq<Block>, b: Block, x: nat)
    ensures InHeld(held + [b], x) <==> InHeld(held, x) || BlockBytes(b).Has(x)
  {
    hide BlockBytes;
    var more := held + [b];
    if k :| 0 <= k < |held| && BlockBytes(held[k]).Has(x) { assert BlockBytes(more[k]).Has(x); }
    if BlockBytes(b).Has(x) { assert BlockBytes(more[|held|]).Has(x); }
    if k :| 0 <= k < |more| && BlockBytes(more[k]).Has(x) { assert k < |held| ==> BlockBytes(held[k]).Has(x); }
  }

  lemma HoldLess(held: seq<Block>, k: nat, x: nat)
    requires k < |held|
    ensures InHeld(held, x) <==> InHeld(held[..k] + held[k + 1..], x) || BlockBytes(held[k]).Has(x)
  {
    hide BlockBytes;
    var less := held[..k] + held[k + 1..];
    if i :| 0 <= i < |held| && BlockBytes(held[i]).Has(x) {
      assert i == k || BlockBytes(less[if i < k then i else i - 1]).Has(x);
    }
    if i :| 0 <= i < |less| && BlockBytes(less[i]).Has(x) {
      assert BlockBytes(held[if i < k then i else i + 1]).Has(x);
    }
  }

  // ----- One request -----

  /** Owned pages stay owned, and the pages a request brings are new ones. */
  lemma PagesMore(owned: set<Region>, e: Event, x: nat)
    requires e.region.Some? ==> New(owned, e.region.value)
    ensures var more := owned + if e.region.Some? then {e.region.value} else {};
            && (OnPages(owned, x) ==> OnPages(more, x))
            && (GrantAt(e).Has(x) ==> !OnPages(owned, x) && OnPages(more, x))
  {
    var more := owned + if e.region.Some? then {e.region.value} else {};
    if OnPages(owned, x) { OwnedMore(owned, more, x); }
    if GrantAt(e).Has(x) {
      ByteOfPage(e.region.value, x);
      OwnedNew(more, e.region.value, x);
    }
  }

  /** The bytes of a run's tables and blocks, before and after a kmalloc. */
  ghost predicate GetBytes(t: seq<Slot>, u: seq<Slot>, held: seq<Block>, next: seq<Block>, owned: set<Region>,
                           more: set<Region>, block: Slot, grant: Slot)
  {
    && (forall x: nat | FreeByte(u, x) || block.Has(x) :: FreeByte(t, x) || grant.Has(x))
    && (forall x: nat | block.Has(x) :: !FreeByte(u, x))
    && (forall x: nat | OnPages(owned, x) :: OnPages(more, x))
    && (forall x: nat | grant.Has(x) :: !OnPages(owned, x) && OnPages(more, x))
    && (forall x: nat :: InHeld(next, x) <==> InHeld(held, x) || block.Has(x))
  }

  lemma GetIs(held: seq<Block>, owned: set<Region>, e: Event)
    requires Happens(held, owned, e) && e.request.Get?
    ensures GetBytes(e.table, e.after, held, HeldNext(held, e), owned,
                     owned + if e.region.Some? then {e.region.value} else {}, BlockAt(e), GrantAt(e))
  {
    hide FreeByte, Full, OnPages, GrantAt, LosesAt, InHeld;
    var next := HeldNext(held, e);
    forall x: nat ensures InHeld(next, x) <==> InHeld(held, x) || BlockAt(e).Has(x) {
      if e.result.Some? { HoldMore(held, Block(e.result.value, e.request.size), x); }
    }
    forall x: nat
      ensures var more := owned + if e.region.Some? then {e.region.value} else {};
              && (OnPages(owned, x) ==> OnPages(more, x))
              && (GrantAt(e).Has(x) ==> !OnPages(owned, x) && OnPages(more, x))
    {
      PagesMore(owned, e, x);
    }
  }

  lemma GetParted(t: seq<Slot>, u: seq<Slot>, held: seq<Block>, next: seq<Block>, owned: set<Region>,
                  more: set<Region>, block: Slot, grant: Slot, dropped: seq<Slot>)
    requires GetBytes(t, u, held, next, owned, more, block, grant) && Parted(t, held, dropped, owned)
    requires next == held || (next != [] && next[..|next| - 1] == held && BlockBytes(next[|next| - 1]) == block)
    ensures Parted(u, next, dropped, more)
  {
    hide FreeByte, OnPages, InHeld, InAny, BlockBytes;
    forall i, j | 0 <= i < j < |next| ensures !Overlapping(BlockBytes(next[i]), BlockBytes(next[j])) {
      assert next[i] == held[i];
      if j < |held| {
        assert next[j] == held[j];
      } else {
        forall x: nat | BlockBytes(held[i]).Has(x) ensures InHeld(held, x) { HoldsAt(held, i, x); }
      }
    }
  }

  lemma HoldsAt(held: seq<Block>, i: nat, x: nat)
    requires i < |held| && BlockBytes(held[i]).Has(x)
    ensures InHeld(held, x)
  {
  }

  /** All bytes counted at first or grown by lie on owned pages. */
  ghost predicate Counted(t0: seq<Slot>, grown: seq<Slot>, owned: set<Region>) {
    forall x: nat | FreeByte(t0, x) || InAny(grown, x) :: OnPages(owned, x)
  }

  lemma GetBooks(t0: seq<Slot>, t: seq<Slot>, u: seq<Slot>, held: seq<Block>, next: seq<Block>, owned: set<Region>,
                 more: set<Region>, block: Slot, grant: Slot, grown: seq<Slot>, all: seq<Slot>, dropped: seq<Slot>,
                 lost: bool, loses: bool)
    requires GetBytes(t, u, held, next, owned, more, block, grant) && Parted(t, held, dropped, owned)
    requires Books(t0, t, held, grown, dropped, lost) && Counted(t0, grown, owned)
    requires Accounted(t, u, block, grant, loses)
    requires forall x: nat :: InAny(all, x) <==> InAny(grown, x) || grant.Has(x)
    ensures Books(t0, u, next, all, dropped, lost || loses) && Counted(t0, all, more)
  {
    hide FreeByte, OnPages, InHeld, InAny;
    if loses {
      var x: nat :| (FreeByte(t, x) || grant.Has(x)) && !(FreeByte(u, x) || block.Has(x));
      assert !Known(u, next, dropped, x) && (FreeByte(t0, x) || InAny(all, x)) by {
        assert FreeByte(t, x) ==> Known(t, held, dropped, x);
        assert InHeld(held, x) || InAny(dropped, x) ==> Known(t, held, dropped, x);
      }
    } else if lost {
      var x: nat :| (FreeByte(t0, x) || InAny(grown, x)) && !Known(t, held, dropped, x);
      assert OnPages(owned, x);
      assert !Known(u, next, dropped, x);
    } else {
      forall x: nat | FreeByte(t0, x) || InAny(all, x) ensures Known(u, next, dropped, x) {
        assert FreeByte(t0, x) || InAny(grown, x) ==> Known(t, held, dropped, x);
      }
    }
    forall x: nat | Known(u, next, dropped, x) ensures FreeByte(t0, x) || InAny(all, x) {
      assert Known(t, held, dropped, x) || grant.Has(x);
    }
  }

  /** The bytes before and after a kfree: the block goes to the table or is dropped. */
  ghost predicate PutBytes(t: seq<Slot>, u: seq<Slot>, held: seq<Block>, next: seq<Block>, dropped: seq<Slot>,
                           more: seq<Slot>, block: Slot)
  {
    && (forall x: nat :: InHeld(held, x) <==> InHeld(next, x) || block.Has(x))
    && (forall x: nat | block.Has(x) :: !InHeld(next, x))
    && (|| (Gained(t, u, block) && forall x: nat :: InAny(more, x) <==> InAny(dropped, x))
        || (SameFree(t, u) && forall x: nat :: InAny(more, x) <==> InAny(dropped, x) || block.Has(x)))
  }

  lemma PutIs(held: seq<Block>, owned: set<Region>, e: Event, dropped: seq<Slot>)
    requires Happens(held, owned, e) && e.request.Put? && Parted(e.table, held, dropped, owned)
    ensures PutBytes(e.table, e.after, held, HeldNext(held, e), dropped,
                     dropped + if !HasEmpty(e.table) then [Returned(held, e)] else [], Returned(held, e))
  {
    hide FreeByte, OnPages, InHeld, InAny, BlockBytes, HasEmpty;
    var k, block, next := e.request.k, Returned(held, e), HeldNext(held, e);
    forall x: nat ensures InAny(dropped + [block], x) <==> InAny(dropped, x) || block.Has(x) {
      InMore(dropped, block, x);
    }
    assert dropped + [] == dropped;
    if k < |held| {
      forall x: nat ensures InHeld(held, x) <==> InHeld(next, x) || block.Has(x) { HoldLess(held, k, x); }
      forall x: nat | block.Has(x) ensures !InHeld(next, x) { OnlyOne(held, k, x); }
    }
  }

  lemma OnlyOne(held: seq<Block>, k: nat, x: nat)
    requires forall i, j | 0 <= i < j < |held| :: !Overlapping(BlockBytes(held[i]), BlockBytes(held[j]))
    requires k < |held| && BlockBytes(held[k]).Has(x)
    ensures !InHeld(held[..k] + held[k + 1..], x)
  {
    hide BlockBytes;
    var less := held[..k] + held[k + 1..];
    forall i | 0 <= i < |less| ensures !BlockBytes(less[i]).Has(x) {
      var j := if i < k then i else i + 1;
      assert less[i] == held[j];
      assert !Overlapping(BlockBytes(held[if j < k then j else k]), BlockBytes(held[if j < k then k else j]));
    }
  }

  lemma PutParted(t: seq<Slot>, u: seq<Slot>, held: seq<Block>, k: nat, dropped: seq<Slot>, more: seq<Slot>,
                  block: Slot, owned: set<Region>)
    requires Parted(t, held, dropped, owned)
    requires var next := if k < |held| then held[..k] + held[k + 1..] else held;
             PutBytes(t, u, held, next, dropped, more, block)
    ensures Parted(u, if k < |held| then held[..k] + held[k + 1..] else held, more, owned)
  {
    hide FreeByte, OnPages, InHeld, InAny, BlockBytes, Overlapping;
    var next := if k < |held| then held[..k] + held[k + 1..] else held;
    forall x: nat | Known(u, next, more, x) ensures OnPages(owned, x) { assert Known(t, held, dropped, x); }
    forall i, j | 0 <= i < j < |next| ensures !Overlapping(BlockBytes(next[i]), BlockBytes(next[j])) {
      assert k < |held| ==> next[i] == held[if i < k then i else i + 1] && next[j] == held[if j < k then j else j + 1];
    }
  }

  lemma PutBooks(t0: seq<Slot>, t: seq<Slot>, u: seq<Slot>, held: seq<Block>, next: seq<Block>, dropped: seq<Slot>,
                 more: seq<Slot>, block: Slot, grown: seq<Slot>, lost: bool)
    requires PutBytes(t, u, held, next, dropped, more, block) && Books(t0, t, held, grown, dropped, lost)
    ensures Books(t0, u, next, grown, more, lost)
  {
    hide FreeByte, InHeld, InAny;
    assert forall x: nat :: Known(u, next, more, x) <==> Known(t, held, dropped, x);
  }

  // ----- Whole runs -----

  /** Some growing of the run lost bytes. */
  ghost predicate Lost(run: seq<Event>) { exists n :: 0 <= n < |run| && LosesAt(run[n]) }

  /**
   After every run: the bytes free, held and dropped are pairwise apart; they come from the bytes free at first and the
   pages grown by; and they are all of these if and only if no growing of the run lost bytes.
   */
  lemma {:induction false} RunBalances(t: seq<Slot>, c: nat, owned: set<Region>, run: seq<Event>)
    requires Runs(t, c, owned, run) && forall x: nat | FreeByte(t, x) :: OnPages(owned, x)
    ensures Parted(TableAfter(t, run), HeldAfter(run), DroppedBy(run), OwnedAfter(owned, run))
    ensures Books(t, TableAfter(t, run), HeldAfter(run), GrownBy(run), DroppedBy(run), Lost(run))
    ensures Counted(t, GrownBy(run), OwnedAfter(owned, run))
  {
    hide FreeByte, OnPages, InAny, InHeld, Parted, Books, Counted, Happens, LosesAt, GrantAt;
    if run == [] {
      NothingYet(t, owned);
    } else {
      var before, e := run[..|run| - 1], run[|run| - 1];
      RunBalances(t, c, owned, before);
      LostMore(run);
      assert DroppedBy(before) + [] == DroppedBy(before) && GrownBy(before) + [] == GrownBy(before);
      assert OwnedAfter(owned, before) + {} == OwnedAfter(owned, before);
      if e.request.Get? {
        StepGet(t, HeldAfter(before), OwnedAfter(owned, before), e, GrownBy(before), DroppedBy(before), Lost(before));
      } else {
        StepPut(t, HeldAfter(before), OwnedAfter(owned, before), e, GrownBy(before), DroppedBy(before), Lost(before));
      }
    }
  }

  lemma NothingYet(t: seq<Slot>, owned: set<Region>)
    requires forall x: nat | FreeByte(t, x) :: OnPages(owned, x)
    ensures Parted(t, [], [], owned) && Books(t, t, [], [], [], false) && Counted(t, [], owned)
  {
    hide FreeByte, OnPages;
  }

  lemma LostMore(run: seq<Event>)
    requires run != []
    ensures Lost(run) <==> Lost(run[..|run| - 1]) || LosesAt(run[|run| - 1])
  {
    hide LosesAt;
    var before := run[..|run| - 1];
    if n :| 0 <= n < |before| && LosesAt(before[n]) { assert LosesAt(run[n]); }
    if n :| 0 <= n < |run| && LosesAt(run[n]) { assert n < |before| ==> LosesAt(before[n]); }
  }

  lemma StepGet(t: seq<Slot>, held: seq<Block>, owned: set<Region>, e: Event, grown: seq<Slot>, dropped: seq<Slot>,
                lost: bool)
    requires Happens(held, owned, e) && e.request.Get? && Parted(e.table, held, dropped, owned)
    requires Books(t, e.table, held, grown, dropped, lost) && Counted(t, grown, owned)
    ensures var more := owned + if e.region.Some? then {e.region.value} else {};
            var all := grown + if GrantAt(e) != EMPTY then [GrantAt(e)] else [];
            && Parted(e.after, HeldNext(held, e), dropped, more) && Counted(t, all, more)
            && Books(t, e.after, HeldNext(held, e), all, dropped, lost || LosesAt(e))
  {
    var more := owned + if e.region.Some? then {e.region.value} else {};
    var all := grown + if GrantAt(e) != EMPTY then [GrantAt(e)] else [];
    GetIs(held, owned, e);
    hide FreeByte, OnPages, InAny, InHeld, Parted, Books, Counted, GetBytes, LosesAt, GrantAt, Accounted, Full;
    GetParted(e.table, e.after, held, HeldNext(held, e), owned, more, BlockAt(e), GrantAt(e), dropped);
    forall x: nat ensures InAny(all, x) <==> InAny(grown, x) || GrantAt(e).Has(x) {
      InMore(grown, GrantAt(e), x);
      assert grown + [] == grown;
    }
    GetBooks(t, e.table, e.after, held, HeldNext(held, e), owned, more, BlockAt(e), GrantAt(e), grown, all, dropped,
             lost, LosesAt(e));
  }

  lemma StepPut(t: seq<Slot>, held: seq<Block>, owned: set<Region>, e: Event, grown: seq<Slot>, dropped: seq<Slot>,
                lost: bool)
    requires Happens(held, owned, e) && e.request.Put? && Parted(e.table, held, dropped, owned)
    requires Books(t, e.table, held, grown, dropped, lost)
    ensures var more := dropped + if !HasEmpty(e.table) then [Returned(held, e)] else [];
            && Parted(e.after, HeldNext(held, e), more, owned)
            && Books(t, e.after, HeldNext(held, e), grown, more, lost) && GrantAt(e) == EMPTY && !LosesAt(e)
            && e.region.None?
  {
    hide FreeByte, OnPages, InAny, InHeld, Parted, Books, PutBytes, HasEmpty, Gained, Accounted;
    PutIs(held, owned, e, dropped);
    var more := dropped + if !HasEmpty(e.table) then [Returned(held, e)] else [];
    PutParted(e.table, e.after, held, e.request.k, dropped, more, Returned(held, e), owned);
    PutBooks(t, e.table, e.after, held, HeldNext(held, e), dropped, more, Returned(held, e), grown, lost);
  }

  // ----- The code runs them -----

  /** The blocks in use are the ones held. */
  ghost predicate Held(held: seq<Block>, live: set<nat>, words: map<nat, nat>) {
    && (forall k | 0 <= k < |held| :: IsHeld(held[k], live, words))
    && (forall i, j | 0 <= i < j < |held| :: held[i].address != held[j].address)
    && (forall b | b in live :: Among(held, b))
  }

  ghost predicate Among(held: seq<Block>, b: nat) {
    exists k :: 0 <= k < |held| && held[k].address == b + 8
  }

  ghost predicate IsHeld(block: Block, live: set<nat>, words: map<nat, nat>) {
    && block.address >= 8 && block.address - 8 in live && block.address - 8 in words
    && words[block.address - 8] == block.size
  }

  lemma AmongMore(held: seq<Block>, block: Block, b: nat)
    ensures Among(held + [block], b) <==> Among(held, b) || block.address == b + 8
  {
    var more := held + [block];
    if k :| 0 <= k < |held| && held[k].address == b + 8 { assert more[k].address == b + 8; }
    if block.address == b + 8 { assert more[|held|].address == b + 8; }
    if k :| 0 <= k < |more| && more[k].address == b + 8 { assert k < |held| ==> held[k].address == b + 8; }
  }

  lemma AmongLess(held: seq<Block>, k: nat, b: nat)
    requires k < |held| && Among(held, b) && held[k].address != b + 8
    ensures Among(held[..k] + held[k + 1..], b)
  {
    var less := held[..k] + held[k + 1..];
    var i :| 0 <= i < |held| && held[i].address == b + 8;
    assert less[if i < k then i else i - 1] == held[i];
  }

  lemma HeldMore(held: seq<Block>, live: set<nat>, words: map<nat, nat>, address: nat, size: nat)
    requires Held(held, live, words) && address >= 8 && address - 8 !in live
    ensures Held(held + [Block(address, size)], live + {address - 8}, words[address - 8 := size])
  {
    hide Among;
    var block, all := Block(address, size), live + {address - 8};
    forall b | b in all ensures Among(held + [block], b) { AmongMore(held, block, b); }
    forall k | 0 <= k < |held| ensures IsHeld(held[k], all, words[address - 8 := size]) {
      assert IsHeld(held[k], live, words);
    }
  }

  lemma HeldLess(held: seq<Block>, live: set<nat>, words: map<nat, nat>, k: nat)
    requires Held(held, live, words) && k < |held|
    ensures held[k].address >= 8 && held[k].address - 8 in live
    ensures Held(held[..k] + held[k + 1..], live - {held[k].address - 8}, words)
  {
    hide Among;
    assert IsHeld(held[k], live, words);
    var less, rest := held[..k] + held[k + 1..], live - {held[k].address - 8};
    forall b | b in rest ensures Among(less, b) { AmongLess(held, k, b); }
    forall i | 0 <= i < |less| ensures IsHeld(less[i], rest, words) {
      assert IsHeld(held[if i < k then i else i + 1], live, words);
    }
  }

  lemma HeldApart(t: seq<Slot>, live: set<nat>, words: map<nat, nat>, held: seq<Block>, b: Block)
    requires LiveOk(t, live, words) && Held(held, live, words) && b in held
    ensures forall x: nat | BlockBytes(b).Has(x) :: !FreeByte(t, x)
  {
    hide FreeByte, Full, Among;
    var k :| 0 <= k < |held| && held[k] == b;
    assert IsHeld(held[k], live, words);
    assert BlockBytes(b) == BlockOf(words, b.address - 8);
  }

  /** What a successful kmalloc leaves of its block: nothing free. */
  lemma BlockTaken(h: PagedHeap, held: seq<Block>, b: Block)
    requires h.Valid() && Held(held, h.heap.live, h.heap.words) && b in held
    ensures forall x: nat | BlockBytes(b).Has(x) :: !FreeByte(h.heap.slots[..], x)
  {
    hide LiveOk, Held, Housed, BlockBytes, FreeByte;
    HeldApart(h.heap.slots[..], h.heap.live, h.heap.words, held, b);
  }

  /** A run goes on with a request. */
  lemma RunsMore(t: seq<Slot>, c: nat, owned: set<Region>, run: seq<Event>, e: Event)
    requires Runs(t, c, owned, run) && e.table == TableAfter(t, run) && e.count == CountAfter(c, run)
    requires Happens(HeldAfter(run), OwnedAfter(owned, run), e)
    ensures Runs(t, c, owned, run + [e]) && HeldAfter(run + [e]) == HeldNext(HeldAfter(run), e)
    ensures OwnedAfter(owned, run + [e]) == OwnedAfter(owned, run) + if e.region.Some? then {e.region.value} else {}
    ensures TableAfter(t, run + [e]) == e.after && CountAfter(c, run + [e]) == e.left
    ensures Lost(run + [e]) <==> Lost(run) || LosesAt(e)
  {
    hide Happens, LosesAt, HeldNext;
    assert (run + [e])[..|run|] == run;
    LostMore(run + [e]);
  }

  /** The contract of kmalloc as an event. */
  lemma GetHappens(held: seq<Block>, owned: set<Region>, e: Event, granted: Option<nat>, grew: bool)
    requires e.request.Get? && e.count <= |e.table| && (Allocatable(e.request.size) ==> Tame(e.request.size))
    requires e.region == if granted.Some? then Some(Region(granted.value, Pages(e.request.size))) else None
    requires granted.Some? ==> Allocatable(e.request.size) && e.request.frames && New(owned, e.region.value)
    requires granted.Some? ==> forall s: nat :: !HeapTable.FreeRun(e.table, s, Need(e.request.size))
    requires e.result.Some? ==> e.result.value >= 8
    requires e.result.None? && Allocatable(e.request.size) ==>
               forall s: nat :: !HeapTable.FreeRun(e.after, s, Need(e.request.size))
    requires grew <==> granted.Some? && Accepts(e.table, e.count, Grant(granted.value * 0x1000, e.request.size))
    requires Accounted(e.table, e.after, BlockFor(e.result, e.request.size),
                       if grew then Grant(granted.value * 0x1000, e.request.size) else EMPTY,
                       grew && Loses(e.table, e.count, Grant(granted.value * 0x1000, e.request.size)))
    requires forall x: nat | BlockFor(e.result, e.request.size).Has(x) :: !FreeByte(e.after, x)
    ensures Happens(held, owned, e)
    ensures LosesAt(e) <==> grew && Loses(e.table, e.count, Grant(granted.value * 0x1000, e.request.size))
  {
    hide FreeByte, Full, Need, Tame, Accounted, Accepts, Loses, New, HeapTable.FreeRun, BlockFor, Pages;
    if granted.Some? { SomePages(e.request.size); }
  }

  lemma PutHappens(held: seq<Block>, owned: set<Region>, e: Event, placed: bool)
    requires e.request.Put? && e.result.None? && e.region.None?
    requires placed <==> e.request.k < |held| && HasEmpty(e.table)
    requires if placed then Gained(e.table, e.after, Returned(held, e)) else e.after == e.table && e.left == e.count
    ensures Happens(held, owned, e) && !LosesAt(e)
  {
  }

  lemma StartsHoused(h: PagedHeap)
    requires h.Valid()
    ensures forall x: nat | FreeByte(h.heap.slots[..], x) :: OnPages(h.owned, x)
  {
    hide FreeByte, OnPages, LiveOk;
  }

  lemma NothingHeld(words: map<nat, nat>)
    ensures Held([], {}, words)
  {
  }

  /** The block returned is the one held, and the words say its size. */
  lemma ReturnedIs(held: seq<Block>, live: set<nat>, words: map<nat, nat>, e: Event)
    requires Held(held, live, words) && e.request.Put? && e.request.k < |held|
    ensures var a := held[e.request.k].address; a >= 8 && a - 8 in words && Returned(held, e) == BlockOf(words, a - 8)
  {
    hide Among, Full;
    assert IsHeld(held[e.request.k], live, words);
  }

  /** One request, as an event. */
  method Answer(h: PagedHeap, request: Request, held: seq<Block>)
    returns (result: Option<nat>, next: seq<Block>, ghost e: Event)
    requires h.Valid() && Held(held, h.heap.live, h.heap.words)
    requires request.Get? && Allocatable(request.size) ==> Tame(request.size)
    modifies h, h.heap, h.heap.slots, h.pages, h.pages.pool
    ensures h.Valid() && e.request == request && e.result == result
    ensures e.table == old(h.heap.slots[..]) && e.count == old(h.heap.count)
    ensures e.after == h.heap.slots[..] && e.left == h.heap.count
    ensures h.owned == old(h.owned) + if e.region.Some? then {e.region.value} else {}
    ensures Happens(held, old(h.owned), e) && next == HeldNext(held, e) && Held(next, h.heap.live, h.heap.words)
    ensures Coalesced(e.table) ==> !LosesAt(e) && Coalesced(e.after)
  {
    hide *;
    if request.Get? {
      result, next, e := AnswerGet(h, request, held);
    } else {
      next, e := AnswerPut(h, request, held);
      result := None;
    }
  }

  method AnswerGet(h: PagedHeap, request: Request, held: seq<Block>)
    returns (result: Option<nat>, next: seq<Block>, ghost e: Event)
    requires h.Valid() && Held(held, h.heap.live, h.heap.words)
    requires request.Get? && (Allocatable(request.size) ==> Tame(request.size))
    modifies h, h.heap, h.heap.slots, h.pages, h.pages.pool
    ensures h.Valid() && e.request == request && e.result == result
    ensures e.table == old(h.heap.slots[..]) && e.count == old(h.heap.count)
    ensures e.after == h.heap.slots[..] && e.left == h.heap.count
    ensures h.owned == old(h.owned) + if e.region.Some? then {e.region.value} else {}
    ensures Happens(held, old(h.owned), e) && next == HeldNext(held, e) && Held(next, h.heap.live, h.heap.words)
    ensures Coalesced(e.table) ==> !LosesAt(e) && Coalesced(e.after)
  {
    hide *;
    ghost var t, c, live, words := h.heap.slots[..], h.heap.count, h.heap.live, h.heap.words;
    ghost var granted: Option<nat>, grew: bool;
    result, granted, grew := h.Kmalloc(request.size, request.frames);
    ghost var region := if granted.Some? then Some(Region(granted.value, Pages(request.size))) else None;
    e := Event(request, result, t, c, h.heap.slots[..], h.heap.count, region);
    next := held;
    if result.Some? {
      var b := Block(result.value, request.size);
      HeldMore(held, live, words, result.value, request.size);
      next := held + [b];
      assert next[|held|] == b;
      BlockTaken(h, next, b);
    }
    BlockIs(held, e, next);
    GetHappens(held, old(h.owned), e, granted, grew);
  }

  lemma BlockIs(held: seq<Block>, e: Event, next: seq<Block>)
    requires e.request.Get? && (e.result.Some? ==> e.result.value >= 8)
    requires next == if e.result.Some? then held + [Block(e.result.value, e.request.size)] else held
    ensures next == HeldNext(held, e)
    ensures e.result.Some? ==> BlockFor(e.result, e.request.size) == BlockBytes(Block(e.result.value, e.request.size))
    ensures e.result.None? ==> forall x: nat :: !BlockFor(e.result, e.request.size).Has(x)
  {
  }

  method AnswerPut(h: PagedHeap, request: Request, held: seq<Block>) returns (next: seq<Block>, ghost e: Event)
    requires h.Valid() && Held(held, h.heap.live, h.heap.words) && request.Put?
    modifies h.heap, h.heap.slots
    ensures h.Valid() && e.request == request && e.result == None
    ensures e.table == old(h.heap.slots[..]) && e.count == old(h.heap.count)
    ensures e.after == h.heap.slots[..] && e.left == h.heap.count
    ensures h.owned == old(h.owned) && e.region.None?
    ensures Happens(held, h.owned, e) && next == HeldNext(held, e) && Held(next, h.heap.live, h.heap.words)
    ensures Coalesced(e.table) ==> !LosesAt(e) && Coalesced(e.after)
  {
    hide Held, FreeByte, Coalesced, Happens, LosesAt, PagedHeap.Valid, Gained, HasEmpty, BlockBytes, Full;
    ghost var t, c, words := h.heap.slots[..], h.heap.count, h.heap.words;
    next := held;
    ghost var placed := false;
    if request.k < |held| {
      HeldLess(held, h.heap.live, words, request.k);
      ghost var block: Slot;
      ghost var e0 := Event(request, None, t, c, t, c, None);
      ReturnedIs(held, h.heap.live, words, e0);
      placed, block := h.Kfree(held[request.k].address);
      next := held[..request.k] + held[request.k + 1..];
    }
    e := Event(request, None, t, c, h.heap.slots[..], h.heap.count, None);
    PutHappens(held, h.owned, e, placed);
  }

  /**
   Any run from a heap with no block in use: the code answers the requests as a run of events, from the table it finds
   to the table it leaves, with the regions it comes to own; and so the bytes of the run balance.
   */
  method Serve(h: PagedHeap, requests: seq<Request>)
    returns (results: seq<Option<nat>>, held: seq<Block>, ghost run: seq<Event>)
    requires h.Valid() && h.heap.live == {}
    requires forall q | q in requests && q.Get? && Allocatable(q.size) :: Tame(q.size)
    modifies h, h.heap, h.heap.slots, h.pages, h.pages.pool
    ensures h.Valid() && |results| == |run| == |requests|
    ensures forall n | 0 <= n < |run| :: run[n].request == requests[n] && run[n].result == results[n]
    ensures Runs(old(h.heap.slots[..]), old(h.heap.count), old(h.owned), run)
    ensures h.heap.slots[..] == TableAfter(old(h.heap.slots[..]), run)
    ensures h.heap.count == CountAfter(old(h.heap.count), run) && h.owned == OwnedAfter(old(h.owned), run)
    ensures held == HeldAfter(run) && Held(held, h.heap.live, h.heap.words)
    ensures Parted(h.heap.slots[..], held, DroppedBy(run), h.owned)
    ensures Books(old(h.heap.slots[..]), h.heap.slots[..], held, GrownBy(run), DroppedBy(run), Lost(run))
    ensures Coalesced(old(h.heap.slots[..])) ==> !Lost(run) && Coalesced(h.heap.slots[..])
  {
    hide *;
    ghost var t0, c0, o0 := h.heap.slots[..], h.heap.count, h.owned;
    results, held, run := [], [], [];
    StartsHoused(h);
    NothingHeld(h.heap.words);
    NoEvents(t0, c0, o0);
    for n := 0 to |requests|
      invariant h.Valid() && |results| == |run| == n
      invariant forall i | 0 <= i < n :: run[i].request == requests[i] && run[i].result == results[i]
      invariant Runs(t0, c0, o0, run) && h.heap.slots[..] == TableAfter(t0, run) && h.heap.count == CountAfter(c0, run)
      invariant h.owned == OwnedAfter(o0, run) && held == HeldAfter(run) && Held(held, h.heap.live, h.heap.words)
      invariant Coalesced(t0) ==> !Lost(run) && Coalesced(h.heap.slots[..])
    {
      assert requests[n] in requests;
      var result;
      ghost var e;
      result, held, e := Answer(h, requests[n], held);
      RunsMore(t0, c0, o0, run, e);
      results, run := results + [result], run + [e];
    }
    RunBalances(t0, c0, o0, run);
  }

  lemma NoEvents(t: seq<Slot>, c: nat, owned: set<Region>)
    ensures Runs(t, c, owned, []) && TableAfter(t, []) == t && CountAfter(c, []) == c && OwnedAfter(owned, []) == owned
    ensures HeldAfter([]) == [] && !Lost([])
  {
  }
}
