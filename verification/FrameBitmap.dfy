/**
 The physical frame allocator: a byte bitmap with one bit per frame (a set bit
 is a used frame), a next-fit cursor and a counter of free frames.
 */
module FrameBitmap {
  import opened Common

  /** 1 << k */
  function Mask(k: nat): bv8
    requires k < 8
  {
    if k == 0 then 0x01 else if k == 1 then 0x02 else if k == 2 then 0x04 else if k == 3 then 0x08
    else if k == 4 then 0x10 else if k == 5 then 0x20 else if k == 6 then 0x40 else 0x80
  }

  predicate TestByte(b: bv8, k: nat)
    requires k < 8
  {
    b & Mask(k) != 0
  }

  /** Two masks share a bit exactly if they are the same. */
  lemma Masks(k: nat, j: nat)
    requires k < 8 && j < 8
    ensures Mask(j) != 0 && Mask(k) & Mask(j) == if k == j then Mask(j) else 0
  {
  }

  lemma SetByMask(b: bv8, m: bv8, n: bv8)
    requires m & n == n || m & n == 0
    ensures (b | m) & n == if m & n == 0 then b & n else n
  {
  }

  lemma ClearByMask(b: bv8, m: bv8, n: bv8)
    requires m & n == n || m & n == 0
    ensures (b & !m) & n == if m & n == 0 then b & n else 0
  {
  }

  lemma SetOneBit(b: bv8, k: nat, j: nat)
    requires k < 8 && j < 8
    ensures TestByte(b | Mask(k), j) == (j == k || TestByte(b, j))
  {
    hide Mask;
    Masks(k, j);
    SetByMask(b, Mask(k), Mask(j));
  }

  lemma ClearOneBit(b: bv8, k: nat, j: nat)
    requires k < 8 && j < 8
    ensures TestByte(b & !Mask(k), j) == (j != k && TestByte(b, j))
  {
    hide Mask;
    Masks(k, j);
    ClearByMask(b, Mask(k), Mask(j));
  }

  /** count consecutive unused frames starting at s. */
  ghost predicate FreeRun(used: set<nat>, bits: nat, s: nat, count: nat) {
    s + count <= bits && forall i: nat :: s <= i < s + count ==> i !in used
  }

  /** after is before plus the frames s .. s + count. */
  ghost predicate Taken(before: set<nat>, after: set<nat>, s: nat, count: nat) {
    forall i: nat :: i in after <==> i in before || s <= i < s + count
  }

  class Pmm {
    const bitmap: array<bv8>
    const bits: nat
    var next: nat
    var freePages: int

    /** Frame i is marked used. */
    predicate Test(i: nat)
      requires i < bits <= bitmap.Length * 8
      reads bitmap
    {
      TestByte(bitmap[i / 8], i % 8)
    }

    /** The frames marked used. */
    ghost function Used(): (u: set<nat>)
      requires bits <= bitmap.Length * 8
      reads bitmap
      ensures forall i: nat :: i in u <==> i < bits && Test(i)
    {
      set i: nat | i < bits && Test(i)
    }

    ghost predicate Sized()
      reads this
    {
      bits <= bitmap.Length * 8 && next <= bits
    }

    /** How far the counter is above the number of clear bits. */
    ghost function Drift(): int
      requires Sized()
      reads this, bitmap
    {
      freePages - (bits - |Used()|)
    }

    /** The counter is exactly the number of clear bits. */
    ghost predicate Valid()
      reads this, bitmap
    {
      Sized() && Drift() == 0
    }

    lemma UsedBound()
      requires Sized()
      ensures |Used()| <= bits
      ensures |Used()| == bits <==> forall i: nat :: i < bits ==> Test(i)
    {
      RangeSize(0, bits);
      SubsetSize(Used(), Range(0, bits));
      if |Used()| != bits {
        assert Used() != Range(0, bits);
        var i: nat :| i in Range(0, bits) && i !in Used();
      } else {
        forall i: nat | i < bits ensures Test(i) { assert i in Range(0, bits); }
      }
    }

    method Mark(i: nat)
      requires Sized() && i < bits
      modifies bitmap
      ensures Used() == old(Used()) + {i}
    {
      ghost var b := bitmap[i / 8];
      bitmap[i / 8] := bitmap[i / 8] | Mask(i % 8);
      forall j: nat | j < bits ensures Test(j) == (j == i || old(Test(j))) {
        if j / 8 == i / 8 { SetOneBit(b, i % 8, j % 8); }
      }
    }

    method Unmark(i: nat)
      requires Sized() && i < bits
      modifies bitmap
      ensures Used() == old(Used()) - {i}
    {
      ghost var b := bitmap[i / 8];
      bitmap[i / 8] := bitmap[i / 8] & !Mask(i % 8);
      forall j: nat | j < bits ensures Test(j) == (j != i && old(Test(j))) {
        if j / 8 == i / 8 { ClearOneBit(b, i % 8, j % 8); }
      }
    }

    /** Next-fit search: everything between the cursor and the hit, going round, is used. */
    method FindClear() returns (r: Option<nat>)
      requires Sized()
      modifies this`next
      ensures Sized()
      ensures r.None? <==> forall i: nat :: i < bits ==> Test(i)
      ensures r.Some? ==> r.value < bits && !Test(r.value)
      ensures r.Some? ==> next == (if r.value + 1 >= bits then 0 else r.value + 1)
      ensures r.Some? && old(next) <= r.value ==> forall i: nat :: old(next) <= i < r.value ==> Test(i)
      ensures r.Some? && r.value < old(next) ==>
               forall i: nat :: i < bits && (i < r.value || old(next) <= i) ==> Test(i)
      ensures r.None? ==> next == old(next)
    {
      for pass := 0 to 2
        invariant next == old(next)
        invariant pass >= 1 ==> forall i: nat :: next <= i < bits ==> Test(i)
        invariant pass >= 2 ==> forall i: nat :: i < next ==> Test(i)
      {
        var start := if pass == 0 then next else 0;
        var end := if pass == 0 then bits else next;
        for i := start to end
          invariant next == old(next)
          invariant forall k: nat :: start <= k < i ==> Test(k)
        {
          if !Test(i) {
            next := i + 1;
            if next >= bits { next := 0; }
            assert i < bits && !Test(i);
            return Some(i);
          }
        }
      }
      r := None;
    }

    /** One pass of the range search: the leftmost run inside [lo, hi), if there is one. */
    method ScanRun(lo: nat, hi: nat, count: nat) returns (r: Option<nat>)
      requires Sized() && lo <= hi <= bits && count > 0
      ensures r.Some? ==> lo <= r.value && r.value + count <= hi && FreeRun(Used(), bits, r.value, count)
      ensures r.Some? ==> forall s: nat :: lo <= s < r.value ==> !FreeRun(Used(), bits, s, count)
      ensures r.None? ==> forall s: nat :: lo <= s && s + count <= hi ==> !FreeRun(Used(), bits, s, count)
    {
      var run, start := 0, 0;
      for i := lo to hi
        invariant run < count && run <= i - lo
        invariant run > 0 ==> start == i - run
        invariant forall k: nat :: i - run <= k < i ==> !Test(k)
        invariant i - run > lo ==> Test(i - run - 1)
        invariant forall s: nat :: lo <= s && s + count <= i ==> !FreeRun(Used(), bits, s, count)
      {
        ghost var left := i - run;
        if !Test(i) {
          if run == 0 { start := i; }
          run := run + 1;
          if run == count {
            return Some(start);
          }
          forall s: nat | lo <= s && s + count <= i + 1 ensures !FreeRun(Used(), bits, s, count) {
            if s + count == i + 1 { assert s <= left - 1 < s + count; }
          }
        } else {
          run := 0;
          forall s: nat | lo <= s && s + count <= i + 1 ensures !FreeRun(Used(), bits, s, count) {
            if s + count == i + 1 { assert s <= i < s + count; }
          }
        }
      }
      r := None;
    }

    /** Succeeds exactly when some run lies wholly at or above the cursor or wholly below it. */
    method FindClearRange(count: nat) returns (r: Option<nat>)
      requires Sized() && count > 0
      modifies this`next
      ensures Sized()
      ensures r.Some? ==> FreeRun(Used(), bits, r.value, count) && next == r.value + count
      ensures r.Some? ==> r.value >= old(next) || r.value + count <= old(next)
      ensures r.None? ==> next == old(next)
      ensures r.None? <==> forall s: nat :: FreeRun(Used(), bits, s, count) ==> s < old(next) < s + count
    {
      ghost var n := next;
      r := ScanRun(next, bits, count);
      if r.Some? { next := r.value + count; assert FreeRun(Used(), bits, r.value, count); return; }
      r := ScanRun(0, next, count);
      if r.Some? { next := r.value + count; assert FreeRun(Used(), bits, r.value, count); return; }
    }

    /** None is the out-of-memory panic; it happens only when every frame is used. */
    method Alloc() returns (r: Option<nat>)
      requires Valid()
      modifies this, bitmap
      ensures Valid()
      ensures r.None? <==> old(|Used()|) == bits
      ensures r.None? ==> Used() == old(Used()) && freePages == old(freePages)
      ensures r.Some? ==> r.value < bits && r.value !in old(Used())
                          && Used() == old(Used()) + {r.value} && freePages == old(freePages) - 1
    {
      UsedBound();
      r := FindClear();
      if r.Some? {
        Mark(r.value);
        freePages := freePages - 1;
      }
    }

    method Free(frame: nat)
      requires Valid() && frame < bits
      modifies this, bitmap
      ensures Valid()
      ensures Used() == old(Used()) - {frame}
      ensures freePages == old(freePages) + (if frame in old(Used()) then 1 else 0)
      ensures next == old(next)
    {
      if Test(frame) {
        Unmark(frame);
        freePages := freePages + 1;
      } else {
        assert Used() == Used() - {frame};
      }
    }

    method MarkRange(bit: nat, count: nat)
      requires Sized() && bit + count <= bits
      modifies bitmap
      ensures Taken(old(Used()), Used(), bit, count)
    {
      for i := 0 to count
        invariant Taken(old(Used()), Used(), bit, i)
      {
        Mark(bit + i);
      }
    }

    method UnmarkRange(bit: nat, count: nat)
      requires Sized() && bit + count <= bits
      modifies bitmap
      ensures Used() == old(Used()) - Range(bit, bit + count)
    {
      for i := 0 to count
        invariant Used() == old(Used()) - Range(bit, bit + i)
      {
        Unmark(bit + i);
        assert Range(bit, bit + i + 1) == Range(bit, bit + i) + {bit + i};
      }
    }

    /** Some(0) for an empty request; None is the out-of-memory panic. */
    method AllocPages(count: nat) returns (r: Option<nat>)
      requires Valid()
      modifies this, bitmap
      ensures Valid()
      ensures count == 0 ==> r == Some(0)
      ensures r.None? || count == 0 ==> Used() == old(Used()) && freePages == old(freePages)
      ensures r.Some? && count > 0 ==>
                FreeRun(old(Used()), bits, r.value, count) && Taken(old(Used()), Used(), r.value, count)
                && freePages == old(freePages) - count
      ensures count == 1 ==> (r.None? <==> old(|Used()|) == bits)
      ensures count > 1 ==>
               (r.None? <==> forall s: nat :: FreeRun(old(Used()), bits, s, count) ==> s < old(next) < s + count)
    {
      if count == 0 { return Some(0); }
      if count == 1 {
        r := Alloc();
        return;
      }
      r := AllocRange(count);
    }

    method AllocRange(count: nat) returns (r: Option<nat>)
      requires Valid() && count > 1
      modifies this, bitmap
      ensures Valid()
      ensures r.None? ==> Used() == old(Used()) && freePages == old(freePages)
      ensures r.Some? ==>
                FreeRun(old(Used()), bits, r.value, count) && Taken(old(Used()), Used(), r.value, count)
                && freePages == old(freePages) - count
      ensures r.None? <==> forall s: nat :: FreeRun(old(Used()), bits, s, count) ==> s < old(next) < s + count
    {
      ghost var u, n := Used(), next;
      r := FindClearRange(count);
      if r.None? { return; }
      assert !(forall s: nat :: FreeRun(u, bits, s, count) ==> s < n < s + count) by {
        assert FreeRun(u, bits, r.value, count);
      }
      MarkRange(r.value, count);
      TakenSize(u, Used(), r.value, count);
      freePages := freePages - count;
    }

    /**
     Clears the bits unconditionally and adds count to the counter. The counter stays
     exact if and only if every one of the frames was in use: Drift grows by the number
     of frames that were already free.
     */
    method FreePages(frame: nat, count: nat)
      requires Sized() && frame + count <= bits
      modifies this, bitmap
      ensures Sized() && next == old(next)
      ensures Used() == old(Used()) - Range(frame, frame + count)
      ensures Drift() == old(Drift()) + |Range(frame, frame + count) - old(Used())|
      ensures old(Valid()) ==> (Valid() <==> Range(frame, frame + count) <= old(Used()))
    {
      RemovalSizes(Used(), Range(frame, frame + count));
      RangeSize(frame, frame + count);
      UnmarkRange(frame, count);
      freePages := freePages + count;
    }
  }

  lemma TakenSize(before: set<nat>, after: set<nat>, s: nat, count: nat)
    requires Taken(before, after, s, count)
    requires forall i: nat | s <= i < s + count :: i !in before
    ensures |after| == |before| + count
  {
    hide Range;
    RangeSize(s, s + count);
    assert after == before + Range(s, s + count) && before !! Range(s, s + count);
  }

  lemma RemovalSizes(u: set<nat>, g: set<nat>)
    ensures |u - g| + |g| == |u| + |g - u|
    ensures |g - u| == 0 <==> g <= u
  {
    assert u == (u - g) + (u * g);
    assert g == (g - u) + (u * g);
    assert g <= u <==> g - u == {};
  }
}
