/** Small shared vocabulary: optional results, finite ranges of naturals and a pigeonhole fact. */
module Common {
  function Min(a: nat, b: nat): nat { if a < b then a else b }

  function Max(a: nat, b: nat): nat { if a < b then b else a }

  datatype Option<+T> = None | Some(value: T)

  /** The naturals lo, lo + 1, ..., hi - 1. */
  function Range(lo: nat, hi: nat): (r: set<nat>)
    ensures forall i: nat :: i in r <==> lo <= i < hi
    decreases hi
  {
    if lo >= hi then {} else Range(lo, hi - 1) + {hi - 1}
  }

  lemma {:induction false} RangeSize(lo: nat, hi: nat)
    requires lo <= hi
    ensures |Range(lo, hi)| == hi - lo
    decreases hi - lo
  {
    if lo < hi {
      RangeSize(lo, hi - 1);
    }
  }

  lemma {:induction false} SubsetSize<T>(a: set<T>, b: set<T>)
    requires a <= b
    ensures |a| <= |b|
    ensures |a| == |b| ==> a == b
    decreases |a|
  {
    if a == {} {
    } else {
      var x :| x in a;
      SubsetSize(a - {x}, b - {x});
      assert a == (a - {x}) + {x} && b == (b - {x}) + {x};
    }
  }

  /** An injective numbering of the indices below n lands in at least n values. */
  lemma {:induction false} Pigeonhole<T>(f: seq<T>, values: set<T>)
    requires forall i | 0 <= i < |f| :: f[i] in values
    requires forall i, j | 0 <= i < j < |f| :: f[i] != f[j]
    ensures |f| <= |values|
    decreases |f|
  {
    if |f| > 0 {
      var last := f[|f| - 1];
      Pigeonhole(f[..|f| - 1], values - {last});
      assert |values - {last}| == |values| - 1;
    }
  }
}
