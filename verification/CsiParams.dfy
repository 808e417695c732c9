/**
 The numeric parameters of a control sequence, read byte by byte: sixteen 32-bit values, the index of
 the one being read, and whether a digit of it has been seen.
 */
module CsiParams {
  const COUNT: nat := 16
  const VALUE_MAX: nat := 0xFFFF_FFFF

  datatype Params = Params(values: seq<nat>, index: nat, reading: bool)

  /** What every byte of a control sequence keeps. */
  predicate Ok(p: Params) {
    && |p.values| == COUNT && p.index <= COUNT && (p.reading ==> p.index < COUNT)
    && forall i | 0 <= i < COUNT :: p.values[i] <= VALUE_MAX
  }

  lemma ParamCount(p: Params)
    requires Ok(p)
    ensures |p.values| == COUNT && p.index <= COUNT
  {
  }

  function Start(): (p: Params)
    ensures Ok(p)
  {
    Params(seq(COUNT, _ => 0), 0, false)
  }

  /** No value read, whatever the old ones were. */
  function Restarted(p: Params): (q: Params)
    requires Ok(p)
    ensures Ok(q)
  {
    p.(index := 0, reading := false)
  }

  /** A digit: further digits of a value that would overflow are dropped, and the last step saturates. */
  function Digit(p: Params, d: nat): (q: Params)
    requires Ok(p) && d < 10
    ensures Ok(q)
  {
    if p.index == COUNT then p
    else
      var v := p.values[p.index];
      if v > VALUE_MAX / 10 then p.(reading := true)
      else if v * 10 > VALUE_MAX - d then p.(values := p.values[p.index := VALUE_MAX], reading := true)
      else p.(values := p.values[p.index := v * 10 + d], reading := true)
  }

  /** A byte that is no digit ends the value being read. */
  function Close(p: Params): (q: Params)
    requires Ok(p)
    ensures Ok(q) && !q.reading
  {
    if p.reading then p.(index := p.index + 1, reading := false) else p
  }

  /** A semicolon ends the value being read, or leaves out a value. */
  function Separator(p: Params): (q: Params)
    requires Ok(p)
    ensures Ok(q) && !q.reading
  {
    if p.reading then Close(p)
    else if p.index == COUNT then p
    else p.(values := p.values[p.index := 0], index := p.index + 1)
  }

  /** The values at the final byte: those left out, and zeros where the default is not zero, get the default. */
  function Defaulted(p: Params, def: nat): (q: Params)
    requires Ok(p) && def <= VALUE_MAX
    ensures Ok(q) && q.index == p.index && q.reading == p.reading
    ensures def != 0 ==> forall i | 0 <= i < COUNT :: q.values[i] != 0
  {
    p.(values := seq(COUNT, i requires 0 <= i < COUNT && |p.values| == COUNT =>
      if i >= p.index || (def != 0 && p.values[i] == 0) then def else p.values[i]))
  }

  // ----- Printing and reading a parameter list -----

  /** The decimal digits of a number. */
  function Decimal(n: nat): (ds: seq<nat>)
    ensures |ds| >= 1 && forall i | 0 <= i < |ds| :: ds[i] < 10
  {
    if n < 10 then [n] else Decimal(n / 10) + [n % 10]
  }

  function Digits(p: Params, ds: seq<nat>): (q: Params)
    requires Ok(p) && forall i | 0 <= i < |ds| :: ds[i] < 10
    ensures Ok(q)
    decreases |ds|
  {
    if ds == [] then p else Digit(Digits(p, ds[..|ds| - 1]), ds[|ds| - 1])
  }

  /** What is left of a number: its leading digits that fit, or the maximum where the next digit just does not. */
  function Kept(n: nat): (v: nat)
    ensures v <= VALUE_MAX && (n > VALUE_MAX / 10 ==> v > VALUE_MAX / 10)
  {
    if n <= VALUE_MAX then n else if n / 10 <= VALUE_MAX / 10 then VALUE_MAX else Kept(n / 10)
  }

  lemma {:induction false} NumberKept(p: Params, n: nat)
    requires Ok(p) && p.index < COUNT && p.values[p.index] == 0
    ensures Digits(p, Decimal(n)) == p.(values := p.values[p.index := Kept(n)], reading := true)
    decreases n
  {
    var ds := Decimal(n);
    if n < 10 {
      assert ds[..0] == [];
      assert Digits(p, []) == p;
    } else {
      NumberKept(p, n / 10);
      assert ds[..|ds| - 1] == Decimal(n / 10);
      hide Decimal, Kept;
      DigitKept(p.(values := p.values[p.index := Kept(n / 10)], reading := true), n);
    }
  }

  /** The next digit of a number: appended, saturating or dropped. */
  lemma DigitKept(p: Params, n: nat)
    requires Ok(p) && p.index < COUNT && p.values[p.index] == Kept(n / 10) && n >= 10
    ensures Digit(p, n % 10) == p.(values := p.values[p.index := Kept(n)], reading := true)
  {
    assert n == n / 10 * 10 + n % 10;
    if n / 10 > VALUE_MAX / 10 {
      assert p.values[p.index := Kept(n)] == p.values;
    }
  }

  /** The digits of a number that fits leave exactly that number. */
  lemma NumberRead(p: Params, n: nat)
    requires Ok(p) && p.index < COUNT && p.values[p.index] == 0 && n <= VALUE_MAX
    ensures Digits(p, Decimal(n)) == p.(values := p.values[p.index := n], reading := true)
  {
    NumberKept(p, n);
  }

  /** A number without its last k digits. */
  function Leading(n: nat, k: nat): nat {
    if k == 0 then n else Leading(n / 10, k - 1)
  }

  /** A number too large is read as the maximum exactly when its leading digits are 4294967295 to 4294967299. */
  lemma {:induction false} SaturatesIff(n: nat)
    ensures Kept(n) == VALUE_MAX <==> exists k: nat :: VALUE_MAX <= Leading(n, k) < VALUE_MAX + 5
  {
    assert Leading(n, 0) == n;
    if n > VALUE_MAX && n / 10 > VALUE_MAX / 10 {
      SaturatesIff(n / 10);
      if k: nat :| VALUE_MAX <= Leading(n / 10, k) < VALUE_MAX + 5 {
        assert Leading(n, k + 1) == Leading(n / 10, k);
      }
    } else {
      forall k: nat | k > 0 ensures Leading(n, k) <= VALUE_MAX / 10 {
        LeadingShrinks(n / 10, k - 1);
      }
    }
  }

  lemma {:induction false} LeadingShrinks(n: nat, k: nat)
    ensures Leading(n, k) <= n
  {
    if k > 0 { LeadingShrinks(n / 10, k - 1); }
  }

  /** Ten digits that do not fit lose the last one instead of saturating. */
  lemma DigitDropped(p: Params)
    requires Ok(p) && p.index < COUNT && p.values[p.index] == 0
    ensures Digits(p, Decimal(5000000000)).values[p.index] == 500000000
  {
    NumberKept(p, 5000000000);
  }

  /** Reading a whole list n1;n2;... from a position on. */
  function Read(p: Params, ns: seq<nat>): (q: Params)
    requires Ok(p)
    ensures Ok(q)
    decreases |ns|
  {
    if ns == [] then p
    else
      var q := Digits(p, Decimal(ns[0]));
      if |ns| == 1 then Close(q) else Read(Separator(q), ns[1..])
  }

  /** A printed list of at most sixteen numbers is read back as it is. */
  lemma {:induction false} ListRead(p: Params, ns: seq<nat>)
    requires Ok(p) && !p.reading && p.index + |ns| <= COUNT
    requires forall i | p.index <= i < COUNT :: p.values[i] == 0
    requires forall i | 0 <= i < |ns| :: ns[i] <= VALUE_MAX
    ensures var q := Read(p, ns);
            && q.index == p.index + |ns| && !q.reading
            && (forall i | 0 <= i < p.index :: q.values[i] == p.values[i])
            && (forall i | p.index <= i < p.index + |ns| :: q.values[i] == ns[i - p.index])
            && (forall i | p.index + |ns| <= i < COUNT :: q.values[i] == 0)
    decreases |ns|
  {
    if ns != [] {
      NumberRead(p, ns[0]);
      var q := Digits(p, Decimal(ns[0]));
      if |ns| > 1 {
        ListRead(Separator(q), ns[1..]);
        var r := Read(p, ns);
        forall i | p.index <= i < p.index + |ns| ensures r.values[i] == ns[i - p.index] {
          if i > p.index { assert ns[1..][i - p.index - 1] == ns[i - p.index]; }
        }
      }
    }
  }
}
