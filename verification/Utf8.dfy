/**
 The terminal's UTF-8 decoder as a state machine over the bytes that reach it. A
 code point of all ones marks a sequence already reported as bad, whose remaining bytes are drained.
 */
module Utf8 {
  type Octet = x: int | 0 <= x < 256

  const BAD: nat := 0xFFFF_FFFF_FFFF_FFFF
  const LAST: nat := 0x10FFFF

  datatype Decoder = Decoder(remaining: nat, codePoint: nat)

  /** What a byte brings about: a glyph lookup, a replacement glyph, or a byte that is no part of a sequence. */
  datatype Event = Glyph(codePoint: nat) | Replacement | Plain(c: Octet)

  const GROUND := Decoder(0, 0)

  predicate IsScalar(cp: nat) {
    cp <= LAST && !(0xD800 <= cp <= 0xDFFF)
  }

  predicate IsContinuation(c: Octet) { 0x80 <= c <= 0xBF }

  predicate IsLead(c: Octet) { 0xC2 <= c <= 0xF4 }

  function Weight(remaining: nat): nat {
    if remaining == 0 then 1 else if remaining == 1 then 64 else 4096
  }

  /** The bits a continuation byte sets are clear before, so setting them is adding them. */
  lemma SettingIsAdding(cp: bv64, c: bv64)
    requires c & 0xC0 == 0x80 && c < 256
    ensures cp & 0x3F == 0 ==> cp | (c & 0x3F) == cp + (c - 0x80)
    ensures cp & 0xFFF == 0 ==> cp | ((c & 0x3F) << 6) == cp + (c - 0x80) * 64
    ensures cp & 0x3FFFF == 0 && cp <= 0x3FFFFF ==> cp | ((c & 0x3F) << 12) == cp + (c - 0x80) * 4096
  {
  }

  function Start(c: Octet): Decoder
    requires IsLead(c)
  {
    if c <= 0xDF then Decoder(1, (c - 0xC0) * 64)
    else if c <= 0xEF then Decoder(2, (c - 0xE0) * 4096)
    else Decoder(3, (c - 0xF0) * 262144)
  }

  /** A byte outside a sequence. */
  function Fresh(c: Octet): (Decoder, seq<Event>) {
    if IsLead(c) then (Start(c), []) else (GROUND, [Plain(c)])
  }

  function Feed(d: Decoder, c: Octet): (r: (Decoder, seq<Event>)) {
    if d.remaining == 0 then Fresh(c)
    else if !IsContinuation(c) then
      var f := Fresh(c);
      (f.0, (if d.codePoint > LAST then [] else [Replacement]) + f.1)
    else
      var rem := d.remaining - 1;
      var cp := if d.codePoint == BAD then BAD else d.codePoint + (c - 0x80) * Weight(rem);
      if cp > LAST then (Decoder(rem, cp), [])
      else if (rem == 1 && cp < 0x800) || (rem == 2 && cp < 0x10000) then (Decoder(rem, BAD), [Replacement])
      else if rem != 0 then (Decoder(rem, cp), [])
      else if 0xD800 <= cp <= 0xDFFF then (GROUND, [Plain(c)])
      else (GROUND, [Glyph(cp)])
  }

  function FeedAll(d: Decoder, s: seq<Octet>): (r: (Decoder, seq<Event>))
    decreases |s|
  {
    if s == [] then (d, [])
    else
      var f := Feed(d, s[0]);
      var g := FeedAll(f.0, s[1..]);
      (g.0, f.1 + g.1)
  }

  /** Section 3 of RFC 3629. */
  function Encode(cp: nat): (s: seq<Octet>)
    requires cp <= LAST
    ensures 1 <= |s| <= 4
  {
    if cp < 0x80 then [cp]
    else if cp < 0x800 then [0xC0 + cp / 64, 0x80 + cp % 64]
    else if cp < 0x10000 then [0xE0 + cp / 4096, 0x80 + cp / 64 % 64, 0x80 + cp % 64]
    else [0xF0 + cp / 262144, 0x80 + cp / 4096 % 64, 0x80 + cp / 64 % 64, 0x80 + cp % 64]
  }

  // ----- Every scalar is decoded as itself -----

  function EventOf(cp: nat): Event
    requires cp <= LAST
  {
    if cp < 0x80 then Plain(cp) else Glyph(cp)
  }

  lemma {:induction false} FeedAllAppend(d: Decoder, a: seq<Octet>, b: seq<Octet>)
    ensures FeedAll(d, a + b) == (FeedAll(FeedAll(d, a).0, b).0, FeedAll(d, a).1 + FeedAll(FeedAll(d, a).0, b).1)
    decreases |a|
  {
    if a == [] {
      assert a + b == b && [] + FeedAll(d, b).1 == FeedAll(d, b).1;
    } else {
      assert (a + b)[1..] == a[1..] + b;
      var f := Feed(d, a[0]);
      FeedAllAppend(f.0, a[1..], b);
      var g := FeedAll(f.0, a[1..]);
      assert f.1 + (g.1 + FeedAll(g.0, b).1) == f.1 + g.1 + FeedAll(g.0, b).1;
    }
  }

  lemma EncodedDecodes(cp: nat)
    requires IsScalar(cp)
    ensures FeedAll(GROUND, Encode(cp)) == (GROUND, [EventOf(cp)])
  {
    if cp < 0x80 {
      Fed1(cp);
    } else {
      FedFrom(cp, 0);
      LastStage(cp);
      assert Encode(cp)[0..] == Encode(cp);
    }
  }

  lemma Fed1(c: Octet)
    requires c < 0x80
    ensures FeedAll(GROUND, [c]) == (GROUND, [Plain(c)])
  {
    Unrolled(GROUND, [c]);
  }

  /** The decoder after the first i bytes of a scalar's encoding. */
  function Stage(cp: nat, i: nat): (d: Decoder)
    requires 0x80 <= cp <= LAST && i <= |Encode(cp)|
    ensures d.remaining == if i == 0 then 0 else |Encode(cp)| - i
  {
    var left := |Encode(cp)| - i;
    if i == 0 || left == 0 then GROUND
    else if left == 1 then Decoder(1, cp / 64 * 64)
    else if left == 2 then Decoder(2, cp / 4096 * 4096)
    else Decoder(3, cp / 262144 * 262144)
  }

  /** Each byte of an encoding takes the decoder to the next stage; the last one reports the scalar. */
  lemma StageStep(cp: nat, i: nat)
    requires 0x80 <= cp && IsScalar(cp) && i < |Encode(cp)|
    ensures Feed(Stage(cp, i), Encode(cp)[i]) == (Stage(cp, i + 1), if i + 1 == |Encode(cp)| then [Glyph(cp)] else [])
  {
    if cp < 0x800 {
      SixBits(cp, cp / 64);
    } else if cp < 0x10000 {
      Steps3(cp);
    } else {
      Steps4(cp);
    }
  }

  lemma Steps3(cp: nat)
    requires 0x800 <= cp < 0x10000 && IsScalar(cp)
    ensures Feed(GROUND, 0xE0 + cp / 4096) == (Decoder(2, cp / 4096 * 4096), [])
    ensures Feed(Decoder(2, cp / 4096 * 4096), 0x80 + cp / 64 % 64) == (Decoder(1, cp / 64 * 64), [])
    ensures Feed(Decoder(1, cp / 64 * 64), 0x80 + cp % 64) == (GROUND, [Glyph(cp)])
  {
    SixBits(cp / 64, cp / 4096);
    SixBits(cp, cp / 64);
  }

  lemma Steps4(cp: nat)
    requires 0x10000 <= cp <= LAST
    ensures Feed(GROUND, 0xF0 + cp / 262144) == (Decoder(3, cp / 262144 * 262144), [])
    ensures Feed(Decoder(3, cp / 262144 * 262144), 0x80 + cp / 4096 % 64) == (Decoder(2, cp / 4096 * 4096), [])
    ensures Feed(Decoder(2, cp / 4096 * 4096), 0x80 + cp / 64 % 64) == (Decoder(1, cp / 64 * 64), [])
    ensures Feed(Decoder(1, cp / 64 * 64), 0x80 + cp % 64) == (GROUND, [Glyph(cp)])
  {
    SixBits(cp / 4096, cp / 262144);
    SixBits(cp / 64, cp / 4096);
  }

  lemma SixBits(x: nat, y: nat)
    requires y == x / 64
    ensures x == y * 64 + x % 64
  {
  }

  /** The rest of an encoding from any stage yields the scalar. */
  lemma {:induction false} FedFrom(cp: nat, i: nat)
    requires 0x80 <= cp && IsScalar(cp) && i < |Encode(cp)|
    ensures FeedAll(Stage(cp, i), Encode(cp)[i..]) == (GROUND, [Glyph(cp)])
    decreases |Encode(cp)| - i
  {
    hide Feed, FeedAll, Stage, Encode;
    var s := Encode(cp);
    StageStep(cp, i);
    assert s[i..][0] == s[i] && s[i..][1..] == s[i + 1..];
    if i + 1 == |s| {
      Unrolled(Stage(cp, i), s[i..]);
      LastStage(cp);
    } else {
      Silent(Stage(cp, i), s[i..]);
      FedFrom(cp, i + 1);
    }
  }

  lemma LastStage(cp: nat)
    requires 0x80 <= cp <= LAST
    ensures Stage(cp, |Encode(cp)|) == GROUND && Stage(cp, 0) == GROUND
  {
  }

  lemma Silent(d: Decoder, s: seq<Octet>)
    requires s != [] && Feed(d, s[0]).1 == []
    ensures FeedAll(d, s) == FeedAll(Feed(d, s[0]).0, s[1..])
  {
    var g := FeedAll(Feed(d, s[0]).0, s[1..]);
    assert [] + g.1 == g.1;
  }

  lemma Unrolled(d: Decoder, s: seq<Octet>)
    requires s != []
    ensures FeedAll(d, s) == (FeedAll(Feed(d, s[0]).0, s[1..]).0, Feed(d, s[0]).1 + FeedAll(Feed(d, s[0]).0, s[1..]).1)
    ensures |s| == 1 ==> FeedAll(d, s) == Feed(d, s[0])
  {
    if |s| == 1 {
      assert FeedAll(Feed(d, s[0]).0, s[1..]) == (Feed(d, s[0]).0, []);
      assert Feed(d, s[0]).1 + [] == Feed(d, s[0]).1;
    }
  }

  function EncodeAll(cps: seq<nat>): (s: seq<Octet>)
    requires forall i | 0 <= i < |cps| :: IsScalar(cps[i])
  {
    if |cps| == 0 then [] else
      assert IsScalar(cps[0]);
      Encode(cps[0]) + EncodeAll(cps[1..])
  }

  /** A whole text comes out as its scalars, in order. */
  lemma {:induction false} TextDecodes(cps: seq<nat>)
    requires forall i | 0 <= i < |cps| :: IsScalar(cps[i])
    ensures FeedAll(GROUND, EncodeAll(cps)).0 == GROUND
    ensures |FeedAll(GROUND, EncodeAll(cps)).1| == |cps|
    ensures forall i | 0 <= i < |cps| :: IsScalar(cps[i]) && FeedAll(GROUND, EncodeAll(cps)).1[i] == EventOf(cps[i])
  {
    hide Feed, Encode;
    if cps != [] {
      EncodedDecodes(cps[0]);
      TextDecodes(cps[1..]);
      FeedAllAppend(GROUND, Encode(cps[0]), EncodeAll(cps[1..]));
      assert forall i | 0 < i < |cps| :: cps[i] == cps[1..][i - 1];
    }
  }

  // ----- Every sequence of the right length, well formed or not -----

  /** A lead byte followed by as many continuation bytes as it announces. */
  predicate IsWhole(s: seq<Octet>) {
    && s != [] && IsLead(s[0]) && |s| == Start(s[0]).remaining + 1
    && forall i | 1 <= i < |s| :: IsContinuation(s[i])
  }

  /** The number the bytes of a whole sequence spell. */
  function Value(s: seq<Octet>): nat
    requires IsWhole(s)
  {
    if |s| == 2 then (s[0] - 0xC0) * 64 + (s[1] - 0x80)
    else if |s| == 3 then Three(s[0], s[1]) + (s[2] - 0x80)
    else Four(s[0], s[1], s[2]) + (s[3] - 0x80)
  }

  /** The least number that needs the given count of bytes. */
  function Shortest(bytes: nat): nat {
    if bytes == 2 then 0x80 else if bytes == 3 then 0x800 else 0x10000
  }

  /** The decoder and its reports after the lead byte and some continuation bytes. */
  lemma Continued(s: seq<Octet>, c: Octet, d: Decoder, events: seq<Event>)
    requires FeedAll(GROUND, s) == (d, events)
    ensures FeedAll(GROUND, s + [c]) == (Feed(d, c).0, events + Feed(d, c).1)
  {
    hide Feed;
    FeedAllAppend(GROUND, s, [c]);
    Unrolled(d, [c]);
  }

  lemma Led(a: Octet, b: Octet)
    requires IsLead(a)
    ensures FeedAll(GROUND, [a, b]) == Feed(Start(a), b)
  {
    hide FeedAll;
    Unrolled(GROUND, [a]);
    Continued([a], b, Start(a), []);
    assert [a] + [b] == [a, b] && [] + Feed(Start(a), b).1 == Feed(Start(a), b).1;
  }

  /**
   What a whole sequence reports: nothing for a number above 0x10FFFF, a replacement for an overlong form, its
   last byte for a surrogate, and otherwise the number itself.
   */
  function Report(v: nat, s: seq<Octet>): seq<Event>
    requires s != []
  {
    if v > LAST then [] else if v < Shortest(|s|) then [Replacement]
    else if !IsScalar(v) then [Plain(s[|s| - 1])] else [Glyph(v)]
  }

  lemma WholeSequence(s: seq<Octet>)
    requires IsWhole(s)
    ensures FeedAll(GROUND, s).0.remaining == 0 && FeedAll(GROUND, s).1 == Report(Value(s), s)
  {
    hide FeedAll, Feed;
    Led(s[0], s[1]);
    if |s| == 2 {
      assert s == [s[0], s[1]];
      WholeTwo(s);
    } else {
      var d := Feed(Start(s[0]), s[1]);
      Continued([s[0], s[1]], s[2], d.0, d.1);
      assert [s[0], s[1]] + [s[2]] == [s[0], s[1], s[2]];
      if |s| == 3 {
        assert s == [s[0], s[1], s[2]];
        WholeThree(s);
      } else {
        var e := Feed(d.0, s[2]);
        Continued([s[0], s[1], s[2]], s[3], e.0, d.1 + e.1);
        assert s == [s[0], s[1], s[2]] + [s[3]];
        WholeFour(s);
      }
    }
  }

  lemma WholeTwo(s: seq<Octet>)
    requires IsWhole(s) && |s| == 2
    ensures var d := Feed(Start(s[0]), s[1]); d.0.remaining == 0 && d.1 == Report(Value(s), s)
  {
  }

  lemma WholeThree(s: seq<Octet>)
    requires IsWhole(s) && |s| == 3
    ensures var d := Feed(Start(s[0]), s[1]); var e := Feed(d.0, s[2]);
            e.0.remaining == 0 && d.1 + e.1 == Report(Value(s), s)
  {
  }

  lemma WholeFour(s: seq<Octet>)
    requires IsWhole(s) && |s| == 4
    ensures var d := Feed(Start(s[0]), s[1]); var e := Feed(d.0, s[2]); var f := Feed(e.0, s[3]);
            f.0.remaining == 0 && d.1 + e.1 + f.1 == Report(Value(s), s)
  {
  }

  /** The bad sequences are told apart by their first two bytes. */
  lemma BadByPrefix(s: seq<Octet>)
    requires IsWhole(s)
    ensures FeedAll(GROUND, s).1 == [] <==> s[0] == 0xF4 && s[1] >= 0x90
    ensures FeedAll(GROUND, s).1 == [Replacement] <==> (s[0] == 0xE0 && s[1] < 0xA0) || (s[0] == 0xF0 && s[1] < 0x90)
  {
    hide FeedAll;
    WholeSequence(s);
  }

  // ----- Only well-formed sequences are looked up -----

  /** The value of a three-byte or four-byte sequence read so far. */
  function Three(a: int, b: int): int { (a - 0xE0) * 4096 + (b - 0x80) * 64 }

  function Four(a: int, b: int, c: int): int { (a - 0xF0) * 262144 + (b - 0x80) * 4096 + (c - 0x80) * 64 }

  /** The bytes p are the unfinished sequence the decoder is in; none when it is at ground or draining. */
  ghost predicate Tracks(d: Decoder, p: seq<Octet>) {
    if d.remaining == 0 || d.codePoint > LAST then p == []
    else
      || (|p| == 1 && IsLead(p[0]) && d == Start(p[0]))
      || (|p| == 2 && 0xE0 <= p[0] <= 0xEF && IsContinuation(p[1]) && d.codePoint >= 0x800
          && d.remaining == 1 && d.codePoint == Three(p[0], p[1]))
      || (|p| == 2 && 0xF0 <= p[0] <= 0xF4 && IsContinuation(p[1]) && d.codePoint >= 0x10000
          && d.remaining == 2 && d.codePoint == Four(p[0], p[1], 0x80))
      || (|p| == 3 && 0xF0 <= p[0] <= 0xF4 && IsContinuation(p[1]) && IsContinuation(p[2]) && d.codePoint >= 0x10000
          && d.remaining == 1 && d.codePoint == Four(p[0], p[1], p[2]))
  }

  /** The unfinished sequence after another byte. */
  function Unfinished(d: Decoder, p: seq<Octet>, c: Octet): seq<Octet> {
    var n := Feed(d, c).0;
    if n.remaining == 0 || n.codePoint > LAST then [] else if IsLead(c) then [c] else p + [c]
  }

  lemma FeedTracks(d: Decoder, p: seq<Octet>, c: Octet)
    requires Tracks(d, p)
    ensures Tracks(Feed(d, c).0, Unfinished(d, p, c))
  {
    if d.remaining != 0 && d.codePoint <= LAST && IsContinuation(c) && |p| == 1 {
      assert p + [c] == [p[0], c];
    }
  }

  lemma GlyphTracks(d: Decoder, p: seq<Octet>, c: Octet, cp: nat)
    requires Tracks(d, p) && Glyph(cp) in Feed(d, c).1
    ensures IsScalar(cp) && cp >= 0x80 && p + [c] == Encode(cp)
  {
    if |p| == 1 {
      EncodeTwo(p[0], c);
      assert p + [c] == [p[0], c];
    } else if |p| == 2 {
      EncodeThree(p[0], p[1], c);
      assert p + [c] == [p[0], p[1], c];
    } else {
      EncodeFour(p[0], p[1], p[2], c);
      assert p + [c] == [p[0], p[1], p[2], c];
    }
  }

  lemma EncodeTwo(a: Octet, b: Octet)
    requires 0xC2 <= a <= 0xDF && IsContinuation(b)
    ensures Encode((a - 0xC0) * 64 + (b - 0x80)) == [a, b]
  {
  }

  lemma EncodeThree(a: Octet, b: Octet, c: Octet)
    requires 0xE0 <= a <= 0xEF && IsContinuation(b) && IsContinuation(c) && (a - 0xE0) * 4096 + (b - 0x80) * 64 >= 0x800
    ensures Encode((a - 0xE0) * 4096 + (b - 0x80) * 64 + (c - 0x80)) == [a, b, c]
  {
    var cp := (a - 0xE0) * 4096 + (b - 0x80) * 64 + (c - 0x80);
    Split(cp, (a - 0xE0) * 64 + (b - 0x80), c - 0x80);
    Split((a - 0xE0) * 64 + (b - 0x80), a - 0xE0, b - 0x80);
    assert cp / 4096 == cp / 64 / 64;
  }

  lemma EncodeFour(a: Octet, b: Octet, c: Octet, d: Octet)
    requires 0xF0 <= a <= 0xF4 && IsContinuation(b) && IsContinuation(c) && IsContinuation(d)
    requires 0x10000 <= (a - 0xF0) * 262144 + (b - 0x80) * 4096 + (c - 0x80) * 64 + (d - 0x80) <= LAST
    ensures Encode((a - 0xF0) * 262144 + (b - 0x80) * 4096 + (c - 0x80) * 64 + (d - 0x80)) == [a, b, c, d]
  {
    var cp := (a - 0xF0) * 262144 + (b - 0x80) * 4096 + (c - 0x80) * 64 + (d - 0x80);
    Split(cp, (a - 0xF0) * 4096 + (b - 0x80) * 64 + (c - 0x80), d - 0x80);
    Split((a - 0xF0) * 4096 + (b - 0x80) * 64 + (c - 0x80), (a - 0xF0) * 64 + (b - 0x80), c - 0x80);
    Split((a - 0xF0) * 64 + (b - 0x80), a - 0xF0, b - 0x80);
    assert cp / 4096 == cp / 64 / 64 && cp / 262144 == cp / 4096 / 64;
  }

  lemma Split(x: nat, hi: nat, lo: nat)
    requires x == hi * 64 + lo && lo < 64
    ensures x / 64 == hi && x % 64 == lo
  {
  }

  lemma Suffixes(t: seq<Octet>, q: seq<Octet>, c: Octet)
    requires |q| <= |t| && t[|t| - |q|..] == q
    ensures var s := t + [c]; s[|s|..] == [] && s[|s| - 1..] == [c] && s[|s| - |q| - 1..] == q + [c]
  {
    var s, k := t + [c], |t| - |q|;
    assert s[k..] == t[k..] + [c];
  }

  /** The bytes p end the stream s, and are the unfinished sequence that the decoder after s is in. */
  ghost predicate EndsIn(s: seq<Octet>, d: Decoder, p: seq<Octet>) {
    |p| <= |s| && s[|s| - |p|..] == p && Tracks(d, p)
  }

  lemma NothingEnds(d: Decoder)
    requires d.remaining == 0
    ensures EndsIn([], d, [])
  {
  }

  /** Whatever the byte is for, the decoder takes it in or is given up. */
  lemma EndsInMore(s: seq<Octet>, d: Decoder, q: seq<Octet>, c: Octet, n: Decoder) returns (p: seq<Octet>)
    requires EndsIn(s, d, q) && (n.remaining == 0 || n == Feed(d, c).0)
    ensures EndsIn(s + [c], n, p)
  {
    hide Feed;
    FeedTracks(d, q, c);
    Suffixes(s, q, c);
    p := if n.remaining == 0 then [] else Unfinished(d, q, c);
  }

  /** What is looked up next is then what the stream ends in. */
  lemma LookupEnds(s: seq<Octet>, d: Decoder, p: seq<Octet>, c: Octet, cp: nat)
    requires EndsIn(s, d, p) && Glyph(cp) in Feed(d, c).1
    ensures IsScalar(cp) && cp >= 0x80
    ensures |Encode(cp)| <= |s| + 1 && (s + [c])[|s| + 1 - |Encode(cp)|..] == Encode(cp)
  {
    hide Feed, Encode, Tracks;
    GlyphTracks(d, p, c, cp);
    var n := |s| + 1 - |Encode(cp)|;
    assert (s + [c])[n..] == s[n..] + [c];
  }
}
