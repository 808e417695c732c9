/**
 Reading a directory in pieces: each call writes as many whole records as fit, and the file position
 says where the next call goes on.
 */
module Getdents {
  import opened LittleEndian

  const E_INVAL: int := 22
  const E_NOTDIR: int := 20
  const DT_DIR: Byte := 4
  const HEADER: nat := 19
  const RECLEN_LIMIT: nat := 0x1_0000

  datatype Entry = Entry(ino: nat, kind: Byte, name: seq<Byte>)

  datatype Record = Record(ino: nat, next: nat, kind: Byte, name: seq<Byte>)

  predicate EntryOk(e: Entry) {
    e.ino < WORD_LIMIT && 0 !in e.name
  }

  /** The length of a record: header, name and terminator, rounded up to eight bytes. */
  function RecLen(name: seq<Byte>): (n: nat)
    ensures n % 8 == 0 && HEADER + |name| + 1 <= n < HEADER + |name| + 9
  {
    (HEADER + |name| + 1 + 7) / 8 * 8
  }

  // ----- Records in a buffer -----

  /** The bytes a record sets: header, name and terminator. The padding after them is left as it was. */
  function Head(e: Entry, next: nat): (b: seq<Byte>)
    ensures |b| == HEADER + |e.name| + 1
  {
    Bytes(e.ino, 8) + Bytes(next, 8) + Bytes(RecLen(e.name) % RECLEN_LIMIT, 2) + [e.kind] + e.name + [0]
  }

  /** A stretch of bytes that is the record of an entry. */
  ghost predicate IsRecord(b: seq<Byte>, e: Entry, next: nat) {
    |b| == RecLen(e.name) && Head(e, next) <= b
  }

  /** Reads a buffer record by record, stepping by the length field. */
  function Parse(b: seq<Byte>): (r: seq<Record>)
    decreases |b|
  {
    if |b| < HEADER + 1 then []
    else
      var n := Value(b[16..18]);
      if n == 0 || n > |b| then []
      else [Record(Value(b[..8]), Value(b[8..16]), b[18], b[HEADER..][..ZeroAt(b[HEADER..])])] + Parse(b[n..])
  }

  function RecordOf(e: Entry, next: nat): Record {
    Record(e.ino, next, e.kind, e.name)
  }

  lemma HeadFields(b: seq<Byte>, e: Entry, next: nat)
    requires Head(e, next) <= b
    ensures b[..8] == Bytes(e.ino, 8) && b[8..16] == Bytes(next, 8)
    ensures b[16..18] == Bytes(RecLen(e.name) % RECLEN_LIMIT, 2)
    ensures b[18] == e.kind && b[HEADER..HEADER + |e.name|] == e.name && b[HEADER + |e.name|] == 0
  {
    var h := Head(e, next);
    assert h[..8] == Bytes(e.ino, 8) && h[8..16] == Bytes(next, 8);
    assert h[16..18] == Bytes(RecLen(e.name) % RECLEN_LIMIT, 2);
    assert h[18] == e.kind && h[HEADER..HEADER + |e.name|] == e.name && h[HEADER + |e.name|] == 0;
    assert h == b[..|h|];
    assert b[..8] == h[..8] && b[8..16] == h[8..16] && b[16..18] == h[16..18];
    assert b[HEADER..HEADER + |e.name|] == h[HEADER..HEADER + |e.name|];
  }

  /** A record followed by other bytes is read back, whatever its padding holds. */
  lemma ParseFirst(b: seq<Byte>, rest: seq<Byte>, e: Entry, next: nat)
    requires IsRecord(b, e, next) && EntryOk(e) && next < WORD_LIMIT && RecLen(e.name) < RECLEN_LIMIT
    ensures Parse(b + rest) == [RecordOf(e, next)] + Parse(rest)
  {
    hide Value, Bytes, Head, ZeroAt, Power, RecLen;
    var c := b + rest;
    assert Head(e, next) <= c;
    FieldValues(c, e, next);
    assert c[RecLen(e.name)..] == rest;
  }

  lemma FieldValues(c: seq<Byte>, e: Entry, next: nat)
    requires Head(e, next) <= c && EntryOk(e) && next < WORD_LIMIT && RecLen(e.name) < RECLEN_LIMIT
    ensures Value(c[..8]) == e.ino && Value(c[8..16]) == next && Value(c[16..18]) == RecLen(e.name) && c[18] == e.kind
    ensures c[HEADER..][..ZeroAt(c[HEADER..])] == e.name
  {
    hide Value, Bytes, Head, ZeroAt, Power, RecLen;
    HeadFields(c, e, next);
    Powers();
    ValueOfBytes(e.ino, 8);
    ValueOfBytes(next, 8);
    ValueOfBytes(RecLen(e.name), 2);
    NameReads(c, e.name);
  }

  lemma NameReads(c: seq<Byte>, name: seq<Byte>)
    requires HEADER + |name| < |c| && 0 !in name && c[HEADER..HEADER + |name|] == name && c[HEADER + |name|] == 0
    ensures c[HEADER..][..ZeroAt(c[HEADER..])] == name
  {
    var t := c[HEADER..];
    assert t[..|name|] == name && t[|name|] == 0;
    assert forall i | 0 <= i < |name| :: t[i] == name[i] && name[i] in name;
    assert ZeroAt(t) == |name|;
  }

  // ----- The listing and the calls -----

  /** The records of entries from position on, numbered by the position after them. */
  function Listing(entries: seq<Entry>, from: nat, end: nat): (r: seq<Record>)
    requires from <= end <= |entries|
    ensures |r| == end - from && forall i | 0 <= i < |r| :: r[i] == RecordOf(entries[from + i], from + i + 1)
    decreases end - from
  {
    if from == end then [] else [RecordOf(entries[from], from + 1)] + Listing(entries, from + 1, end)
  }

  /** The bytes hold the records of the entries between two positions. */
  ghost predicate Holds(b: seq<Byte>, entries: seq<Entry>, from: nat, end: nat)
    requires from <= end <= |entries|
    decreases end - from
  {
    if from == end then b == []
    else
      var n := RecLen(entries[from].name);
      n <= |b| && IsRecord(b[..n], entries[from], from + 1) && Holds(b[n..], entries, from + 1, end)
  }

  ghost predicate EntriesOk(entries: seq<Entry>) {
    |entries| < WORD_LIMIT && forall e | e in entries :: EntryOk(e) && RecLen(e.name) < RECLEN_LIMIT
  }

  lemma {:induction false} HoldsParses(b: seq<Byte>, entries: seq<Entry>, from: nat, end: nat)
    requires from <= end <= |entries| && Holds(b, entries, from, end) && EntriesOk(entries)
    ensures Parse(b) == Listing(entries, from, end)
    decreases end - from
  {
    hide IsRecord, RecLen;
    if from < end {
      var n := RecLen(entries[from].name);
      assert entries[from] in entries;
      HoldsParses(b[n..], entries, from + 1, end);
      ParseFirst(b[..n], b[n..], entries[from], from + 1);
      assert b == b[..n] + b[n..];
    }
  }

  lemma {:induction false} HoldsMore(b: seq<Byte>, r: seq<Byte>, entries: seq<Entry>, from: nat, end: nat)
    requires from <= end < |entries| && Holds(b, entries, from, end) && IsRecord(r, entries[end], end + 1)
    ensures Holds(b + r, entries, from, end + 1)
    decreases end - from
  {
    hide RecLen, Head;
    if from == end {
      assert b + r == r && r[..|r|] == r && r[|r|..] == [];
    } else {
      var n := RecLen(entries[from].name);
      HoldsMore(b[n..], r, entries, from + 1, end);
      assert (b + r)[..n] == b[..n] && (b + r)[n..] == b[n..] + r;
    }
  }

  /** The total length of the records between two positions. */
  function Length(entries: seq<Entry>, from: nat, end: nat): (n: nat)
    requires from <= end <= |entries|
    decreases end - from
  {
    if from == end then 0 else RecLen(entries[from].name) + Length(entries, from + 1, end)
  }

  lemma {:induction false} LengthMore(entries: seq<Entry>, from: nat, end: nat)
    requires from <= end < |entries|
    ensures Length(entries, from, end + 1) == Length(entries, from, end) + RecLen(entries[end].name)
    decreases end - from
  {
    if from < end { LengthMore(entries, from + 1, end); }
  }

  /** Where a call with room for count bytes stops: as many records as fit. */
  ghost predicate Stops(entries: seq<Entry>, from: nat, end: int, count: nat) {
    && from <= end <= |entries| && Length(entries, from, end) <= count
    && (end == |entries| || Length(entries, from, end + 1) > count)
  }

  /** A directory: its own inode, its parent's, and its children in list order. */
  datatype Directory = Directory(self: nat, parent: nat, children: seq<Entry>)

  function Entries(dir: Directory): (r: seq<Entry>)
    ensures |r| == |dir.children| + 2
  {
    [Entry(dir.self, DT_DIR, [46]), Entry(dir.parent, DT_DIR, [46, 46])] + dir.children
  }

  /** The first entry a call at a file position looks at. */
  function Start(entries: seq<Entry>, pos: int): (from: nat)
    ensures from <= |entries|
  {
    if pos < 0 then 0 else if pos > |entries| then |entries| else pos
  }

  /** The records before idx have been written, those before the file position skipped. */
  ghost predicate Filled(b: seq<Byte>, b0: seq<Byte>, entries: seq<Entry>, from: nat, idx: nat, bpos: nat, count: nat) {
    && from <= |entries| && idx <= |entries| && bpos <= count && bpos <= |b| == |b0|
    && var end := if idx < from then from else idx;
       bpos == Length(entries, from, end) && Holds(b[..bpos], entries, from, end) && b[bpos..] == b0[bpos..]
  }

  lemma FilledMore(b: seq<Byte>, c: seq<Byte>, b0: seq<Byte>, entries: seq<Entry>, from: nat, idx: nat, bpos: nat,
                   count: nat)
    requires Filled(b, b0, entries, from, idx, bpos, count) && from <= idx < |entries|
    requires var n := RecLen(entries[idx].name);
             && bpos + n <= count <= |b| == |c| && c[..bpos] == b[..bpos] && c[bpos + n..] == b[bpos + n..]
             && IsRecord(c[bpos..bpos + n], entries[idx], idx + 1)
    ensures Filled(c, b0, entries, from, idx + 1, bpos + RecLen(entries[idx].name), count)
  {
    hide IsRecord, RecLen;
    var n := RecLen(entries[idx].name);
    HoldsMore(b[..bpos], c[bpos..bpos + n], entries, from, idx);
    LengthMore(entries, from, idx);
    assert c[..bpos + n] == b[..bpos] + c[bpos..bpos + n];
    assert c[bpos + n..] == b[bpos..][n..] == b0[bpos..][n..] == b0[bpos + n..];
  }

  /** Writes one record; its padding keeps what the buffer held. */
  method PutRecord(buf: array<Byte>, bpos: nat, e: Entry, next: nat)
    requires bpos + RecLen(e.name) <= buf.Length
    modifies buf
    ensures buf[..bpos] == old(buf[..bpos]) && buf[bpos + RecLen(e.name)..] == old(buf[bpos + RecLen(e.name)..])
    ensures IsRecord(buf[bpos..bpos + RecLen(e.name)], e, next)
  {
    hide Bytes;
    var h := Head(e, next);
    for k := 0 to |h|
      invariant forall i | 0 <= i < buf.Length && !(bpos <= i < bpos + k) :: buf[i] == old(buf[i])
      invariant forall i | 0 <= i < k :: buf[bpos + i] == h[i]
    {
      buf[bpos + k] := h[k];
    }
  }

  /** Writes the next record if it fits. */
  method Emit(buf: array<Byte>, bpos: nat, e: Entry, idx: nat, count: nat,
              ghost b0: seq<Byte>, ghost entries: seq<Entry>, ghost from: nat) returns (fits: bool, end: nat)
    requires count <= buf.Length && idx < |entries| && e == entries[idx] && from <= idx
    requires Filled(buf[..], b0, entries, from, idx, bpos, count)
    modifies buf
    ensures fits <==> bpos + RecLen(e.name) <= count
    ensures !fits ==> buf[..] == old(buf[..]) && end == bpos
    ensures fits ==> Filled(buf[..], b0, entries, from, idx + 1, end, count) && end > bpos
  {
    hide Holds, Length, IsRecord;
    var reclen := RecLen(e.name);
    if bpos + reclen > count { return false, bpos; }
    ghost var b := buf[..];
    PutRecord(buf, bpos, e, idx + 1);
    FilledMore(b, buf[..], b0, entries, from, idx, bpos, count);
    return true, bpos + reclen;
  }

  class File {
    var pos: int

    /** One getdents64 call on a directory, with room for count bytes. */
    method Read(dir: Directory, isDir: bool, buf: array<Byte>, count: nat) returns (r: int)
      requires count <= buf.Length
      modifies this, buf
      ensures !isDir ==> r == -E_NOTDIR
      ensures isDir && r < 0 ==> r == -E_INVAL
      ensures r <= count
      ensures isDir ==> (r == -E_INVAL <==> TooSmall(Entries(dir), old(pos), count))
      ensures r < 0 ==> pos == old(pos) && buf[..] == old(buf[..])
      ensures r >= 0 ==> Stops(Entries(dir), Start(Entries(dir), old(pos)), pos, count)
      ensures r >= 0 ==> Filled(buf[..], old(buf[..]), Entries(dir), Start(Entries(dir), old(pos)), pos, r, count)
    {
      hide RecLen, Filled, Stops;
      if !isDir { return -E_NOTDIR; }
      ghost var entries := Entries(dir);
      ghost var from, b0 := Start(entries, pos), buf[..];
      var target := pos;
      var idx: nat, bpos: nat := 0, 0;
      StartFilled(b0, entries, from, count);
      for i := 0 to 2
        invariant idx == i && pos == old(pos) && (if idx <= from then bpos == 0 && buf[..] == b0 else bpos > 0)
        invariant Filled(buf[..], b0, entries, from, idx, bpos, count)
      {
        if idx < target {
          SkipFilled(buf[..], b0, entries, from, idx, bpos, count);
          idx := idx + 1;
          continue;
        }
        var e := if i == 0 then Entry(dir.self, DT_DIR, [46]) else Entry(dir.parent, DT_DIR, [46, 46]);
        var fits, end := Emit(buf, bpos, e, idx, count, b0, entries, from);
        if !fits {
          if bpos == 0 { return -E_INVAL; }
          StopFilled(buf[..], b0, entries, from, idx, bpos, count);
          pos := idx;
          return bpos;
        }
        bpos, idx := end, idx + 1;
      }
      var k := 0;
      while k < |dir.children|
        invariant k <= |dir.children| && idx == k + 2 && pos == old(pos)
        invariant if idx <= from then bpos == 0 && buf[..] == b0 else bpos > 0
        invariant Filled(buf[..], b0, entries, from, idx, bpos, count)
      {
        if idx < target {
          SkipFilled(buf[..], b0, entries, from, idx, bpos, count);
          idx, k := idx + 1, k + 1;
          continue;
        }
        var fits, end := Emit(buf, bpos, dir.children[k], idx, count, b0, entries, from);
        if !fits {
          if bpos == 0 { return -E_INVAL; }
          break;
        }
        bpos, idx, k := end, idx + 1, k + 1;
      }
      StopFilled(buf[..], b0, entries, from, idx, bpos, count);
      pos := idx;
      r := bpos;
    }
  }

  /** The next record does not fit into count bytes. */
  predicate TooSmall(entries: seq<Entry>, pos: int, count: nat) {
    var from := Start(entries, pos);
    from < |entries| && RecLen(entries[from].name) > count
  }

  lemma StartFilled(b0: seq<Byte>, entries: seq<Entry>, from: nat, count: nat)
    requires from <= |entries|
    ensures Filled(b0, b0, entries, from, 0, 0, count)
  {
    assert b0[..0] == [];
  }

  lemma SkipFilled(b: seq<Byte>, b0: seq<Byte>, entries: seq<Entry>, from: nat, idx: nat, bpos: nat, count: nat)
    requires Filled(b, b0, entries, from, idx, bpos, count) && idx < from
    ensures Filled(b, b0, entries, from, idx + 1, bpos, count)
  {
  }

  /** A record that does not fit, or the end of the directory, is where the call stops. */
  lemma StopFilled(b: seq<Byte>, b0: seq<Byte>, entries: seq<Entry>, from: nat, idx: nat, bpos: nat, count: nat)
    requires Filled(b, b0, entries, from, idx, bpos, count) && from <= idx
    requires idx == |entries| || bpos + RecLen(entries[idx].name) > count
    ensures bpos <= count && Stops(entries, from, idx, count) && (from < idx ==> RecLen(entries[from].name) <= count)
  {
    if idx < |entries| { LengthMore(entries, from, idx); }
  }

  /** What a call wrote reads back as the records of the entries it went over. */
  lemma ReadBack(b: seq<Byte>, b0: seq<Byte>, entries: seq<Entry>, from: nat, end: nat, bpos: nat, count: nat)
    requires Filled(b, b0, entries, from, end, bpos, count) && from <= end && EntriesOk(entries)
    ensures Parse(b[..bpos]) == Listing(entries, from, end)
  {
    HoldsParses(b[..bpos], entries, from, end);
  }

  /** The length field holds the length exactly when it is below 65536. */
  lemma LengthField(e: Entry, next: nat)
    ensures Value(Head(e, next)[16..18]) == RecLen(e.name) <==> RecLen(e.name) < RECLEN_LIMIT
  {
    hide RecLen;
    HeadFields(Head(e, next), e, next);
    Powers();
    ValueOfBytes(RecLen(e.name) % RECLEN_LIMIT, 2);
  }

  // ----- A series of calls -----

  /** Where a call from a position stops. */
  ghost function StopAt(entries: seq<Entry>, from: nat, count: nat): (end: nat)
    requires from <= |entries|
    ensures Stops(entries, from, end, count)
    ensures from < end <==> from < |entries| && RecLen(entries[from].name) <= count
    decreases |entries| - from
  {
    if from == |entries| || RecLen(entries[from].name) > count then from
    else StopAt(entries, from + 1, count - RecLen(entries[from].name))
  }

  lemma {:induction false} LengthGrows(entries: seq<Entry>, from: nat, a: nat, b: nat)
    requires from <= a < b <= |entries|
    ensures Length(entries, from, a + 1) <= Length(entries, from, b)
    decreases b - a
  {
    if a + 1 < b {
      LengthMore(entries, from, b - 1);
      LengthGrows(entries, from, a, b - 1);
    }
  }

  lemma StopsOnce(entries: seq<Entry>, from: nat, a: nat, b: nat, count: nat)
    requires Stops(entries, from, a, count) && Stops(entries, from, b, count)
    ensures a == b
  {
    if a < b { LengthGrows(entries, from, a, b); }
    if b < a { LengthGrows(entries, from, b, a); }
  }

  /** The position after calls with the given buffer sizes. */
  ghost function PositionAfter(entries: seq<Entry>, pos: nat, counts: seq<nat>): (end: nat)
    requires pos <= |entries|
    ensures pos <= end <= |entries|
    decreases |counts|
  {
    if counts == [] then pos else PositionAfter(entries, StopAt(entries, pos, counts[0]), counts[1..])
  }

  /** Every call has room for the next record. */
  ghost predicate Roomy(entries: seq<Entry>, pos: nat, counts: seq<nat>)
    requires pos <= |entries|
    decreases |counts|
  {
    counts == [] ||
    ((pos < |entries| ==> RecLen(entries[pos].name) <= counts[0]) &&
     Roomy(entries, StopAt(entries, pos, counts[0]), counts[1..]))
  }

  /** Enough calls with room reach the end of the directory. */
  lemma {:induction false} ReachesEnd(entries: seq<Entry>, pos: nat, counts: seq<nat>)
    requires pos <= |entries| && Roomy(entries, pos, counts) && |counts| >= |entries| - pos
    ensures PositionAfter(entries, pos, counts) == |entries|
    decreases |counts|
  {
    hide RecLen;
    if counts != [] {
      ReachesEnd(entries, StopAt(entries, pos, counts[0]), counts[1..]);
    }
  }

  lemma {:induction false} ListingJoin(entries: seq<Entry>, a: nat, b: nat, c: nat)
    requires a <= b <= c <= |entries|
    ensures Listing(entries, a, b) + Listing(entries, b, c) == Listing(entries, a, c)
  {
  }

  /** The directory as a reader sees it: itself, its parent, then the children, each with the position behind it. */
  function Listed(dir: Directory): (r: seq<Record>)
    ensures |r| == |dir.children| + 2
  {
    [Record(dir.self, 1, 4, [46]), Record(dir.parent, 2, 4, [46, 46])]
    + seq(|dir.children|, k requires 0 <= k < |dir.children| =>
        Record(dir.children[k].ino, k + 3, dir.children[k].kind, dir.children[k].name))
  }

  lemma ListingIs(dir: Directory, n: nat)
    requires n <= |Entries(dir)|
    ensures Listing(Entries(dir), 0, n) == Listed(dir)[..n]
  {
    assert forall i | 0 <= i < n :: Listing(Entries(dir), 0, n)[i] == Listed(dir)[i];
  }

  /**
   A whole series of calls on an unchanged directory: what they return, read back and put together, is
   every entry up to the position reached, once and in order; calls that fail change nothing.
   */
  method Session(file: File, dir: Directory, counts: seq<nat>) returns (collected: seq<Record>)
    requires file.pos == 0 && EntriesOk(Entries(dir))
    modifies file
    ensures file.pos == PositionAfter(Entries(dir), 0, counts) && 0 <= file.pos <= |dir.children| + 2
    ensures collected == Listed(dir)[..file.pos]
    ensures Roomy(Entries(dir), 0, counts) && |counts| >= |dir.children| + 2 ==> collected == Listed(dir)
  {
    hide EntriesOk, Roomy, RecLen, Stops, Filled, StopAt, Entries, Listed;
    ghost var entries := Entries(dir);
    collected := [];
    var i := 0;
    while i < |counts|
      invariant i <= |counts| && 0 <= file.pos <= |entries| && collected == Listing(entries, 0, file.pos)
      invariant PositionAfter(entries, file.pos, counts[i..]) == PositionAfter(entries, 0, counts)
    {
      var buf := new Byte[counts[i]];
      ghost var from, b0 := file.pos, buf[..];
      var r := file.Read(dir, true, buf, counts[i]);
      CallStops(entries, from, file.pos, counts[i], r);
      if r >= 0 {
        ReadBack(buf[..], b0, entries, from, file.pos, r, counts[i]);
        ListingJoin(entries, 0, from, file.pos);
        collected := collected + Parse(buf[..][..r]);
      }
      assert counts[i..][1..] == counts[i + 1..];
      i := i + 1;
    }
    if Roomy(entries, 0, counts) && |counts| >= |entries| { ReachesEnd(entries, 0, counts); }
    ListingIs(dir, file.pos);
    assert Listed(dir)[..|entries|] == Listed(dir);
  }

  lemma CallStops(entries: seq<Entry>, from: nat, end: int, count: nat, r: int)
    requires from <= |entries| && (r == -E_INVAL <==> TooSmall(entries, from, count))
    requires (r < 0 ==> r == -E_INVAL && end == from)
    requires r >= 0 ==> Stops(entries, from, end, count)
    ensures end == StopAt(entries, from, count) && from <= end <= |entries|
  {
    hide RecLen;
    if r >= 0 { StopsOnce(entries, from, end, StopAt(entries, from, count), count); }
  }
}
