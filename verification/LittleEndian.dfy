/** Byte strings: little-endian numbers and zero-terminated names. */
module LittleEndian {
  type Byte = x: int | 0 <= x < 256

  const WORD_LIMIT: nat := 0x1_0000_0000_0000_0000

  function Bytes(n: nat, k: nat): (b: seq<Byte>)
    ensures |b| == k
  {
    if k == 0 then [] else [n % 256] + Bytes(n / 256, k - 1)
  }

  function Value(b: seq<Byte>): nat {
    if b == [] then 0 else b[0] + 256 * Value(b[1..])
  }

  /** Four bytes as a number, the byte of weight one first. */
  function Four(a: int, b: int, c: int, d: int): int { a + 0x100 * b + 0x1_0000 * c + 0x100_0000 * d }

  lemma FirstFour(b: seq<Byte>)
    requires |b| >= 4
    ensures Value(b) == Four(b[0], b[1], b[2], b[3]) + 0x1_0000_0000 * Value(b[4..])
  {
    assert b[1..][1..] == b[2..] && b[2..][1..] == b[3..] && b[3..][1..] == b[4..];
    assert Value(b[2..]) == b[2] + 256 * Value(b[3..]) && Value(b[3..]) == b[3] + 256 * Value(b[4..]);
  }

  /** The byte of weight one comes first, in words of eight bytes and in lengths of two. */
  lemma LowestFirst(b: seq<Byte>)
    ensures |b| == 8 ==> Value(b) == Four(b[0], b[1], b[2], b[3]) + 0x1_0000_0000 * Four(b[4], b[5], b[6], b[7])
    ensures |b| == 2 ==> Value(b) == Four(b[0], b[1], 0, 0)
  {
    if |b| == 8 {
      FirstFour(b);
      FirstFour(b[4..]);
    } else if |b| == 2 {
      assert b[1..][1..] == [];
    }
  }

  function Power(k: nat): nat {
    if k == 0 then 1 else 256 * Power(k - 1)
  }

  lemma {:induction false} ValueOfBytes(n: nat, k: nat)
    requires n < Power(k)
    ensures Value(Bytes(n, k)) == n
  {
    if k > 0 {
      ValueOfBytes(n / 256, k - 1);
      assert Bytes(n, k)[1..] == Bytes(n / 256, k - 1);
    }
  }

  lemma Powers()
    ensures Power(2) == 0x1_0000 && Power(8) == WORD_LIMIT
  {
    assert Power(2) == 256 * Power(1) == 256 * 256 * Power(0);
    assert Power(4) == 256 * Power(3) == 256 * 256 * Power(2);
    assert Power(6) == 256 * Power(5) == 256 * 256 * Power(4);
    assert Power(8) == 256 * Power(7) == 256 * 256 * Power(6);
  }

  /** The number of bytes before the first zero. */
  function ZeroAt(b: seq<Byte>): (k: nat)
    ensures k <= |b| && (forall i | 0 <= i < k :: b[i] != 0) && (k < |b| ==> b[k] == 0)
  {
    if b == [] || b[0] == 0 then 0 else 1 + ZeroAt(b[1..])
  }
}
