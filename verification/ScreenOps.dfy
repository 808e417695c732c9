/** Plain screens: a row-major sequence of cells, and what editing does to it. */
module ScreenOps {
  import opened Cells

  function SetAt(s: seq<Cell>, i: nat, c: Cell): (r: seq<Cell>)
    ensures |r| == |s|
  {
    if i < |s| then s[i := c] else s
  }

  /** The cell at i copied to j. */
  function CopyCell(s: seq<Cell>, i: nat, j: nat): (r: seq<Cell>)
    ensures |r| == |s|
  {
    if i < |s| then SetAt(s, j, s[i]) else s
  }

  /** Positions lo .. hi move k places towards lo; the places vacated at hi become blank. */
  function ShiftLeft(s: seq<Cell>, lo: nat, hi: nat, k: nat, blank: Cell): (r: seq<Cell>)
    requires hi <= |s|
    ensures |r| == |s|
  {
    seq(|s|, j requires 0 <= j < |s| && hi <= |s| =>
      if lo <= j < hi then (if j + k < hi then s[j + k] else blank) else s[j])
  }

  /** Positions lo .. hi move k places towards hi; the places vacated at lo become blank. */
  function ShiftRight(s: seq<Cell>, lo: nat, hi: nat, k: nat, blank: Cell): (r: seq<Cell>)
    requires hi <= |s|
    ensures |r| == |s|
  {
    seq(|s|, j requires 0 <= j < |s| && hi <= |s| =>
      if lo <= j < hi then (if lo + k <= j then s[j - k] else blank) else s[j])
  }

  /** Positions lo .. hi become blank. */
  function Fill(s: seq<Cell>, lo: nat, hi: nat, blank: Cell): (r: seq<Cell>)
    ensures |r| == |s|
  {
    seq(|s|, j requires 0 <= j < |s| => if lo <= j < hi then blank else s[j])
  }

  /** Positions lo .. hi move k places towards hi; the first k keep their cells. */
  function OpenGap(s: seq<Cell>, lo: nat, hi: nat, k: nat): (r: seq<Cell>)
    requires hi <= |s|
    ensures |r| == |s|
  {
    seq(|s|, j requires 0 <= j < |s| && hi <= |s| => if lo + k <= j < hi then s[j - k] else s[j])
  }

  /** A gap that is then blanked is a shift. */
  lemma GapThenFill(s: seq<Cell>, lo: nat, hi: nat, k: nat, blank: Cell)
    requires lo + k <= hi <= |s|
    ensures Fill(OpenGap(s, lo, hi, k), lo, lo + k, blank) == ShiftRight(s, lo, hi, k, blank)
  {
  }

  /** Shifting twice is shifting by the sum. */
  lemma ShiftLeftTwice(s: seq<Cell>, lo: nat, hi: nat, k: nat, m: nat, blank: Cell)
    requires hi <= |s|
    ensures ShiftLeft(ShiftLeft(s, lo, hi, k, blank), lo, hi, m, blank) == ShiftLeft(s, lo, hi, k + m, blank)
  {
  }

  lemma ShiftRightTwice(s: seq<Cell>, lo: nat, hi: nat, k: nat, m: nat, blank: Cell)
    requires hi <= |s|
    ensures ShiftRight(ShiftRight(s, lo, hi, k, blank), lo, hi, m, blank) == ShiftRight(s, lo, hi, k + m, blank)
  {
  }

  lemma ShiftLeftByNone(s: seq<Cell>, lo: nat, hi: nat, blank: Cell)
    requires hi <= |s|
    ensures ShiftLeft(s, lo, hi, 0, blank) == s
  {
  }

  lemma ShiftRightByNone(s: seq<Cell>, lo: nat, hi: nat, blank: Cell)
    requires hi <= |s|
    ensures ShiftRight(s, lo, hi, 0, blank) == s
  {
  }

  /** What was pushed off one end does not come back: shifting there and back blanks the vacated end. */
  lemma ShiftThereAndBack(s: seq<Cell>, lo: nat, hi: nat, k: nat, blank: Cell)
    requires lo + k <= hi <= |s|
    ensures ShiftLeft(ShiftRight(s, lo, hi, k, blank), lo, hi, k, blank) == Fill(s, hi - k, hi, blank)
    ensures ShiftRight(ShiftLeft(s, lo, hi, k, blank), lo, hi, k, blank) == Fill(s, lo, lo + k, blank)
  {
  }

  lemma RowBounds(y: nat, rows: nat, cols: nat)
    requires y < rows
    ensures y * cols + cols == (y + 1) * cols <= rows * cols
  {
  }

  lemma RowOrder(y: nat, y': nat, cols: nat)
    requires y <= y'
    ensures y * cols <= y' * cols
  {
  }

  lemma SplitPosition(i: nat, cols: nat, rows: nat)
    requires cols > 0 && i < rows * cols
    ensures i % cols < cols && i / cols < rows && (i / cols) * cols + i % cols == i
  {
    var q := i / cols;
    assert q >= rows ==> q * cols >= rows * cols;
  }

  /** Where a glyph lands that is printed with the cursor at (x, y), and whether the region scrolls first. */
  function Landing(x: nat, y: nat, cols: nat, rows: nat, bottom: nat, wrap: bool, scroll: bool): (l: (nat, nat, bool))
    requires cols > 0 && rows > 0 && bottom > 0
  {
    if x < cols then (x, y, false)
    else if wrap && (y < bottom - 1 || scroll) then
      if y + 1 == bottom then (0, y, true) else (0, if y + 1 >= rows then rows - 1 else y + 1, false)
    else (cols - 1, y, false)
  }

  /** A coordinate as reported: past the last index counts as the last one. */
  function Reported(v: nat, n: nat): nat
    requires n > 0
  {
    if v >= n then n - 1 else v
  }
}
