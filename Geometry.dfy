/**
 * Column geometry shared by every display mode: the column width fitted to the
 * longest name, the number of columns that fit the terminal (never fewer than
 * one) and the number of rows a column-major grid needs.
 */
module Geometry {
  import opened Wrappers
  import opened Names

  /** Blanks that separate two columns. */
  const SPACING: nat := 2

  /** Width assumed when the terminal cannot be asked. */
  const FALLBACK_WIDTH: nat := 80

  /** `get_terminal_width`: the `ws_col` that `ioctl(TIOCGWINSZ)` reports, or 80 when it fails. */
  function TerminalWidth(wsCol: Option<nat>): (w: nat)
    ensures wsCol.Some? ==> w == wsCol.value
    ensures wsCol.None? ==> w == FALLBACK_WIDTH
  {
    match wsCol
    case Some(cols) => cols
    case None => FALLBACK_WIDTH
  }

  /** The length of the longest name, 0 for an empty list. */
  function MaxLen(names: seq<Name>): (m: nat)
    ensures forall i :: 0 <= i < |names| ==> |names[i]| <= m
    ensures names == [] ==> m == 0
    ensures names != [] ==> exists i :: 0 <= i < |names| && |names[i]| == m
  {
    if names == [] then 0
    else
      var m0 := MaxLen(names[..|names| - 1]);
      var last := |names[|names| - 1]|;
      if last > m0 then last else m0
  }

  /** The `max_len` loop at the top of every display function. */
  method LongestName(names: seq<Name>) returns (maxLen: nat)
    ensures maxLen == MaxLen(names)
  {
    maxLen := 0;
    for i := 0 to |names|
      invariant maxLen == MaxLen(names[..i])
    {
      assert names[..i + 1][..i] == names[..i];
      if |names[i]| > maxLen {
        maxLen := |names[i]|;
      }
    }
    assert names[..|names|] == names;
  }

  /** `col_width = max_len + SPACING`: every name fits with at least SPACING blanks
      after it, and the longest one with exactly SPACING. */
  function ColWidth(names: seq<Name>): (w: nat)
    ensures w >= SPACING
    ensures forall i :: 0 <= i < |names| ==> |names[i]| + SPACING <= w
    ensures names != [] ==> exists i :: 0 <= i < |names| && |names[i]| + SPACING == w
  {
    MaxLen(names) + SPACING
  }

  /** `num_cols = term_width / col_width`, raised to 1. */
  function NumCols(termWidth: nat, colWidth: nat): (c: nat)
    requires colWidth > 0
    ensures c >= 1
  {
    var q := termWidth / colWidth;
    if q < 1 then 1 else q
  }

  /** The most columns of `colWidth` that fit, and one column when not even one fits. */
  lemma NumColsFit(termWidth: nat, colWidth: nat)
    requires colWidth > 0
    ensures var c := NumCols(termWidth, colWidth);
      (c == 1 || c * colWidth <= termWidth) && (c + 1) * colWidth > termWidth
  {
    DivBounds(termWidth, colWidth);
  }

  lemma DivBounds(n: nat, d: nat)
    requires d > 0
    ensures (n / d) * d <= n < (n / d + 1) * d
  {
  }

  /** `num_rows = (count + num_cols - 1) / num_cols`. */
  function NumRows(count: nat, numCols: nat): nat
    requires numCols >= 1
  {
    (count + numCols - 1) / numCols
  }

  /** The fewest rows of `numCols` cells that hold `count` names. */
  lemma NumRowsFit(count: nat, numCols: nat)
    requires numCols >= 1
    ensures var r := NumRows(count, numCols);
      r * numCols >= count && (r == 0 || (r - 1) * numCols < count)
  {
    DivBounds(count + numCols - 1, numCols);
  }

  /** Without names there are no rows; with names there is at least one. */
  lemma RowsOfEmpty(count: nat, numCols: nat)
    requires numCols >= 1
    ensures NumRows(count, numCols) == 0 <==> count == 0
  {
    NumRowsFit(count, numCols);
  }
}
