/**
 * The layout engine shared by every version: which name goes on which line, in
 * down-then-across (column-major) order or across (greedy, row-major) order, and
 * the display loops that print those lines cell by cell.
 *
 * A layout is given on indices into the sorted name list: a `seq<seq<int>>` with
 * one inner sequence per printed line.
 */
module Layout {
  import opened Names
  import opened Geometry
  import opened Cells

  /** The indices `lo, lo + 1, ..., hi - 1`; empty when `hi <= lo`. */
  function Range(lo: nat, hi: nat): (r: seq<int>)
    ensures |r| == if hi <= lo then 0 else hi - lo
    ensures forall j :: 0 <= j < |r| ==> r[j] == lo + j
  {
    seq(if hi <= lo then 0 else hi - lo, j => lo + j)
  }

  lemma MulLe(a: nat, b: nat, k: nat)
    requires a <= b
    ensures a * k <= b * k
  {
  }

  /** Quotient and remainder are unique: `a*R + b == c*R + d` with both remainders below `R`. */
  lemma DivModUnique(a: nat, b: nat, c: nat, d: nat, rows: nat)
    requires a * rows + b == c * rows + d
    requires b < rows && d < rows
    ensures a == c && b == d
  {
    if a < c {
      MulLe(a + 1, c, rows);
    } else if c < a {
      MulLe(c + 1, a, rows);
    }
  }

  // ------------------------------------------------------------------
  // Down then across
  // ------------------------------------------------------------------

  /** The indices `col * rows + row` that the inner loop prints for columns
      `0 .. cols - 1` of one row, skipping those at or past `count`. */
  function ColumnMajorRow(count: nat, rows: nat, row: nat, cols: nat): (r: seq<int>)
    ensures |r| <= cols
    ensures forall j :: 0 <= j < |r| ==> 0 <= r[j] < count
  {
    if cols == 0 then []
    else
      var prev := ColumnMajorRow(count, rows, row, cols - 1);
      var index := (cols - 1) * rows + row;
      if index < count then prev + [index] else prev
  }

  /** A row holds the cells of columns `0, 1, ...` in order, and stops short of
      `cols` only where the next index would be past `count`. */
  lemma {:induction false} ColumnMajorRowShape(count: nat, rows: nat, row: nat, cols: nat)
    ensures var r := ColumnMajorRow(count, rows, row, cols);
      (forall j :: 0 <= j < |r| ==> r[j] == j * rows + row) &&
      (|r| < cols ==> |r| * rows + row >= count)
  {
    if cols > 0 {
      ColumnMajorRowShape(count, rows, row, cols - 1);
      var prev := ColumnMajorRow(count, rows, row, cols - 1);
      if (cols - 1) * rows + row < count && |prev| < cols - 1 {
        MulLe(|prev|, cols - 1, rows);
      }
    }
  }

  /** One more column: its index joins the row exactly when it is below `count`. */
  lemma ColumnMajorRowNext(count: nat, rows: nat, row: nat, col: nat)
    ensures var index := col * rows + row;
      ColumnMajorRow(count, rows, row, col + 1)
        == ColumnMajorRow(count, rows, row, col) + (if index < count then [index] else [])
  {
    assert (col + 1) - 1 == col;
  }

  /** The whole down-then-across layout: `NumRows(count, cols)` lines, line `r`
      holding the column-major indices of row `r`. */
  function DownAcrossGrid(count: nat, cols: nat): (g: seq<seq<int>>)
    requires cols >= 1
    ensures |g| == NumRows(count, cols)
    ensures forall r :: 0 <= r < |g| ==> g[r] == ColumnMajorRow(count, |g|, r, cols)
    ensures IndicesBelow(g, count)
  {
    var rows := NumRows(count, cols);
    seq(rows, r requires 0 <= r < rows => ColumnMajorRow(count, rows, r, cols))
  }

  /** Every index below `count` is printed on row `i % rows`, in column `i / rows`. */
  lemma DownAcrossPlacement(count: nat, cols: nat, i: nat)
    requires cols >= 1 && i < count
    ensures var g := DownAcrossGrid(count, cols);
      |g| > 0 &&
      var r, c := i % |g|, i / |g|;
      0 <= r < |g| && c < |g[r]| && g[r][c] == i
  {
    var g := DownAcrossGrid(count, cols);
    RowsOfEmpty(count, cols);
    NumRowsFit(count, cols);
    var r, c := i % |g|, i / |g|;
    DivMod(i, |g|);
    RowPlacement(count, |g|, cols, r, c);
  }

  lemma RowPlacement(count: nat, rows: nat, cols: nat, r: nat, c: nat)
    requires rows * cols >= count && r < rows && c * rows + r < count
    ensures var line := ColumnMajorRow(count, rows, r, cols);
      c < |line| && line[c] == c * rows + r
  {
    var line := ColumnMajorRow(count, rows, r, cols);
    ColumnMajorRowShape(count, rows, r, cols);
    ColumnWithinRow(count, rows, cols, r, c, |line|);
  }

  lemma DivMod(i: nat, rows: nat)
    requires rows > 0
    ensures (i / rows) * rows + i % rows == i && i % rows < rows
  {
  }

  /** Column `c` of a row is printed whenever its index is below `count`. */
  lemma ColumnWithinRow(count: nat, rows: nat, cols: nat, r: nat, c: nat, len: nat)
    requires c * rows + r < count && len <= cols && rows * cols >= count
    requires len < cols ==> len * rows + r >= count
    ensures c < len
  {
    if len <= c {
      if len < cols {
        MulLe(len, c, rows);
      } else {
        MulLe(cols, c, rows);
      }
    }
  }

  /** No index is printed twice: two positions holding the same index are the same position. */
  lemma DownAcrossOnce(count: nat, cols: nat, r1: nat, j1: nat, r2: nat, j2: nat)
    requires cols >= 1
    requires var g := DownAcrossGrid(count, cols);
      r1 < |g| && j1 < |g[r1]| && r2 < |g| && j2 < |g[r2]| && g[r1][j1] == g[r2][j2]
    ensures r1 == r2 && j1 == j2
  {
    var g := DownAcrossGrid(count, cols);
    ColumnMajorRowShape(count, |g|, r1, cols);
    ColumnMajorRowShape(count, |g|, r2, cols);
    DivModUnique(j1, r1, j2, r2, |g|);
  }

  /** Only indices below `count` are printed, at most `cols` per line; no names, no lines. */
  lemma DownAcrossBounds(count: nat, cols: nat)
    requires cols >= 1
    ensures var g := DownAcrossGrid(count, cols);
      (count == 0 <==> g == []) &&
      forall r :: 0 <= r < |g| ==> |g[r]| <= cols && forall j :: 0 <= j < |g[r]| ==> g[r][j] < count
  {
    RowsOfEmpty(count, cols);
  }

  // ------------------------------------------------------------------
  // Across
  // ------------------------------------------------------------------

  /** The lines of across mode: names in order, each line filled up to `NumCols`
      names before the next one starts, and every name on a line of its own, after
      a leading empty line, when not even one column fits. Without names there is
      a single empty line. */
  function AcrossLines(n: nat, colWidth: nat, termWidth: nat): (lines: seq<seq<int>>)
    requires colWidth > 0
    ensures |lines| >= 1
    ensures IndicesBelow(lines, n)
    ensures forall j :: 0 <= j < |lines| ==> |lines[j]| <= NumCols(termWidth, colWidth)
    ensures n > 0 ==> lines[|lines| - 1] != []
  {
    if n == 0 then [[]]
    else
      var prev := AcrossLines(n - 1, colWidth, termWidth);
      var last := prev[|prev| - 1];
      if colWidth > termWidth || |last| == NumCols(termWidth, colWidth) then prev + [[n - 1]]
      else prev[..|prev| - 1] + [last + [n - 1]]
  }

  /** The break test of the across loop: with `m` names already on the current line,
      `m * colWidth + colWidth > termWidth` holds exactly when the line is full, or
      when not even one column fits. */
  lemma BreakWhenFull(m: nat, colWidth: nat, termWidth: nat)
    requires colWidth > 0 && m <= NumCols(termWidth, colWidth)
    ensures m * colWidth + colWidth > termWidth <==> (colWidth > termWidth || m == NumCols(termWidth, colWidth))
  {
    var k := NumCols(termWidth, colWidth);
    NumColsFit(termWidth, colWidth);
    if m < k {
      MulLe(m + 1, k, colWidth);
    }
  }

  /** All layout lines laid end to end. */
  function Flatten(lines: seq<seq<int>>): seq<int> {
    if lines == [] then [] else Flatten(lines[..|lines| - 1]) + lines[|lines| - 1]
  }

  lemma FlattenSnoc(lines: seq<seq<int>>, last: seq<int>)
    ensures Flatten(lines + [last]) == Flatten(lines) + last
  {
    assert (lines + [last])[..|lines|] == lines;
  }

  lemma RangeSnoc(lo: nat, hi: nat)
    requires lo <= hi
    ensures Range(lo, hi) + [hi] == Range(lo, hi + 1)
  {
  }

  /** Across mode prints every index below `n` exactly once, in sorted order. */
  lemma {:induction false} AcrossInOrder(n: nat, colWidth: nat, termWidth: nat)
    requires colWidth > 0
    ensures Flatten(AcrossLines(n, colWidth, termWidth)) == Range(0, n)
  {
    if n == 0 {
      FlattenSnoc([], []);
    } else {
      AcrossInOrder(n - 1, colWidth, termWidth);
      var prev := AcrossLines(n - 1, colWidth, termWidth);
      var q := |prev|;
      var last := prev[q - 1];
      var lines := AcrossLines(n, colWidth, termWidth);
      assert Flatten(lines) == Flatten(prev) + [n - 1] by {
        if colWidth > termWidth || |last| == NumCols(termWidth, colWidth) {
          assert lines == prev + [[n - 1]];
          FlattenSnoc(prev, [n - 1]);
        } else {
          assert lines == prev[..q - 1] + [last + [n - 1]];
          assert prev == prev[..q - 1] + [last];
          FlattenSnoc(prev[..q - 1], last);
          FlattenSnoc(prev[..q - 1], last + [n - 1]);
        }
      }
      RangeSnoc(0, n - 1);
    }
  }

  /** Every across line but the last holds exactly `NumCols` names, except the
      leading empty line, which is there exactly when the column is wider than the
      terminal. */
  lemma {:induction false} AcrossFull(n: nat, colWidth: nat, termWidth: nat)
    requires colWidth > 0
    ensures var lines := AcrossLines(n, colWidth, termWidth);
      (forall j :: 0 < j < |lines| - 1 ==> |lines[j]| == NumCols(termWidth, colWidth)) &&
      (n > 0 ==> (lines[0] == [] <==> colWidth > termWidth)) &&
      (|lines| > 1 && lines[0] != [] ==> |lines[0]| == NumCols(termWidth, colWidth))
  {
    if n > 0 {
      AcrossFull(n - 1, colWidth, termWidth);
    }
  }

  // ------------------------------------------------------------------
  // Rendering a layout
  // ------------------------------------------------------------------

  predicate IndicesBelow(lines: seq<seq<int>>, n: nat) {
    forall r, j :: 0 <= r < |lines| && 0 <= j < |lines[r]| ==> 0 <= lines[r][j] < n
  }

  /** The cell each name is printed as, in name order. */
  function CellsOf(names: seq<Name>, style: Style, colWidth: nat): (cells: seq<Line>)
    ensures |cells| == |names|
  {
    seq(|names|, i requires 0 <= i < |names| => Cell(style, names[i], colWidth))
  }

  /** Every cell of a name list takes the same width on the screen. */
  lemma CellsShownWidth(names: seq<Name>, style: Style, colWidth: nat)
    requires forall i :: 0 <= i < |names| ==> |names[i]| + SPACING <= colWidth
    ensures var cells := CellsOf(names, style, colWidth);
      forall i :: 0 <= i < |cells| ==> |Shown(cells[i])| == CellWidth(style, colWidth)
  {
    forall i | 0 <= i < |names|
      ensures |Shown(CellsOf(names, style, colWidth)[i])| == CellWidth(style, colWidth)
    {
      CellShownWidth(style, names[i], colWidth);
    }
  }

  /** The cells of one line, left to right. */
  function RenderRow(row: seq<int>, cells: seq<Line>): Line
    requires forall j :: 0 <= j < |row| ==> 0 <= row[j] < |cells|
  {
    if row == [] then []
    else RenderRow(row[..|row| - 1], cells) + cells[row[|row| - 1]]
  }

  lemma RenderRowSnoc(row: seq<int>, i: int, cells: seq<Line>)
    requires forall j :: 0 <= j < |row| ==> 0 <= row[j] < |cells|
    requires 0 <= i < |cells|
    ensures RenderRow(row + [i], cells) == RenderRow(row, cells) + cells[i]
  {
    assert (row + [i])[..|row|] == row;
  }

  /** A layout rendered line by line. */
  function Render(lines: seq<seq<int>>, cells: seq<Line>): (out: seq<Line>)
    requires IndicesBelow(lines, |cells|)
    ensures |out| == |lines|
    ensures forall r :: 0 <= r < |lines| ==> out[r] == RenderRow(lines[r], cells)
  {
    if lines == [] then []
    else
      var prefix := lines[..|lines| - 1];
      assert forall r :: 0 <= r < |prefix| ==> prefix[r] == lines[r];
      Render(prefix, cells) + [RenderRow(lines[|lines| - 1], cells)]
  }

  /** Rendering a layout with one more line, holding only index `i`. */
  lemma RenderNewLine(lines: seq<seq<int>>, i: int, cells: seq<Line>)
    requires IndicesBelow(lines, |cells|) && 0 <= i < |cells|
    ensures IndicesBelow(lines + [[i]], |cells|)
    ensures Render(lines + [[i]], cells) == Render(lines, cells) + [cells[i]]
  {
    assert (lines + [[i]])[..|lines|] == lines;
    assert RenderRow([i], cells) == cells[i] by {
      RenderRowSnoc([], i, cells);
      assert [] + [i] == [i];
      assert RenderRow([], cells) + cells[i] == cells[i];
    }
  }

  /** Rendering a layout whose last line gains index `i`. */
  lemma RenderExtendLast(lines: seq<seq<int>>, i: int, cells: seq<Line>)
    requires IndicesBelow(lines, |cells|) && 0 <= i < |cells| && lines != []
    ensures var q := |lines|;
      IndicesBelow(lines[..q - 1] + [lines[q - 1] + [i]], |cells|) &&
      var out := Render(lines, cells);
      Render(lines[..q - 1] + [lines[q - 1] + [i]], cells) == out[..q - 1] + [out[q - 1] + cells[i]]
  {
    var q := |lines|;
    var prefix := lines[..q - 1];
    var longer := prefix + [lines[q - 1] + [i]];
    forall r, j | 0 <= r < |longer| && 0 <= j < |longer[r]|
      ensures 0 <= longer[r][j] < |cells|
    {
      if r < q - 1 {
        assert longer[r] == lines[r];
      } else {
        assert longer[r] == lines[q - 1] + [i];
      }
    }
    assert IndicesBelow(longer, |cells|);
    assert longer[..q - 1] == prefix;
    RenderRowSnoc(lines[q - 1], i, cells);
    var out := Render(lines, cells);
    assert out[..q - 1] == Render(prefix, cells);
  }

  /** A line of `k` cells, each `w` columns wide, takes `k * w` columns. */
  lemma {:induction false} RowShownWidth(row: seq<int>, cells: seq<Line>, w: nat)
    requires forall j :: 0 <= j < |row| ==> 0 <= row[j] < |cells|
    requires forall i :: 0 <= i < |cells| ==> |Shown(cells[i])| == w
    ensures |Shown(RenderRow(row, cells))| == |row| * w
  {
    if row != [] {
      var prefix := row[..|row| - 1];
      var a := RenderRow(prefix, cells);
      var c := cells[row[|row| - 1]];
      assert RenderRow(row, cells) == a + c;
      RowShownWidth(prefix, cells, w);
      ShownAppend(a, c);
      MulSucc(|prefix|, w);
    }
  }

  lemma MulSucc(n: nat, w: nat)
    ensures n * w + w == (n + 1) * w
  {
  }

  /** Each down-then-across line with `k` names takes `k` cell widths: `k * col_width`
      columns, and in version 1.6 `k * (col_width + 2)`. */
  lemma DownAcrossShownWidth(names: seq<Name>, style: Style, termWidth: nat)
    ensures var cw := ColWidth(names);
      var g := DownAcrossGrid(|names|, NumCols(termWidth, cw));
      var out := Render(g, CellsOf(names, style, cw));
      forall r :: 0 <= r < |out| ==> |Shown(out[r])| == |g[r]| * CellWidth(style, cw)
  {
    var cw := ColWidth(names);
    var cells := CellsOf(names, style, cw);
    var g := DownAcrossGrid(|names|, NumCols(termWidth, cw));
    CellsShownWidth(names, style, cw);
    forall r | 0 <= r < |g|
      ensures |Shown(Render(g, cells)[r])| == |g[r]| * CellWidth(style, cw)
    {
      RowShownWidth(g[r], cells, CellWidth(style, cw));
    }
  }

  /** Without the version 1.6 extra blanks, every down-then-across line fits the
      terminal once the longest name does. */
  lemma UnpaddedRowsFit(names: seq<Name>, style: Style, termWidth: nat)
    requires !style.PaintedV16?
    requires ColWidth(names) <= termWidth
    ensures var cw := ColWidth(names);
      var out := Render(DownAcrossGrid(|names|, NumCols(termWidth, cw)), CellsOf(names, style, cw));
      forall r :: 0 <= r < |out| ==> |Shown(out[r])| <= termWidth
  {
    var cw := ColWidth(names);
    var k := NumCols(termWidth, cw);
    var g := DownAcrossGrid(|names|, k);
    DownAcrossShownWidth(names, style, termWidth);
    NumColsFit(termWidth, cw);
    forall r | 0 <= r < |g|
      ensures |g[r]| * cw <= termWidth
    {
      MulLe(|g[r]|, k, cw);
    }
  }

  // ------------------------------------------------------------------
  // The display loops
  // ------------------------------------------------------------------

  /** Prints one cell onto the current line. In version 1.6 this is `print_colored`
      followed by the loop that prints `col_width - strlen(name)` blanks. */
  method EmitCell(line: Line, style: Style, name: Name, colWidth: nat) returns (out: Line)
    ensures out == line + Cell(style, name, colWidth)
  {
    match style {
      case Plain =>
        out := line + PadRight(name, colWidth);
      case PaintedV15(dir) =>
        out := line + PrintColoredV15(dir, name, colWidth);
      case PaintedV16(dir) =>
        var colored := line + PrintColoredV16(dir, name);
        var pad := colWidth - |name|;
        out := colored;
        var p := 0;
        while p < pad
          invariant 0 <= p && (pad <= 0 ==> p == 0) && (pad > 0 ==> p <= pad)
          invariant out == colored + Chars(Blanks(p))
        {
          out := out + [Ch(' ')];
          p := p + 1;
          assert Blanks(p) == Blanks(p - 1) + " ";
        }
    }
  }

  /** `print_down_then_across` (`print_in_columns` in version 1.0): rows outer,
      columns inner, index `col * num_rows + row`, one line per row. */
  method PrintDownThenAcross(names: seq<Name>, style: Style, termWidth: nat) returns (lines: seq<Line>)
    ensures var cw := ColWidth(names);
      lines == Render(DownAcrossGrid(|names|, NumCols(termWidth, cw)), CellsOf(names, style, cw))
  {
    var colWidth, numCols, numRows := GridGeometry(names, termWidth);
    ghost var g := DownAcrossGrid(|names|, numCols);
    ghost var cells := CellsOf(names, style, colWidth);
    lines := [];
    for row := 0 to numRows
      invariant |lines| == row
      invariant forall r :: 0 <= r < row ==> lines[r] == RenderRow(g[r], cells)
    {
      var line := PrintRow(names, style, colWidth, numRows, numCols, row);
      lines := lines + [line];
    }
    assert lines == Render(g, cells);
  }

  /** The head of `print_down_then_across`: `col_width`, `num_cols` and `num_rows`. */
  method GridGeometry(names: seq<Name>, termWidth: nat) returns (colWidth: nat, numCols: nat, numRows: nat)
    ensures colWidth == ColWidth(names) && numCols == NumCols(termWidth, colWidth)
    ensures numRows == NumRows(|names|, numCols)
  {
    var maxLen := LongestName(names);
    colWidth := maxLen + SPACING;
    var cols: int := termWidth / colWidth;
    if cols < 1 {
      cols := 1;
    }
    numCols := cols;
    numRows := (|names| + numCols - 1) / numCols;
  }

  /** The inner loop of `print_down_then_across`: the cells of one row, column by column. */
  method PrintRow(names: seq<Name>, style: Style, colWidth: nat, numRows: nat, numCols: nat, row: nat)
    returns (line: Line)
    ensures line == RenderRow(ColumnMajorRow(|names|, numRows, row, numCols), CellsOf(names, style, colWidth))
  {
    line := [];
    for col := 0 to numCols
      invariant line == RenderRow(ColumnMajorRow(|names|, numRows, row, col), CellsOf(names, style, colWidth))
    {
      var index := col * numRows + row;
      RowStep(names, style, colWidth, numRows, row, col);
      if index < |names| {
        line := EmitCell(line, style, names[index], colWidth);
      }
    }
  }

  /** One turn of the inner loop: column `col` adds its cell exactly when its index
      is below the number of names. */
  lemma RowStep(names: seq<Name>, style: Style, colWidth: nat, numRows: nat, row: nat, col: nat)
    ensures var index := col * numRows + row;
      var cells := CellsOf(names, style, colWidth);
      RenderRow(ColumnMajorRow(|names|, numRows, row, col + 1), cells) ==
        RenderRow(ColumnMajorRow(|names|, numRows, row, col), cells) +
        if index < |names| then Cell(style, names[index], colWidth) else []
  {
    var index := col * numRows + row;
    var cells := CellsOf(names, style, colWidth);
    var before := ColumnMajorRow(|names|, numRows, row, col);
    ColumnMajorRowNext(|names|, numRows, row, col);
    if index < |names| {
      RenderRowSnoc(before, index, cells);
      assert cells[index] == Cell(style, names[index], colWidth);
    } else {
      assert before + [] == before;
      assert RenderRow(before, cells) + [] == RenderRow(before, cells);
    }
  }

  /** What the across loop knows after `i` names: the lines so far, the open line
      last, render the first `i` names' layout, and `current_width` counts the open
      line's names at `col_width` each. */
  ghost predicate AcrossSoFar(i: nat, colWidth: nat, termWidth: nat, cells: seq<Line>,
                              lines: seq<Line>, line: Line, currentWidth: int)
    requires colWidth > 0 && i <= |cells|
  {
    var a := AcrossLines(i, colWidth, termWidth);
    lines + [line] == Render(a, cells) && currentWidth == |a[|a| - 1]| * colWidth
  }

  /** One turn of the across loop keeps `AcrossSoFar`, on both sides of the break test. */
  lemma AcrossAdvance(i: nat, colWidth: nat, termWidth: nat, cells: seq<Line>,
                      lines: seq<Line>, line: Line, currentWidth: int)
    requires colWidth > 0 && i < |cells|
    requires AcrossSoFar(i, colWidth, termWidth, cells, lines, line, currentWidth)
    ensures currentWidth + colWidth > termWidth ==>
      AcrossSoFar(i + 1, colWidth, termWidth, cells, lines + [line], cells[i], colWidth)
    ensures currentWidth + colWidth <= termWidth ==>
      AcrossSoFar(i + 1, colWidth, termWidth, cells, lines, line + cells[i], currentWidth + colWidth)
  {
    var a := AcrossLines(i, colWidth, termWidth);
    var m := |a[|a| - 1]|;
    BreakWhenFull(m, colWidth, termWidth);
    if currentWidth + colWidth > termWidth {
      assert AcrossLines(i + 1, colWidth, termWidth) == a + [[i]];
      RenderNewLine(a, i, cells);
    } else {
      assert AcrossLines(i + 1, colWidth, termWidth) == a[..|a| - 1] + [a[|a| - 1] + [i]];
      RenderExtendLast(a, i, cells);
      MulSucc(m, colWidth);
    }
  }

  /** Before the first name: no line printed yet, an empty open line, width 0. */
  lemma AcrossStart(colWidth: nat, termWidth: nat, cells: seq<Line>)
    requires colWidth > 0
    ensures AcrossSoFar(0, colWidth, termWidth, cells, [], [], 0)
  {
    var a := AcrossLines(0, colWidth, termWidth);
    assert a == [[]];
    assert Render(a, cells)[0] == RenderRow([], cells);
  }

  /** `print_across`: names in order; before a name, a line break when
      `current_width + col_width > term_width`, which resets `current_width`;
      a final line break after the last name. */
  method PrintAcross(names: seq<Name>, style: Style, termWidth: nat) returns (lines: seq<Line>)
    ensures var cw := ColWidth(names);
      lines == Render(AcrossLines(|names|, cw, termWidth), CellsOf(names, style, cw))
  {
    var maxLen := LongestName(names);
    var colWidth := maxLen + SPACING;
    assert colWidth == ColWidth(names);
    var line;
    lines, line := AcrossLoop(names, style, colWidth, termWidth);
    lines := lines + [line];
  }

  /** The loop of `print_across` over the names, before its final line break: the
      lines printed and the open line. */
  method AcrossLoop(names: seq<Name>, style: Style, colWidth: nat, termWidth: nat) returns (lines: seq<Line>, line: Line)
    requires colWidth > 0
    ensures lines + [line] == Render(AcrossLines(|names|, colWidth, termWidth), CellsOf(names, style, colWidth))
  {
    var currentWidth := 0;
    lines := [];
    line := [];
    AcrossStart(colWidth, termWidth, CellsOf(names, style, colWidth));
    for i := 0 to |names|
      invariant AcrossSoFar(i, colWidth, termWidth, CellsOf(names, style, colWidth), lines, line, currentWidth)
    {
      lines, line, currentWidth := PlaceAcross(names, style, colWidth, termWidth, i, lines, line, currentWidth);
    }
  }

  /** The body of the `print_across` loop: the break test, then the cell of name `i`. */
  method PlaceAcross(names: seq<Name>, style: Style, colWidth: nat, termWidth: nat, i: nat,
                     lines: seq<Line>, line: Line, currentWidth: int)
    returns (lines': seq<Line>, line': Line, currentWidth': int)
    requires colWidth > 0 && i < |names|
    requires AcrossSoFar(i, colWidth, termWidth, CellsOf(names, style, colWidth), lines, line, currentWidth)
    ensures AcrossSoFar(i + 1, colWidth, termWidth, CellsOf(names, style, colWidth), lines', line', currentWidth')
  {
    ghost var cells := CellsOf(names, style, colWidth);
    AcrossAdvance(i, colWidth, termWidth, cells, lines, line, currentWidth);
    lines', line', currentWidth' := lines, line, currentWidth;
    if currentWidth' + colWidth > termWidth {
      lines' := lines' + [line'];
      line' := [];
      currentWidth' := 0;
    }
    line' := EmitCell(line', style, names[i], colWidth);
    currentWidth' := currentWidth' + colWidth;
  }
}
