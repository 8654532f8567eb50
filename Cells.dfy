/**
 * What one listed name looks like on the terminal, version by version.
 * Output is modelled as lines of glyphs: a glyph is either a printed character
 * or one of the colour escape sequences.
 */
module Cells {
  import opened Wrappers
  import opened Names
  import opened Fs
  import opened Classify
  import opened Geometry

  datatype Glyph = Ch(c: char) | Esc(color: Color)

  /** One output line, without the `\n` that ends it. */
  type Line = seq<Glyph>

  function Chars(s: string): (l: Line)
    ensures |l| == |s| && forall i :: 0 <= i < |s| ==> l[i] == Ch(s[i])
  {
    seq(|s|, i requires 0 <= i < |s| => Ch(s[i]))
  }

  /** `n` blanks; none when `n` is not positive. */
  function Blanks(n: int): (b: string)
    ensures |b| == if n <= 0 then 0 else n
    ensures forall i :: 0 <= i < |b| ==> b[i] == ' '
  {
    seq(if n <= 0 then 0 else n, _ => ' ')
  }

  /** `printf("%-*s", width, s)`: `s`, then blanks up to `width` characters. */
  function PadRight(s: string, width: int): Line {
    Chars(s + Blanks(width - |s|))
  }

  /** The characters a terminal shows for a line: the escape sequences take no column. */
  function Shown(l: Line): string {
    if l == [] then ""
    else Shown(l[..|l| - 1]) + (match l[|l| - 1] case Ch(c) => [c] case Esc(_) => "")
  }

  lemma {:induction false} ShownAppend(a: Line, b: Line)
    ensures Shown(a + b) == Shown(a) + Shown(b)
    decreases |b|
  {
    if b != [] {
      ShownAppend(a, b[..|b| - 1]);
      assert (a + b)[..|a + b| - 1] == a + b[..|b| - 1];
      assert (a + b)[|a + b| - 1] == b[|b| - 1];
    } else {
      assert a + b == a;
    }
  }

  lemma {:induction false} ShownChars(s: string)
    ensures Shown(Chars(s)) == s
  {
    if s != [] {
      ShownChars(s[..|s| - 1]);
      assert Chars(s)[..|s| - 1] == Chars(s[..|s| - 1]);
    }
  }

  /** The bytes a line sends to standard output: each character as itself and each
      colour token as its escape sequence. */
  function Emitted(l: Line): string {
    if l == [] then ""
    else Emitted(l[..|l| - 1]) + (match l[|l| - 1] case Ch(c) => [c] case Esc(color) => Escape(color))
  }

  lemma {:induction false} EmittedAppend(a: Line, b: Line)
    ensures Emitted(a + b) == Emitted(a) + Emitted(b)
    decreases |b|
  {
    if b != [] {
      EmittedAppend(a, b[..|b| - 1]);
      assert (a + b)[..|a + b| - 1] == a + b[..|b| - 1];
      assert (a + b)[|a + b| - 1] == b[|b| - 1];
    } else {
      assert a + b == a;
    }
  }

  /** Plain text is sent as itself. */
  lemma {:induction false} EmittedChars(s: string)
    ensures Emitted(Chars(s)) == s
  {
    if s != [] {
      EmittedChars(s[..|s| - 1]);
      assert Chars(s)[..|s| - 1] == Chars(s[..|s| - 1]);
    }
  }

  lemma EmittedEsc(c: Color)
    ensures Emitted([Esc(c)]) == Escape(c)
  {
    assert [Esc(c)][..0] == [];
  }

  /** How a version draws one cell. `dir` is the directory being listed: the colour
      comes from `lstat` of `dir/name`. */
  datatype Style =
    | Plain                          // versions 1.0 and 1.4
    | PaintedV15(dir: seq<Entry>)    // version 1.5
    | PaintedV16(dir: seq<Entry>)    // version 1.6

  /** Version 1.5 `print_colored`: the colour, the name padded to `width`, RESET. */
  function PrintColoredV15(dir: seq<Entry>, name: Name, width: nat): Line {
    [Esc(GetColorV15(LstatAt(dir, name), name))] + PadRight(name, width) + [Esc(Reset)]
  }

  /** Version 1.6 `print_colored`: the name, coloured and reset when a rule matched,
      and always followed by two blanks. */
  function PrintColoredV16(dir: seq<Entry>, name: Name): Line {
    match PaintV16(LstatAt(dir, name), name)
    case None => Chars(name + "  ")
    case Some(c) => [Esc(c)] + Chars(name) + [Esc(Reset)] + Chars("  ")
  }

  /** One cell as the version prints it for a column of `colWidth`. In version 1.6
      the pad loop adds `colWidth - |name|` blanks after `print_colored`'s two. */
  function Cell(style: Style, name: Name, colWidth: nat): Line {
    match style
    case Plain => PadRight(name, colWidth)
    case PaintedV15(dir) => PrintColoredV15(dir, name, colWidth)
    case PaintedV16(dir) => PrintColoredV16(dir, name) + Chars(Blanks(colWidth - |name|))
  }

  /** The columns a cell takes on the screen: `colWidth`, and two more in version 1.6. */
  function CellWidth(style: Style, colWidth: nat): nat {
    if style.PaintedV16? then colWidth + 2 else colWidth
  }

  /** A text between a colour's escape and the reset escape is written between
      their two strings. */
  lemma EmittedPainted(c: Color, body: Line)
    ensures Emitted([Esc(c)] + body + [Esc(Reset)]) == Escape(c) + Emitted(body) + Escape(Reset)
  {
    EmittedAppend([Esc(c)], body);
    EmittedAppend([Esc(c)] + body, [Esc(Reset)]);
    EmittedEsc(c);
    EmittedEsc(Reset);
  }

  /** Version 1.5 `print_colored` writes the colour's escape, the name padded by
      `%-*s` and the reset escape. */
  lemma EmittedColoredV15(dir: seq<Entry>, name: Name, width: nat)
    ensures Emitted(PrintColoredV15(dir, name, width)) ==
      Escape(GetColorV15(LstatAt(dir, name), name)) + name + Blanks(width - |name|) + Escape(Reset)
  {
    EmittedPainted(GetColorV15(LstatAt(dir, name), name), PadRight(name, width));
    EmittedChars(name + Blanks(width - |name|));
  }

  /** Version 1.6 `print_colored` writes the name and two blanks, with the name
      between the colour's escape and the reset escape when a rule matched. */
  lemma EmittedColoredV16(dir: seq<Entry>, name: Name)
    ensures Emitted(PrintColoredV16(dir, name)) ==
      match PaintV16(LstatAt(dir, name), name)
      case None => name + "  "
      case Some(c) => Escape(c) + name + Escape(Reset) + "  "
  {
    match PaintV16(LstatAt(dir, name), name)
    case None =>
      EmittedChars(name + "  ");
    case Some(c) =>
      EmittedPainted(c, Chars(name));
      EmittedAppend([Esc(c)] + Chars(name) + [Esc(Reset)], Chars("  "));
      EmittedChars(name);
      EmittedChars("  ");
  }

  /** Escape sequences around a text show nothing of their own. */
  lemma ShownPainted(c: Color, body: Line)
    ensures Shown([Esc(c)] + body + [Esc(Reset)]) == Shown(body)
  {
    ShownAppend([Esc(c)], body);
    ShownAppend([Esc(c)] + body, [Esc(Reset)]);
    assert Shown([Esc(c)]) == "" by { assert [Esc(c)][..0] == []; }
    assert Shown([Esc(Reset)]) == "" by { assert [Esc(Reset)][..0] == []; }
  }

  /** Every cell shows the name followed by blanks only, up to its cell width. */
  lemma CellShows(style: Style, name: Name, colWidth: nat)
    requires |name| + SPACING <= colWidth
    ensures Shown(Cell(style, name, colWidth)) == name + Blanks(CellWidth(style, colWidth) - |name|)
  {
    match style {
      case Plain => CellShowsPlain(name, colWidth);
      case PaintedV15(dir) => CellShowsV15(dir, name, colWidth);
      case PaintedV16(dir) => CellShowsV16(dir, name, colWidth);
    }
  }

  /** A cell takes exactly its cell width on the screen. */
  lemma CellShownWidth(style: Style, name: Name, colWidth: nat)
    requires |name| + SPACING <= colWidth
    ensures |Shown(Cell(style, name, colWidth))| == CellWidth(style, colWidth)
  {
    CellShows(style, name, colWidth);
  }

  lemma CellShowsPlain(name: Name, colWidth: nat)
    ensures Shown(Cell(Plain, name, colWidth)) == name + Blanks(colWidth - |name|)
  {
    ShownChars(name + Blanks(colWidth - |name|));
  }

  lemma CellShowsV15(dir: seq<Entry>, name: Name, colWidth: nat)
    ensures Shown(Cell(PaintedV15(dir), name, colWidth)) == name + Blanks(colWidth - |name|)
  {
    ShownPainted(GetColorV15(LstatAt(dir, name), name), PadRight(name, colWidth));
    CellShowsPlain(name, colWidth);
  }

  lemma CellShowsV16(dir: seq<Entry>, name: Name, colWidth: nat)
    requires |name| <= colWidth
    ensures Shown(Cell(PaintedV16(dir), name, colWidth)) == name + Blanks(colWidth + 2 - |name|)
  {
    var n := colWidth - |name|;
    assert Cell(PaintedV16(dir), name, colWidth) == PrintColoredV16(dir, name) + Chars(Blanks(n));
    ShownColoredV16(dir, name);
    ShownPadded(PrintColoredV16(dir, name), name, n);
  }

  /** Two blanks from `print_colored`, then `n` from the pad loop: `n + 2` blanks. */
  lemma ShownPadded(p: Line, name: Name, n: nat)
    requires Shown(p) == name + "  "
    ensures Shown(p + Chars(Blanks(n))) == name + Blanks(n + 2)
  {
    ShownAppend(p, Chars(Blanks(n)));
    ShownChars(Blanks(n));
    BlanksPlusTwo(n);
    assert (name + "  ") + Blanks(n) == name + ("  " + Blanks(n));
  }

  /** Version 1.6 `print_colored` shows the name and two blanks. */
  lemma ShownColoredV16(dir: seq<Entry>, name: Name)
    ensures Shown(PrintColoredV16(dir, name)) == name + "  "
  {
    match PaintV16(LstatAt(dir, name), name)
    case None =>
      ShownChars(name + "  ");
    case Some(c) =>
      var painted := [Esc(c)] + Chars(name) + [Esc(Reset)];
      assert PrintColoredV16(dir, name) == painted + Chars("  ");
      ShownAppend(painted, Chars("  "));
      ShownPainted(c, Chars(name));
      ShownChars(name);
      ShownChars("  ");
  }

  lemma BlanksPlusTwo(n: int)
    requires n >= 0
    ensures "  " + Blanks(n) == Blanks(n + 2)
  {
  }
}
