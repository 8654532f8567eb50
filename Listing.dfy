/**
 * Listing one directory (`list_directory` in versions 1.0 to 1.5, `do_ls` in
 * version 1.6): collect the visible names, sort them, print them in the chosen
 * display mode and, in version 1.6 with `-R`, descend into the subdirectories.
 *
 * The file system is a finite tree of `Node`s; `opens` says whether `opendir`
 * succeeds on it. Output goes to standard output as a sequence of lines; the
 * `perror` message of a failed `opendir` goes to standard error and is not part
 * of that sequence.
 */
module Listing {
  import opened Wrappers
  import opened Names
  import opened Fs
  import opened Geometry
  import opened Sorting
  import opened Cells
  import opened Layout

  /** `MODE_DEFAULT` (down then across) or `MODE_HORIZONTAL` (`-x`, across). */
  datatype DisplayMode = Default | Horizontal

  /** The names a listing of `node` shows: its visible names in `strcmp` order. */
  function Listed(node: Node): seq<Name> {
    SortSpec(Visible(NamesOf(node.entries)))
  }

  /** The listed names are sorted, none of them starts with `.`, and each visible
      name of the directory is listed exactly as often as the directory holds it. */
  lemma ListedSpec(node: Node)
    ensures var names := Listed(node);
      IsSorted(names) &&
      (forall i :: 0 <= i < |names| ==> !IsHidden(names[i])) &&
      forall n :: multiset(names)[n] == if IsHidden(n) then 0 else multiset(NamesOf(node.entries))[n]
  {
    var names := Listed(node);
    VisibleCounts(NamesOf(node.entries));
    forall i | 0 <= i < |names|
      ensures !IsHidden(names[i])
    {
      assert names[i] in multiset(names);
    }
  }

  /** What a display function prints for `names`: across for `MODE_HORIZONTAL`,
      down then across otherwise. */
  function Show(mode: DisplayMode, names: seq<Name>, style: Style, termWidth: nat): seq<Line> {
    var cw := ColWidth(names);
    var cells := CellsOf(names, style, cw);
    if mode == Horizontal then Render(AcrossLines(|names|, cw, termWidth), cells)
    else Render(DownAcrossGrid(|names|, NumCols(termWidth, cw)), cells)
  }

  /** With no names to show, down then across prints no line at all and across
      prints a single empty line. */
  lemma ShowNothing(style: Style, termWidth: nat)
    ensures Show(Default, [], style, termWidth) == []
    ensures Show(Horizontal, [], style, termWidth) == [[]]
  {
    var cw := ColWidth([]);
    var cells := CellsOf([], style, cw);
    DownAcrossBounds(0, NumCols(termWidth, cw));
    assert Render([], cells) == [];
    var lines: seq<seq<int>> := [[]];
    assert AcrossLines(0, cw, termWidth) == lines;
    assert lines[..0] == [];
    assert RenderRow([], cells) == [];
    assert Render(lines, cells) == Render([], cells) + [RenderRow([], cells)];
  }

  /** The mode dispatch after the sort. Each display function asks the terminal for
      its width; `wsCol` is what `ioctl(TIOCGWINSZ)` reports (None when it fails). */
  method Display(mode: DisplayMode, names: seq<Name>, style: Style, wsCol: Option<nat>) returns (lines: seq<Line>)
    ensures lines == Show(mode, names, style, TerminalWidth(wsCol))
  {
    var termWidth := TerminalWidth(wsCol);
    if mode == Horizontal {
      lines := PrintAcross(names, style, termWidth);
    } else {
      lines := PrintDownThenAcross(names, style, termWidth);
    }
  }

  /** The `readdir` loop into a growing array, then `qsort` on it. */
  method SortedNames(node: Node) returns (names: seq<Name>)
    ensures names == Listed(node)
  {
    var collected := CollectVisible(node.entries);
    var filenames := new Name[|collected|](i requires 0 <= i < |collected| => collected[i]);
    assert filenames[..] == collected;
    QSort(filenames);
    names := filenames[..];
  }

  /** What `list_directory` prints: nothing when the directory does not open,
      otherwise its listed names in the display mode. */
  function DirectoryListing(node: Node, mode: DisplayMode, style: Style, termWidth: nat): seq<Line> {
    if !node.opens then [] else Show(mode, Listed(node), style, termWidth)
  }

  /** Version 1.0 `list_directory`: always down then across, no colour. */
  method ListDirectoryV10(node: Node, wsCol: Option<nat>) returns (lines: seq<Line>)
    ensures lines == DirectoryListing(node, Default, Plain, TerminalWidth(wsCol))
  {
    if !node.opens {
      return [];
    }
    var names := SortedNames(node);
    lines := PrintDownThenAcross(names, Plain, TerminalWidth(wsCol));
  }

  /** Version 1.4 `list_directory`: the display mode chosen by `-x`, no colour. */
  method ListDirectoryV14(node: Node, mode: DisplayMode, wsCol: Option<nat>) returns (lines: seq<Line>)
    ensures lines == DirectoryListing(node, mode, Plain, TerminalWidth(wsCol))
  {
    if !node.opens {
      return [];
    }
    var names := SortedNames(node);
    lines := Display(mode, names, Plain, wsCol);
  }

  /** Version 1.5 `list_directory`: as version 1.4, each cell coloured by `get_color`. */
  method ListDirectoryV15(node: Node, mode: DisplayMode, wsCol: Option<nat>) returns (lines: seq<Line>)
    ensures lines == DirectoryListing(node, mode, PaintedV15(node.entries), TerminalWidth(wsCol))
  {
    if !node.opens {
      return [];
    }
    var names := SortedNames(node);
    lines := Display(mode, names, PaintedV15(node.entries), wsCol);
  }

  // ------------------------------------------------------------------
  // Version 1.6: recursive listing
  // ------------------------------------------------------------------

  /** `snprintf(fullpath, ..., "%s/%s", path, name)`, without the buffer limit. */
  function Join(path: string, name: Name): string {
    path + "/" + name
  }

  /** `do_ls` descends into `name` when `lstat` succeeds and reports a directory,
      and the name is neither `.` nor `..`. */
  predicate Descends(entries: seq<Entry>, name: Name) {
    match LstatAt(entries, name)
    case None => false
    case Some(m) => IsDir(m) && name != "." && name != ".."
  }

  /** The names, in order, that the recursion loop descends into. */
  function Subdirs(entries: seq<Entry>, names: seq<Name>): (subs: seq<Name>)
    ensures forall s :: s in subs ==> Descends(entries, s)
  {
    if names == [] then []
    else
      var last := names[|names| - 1];
      var before := Subdirs(entries, names[..|names| - 1]);
      if Descends(entries, last) then before + [last] else before
  }

  /** The child a descended-into name leads to. */
  function ChildNode(entries: seq<Entry>, name: Name): (child: Node)
    requires Descends(entries, name)
    ensures exists k :: 0 <= k < |entries| && entries[k].name == name && entries[k].node == child
  {
    entries[Lookup(entries, name).value].node
  }

  /** The recursion loop's output for the listings `parts` of the subdirectories it
      descends into: each listing is preceded by a blank line. */
  function Blocks(parts: seq<seq<Line>>): (out: seq<Line>)
    ensures |out| >= |parts|
  {
    if parts == [] then []
    else Blocks(parts[..|parts| - 1]) + [[]] + parts[|parts| - 1]
  }

  /** The output for a prefix of the subdirectories is a prefix of the whole output:
      subdirectories are listed one after the other, in order. */
  lemma {:induction false} BlocksPrefix(parts: seq<seq<Line>>, j: nat)
    requires j <= |parts|
    ensures var part := Blocks(parts[..j]);
      |part| <= |Blocks(parts)| && Blocks(parts)[..|part|] == part
    decreases |parts|
  {
    if j < |parts| {
      var init := parts[..|parts| - 1];
      assert init[..j] == parts[..j];
      BlocksPrefix(init, j);
    } else {
      assert parts[..j] == parts;
    }
  }

  /** The listing `parts[j]` comes right after a blank line, which comes right after
      everything printed for the subdirectories before it. */
  lemma BlocksAt(parts: seq<seq<Line>>, j: nat)
    requires j < |parts|
    ensures var whole := Blocks(parts);
      var at := |Blocks(parts[..j])|;
      at + 1 + |parts[j]| <= |whole| && whole[at] == [] && whole[at + 1..at + 1 + |parts[j]|] == parts[j]
  {
    var longer := parts[..j + 1];
    assert longer[..j] == parts[..j];
    assert longer[j] == parts[j];
    BlocksPrefix(parts, j + 1);
  }

  /** What `do_ls(path, mode, recursive)` prints for the directory `node`: the
      `path:` header (at the top level too), the listing in the display mode and,
      with `-R`, for each subdirectory in sorted order a blank line and its own
      listing. A directory that does not open prints nothing. */
  function Ls(path: string, node: Node, mode: DisplayMode, recursive: bool, termWidth: nat): seq<Line>
    decreases node, 1
  {
    if !node.opens then []
    else
      var names := Listed(node);
      [Chars(path + ":")] + Show(mode, names, PaintedV16(node.entries), termWidth) +
      (if recursive then Blocks(Subtrees(path, node, Subdirs(node.entries, names), mode, termWidth)) else [])
  }

  /** The recursive listings of the subdirectories `subs` of `node`, in order. */
  function Subtrees(path: string, node: Node, subs: seq<Name>, mode: DisplayMode, termWidth: nat): (parts: seq<seq<Line>>)
    requires forall s :: s in subs ==> Descends(node.entries, s)
    ensures |parts| == |subs|
    decreases node, 0, |subs|
  {
    if subs == [] then []
    else
      var last := subs[|subs| - 1];
      assert Descends(node.entries, last) by { assert last in subs; }
      var k := Lookup(node.entries, last).value;
      assert node.entries[k] in node.entries;
      Subtrees(path, node, subs[..|subs| - 1], mode, termWidth) +
      [Ls(Join(path, last), node.entries[k].node, mode, true, termWidth)]
  }

  /** The `j`-th recursive listing is that of `path/subs[j]`, recursively. */
  lemma {:induction false} SubtreesAt(path: string, node: Node, subs: seq<Name>, j: nat, mode: DisplayMode, termWidth: nat)
    requires forall s :: s in subs ==> Descends(node.entries, s)
    requires j < |subs|
    ensures Subtrees(path, node, subs, mode, termWidth)[j] ==
      Ls(Join(path, subs[j]), ChildNode(node.entries, subs[j]), mode, true, termWidth)
    decreases |subs|
  {
    if j < |subs| - 1 {
      SubtreesAt(path, node, subs[..|subs| - 1], j, mode, termWidth);
    }
  }

  /** The recursion loop descends exactly into the names that `lstat` reports as
      directories (other than `.` and `..`), keeping their order; so it visits them
      in sorted order. */
  lemma {:induction false} SubdirsExact(entries: seq<Entry>, names: seq<Name>)
    ensures var subs := Subdirs(entries, names);
      (forall s :: s in subs <==> s in names && Descends(entries, s)) &&
      (IsSorted(names) ==> IsSorted(subs))
  {
    if names != [] {
      var init, last := names[..|names| - 1], names[|names| - 1];
      SubdirsExact(entries, init);
      assert names == init + [last];
      var subs := Subdirs(entries, names);
      var before := Subdirs(entries, init);
      if IsSorted(names) && Descends(entries, last) {
        assert IsSorted(init) by {
          assert forall i :: 0 <= i < |init| ==> init[i] == names[i];
        }
        forall i | 0 <= i < |before|
          ensures Strcmp(before[i], last) <= 0
        {
          assert before[i] in before;
          assert before[i] in init;
          var p :| 0 <= p < |init| && init[p] == before[i];
          assert names[p] == before[i];
        }
        assert subs == before + [last];
      }
    }
  }

  /** A directory that opens is listed under its `path:` header; one that does not
      open prints nothing at all. */
  lemma LsHeader(path: string, node: Node, mode: DisplayMode, recursive: bool, termWidth: nat)
    ensures var out := Ls(path, node, mode, recursive, termWidth);
      (node.opens <==> out != []) && (node.opens ==> out[0] == Chars(path + ":"))
  {
  }

  /** With `-R`, the listing of the `j`-th subdirectory that opens starts, after a
      blank line, with its own `path/name:` header, right after everything printed
      for the subdirectories before it. */
  lemma SubdirectoryHeader(path: string, node: Node, subs: seq<Name>, j: nat, mode: DisplayMode, termWidth: nat)
    requires forall s :: s in subs ==> Descends(node.entries, s)
    requires j < |subs| && ChildNode(node.entries, subs[j]).opens
    ensures var parts := Subtrees(path, node, subs, mode, termWidth);
      var whole := Blocks(parts);
      var at := |Blocks(parts[..j])|;
      at + 1 < |whole| && whole[at] == [] && whole[at + 1] == Chars(Join(path, subs[j]) + ":")
  {
    var parts := Subtrees(path, node, subs, mode, termWidth);
    SubtreesAt(path, node, subs, j, mode, termWidth);
    LsHeader(Join(path, subs[j]), ChildNode(node.entries, subs[j]), mode, true, termWidth);
    BlocksFirstLine(parts, j);
  }

  /** A subdirectory that does not open ends only its own branch: it leaves just
      the blank line printed before it, and the listing goes on with the next one. */
  lemma SubdirectoryFails(path: string, node: Node, subs: seq<Name>, j: nat, mode: DisplayMode, termWidth: nat)
    requires forall s :: s in subs ==> Descends(node.entries, s)
    requires j < |subs| && !ChildNode(node.entries, subs[j]).opens
    ensures var parts := Subtrees(path, node, subs, mode, termWidth);
      Blocks(parts[..j + 1]) == Blocks(parts[..j]) + [[]]
  {
    var parts := Subtrees(path, node, subs, mode, termWidth);
    SubtreesAt(path, node, subs, j, mode, termWidth);
    LsHeader(Join(path, subs[j]), ChildNode(node.entries, subs[j]), mode, true, termWidth);
    var longer := parts[..j + 1];
    assert longer[..j] == parts[..j];
    assert longer[j] == parts[j] == [];
  }

  /** The first line of a non-empty listing `parts[j]` follows the blank line that
      follows everything printed for the listings before it. */
  lemma BlocksFirstLine(parts: seq<seq<Line>>, j: nat)
    requires j < |parts| && parts[j] != []
    ensures var whole := Blocks(parts);
      var at := |Blocks(parts[..j])|;
      at + 1 < |whole| && whole[at] == [] && whole[at + 1] == parts[j][0]
  {
    var whole := Blocks(parts);
    var at := |Blocks(parts[..j])|;
    BlocksAt(parts, j);
    assert whole[at + 1] == whole[at + 1..at + 1 + |parts[j]|][0];
  }

  /** One turn of the recursion loop: the name either adds a blank line and the
      subdirectory's listing, or nothing. */
  lemma LoopStep(path: string, node: Node, names: seq<Name>, i: nat, mode: DisplayMode, termWidth: nat)
    requires i < |names|
    ensures var before := Blocks(Subtrees(path, node, Subdirs(node.entries, names[..i]), mode, termWidth));
      var after := Blocks(Subtrees(path, node, Subdirs(node.entries, names[..i + 1]), mode, termWidth));
      after == if Descends(node.entries, names[i])
        then before + [[]] + Ls(Join(path, names[i]), ChildNode(node.entries, names[i]), mode, true, termWidth)
        else before
  {
    var subs := Subdirs(node.entries, names[..i]);
    SubdirsSnoc(node.entries, names, i);
    if Descends(node.entries, names[i]) {
      var parts := Subtrees(path, node, subs, mode, termWidth);
      var child := Ls(Join(path, names[i]), ChildNode(node.entries, names[i]), mode, true, termWidth);
      SubtreesSnoc(path, node, subs, names[i], mode, termWidth);
      BlocksSnoc(parts, child);
    }
  }

  lemma SubdirsSnoc(entries: seq<Entry>, names: seq<Name>, i: nat)
    requires i < |names|
    ensures Subdirs(entries, names[..i + 1]) ==
      if Descends(entries, names[i]) then Subdirs(entries, names[..i]) + [names[i]] else Subdirs(entries, names[..i])
  {
    var prefix := names[..i + 1];
    assert prefix[..i] == names[..i];
  }

  lemma SubtreesSnoc(path: string, node: Node, subs: seq<Name>, name: Name, mode: DisplayMode, termWidth: nat)
    requires forall s :: s in subs ==> Descends(node.entries, s)
    requires Descends(node.entries, name)
    ensures Subtrees(path, node, subs + [name], mode, termWidth) ==
      Subtrees(path, node, subs, mode, termWidth) + [Ls(Join(path, name), ChildNode(node.entries, name), mode, true, termWidth)]
  {
    var more := subs + [name];
    assert more[..|subs|] == subs;
  }

  lemma BlocksSnoc(parts: seq<seq<Line>>, part: seq<Line>)
    ensures Blocks(parts + [part]) == Blocks(parts) + [[]] + part
  {
    var more := parts + [part];
    assert more[..|parts|] == parts;
  }

  /** Version 1.6 `do_ls`. */
  method DoLs(path: string, node: Node, mode: DisplayMode, recursive: bool, wsCol: Option<nat>) returns (lines: seq<Line>)
    ensures lines == Ls(path, node, mode, recursive, TerminalWidth(wsCol))
    decreases node, 2
  {
    if !node.opens {
      return [];
    }
    lines := [Chars(path + ":")];
    var names := SortedNames(node);
    var shown := Display(mode, names, PaintedV16(node.entries), wsCol);
    lines := lines + shown;
    if recursive {
      var below := VisitAll(path, node, names, mode, wsCol);
      lines := lines + below;
    }
  }

  /** The recursion loop of `do_ls` over the sorted names of `node`. */
  method VisitAll(path: string, node: Node, names: seq<Name>, mode: DisplayMode, wsCol: Option<nat>) returns (lines: seq<Line>)
    ensures lines == Blocks(Subtrees(path, node, Subdirs(node.entries, names), mode, TerminalWidth(wsCol)))
    decreases node, 1
  {
    lines := [];
    for i := 0 to |names|
      invariant lines == Blocks(Subtrees(path, node, Subdirs(node.entries, names[..i]), mode, TerminalWidth(wsCol)))
    {
      LoopStep(path, node, names, i, mode, TerminalWidth(wsCol));
      lines := VisitName(path, node, names[i], mode, wsCol, lines);
    }
    assert names[..|names|] == names;
  }

  /** One turn of the recursion loop of `do_ls`: `lstat` the entry and, when it is
      a directory other than `.` and `..`, print a blank line and list it with
      `-R`. */
  method VisitName(path: string, node: Node, name: Name, mode: DisplayMode, wsCol: Option<nat>, lines: seq<Line>)
    returns (lines': seq<Line>)
    ensures lines' == if Descends(node.entries, name)
      then lines + [[]] + Ls(Join(path, name), ChildNode(node.entries, name), mode, true, TerminalWidth(wsCol))
      else lines
    decreases node, 0
  {
    var st := LstatAt(node.entries, name);
    if st.Some? && IsDir(st.value) && name != "." && name != ".." {
      var k := Lookup(node.entries, name).value;
      assert node.entries[k] in node.entries;
      lines' := lines + [[]];
      var sub := DoLs(Join(path, name), node.entries[k].node, mode, true, wsCol);
      lines' := lines' + sub;
    } else {
      lines' := lines;
    }
  }
}
