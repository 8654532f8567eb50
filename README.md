# A verified model of a small `ls` clone

The repository holds four successive versions of a teaching `ls` (`src/lsv1.0.0.c`,
`src/lsv1.4.0.c`, `src/lsv1.5.0.c`, `src/lsv1.6.0.c`). Each version lists a
directory the same way:

- it drops the names that start with `.`;
- it sorts the rest with `qsort` and `strcmp`;
- it prints them in columns fitted to the terminal width.

Later versions add features on top of this:

- Version 1.4 has `-x`, which prints across instead of down then across; version 1.0 does not. Its own header names sorting as what it adds.
- Version 1.5 colours each name by its `lstat` file type.
- Version 1.6 changes the colouring rules and adds `-R`, a depth-first walk into subdirectories.

This project models that core in Dafny and proves what it promises.

| module | file | models |
|---|---|---|
| `Names` | `Names.dfy` | names as byte strings, `strcmp`, `strstr`, hidden names |
| `Fs` | `Fs.dfy` | an abstract directory tree: per entry, the `lstat` mode (or failure) and whether `opendir` succeeds |
| `Sorting` | `Sorting.dfy` | the `readdir` collection loop and `qsort` (an in-place insertion sort over an `array`) |
| `Geometry` | `Geometry.dfy` | `max_len`, `col_width`, `num_cols`, `num_rows`, the terminal-width fallback |
| `Classify` | `Classify.dfy` | `get_color` (version 1.5) and the colour chain of `print_colored` (version 1.6), kept in their two different orders |
| `Cells` | `Cells.dfy` | one printed cell per version, as glyphs (characters and colour escapes) |
| `Layout` | `Layout.dfy` | `print_in_columns` / `print_down_then_across` and `print_across`, as loops proved against layout functions |
| `Listing` | `Listing.dfy` | `list_directory` (versions 1.0 to 1.5) and the recursive `do_ls` (version 1.6) |

## How the model is built

**Output.** Standard output is a sequence of lines. Each `Line` is the
sequence of glyphs before a `\n`. A glyph is a character or one of the colour
escape sequences. `Shown` keeps only the characters, which is what the terminal
displays. `Emitted` gives the bytes written, each escape as its
`include/colors.h` string.

**Layouts.** Each display mode is specified twice:

- as a layout of name indices: `DownAcrossGrid`, and `AcrossLines`, which is
  greedy;
- as a rendering of the cells: `Render`.

The C loops are methods whose `ensures` equates the lines they print with that
specification. The properties of the layout are then proved as lemmas.

**Version differences.** All four versions share one engine. They differ only in
the cell `Style`:

- `Plain`: `%-*s`;
- `PaintedV15`: colour, `%-*s`, reset;
- `PaintedV16`: `print_colored` with its two trailing blanks, then the pad loop.

**Inputs.** What `ioctl(TIOCGWINSZ)` reports is a parameter `wsCol` of the listing
methods (`None` when the call fails). `TerminalWidth` turns it into the width, as
`get_terminal_width` does, and `Display` and the `ListDirectory`/`DoLs` methods
use that width.

**Order on names.** Names are `seq<char>`, one `char` per byte, so `Strcmp` is
the order of unsigned bytes that `strcmp` uses.

**Version 1.6 header.** The code prints the `path:` header at every level of the
recursion, the top level included, and so does the model (`Listing.Ls`,
`Listing.LsHeader`).

**Version 1.6 cell width.** Every cell is `col_width + 2` columns wide, while
`num_cols` and `current_width` count `col_width` per cell. The model keeps this
(`Cells.CellWidth`, `Cells.CellShowsV16`, `Layout.DownAcrossShownWidth`).

**Across mode with a narrow terminal.** When `col_width > term_width`, across
mode breaks the line before the very first name. This is stated by
`Layout.AcrossFull`.

## Model

| member | source | states |
|---|---|---|
| Names.Strcmp | src/lsv1.6.0.c:37-41 | the sign of `strcmp` is -1, 0 or 1 |
| Names.StrcmpZero | src/lsv1.4.0.c:29-33 | `strcmp` is 0 exactly when the two names are equal |
| Names.StrcmpIsByteOrder | src/lsv1.0.0.c:11-13 | `strcmp < 0` exactly when the first name is a proper prefix of the second or has the smaller byte at the first difference |
| Names.StrcmpAntisymmetric | src/lsv1.5.0.c:38-42 | swapping the arguments of the comparator flips the sign |
| Names.StrcmpTransitive | src/lsv1.6.0.c:37-41 | the comparator's `<= 0` is transitive, so `qsort` sorts by a total order |
| Names.Contains | src/lsv1.6.0.c:57-59 | `strstr(s, pat) != NULL` exactly when `pat` occurs in `s` at some position |
| Names.IsHidden | src/lsv1.0.0.c:76 | `d_name[0] == '.'`: a name is hidden when it starts with `.`; characterised by `Sorting.VisibleCounts` and `Listing.ListedSpec` |
| Classify.Escape | include/colors.h:5-10 | each colour macro is an ANSI "select graphic rendition" sequence, `ESC [` parameters `m` |
| Fs.Lookup | src/lsv1.6.0.c:177-178 | `lstat` of `dir/name` finds an entry exactly when `name` is in the directory, and it is the first entry with that name |
| Fs.LstatAt | src/lsv1.6.0.c:177-178 | `lstat` of `dir/name` fails when the directory holds no such name, and otherwise reports the mode (or the failure) of the entry with that name |
| Sorting.VisibleCounts | src/lsv1.0.0.c:75-80 | the collection drops every name starting with `.` and keeps every other name as often as the directory holds it |
| Sorting.Visible | src/lsv1.0.0.c:75-80 | the names the `readdir` loop keeps, in directory order: every name not starting with `.`; characterised by `Sorting.VisibleCounts` and `Sorting.CollectVisible` |
| Sorting.CollectVisible | src/lsv1.4.0.c:108-113 | the `readdir` loop appends exactly the visible names, in directory order |
| Sorting.SortSpec | src/lsv1.4.0.c:118 | the reference sort is ascending under `strcmp` and a permutation of its input |
| Sorting.SortedUnique | src/lsv1.6.0.c:163 | two sorted permutations of the same names are equal, so the unstable `qsort` has a determined result |
| Sorting.QSort | src/lsv1.0.0.c:85 | sorting in place leaves the array ascending and a permutation of its old contents, equal to the reference sort |
| Sorting.SiftDown | src/lsv1.5.0.c:157 | one insertion step moves `a[i]` left past exactly the larger names and shifts them right |
| Geometry.TerminalWidth | src/lsv1.0.0.c:27-32 | the width is the reported `ws_col`, or 80 when the query fails |
| Geometry.MaxLen | src/lsv1.0.0.c:35-40 | the longest name length bounds every name and is attained (0 without names) |
| Geometry.LongestName | src/lsv1.6.0.c:88-92 | the `max_len` loop computes that maximum |
| Geometry.ColWidth | src/lsv1.0.0.c:42 | `col_width >= 2`, every name fits with two blanks to spare, and the longest one with exactly two |
| Geometry.NumCols | src/lsv1.0.0.c:43-44 | at least one column, even when a name is wider than the terminal |
| Geometry.NumColsFit | src/lsv1.4.0.c:56-57 | `num_cols` columns fit the terminal (or there is just one) and one more would not |
| Geometry.NumRowsFit | src/lsv1.4.0.c:59 | `num_rows` is the ceiling of `count / num_cols`: the rows hold all names and one row fewer would not |
| Geometry.NumRows | src/lsv1.0.0.c:47 | `(count + num_cols - 1) / num_cols`; characterised by `Geometry.NumRowsFit` (the ceiling) and `Geometry.RowsOfEmpty` |
| Geometry.RowsOfEmpty | src/lsv1.6.0.c:96 | there are no rows exactly when there are no names |
| Classify.IsExecutable | src/lsv1.6.0.c:52-54 | some execute bit of owner, group or others is set |
| Classify.IsArchive | src/lsv1.6.0.c:57-59 | the name contains `.tar`, `.gz` or `.zip` somewhere |
| Classify.ArchiveMarkAnywhere | src/lsv1.5.0.c:72-73 | a name with an archive mark anywhere, not only at its end, counts as an archive |
| Classify.GetColorV15 | src/lsv1.5.0.c:53-76 | first match: directory blue, symlink pink, device/socket/fifo reverse, owner-execute green, archive red, else reset; reset when `lstat` fails; each colour stated as an if-and-only-if |
| Classify.PaintV16 | src/lsv1.6.0.c:62-81 | first match: directory blue, symlink pink, any execute bit green, archive red, device/socket/fifo reverse, else no colour; no colour when `lstat` fails; each colour stated as an if-and-only-if |
| Classify.SpecialExecutableDiffers | src/lsv1.6.0.c:69-78 | an owner-executable device is reverse in version 1.5 and green in version 1.6 |
| Classify.GroupExecutableDiffers | src/lsv1.6.0.c:73-74 | a regular file executable only by group or others is green only in version 1.6 |
| Cells.ShownPainted | src/lsv1.5.0.c:79-82 | colour escapes around a text take no column on the screen |
| Cells.PadRight | src/lsv1.0.0.c:54 | `%-*s`: the name, then blanks up to the width (none when the name is wider); characterised by `Cells.CellShowsPlain` |
| Cells.PrintColoredV15 | src/lsv1.5.0.c:79-82 | version 1.5 `print_colored`: the `get_color` escape, the name padded by `%-*s`, the reset escape; characterised by `Cells.CellShowsV15` |
| Cells.PrintColoredV16 | src/lsv1.6.0.c:62-81 | version 1.6 `print_colored`: the name between the `PaintV16` colour and the reset (bare when no rule matches or `lstat` fails), then two blanks; characterised by `Cells.ShownColoredV16` |
| Cells.EmittedColoredV15 | src/lsv1.5.0.c:79-82 | version 1.5 `print_colored` writes the colour macro's string, the name padded by `%-*s`, then `COLOR_RESET` |
| Cells.EmittedColoredV16 | src/lsv1.6.0.c:64-80 | version 1.6 `print_colored` writes `name` and two blanks, or the colour macro's string, `name`, `COLOR_RESET` and two blanks |
| Cells.Cell | src/lsv1.6.0.c:101-107 | one cell per version: `%-*s` (1.0, 1.4), `print_colored` with its width (1.5), `print_colored` and the pad loop (1.6); characterised by `Cells.CellShows` and `Cells.CellShownWidth` |
| Cells.ShownColoredV16 | src/lsv1.6.0.c:62-81 | version 1.6 `print_colored` shows the name and two blanks, coloured or not |
| Cells.CellShowsPlain | src/lsv1.4.0.c:66 | `%-*s` shows the name and then blanks up to `col_width` |
| Cells.CellShowsV15 | src/lsv1.5.0.c:79-82 | the coloured cell shows the name padded to exactly `col_width` |
| Cells.CellShowsV16 | src/lsv1.6.0.c:104-106 | the version 1.6 cell shows the name followed by `col_width - len + 2` blanks |
| Cells.ShownPadded | src/lsv1.6.0.c:105-106 | the pad loop after `print_colored`'s two blanks leaves `pad + 2` blanks |
| Cells.CellShows | src/lsv1.6.0.c:131-133 | every cell, in every version, shows the name followed by blanks only, up to its cell width |
| Cells.CellShownWidth | src/lsv1.5.0.c:105 | every cell takes exactly its cell width on the screen |
| Layout.ColumnMajorRow | src/lsv1.0.0.c:50-57 | a row prints at most `num_cols` cells, each with an index below `count` |
| Layout.ColumnMajorRowShape | src/lsv1.4.0.c:63-66 | cell `j` of row `row` holds index `j * num_rows + row`, and a short row stops only at an index `>= count` |
| Layout.ColumnMajorRowNext | src/lsv1.5.0.c:102-105 | column `col` adds its index to the row exactly when the index is below `count` |
| Layout.DownAcrossGrid | src/lsv1.6.0.c:98-110 | the grid has `num_rows` lines, line `r` holding the column-major indices of row `r`, all below `count` |
| Layout.DownAcrossPlacement | src/lsv1.6.0.c:98-100 | every index `i < count` is printed on row `i % num_rows`, in column `i / num_rows` |
| Layout.DownAcrossOnce | src/lsv1.5.0.c:101-108 | no index is printed twice: equal indices sit at the same row and column |
| Layout.DownAcrossBounds | src/lsv1.0.0.c:47-57 | no names give no lines and names give some; rows hold at most `num_cols` indices, all below `count` |
| Layout.AcrossLines | src/lsv1.6.0.c:124-136 | across lines hold indices below `count`, at most `num_cols` per line; the last line is non-empty when there are names |
| Layout.BreakWhenFull | src/lsv1.4.0.c:85-88 | the test `current_width + col_width > term_width` holds exactly when the line already has `num_cols` names, or when not even one column fits |
| Layout.AcrossInOrder | src/lsv1.5.0.c:123-131 | across mode prints every index `0 .. count-1` exactly once, in sorted order |
| Layout.AcrossFull | src/lsv1.6.0.c:127-130 | every line but the last is full; with names, the first line is empty exactly when `col_width > term_width` |
| Layout.CellsShownWidth | src/lsv1.4.0.c:66 | all cells of a listing are equally wide on the screen |
| Layout.RowShownWidth | src/lsv1.4.0.c:62-68 | a line of `k` cells of width `w` shows `k * w` characters |
| Layout.DownAcrossShownWidth | src/lsv1.4.0.c:62-69 | each down-then-across line with `k` names shows `k * col_width` characters, `k * (col_width + 2)` in version 1.6 |
| Layout.CellsOf | src/lsv1.4.0.c:62-68 | one cell per name, in the order of the sorted names; characterised by `Layout.CellsShownWidth` |
| Layout.RenderRow | src/lsv1.0.0.c:51-55 | a printed line: the cells of a row's indices, left to right; characterised by `Layout.RowShownWidth` and `Layout.RowStep` |
| Layout.Render | src/lsv1.0.0.c:50-57 | one printed line per layout row, line `r` being the rendering of row `r` |
| Layout.UnpaddedRowsFit | src/lsv1.4.0.c:55-68 | before version 1.6, every down-then-across line fits the terminal when one column does |
| Layout.EmitCell | src/lsv1.6.0.c:104-106 | printing a cell appends exactly that version's cell to the current line |
| Layout.GridGeometry | src/lsv1.5.0.c:91-99 | the head of the display function computes `col_width`, `num_cols` and `num_rows` |
| Layout.RowStep | src/lsv1.0.0.c:51-55 | one turn of the inner loop adds the cell of its index exactly when the index is below `count` |
| Layout.PrintRow | src/lsv1.6.0.c:99-108 | the inner loop prints the cells of the row's column-major indices, left to right |
| Layout.PrintDownThenAcross | src/lsv1.4.0.c:46-70 | the printed lines are the rendering of the down-then-across grid (also `print_in_columns` in version 1.0, with the version's cell style) |
| Layout.AcrossStart | src/lsv1.5.0.c:121 | before the first name nothing is printed and `current_width` is 0 |
| Layout.AcrossAdvance | src/lsv1.6.0.c:127-134 | each turn of the across loop keeps the lines equal to the greedy layout so far, on both sides of the break test |
| Layout.PlaceAcross | src/lsv1.5.0.c:124-129 | the loop body: the break test, which resets `current_width`, then the cell of the name |
| Layout.AcrossLoop | src/lsv1.4.0.c:84-91 | after the loop, the printed lines and the open line are the rendering of the across layout |
| Layout.PrintAcross | src/lsv1.6.0.c:114-137 | the printed lines, final line break included, are the rendering of the across layout |
| Listing.ListedSpec | src/lsv1.6.0.c:154-163 | the listed names are sorted, none starts with `.`, and they are a permutation of the visible entries |
| Listing.Listed | src/lsv1.6.0.c:153-163 | the names a listing shows: the visible names in `strcmp` order; characterised by `Listing.ListedSpec` and `Listing.SortedNames` |
| Listing.Show | src/lsv1.6.0.c:165-169 | what the display functions print for the sorted names: across for `MODE_HORIZONTAL`, down then across otherwise; characterised by `Listing.ShowNothing`, `Listing.Display` and the `Layout` lemmas |
| Listing.ShowNothing | src/lsv1.4.0.c:82-92 | with no names, down then across prints no line and across prints one empty line |
| Listing.Display | src/lsv1.5.0.c:160-163 | `MODE_HORIZONTAL` prints across, any other mode down then across, at the width `get_terminal_width` returns |
| Listing.SortedNames | src/lsv1.6.0.c:149-163 | collecting and sorting yields exactly the listed names |
| Listing.DirectoryListing | src/lsv1.4.0.c:96-130 | what `list_directory` prints: nothing when `opendir` fails, else the listed names in the display mode; characterised by the three `ListDirectory` methods |
| Listing.ListDirectoryV10 | src/lsv1.0.0.c:61-93 | nothing when `opendir` fails, else the sorted visible names down then across |
| Listing.ListDirectoryV14 | src/lsv1.4.0.c:96-130 | nothing when `opendir` fails, else the sorted visible names in the chosen mode |
| Listing.ListDirectoryV15 | src/lsv1.5.0.c:135-169 | as version 1.4, each cell coloured by `get_color` |
| Listing.Descends | src/lsv1.6.0.c:177-180 | the loop descends into a name when `lstat` succeeds, reports a directory, and the name is neither `.` nor `..`; characterised by `Listing.SubdirsExact` |
| Listing.Subdirs | src/lsv1.6.0.c:172-185 | the recursion loop descends only into names that `lstat` reports as directories other than `.` and `..` |
| Listing.ChildNode | src/lsv1.6.0.c:175-176 | the subtree descended into is the entry of that name |
| Listing.Blocks | src/lsv1.6.0.c:172-185 | the loop's output for the nested listings: each preceded by a blank line, in order, at least one line per listing; characterised by `Listing.BlocksPrefix` and `Listing.BlocksAt` |
| Listing.Ls | src/lsv1.6.0.c:140-190 | what `do_ls` prints: nothing when `opendir` fails, else the `path:` header, the listing in the display mode and, with `-R`, the nested blocks; characterised by `Listing.LsHeader`, `Listing.SubdirectoryHeader`, `Listing.SubdirectoryFails` and `Listing.DoLs` |
| Listing.Subtrees | src/lsv1.6.0.c:174-183 | one recursive listing per descended-into name, as many as there are names; characterised by `Listing.SubtreesAt` |
| Listing.Join | src/lsv1.6.0.c:175 | `snprintf(fullpath, ..., "%s/%s", path, name)`: the child's path; used by `Listing.Subtrees` and stated by `Listing.SubtreesAt` and `Listing.SubdirectoryHeader` |
| Listing.SubdirsExact | src/lsv1.6.0.c:174-180 | the loop descends into exactly those names, in the order of the sorted list, so in sorted order |
| Listing.BlocksPrefix | src/lsv1.6.0.c:172-185 | the output for earlier subdirectories is a prefix of the output for later ones |
| Listing.BlocksAt | src/lsv1.6.0.c:180-183 | each subdirectory's listing follows a blank line, right after the output for the subdirectories before it |
| Listing.SubtreesAt | src/lsv1.6.0.c:182-183 | the `j`-th nested listing is the recursive listing of `path/name` |
| Listing.LsHeader | src/lsv1.6.0.c:141-147 | a directory that opens is listed under its `path:` header, and one that does not prints nothing |
| Listing.SubdirectoryHeader | src/lsv1.6.0.c:180-183 | with `-R`, every subdirectory that opens gets a blank line and then its own `path/name:` header |
| Listing.SubdirectoryFails | src/lsv1.6.0.c:141-145 | a subdirectory that does not open ends only its branch, leaving just its blank line |
| Listing.LoopStep | src/lsv1.6.0.c:174-184 | one turn of the recursion loop adds a blank line and the subdirectory's listing, or nothing |
| Listing.VisitName | src/lsv1.6.0.c:175-183 | the loop body: `lstat`, the directory test, the blank line and the recursive call |
| Listing.VisitAll | src/lsv1.6.0.c:172-185 | the recursion loop prints the nested listings of the subdirectories, in order |
| Listing.DoLs | src/lsv1.6.0.c:140-190 | the printed lines are the `path:` header, the listing in the chosen mode and, with `-R`, the nested listings |

## Left out

- The `ioctl(TIOCGWINSZ)` call itself: its outcome is the parameter `wsCol`, and `TerminalWidth` gives `ws_col` or the fallback 80 from it. The display functions ask again for every directory; the model passes the same `wsCol` to every directory of a `-R` walk, so a terminal resized during the walk is not modelled.
- Directory input (`opendir`, `readdir`, `closedir`) and `lstat`. They are modelled by an abstract finite tree: each entry has a name, an optional mode, an `opens` flag and its children. Entry order is the `readdir` order. A finite tree has no cycles, so a directory that contains itself through a bind mount is not modelled; on such a cycle the `-R` recursion of `do_ls` need not end.
- `Fs.Lookup`: when a directory holds a name twice, which cannot happen in a real directory, the first entry answers `lstat`.
- `perror` diagnostics go to standard error. They are not part of the modelled output; only their effect (nothing printed for that directory) is.
- Memory handling (`realloc`, `strdup`, `free`) is not modelled: the collection is an append to a sequence, copied into an array for the sort.
- Argument parsing (`getopt`, `main`, the usage message and `exit`) is not modelled. The display mode, the `-R` flag and the path are parameters.
- Path joining with `snprintf` into `PATH_MAX`/`MAX_PATH` buffers: `Join` concatenates without a length limit. The model also ignores the static buffer in version 1.5 `get_color`.
- `Sorting.QSort`: the C library's `qsort` algorithm is unknown, so it is modelled as an insertion sort. Since a sorted permutation is unique (`SortedUnique`), the result is the same.
- The colour macros of `include/colors.h` are modelled as the `Color` tokens. `Escape` gives the ANSI strings they stand for, and `Emitted` writes a line with them.
- `int` overflow of `count`, `max_len`, `current_width` or `col * num_rows + row` is not modelled; integers are unbounded. Names are `seq<char>` with one `char` per byte.
- What a terminal does with a control character in a name (a newline, a tab, an escape) is not modelled; a name is printed as its characters, so each counts as one column.
