/**
 * The filesystem as the listing sees it: a finite tree of entries. What `lstat`
 * reports for a path is the node's `lstat` (None when the call fails), and what
 * `opendir`/`readdir` yield is its `entries` in directory order when `opens`.
 */
module Fs {
  import opened Wrappers
  import opened Names

  /** `st_mode` of `struct stat`: the file type in the S_IFMT bits and the permission bits. */
  type Mode = bv32

  const S_IFMT: Mode   := 0xF000  // 0170000
  const S_IFSOCK: Mode := 0xC000  // 0140000
  const S_IFLNK: Mode  := 0xA000  // 0120000
  const S_IFREG: Mode  := 0x8000  // 0100000
  const S_IFBLK: Mode  := 0x6000  // 0060000
  const S_IFDIR: Mode  := 0x4000  // 0040000
  const S_IFCHR: Mode  := 0x2000  // 0020000
  const S_IFIFO: Mode  := 0x1000  // 0010000
  const S_IXUSR: Mode  := 0x40    // 0100
  const S_IXGRP: Mode  := 0x08    // 0010
  const S_IXOTH: Mode  := 0x01    // 0001

  predicate IsDir(m: Mode)  { m & S_IFMT == S_IFDIR }
  predicate IsLnk(m: Mode)  { m & S_IFMT == S_IFLNK }
  predicate IsChr(m: Mode)  { m & S_IFMT == S_IFCHR }
  predicate IsBlk(m: Mode)  { m & S_IFMT == S_IFBLK }
  predicate IsSock(m: Mode) { m & S_IFMT == S_IFSOCK }
  predicate IsFifo(m: Mode) { m & S_IFMT == S_IFIFO }

  /** A character or block device, a socket or a named pipe. */
  predicate IsSpecial(m: Mode) { IsChr(m) || IsBlk(m) || IsSock(m) || IsFifo(m) }

  datatype Node = Node(lstat: Option<Mode>, opens: bool, entries: seq<Entry>)
  datatype Entry = Entry(name: Name, node: Node)

  /** The names `readdir` yields, in directory order. */
  function NamesOf(entries: seq<Entry>): (r: seq<Name>)
    ensures |r| == |entries|
    ensures forall i :: 0 <= i < |entries| ==> r[i] == entries[i].name
  {
    seq(|entries|, i requires 0 <= i < |entries| => entries[i].name)
  }

  /** `entries[k]` is the first entry called `name`. */
  predicate FirstNamed(entries: seq<Entry>, name: Name, k: int) {
    0 <= k < |entries| && entries[k].name == name && forall q :: 0 <= q < k ==> entries[q].name != name
  }

  /** The entry a path `dir/name` resolves to: the first one called `name`, if any. */
  function Lookup(entries: seq<Entry>, name: Name): (k: Option<nat>)
    ensures k.Some? ==> k.value < |entries| && entries[k.value].name == name
    ensures k.None? <==> name !in NamesOf(entries)
    ensures k.Some? ==> forall q :: 0 <= q < k.value ==> entries[q].name != name
  {
    if entries == [] then None
    else if entries[0].name == name then Some(0)
    else match Lookup(entries[1..], name)
      case None => assert NamesOf(entries) == [entries[0].name] + NamesOf(entries[1..]); None
      case Some(j) =>
        assert forall q :: 1 <= q <= j ==> entries[q] == entries[1..][q - 1];
        Some(j + 1)
  }

  /** `lstat("dir/name")` for a directory whose entries are `entries`. */
  function LstatAt(entries: seq<Entry>, name: Name): (m: Option<Mode>)
    ensures name !in NamesOf(entries) ==> m.None?
    ensures m.Some? ==> exists k :: 0 <= k < |entries| && entries[k].name == name && entries[k].node.lstat == m
    ensures forall k :: FirstNamed(entries, name, k) ==> m == entries[k].node.lstat
  {
    match Lookup(entries, name)
    case None => None
    case Some(k) => entries[k].node.lstat
  }
}
