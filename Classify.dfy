/**
 * The colour a listed name is painted with. Version 1.5 and version 1.6 test
 * the same facts about an entry in two different orders; both are kept as
 * written.
 */
module Classify {
  import opened Wrappers
  import opened Names
  import opened Fs

  /** One token per ANSI attribute of the colour table. */
  datatype Color = Reset | Blue | Green | Red | Pink | Reverse

  /** The escape sequence each token stands for: an ANSI "select graphic
      rendition" command, `ESC [` parameters `m`. */
  function Escape(c: Color): (e: string)
    ensures |e| >= 4 && e[0] == '\U{1b}' && e[1] == '[' && e[|e| - 1] == 'm'
  {
    match c
    case Reset => "\U{1b}[0m"
    case Blue => "\U{1b}[0;34m"
    case Green => "\U{1b}[0;32m"
    case Red => "\U{1b}[0;31m"
    case Pink => "\U{1b}[0;35m"
    case Reverse => "\U{1b}[7m"
  }

  /** Any of the owner, group or other execute bits is set. */
  function IsExecutable(m: Mode): (r: bool)
    ensures r <==> m & (S_IXUSR | S_IXGRP | S_IXOTH) != 0
  {
    (m & S_IXUSR != 0) || (m & S_IXGRP != 0) || (m & S_IXOTH != 0)
  }

  /** The name contains `.tar`, `.gz` or `.zip` anywhere, not only as its extension. */
  function IsArchive(name: Name): (r: bool)
    ensures r <==> HasInfix(name, ".tar") || HasInfix(name, ".gz") || HasInfix(name, ".zip")
  {
    Contains(name, ".tar") || Contains(name, ".gz") || Contains(name, ".zip")
  }

  /** Whatever surrounds `.tar`, `.gz` or `.zip`, the name counts as an archive. */
  lemma ArchiveMarkAnywhere(before: Name, mark: Name, after: Name)
    requires mark == ".tar" || mark == ".gz" || mark == ".zip"
    ensures IsArchive(before + mark + after)
  {
    var s := before + mark + after;
    assert s[|before|..|before| + |mark|] == mark;
    assert InfixAt(s, mark, |before|);
  }

  /** Version 1.5 `get_color`: directory, symlink, special file, owner-executable,
      archive, in that order; RESET when nothing matches or `lstat` fails. */
  function GetColorV15(st: Option<Mode>, name: Name): (c: Color)
    ensures st.None? ==> c == Reset
    ensures c == Blue <==> st.Some? && IsDir(st.value)
    ensures c == Pink <==> st.Some? && IsLnk(st.value)
    ensures c == Reverse <==> st.Some? && IsSpecial(st.value)
    ensures c == Green <==> st.Some? && !IsDir(st.value) && !IsLnk(st.value) && !IsSpecial(st.value)
                            && st.value & S_IXUSR != 0
    ensures c == Red <==> st.Some? && !IsDir(st.value) && !IsLnk(st.value) && !IsSpecial(st.value)
                          && st.value & S_IXUSR == 0 && IsArchive(name)
  {
    match st
    case None => Reset
    case Some(m) =>
      if IsDir(m) then Blue
      else if IsLnk(m) then Pink
      else if IsChr(m) || IsBlk(m) || IsSock(m) || IsFifo(m) then Reverse
      else if m & S_IXUSR != 0 then Green
      else if IsArchive(name) then Red
      else Reset
  }

  /** Version 1.6 `print_colored`: directory, symlink, any execute bit, archive,
      special file, in that order; no colour at all (None) when nothing matches or
      `lstat` fails. */
  function PaintV16(st: Option<Mode>, name: Name): (p: Option<Color>)
    ensures st.None? ==> p == None
    ensures p != Some(Reset)
    ensures p == Some(Blue) <==> st.Some? && IsDir(st.value)
    ensures p == Some(Pink) <==> st.Some? && IsLnk(st.value)
    ensures p == Some(Green) <==> st.Some? && !IsDir(st.value) && !IsLnk(st.value) && IsExecutable(st.value)
    ensures p == Some(Red) <==> st.Some? && !IsDir(st.value) && !IsLnk(st.value) && !IsExecutable(st.value)
                                && IsArchive(name)
    ensures p == Some(Reverse) <==> st.Some? && IsSpecial(st.value) && !IsExecutable(st.value) && !IsArchive(name)
  {
    match st
    case None => None
    case Some(m) =>
      if IsDir(m) then Some(Blue)
      else if IsLnk(m) then Some(Pink)
      else if IsExecutable(m) then Some(Green)
      else if IsArchive(name) then Some(Red)
      else if IsChr(m) || IsBlk(m) || IsSock(m) || IsFifo(m) then Some(Reverse)
      else None
  }

  /** The two precedence orders disagree: a device, socket or pipe with the owner
      execute bit is reverse video in version 1.5 and green in version 1.6. */
  lemma SpecialExecutableDiffers(m: Mode, name: Name)
    requires IsSpecial(m) && m & S_IXUSR != 0
    ensures GetColorV15(Some(m), name) == Reverse
    ensures PaintV16(Some(m), name) == Some(Green)
  {
  }

  /** They also disagree on a plain file executable only by group or others:
      version 1.6 paints it green, version 1.5 does not. */
  lemma GroupExecutableDiffers(m: Mode, name: Name)
    requires m & S_IFMT == S_IFREG && m & S_IXUSR == 0 && m & (S_IXGRP | S_IXOTH) != 0
    ensures GetColorV15(Some(m), name) != Green
    ensures PaintV16(Some(m), name) == Some(Green)
  {
  }
}
