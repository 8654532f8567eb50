/**
 * Collecting the visible names of a directory and sorting them with `qsort`
 * and `strcmp`.
 */
module Sorting {
  import opened Names
  import opened Fs

  /** The names the listing keeps, in directory order: every name not starting with `.`. */
  function Visible(names: seq<Name>): seq<Name> {
    if names == [] then []
    else Visible(names[..|names| - 1]) + (if IsHidden(names[|names| - 1]) then [] else [names[|names| - 1]])
  }

  /** Filtering drops every hidden name and keeps every other one as often as it occurs. */
  lemma {:induction false} VisibleCounts(names: seq<Name>)
    ensures forall n :: multiset(Visible(names))[n] == if IsHidden(n) then 0 else multiset(names)[n]
  {
    if names != [] {
      var init, last := names[..|names| - 1], names[|names| - 1];
      VisibleCounts(init);
      assert names == init + [last];
    }
  }

  /** The `readdir` loop: append each name that does not start with `.`. */
  method CollectVisible(entries: seq<Entry>) returns (names: seq<Name>)
    ensures names == Visible(NamesOf(entries))
  {
    names := [];
    for i := 0 to |entries|
      invariant names == Visible(NamesOf(entries[..i]))
    {
      var name := entries[i].name;
      assert NamesOf(entries[..i + 1])[..i] == NamesOf(entries[..i]);
      if !IsHidden(name) {
        names := names + [name];
      }
    }
    assert entries[..|entries|] == entries;
  }

  /** Ascending under `strcmp`, as `qsort` with `compare_filenames` leaves the array. */
  predicate IsSorted(s: seq<Name>) {
    forall i, j :: 0 <= i < j < |s| ==> Strcmp(s[i], s[j]) <= 0
  }

  function Insert(x: Name, s: seq<Name>): (r: seq<Name>)
    requires IsSorted(s)
    ensures IsSorted(r) && multiset(r) == multiset(s) + multiset{x}
  {
    if s == [] then [x]
    else if Strcmp(x, s[0]) <= 0 then
      PrependSorted(x, s);
      [x] + s
    else
      var rest := Insert(x, s[1..]);
      PrependAboveSorted(s, x, rest);
      assert s == [s[0]] + s[1..];
      [s[0]] + rest
  }

  lemma PrependSorted(x: Name, s: seq<Name>)
    requires IsSorted(s) && s != [] && Strcmp(x, s[0]) <= 0
    ensures IsSorted([x] + s)
  {
    forall j | 0 <= j < |s| ensures Strcmp(x, s[j]) <= 0 {
      if j > 0 { StrcmpTransitive(x, s[0], s[j]); }
    }
  }

  lemma PrependAboveSorted(s: seq<Name>, x: Name, rest: seq<Name>)
    requires IsSorted(s) && s != [] && Strcmp(x, s[0]) > 0
    requires IsSorted(rest) && multiset(rest) == multiset(s[1..]) + multiset{x}
    ensures IsSorted([s[0]] + rest)
  {
    StrcmpAntisymmetric(x, s[0]);
    forall j | 0 <= j < |rest| ensures Strcmp(s[0], rest[j]) <= 0 {
      assert rest[j] in multiset(rest);
      if rest[j] != x {
        assert rest[j] in multiset(s[1..]);
        var k :| 0 <= k < |s[1..]| && s[1..][k] == rest[j];
        assert Strcmp(s[0], s[k + 1]) <= 0;
      }
    }
  }

  lemma SortedTail(s: seq<Name>)
    requires IsSorted(s) && s != []
    ensures IsSorted(s[1..])
  {
    forall i, j | 0 <= i < j < |s[1..]| ensures Strcmp(s[1..][i], s[1..][j]) <= 0 {
      assert s[1..][i] == s[i + 1] && s[1..][j] == s[j + 1];
    }
  }

  /** A reference sort: the one ascending arrangement of the input. */
  function SortSpec(s: seq<Name>): (r: seq<Name>)
    ensures IsSorted(r) && multiset(r) == multiset(s)
  {
    if s == [] then []
    else
      assert s == [s[0]] + s[1..];
      Insert(s[0], SortSpec(s[1..]))
  }

  /** There is only one sorted permutation of a list of names, so whatever order
      `qsort` visits them in, and although it is not stable, its result is determined. */
  lemma {:induction false} SortedUnique(a: seq<Name>, b: seq<Name>)
    requires IsSorted(a) && IsSorted(b) && multiset(a) == multiset(b)
    ensures a == b
  {
    if a == [] {
      assert |b| == |multiset(b)| == 0;
    } else {
      assert b != [] by { assert |b| == |multiset(b)| == |a|; }
      assert a[0] == b[0] by {
        assert a[0] in multiset(b) && b[0] in multiset(a);
        HeadIsLeast(a, b[0]);
        HeadIsLeast(b, a[0]);
        StrcmpAntisymmetric(a[0], b[0]);
        StrcmpZero(a[0], b[0]);
      }
      assert multiset(a[1..]) == multiset(b[1..]) by {
        assert a == [a[0]] + a[1..] && b == [b[0]] + b[1..];
        assert multiset(a[1..]) == multiset(a) - multiset{a[0]};
        assert multiset(b[1..]) == multiset(b) - multiset{b[0]};
      }
      SortedTail(a);
      SortedTail(b);
      SortedUnique(a[1..], b[1..]);
      assert a == [a[0]] + a[1..] && b == [b[0]] + b[1..];
    }
  }

  lemma HeadIsLeast(s: seq<Name>, x: Name)
    requires IsSorted(s) && x in s
    ensures Strcmp(s[0], x) <= 0
  {
    var i :| 0 <= i < |s| && s[i] == x;
    if i == 0 { StrcmpZero(x, x); }
  }

  /** `qsort(filenames, count, sizeof(char *), compare_filenames)`, modelled by an
      insertion sort in place: afterwards the array holds the sorted permutation. */
  method QSort(a: array<Name>)
    modifies a
    ensures IsSorted(a[..]) && multiset(a[..]) == multiset(old(a[..]))
    ensures a[..] == SortSpec(old(a[..]))
  {
    for i := 0 to a.Length
      invariant IsSorted(a[..i])
      invariant multiset(a[..]) == multiset(old(a[..]))
    {
      ghost var s := a[..];
      var j := SiftDown(a, i);
      Inserted(s, i, j);
    }
    assert a[..a.Length] == a[..];
    SortedUnique(a[..], SortSpec(old(a[..])));
  }

  /** One insertion step: move `a[i]` left past every larger name, to position `j`. */
  method SiftDown(a: array<Name>, i: nat) returns (j: nat)
    requires i < a.Length
    modifies a
    ensures j <= i
    ensures a[..] == old(a[..j]) + [old(a[i])] + old(a[j..i]) + old(a[i + 1..])
    ensures j > 0 ==> Strcmp(old(a[j - 1]), old(a[i])) <= 0
    ensures forall q :: j <= q < i ==> Strcmp(old(a[q]), old(a[i])) > 0
  {
    ghost var s := a[..];
    var x := a[i];
    j := i;
    assert s == s[..i] + [x] + s[i + 1..];
    while j > 0 && Strcmp(a[j - 1], x) > 0
      invariant 0 <= j <= i
      invariant a[..] == s[..j] + [x] + s[j..i] + s[i + 1..]
      invariant forall q :: j <= q < i ==> Strcmp(s[q], x) > 0
    {
      ghost var before := a[..];
      a[j - 1], a[j] := x, a[j - 1];
      ShiftStep(s, x, i, j, before, a[..]);
      j := j - 1;
    }
    assert j > 0 ==> a[j - 1] == s[j - 1];
  }

  /** Swapping `x` with the name before it moves the gap of the insertion one place left. */
  lemma ShiftStep(s: seq<Name>, x: Name, i: nat, j: nat, before: seq<Name>, after: seq<Name>)
    requires 0 < j <= i < |s|
    requires before == s[..j] + [x] + s[j..i] + s[i + 1..]
    requires after == before[j - 1 := x][j := before[j - 1]]
    requires Strcmp(before[j - 1], x) > 0
    requires forall q :: j <= q < i ==> Strcmp(s[q], x) > 0
    ensures after == s[..j - 1] + [x] + s[j - 1..i] + s[i + 1..]
    ensures forall q :: j - 1 <= q < i ==> Strcmp(s[q], x) > 0
  {
    assert before[j - 1] == s[j - 1];
    assert s[..j] == s[..j - 1] + [s[j - 1]];
    assert s[j - 1..i] == [s[j - 1]] + s[j..i];
  }

  /** The array after one insertion step is `s` with `s[i]` moved to position `j`. */
  lemma Inserted(s: seq<Name>, i: nat, j: nat)
    requires j <= i < |s| && IsSorted(s[..i])
    requires j > 0 ==> Strcmp(s[j - 1], s[i]) <= 0
    requires forall q :: j <= q < i ==> Strcmp(s[q], s[i]) > 0
    ensures var r := s[..j] + [s[i]] + s[j..i] + s[i + 1..];
      IsSorted(r[..i + 1]) && multiset(r) == multiset(s) && r[i + 1..] == s[i + 1..]
  {
    var x := s[i];
    var r := s[..j] + [x] + s[j..i] + s[i + 1..];
    assert IsSorted(r[..i + 1]) by {
      InsertKeepsSorted(s[..i], x, j);
      assert r[..i + 1] == s[..i][..j] + [x] + s[..i][j..];
    }
    MovePermutes(s, i, j);
    assert r[i + 1..] == s[i + 1..];
  }

  lemma MovePermutes<T>(s: seq<T>, i: nat, j: nat)
    requires j <= i < |s|
    ensures multiset(s[..j] + [s[i]] + s[j..i] + s[i + 1..]) == multiset(s)
  {
    assert s == s[..j] + s[j..i] + [s[i]] + s[i + 1..];
  }

  /** Placing `x` after every name not above it and before every name above it keeps a list sorted. */
  lemma InsertKeepsSorted(s: seq<Name>, x: Name, j: nat)
    requires IsSorted(s) && j <= |s|
    requires j > 0 ==> Strcmp(s[j - 1], x) <= 0
    requires forall q :: j <= q < |s| ==> Strcmp(s[q], x) > 0
    ensures IsSorted(s[..j] + [x] + s[j..])
  {
    var r := s[..j] + [x] + s[j..];
    forall p, q | 0 <= p < q < |r| ensures Strcmp(r[p], r[q]) <= 0 {
      if q < j {
        assert r[p] == s[p] && r[q] == s[q];
      } else if q == j {
        assert r[p] == s[p];
        if p < j - 1 { StrcmpTransitive(s[p], s[j - 1], x); }
      } else if p == j {
        assert r[q] == s[q - 1];
        StrcmpAntisymmetric(s[q - 1], x);
      } else if p < j {
        assert r[p] == s[p] && r[q] == s[q - 1];
      } else {
        assert r[p] == s[p - 1] && r[q] == s[q - 1];
      }
    }
  }
}
