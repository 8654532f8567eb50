/**
 * Directory entry names and the byte-wise order `strcmp` puts on them.
 * A name is a C string without its terminating NUL; each `char` stands for
 * one byte of it, so `|name|` is what `strlen` returns.
 */
module Names {

  type Name = string

  /** The sign of `strcmp(a, b)`: byte by byte, and a proper prefix sorts first
      (its terminating NUL is smaller than any byte of a name). */
  function Strcmp(a: Name, b: Name): (r: int)
    ensures -1 <= r <= 1
  {
    if a == [] && b == [] then 0
    else if a == [] then -1
    else if b == [] then 1
    else if a[0] < b[0] then -1
    else if b[0] < a[0] then 1
    else Strcmp(a[1..], b[1..])
  }

  /** `strcmp` returns 0 exactly for equal names. */
  lemma {:induction false} StrcmpZero(a: Name, b: Name)
    ensures Strcmp(a, b) == 0 <==> a == b
  {
    if a != [] && b != [] && a[0] == b[0] {
      StrcmpZero(a[1..], b[1..]);
      assert a == [a[0]] + a[1..] && b == [b[0]] + b[1..];
    }
  }

  /** The lexicographic order on byte strings, stated without recursion:
      either `a` is a proper prefix of `b`, or they first differ at some `k`
      where `a` has the smaller byte. */
  ghost predicate ByteLess(a: Name, b: Name) {
    (|a| < |b| && a == b[..|a|]) ||
    exists k :: 0 <= k < |a| && k < |b| && a[..k] == b[..k] && a[k] < b[k]
  }

  lemma {:induction false} StrcmpIsByteOrder(a: Name, b: Name)
    ensures Strcmp(a, b) < 0 <==> ByteLess(a, b)
  {
    if a == [] || b == [] {
    } else if a[0] < b[0] {
      assert a[..0] == b[..0];
    } else if b[0] < a[0] {
      if ByteLess(a, b) {
        if |a| < |b| && a == b[..|a|] {
          assert a[0] == b[0];
        } else {
          var k :| 0 <= k < |a| && k < |b| && a[..k] == b[..k] && a[k] < b[k];
          if k == 0 {
          } else {
            assert a[..k][0] == b[..k][0];
          }
        }
      }
    } else {
      StrcmpIsByteOrder(a[1..], b[1..]);
      if ByteLess(a[1..], b[1..]) {
        if |a[1..]| < |b[1..]| && a[1..] == b[1..][..|a[1..]|] {
          assert a == b[..|a|];
        } else {
          var k :| 0 <= k < |a[1..]| && k < |b[1..]| && a[1..][..k] == b[1..][..k] && a[1..][k] < b[1..][k];
          assert a[..k + 1] == [a[0]] + a[1..][..k];
          assert b[..k + 1] == [b[0]] + b[1..][..k];
          assert a[k + 1] < b[k + 1];
        }
      }
      if ByteLess(a, b) {
        if |a| < |b| && a == b[..|a|] {
          assert a[1..] == b[1..][..|a[1..]|];
        } else {
          var k :| 0 <= k < |a| && k < |b| && a[..k] == b[..k] && a[k] < b[k];
          assert k != 0;
          assert a[1..][..k - 1] == a[..k][1..];
          assert b[1..][..k - 1] == b[..k][1..];
          assert a[1..][k - 1] < b[1..][k - 1];
        }
      }
    }
  }

  /** Swapping the arguments of `strcmp` flips the sign. */
  lemma {:induction false} StrcmpAntisymmetric(a: Name, b: Name)
    ensures Strcmp(a, b) == -Strcmp(b, a)
  {
    if a != [] && b != [] && a[0] == b[0] {
      StrcmpAntisymmetric(a[1..], b[1..]);
    }
  }

  /** `strcmp(a, b) <= 0` is transitive, so it is a total preorder (an order, with the
      equality clause of `Strcmp`) on which `qsort` can rely. */
  lemma {:induction false} StrcmpTransitive(a: Name, b: Name, c: Name)
    requires Strcmp(a, b) <= 0 && Strcmp(b, c) <= 0
    ensures Strcmp(a, c) <= 0
  {
    if a != [] && b != [] && c != [] && a[0] == b[0] && b[0] == c[0] {
      StrcmpTransitive(a[1..], b[1..], c[1..]);
    }
  }

  /** A name starting with `.` is hidden and never listed. */
  predicate IsHidden(name: Name) {
    |name| > 0 && name[0] == '.'
  }

  /** `pat` occurs in `s` starting at position `i`. */
  ghost predicate InfixAt(s: string, pat: string, i: int) {
    0 <= i && i + |pat| <= |s| && s[i..i + |pat|] == pat
  }

  /** `pat` occurs in `s` at some position. */
  ghost predicate HasInfix(s: string, pat: string) {
    exists i :: InfixAt(s, pat, i)
  }

  /** `strstr(s, pat) != NULL`. */
  function Contains(s: string, pat: string): (r: bool)
    ensures r <==> HasInfix(s, pat)
    decreases |s|
  {
    if |s| < |pat| then false
    else if s[..|pat|] == pat then assert InfixAt(s, pat, 0); true
    else
      var r := Contains(s[1..], pat);
      assert r ==> HasInfix(s, pat) by {
        if r {
          var i :| InfixAt(s[1..], pat, i);
          assert s[i + 1..i + 1 + |pat|] == pat;
          assert InfixAt(s, pat, i + 1);
        }
      }
      assert HasInfix(s, pat) ==> r by {
        if HasInfix(s, pat) {
          var i :| InfixAt(s, pat, i);
          assert i != 0;
          assert s[1..][i - 1..i - 1 + |pat|] == pat;
          assert InfixAt(s[1..], pat, i - 1);
        }
      }
      r
  }
}
