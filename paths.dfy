/**
 * `System.IO.Path.Combine` as it behaves on the '/'-separated file system of
 * the device, and the two relations between paths the rest of the model
 * needs: the ancestors a path has, and whether one path lies at or beneath
 * another.
 */
module Paths {
  const Separator: char := '/'

  predicate IsRooted(p: string) {
    |p| > 0 && p[0] == Separator
  }

  predicate EndsWith(s: string, suffix: string) {
    |suffix| <= |s| && s[|s| - |suffix|..] == suffix
  }

  predicate HasNoSeparator(s: string) {
    forall k :: 0 <= k < |s| ==> s[k] != Separator
  }

  /**
   * Joins two paths: an empty operand yields the other one, a rooted right
   * operand replaces the left one, and otherwise a separator is inserted
   * unless the left operand already ends in one.
   */
  function Combine(a: string, b: string): (r: string)
    ensures |b| == 0 ==> r == a
    ensures IsRooted(b) ==> r == b
    ensures EndsWith(r, b)
    ensures !IsRooted(b) ==> a <= r
  {
    if |a| == 0 then b
    else if |b| == 0 then a
    else if IsRooted(b) then b
    else if a[|a| - 1] == Separator then a + b
    else a + [Separator] + b
  }

  /** The proper prefixes of p that end just before one of its separators. */
  function Ancestors(p: string): (r: set<string>)
    ensures forall a :: a in r ==> a < p
  {
    set i | 0 < i < |p| && p[i] == Separator :: p[..i]
  }

  /** q is p itself or a path inside the directory p. */
  predicate Beneath(q: string, p: string) {
    q == p || p + [Separator] <= q
  }

  /** Joining a name without separators to a directory makes a direct child of it. */
  lemma CombineChild(a: string, n: string)
    requires |a| > 0 && a[|a| - 1] != Separator
    requires |n| > 0 && HasNoSeparator(n)
    ensures Combine(a, n) == a + [Separator] + n
    ensures Ancestors(Combine(a, n)) == Ancestors(a) + {a}
  {
    var p := a + [Separator] + n;
    forall x | x in Ancestors(p) ensures x in Ancestors(a) + {a} {
      var i :| 0 < i < |p| && p[i] == Separator && x == p[..i];
      if i < |a| {
        assert a[i] == Separator && x == a[..i];
      } else if i == |a| {
        assert x == a;
      }
    }
    forall x | x in Ancestors(a) + {a} ensures x in Ancestors(p) {
      if x == a {
        assert p[|a|] == Separator && p[..|a|] == a;
      } else {
        var i :| 0 < i < |a| && a[i] == Separator && x == a[..i];
        assert p[i] == Separator && p[..i] == x;
      }
    }
  }

  /** Every ancestor of an ancestor of p is an ancestor of p. */
  lemma AncestorsTransitive(a: string, p: string)
    requires a in Ancestors(p)
    ensures Ancestors(a) <= Ancestors(p)
  {
    forall b | b in Ancestors(a) ensures b in Ancestors(p) {
      var i :| 0 < i < |p| && p[i] == Separator && a == p[..i];
      var j :| 0 < j < |a| && a[j] == Separator && b == a[..j];
      assert p[j] == Separator && p[..j] == b;
    }
  }

  /**
   * Two different separator-free names under one directory: nothing at or
   * beneath the second child lies at or beneath the first.
   */
  lemma SiblingsApart(root: string, a: string, b: string, tail: string)
    requires a != b && |a| > 0 && HasNoSeparator(a) && HasNoSeparator(b)
    requires tail == [] || tail[0] == Separator
    ensures !Beneath(root + [Separator] + b + tail, root + [Separator] + a)
  {
    var n := |root| + 1;
    var p, q := root + [Separator] + a, root + [Separator] + b + tail;
    if |a| < |b| {
      assert q[n + |a|] == b[|a|] != Separator;
      assert q[..n + |a|] == root + [Separator] + b[..|a|];
    } else if |a| == |b| {
      var k :| 0 <= k < |a| && a[k] != b[k];
      assert p[n + k] == a[k] && q[n + k] == b[k];
    } else if tail != [] {
      assert q[n + |b|] == Separator != a[|b|] == p[n + |b|];
    } else {
      assert |q| < |p|;
    }
  }
}
