/** The string operations the column rules are written with: Python's
    `str.endswith`, the substring test a literal regular expression performs
    under `re.search`, and `str.replace(p, "")`. */
module Strings {

  predicate StartsWith(s: string, p: string) {
    |p| <= |s| && s[..|p|] == p
  }

  predicate EndsWith(s: string, p: string) {
    |p| <= |s| && s[|s| - |p|..] == p
  }

  /** `p` occurs somewhere in `s`. */
  predicate Contains(s: string, p: string)
    decreases |s|
  {
    StartsWith(s, p) || (|s| > 0 && Contains(s[1..], p))
  }

  /** A string ending with `p` contains it. */
  lemma {:induction false} EndsWithContains(s: string, p: string)
    requires EndsWith(s, p)
    ensures Contains(s, p)
    decreases |s|
  {
    if |s| > |p| {
      assert s[1..][|s| - 1 - |p|..] == s[|s| - |p|..];
      EndsWithContains(s[1..], p);
    }
  }

  /** `s` cannot contain `p` when some character of `p` is not in `s`. */
  lemma {:induction false} MissingCharNotContained(s: string, p: string, j: nat)
    requires j < |p| && p[j] !in s
    ensures !Contains(s, p)
    decreases |s|
  {
    if |p| <= |s| {
      assert s[..|p|][j] == s[j];
    }
    if |s| > 0 {
      assert forall c <- s[1..] :: c in s;
      MissingCharNotContained(s[1..], p, j);
    }
  }

  /** An occurrence of `p` in `a + b` lies in `b` when `a` does not hold the
      first character of `p`. */
  lemma {:induction false} ContainsAfterHead(a: string, b: string, p: string)
    requires |p| > 0 && p[0] !in a
    ensures Contains(a + b, p) ==> Contains(b, p)
    decreases |a|
  {
    if a == [] {
      assert a + b == b;
    } else {
      assert a[0] in a && (a + b)[0] == a[0];
      assert (a + b)[1..] == a[1..] + b;
      assert forall c <- a[1..] :: c in a;
      ContainsAfterHead(a[1..], b, p);
    }
  }

  /** `s.replace(p, "")`: the occurrences of `p`, found left to right without
      overlapping, are deleted. */
  function RemoveAll(s: string, p: string): (r: string)
    requires |p| > 0
    ensures |r| <= |s|
    ensures !Contains(s, p) ==> r == s
    decreases |s|
  {
    if |s| < |p| then s
    else if s[..|p|] == p then RemoveAll(s[|p|..], p)
    else [s[0]] + RemoveAll(s[1..], p)
  }

  /** No proper prefix of `p` is also a suffix of it, so an occurrence of `p`
      cannot begin inside another one. */
  ghost predicate BorderFree(p: string) {
    forall k :: 0 < k < |p| ==> p[..k] != p[|p| - k..]
  }

  /** A pattern whose first character does not recur in it is border-free. */
  lemma UniqueHeadBorderFree(p: string)
    requires |p| > 0
    requires forall j :: 0 < j < |p| ==> p[j] != p[0]
    ensures BorderFree(p)
  {
    forall k | 0 < k < |p|
      ensures p[..k] != p[|p| - k..]
    {
      assert p[..k][0] == p[0];
      assert p[|p| - k..][0] == p[|p| - k];
    }
  }

  /** An occurrence of `p` that begins inside a shorter `x` and runs into a
      following copy of `p` makes a proper prefix of `p` equal to its suffix. */
  lemma StraddleGivesBorder(x: string, p: string)
    requires 0 < |x| < |p| && (x + p)[..|p|] == p
    ensures p[|x|..] == p[..|p| - |x|]
  {
    var s := x + p;
    assert p[|x|..] == s[..|p|][|x|..] == s[|x|..|p|];
    assert s[|x|..|p|] == p[..|p| - |x|];
  }

  /** Deleting every occurrence of a border-free suffix from a name that does
      not otherwise contain it gives back the stem. */
  lemma {:induction false} RemoveAllSuffix(x: string, p: string)
    requires |p| > 0 && BorderFree(p) && !Contains(x, p)
    ensures RemoveAll(x + p, p) == x
  {
    var s := x + p;
    if x == [] {
      assert s == p && s[..|p|] == p && s[|p|..] == [];
    } else if s[..|p|] == p {
      // an occurrence at the start would lie in x or straddle x and p
      if |x| >= |p| {
        assert false;
      } else {
        StraddleGivesBorder(x, p);
        assert false;
      }
    } else {
      assert s[1..] == x[1..] + p;
      assert !Contains(x[1..], p);
      RemoveAllSuffix(x[1..], p);
      assert x == [x[0]] + x[1..];
    }
  }

  /** The two provenance suffixes are border-free. */
  lemma SuffixesBorderFree()
    ensures BorderFree("_books") && BorderFree("_gstn")
  {
    UniqueHeadBorderFree("_books");
    UniqueHeadBorderFree("_gstn");
  }
}
