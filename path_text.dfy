/** Splitting path strings at separators, the way `split(sep).pop()` and
    `path.basename` take the last component. */
module PathText {

  /** The text after the last character from `seps`, or all of `s` when
      none occurs: the last element of `s.split(...)`. */
  function AfterLast(s: string, seps: set<char>): (r: string)
    ensures |r| <= |s| && r == s[|s| - |r|..]
    ensures forall i | 0 <= i < |r| :: r[i] !in seps
    ensures |r| < |s| ==> s[|s| - |r| - 1] in seps
  {
    if s == [] then []
    else if s[|s| - 1] in seps then []
    else
      var init := s[..|s| - 1];
      var r := AfterLast(init, seps) + [s[|s| - 1]];
      assert init[|init| - (|r| - 1)..] + [s[|s| - 1]] == s[|s| - |r|..];
      r
  }

  /** With no separator in `s`, the whole string is its last component. */
  lemma AfterLastNoSeparator(s: string, seps: set<char>)
    requires forall i | 0 <= i < |s| :: s[i] !in seps
    ensures AfterLast(s, seps) == s
  {
  }

  /** A string is its prefix up to the last separator followed by the
      last component. */
  lemma AfterLastSplit(s: string, seps: set<char>)
    ensures var r := AfterLast(s, seps);
      s == s[..|s| - |r|] + r
  {
  }

  /** The last component is the only suffix free of separators that is
      either all of `s` or preceded by a separator. */
  lemma AfterLastUnique(s: string, seps: set<char>, t: string)
    requires |t| <= |s| && t == s[|s| - |t|..]
    requires forall i | 0 <= i < |t| :: t[i] !in seps
    requires |t| == |s| || s[|s| - |t| - 1] in seps
    ensures AfterLast(s, seps) == t
  {
  }

  /** A last component is a suffix free of separators that is all of its
      string or follows a separator. */
  predicate IsLastComponent(s: string, seps: set<char>, t: string) {
    && |t| <= |s| && t == s[|s| - |t|..]
    && (forall i | 0 <= i < |t| :: t[i] !in seps)
    && (|t| == |s| || s[|s| - |t| - 1] in seps)
  }

  /** A last component of a last component is a last component for both
      sets of separators. */
  lemma LastComponentChain(s: string, a: string, b: string, first: set<char>, second: set<char>, both: set<char>)
    requires IsLastComponent(s, first, a) && IsLastComponent(a, second, b)
    requires forall c :: c in both <==> c in first || c in second
    ensures IsLastComponent(s, both, b)
  {
    forall i | 0 <= i < |b| ensures b[i] !in both {
      assert b[i] == a[|a| - |b| + i];
    }
    if |b| < |a| {
      assert s[|s| - |b| - 1] == a[|a| - |b| - 1];
    }
  }

  /** Taking the last component by one set of separators and then by
      another is taking it by both at once. */
  lemma AfterLastTwice(s: string, first: set<char>, second: set<char>, both: set<char>)
    requires forall c :: c in both <==> c in first || c in second
    ensures AfterLast(AfterLast(s, first), second) == AfterLast(s, both)
  {
    var a := AfterLast(s, first);
    var b := AfterLast(a, second);
    LastComponentChain(s, a, b, first, second, both);
    AfterLastUnique(s, both, b);
  }

  /** `s` without the characters `c` it ends with. */
  function StripTrailing(s: string, c: char): (r: string)
    ensures |r| <= |s| && r == s[..|r|]
    ensures r == [] || r[|r| - 1] != c
    ensures forall i | |r| <= i < |s| :: s[i] == c
  {
    if s != [] && s[|s| - 1] == c then StripTrailing(s[..|s| - 1], c) else s
  }

  /** `path.basename` on POSIX paths: the last component once trailing
      slashes are removed. */
  function BaseName(p: string): (r: string)
    ensures forall i | 0 <= i < |r| :: r[i] != '/'
  {
    AfterLast(StripTrailing(p, '/'), {'/'})
  }

  /** A path that does not end in a slash has as base name its text after
      the last slash, and that text ends the path. */
  lemma BaseNameSuffix(p: string)
    requires p != [] && p[|p| - 1] != '/'
    ensures BaseName(p) == AfterLast(p, {'/'})
    ensures p == p[..|p| - |BaseName(p)|] + BaseName(p)
  {
  }
}
