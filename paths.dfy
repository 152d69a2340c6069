/** Slash-separated path names, as the controller uses them: the suffix test of
    Go's strings.HasSuffix and the two path/filepath helpers Join and Base, on
    Unix-style paths (the separator is '/', there are no volume names). */
module Paths {

  const Separator: char := '/'

  /** strings.HasSuffix: s ends with suffix. */
  predicate HasSuffix(s: string, suffix: string) {
    |suffix| <= |s| && s[|s| - |suffix|..] == suffix
  }

  /** A string ends with a suffix exactly when it is some prefix followed by
      that suffix. */
  lemma SuffixMeansAppended(s: string, suffix: string)
    ensures HasSuffix(s, suffix) <==> exists prefix :: s == prefix + suffix
  {
    if HasSuffix(s, suffix) {
      assert s == s[..|s| - |suffix|] + suffix;
    }
    if exists prefix :: s == prefix + suffix {
      var prefix :| s == prefix + suffix;
      assert s[|s| - |suffix|..] == suffix;
    }
  }

  /** A single path element: what a directory listing reports as an entry's
      name. It is never empty and holds no separator. */
  predicate IsElement(name: string) {
    name != [] && Separator !in name
  }

  /** filepath.Join of a directory and one entry name. A non-empty directory
      and the name are joined by exactly one separator; an empty directory
      contributes nothing. */
  function Join(dir: string, name: string): (p: string)
    ensures HasSuffix(p, name)
    ensures |p| >= |dir| && p[..|dir|] == dir
    ensures dir != [] && dir[|dir| - 1] != Separator ==> |p| == |dir| + 1 + |name| && p[|dir|] == Separator
    ensures dir == [] || dir[|dir| - 1] == Separator ==> |p| == |dir| + |name|
  {
    if dir == [] then name
    else if dir[|dir| - 1] == Separator then dir + name
    else dir + [Separator] + name
  }

  /** The path with every trailing separator removed. */
  function StripTrailingSeparators(p: string): (q: string)
    ensures |q| <= |p| && q == p[..|q|]
    ensures q == [] || q[|q| - 1] != Separator
  {
    if p != [] && p[|p| - 1] == Separator then StripTrailingSeparators(p[..|p| - 1]) else p
  }

  /** The characters after the last separator of p (all of p if it has none). */
  function LastElement(p: string): (e: string)
    ensures Separator !in e
    ensures |e| <= |p| && e == p[|p| - |e|..]
  {
    if p == [] || p[|p| - 1] == Separator then []
    else LastElement(p[..|p| - 1]) + [p[|p| - 1]]
  }

  /** filepath.Base: the last element of a path. The empty path gives ".",
      a path made only of separators gives "/", and trailing separators are
      ignored. */
  function Base(p: string): (b: string)
    ensures b != []
    ensures Separator !in b || b == [Separator]
  {
    if p == [] then "."
    else
      var q := StripTrailingSeparators(p);
      if q == [] then [Separator] else LastElement(q)
  }

  /** Whatever precedes an element (nothing, or text ending in a separator) is
      cut off by LastElement. */
  lemma {:induction false} LastElementAfterSeparator(prefix: string, name: string)
    requires prefix == [] || prefix[|prefix| - 1] == Separator
    requires Separator !in name
    ensures LastElement(prefix + name) == name
    decreases |name|
  {
    if name == [] {
      assert prefix + name == prefix;
    } else {
      var p := prefix + name;
      var init, last := name[..|name| - 1], name[|name| - 1];
      assert last in name;
      assert p[|p| - 1] == last && last != Separator;
      assert p[..|p| - 1] == prefix + init;
      assert LastElement(p) == LastElement(prefix + init) + [last];
      LastElementAfterSeparator(prefix, init);
      assert init + [last] == name;
    }
  }

  /** Base undoes Join: the base name of a joined path is the entry name. */
  lemma {:induction false} BaseOfJoin(dir: string, name: string)
    requires IsElement(name)
    ensures Base(Join(dir, name)) == name
  {
    var p := Join(dir, name);
    var prefix := if dir == [] then [] else if dir[|dir| - 1] == Separator then dir else dir + [Separator];
    assert p == prefix + name;
    assert p[|p| - 1] == name[|name| - 1];
    assert StripTrailingSeparators(p) == p;
    LastElementAfterSeparator(prefix, name);
  }

  /** A name that ends in a suffix keeps it when joined onto a directory. */
  lemma JoinKeepsSuffix(dir: string, name: string, suffix: string)
    requires HasSuffix(name, suffix)
    ensures HasSuffix(Join(dir, name), suffix)
  {
  }
}
