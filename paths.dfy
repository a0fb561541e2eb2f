/**
  Path construction as the walk callback uses it: `filepath.Join` of a
  directory and one name, and `filepath.Base` of a walked path. Paths are
  plain strings with '/' as the separator; no cleaning is modelled.
 */
module Paths {
  import opened Strings

  const Separator: char := '/'

  /** `dir` followed by the separator and `name`. */
  function Join(dir: string, name: string): (p: string)
    ensures |p| == |dir| + 1 + |name|
  {
    dir + [Separator] + name
  }

  /** The last segment of `path`: everything after its last separator. */
  function Base(path: string): (b: string)
    ensures Separator !in b
    ensures |b| <= |path| && b == path[|path| - |b|..]
    ensures |b| < |path| ==> path[|path| - |b| - 1] == Separator
  {
    var k := LastIndex(path, Separator);
    path[k + 1..]
  }

  /** `p` lies strictly inside directory `dir`. */
  predicate Below(dir: string, p: string) {
    |p| >= |dir| + 1 && p[..|dir| + 1] == dir + [Separator]
  }

  /** The base of a joined path is the name that was joined on. */
  lemma BaseOfJoin(dir: string, name: string)
    requires Separator !in name
    ensures Base(Join(dir, name)) == name
  {
    var p := Join(dir, name);
    var k := LastIndex(p, Separator);
    assert p[|dir|] == Separator;
    assert k == |dir|;
  }

  /** Everything joined onto `dir`, directly or one level further down, lies below `dir`. */
  lemma JoinBelow(dir: string, name: string, leaf: string)
    ensures Below(dir, Join(dir, name))
    ensures Below(dir, Join(Join(dir, name), leaf))
    ensures Join(dir, name) != Join(Join(dir, name), leaf)
  {
    var p := Join(dir, name);
    assert p[..|dir| + 1] == dir + [Separator];
    var q := Join(p, leaf);
    assert q[..|dir| + 1] == p[..|dir| + 1];
  }

  /** No path lies below itself. */
  lemma NotBelowSelf(dir: string)
    ensures !Below(dir, dir)
  {
  }
}
