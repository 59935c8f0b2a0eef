/** The part of Go's `path/filepath` the tool uses, for slash-separated
    paths: Join, Dir and Base. */
module Paths {

  /** One path component: non-empty and free of separators. */
  predicate Component(c: string) {
    c != [] && '/' !in c
  }

  predicate AllComponents(rel: seq<string>) {
    forall k :: 0 <= k < |rel| ==> Component(rel[k])
  }

  /** An absolute, non-root directory path with no trailing separator, as
      every search root is. */
  predicate WellFormedRoot(r: string) {
    |r| >= 2 && r[0] == '/' && r[|r| - 1] != '/'
  }

  /** The path reached from `root` through the components `rel`. */
  function Join(root: string, rel: seq<string>): (p: string)
    ensures |p| >= |root| + |rel|
  {
    if rel == [] then root else Join(root, rel[..|rel| - 1]) + "/" + rel[|rel| - 1]
  }

  /** Joining two components, as the per-user roots are built: the parts
      with one separator between each. */
  lemma JoinPair(root: string, a: string, b: string)
    ensures Join(root, [a, b]) == root + "/" + a + "/" + b
  {
    assert [a, b][..1] == [a];
    assert [a][..0] == [];
    assert Join(root, [a]) == root + "/" + a;
    assert Join(root, [a, b]) == Join(root, [a]) + "/" + b;
  }

  /** Joining components to a well-formed root gives a well-formed path. */
  lemma {:induction false} JoinWellFormed(root: string, rel: seq<string>)
    requires WellFormedRoot(root) && AllComponents(rel)
    ensures WellFormedRoot(Join(root, rel))
    decreases |rel|
  {
    if rel != [] {
      JoinWellFormed(root, rel[..|rel| - 1]);
      assert Component(rel[|rel| - 1]);
    }
  }

  /** Index of the last separator in `p`, or -1 when there is none. */
  function LastSlash(p: string): (i: int)
    ensures -1 <= i < |p|
    ensures i >= 0 ==> p[i] == '/'
    ensures forall k :: i < k < |p| ==> p[k] != '/'
  {
    if p == [] then -1
    else if p[|p| - 1] == '/' then |p| - 1
    else LastSlash(p[..|p| - 1])
  }

  /** `filepath.Dir` for a clean path: everything before the last
      separator, "/" when that separator is the first character, "." when
      there is none. */
  function Dir(p: string): string {
    var i := LastSlash(p);
    if i < 0 then "." else if i == 0 then "/" else p[..i]
  }

  /** `filepath.Base` for a path without a trailing separator: everything
      after the last separator. */
  function Base(p: string): string {
    p[LastSlash(p) + 1..]
  }

  lemma {:induction false} LastSlashOfChild(x: string, c: string)
    requires '/' !in c
    ensures LastSlash(x + "/" + c) == |x|
    decreases |c|
  {
    var p := x + "/" + c;
    if c != [] {
      var c' := c[..|c| - 1];
      assert p[|p| - 1] == c[|c| - 1];
      assert p[..|p| - 1] == x + "/" + c';
      LastSlashOfChild(x, c');
    }
  }

  /** The directory of a child path is its parent, and its base is the
      child's own name. */
  lemma DirBaseOfChild(x: string, c: string)
    requires x != [] && x[|x| - 1] != '/' && Component(c)
    ensures Dir(x + "/" + c) == x
    ensures Base(x + "/" + c) == c
  {
    LastSlashOfChild(x, c);
    assert (x + "/" + c)[..|x|] == x;
    assert (x + "/" + c)[|x| + 1..] == c;
  }

  /** A well-formed root is not its own directory. */
  lemma DirOfRoot(r: string)
    requires WellFormedRoot(r)
    ensures Dir(r) != r
  {
    var i := LastSlash(r);
    assert r[0] == '/';
    assert i >= 0;
    assert i < |r| - 1;
  }

  /** `Dir(Join(root, rel)) == root` holds exactly for one component: the
      root itself and everything two or more levels below it fail. */
  lemma {:induction false} DirOfJoin(root: string, rel: seq<string>)
    requires WellFormedRoot(root) && AllComponents(rel)
    ensures Dir(Join(root, rel)) == root <==> |rel| == 1
    ensures |rel| == 1 ==> Join(root, rel) == root + "/" + rel[0] && Base(Join(root, rel)) == rel[0]
  {
    if rel == [] {
      DirOfRoot(root);
    } else {
      var parent := Join(root, rel[..|rel| - 1]);
      assert Component(rel[|rel| - 1]);
      JoinWellFormed(root, rel[..|rel| - 1]);
      DirBaseOfChild(parent, rel[|rel| - 1]);
      if |rel| == 1 {
        assert rel[..0] == [];
      } else {
        assert |parent| >= |root| + 1;
      }
    }
  }
}
