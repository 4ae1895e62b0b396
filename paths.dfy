/** The path operations and the file-system view the loader and the runtime
    use. `craftr.utils.path` is not part of this model; its `join`,
    `basename`, `dirname`, `isdir` and `isfile` are taken to be those of
    POSIX `os.path`, and the file system is a map from path strings to
    nodes (no normalisation, no links). */
module Paths {

  datatype Node = Dir | File(contents: string)

  type Tree = map<string, Node>

  /** `os.path.isdir(p)`; the empty path is never a directory. */
  predicate IsDir(fs: Tree, p: string) {
    p != "" && p in fs && fs[p].Dir?
  }

  /** `os.path.isfile(p)`. */
  predicate IsFile(fs: Tree, p: string) {
    p != "" && p in fs && fs[p].File?
  }

  /** Number of characters before the text that follows the last `/`. */
  function AfterLastSlash(p: string): (i: nat)
    ensures i <= |p|
    ensures '/' !in p[i..]
    ensures i > 0 ==> p[i - 1] == '/'
  {
    if p == [] then 0
    else if p[|p| - 1] == '/' then |p|
    else AfterLastSlash(p[..|p| - 1])
  }

  /** `os.path.basename(p)`: the text after the last `/`. */
  function Basename(p: string): (b: string)
    ensures '/' !in b
    ensures |b| <= |p| && p[|p| - |b|..] == b
  {
    p[AfterLastSlash(p)..]
  }

  /** `os.path.join(a, b)` for two components: `b` when it is absolute,
      otherwise `b` appended after a separator that `a` does not already
      end with. */
  function JoinPath(a: string, b: string): (r: string)
    ensures b != [] && b[0] == '/' ==> r == b
  {
    if b != [] && b[0] == '/' then b
    else if a == [] || a[|a| - 1] == '/' then a + b
    else a + "/" + b
  }

  /** Joining a relative component to a directory that does not end in
      `/` puts exactly that component after one separator, so the parent of
      the result is the directory again. */
  lemma JoinPathParent(a: string, b: string)
    requires a != [] && a[|a| - 1] != '/'
    requires b != [] && '/' !in b
    ensures JoinPath(a, b) == a + "/" + b
    ensures Basename(JoinPath(a, b)) == b
  {
    var r := a + "/" + b;
    assert r[|a|] == '/';
    BasenameAfter(a + "/", b);
  }

  lemma {:induction false} BasenameAfter(a: string, b: string)
    requires a != [] && a[|a| - 1] == '/'
    requires '/' !in b
    ensures Basename(a + b) == b
    decreases |b|
  {
    if b == [] {
      assert a + b == a;
    } else {
      assert (a + b)[..|a + b| - 1] == a + b[..|b| - 1];
      BasenameAfter(a, b[..|b| - 1]);
    }
  }

  /** `s.rstrip('/')`. */
  function TrimSlashes(s: string): (r: string)
    ensures |r| <= |s| && r == s[..|r|]
  {
    if |s| > 0 && s[|s| - 1] == '/' then TrimSlashes(s[..|s| - 1]) else s
  }

  /** `os.path.dirname(p)`: the text up to the last `/`, without its
      trailing slashes unless it is nothing but slashes. */
  function Dirname(p: string): string {
    var head := p[..AfterLastSlash(p)];
    if exists i :: 0 <= i < |head| && head[i] != '/' then TrimSlashes(head) else head
  }

  /** The directory of a joined path is the directory joined to. */
  lemma DirnameOfJoin(a: string, b: string)
    requires a != [] && a[|a| - 1] != '/'
    requires b != [] && '/' !in b
    ensures Dirname(JoinPath(a, b)) == a
  {
    JoinPathParent(a, b);
    var p := a + "/" + b;
    assert p == (a + "/") + b;
    assert |Basename(p)| == |p| - AfterLastSlash(p);
    assert AfterLastSlash(p) == |a| + 1;
    var head := p[..|a| + 1];
    assert head == a + "/";
    assert head[|a| - 1] != '/';
    assert head[..|head| - 1] == a;
    assert TrimSlashes(head) == TrimSlashes(a) == a;
    assert exists i :: 0 <= i < |head| && head[i] != '/' by {
      assert head[|a| - 1] != '/';
    }
  }
}
