/**
 * The parts of Python's `posixpath` that the script uses on file names: `basename`,
 * `dirname`, `join` with two arguments and the root half of `splitext`. Paths are
 * POSIX paths: `/` is the only separator.
 */
module Paths {
  import opened Wrappers
  import opened TextUtil

  predicate AllSlashes(s: string) {
    forall i :: 0 <= i < |s| ==> s[i] == '/'
  }

  /** `os.path.basename`: everything after the last `/`. */
  function Basename(p: string): (b: string)
    ensures '/' !in b
    ensures |b| <= |p| && p[|p| - |b|..] == b
    ensures |b| < |p| ==> p[|p| - |b| - 1] == '/'
  {
    match LastIndexOf(p, '/')
    case None => p
    case Some(i) =>
      p[i + 1..]
  }

  /** A name without a separator is its own basename. */
  lemma BasenameOfName(b: string)
    requires '/' !in b
    ensures Basename(b) == b
  {
  }

  /** The last `/` of `a + b` is at `i` when it is the last of `a` and `b` has none. */
  lemma {:induction false} LastSlashOfAppend(a: string, b: string)
    requires a != [] && a[|a| - 1] == '/' && '/' !in b
    ensures LastIndexOf(a + b, '/') == Some(|a| - 1)
    decreases |b|
  {
    if b == [] {
      assert a + b == a;
    } else {
      var s := a + b;
      assert s[|s| - 1] == b[|b| - 1];
      assert s[..|s| - 1] == a + b[..|b| - 1];
      LastSlashOfAppend(a, b[..|b| - 1]);
    }
  }

  /** `str.rstrip('/')`. */
  function TrimSlashes(s: string): (r: string)
    ensures |r| <= |s| && s[..|r|] == r
    ensures r == [] || r[|r| - 1] != '/'
    ensures AllSlashes(s[|r|..])
    ensures r == [] ==> AllSlashes(s)
    decreases |s|
  {
    if s != [] && s[|s| - 1] == '/' then
      var r := TrimSlashes(s[..|s| - 1]);
      assert s[|r|..] == s[..|s| - 1][|r|..] + ['/'];
      r
    else s
  }

  /** `os.path.dirname`: everything up to the last `/`, with the trailing slashes removed
      unless there is nothing but slashes. */
  function Dirname(p: string): (d: string)
    ensures |d| <= |p| && p[..|d|] == d
    ensures d == [] <==> '/' !in p
    ensures d != [] && d[|d| - 1] == '/' ==> AllSlashes(d)
  {
    var head := match LastIndexOf(p, '/') case None => [] case Some(i) => p[..i + 1];
    if head != [] && !AllSlashes(head) then
      var d := TrimSlashes(head);
      d
    else head
  }

  /** A path is its directory, a run of separators, and its basename. */
  lemma DirnameBasename(p: string) returns (mid: string)
    ensures AllSlashes(mid)
    ensures p == Dirname(p) + mid + Basename(p)
  {
    var d, b := Dirname(p), Basename(p);
    match LastIndexOf(p, '/')
    case None =>
      mid := [];
    case Some(i) =>
      var head := p[..i + 1];
      assert b == p[i + 1..];
      assert p == head + b;
      if head != [] && !AllSlashes(head) {
        mid := head[|d|..];
        assert head == d + mid;
      } else {
        mid := [];
        assert d == head;
      }
  }

  /** `os.path.join(a, b)`: `b` when it is absolute, otherwise `b` after `a` with one
      separator between them unless `a` is empty or already ends in one. */
  function PathJoin(a: string, b: string): (r: string)
    ensures StartsWith(b, "/") ==> r == b
    ensures !StartsWith(b, "/") ==> StartsWith(r, a) && EndsWith(r, b) && |r| <= |a| + 1 + |b|
  {
    if StartsWith(b, "/") then b
    else if a == [] || a[|a| - 1] == '/' then a + b
    else a + "/" + b
  }

  /** Joining a directory as `dirname` returns it with a plain name gives back both
      halves: the directory is the new path's directory, the name its basename. */
  lemma JoinSplitsBack(d: string, b: string)
    requires d != [] && (d[|d| - 1] == '/' ==> AllSlashes(d))
    requires '/' !in b
    ensures Dirname(PathJoin(d, b)) == d
    ensures Basename(PathJoin(d, b)) == b
  {
    var p := PathJoin(d, b);
    var head := if d[|d| - 1] == '/' then d else d + "/";
    assert !StartsWith(b, "/") by {
      if b != [] {
        assert b[..1][0] == b[0];
      }
    }
    assert p == head + b;
    LastSlashOfAppend(head, b);
    assert p[..|head|] == head;
    assert p[|head|..] == b;
    if d[|d| - 1] != '/' {
      assert !AllSlashes(head) by {
        assert head[|d| - 1] != '/';
      }
      assert head[..|head| - 1] == d;
      assert TrimSlashes(head) == d;
    }
  }

  /** A base name's leading dots do not start an extension. */
  predicate AllDots(s: string) {
    forall i :: 0 <= i < |s| ==> s[i] == '.'
  }

  /** The root half of `os.path.splitext`: the path without the text from the last `.`
      of its basename, unless nothing but dots precedes that `.` in the basename. */
  function SplitExtRoot(p: string): (r: string)
    ensures |r| <= |p| && p[..|r|] == r
    ensures r != p ==> p[|r|] == '.' && '.' !in p[|r| + 1..] && '/' !in p[|r| + 1..]
  {
    match LastIndexOf(p, '.')
    case None => p
    case Some(dot) =>
      var start := match LastIndexOf(p, '/') case None => 0 case Some(j) => j + 1;
      if start <= dot && !AllDots(p[start..dot]) then
        p[..dot]
      else p
  }

  /** The extension is dropped from the last dot of a name that has a non-dot before it. */
  lemma SplitExtRootAt(p: string, dot: nat)
    requires dot < |p| && p[dot] == '.' && '.' !in p[dot + 1..] && '/' !in p
    requires !AllDots(p[..dot])
    ensures SplitExtRoot(p) == p[..dot]
  {
    LastIndexOfIs(p, '.', dot);
  }

  /** A name whose only dots lead it keeps them all (`.bashrc`). */
  lemma SplitExtRootOfDotfile(p: string, dot: nat)
    requires dot < |p| && p[dot] == '.' && '.' !in p[dot + 1..] && '/' !in p
    requires AllDots(p[..dot])
    ensures SplitExtRoot(p) == p
  {
    LastIndexOfIs(p, '.', dot);
  }
}
