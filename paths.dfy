/** POSIX path arithmetic as Python's `os.path` does it on strings:
    `basename`, `dirname` and two-argument `join`. */
module Paths {

  type Path = string

  /** Python's `p.rfind('/') + 1`: the position just after the last slash,
      or 0 when there is none. */
  function SplitPoint(p: string): (i: nat)
    ensures i <= |p|
    ensures i > 0 ==> p[i - 1] == '/'
    ensures forall k :: i <= k < |p| ==> p[k] != '/'
  {
    if p == [] then 0
    else if p[|p| - 1] == '/' then |p|
    else SplitPoint(p[..|p| - 1])
  }

  /** `os.path.basename`: what follows the last slash. */
  function Basename(p: Path): (b: string)
    ensures '/' !in b
    ensures |b| <= |p| && b == p[|p| - |b|..]
  {
    p[SplitPoint(p)..]
  }

  /** The basename is all of `p` or follows a slash, so it is everything
      after the last slash. */
  lemma BasenameAfterSlash(p: Path)
    ensures var b := Basename(p); |b| == |p| || p[|p| - |b| - 1] == '/'
  {
  }

  predicate AllSlashes(h: string)
  {
    forall k :: 0 <= k < |h| ==> h[k] == '/'
  }

  /** `str.rstrip('/')` */
  function StripTrailingSlashes(h: string): (r: string)
    ensures |r| <= |h| && r == h[..|r|]
    ensures r == [] || r[|r| - 1] != '/'
    ensures forall k :: |r| <= k < |h| ==> h[k] == '/'
  {
    if h != [] && h[|h| - 1] == '/' then StripTrailingSlashes(h[..|h| - 1]) else h
  }

  /** The shape of every result of `Dirname`: empty, all slashes, or not
      ending in a slash. */
  predicate DirShape(d: Path)
  {
    d == [] || AllSlashes(d) || d[|d| - 1] != '/'
  }

  /** `os.path.dirname`: everything up to the last slash, without the
      trailing slashes unless it consists of slashes only. */
  function Dirname(p: Path): (d: Path)
    ensures |d| <= SplitPoint(p) && d == p[..|d|]
    ensures forall k :: |d| <= k < SplitPoint(p) ==> p[k] == '/'
    ensures DirShape(d)
    ensures SplitPoint(p) > 0 ==> d != []
    ensures AllSlashes(p[..SplitPoint(p)]) ==> d == p[..SplitPoint(p)]
  {
    var head := p[..SplitPoint(p)];
    if head != [] && !AllSlashes(head) then StripTrailingSlashes(head) else head
  }

  /** `os.path.join(a, b)`: an absolute `b` replaces `a`; otherwise a slash
      is inserted unless `a` is empty or already ends with one. */
  function Join(a: Path, b: string): (r: Path)
    ensures b != [] && b[0] == '/' ==> r == b
    ensures (b == [] || b[0] != '/') ==> |r| >= |b| && r[|r| - |b|..] == b
  {
    if b != [] && b[0] == '/' then b
    else if a == [] || a[|a| - 1] == '/' then a + b
    else a + "/" + b
  }

  /** A path that `join(dirname(p), basename(p))` gives back unchanged. */
  predicate Canonical(p: Path)
  {
    Join(Dirname(p), Basename(p)) == p
  }

  /** Appending a slash-free name after a slash moves the split point to it. */
  lemma {:induction false} SplitPointAfterSlash(x: string, n: string)
    requires x == [] || x[|x| - 1] == '/'
    requires '/' !in n
    ensures SplitPoint(x + n) == |x|
    decreases |n|
  {
    if n == [] {
      assert x + n == x;
      if x != [] {
        assert (x + n)[|x + n| - 1] == '/';
      }
    } else {
      var m := n[..|n| - 1];
      assert (x + n)[..|x + n| - 1] == x + m;
      assert (x + n)[|x + n| - 1] == n[|n| - 1];
      assert n[|n| - 1] in n;
      assert forall c :: c in m ==> c in n;
      SplitPointAfterSlash(x, m);
    }
  }

  /** Joining a slash-free name onto a directory gives that name back as
      the basename. */
  lemma BasenameOfJoin(d: Path, n: string)
    requires '/' !in n
    ensures Basename(Join(d, n)) == n
  {
    if d == [] || d[|d| - 1] == '/' {
      SplitPointAfterSlash(d, n);
      assert Join(d, n) == d + n;
      assert (d + n)[|d|..] == n;
    } else {
      SplitPointAfterSlash(d + "/", n);
      assert Join(d, n) == (d + "/") + n;
      assert ((d + "/") + n)[|d + "/"|..] == n;
    }
  }

  /** Joining a slash-free name onto a result of `Dirname` and splitting it
      again gives back the same directory, so the path is canonical. */
  lemma DirnameOfJoin(d: Path, n: string)
    requires DirShape(d) && '/' !in n
    ensures Dirname(Join(d, n)) == d
    ensures Canonical(Join(d, n))
  {
    var p := Join(d, n);
    if d == [] {
      SplitPointAfterSlash(d, n);
      assert p == n;
    } else if d[|d| - 1] == '/' {
      assert AllSlashes(d);
      SplitPointAfterSlash(d, n);
      assert p == d + n;
      assert p[..SplitPoint(p)] == d;
    } else {
      var x := d + "/";
      SplitPointAfterSlash(x, n);
      assert p == x + n;
      assert p[..SplitPoint(p)] == x;
      assert !AllSlashes(x) by {
        assert x[|d| - 1] == d[|d| - 1];
      }
      assert x[..|x| - 1] == d;
    }
    BasenameOfJoin(d, n);
  }

  /** Joining the empty name onto the directory of an absolute path gives
      that directory spelt with a trailing slash (`join("/m", "")` is "/m/"). */
  lemma EmptyNameIsDirectory(f: Path)
    requires f != [] && f[0] == '/'
    ensures var t := Join(Dirname(f), []);
      t != [] && Basename(t) == [] && (AllSlashes(t) || StripTrailingSlashes(t) == Dirname(f))
  {
    var d := Dirname(f);
    var t := Join(d, []);
    if d[|d| - 1] == '/' {
      assert t == d;
    } else {
      assert t == d + "/";
      assert t[..|t| - 1] == d;
    }
  }
}
