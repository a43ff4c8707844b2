/** The parts of Node's `path` module the core uses, on '/'-separated paths:
    `join`, `dirname`, `basename` and `extname`. Normalisation (`..`, `.`,
    repeated and trailing slashes) is not part of this model. */
module Paths {

  /** Index of the last `c` in `s`, or -1. */
  function LastIndex(s: string, c: char): (r: int)
    ensures -1 <= r < |s|
    ensures r >= 0 ==> s[r] == c
    ensures forall i :: r < i < |s| ==> s[i] != c
  {
    if s == [] then -1
    else if s[|s| - 1] == c then |s| - 1
    else LastIndex(s[..|s| - 1], c)
  }

  /** `path.join(a, b)`: one separator between non-empty parts. */
  function Join(a: string, b: string): string
  {
    if a == [] then b
    else if b == [] then a
    else if a[|a| - 1] == '/' then a + b
    else a + "/" + b
  }

  /** `path.join(a, b, c)`. */
  function Join3(a: string, b: string, c: string): string
  {
    Join(Join(a, b), c)
  }

  /** `path.basename(p)`: what follows the last separator. */
  function Basename(p: string): string
  {
    p[LastIndex(p, '/') + 1..]
  }

  /** `path.dirname(p)`: what precedes the last separator; "." without one,
      "/" when the only separator is the leading one. */
  function Dirname(p: string): string
  {
    var k := LastIndex(p, '/');
    if k < 0 then "." else if k == 0 then "/" else p[..k]
  }

  /** `path.extname(p)`: the basename from its last dot, unless there is no
      dot, the dot is the basename's first character, or the basename is "..". */
  function Extname(p: string): string
  {
    var b := Basename(p);
    var d := LastIndex(b, '.');
    if d <= 0 || b == ".." then "" else b[d..]
  }

  lemma {:induction false} LastIndexAppend(u: string, t: string, c: char)
    requires forall i :: 0 <= i < |t| ==> t[i] != c
    ensures LastIndex(u + t, c) == LastIndex(u, c)
    decreases |t|
  {
    if t != [] {
      assert (u + t)[..|u + t| - 1] == u + t[..|t| - 1];
      LastIndexAppend(u, t[..|t| - 1], c);
    } else {
      assert u + t == u;
    }
  }

  /** Joining a name that holds no separator onto any directory gives a path
      whose basename is that name. */
  lemma BasenameJoin(a: string, b: string)
    requires b != [] && forall i :: 0 <= i < |b| ==> b[i] != '/'
    ensures Basename(Join(a, b)) == b
  {
    if a == [] {
      LastIndexAppend([], b, '/');
      assert [] + b == b;
    } else if a[|a| - 1] == '/' {
      LastIndexAppend(a, b, '/');
      assert (a + b)[|a|..] == b;
    } else {
      LastIndexAppend(a + "/", b, '/');
      assert (a + "/" + b)[|a| + 1..] == b;
    }
  }

  /** ... and whose dirname is the directory, when the directory is not empty
      and does not end in a separator. */
  lemma DirnameJoin(a: string, b: string)
    requires a != [] && a[|a| - 1] != '/'
    requires forall i :: 0 <= i < |b| ==> b[i] != '/'
    requires b != []
    ensures Dirname(Join(a, b)) == a
  {
    LastIndexAppend(a + "/", b, '/');
    assert (a + "/" + b)[..|a|] == a;
  }

  /** The extension of a name without separators is what follows its last
      dot, when that dot is not the first character. */
  lemma ExtnameOfPlainName(p: string, d: nat)
    requires forall i :: 0 <= i < |p| ==> p[i] != '/'
    requires 0 < d < |p| && p[d] == '.' && forall i :: d < i < |p| ==> p[i] != '.'
    requires p != ".."
    ensures Extname(p) == p[d..]
  {
    assert LastIndex(p, '/') == -1;
    assert Basename(p) == p;
    assert LastIndex(p, '.') == d;
  }

  lemma BasenameHasNoSeparator(p: string)
    ensures forall i :: 0 <= i < |Basename(p)| ==> Basename(p)[i] != '/'
  {
  }
}
