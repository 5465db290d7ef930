/**
  The three `os.path` functions (POSIX flavour, separator '/') that derive the
  converter's output names: `basename`, `splitext` and two-argument `join`.
*/
module PosixPath {

  import opened PyStr

  type Path = string

  /** `s.rfind(c)`: the index of the last `c` in `s`, or -1. */
  function RFind(s: string, c: char): (r: int)
    ensures -1 <= r < |s|
    ensures r >= 0 ==> s[r] == c
    ensures forall k :: r < k < |s| ==> s[k] != c
  {
    if s == [] then -1
    else if s[|s| - 1] == c then |s| - 1
    else RFind(s[..|s| - 1], c)
  }

  /** The last `c` is pinned down by its two defining facts. */
  lemma RFindIs(s: string, c: char, r: int)
    requires r == -1 || (0 <= r < |s| && s[r] == c)
    requires forall k :: r < k < |s| ==> s[k] != c
    ensures RFind(s, c) == r
  {
  }

  /** `os.path.basename(p)`: the longest suffix of `p` without a separator. */
  function Basename(p: string): (b: string)
    ensures '/' !in b
    ensures EndsWith(p, b)
    ensures |b| < |p| ==> p[|p| - |b| - 1] == '/'
  {
    var b := p[RFind(p, '/') + 1..];
    assert forall k :: 0 <= k < |b| ==> b[k] == p[RFind(p, '/') + 1 + k];
    b
  }

  /**
    In the last component of `p`, every dot is preceded only by dots: the
    component has no extension in the sense of `splitext` (".cr2", "..x", "name").
  */
  ghost predicate NoExtension(p: string)
  {
    var sep := RFind(p, '/');
    forall k :: sep < k < |p| && p[k] == '.' ==> forall m :: sep < m < k ==> p[m] == '.'
  }

  /**
    `os.path.splitext(p)` as (root, ext): ext runs from the last dot of the last
    component, provided something other than a dot precedes that dot within the
    component; otherwise ext is empty.
  */
  function SplitExt(p: string): (r: (string, string))
    ensures r.0 + r.1 == p
    ensures r.1 != [] ==> r.1[0] == '.' && '.' !in r.1[1..] && '/' !in r.1
    ensures r.1 != [] ==> exists k :: RFind(p, '/') < k < |r.0| && p[k] != '.'
    ensures r.1 == [] <==> NoExtension(p)
  {
    var sep := RFind(p, '/');
    var dot := RFind(p, '.');
    if sep < dot && exists k :: sep < k < dot && p[k] != '.' then
      assert forall k :: 1 <= k < |p[dot..]| ==> p[dot..][k] == p[dot + k];
      assert p[dot..][1..] == p[dot + 1..];
      assert !NoExtension(p) by {
        var k :| sep < k < dot && p[k] != '.';
        assert sep < dot < |p| && p[dot] == '.';
      }
      (p[..dot], p[dot..])
    else
      (p, [])
  }

  /** The extension `splitext` reports. */
  function Ext(p: string): string
  {
    SplitExt(p).1
  }

  /** `os.path.join(a, b)` */
  function Join(a: string, b: string): string
  {
    if b != [] && b[0] == '/' then b
    else if a == [] || a[|a| - 1] == '/' then a + b
    else a + "/" + b
  }

  /** The extension of a path is the tail of its basename. */
  lemma ExtEndsBasename(p: string)
    ensures EndsWith(Basename(p), Ext(p))
  {
    var e := Ext(p);
    var b := Basename(p);
    if e != [] {
      var k :| RFind(p, '/') < k < |SplitExt(p).0| && p[k] != '.';
      assert |e| <= |b|;
      assert p[|p| - |e|..] == e;
      assert b[|b| - |e|..] == p[|p| - |e|..];
    }
  }

  /** Appending text without `c` does not move the last `c`. */
  lemma {:induction false} RFindAppend(x: string, b: string, c: char)
    requires c !in b
    ensures RFind(x + b, c) == RFind(x, c)
    decreases |b|
  {
    if b == [] {
      assert x + b == x;
    } else {
      var b' := b[..|b| - 1];
      assert (x + b)[..|x + b| - 1] == x + b';
      RFindAppend(x, b', c);
    }
  }

  /** When `x` ends with `c` and `b` has none, the last `c` of `x + b` is the end of `x`. */
  lemma RFindLast(x: string, b: string, c: char)
    requires x != [] && x[|x| - 1] == c && c !in b
    ensures RFind(x + b, c) == |x| - 1
  {
    RFindAppend(x, b, c);
    RFindIs(x, c, |x| - 1);
  }

  /** A separator-free name joined to a folder is what `basename` gives back. */
  lemma JoinBasename(a: string, b: string)
    requires '/' !in b
    ensures Basename(Join(a, b)) == b
  {
    var x := if a == [] || a[|a| - 1] == '/' then a else a + "/";
    assert Join(a, b) == x + b;
    RFindAppend(x, b, '/');
    assert (x + b)[|x|..] == b;
  }
}
