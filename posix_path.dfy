/**
  The three functions of Python's `posixpath` that the plugin relies on:
  `join` (two arguments), `dirname` and `basename`, on '/'-separated paths.
 */
module PosixPath {

  predicate StartsWithSep(p: string) {
    |p| > 0 && p[0] == '/'
  }

  predicate EndsWithSep(p: string) {
    |p| > 0 && p[|p| - 1] == '/'
  }

  predicate AllSeps(p: string) {
    forall j :: 0 <= j < |p| ==> p[j] == '/'
  }

  /** No two adjacent separators: the paths for which dirname/basename/join round-trip. */
  predicate NoDoubleSep(p: string) {
    forall j :: 0 <= j < |p| - 1 ==> !(p[j] == '/' && p[j + 1] == '/')
  }

  /** `os.path.join(a, b)`: an absolute `b` discards `a`; otherwise one separator is put between them if needed. */
  function Join(a: string, b: string): string
  {
    if StartsWithSep(b) then b
    else if a == [] || EndsWithSep(a) then a + b
    else a + "/" + b
  }

  /**
    What `Join` keeps: an absolute `b` alone; otherwise `a`, then at most one added separator
    (only when `a` is non-empty and does not end in one), then `b`.
   */
  lemma JoinKeepsParts(a: string, b: string)
    ensures StartsWithSep(b) ==> Join(a, b) == b
    ensures !StartsWithSep(b) ==>
      var r := Join(a, b);
      && |a| + |b| <= |r| <= |a| + 1 + |b| && r[..|a|] == a && r[|r| - |b|..] == b
      && (|r| == |a| + 1 + |b| <==> a != [] && !EndsWithSep(a))
      && (|r| == |a| + 1 + |b| ==> r[|a|] == '/')
  {
  }

  /** What `Join(a, b)` puts before a relative `b`: `a`, with a separator added when it needs one. */
  function Prefix(a: string): string {
    if a == [] || EndsWithSep(a) then a else a + "/"
  }

  lemma JoinRelative(a: string, b: string)
    requires !StartsWithSep(b)
    ensures Join(a, b) == Prefix(a) + b
  {
  }

  /** `p.rfind('/') + 1`: where the last path segment starts. */
  function SplitPoint(p: string): (i: nat)
    ensures i <= |p|
    ensures i > 0 ==> p[i - 1] == '/'
    ensures forall j :: i <= j < |p| ==> p[j] != '/'
  {
    if p == [] then 0
    else if p[|p| - 1] == '/' then |p|
    else SplitPoint(p[..|p| - 1])
  }

  /** `head.rstrip('/')`. */
  function RStripSeps(p: string): (r: string)
    ensures |r| <= |p| && r == p[..|r|]
    ensures !EndsWithSep(r)
    ensures forall j :: |r| <= j < |p| ==> p[j] == '/'
  {
    if EndsWithSep(p) then RStripSeps(p[..|p| - 1]) else p
  }

  /** `os.path.dirname(p)`: everything before the last separator, trailing separators removed unless the head is all separators. */
  function Dirname(p: string): (r: string)
    ensures |r| <= |p| && r == p[..|r|]
  {
    var head := p[..SplitPoint(p)];
    if head != [] && !AllSeps(head) then RStripSeps(head) else head
  }

  /** `os.path.basename(p)`: everything after the last separator. */
  function Basename(p: string): (r: string)
    ensures |r| <= |p| && p[|p| - |r|..] == r
    ensures forall j :: 0 <= j < |r| ==> r[j] != '/'
  {
    p[SplitPoint(p)..]
  }

  /** A path with a separator splits at its last one: `dirname` is what comes before it, `basename` what comes after. */
  lemma SplitAtLastSep(d: string, b: string)
    requires d != [] && !EndsWithSep(d)
    requires forall j :: 0 <= j < |b| ==> b[j] != '/'
    ensures Dirname(d + "/" + b) == d
    ensures Basename(d + "/" + b) == b
  {
    var p := d + "/" + b;
    var i := SplitPoint(p);
    assert p[|d|] == '/';
    assert forall j :: |d| < j < |p| ==> p[j] == b[j - |d| - 1];
    assert i == |d| + 1;
    var head := p[..i];
    assert head == d + "/";
    assert !AllSeps(head) by { assert head[|d| - 1] == d[|d| - 1]; }
    assert RStripSeps(head) == d by {
      assert head[|d| - 1] != '/';
    }
    assert p[i..] == b;
  }

  /**
    Splitting a path with `dirname`/`basename` and joining it again gives the path back,
    with any suffix `ext` carried along, as long as the path has no doubled separator and
    the joined tail is not absolute.
   */
  lemma JoinDirnameBasename(p: string, ext: string)
    requires NoDoubleSep(p)
    requires !StartsWithSep(Basename(p) + ext)
    ensures Join(Dirname(p), Basename(p) + ext) == p + ext
  {
    var head := p[..SplitPoint(p)];
    HeadOfSplit(p);
    JoinRelative(Dirname(p), Basename(p) + ext);
    assert p == head + Basename(p);
  }

  /** Without doubled separators, `dirname` with the separator `join` adds back is everything up to the basename. */
  lemma HeadOfSplit(p: string)
    requires NoDoubleSep(p)
    ensures Prefix(Dirname(p)) == p[..SplitPoint(p)]
  {
    var i := SplitPoint(p);
    var head := p[..i];
    if i == 1 {
      assert AllSeps(head);
    } else if i >= 2 {
      assert head[i - 2] != '/' by {
        assert p[i - 1] == '/' && head[i - 2] == p[i - 2];
      }
      assert !AllSeps(head);
      var h := head[..i - 1];
      assert !EndsWithSep(h);
      assert RStripSeps(head) == h;
      assert h + "/" == head;
    }
  }

  /**
    Joining `root` with `d` and then `b` is joining `root` with `d` joined to `b`,
    when neither `d` nor `b` is absolute.
   */
  lemma JoinAssociates(root: string, d: string, b: string)
    requires !StartsWithSep(d) && !StartsWithSep(b)
    ensures Join(Join(root, d), b) == Join(root, Join(d, b))
  {
    var g := Prefix(root);
    JoinRelative(root, d);
    JoinRelative(d, b);
    if d == [] {
      assert g + d == g && Prefix(d) + b == b;
      assert Prefix(g) == g;
    } else {
      assert (g + d)[|g + d| - 1] == d[|d| - 1];
      assert Prefix(g + d) == g + Prefix(d);
      assert (Prefix(d) + b)[0] == d[0];
    }
    JoinRelative(g + d, b);
    JoinRelative(root, Prefix(d) + b);
    assert g + Prefix(d) + b == g + (Prefix(d) + b);
  }
}
