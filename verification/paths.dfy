/**
 * Path arithmetic the scripts use: `os.path.join` and `os.path.splitext`
 * on POSIX (separator `/`, extension separator `.`), and `pathlib`'s
 * `suffix` and `with_suffix` on a final path component, as CPython 3.13
 * and earlier define them.
 */
module Paths {
  import opened Options
  import opened Text

  /** `b.startswith('/')`: an absolute component. */
  predicate StartsWithSlash(b: string) {
    b != [] && b[0] == '/'
  }

  /** `posixpath.join(a, b)` for two components. */
  function Join(a: string, b: string): (r: string)
    ensures StartsWithSlash(b) ==> r == b
    ensures !StartsWithSlash(b) ==> a <= r && |b| <= |r| && r[|r| - |b|..] == b
  {
    if StartsWithSlash(b) then b
    else if a == [] || a[|a| - 1] == '/' then a + b
    else a + "/" + b
  }

  /** `join` inserts a `/` only when the first component is non-empty and does not already end in one. */
  lemma JoinSeparator(a: string, b: string)
    requires !StartsWithSlash(b)
    ensures a == [] || a[|a| - 1] == '/' ==> Join(a, b) == a + b
    ensures a != [] && a[|a| - 1] != '/' ==> Join(a, b) == a + "/" + b
  {
  }

  /**
   * The file name of a joined path is the file name of its last component:
   * whatever the directory, `basename(join(a, b)) == basename(b)`.
   */
  lemma JoinFinalSegment(a: string, b: string)
    ensures IsFinalSegment(Join(a, b), Basename(b))
  {
    if StartsWithSlash(b) {
      FinalSegmentUnderDirectory([], b, Basename(b));
      assert [] + b == b;
    } else if a == [] || a[|a| - 1] == '/' {
      FinalSegmentUnderDirectory(a, b, Basename(b));
    } else {
      FinalSegmentUnderDirectory(a + "/", b, Basename(b));
    }
  }

  /** `s.rfind(c)` is pinned down by one occurrence of `c` with none after it. */
  lemma RFindAt(s: string, c: char, j: nat)
    requires j < |s| && s[j] == c
    requires forall k :: j < k < |s| ==> s[k] != c
    ensures RFind(s, c) == j
  {
  }

  /** Some character of `p[lo..hi]` is not a dot. */
  predicate HasNonDot(p: string, lo: int, hi: int)
    requires 0 <= lo <= hi <= |p|
  {
    exists k :: lo <= k < hi && p[k] != '.'
  }

  /**
   * `posixpath.splitext(p)`: the extension starts at the last `.` of the
   * final component, unless everything before that dot in the component is
   * dots (so `.bashrc` has no extension).
   */
  function SplitExt(p: string): (r: (string, string))
    ensures r.0 + r.1 == p
    ensures r.1 == [] || (r.1[0] == '.' && '/' !in r.1 && '.' !in r.1[1..])
    ensures r.1 != [] ==> HasNonDot(p, RFind(p, '/') + 1, |r.0|)
  {
    var sep := RFind(p, '/');
    var dot := RFind(p, '.');
    if dot > sep && HasNonDot(p, sep + 1, dot) then
      assert '.' !in p[dot..][1..];
      (p[..dot], p[dot..])
    else (p, "")
  }

  /** A component `a.e`, with `e` dot-free and `a` not all dots, splits at its last dot. */
  lemma SplitExtOfName(a: string, e: string)
    requires '/' !in a && '/' !in e && '.' !in e
    requires exists k :: 0 <= k < |a| && a[k] != '.'
    ensures SplitExt(a + "." + e) == (a, "." + e)
  {
    var p := a + "." + e;
    assert forall k :: |a| < k < |p| ==> p[k] == e[k - |a| - 1];
    RFindAt(p, '.', |a|);
    assert forall k :: 0 <= k < |p| ==> p[k] != '/';
    assert RFind(p, '/') == -1;
    var k :| 0 <= k < |a| && a[k] != '.';
    assert p[k] == a[k];
    assert HasNonDot(p, 0, |a|);
    assert p[..|a|] == a;
    assert p[|a|..] == "." + e;
  }

  /** A component that is only leading dots before its last dot has no extension. */
  lemma SplitExtHidden(dots: string, e: string)
    requires forall k :: 0 <= k < |dots| ==> dots[k] == '.'
    requires '/' !in e && '.' !in e
    ensures SplitExt(dots + "." + e) == (dots + "." + e, "")
  {
    var p := dots + "." + e;
    assert forall k :: |dots| < k < |p| ==> p[k] == e[k - |dots| - 1];
    RFindAt(p, '.', |dots|);
    assert forall k :: 0 <= k < |p| ==> p[k] != '/';
    assert RFind(p, '/') == -1;
    assert forall k :: 0 <= k < |dots| ==> p[k] == '.';
  }

  /** `PurePath.suffix` of a final component `name`. */
  function Suffix(name: string): (r: string)
    ensures |r| <= |name| && r == name[|name| - |r|..]
    ensures r != [] ==> |r| < |name|
    ensures r == [] || (|r| >= 2 && r[0] == '.' && '.' !in r[1..])
  {
    var i := RFind(name, '.');
    if 0 < i < |name| - 1 then
      var r := name[i..];
      assert forall k :: 0 <= k < |r| - 1 ==> r[1..][k] == name[i + 1 + k];
      r
    else ""
  }

  /** `PurePath.stem`: the component without its suffix. */
  function PathStem(name: string): (r: string)
    ensures r + Suffix(name) == name
    ensures name != [] ==> r != []
  {
    name[..|name| - |Suffix(name)|]
  }

  /** A suffix `with_suffix` accepts: no separator, and empty or a dot followed by something. */
  predicate ValidSuffix(x: string) {
    '/' !in x && (x == [] || (x[0] == '.' && x != "."))
  }

  /**
   * `PurePath.with_suffix(x)` on the final component; `None` stands for the
   * `ValueError` raised for an invalid suffix or an empty name.
   */
  function WithSuffix(name: string, x: string): (r: Option<string>)
    ensures r.Some? <==> ValidSuffix(x) && name != []
    ensures r.Some? ==> r.value == PathStem(name) + x
  {
    if !ValidSuffix(x) || name == [] then None
    else Some(PathStem(name) + x)
  }

  /**
   * Replacing the suffix really replaces it: the new name carries the new
   * suffix and keeps the old stem.
   */
  lemma WithSuffixRoundTrip(name: string, x: string)
    requires name != []
    requires ValidSuffix(x) && |x| >= 2 && '.' !in x[1..]
    ensures WithSuffix(name, x).Some?
    ensures Suffix(WithSuffix(name, x).value) == x
    ensures PathStem(WithSuffix(name, x).value) == PathStem(name)
  {
    var stem := PathStem(name);
    SuffixAfter(stem, x);
  }

  /** Whatever non-empty text precedes it, a dot-led suffix with no other dot is the suffix. */
  lemma SuffixAfter(stem: string, x: string)
    requires stem != []
    requires |x| >= 2 && x[0] == '.' && '.' !in x[1..]
    ensures Suffix(stem + x) == x
    ensures PathStem(stem + x) == stem
  {
    var w := stem + x;
    assert w[|stem|] == '.';
    assert forall k :: |stem| < k < |w| ==> w[k] == x[1..][k - |stem| - 1];
    RFindAt(w, '.', |stem|);
    assert w[|stem|..] == x;
    assert w[..|stem|] == stem;
  }
}
