/**
 * String primitives of Python that the scripts lean on: `str.strip()`,
 * `str.split('/')`, `str.rfind`, `posixpath.basename` and `str.lower()`.
 */
module Text {

  /** Python's `str.isspace()` for one character: the code points `str.strip()` removes. */
  predicate IsSpace(c: char) {
    || c == ' '
    || ('\t' <= c <= '\r')
    || ('\U{1C}' <= c <= '\U{1F}')
    || c == '\U{85}' || c == '\U{A0}' || c == '\U{1680}'
    || ('\U{2000}' <= c <= '\U{200A}')
    || c == '\U{2028}' || c == '\U{2029}' || c == '\U{202F}' || c == '\U{205F}'
    || c == '\U{3000}'
  }

  predicate AllSpace(s: string) {
    forall i :: 0 <= i < |s| ==> IsSpace(s[i])
  }

  /** Neither the first nor the last character is whitespace: what `strip()` leaves. */
  predicate Trimmed(s: string) {
    s == [] || (!IsSpace(s[0]) && !IsSpace(s[|s| - 1]))
  }

  /** The index of the first non-whitespace character at or after `j`, or `|s|` when there is none. */
  function SkipSpace(s: string, j: nat): (i: nat)
    requires j <= |s|
    ensures j <= i <= |s|
    ensures forall k :: j <= k < i ==> IsSpace(s[k])
    ensures i < |s| ==> !IsSpace(s[i])
    decreases |s| - j
  {
    if j == |s| || !IsSpace(s[j]) then j else SkipSpace(s, j + 1)
  }

  /** Where `s[lo..j]` ends once its trailing whitespace is dropped. */
  function TrimEnd(s: string, lo: nat, j: nat): (i: nat)
    requires lo <= j <= |s|
    ensures lo <= i <= j
    ensures forall k :: i <= k < j ==> IsSpace(s[k])
    ensures i > lo ==> !IsSpace(s[i - 1])
    decreases j
  {
    if j == lo || !IsSpace(s[j - 1]) then j else TrimEnd(s, lo, j - 1)
  }

  /** The first non-whitespace position is pinned down by the whitespace before it. */
  lemma SkipSpaceAt(s: string, j: nat, i: nat)
    requires j <= i <= |s|
    requires forall k :: j <= k < i ==> IsSpace(s[k])
    requires i < |s| ==> !IsSpace(s[i])
    ensures SkipSpace(s, j) == i
  {
  }

  /** The end of the trimmed text is pinned down by the whitespace after it. */
  lemma TrimEndAt(s: string, lo: nat, j: nat, i: nat)
    requires lo <= i <= j <= |s|
    requires forall k :: i <= k < j ==> IsSpace(s[k])
    requires i > lo ==> !IsSpace(s[i - 1])
    ensures TrimEnd(s, lo, j) == i
  {
  }

  /** `s.strip()`: what lies between the leading and the trailing whitespace. */
  function Strip(s: string): (r: string)
    ensures Trimmed(r)
    ensures |r| <= |s|
  {
    var a := SkipSpace(s, 0);
    var b := TrimEnd(s, a, |s|);
    var r := s[a..b];
    assert r != [] ==> r[0] == s[a] && r[|r| - 1] == s[b - 1];
    r
  }

  /** `strip()` only removes whitespace, and only from the two ends. */
  lemma StripIsInfix(s: string)
    ensures exists i :: 0 <= i <= |s| - |Strip(s)| && Strip(s) == s[i..i + |Strip(s)|] && AllSpace(s[..i]) && AllSpace(s[i + |Strip(s)|..])
  {
    var a := SkipSpace(s, 0);
    var b := TrimEnd(s, a, |s|);
    assert Strip(s) == s[a..b];
    assert forall k :: 0 <= k < a ==> s[..a][k] == s[k];
    assert forall k :: 0 <= k < |s| - b ==> s[b..][k] == s[b + k];
    assert AllSpace(s[..a]) && AllSpace(s[b..]);
  }

  /**
   * `strip()` is characterised by its result: whatever trimmed text is
   * surrounded by whitespace is exactly what `strip()` returns.
   */
  lemma StripUnique(p: string, r: string, q: string)
    requires AllSpace(p) && AllSpace(q) && Trimmed(r)
    ensures Strip(p + r + q) == r
  {
    var s := p + r + q;
    var e := |p| + |r|;
    assert forall k :: 0 <= k < |p| ==> s[k] == p[k];
    assert forall k :: e <= k < |s| ==> s[k] == q[k - e];
    if r == [] {
      SkipSpaceAt(s, 0, |s|);
      TrimEndAt(s, |s|, |s|, |s|);
    } else {
      assert s[|p|] == r[0] && s[e - 1] == r[|r| - 1];
      SkipSpaceAt(s, 0, |p|);
      TrimEndAt(s, |p|, |s|, e);
      assert s[|p|..e] == r;
    }
  }

  /** Stripping twice changes nothing more. */
  lemma StripIdempotent(s: string)
    ensures Strip(Strip(s)) == Strip(s)
  {
    var r := Strip(s);
    assert [] + r + [] == r;
    StripUnique([], r, []);
  }

  /** Text with no surrounding whitespace is its own stripped form. */
  lemma StripTrimmed(s: string)
    requires Trimmed(s)
    ensures Strip(s) == s
  {
    assert [] + s + [] == s;
    StripUnique([], s, []);
  }

  /** `parts` joined with `d` between neighbours: `d.join(parts)`. */
  function JoinWith(parts: seq<string>, d: char): string {
    if |parts| == 0 then ""
    else if |parts| == 1 then parts[0]
    else parts[0] + [d] + JoinWith(parts[1..], d)
  }

  /** `s.split(d)` for a one-character separator: always at least one piece, none holding `d`. */
  function Split(s: string, d: char): (parts: seq<string>)
    ensures |parts| >= 1
    ensures forall i :: 0 <= i < |parts| ==> d !in parts[i]
  {
    if s == [] then [""]
    else
      var rest := Split(s[1..], d);
      if s[0] == d then [""] + rest
      else [[s[0]] + rest[0]] + rest[1..]
  }

  /** Splitting then joining with the same separator gives the text back. */
  lemma {:induction false} SplitThenJoin(s: string, d: char)
    ensures JoinWith(Split(s, d), d) == s
  {
    if s != [] {
      var rest := Split(s[1..], d);
      SplitThenJoin(s[1..], d);
      if s[0] == d {
        assert ([""] + rest)[1..] == rest;
      } else {
        var parts := [[s[0]] + rest[0]] + rest[1..];
        if |rest| > 1 {
          assert parts[1..] == rest[1..];
        }
      }
    }
  }

  /** Joining pieces that avoid `d` and then splitting on `d` gives the pieces back. */
  lemma {:induction false} JoinThenSplit(parts: seq<string>, d: char)
    requires |parts| >= 1
    requires forall i :: 0 <= i < |parts| ==> d !in parts[i]
    ensures Split(JoinWith(parts, d), d) == parts
  {
    if |parts| == 1 {
      SplitPlain(parts[0], d);
    } else {
      JoinThenSplit(parts[1..], d);
      SplitAtSeparator(parts[0], JoinWith(parts[1..], d), d);
      assert [parts[0]] + parts[1..] == parts;
    }
  }

  lemma {:induction false} SplitPlain(a: string, d: char)
    requires d !in a
    ensures Split(a, d) == [a]
    decreases |a|
  {
    if a != [] {
      SplitPlain(a[1..], d);
      assert [a[0]] + a[1..] == a;
    }
  }

  lemma {:induction false} SplitAtSeparator(a: string, b: string, d: char)
    requires d !in a
    ensures Split(a + [d] + b, d) == [a] + Split(b, d)
    decreases |a|
  {
    if a == [] {
      assert a + [d] + b == [d] + b;
      assert ([d] + b)[1..] == b;
    } else {
      assert (a + [d] + b)[1..] == a[1..] + [d] + b;
      SplitAtSeparator(a[1..], b, d);
      assert [a[0]] + a[1..] == a;
    }
  }

  lemma {:induction false} JoinLast(parts: seq<string>, d: char)
    requires |parts| >= 2
    ensures JoinWith(parts, d) == JoinWith(parts[..|parts| - 1], d) + [d] + parts[|parts| - 1]
    decreases |parts|
  {
    if |parts| > 2 {
      JoinLast(parts[1..], d);
      assert parts[1..][..|parts| - 2] == parts[..|parts| - 1][1..];
    }
  }

  /**
   * `r` is what follows the last `/` of `s`: a `/`-free suffix of `s` that
   * is either all of `s` or directly preceded by a `/`.
   */
  predicate IsFinalSegment(s: string, r: string) {
    && |r| <= |s|
    && r == s[|s| - |r|..]
    && '/' !in r
    && (|r| == |s| || s[|s| - |r| - 1] == '/')
  }

  /** Putting a directory part that ends in `/` in front keeps the final segment. */
  lemma FinalSegmentUnderDirectory(pre: string, s: string, r: string)
    requires IsFinalSegment(s, r)
    requires pre == [] || pre[|pre| - 1] == '/'
    ensures IsFinalSegment(pre + s, r)
  {
    var t := pre + s;
    var o := |s| - |r|;
    assert forall k :: 0 <= k < |r| ==> t[|pre| + o + k] == s[o + k] == r[k];
    assert t[|t| - |r|..] == r;
    if |r| < |s| {
      assert t[|t| - |r| - 1] == s[|s| - |r| - 1];
    } else if pre != [] {
      assert t[|t| - |r| - 1] == pre[|pre| - 1];
    }
  }

  /** There is only one final segment. */
  lemma FinalSegmentUnique(s: string, r1: string, r2: string)
    requires IsFinalSegment(s, r1) && IsFinalSegment(s, r2)
    ensures r1 == r2
  {
  }

  /** `s.split('/')[-1]`: the text after the last `/`. */
  function LastPiece(s: string): (r: string)
    ensures IsFinalSegment(s, r)
  {
    var parts := Split(s, '/');
    SplitThenJoin(s, '/');
    if |parts| >= 2 then JoinLast(parts, '/'); parts[|parts| - 1]
    else parts[|parts| - 1]
  }

  /** The index of the last `c` before position `j`, or -1 when there is none. */
  function RFindBefore(s: string, c: char, j: nat): (r: int)
    requires j <= |s|
    ensures -1 <= r < j
    ensures r >= 0 ==> s[r] == c
    ensures forall k :: r < k < j ==> s[k] != c
  {
    if j == 0 then -1
    else if s[j - 1] == c then j - 1
    else RFindBefore(s, c, j - 1)
  }

  /** `s.rfind(c)`: the index of the last `c`, or -1 when there is none. */
  function RFind(s: string, c: char): (r: int)
    ensures -1 <= r < |s|
    ensures r >= 0 ==> s[r] == c
    ensures forall k :: r < k < |s| ==> s[k] != c
  {
    RFindBefore(s, c, |s|)
  }

  /** `posixpath.basename(s)`: `s[s.rfind('/') + 1:]`. */
  function Basename(s: string): (r: string)
    ensures IsFinalSegment(s, r)
  {
    s[RFind(s, '/') + 1..]
  }

  /** The two ways the scripts cut a file name out of a path agree on every input. */
  lemma LastPieceIsBasename(s: string)
    ensures LastPiece(s) == Basename(s)
  {
    FinalSegmentUnique(s, LastPiece(s), Basename(s));
  }

  /** `c.lower()` restricted to ASCII letters; every other character is kept. */
  function AsciiLowerChar(c: char): (r: char)
    ensures 'A' <= c <= 'Z' ==> 'a' <= r <= 'z' && r as int - 'a' as int == c as int - 'A' as int
    ensures !('A' <= c <= 'Z') ==> r == c
  {
    if 'A' <= c <= 'Z' then (c as int - 'A' as int + 'a' as int) as char else c
  }

  function AsciiLower(s: string): (r: string)
    ensures |r| == |s|
    ensures forall i :: 0 <= i < |s| ==> r[i] == AsciiLowerChar(s[i])
  {
    if s == [] then [] else [AsciiLowerChar(s[0])] + AsciiLower(s[1..])
  }
}
