/**
 * Reading a text file line by line as Python does in text mode
 * (`for line in f`), with universal newlines: `\n`, `\r\n` and a lone `\r`
 * each end a line. Every reader in the scripts strips its lines, and
 * `strip()` removes line terminators anyway, so lines are kept without them.
 */
module LineReader {
  import opened Text
  import opened Seqs

  predicate IsBreak(c: char) {
    c == '\n' || c == '\r'
  }

  predicate NoBreaks(s: string) {
    forall i :: 0 <= i < |s| ==> !IsBreak(s[i])
  }

  /** A suffix of a single-line text is single-line. */
  lemma SuffixKeepsNoBreaks(s: string, r: string)
    requires |r| <= |s| && r == s[|s| - |r|..]
    requires NoBreaks(s)
    ensures NoBreaks(r)
  {
    forall i | 0 <= i < |r|
      ensures !IsBreak(r[i])
    {
      assert r[i] == s[|s| - |r| + i];
    }
  }

  /** The index of the first line-break character at or after `j`, or `|s|` when there is none. */
  function BreakFrom(s: string, j: nat): (i: nat)
    requires j <= |s|
    ensures j <= i <= |s|
    ensures forall k :: j <= k < i ==> !IsBreak(s[k])
    ensures i < |s| ==> IsBreak(s[i])
    decreases |s| - j
  {
    if j == |s| || IsBreak(s[j]) then j else BreakFrom(s, j + 1)
  }

  /** The index of the first line-break character, or `|s|` when there is none. */
  function BreakIndex(s: string): (i: nat)
    ensures i <= |s|
    ensures forall k :: 0 <= k < i ==> !IsBreak(s[k])
    ensures i < |s| ==> IsBreak(s[i])
  {
    BreakFrom(s, 0)
  }

  /** The first break is pinned down by the breaks before it and the character at it. */
  lemma FirstBreak(s: string, j: nat)
    requires j <= |s|
    requires forall k :: 0 <= k < j ==> !IsBreak(s[k])
    requires j < |s| ==> IsBreak(s[j])
    ensures BreakIndex(s) == j
  {
  }

  /** The text before the first break is a single line. */
  lemma BeforeBreak(s: string)
    ensures NoBreaks(s[..BreakIndex(s)])
  {
    var i := BreakIndex(s);
    assert forall k :: 0 <= k < i ==> s[..i][k] == s[k];
  }

  /** A `\r\n` pair is one terminator. */
  function TerminatorLength(s: string, i: nat): (n: nat)
    requires i < |s| && IsBreak(s[i])
    ensures 1 <= n <= 2 && i + n <= |s|
  {
    if s[i] == '\r' && i + 1 < |s| && s[i + 1] == '\n' then 2 else 1
  }

  /** The lines of a file's text, terminators removed; a last line without a terminator still counts. */
  function Lines(s: string): seq<string>
    decreases |s|
  {
    if s == [] then []
    else
      var i := BreakIndex(s);
      if i == |s| then [s]
      else [s[..i]] + Lines(s[i + TerminatorLength(s, i)..])
  }

  /** No line holds a break character. */
  lemma {:induction false} LinesNoBreaks(s: string)
    ensures forall k :: 0 <= k < |Lines(s)| ==> NoBreaks(Lines(s)[k])
    decreases |s|
  {
    if s != [] {
      var i := BreakIndex(s);
      BeforeBreak(s);
      if i == |s| {
        assert s[..i] == s;
      } else {
        var n := TerminatorLength(s, i);
        LinesNoBreaks(s[i + n..]);
        LinesStep(s, i, n);
      }
    }
  }

  /** The text a writer produces by emitting each line followed by `\n`. */
  function Unlines(ls: seq<string>): (s: string)
    ensures s == [] || s[|s| - 1] == '\n'
  {
    if ls == [] then "" else ls[0] + "\n" + Unlines(ls[1..])
  }

  /** A text that ends at a line boundary. */
  predicate EndsLine(s: string) {
    s == [] || s[|s| - 1] == '\n'
  }

  /** A text with a line break reads as its first line followed by the lines after the first terminator. */
  lemma LinesStep(s: string, i: nat, n: nat)
    requires i == BreakIndex(s) < |s|
    requires n == TerminatorLength(s, i)
    ensures Lines(s) == [s[..i]] + Lines(s[i + n..])
  {
  }

  /** Text after the first break keeps reading the same when more text follows. */
  lemma LinesAppendAt(s: string, t: string, i: nat, n: nat)
    requires i == BreakIndex(s) < |s|
    requires n == TerminatorLength(s, i) && i + n <= |s|
    requires i + 1 == |s| ==> s[i] == '\n'
    ensures Lines(s + t) == [s[..i]] + Lines(s[i + n..] + t)
  {
    var u := s + t;
    BreakIndexPrefix(s, t);
    assert TerminatorLength(u, i) == n by {
      assert u[i] == s[i];
      if i + 1 < |s| {
        assert u[i + 1] == s[i + 1];
      }
    }
    LinesStep(u, i, n);
    assert u[..i] == s[..i];
    assert u[i + n..] == s[i + n..] + t;
  }

  /** A non-empty text that ends at a line boundary has a break. */
  lemma EndsLineHasBreak(s: string)
    requires EndsLine(s) && s != []
    ensures BreakIndex(s) < |s|
  {
    assert IsBreak(s[|s| - 1]);
  }

  /** What follows a position of a text that ends at a line boundary ends at one too. */
  lemma EndsLineSuffix(s: string, j: nat)
    requires j <= |s| && EndsLine(s)
    ensures EndsLine(s[j..])
  {
  }

  /** Appending to text that ends at a line boundary leaves its lines alone and adds the new ones after. */
  lemma {:induction false} LinesAppend(s: string, t: string)
    requires EndsLine(s)
    ensures Lines(s + t) == Lines(s) + Lines(t)
    decreases |s|
  {
    if s == [] {
      assert s + t == t;
    } else {
      EndsLineHasBreak(s);
      var i := BreakIndex(s);
      var n := TerminatorLength(s, i);
      LinesStep(s, i, n);
      LinesAppendAt(s, t, i, n);
      var rest := s[i + n..];
      EndsLineSuffix(s, i + n);
      LinesAppend(rest, t);
      AppendAssoc([s[..i]], Lines(rest), Lines(t));
    }
  }

  lemma BreakIndexPrefix(s: string, t: string)
    requires BreakIndex(s) < |s|
    ensures BreakIndex(s + t) == BreakIndex(s)
  {
    var i := BreakIndex(s);
    var u := s + t;
    assert forall k :: 0 <= k <= i ==> u[k] == s[k];
    FirstBreak(u, i);
  }

  lemma BreakIndexAt(s: string, j: nat)
    requires j < |s| && IsBreak(s[j])
    requires forall k :: 0 <= k < j ==> !IsBreak(s[k])
    ensures BreakIndex(s) == j
  {
    FirstBreak(s, j);
  }

  /** One line without breaks, written with its terminator, reads back as exactly that line. */
  lemma OneLine(l: string)
    requires NoBreaks(l)
    ensures Lines(l + "\n") == [l]
  {
    var s := l + "\n";
    assert s[..|l|] == l;
    assert NoBreaks(s[..|l|]);
    assert forall k :: 0 <= k < |l| ==> s[k] == l[k];
    BreakIndexAt(s, |l|);
    assert s[|l| + 1..] == [];
  }

  /** Writing lines and reading them back is the identity, for lines without break characters. */
  lemma {:induction false} LinesOfUnlines(ls: seq<string>)
    requires forall k :: 0 <= k < |ls| ==> NoBreaks(ls[k])
    ensures Lines(Unlines(ls)) == ls
  {
    if ls != [] {
      OneLine(ls[0]);
      LinesAppend(ls[0] + "\n", Unlines(ls[1..]));
      LinesOfUnlines(ls[1..]);
      assert ls[0] + "\n" + Unlines(ls[1..]) == (ls[0] + "\n") + Unlines(ls[1..]);
      assert [ls[0]] + ls[1..] == ls;
    }
  }

  /** `[line.strip() for line in lines]`. */
  function StripAll(ls: seq<string>): (r: seq<string>)
    ensures |r| == |ls|
    ensures forall k :: 0 <= k < |ls| ==> r[k] == Strip(ls[k])
  {
    if ls == [] then [] else [Strip(ls[0])] + StripAll(ls[1..])
  }

  lemma {:induction false} StripAllAppend(a: seq<string>, b: seq<string>)
    ensures StripAll(a + b) == StripAll(a) + StripAll(b)
  {
    if a == [] {
      assert a + b == b;
    } else {
      assert (a + b)[1..] == a[1..] + b;
      StripAllAppend(a[1..], b);
    }
  }

  lemma StripAllSnoc(a: seq<string>, l: string)
    requires Trimmed(l)
    ensures StripAll(a + [l]) == StripAll(a) + [l]
  {
    StripAllAppend(a, [l]);
    assert StripAll([l]) == [Strip(l)];
    StripTrimmed(l);
  }

  /** `[line.strip() for line in lines if line.strip()]`. */
  function StripNonBlank(ls: seq<string>): (r: seq<string>)
    ensures |r| <= |ls|
    ensures forall k :: 0 <= k < |r| ==> r[k] != [] && Trimmed(r[k])
  {
    if ls == [] then []
    else
      var t := Strip(ls[0]);
      var rest := StripNonBlank(ls[1..]);
      if t == [] then rest else [t] + rest
  }

  /** An entry survives the filter exactly when some line strips to it and it is not blank. */
  lemma {:induction false} StripNonBlankMembers(ls: seq<string>, x: string)
    ensures x in StripNonBlank(ls) <==> x != [] && exists j :: 0 <= j < |ls| && Strip(ls[j]) == x
  {
    if ls != [] {
      StripNonBlankMembers(ls[1..], x);
      assert forall j :: 0 < j < |ls| ==> ls[j] == ls[1..][j - 1];
      if x != [] && Strip(ls[0]) != x && (exists j :: 0 <= j < |ls| && Strip(ls[j]) == x) {
        var j :| 0 <= j < |ls| && Strip(ls[j]) == x;
        assert Strip(ls[1..][j - 1]) == x;
      }
    }
  }

  /** The filter keeps the file order: it distributes over concatenation. */
  lemma {:induction false} StripNonBlankAppend(a: seq<string>, b: seq<string>)
    ensures StripNonBlank(a + b) == StripNonBlank(a) + StripNonBlank(b)
  {
    if a == [] {
      assert a + b == b;
    } else {
      assert (a + b)[1..] == a[1..] + b;
      StripNonBlankAppend(a[1..], b);
    }
  }

  /** The stripped, non-blank lines of a file's text, in file order. */
  function NonBlankLines(s: string): (r: seq<string>)
    ensures forall k :: 0 <= k < |r| ==> r[k] != [] && Trimmed(r[k]) && NoBreaks(r[k])
  {
    LinesNoBreaks(s);
    StripNonBlankNoBreaks(Lines(s));
    StripNonBlank(Lines(s))
  }

  /** Entries written one per line read back unchanged when they are non-blank and trimmed. */
  lemma NonBlankLinesOfUnlines(ls: seq<string>)
    requires forall k :: 0 <= k < |ls| ==> ls[k] != [] && Trimmed(ls[k]) && NoBreaks(ls[k])
    ensures NonBlankLines(Unlines(ls)) == ls
  {
    LinesOfUnlines(ls);
    StripNonBlankKeepsClean(ls);
  }

  lemma {:induction false} StripNonBlankKeepsClean(ls: seq<string>)
    requires forall k :: 0 <= k < |ls| ==> ls[k] != [] && Trimmed(ls[k])
    ensures StripNonBlank(ls) == ls
  {
    if ls != [] {
      var tail := ls[1..];
      assert forall k :: 0 <= k < |tail| ==> tail[k] == ls[k + 1];
      StripNonBlankKeepsClean(tail);
      StripTrimmed(ls[0]);
      assert StripNonBlank(ls) == [ls[0]] + StripNonBlank(tail);
      ConsSplit(ls);
    }
  }

  lemma {:induction false} StripNonBlankNoBreaks(ls: seq<string>)
    requires forall k :: 0 <= k < |ls| ==> NoBreaks(ls[k])
    ensures forall k :: 0 <= k < |StripNonBlank(ls)| ==> NoBreaks(StripNonBlank(ls)[k])
  {
    if ls != [] {
      StripKeepsNoBreaks(ls[0]);
      StripNonBlankNoBreaks(ls[1..]);
    }
  }

  /** A slice of a single-line text is single-line. */
  lemma SliceKeepsNoBreaks(s: string, i: nat, j: nat)
    requires i <= j <= |s| && NoBreaks(s)
    ensures NoBreaks(s[i..j])
  {
    var r := s[i..j];
    forall k | 0 <= k < |r|
      ensures !IsBreak(r[k])
    {
      assert r[k] == s[i + k];
    }
  }

  lemma StripKeepsNoBreaks(s: string)
    requires NoBreaks(s)
    ensures NoBreaks(Strip(s))
  {
    var a := SkipSpace(s, 0);
    var b := TrimEnd(s, a, |s|);
    SliceKeepsNoBreaks(s, a, b);
  }
}
