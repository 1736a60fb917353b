/**
 * The tracking list `downloaded.txt`: one file name per line, appended to
 * after each completed download and consulted before each new one.
 */
module Tracking {
  import opened Options
  import opened Text
  import opened LineReader

  /** The list's text, or `None` while the file does not exist. */
  type TrackingFile = Option<string>

  /** What reading the list yields; a missing file reads as nothing. */
  function Content(t: TrackingFile): string {
    t.GetOr("")
  }

  /** `[line.strip() for line in f]`: blank lines included. */
  function Entries(t: TrackingFile): (r: seq<string>)
    ensures |r| == |Lines(Content(t))|
  {
    StripAll(Lines(Content(t)))
  }

  /** `is_downloaded(filename)`. */
  predicate IsDownloaded(t: TrackingFile, filename: string) {
    t.Some? && filename in Entries(t)
  }

  /** The list ends at a line boundary, so an append starts a fresh line. */
  predicate WellTerminated(t: TrackingFile) {
    EndsLine(Content(t))
  }

  /** A name that reads back as itself: no line breaks, no surrounding whitespace. */
  predicate CleanName(f: string) {
    NoBreaks(f) && Trimmed(f)
  }

  /**
   * `mark_as_downloaded(filename)`: append `filename` and a newline,
   * creating the file if needed.
   */
  function MarkAsDownloaded(t: TrackingFile, filename: string): (r: TrackingFile)
    ensures r.Some?
    ensures Content(t) <= r.value
    ensures WellTerminated(r)
    ensures WellTerminated(t) && NoBreaks(filename) ==> Lines(r.value) == Lines(Content(t)) + [filename]
  {
    var s := Content(t) + filename + "\n";
    assert s[|s| - 1] == '\n';
    if EndsLine(Content(t)) && NoBreaks(filename) then
      LinesAppend(Content(t), filename + "\n");
      OneLine(filename);
      assert s == Content(t) + (filename + "\n");
      Some(s)
    else
      Some(s)
  }

  /** Lines already in a well-terminated list keep reading the same after an append. */
  lemma MarkKeepsEntries(t: TrackingFile, filename: string)
    requires WellTerminated(t)
    ensures Entries(t) <= Entries(MarkAsDownloaded(t, filename))
    ensures |Entries(MarkAsDownloaded(t, filename))| == |Entries(t)| + |Lines(filename + "\n")|
  {
    var c := Content(t);
    var r := MarkAsDownloaded(t, filename);
    assert r.value == c + (filename + "\n");
    LinesAppend(c, filename + "\n");
  }

  /**
   * Marking a name without line breaks adds exactly one entry at the end:
   * the name as it reads back, stripped. A clean name reads back as itself.
   */
  lemma MarkEntries(t: TrackingFile, filename: string)
    requires WellTerminated(t) && NoBreaks(filename)
    ensures Entries(MarkAsDownloaded(t, filename)) == Entries(t) + [Strip(filename)]
    ensures CleanName(filename) ==> Entries(MarkAsDownloaded(t, filename)) == Entries(t) + [filename]
  {
    var r := MarkAsDownloaded(t, filename);
    var ls := Lines(Content(t));
    assert Content(r) == r.value;
    assert Lines(Content(r)) == ls + [filename];
    StripAllAppend(ls, [filename]);
    assert StripAll([filename]) == [Strip(filename)];
    if CleanName(filename) {
      StripTrimmed(filename);
    }
  }

  /**
   * After marking a name without line breaks, the list answers "downloaded"
   * for exactly the names it answered before plus the stripped name; for a
   * clean name, that is the name itself.
   */
  lemma MarkThenIsDownloaded(t: TrackingFile, filename: string, g: string)
    requires WellTerminated(t) && NoBreaks(filename)
    ensures IsDownloaded(MarkAsDownloaded(t, filename), g) <==> IsDownloaded(t, g) || g == Strip(filename)
    ensures CleanName(filename) ==> (IsDownloaded(MarkAsDownloaded(t, filename), g) <==> IsDownloaded(t, g) || g == filename)
  {
    MarkEntries(t, filename);
    if t.None? {
      assert Lines(Content(t)) == [];
    }
    if CleanName(filename) {
      StripTrimmed(filename);
    }
  }

  /**
   * The append needs a well-terminated list: on a list whose last line has
   * no newline, the name is written onto that line, and the entry it held
   * is no longer recognised. The scripts start from a missing list and
   * append whole lines, so only a list edited by hand ends this way.
   */
  lemma UnterminatedMergesMark()
    ensures IsDownloaded(Some("b"), "b")
    ensures Entries(MarkAsDownloaded(Some("b"), "c")) == ["bc"]
    ensures !IsDownloaded(MarkAsDownloaded(Some("b"), "c"), "b")
  {
    var b: string := "b";
    assert BreakIndex(b) == 1 by { FirstBreak(b, 1); }
    assert Lines(b) == [b];
    StripTrimmed(b);
    assert Entries(Some(b)) == [b];
    var r := MarkAsDownloaded(Some(b), "c");
    assert r.value == "bc" + "\n";
    OneLine("bc");
    StripTrimmed("bc");
    assert Entries(r) == ["bc"];
  }

  /** Every entry read back from the list is stripped. */
  lemma EntriesTrimmed(t: TrackingFile, x: string)
    requires x in Entries(t)
    ensures Trimmed(x)
  {
    var e := Entries(t);
    var k :| 0 <= k < |e| && e[k] == x;
    assert x == Strip(Lines(Content(t))[k]);
  }

  /**
   * A name with surrounding whitespace (`" a.mp4"`) is never recognised, even
   * right after it was marked: the line reads back stripped, so it no longer
   * equals the name, and the file is fetched again on every run.
   */
  lemma UntrimmedNeverRecognised(t: TrackingFile, filename: string)
    requires !Trimmed(filename)
    ensures !IsDownloaded(t, filename)
    ensures !IsDownloaded(MarkAsDownloaded(t, filename), filename)
  {
    if filename in Entries(t) {
      EntriesTrimmed(t, filename);
    }
    if filename in Entries(MarkAsDownloaded(t, filename)) {
      EntriesTrimmed(MarkAsDownloaded(t, filename), filename);
    }
  }

  /** No name is listed twice. */
  predicate NoDuplicates(t: TrackingFile) {
    forall i, j :: 0 <= i < j < |Entries(t)| ==> Entries(t)[i] != Entries(t)[j]
  }

  /** Marking a clean name that is not yet listed keeps the list free of duplicates. */
  lemma MarkKeepsNoDuplicates(t: TrackingFile, filename: string)
    requires WellTerminated(t) && CleanName(filename) && NoDuplicates(t)
    requires !IsDownloaded(t, filename)
    ensures NoDuplicates(MarkAsDownloaded(t, filename))
  {
    MarkEntries(t, filename);
    var e := Entries(t);
    if t.None? {
      assert Lines(Content(t)) == [];
    }
    assert filename !in e;
    var e' := Entries(MarkAsDownloaded(t, filename));
    forall i, j | 0 <= i < j < |e'|
      ensures e'[i] != e'[j]
    {
      if j < |e| {
        assert e'[i] == e[i] && e'[j] == e[j];
      } else {
        assert e'[j] == filename && e'[i] == e[i];
      }
    }
  }
}
