/**
 * The download list `download_list.txt` as the scripts read it, and the
 * file name each entry is stored under.
 */
module Catalogue {
  import opened Options
  import opened Text
  import opened LineReader

  /** `is_url(path)`: the entry starts with `http://` or `https://` (case-sensitive). */
  predicate IsUrl(p: string) {
    "http://" <= p || "https://" <= p
  }

  lemma IsUrlSchemes(rest: string)
    ensures IsUrl("http://" + rest) && IsUrl("https://" + rest)
    ensures !IsUrl("HTTP://" + rest) && !IsUrl("ftp://" + rest) && !IsUrl("/" + rest)
  {
    assert ("http://" + rest)[..7] == "http://";
    assert ("https://" + rest)[..8] == "https://";
    assert ("HTTP://" + rest)[0] == 'H';
    assert ("ftp://" + rest)[0] == 'f';
    assert ("/" + rest)[0] == '/';
  }

  /**
   * `get_filename(path)` of process_videos.py: `path.split('/')[-1]` for a
   * URL, `os.path.basename(path)` otherwise. Both branches give the text
   * after the last `/`.
   */
  function GetFilename(p: string): (r: string)
    ensures IsFinalSegment(p, r)
    ensures r == LastPiece(p) && r == Basename(p)
  {
    LastPieceIsBasename(p);
    if IsUrl(p) then LastPiece(p) else Basename(p)
  }

  /**
   * `[get_filename(url) for url in urls]`; the same names as
   * `url.split('/')[-1]` in `generate_file_sizes.py`.
   */
  function FileNames(urls: seq<string>): (r: seq<string>)
    ensures |r| == |urls|
    ensures forall k :: 0 <= k < |urls| ==> r[k] == GetFilename(urls[k]) && r[k] == LastPiece(urls[k])
  {
    if urls == [] then [] else [GetFilename(urls[0])] + FileNames(urls[1..])
  }

  /** `[url for url in xs if is_url(url)]`. */
  function UrlsOnly(xs: seq<string>): (r: seq<string>)
    ensures |r| <= |xs|
    ensures forall x :: x in r <==> x in xs && IsUrl(x)
  {
    if xs == [] then []
    else
      var rest := UrlsOnly(xs[1..]);
      assert xs == [xs[0]] + xs[1..];
      if IsUrl(xs[0]) then [xs[0]] + rest else rest
  }

  /** The URL filter keeps list order: it distributes over concatenation. */
  lemma {:induction false} UrlsOnlyAppend(a: seq<string>, b: seq<string>)
    ensures UrlsOnly(a + b) == UrlsOnly(a) + UrlsOnly(b)
  {
    if a != [] {
      assert (a + b)[1..] == a[1..] + b;
      UrlsOnlyAppend(a[1..], b);
    } else {
      assert a + b == b;
    }
  }

  /**
   * `xs[:limit]` when `limit is not None`: Python slicing, so a negative
   * limit drops that many entries from the end.
   */
  function Head<T>(xs: seq<T>, limit: Option<int>): (r: seq<T>)
    ensures r <= xs
    ensures limit.None? ==> r == xs
    ensures limit.Some? && limit.value >= 0 ==> |r| == Min(limit.value, |xs|)
    ensures limit.Some? && limit.value < 0 ==> |r| == Max(0, |xs| + limit.value)
  {
    match limit
    case None => xs
    case Some(n) => if n >= 0 then xs[..Min(n, |xs|)] else xs[..Max(0, |xs| + n)]
  }

  /** The URLs of the download list, in file order, before any limit. */
  function ListedUrls(listing: string): seq<string> {
    UrlsOnly(NonBlankLines(listing))
  }

  /**
   * The entries `download_videos(limit)` fetches: stripped non-blank lines,
   * then URLs only, then the first `limit`.
   */
  function DownloadCatalogue(listing: string, limit: Option<int>): (r: seq<string>)
    ensures r <= ListedUrls(listing)
    ensures limit.Some? && limit.value >= 0 ==> |r| == Min(limit.value, |ListedUrls(listing)|)
    ensures limit.None? ==> r == ListedUrls(listing)
  {
    Head(ListedUrls(listing), limit)
  }

  /** Every entry fetched is a URL line of the list, stripped and single-line. */
  lemma CatalogueEntry(listing: string, limit: Option<int>, u: string)
    requires u in DownloadCatalogue(listing, limit)
    ensures u in NonBlankLines(listing)
    ensures IsUrl(u) && u != [] && Trimmed(u) && NoBreaks(u)
  {
    var r := DownloadCatalogue(listing, limit);
    var urls := ListedUrls(listing);
    var lines := NonBlankLines(listing);
    var k :| 0 <= k < |r| && r[k] == u;
    assert urls[k] == u;
    assert u in urls;
    assert u in lines && IsUrl(u);
    var j :| 0 <= j < |lines| && lines[j] == u;
  }

  /**
   * The entries `transcribe_videos(limit)` walks: the limit is applied to all
   * stripped non-blank lines, URL or not.
   */
  function TranscriptionCandidates(listing: string, limit: Option<int>): (r: seq<string>)
    ensures r <= NonBlankLines(listing)
    ensures limit.Some? && limit.value >= 0 ==> |r| == Min(limit.value, |NonBlankLines(listing)|)
  {
    Head(NonBlankLines(listing), limit)
  }

  /**
   * The two walks differ: with a local path first and a limit of one, the
   * download walk fetches the URL while the transcription walk sees only the path
   * (for instance `/local.mp4` then `http://h/a.mp4`).
   */
  lemma LimitBeforeOrAfterFilter(a: string, b: string)
    requires a != [] && Trimmed(a) && NoBreaks(a) && !IsUrl(a)
    requires b != [] && Trimmed(b) && NoBreaks(b) && IsUrl(b)
    ensures DownloadCatalogue(a + "\n" + b + "\n", Some(1)) == [b]
    ensures TranscriptionCandidates(a + "\n" + b + "\n", Some(1)) == [a]
  {
    TwoLineListing(a, b);
    UrlsOnlyAppend([a], [b]);
    assert [a] + [b] == [a, b];
    assert UrlsOnly([a]) == [] by { assert [a][1..] == []; }
    assert UrlsOnly([b]) == [b] by { assert [b][1..] == []; }
  }

  /** A list of two clean lines reads back as those two entries. */
  lemma TwoLineListing(a: string, b: string)
    requires a != [] && Trimmed(a) && NoBreaks(a)
    requires b != [] && Trimmed(b) && NoBreaks(b)
    ensures NonBlankLines(a + "\n" + b + "\n") == [a, b]
  {
    assert Unlines([b]) == b + "\n";
    assert Unlines([a, b]) == a + "\n" + Unlines([b]);
    assert a + "\n" + b + "\n" == Unlines([a, b]);
    NonBlankLinesOfUnlines([a, b]);
  }

  /**
   * The name stored for a catalogue URL has no line breaks and no trailing
   * whitespace; only a leading space can survive (`http://h/ a.mp4`).
   */
  lemma CatalogueNameShape(listing: string, limit: Option<int>, u: string)
    requires u in DownloadCatalogue(listing, limit)
    ensures NoBreaks(GetFilename(u))
    ensures GetFilename(u) == [] || !IsSpace(GetFilename(u)[|GetFilename(u)| - 1])
  {
    CatalogueEntry(listing, limit, u);
    var r := GetFilename(u);
    SuffixKeepsNoBreaks(u, r);
    if r != [] {
      assert r[|r| - 1] == u[|u| - 1];
    }
  }
}
