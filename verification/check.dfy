/**
 * `check_file_sizes.py`: compare the size of each downloaded file with the
 * size recorded for its name by `generate_file_sizes.py`.
 */
module SizeCheck {
  import opened Options
  import opened Text
  import opened LineReader
  import opened Paths

  /** `file_sizes.json` as `get_expected_sizes` finds it; a decoded file is an object of integers. */
  datatype SizesFile = SizesMissing | SizesUnreadable | SizesJson(sizes: map<string, int>)

  /** `get_expected_sizes()`: a missing or unreadable file gives an empty table. */
  function ExpectedSizes(f: SizesFile): (m: map<string, int>)
    ensures f.SizesJson? ==> m == f.sizes
    ensures !f.SizesJson? ==> m == map[]
  {
    if f.SizesJson? then f.sizes else map[]
  }

  /** `downloaded.txt` as `get_downloaded_files` finds it. */
  datatype ListFile = ListMissing | ListUnreadable | ListText(text: string)

  /** `get_downloaded_files()`: the stripped non-blank lines, or none when the list cannot be read. */
  function DownloadedFiles(f: ListFile): (names: seq<string>)
    ensures forall k :: 0 <= k < |names| ==> names[k] != [] && Trimmed(names[k]) && NoBreaks(names[k])
    ensures !f.ListText? ==> names == []
  {
    if f.ListText? then NonBlankLines(f.text) else []
  }

  /** What the check says about one listed file. */
  datatype Verdict =
    | NoExpectedSize(name: string)
    | NotFound(name: string)
    | SizeMismatch(name: string, expected: int, actual: nat)
    | SizeMatch(name: string, size: nat)

  /** The `Diff:` line of a mismatch report: positive when the file is larger than expected. */
  function Diff(v: Verdict): int
    requires v.SizeMismatch?
  {
    v.actual - v.expected
  }

  /**
   * One pass of the loop in `check_file_sizes()`; `disk` maps each existing
   * path to what `os.path.getsize` reports for it.
   */
  function CheckFile(dir: string, expected: map<string, int>, disk: map<string, nat>, name: string): (v: Verdict)
    ensures v.name == name
    ensures v.NoExpectedSize? <==> name !in expected
    ensures v.NotFound? <==> name in expected && Join(dir, name) !in disk
    ensures v.SizeMatch? <==> name in expected && Join(dir, name) in disk && disk[Join(dir, name)] == expected[name]
    ensures v.SizeMismatch? ==> Diff(v) != 0 && v.expected == expected[name] && v.actual == disk[Join(dir, name)]
    ensures v.SizeMatch? ==> v.size == expected[name]
  {
    if name !in expected then NoExpectedSize(name)
    else
      var path := Join(dir, name);
      if path !in disk then NotFound(name)
      else if disk[path] != expected[name] then SizeMismatch(name, expected[name], disk[path])
      else SizeMatch(name, disk[path])
  }

  /** The outcome of `check_file_sizes()`: it stops early without sizes or without downloads. */
  datatype Report = NoSizes | NoDownloads | Checked(verdicts: seq<Verdict>)

  function CheckAll(dir: string, expected: map<string, int>, disk: map<string, nat>, names: seq<string>): (vs: seq<Verdict>)
    ensures |vs| == |names|
    ensures forall k :: 0 <= k < |names| ==> vs[k] == CheckFile(dir, expected, disk, names[k])
  {
    if names == [] then [] else [CheckFile(dir, expected, disk, names[0])] + CheckAll(dir, expected, disk, names[1..])
  }

  /** `check_file_sizes()`: one verdict per listed file, in list order. */
  function CheckFileSizes(dir: string, sizes: SizesFile, list: ListFile, disk: map<string, nat>): (r: Report)
    ensures r.NoSizes? <==> ExpectedSizes(sizes) == map[]
    ensures r.NoDownloads? <==> ExpectedSizes(sizes) != map[] && DownloadedFiles(list) == []
    ensures r.Checked? ==> |r.verdicts| == |DownloadedFiles(list)|
  {
    var expected := ExpectedSizes(sizes);
    var names := DownloadedFiles(list);
    if expected == map[] then NoSizes
    else if names == [] then NoDownloads
    else Checked(CheckAll(dir, expected, disk, names))
  }

  /** `main()`: a non-empty `--download-dir` replaces `DOWNLOAD_DIR`. */
  function CheckDir(defaultDir: string, downloadDirArg: Option<string>): (dir: string)
    ensures downloadDirArg.Some? && downloadDirArg.value != [] ==> dir == downloadDirArg.value
    ensures downloadDirArg.None? || downloadDirArg.value == [] ==> dir == defaultDir
  {
    if downloadDirArg.Some? && downloadDirArg.value != [] then downloadDirArg.value else defaultDir
  }

  /** The sizes `os.path.getsize` reports for a set of saved files. */
  function DiskSizes<B>(files: map<string, seq<B>>): (disk: map<string, nat>)
    ensures disk.Keys == files.Keys
    ensures forall p :: p in files ==> disk[p] == |files[p]|
  {
    map p | p in files :: |files[p]|
  }

  /**
   * A listed file whose saved content is as long as the recorded size
   * passes; one cut short shows a negative difference.
   */
  lemma CheckSavedFile<B>(dir: string, sizes: SizesFile, list: ListFile, files: map<string, seq<B>>, k: nat)
    requires k < |DownloadedFiles(list)|
    requires ExpectedSizes(sizes) != map[]
    requires DownloadedFiles(list)[k] in ExpectedSizes(sizes)
    requires Join(dir, DownloadedFiles(list)[k]) in files
    ensures CheckFileSizes(dir, sizes, list, DiskSizes(files)).Checked?
    ensures var v := CheckFileSizes(dir, sizes, list, DiskSizes(files)).verdicts[k];
      var name := DownloadedFiles(list)[k];
      && (|files[Join(dir, name)]| == ExpectedSizes(sizes)[name] ==> v == SizeMatch(name, |files[Join(dir, name)]|))
      && (|files[Join(dir, name)]| < ExpectedSizes(sizes)[name] ==> v.SizeMismatch? && Diff(v) < 0)
  {
  }
}
