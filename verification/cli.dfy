/**
 * `transcribe.py`: the stand-alone command that transcribes one media file,
 * or every media file of a directory, into a `.txt` file beside it.
 */
module TranscribeCli {
  import opened Options
  import opened Text
  import opened Paths
  import opened Transcription

  /** Everything of `p` up to and including its last `/`: the directory the file sits in. */
  function Parent(p: string): (r: string)
    ensures r + Basename(p) == p
    ensures r == [] || r[|r| - 1] == '/'
  {
    var b := Basename(p);
    var r := p[..|p| - |b|];
    assert r + b == p;
    r
  }

  /** A `/`-free name placed in a directory part is that path's file name. */
  lemma BasenameUnder(dir: string, name: string)
    requires dir == [] || dir[|dir| - 1] == '/'
    requires '/' !in name
    ensures Basename(dir + name) == name
    ensures Parent(dir + name) == dir
  {
    assert IsFinalSegment(name, name);
    FinalSegmentUnderDirectory(dir, name, name);
    FinalSegmentUnique(dir + name, name, Basename(dir + name));
  }

  /**
   * `path.with_suffix(x)` on a whole path: the same directory, the file
   * name's suffix replaced; `None` stands for the `ValueError` raised for an
   * invalid suffix or an empty file name.
   */
  function PathWithSuffix(p: string, x: string): (r: Option<string>)
    ensures r.Some? <==> ValidSuffix(x) && Basename(p) != []
  {
    match WithSuffix(Basename(p), x)
    case None => None
    case Some(n) => Some(Parent(p) + n)
  }

  /** A suffix with one leading dot and no other, as `with_suffix` and `suffix` both see it. */
  predicate SimpleSuffix(x: string) {
    ValidSuffix(x) && |x| >= 2 && '.' !in x[1..]
  }

  /** Renaming a `/`-free name keeps it `/`-free. */
  lemma RenamedHasNoSlash(name: string, x: string)
    requires name != [] && '/' !in name && SimpleSuffix(x)
    ensures '/' !in WithSuffix(name, x).value
  {
    var stem := PathStem(name);
    assert stem == name[..|stem|];
    assert '/' !in stem;
    assert WithSuffix(name, x).value == stem + x;
  }

  /**
   * The renamed path sits in the same directory, keeps the stem and carries
   * the new suffix.
   */
  lemma PathWithSuffixShape(p: string, x: string)
    requires Basename(p) != [] && SimpleSuffix(x)
    ensures PathWithSuffix(p, x).Some?
    ensures Parent(PathWithSuffix(p, x).value) == Parent(p)
    ensures Basename(PathWithSuffix(p, x).value) == PathStem(Basename(p)) + x
    ensures Suffix(Basename(PathWithSuffix(p, x).value)) == x
    ensures PathStem(Basename(PathWithSuffix(p, x).value)) == PathStem(Basename(p))
  {
    var name := Basename(p);
    var dir := Parent(p);
    RenamedHasNoSlash(name, x);
    var n := WithSuffix(name, x).value;
    assert PathWithSuffix(p, x) == Some(dir + n);
    WithSuffixRoundTrip(name, x);
    BasenameUnder(dir, n);
  }

  /** The suffix `process_file` gives its output. */
  lemma TxtSimpleSuffix()
    ensures SimpleSuffix(".txt")
  {
    var x := ".txt";
    assert x[0] == '.' && x[1..] == "txt";
  }

  /**
   * `file_path.with_suffix('.txt')`; `None` stands for the `ValueError`
   * raised for a path whose file name is empty.
   */
  function TextOutput(p: string): (r: Option<string>)
    ensures r.Some? <==> Basename(p) != []
  {
    TxtSimpleSuffix();
    PathWithSuffix(p, ".txt")
  }

  /**
   * The output sits in the input's directory, has the input's stem and has
   * the suffix `.txt`.
   */
  lemma TextOutputShape(p: string)
    requires Basename(p) != []
    ensures TextOutput(p).Some?
    ensures Parent(TextOutput(p).value) == Parent(p)
    ensures Basename(TextOutput(p).value) == PathStem(Basename(p)) + ".txt"
    ensures Suffix(Basename(TextOutput(p).value)) == ".txt"
    ensures PathStem(Basename(TextOutput(p).value)) == PathStem(Basename(p))
  {
    TxtSimpleSuffix();
    PathWithSuffixShape(p, ".txt");
  }

  /** The suffixes `get_media_files` accepts, compared in lower case. */
  const MediaExtensions: set<string> := {".mp4", ".mp3", ".wav", ".m4a", ".avi", ".mov"}

  /** One entry of `directory.iterdir()`: its path and whether `is_file()` holds. */
  datatype Entry = Entry(path: string, isFile: bool)

  /** A suffix `get_media_files` accepts. */
  predicate MediaSuffix(x: string) {
    AsciiLower(x) in MediaExtensions
  }

  /** A regular file whose suffix, lower-cased, is a media suffix. */
  predicate IsMedia(e: Entry) {
    e.isFile && MediaSuffix(Suffix(Basename(e.path)))
  }

  /** `get_media_files(directory)`: the media entries, in listing order. */
  function MediaFiles(entries: seq<Entry>): (r: seq<Entry>)
    ensures |r| <= |entries|
    ensures forall e :: e in r <==> e in entries && IsMedia(e)
  {
    if entries == [] then []
    else
      var rest := MediaFiles(entries[1..]);
      assert forall e :: e in entries <==> e == entries[0] || e in entries[1..];
      if IsMedia(entries[0]) then [entries[0]] + rest else rest
  }

  /** Listing order is kept: the media files of two listings one after the other. */
  lemma {:induction false} MediaFilesAppend(a: seq<Entry>, b: seq<Entry>)
    ensures MediaFiles(a + b) == MediaFiles(a) + MediaFiles(b)
    decreases |a|
  {
    if a == [] {
      assert a + b == b;
    } else {
      assert (a + b)[1..] == a[1..] + b;
      MediaFilesAppend(a[1..], b);
    }
  }

  /** A file without a suffix is never a media file. */
  lemma EmptyNotMediaSuffix()
    ensures !MediaSuffix([])
  {
    assert AsciiLower([]) == [];
  }

  /** `.txt` is not a media suffix in any case. */
  lemma TxtNotMediaSuffix()
    ensures !MediaSuffix(".txt")
  {
    var t := AsciiLower(".txt");
    assert t[1] == 't';
  }

  /** The suffix test ignores case: `.MP4` lower-cases to a media suffix. */
  lemma UpperMp4MediaSuffix()
    ensures MediaSuffix(".MP4")
  {
    var t := AsciiLower(".MP4");
    assert t == ".mp4";
  }

  /** A file named `stem` followed by a media suffix is a media file, whatever the stem. */
  lemma MediaByExtension(dir: string, stem: string, x: string)
    requires dir == [] || dir[|dir| - 1] == '/'
    requires stem != [] && '/' !in stem
    requires |x| >= 2 && x[0] == '.' && '.' !in x[1..] && '/' !in x
    requires MediaSuffix(x)
    ensures IsMedia(Entry(dir + (stem + x), true))
  {
    var name := stem + x;
    assert '/' !in name by {
      assert forall k :: 0 <= k < |name| ==> name[k] == (if k < |stem| then stem[k] else x[k - |stem|]);
    }
    BasenameUnder(dir, name);
    SuffixAfter(stem, x);
  }

  /** A transcript is never taken for a media file, so a second run over the directory leaves it alone. */
  lemma TextOutputNotMedia(p: string)
    requires Basename(p) != []
    ensures !IsMedia(Entry(TextOutput(p).value, true))
  {
    TextOutputShape(p);
    TxtNotMediaSuffix();
  }

  /** Transcribing a media file never writes over the file itself. */
  lemma TextOutputIsNotInput(p: string)
    requires IsMedia(Entry(p, true))
    ensures Basename(p) != []
    ensures TextOutput(p).value != p
  {
    EmptyNotMediaSuffix();
    TxtNotMediaSuffix();
    assert Basename(p) != [];
    TextOutputShape(p);
  }

  /** What `process_file` did: saved a transcript at a path, or printed an error. */
  datatype FileResult = Saved(output: string) | Reported

  datatype Handled = Handled(result: FileResult, disk: Disk)

  /**
   * `process_file(file_path, model)`: transcribe, then derive the output
   * path, then write it; any exception along the way is reported and the
   * disk is left as it was. An existing output file is overwritten.
   */
  function ProcessFile(disk: Disk, whisper: string -> Option<string>, p: string): (h: Handled)
    ensures h.result.Saved? <==>
      TranscribeAudio(disk, whisper, p).Some? && Basename(p) != [] && TextOutput(p).value !in disk.unwritable
    ensures h.result.Reported? ==> h.disk == disk
    ensures h.result.Saved? ==>
      && h.result.output == TextOutput(p).value
      && h.disk == Save(disk, h.result.output, whisper(p).value)
  {
    var text := TranscribeAudio(disk, whisper, p);
    if text.None? then Handled(Reported, disk)
    else
      match TextOutput(p)
      case None => Handled(Reported, disk)
      case Some(out) =>
        if out in disk.unwritable then Handled(Reported, disk)
        else Handled(Saved(out), Save(disk, out, text.value))
  }

  /**
   * The media file survives its own transcription: it stays present and
   * keeps any content the model tracks for it.
   */
  lemma ProcessFileKeepsInput(disk: Disk, whisper: string -> Option<string>, p: string)
    requires IsMedia(Entry(p, true))
    ensures var d := ProcessFile(disk, whisper, p).disk;
      && (p in d.present <==> p in disk.present)
      && (p in disk.written ==> p in d.written && d.written[p] == disk.written[p])
  {
    TextOutputIsNotInput(p);
    var h := ProcessFile(disk, whisper, p);
    if h.result.Saved? {
      assert h.result.output != p;
    }
  }

  /** The batch loop over `media_files`: `process_file` never raises, so every file is handled. */
  function ProcessFiles(disk: Disk, whisper: string -> Option<string>, paths: seq<string>): (r: (seq<FileResult>, Disk))
    ensures |r.0| == |paths|
    decreases |paths|
  {
    if paths == [] then ([], disk)
    else
      var n := |paths| - 1;
      var prev := ProcessFiles(disk, whisper, paths[..n]);
      var h := ProcessFile(prev.1, whisper, paths[n]);
      (prev.0 + [h.result], h.disk)
  }

  /** Each file's result is that of `process_file` against the disk the earlier ones left. */
  lemma ProcessFilesLast(disk: Disk, whisper: string -> Option<string>, paths: seq<string>)
    requires paths != []
    ensures var n := |paths| - 1;
      var prev := ProcessFiles(disk, whisper, paths[..n]);
      var r := ProcessFiles(disk, whisper, paths);
      var h := ProcessFile(prev.1, whisper, paths[n]);
      r.0 == prev.0 + [h.result] && r.1 == h.disk
  {
  }

  /** Every file the batch writes is the transcript of some processed file that reported success. */
  lemma {:induction false} ProcessFilesWritesOnlyOutputs(disk: Disk, whisper: string -> Option<string>, paths: seq<string>, q: string)
    requires q in ProcessFiles(disk, whisper, paths).1.written && q !in disk.written
    ensures exists k :: (0 <= k < |paths| && ProcessFiles(disk, whisper, paths).0[k] == Saved(q)
      && Basename(paths[k]) != [] && q == TextOutput(paths[k]).value)
    decreases |paths|
  {
    var n := |paths| - 1;
    var init := paths[..n];
    var prev := ProcessFiles(disk, whisper, init);
    var r := ProcessFiles(disk, whisper, paths);
    ProcessFilesLast(disk, whisper, paths);
    var h := ProcessFile(prev.1, whisper, paths[n]);
    if q in prev.1.written {
      ProcessFilesWritesOnlyOutputs(disk, whisper, init, q);
      var k :| 0 <= k < n && prev.0[k] == Saved(q) && Basename(init[k]) != [] && q == TextOutput(init[k]).value;
      assert r.0[k] == prev.0[k];
      assert init[k] == paths[k];
    } else {
      assert h.result.Saved?;
      assert r.0[n] == h.result;
    }
  }

  /** The command line: the optional positional file and `--directory`. */
  datatype Args = Args(file: Option<string>, directory: Option<string>)

  /** An argument counts as given when it is present and non-empty. */
  predicate Given(a: Option<string>) {
    a.Some? && a.value != []
  }

  /** What the file system says about the `--directory` path. */
  datatype DirView = Missing | NotDirectory | Listing(entries: seq<Entry>) | ListingFails

  /** The exit status, the paths handed to `process_file` in order, their results, and the disk afterwards. */
  datatype Outcome = Outcome(status: int, processed: seq<string>, results: seq<FileResult>, disk: Disk)

  /** The paths of a list of entries. */
  function EntryPaths(es: seq<Entry>): (r: seq<string>)
    ensures |r| == |es|
    ensures forall k :: 0 <= k < |es| ==> r[k] == es[k].path
  {
    if es == [] then [] else [es[0].path] + EntryPaths(es[1..])
  }

  /**
   * `main()`: without a file or a directory `argparse` exits with status 2;
   * a file takes precedence over a directory; a directory that is missing,
   * not a directory or cannot be listed gives status 1; otherwise every
   * media file is processed in listing order and the status is 0.
   */
  function Main(args: Args, view: DirView, disk: Disk, whisper: string -> Option<string>): (o: Outcome)
    ensures o.status == 2 <==> !Given(args.file) && !Given(args.directory)
    ensures o.status == 1 <==> !Given(args.file) && Given(args.directory) && !view.Listing?
    ensures o.status in {0, 1, 2}
    ensures o.status != 0 ==> o.processed == [] && o.disk == disk
    ensures Given(args.file) ==> o.processed == [args.file.value]
    ensures !Given(args.file) && Given(args.directory) && view.Listing? ==>
      o.processed == EntryPaths(MediaFiles(view.entries))
    ensures |o.results| == |o.processed|
    ensures o.status == 0 ==> (o.results, o.disk) == ProcessFiles(disk, whisper, o.processed)
  {
    if !Given(args.file) && !Given(args.directory) then Outcome(2, [], [], disk)
    else if Given(args.file) then
      var h := ProcessFile(disk, whisper, args.file.value);
      assert ProcessFiles(disk, whisper, [args.file.value]) == ([h.result], h.disk) by {
        assert [args.file.value][..0] == [];
        assert ProcessFiles(disk, whisper, []) == ([], disk);
        assert [] + [h.result] == [h.result];
      }
      Outcome(0, [args.file.value], [h.result], h.disk)
    else if !view.Listing? then Outcome(1, [], [], disk)
    else
      var paths := EntryPaths(MediaFiles(view.entries));
      var r := ProcessFiles(disk, whisper, paths);
      Outcome(0, paths, r.0, r.1)
  }

  /**
   * A run writes only transcripts of the files it processed, each beside its
   * media file, and never over a processed media file.
   */
  lemma MainWritesOnlyTranscripts(args: Args, view: DirView, disk: Disk, whisper: string -> Option<string>, q: string)
    requires q in Main(args, view, disk, whisper).disk.written && q !in disk.written
    ensures exists k :: (0 <= k < |Main(args, view, disk, whisper).processed|
      && Basename(Main(args, view, disk, whisper).processed[k]) != []
      && q == TextOutput(Main(args, view, disk, whisper).processed[k]).value
      && Main(args, view, disk, whisper).results[k] == Saved(q))
  {
    var o := Main(args, view, disk, whisper);
    ProcessFilesWritesOnlyOutputs(disk, whisper, o.processed, q);
  }

  /** In directory mode only media files reach `process_file`, so no transcript is written over an input. */
  lemma DirectoryModeProcessesMedia(args: Args, view: DirView, disk: Disk, whisper: string -> Option<string>, k: nat)
    requires !Given(args.file) && Given(args.directory) && view.Listing?
    requires k < |Main(args, view, disk, whisper).processed|
    ensures IsMedia(Entry(Main(args, view, disk, whisper).processed[k], true))
    ensures TextOutput(Main(args, view, disk, whisper).processed[k]).Some?
    ensures TextOutput(Main(args, view, disk, whisper).processed[k]).value != Main(args, view, disk, whisper).processed[k]
  {
    var media := MediaFiles(view.entries);
    var e := media[k];
    assert e in media;
    assert IsMedia(e);
    TextOutputIsNotInput(e.path);
  }
}
