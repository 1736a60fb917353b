/**
 * Transcribing downloaded videos: `process_video`, shared by
 * `process_videos.py` and `transcribe_service.py`, one batch of the
 * service's loop, and the transcription walk of `process_videos.py`.
 *
 * Whisper is a parameter: what it returns for each video path, with `None`
 * for an exception.
 */
module Transcription {
  import opened Options
  import opened Text
  import opened LineReader
  import opened Paths
  import opened Tracking
  import opened Catalogue

  /** `DOWNLOAD_DIR` and `TRANSCRIPT_DIR`. */
  datatype Dirs = Dirs(download: string, transcript: string)

  /**
   * The files the transcription touches: the paths that exist, the text of
   * each transcript written, and the paths `open(path, 'w')` refuses.
   */
  datatype Disk = Disk(present: set<string>, written: map<string, string>, unwritable: set<string>)

  /** `os.path.join(DOWNLOAD_DIR, filename)`. */
  function VideoPath(dirs: Dirs, filename: string): string {
    Join(dirs.download, filename)
  }

  /** `os.path.join(TRANSCRIPT_DIR, f"{os.path.splitext(filename)[0]}.txt")`. */
  function TranscriptPath(dirs: Dirs, filename: string): string {
    Join(dirs.transcript, SplitExt(filename).0 + ".txt")
  }

  /** A video name with a single extension keeps its stem and gets `.txt`. */
  lemma TranscriptPathOfName(dirs: Dirs, stem: string, ext: string)
    requires '/' !in stem && '/' !in ext && '.' !in ext
    requires exists k :: 0 <= k < |stem| && stem[k] != '.'
    ensures TranscriptPath(dirs, stem + "." + ext) == Join(dirs.transcript, stem + ".txt")
  {
    SplitExtOfName(stem, ext);
  }

  /** `transcribe_audio(path, MODEL_SIZE)`: a missing file raises before Whisper runs. */
  function TranscribeAudio(disk: Disk, whisper: string -> Option<string>, path: string): (r: Option<string>)
    ensures r.Some? ==> path in disk.present && r == whisper(path)
    ensures path in disk.present ==> r == whisper(path)
  {
    if path !in disk.present then None else whisper(path)
  }

  /** What `process_video` returns, and the disk afterwards. */
  datatype Processed = Processed(ok: bool, disk: Disk)

  /** The disk after writing `text` to a new file at `path`. */
  function Save(disk: Disk, path: string, text: string): Disk {
    disk.(present := disk.present + {path}, written := disk.written[path := text])
  }

  /** `process_video(filename)`. */
  function ProcessVideo(dirs: Dirs, disk: Disk, whisper: string -> Option<string>, filename: string): (r: Processed)
    ensures r.ok <==> TranscriptPath(dirs, filename) in r.disk.present
    ensures r.disk == disk || (
      && TranscriptPath(dirs, filename) !in disk.present
      && TranscriptPath(dirs, filename) !in disk.unwritable
      && TranscribeAudio(disk, whisper, VideoPath(dirs, filename)).Some?
      && r.disk == Save(disk, TranscriptPath(dirs, filename), TranscribeAudio(disk, whisper, VideoPath(dirs, filename)).value))
  {
    var tp := TranscriptPath(dirs, filename);
    if tp in disk.present then Processed(true, disk)
    else
      var text := TranscribeAudio(disk, whisper, VideoPath(dirs, filename));
      if text.None? || tp in disk.unwritable then Processed(false, disk)
      else Processed(true, Save(disk, tp, text.value))
  }

  /** A second `process_video` of the same name right after a successful one skips and changes nothing. */
  lemma ProcessVideoIdempotent(dirs: Dirs, disk: Disk, whisper: string -> Option<string>, filename: string)
    requires ProcessVideo(dirs, disk, whisper, filename).ok
    ensures var d := ProcessVideo(dirs, disk, whisper, filename).disk;
      ProcessVideo(dirs, d, whisper, filename) == Processed(true, d)
  {
  }

  /**
   * `process_video` fails exactly when there is no transcript yet and either
   * the video is missing, Whisper raises, or the transcript cannot be opened.
   */
  lemma ProcessVideoFails(dirs: Dirs, disk: Disk, whisper: string -> Option<string>, filename: string)
    ensures !ProcessVideo(dirs, disk, whisper, filename).ok <==>
      && TranscriptPath(dirs, filename) !in disk.present
      && (VideoPath(dirs, filename) !in disk.present
          || whisper(VideoPath(dirs, filename)).None?
          || TranscriptPath(dirs, filename) in disk.unwritable)
    ensures !ProcessVideo(dirs, disk, whisper, filename).ok ==> ProcessVideo(dirs, disk, whisper, filename).disk == disk
  {
  }

  /** `get_downloaded_files()` of the service: the stripped non-blank lines of the list, if it exists. */
  function ServiceDownloadedFiles(t: TrackingFile): (names: seq<string>)
    ensures forall k :: 0 <= k < |names| ==> names[k] != [] && Trimmed(names[k]) && NoBreaks(names[k])
    ensures t.None? ==> names == []
  {
    NonBlankLines(Content(t))
  }

  /** Each listed name recognised by `is_downloaded` appears in the service's list. */
  lemma ServiceSeesDownloaded(t: TrackingFile, filename: string)
    requires IsDownloaded(t, filename) && filename != []
    ensures filename in ServiceDownloadedFiles(t)
  {
    var ls := Lines(Content(t));
    var e := Entries(t);
    assert e == StripAll(ls);
    var k :| 0 <= k < |e| && e[k] == filename;
    assert Strip(ls[k]) == filename;
    StripNonBlankMembers(ls, filename);
    assert ServiceDownloadedFiles(t) == StripNonBlank(ls);
  }

  /** What one pass of the batch loop did with a listed name. */
  datatype FileOutcome = Skipped | Succeeded | Failed

  /** The batch loop over `names`: the outcome of each and the disk afterwards. */
  datatype Batch = Batch(outcomes: seq<FileOutcome>, disk: Disk)

  function ProcessAll(dirs: Dirs, disk: Disk, whisper: string -> Option<string>, names: seq<string>): (b: Batch)
    ensures |b.outcomes| == |names|
    ensures disk.present <= b.disk.present
    ensures b.disk.unwritable == disk.unwritable
    decreases |names|
  {
    if names == [] then Batch([], disk)
    else
      var n := |names| - 1;
      var prev := ProcessAll(dirs, disk, whisper, names[..n]);
      if VideoPath(dirs, names[n]) !in prev.disk.present then Batch(prev.outcomes + [Skipped], prev.disk)
      else
        var r := ProcessVideo(dirs, prev.disk, whisper, names[n]);
        Batch(prev.outcomes + [if r.ok then Succeeded else Failed], r.disk)
  }

  function Count(outcomes: seq<FileOutcome>, o: FileOutcome): (c: nat)
    ensures c <= |outcomes|
  {
    if outcomes == [] then 0
    else Count(outcomes[..|outcomes| - 1], o) + (if outcomes[|outcomes| - 1] == o then 1 else 0)
  }

  /** The service's state after one iteration of its loop. */
  datatype Iteration =
    | Idle
    | Completed(successful: nat, failed: nat, outcomes: seq<FileOutcome>, disk: Disk)

  /** One iteration of `main()`'s loop, without the sleeps. */
  function ServiceIteration(dirs: Dirs, t: TrackingFile, disk: Disk, whisper: string -> Option<string>): (it: Iteration)
    ensures it.Idle? <==> ServiceDownloadedFiles(t) == []
    ensures it.Completed? ==> |it.outcomes| == |ServiceDownloadedFiles(t)|
    ensures it.Completed? ==>
      it.successful + it.failed + Count(it.outcomes, Skipped) == |ServiceDownloadedFiles(t)|
  {
    var names := ServiceDownloadedFiles(t);
    if names == [] then Idle
    else
      var b := ProcessAll(dirs, disk, whisper, names);
      CountPartition(b.outcomes);
      Completed(Count(b.outcomes, Succeeded), Count(b.outcomes, Failed), b.outcomes, b.disk)
  }

  /** Every name is counted once: as skipped, successful or failed. */
  lemma {:induction false} CountPartition(outcomes: seq<FileOutcome>)
    ensures Count(outcomes, Skipped) + Count(outcomes, Succeeded) + Count(outcomes, Failed) == |outcomes|
  {
    if outcomes != [] {
      CountPartition(outcomes[..|outcomes| - 1]);
    }
  }

  /** The last pass of the batch loop, against the state the earlier passes left. */
  lemma ProcessAllLast(dirs: Dirs, disk: Disk, whisper: string -> Option<string>, names: seq<string>)
    requires names != []
    ensures var n := |names| - 1;
      var prev := ProcessAll(dirs, disk, whisper, names[..n]);
      var b := ProcessAll(dirs, disk, whisper, names);
      && b.outcomes == prev.outcomes + [b.outcomes[n]]
      && prev.disk.present <= b.disk.present
      && (b.outcomes[n] == Skipped <==> VideoPath(dirs, names[n]) !in prev.disk.present)
      && (b.outcomes[n] == Succeeded ==> TranscriptPath(dirs, names[n]) in b.disk.present)
      && (TranscriptPath(dirs, names[n]) in prev.disk.present ==> b.disk == prev.disk && b.outcomes[n] != Failed)
  {
    var n := |names| - 1;
    var prev := ProcessAll(dirs, disk, whisper, names[..n]);
    if VideoPath(dirs, names[n]) in prev.disk.present {
      var r := ProcessVideo(dirs, prev.disk, whisper, names[n]);
      assert ProcessAll(dirs, disk, whisper, names) == Batch(prev.outcomes + [if r.ok then Succeeded else Failed], r.disk);
    }
  }

  /**
   * A name is skipped only if its video was missing when the batch began:
   * files only appear during a batch.
   */
  lemma {:induction false} SkippedOnlyIfAbsent(dirs: Dirs, disk: Disk, whisper: string -> Option<string>, names: seq<string>, k: nat)
    requires k < |names|
    requires ProcessAll(dirs, disk, whisper, names).outcomes[k] == Skipped
    ensures VideoPath(dirs, names[k]) !in disk.present
    decreases |names|
  {
    var n := |names| - 1;
    ProcessAllLast(dirs, disk, whisper, names);
    if k < n {
      assert names[..n][k] == names[k];
      SkippedOnlyIfAbsent(dirs, disk, whisper, names[..n], k);
    }
  }

  /**
   * A name counted as successful has its transcript on disk when the batch
   * ends, whether it was written now or already there.
   */
  lemma {:induction false} SucceededHasTranscript(dirs: Dirs, disk: Disk, whisper: string -> Option<string>, names: seq<string>, k: nat)
    requires k < |names|
    requires ProcessAll(dirs, disk, whisper, names).outcomes[k] == Succeeded
    ensures TranscriptPath(dirs, names[k]) in ProcessAll(dirs, disk, whisper, names).disk.present
    decreases |names|
  {
    var n := |names| - 1;
    ProcessAllLast(dirs, disk, whisper, names);
    if k < n {
      var init := names[..n];
      var prev := ProcessAll(dirs, disk, whisper, init);
      var b := ProcessAll(dirs, disk, whisper, names);
      assert init[k] == names[k];
      assert prev.outcomes[k] == b.outcomes[k];
      SucceededHasTranscript(dirs, disk, whisper, init, k);
      assert TranscriptPath(dirs, names[k]) in prev.disk.present;
    }
  }

  /**
   * When every listed video already has its transcript, a batch runs no
   * transcription: it counts each present video as successful and leaves
   * the disk as it was.
   */
  lemma {:induction false} ProcessAllDone(dirs: Dirs, disk: Disk, whisper: string -> Option<string>, names: seq<string>)
    requires forall k :: 0 <= k < |names| ==> TranscriptPath(dirs, names[k]) in disk.present
    ensures ProcessAll(dirs, disk, whisper, names).disk == disk
    ensures Count(ProcessAll(dirs, disk, whisper, names).outcomes, Failed) == 0
    decreases |names|
  {
    if names != [] {
      var n := |names| - 1;
      assert forall k :: 0 <= k < n ==> names[..n][k] == names[k];
      ProcessAllDone(dirs, disk, whisper, names[..n]);
      ProcessAllLast(dirs, disk, whisper, names);
      var b := ProcessAll(dirs, disk, whisper, names);
      assert b.outcomes[..n] == ProcessAll(dirs, disk, whisper, names[..n]).outcomes;
    }
  }

  /** What `transcribe_videos` did with one candidate entry. */
  datatype WalkStep = NotYetDownloaded | Attempted(ok: bool)

  datatype Walk = Walk(steps: seq<WalkStep>, disk: Disk)

  /** A URL entry whose file name the tracking list does not hold. */
  predicate PassedOver(t: TrackingFile, path: string) {
    IsUrl(path) && !IsDownloaded(t, GetFilename(path))
  }

  /** Which entries `transcribe_videos` passes over. */
  function PassedOverAll(t: TrackingFile, entries: seq<string>): (r: seq<bool>)
    ensures |r| == |entries|
    ensures forall k :: 0 <= k < |entries| ==> r[k] == PassedOver(t, entries[k])
  {
    if entries == [] then [] else [PassedOver(t, entries[0])] + PassedOverAll(t, entries[1..])
  }

  /**
   * The loop of `transcribe_videos` over the file names of its entries:
   * an entry marked in `passed` is passed over, the others go to `process_video`.
   */
  function WalkNames(dirs: Dirs, disk: Disk, whisper: string -> Option<string>, names: seq<string>, passed: seq<bool>): (w: Walk)
    requires |passed| == |names|
    ensures |w.steps| == |names|
    decreases |names|
  {
    if names == [] then Walk([], disk)
    else
      var n := |names| - 1;
      var prev := WalkNames(dirs, disk, whisper, names[..n], passed[..n]);
      if passed[n] then Walk(prev.steps + [NotYetDownloaded], prev.disk)
      else
        var r := ProcessVideo(dirs, prev.disk, whisper, names[n]);
        Walk(prev.steps + [Attempted(r.ok)], r.disk)
  }

  /**
   * `transcribe_videos`' loop over candidate entries: a URL whose file name
   * the tracking list does not hold is passed over; anything else, a local
   * path included, goes to `process_video`.
   */
  function TranscribeEntries(dirs: Dirs, t: TrackingFile, disk: Disk, whisper: string -> Option<string>, entries: seq<string>): (w: Walk)
    ensures |w.steps| == |entries|
  {
    WalkNames(dirs, disk, whisper, FileNames(entries), PassedOverAll(t, entries))
  }

  /** `transcribe_videos(limit)` on the text of the download list. */
  function TranscribeVideos(dirs: Dirs, t: TrackingFile, disk: Disk, whisper: string -> Option<string>, listing: string, limit: Option<int>): Walk {
    TranscribeEntries(dirs, t, disk, whisper, TranscriptionCandidates(listing, limit))
  }

  /** The last pass of the walk, against the state the earlier passes left. */
  lemma WalkNamesLast(dirs: Dirs, disk: Disk, whisper: string -> Option<string>, names: seq<string>, passed: seq<bool>)
    requires |passed| == |names| && names != []
    ensures var n := |names| - 1;
      var prev := WalkNames(dirs, disk, whisper, names[..n], passed[..n]);
      var w := WalkNames(dirs, disk, whisper, names, passed);
      && w.steps == prev.steps + [w.steps[n]]
      && (w.steps[n].NotYetDownloaded? <==> passed[n])
      && (w.disk == prev.disk || (w.steps[n] == Attempted(true)
            && w.disk == Save(prev.disk, TranscriptPath(dirs, names[n]), w.disk.written[TranscriptPath(dirs, names[n])])))
  {
    var n := |names| - 1;
    var prev := WalkNames(dirs, disk, whisper, names[..n], passed[..n]);
    if !passed[n] {
      var r := ProcessVideo(dirs, prev.disk, whisper, names[n]);
      assert WalkNames(dirs, disk, whisper, names, passed) == Walk(prev.steps + [Attempted(r.ok)], r.disk);
    }
  }

  /** Exactly the entries marked as passed over are passed over. */
  lemma {:induction false} WalkNamesPassesOver(dirs: Dirs, disk: Disk, whisper: string -> Option<string>, names: seq<string>, passed: seq<bool>, k: nat)
    requires |passed| == |names| && k < |names|
    ensures WalkNames(dirs, disk, whisper, names, passed).steps[k].NotYetDownloaded? <==> passed[k]
    decreases |names|
  {
    var n := |names| - 1;
    WalkNamesLast(dirs, disk, whisper, names, passed);
    if k < n {
      WalkNamesPassesOver(dirs, disk, whisper, names[..n], passed[..n], k);
    }
  }

  /**
   * Exactly the URL entries not yet in the tracking list are passed over;
   * local paths always reach `process_video`.
   */
  lemma WalkPassesOverUndownloaded(dirs: Dirs, t: TrackingFile, disk: Disk, whisper: string -> Option<string>, entries: seq<string>, k: nat)
    requires k < |entries|
    ensures TranscribeEntries(dirs, t, disk, whisper, entries).steps[k].NotYetDownloaded?
      <==> IsUrl(entries[k]) && !IsDownloaded(t, GetFilename(entries[k]))
  {
    WalkNamesPassesOver(dirs, disk, whisper, FileNames(entries), PassedOverAll(t, entries), k);
  }

  /** The transcripts a walk writes all belong to names that reached `process_video` and succeeded. */
  lemma {:induction false} WalkNamesWritesOnlyAttempted(dirs: Dirs, disk: Disk, whisper: string -> Option<string>, names: seq<string>, passed: seq<bool>, p: string)
    requires |passed| == |names|
    requires p in WalkNames(dirs, disk, whisper, names, passed).disk.written && p !in disk.written
    ensures exists k :: (0 <= k < |names|
      && WalkNames(dirs, disk, whisper, names, passed).steps[k] == Attempted(true)
      && p == TranscriptPath(dirs, names[k]))
    decreases |names|
  {
    var n := |names| - 1;
    var prev := WalkNames(dirs, disk, whisper, names[..n], passed[..n]);
    var w := WalkNames(dirs, disk, whisper, names, passed);
    WalkNamesLast(dirs, disk, whisper, names, passed);
    if p in prev.disk.written {
      WalkNamesWritesOnlyAttempted(dirs, disk, whisper, names[..n], passed[..n], p);
      var k :| 0 <= k < n && prev.steps[k] == Attempted(true) && p == TranscriptPath(dirs, names[..n][k]);
      assert w.steps[k] == prev.steps[k];
      assert names[..n][k] == names[k];
    } else {
      assert w.steps[n] == Attempted(true) && p == TranscriptPath(dirs, names[n]);
    }
  }

  /**
   * Passing over an entry writes nothing: the transcripts written by the walk
   * all belong to entries that reached `process_video` and succeeded.
   */
  lemma WalkWritesOnlyAttempted(dirs: Dirs, t: TrackingFile, disk: Disk, whisper: string -> Option<string>, entries: seq<string>, p: string)
    requires p in TranscribeEntries(dirs, t, disk, whisper, entries).disk.written && p !in disk.written
    ensures exists k :: (0 <= k < |entries|
      && TranscribeEntries(dirs, t, disk, whisper, entries).steps[k] == Attempted(true)
      && !PassedOver(t, entries[k])
      && p == TranscriptPath(dirs, GetFilename(entries[k])))
  {
    var names := FileNames(entries);
    var passed := PassedOverAll(t, entries);
    WalkNamesWritesOnlyAttempted(dirs, disk, whisper, names, passed, p);
    var w := WalkNames(dirs, disk, whisper, names, passed);
    assert w == TranscribeEntries(dirs, t, disk, whisper, entries);
    var k :| 0 <= k < |names| && w.steps[k] == Attempted(true) && p == TranscriptPath(dirs, names[k]);
    WalkNamesPassesOver(dirs, disk, whisper, names, passed, k);
    assert !passed[k] && passed[k] == PassedOver(t, entries[k]);
    assert names[k] == GetFilename(entries[k]);
  }
}
