/**
 * The download side of `process_videos.py`: fetch each catalogue URL,
 * stream its body into `DOWNLOAD_DIR/<filename>`, and record the name in
 * the tracking list once the body has been read to the end.
 *
 * The network and the file system are parameters: each request's outcome
 * is a `GetOutcome`, and which output files cannot be opened is part of `Env`.
 */
module Download {
  import opened Options
  import opened Text
  import opened LineReader
  import opened Paths
  import opened Tracking
  import opened Catalogue

  newtype byte = b: int | 0 <= b < 256

  /** One `response.content.read(8192)`: some bytes (none at end of stream), or an exception. */
  datatype Chunk = Data(bytes: seq<byte>) | ReadFailure

  /** What `session.get(url)` yields: a status and the successive reads of its body, or an exception. */
  datatype GetOutcome = Response(status: int, body: seq<Chunk>) | RequestFailure

  /** A read that ends the copy loop: the empty read that signals the end, or a failing one. */
  predicate Stops(c: Chunk) {
    c.ReadFailure? || c.bytes == []
  }

  /** The position of the first read at or after `j` that ends the copy loop, or `|body|` when none does. */
  function StopFrom(body: seq<Chunk>, j: nat): (i: nat)
    requires j <= |body|
    ensures j <= i <= |body|
    ensures forall k :: j <= k < i ==> !Stops(body[k])
    ensures i < |body| ==> Stops(body[i])
    decreases |body| - j
  {
    if j == |body| || Stops(body[j]) then j else StopFrom(body, j + 1)
  }

  /** The position of the first read that ends the copy loop, or `|body|` when none does. */
  function StopIndex(body: seq<Chunk>): (i: nat)
    ensures i <= |body|
    ensures forall k :: 0 <= k < i ==> !Stops(body[k])
    ensures i < |body| ==> Stops(body[i])
  {
    StopFrom(body, 0)
  }

  /** The first stopping read is pinned down by the reads before it and the read at it. */
  lemma StopAt(body: seq<Chunk>, j: nat)
    requires j <= |body|
    requires forall k :: 0 <= k < j ==> !Stops(body[k])
    requires j < |body| ==> Stops(body[j])
    ensures StopIndex(body) == j
  {
  }

  /** A first read that does not stop the loop moves the stopping read one place on. */
  lemma StopIndexTail(body: seq<Chunk>)
    requires body != [] && !Stops(body[0])
    ensures StopIndex(body) == 1 + StopIndex(body[1..])
  {
    var rest := body[1..];
    var i := StopIndex(rest);
    assert forall k :: 1 <= k < 1 + i ==> body[k] == rest[k - 1];
    if i < |rest| {
      assert body[1 + i] == rest[i];
    }
    StopAt(body, 1 + i);
  }

  /** The bytes a sequence of reads delivers, in order. */
  function Concat(cs: seq<Chunk>): seq<byte> {
    if cs == [] then []
    else
      var last := cs[|cs| - 1];
      Concat(cs[..|cs| - 1]) + (if last.Data? then last.bytes else [])
  }

  /** The outcome of the copy loop: the bytes written, and whether the end of the body was reached. */
  datatype Transfer = Transfer(written: seq<byte>, complete: bool)

  /**
   * `while True: chunk = read(); if not chunk: break; f.write(chunk)`.
   * Running out of modelled reads counts as reaching the end.
   */
  function Drain(body: seq<Chunk>): Transfer {
    if body == [] then Transfer([], true)
    else match body[0]
      case ReadFailure => Transfer([], false)
      case Data(b) =>
        if b == [] then Transfer([], true)
        else
          var rest := Drain(body[1..]);
          Transfer(b + rest.written, rest.complete)
  }

  /** The bytes of two runs of reads are the bytes of each, in order. */
  lemma {:induction false} ConcatAppend(a: seq<Chunk>, b: seq<Chunk>)
    ensures Concat(a + b) == Concat(a) + Concat(b)
    decreases |b|
  {
    if b == [] {
      assert a + b == a;
    } else {
      var init := b[..|b| - 1];
      assert (a + b)[..|a + b| - 1] == a + init;
      assert (a + b)[|a + b| - 1] == b[|b| - 1];
      ConcatAppend(a, init);
    }
  }

  lemma ConcatSingle(c: Chunk)
    ensures Concat([c]) == (if c.Data? then c.bytes else [])
  {
    assert [c][..0] == [];
  }

  /** One more read adds its bytes at the end. */
  lemma ConcatSnoc(cs: seq<Chunk>, i: nat)
    requires i < |cs|
    ensures Concat(cs[..i + 1]) == Concat(cs[..i]) + (if cs[i].Data? then cs[i].bytes else [])
  {
    assert cs[..i + 1][..i] == cs[..i];
  }

  /**
   * The copy loop writes exactly the bytes of the reads before the first
   * stopping read, and it completes exactly when that read is the empty one
   * (or the body runs out) rather than a failure.
   */
  lemma {:induction false} DrainWritesUntilStop(body: seq<Chunk>)
    ensures Drain(body).written == Concat(body[..StopIndex(body)])
    ensures Drain(body).complete <==> StopIndex(body) == |body| || body[StopIndex(body)].Data?
  {
    if body != [] && !Stops(body[0]) {
      DrainWritesUntilStop(body[1..]);
      StopIndexTail(body);
      var i := StopIndex(body);
      assert body[..i] == [body[0]] + body[1..][..i - 1];
      ConcatAppend([body[0]], body[1..][..i - 1]);
      ConcatSingle(body[0]);
    }
  }

  /**
   * The copy loop as a loop: the file receives each non-empty read in turn
   * until a read is empty or fails.
   */
  method CopyBody(body: seq<Chunk>) returns (written: seq<byte>, complete: bool)
    ensures written == Concat(body[..StopIndex(body)])
    ensures complete <==> StopIndex(body) == |body| || body[StopIndex(body)].Data?
  {
    written := [];
    var i := 0;
    while i < |body| && !Stops(body[i])
      invariant 0 <= i <= StopIndex(body)
      invariant written == Concat(body[..i])
    {
      ConcatSnoc(body, i);
      written := written + body[i].bytes;
      i := i + 1;
    }
    complete := i == |body| || body[i].Data?;
  }

  /**
   * The download directory: the tracking list `downloaded.txt`, which lives
   * in it, and the bytes saved under every other path.
   */
  datatype Store = Store(tracking: TrackingFile, media: map<string, seq<byte>>)

  /**
   * The configuration and the parts of the file system the model does not
   * track: `DOWNLOAD_DIR`, the output paths `open(path, 'wb')` refuses,
   * whether the tracking list accepts an append, and the text that reading
   * the list back yields once a download has written bytes over it.
   */
  datatype Env = Env(dir: string, unopenable: set<string>, trackingWritable: bool, text: seq<byte> -> string)

  /** The file name of the tracking list. */
  const TrackingName: string := "downloaded.txt"

  /** `DOWNLOADED_FILE`: the tracking list sits in the download directory. */
  function TrackingPath(env: Env): string {
    Join(env.dir, TrackingName)
  }

  /** Names whose output path is a directory, so `open(path, 'wb')` raises. */
  predicate NamesDirectory(filename: string) {
    filename == "" || filename == "." || filename == ".."
  }

  /** `os.path.join(DOWNLOAD_DIR, filename)`. */
  function OutputPath(env: Env, filename: string): string {
    Join(env.dir, filename)
  }

  /** The download is saved over the tracking list itself. */
  predicate SharesList(env: Env, filename: string) {
    OutputPath(env, filename) == TrackingPath(env)
  }

  predicate CanOpen(env: Env, filename: string) {
    !NamesDirectory(filename) && OutputPath(env, filename) !in env.unopenable
  }

  /** The request got a 200 response and the output file could be opened: the body is being written. */
  predicate Writes(env: Env, filename: string, get: GetOutcome) {
    get.Response? && get.status == 200 && CanOpen(env, filename)
  }

  /** The value `download_video` returns, whether it issued a request, and the store afterwards. */
  datatype Attempt = Attempt(ok: bool, requested: bool, store: Store)

  /**
   * `download_video(session, url, filename)` with `get` the outcome of its
   * request. A download whose output path is the tracking list truncates the
   * list and writes the body over it; a completed one then appends its name.
   */
  function DownloadVideo(env: Env, s: Store, filename: string, get: GetOutcome): (a: Attempt)
    ensures a.requested <==> !IsDownloaded(s.tracking, filename)
    ensures !a.requested ==> a.ok && a.store == s
    ensures a.requested ==>
      (a.ok <==> Writes(env, filename, get) && Drain(get.body).complete && env.trackingWritable)
    ensures a.requested && !Writes(env, filename, get) ==> a.store == s
    ensures !SharesList(env, filename) ==>
      a.store.tracking == s.tracking || a.store.tracking == MarkAsDownloaded(s.tracking, filename)
    ensures !SharesList(env, filename) && a.store.tracking != s.tracking ==>
      && a.ok
      && OutputPath(env, filename) in a.store.media
      && a.store.media[OutputPath(env, filename)] == Drain(get.body).written
    ensures !SharesList(env, filename) ==>
      (a.store.media == s.media
       || (get.Response? && a.store.media == s.media[OutputPath(env, filename) := Drain(get.body).written]))
    ensures !SharesList(env, filename) && a.requested ==> (a.ok <==> a.store.tracking != s.tracking)
    ensures !SharesList(env, filename) && a.requested && Writes(env, filename, get) ==>
      a.store.media == s.media[OutputPath(env, filename) := Drain(get.body).written]
    ensures SharesList(env, filename) ==> a.store.media == s.media
    ensures SharesList(env, filename) && a.requested && Writes(env, filename, get) && a.ok ==>
      a.store.tracking == MarkAsDownloaded(Some(env.text(Drain(get.body).written)), filename)
    ensures SharesList(env, filename) && a.requested && Writes(env, filename, get) && !a.ok ==>
      a.store.tracking == Some(env.text(Drain(get.body).written))
  {
    if IsDownloaded(s.tracking, filename) then Attempt(true, false, s)
    else if !Writes(env, filename, get) then Attempt(false, true, s)
    else
      var t := Drain(get.body);
      if SharesList(env, filename) then
        var listed := Some(env.text(t.written));
        if !t.complete || !env.trackingWritable then Attempt(false, true, s.(tracking := listed))
        else Attempt(true, true, s.(tracking := MarkAsDownloaded(listed, filename)))
      else
        var saved := s.(media := s.media[OutputPath(env, filename) := t.written]);
        if !t.complete || !env.trackingWritable then Attempt(false, true, saved)
        else
          MarkAsDownloadedChanges(s.tracking, filename);
          Attempt(true, true, saved.(tracking := MarkAsDownloaded(s.tracking, filename)))
  }

  /**
   * Downloading a file called `downloaded.txt` loses the earlier marks: with
   * a body that reads back as no lines, the list afterwards recognises that
   * one name and nothing else.
   */
  lemma SharedListLosesMarks(env: Env, s: Store, filename: string, get: GetOutcome, g: string)
    requires SharesList(env, filename) && CleanName(filename)
    requires !IsDownloaded(s.tracking, filename)
    requires Writes(env, filename, get) && Drain(get.body).complete && env.trackingWritable
    requires env.text(Drain(get.body).written) == ""
    ensures DownloadVideo(env, s, filename, get).ok
    ensures IsDownloaded(DownloadVideo(env, s, filename, get).store.tracking, g) <==> g == filename
  {
    var empty: TrackingFile := Some("");
    assert Lines(Content(empty)) == [];
    MarkThenIsDownloaded(empty, filename, g);
  }

  /** A failed copy over the tracking list leaves the list holding only what was read. */
  lemma SharedListTruncated(env: Env, s: Store, filename: string, get: GetOutcome)
    requires SharesList(env, filename) && !IsDownloaded(s.tracking, filename)
    requires Writes(env, filename, get) && !Drain(get.body).complete
    ensures !DownloadVideo(env, s, filename, get).ok
    ensures DownloadVideo(env, s, filename, get).store.tracking == Some(env.text(Drain(get.body).written))
  {
  }

  /** An append always changes the list. */
  lemma MarkAsDownloadedChanges(t: TrackingFile, filename: string)
    ensures MarkAsDownloaded(t, filename) != t
  {
    var r := MarkAsDownloaded(t, filename);
    if t.Some? {
      assert |r.value| > |t.value|;
    }
  }

  /** The outcome of `download_videos`: the final store and the positions requested, in order. */
  datatype Run = Run(store: Store, requests: seq<nat>)

  /**
   * The loop of `download_videos` over the file names of its URLs;
   * `fetch(n)` is the outcome of the request for the `n`-th URL, were it issued.
   */
  function DownloadAll(env: Env, s: Store, names: seq<string>, fetch: nat -> GetOutcome): Run
    decreases |names|
  {
    if names == [] then Run(s, [])
    else
      var n := |names| - 1;
      var prev := DownloadAll(env, s, names[..n], fetch);
      var a := DownloadVideo(env, prev.store, names[n], fetch(n));
      Run(a.store, if a.requested then prev.requests + [n] else prev.requests)
  }

  /** No name of the run is saved over the tracking list. */
  predicate ListApart(env: Env, names: seq<string>) {
    forall k :: 0 <= k < |names| ==> !SharesList(env, names[k])
  }

  lemma ListApartInit(env: Env, names: seq<string>)
    requires names != [] && ListApart(env, names)
    ensures ListApart(env, names[..|names| - 1]) && !SharesList(env, names[|names| - 1])
  {
    var n := |names| - 1;
    forall k | 0 <= k < n
      ensures !SharesList(env, names[..n][k])
    {
      assert names[..n][k] == names[k];
    }
  }

  /**
   * The run only appends to a well-terminated tracking list: earlier
   * entries keep reading the same, so a name once recognised stays recognised.
   */
  lemma {:induction false} DownloadAllKeepsEntries(env: Env, s: Store, names: seq<string>, fetch: nat -> GetOutcome)
    requires WellTerminated(s.tracking) && ListApart(env, names)
    ensures WellTerminated(DownloadAll(env, s, names, fetch).store.tracking)
    ensures Entries(s.tracking) <= Entries(DownloadAll(env, s, names, fetch).store.tracking)
    ensures s.tracking.Some? ==> DownloadAll(env, s, names, fetch).store.tracking.Some?
    decreases |names|
  {
    if names != [] {
      var n := |names| - 1;
      var prev := DownloadAll(env, s, names[..n], fetch);
      ListApartInit(env, names);
      DownloadAllKeepsEntries(env, s, names[..n], fetch);
      MarkKeepsEntries(prev.store.tracking, names[n]);
    }
  }

  /** A name recognised before the run is recognised after it. */
  lemma DownloadAllKeepsMarks(env: Env, s: Store, names: seq<string>, fetch: nat -> GetOutcome, g: string)
    requires WellTerminated(s.tracking) && ListApart(env, names) && IsDownloaded(s.tracking, g)
    ensures IsDownloaded(DownloadAll(env, s, names, fetch).store.tracking, g)
  {
    DownloadAllKeepsEntries(env, s, names, fetch);
  }

  /** No request is issued for a name the list already held when the run began. */
  lemma {:induction false} DownloadAllSkipsMarked(env: Env, s: Store, names: seq<string>, fetch: nat -> GetOutcome)
    requires WellTerminated(s.tracking) && ListApart(env, names)
    ensures forall n :: n in DownloadAll(env, s, names, fetch).requests ==>
      n < |names| && !IsDownloaded(s.tracking, names[n])
    decreases |names|
  {
    if names != [] {
      var n := |names| - 1;
      var prev := DownloadAll(env, s, names[..n], fetch);
      ListApartInit(env, names);
      DownloadAllSkipsMarked(env, s, names[..n], fetch);
      if IsDownloaded(s.tracking, names[n]) {
        DownloadAllKeepsMarks(env, s, names[..n], fetch, names[n]);
      }
      forall m | m in prev.requests
        ensures m < |names| && !IsDownloaded(s.tracking, names[m])
      {
        assert names[..n][m] == names[m];
      }
    }
  }

  /** When every name is already listed, a run issues no request and changes nothing. */
  lemma {:induction false} DownloadAllIdempotent(env: Env, s: Store, names: seq<string>, fetch: nat -> GetOutcome)
    requires forall k :: 0 <= k < |names| ==> IsDownloaded(s.tracking, names[k])
    ensures DownloadAll(env, s, names, fetch) == Run(s, [])
    decreases |names|
  {
    if names != [] {
      var n := |names| - 1;
      var init := names[..n];
      assert forall k :: 0 <= k < n ==> init[k] == names[k];
      DownloadAllIdempotent(env, s, init, fetch);
      var a := DownloadVideo(env, s, names[n], fetch(n));
      assert !a.requested && a.store == s;
    }
  }

  /**
   * One attempt: a name newly recognised afterwards is the attempt's name as
   * it reads back, stripped, and the attempt's own file is saved. For a clean
   * name that is the name itself, with its file.
   */
  lemma StepMarksOnlySaved(env: Env, st: Store, f: string, get: GetOutcome, g: string)
    requires WellTerminated(st.tracking) && NoBreaks(f) && !SharesList(env, f)
    requires IsDownloaded(DownloadVideo(env, st, f, get).store.tracking, g) && !IsDownloaded(st.tracking, g)
    ensures g == Strip(f) && OutputPath(env, f) in DownloadVideo(env, st, f, get).store.media
    ensures CleanName(f) ==> g == f && OutputPath(env, g) in DownloadVideo(env, st, f, get).store.media
  {
    var a := DownloadVideo(env, st, f, get);
    if a.store.tracking != st.tracking {
      MarkThenIsDownloaded(st.tracking, f, g);
    }
    if CleanName(f) {
      StripTrimmed(f);
    }
  }

  /**
   * A name with a leading space (`" a.mp4"`) is saved under that name but
   * recorded stripped (`a.mp4`), so the list now recognises a name whose
   * file was never saved.
   */
  lemma LeadingSpaceMarksUnsaved(env: Env, s: Store, g: string, get: GetOutcome)
    requires CleanName(g) && !StartsWithSlash(g)
    requires WellTerminated(s.tracking) && OutputPath(env, g) !in s.media
    requires !SharesList(env, " " + g) && Writes(env, " " + g, get)
    requires Drain(get.body).complete && env.trackingWritable
    ensures DownloadVideo(env, s, " " + g, get).ok
    ensures IsDownloaded(DownloadVideo(env, s, " " + g, get).store.tracking, g)
    ensures OutputPath(env, g) !in DownloadVideo(env, s, " " + g, get).store.media
  {
    var f := " " + g;
    var a := DownloadVideo(env, s, f, get);
    assert f == " " + g + "";
    StripUnique(" ", g, "");
    assert !Trimmed(f) && NoBreaks(f);
    UntrimmedNeverRecognised(s.tracking, f);
    assert a.requested && a.ok;
    assert a.store.tracking == MarkAsDownloaded(s.tracking, f);
    MarkThenIsDownloaded(s.tracking, f, g);
    JoinSeparator(env.dir, f);
    JoinSeparator(env.dir, g);
    assert |OutputPath(env, f)| == |OutputPath(env, g)| + 1;
  }

  /** A completed download of an unlisted name appends that name, stripped, to the list. */
  lemma StepAppends(env: Env, st: Store, f: string, get: GetOutcome)
    requires WellTerminated(st.tracking) && NoBreaks(f) && !IsDownloaded(st.tracking, f)
    requires !SharesList(env, f) && Writes(env, f, get) && Drain(get.body).complete && env.trackingWritable
    ensures DownloadVideo(env, st, f, get).requested && DownloadVideo(env, st, f, get).ok
    ensures WellTerminated(DownloadVideo(env, st, f, get).store.tracking)
    ensures Entries(DownloadVideo(env, st, f, get).store.tracking) == Entries(st.tracking) + [Strip(f)]
  {
    var a := DownloadVideo(env, st, f, get);
    assert a.store.tracking == MarkAsDownloaded(st.tracking, f);
    MarkEntries(st.tracking, f);
  }

  /** A run over one more name is the shorter run followed by one attempt at that name. */
  lemma DownloadAllSnoc(env: Env, s: Store, names: seq<string>, f: string, fetch: nat -> GetOutcome)
    ensures var prev := DownloadAll(env, s, names, fetch);
            var a := DownloadVideo(env, prev.store, f, fetch(|names|));
            DownloadAll(env, s, names + [f], fetch)
            == Run(a.store, if a.requested then prev.requests + [|names|] else prev.requests)
  {
    assert (names + [f])[..|names|] == names;
  }

  /** A list whose last two entries are equal lists a name twice. */
  lemma RepeatedLastEntry(t: TrackingFile, e: seq<string>, g: string)
    requires Entries(t) == e + [g] + [g]
    ensures !NoDuplicates(t)
  {
    var n := |Entries(t)|;
    assert Entries(t)[n - 2] == Entries(t)[n - 1];
  }

  /** A run that lists an untrimmed name twice downloads it twice and records it twice. */
  lemma UntrimmedRunTwice(env: Env, s: Store, f: string, fetch: nat -> GetOutcome)
    requires !Trimmed(f) && NoBreaks(f) && WellTerminated(s.tracking) && !SharesList(env, f)
    requires forall n :: n < 2 ==> Writes(env, f, fetch(n)) && Drain(fetch(n).body).complete
    requires env.trackingWritable
    ensures DownloadAll(env, s, [f, f], fetch).requests == [0, 1]
    ensures Entries(DownloadAll(env, s, [f, f], fetch).store.tracking) == Entries(s.tracking) + [Strip(f)] + [Strip(f)]
  {
    var a0 := DownloadVideo(env, s, f, fetch(0));
    UntrimmedNeverRecognised(s.tracking, f);
    StepAppends(env, s, f, fetch(0));
    DownloadAllSnoc(env, s, [], f, fetch);
    assert [] + [f] == [f];
    UntrimmedNeverRecognised(a0.store.tracking, f);
    StepAppends(env, a0.store, f, fetch(1));
    DownloadAllSnoc(env, s, [f], f, fetch);
    assert [f] + [f] == [f, f];
  }

  /**
   * A name with a leading space is never recognised, so a run that lists it
   * twice downloads it twice and records its stripped form twice.
   */
  lemma LeadingSpaceDuplicates(env: Env, s: Store, g: string, fetch: nat -> GetOutcome)
    requires CleanName(g) && WellTerminated(s.tracking) && !SharesList(env, " " + g)
    requires forall n :: n < 2 ==> Writes(env, " " + g, fetch(n)) && Drain(fetch(n).body).complete
    requires env.trackingWritable
    ensures DownloadAll(env, s, [" " + g, " " + g], fetch).requests == [0, 1]
    ensures Entries(DownloadAll(env, s, [" " + g, " " + g], fetch).store.tracking) == Entries(s.tracking) + [g] + [g]
    ensures !NoDuplicates(DownloadAll(env, s, [" " + g, " " + g], fetch).store.tracking)
  {
    var f := " " + g;
    assert f == " " + g + "";
    StripUnique(" ", g, "");
    assert !Trimmed(f) && NoBreaks(f);
    UntrimmedRunTwice(env, s, f, fetch);
    var t := DownloadAll(env, s, [f, f], fetch).store.tracking;
    RepeatedLastEntry(t, Entries(s.tracking), g);
  }

  /** One attempt with a clean name keeps the list free of duplicates. */
  lemma StepKeepsNoDuplicates(env: Env, st: Store, f: string, get: GetOutcome)
    requires WellTerminated(st.tracking) && CleanName(f) && NoDuplicates(st.tracking) && !SharesList(env, f)
    ensures NoDuplicates(DownloadVideo(env, st, f, get).store.tracking)
  {
    var a := DownloadVideo(env, st, f, get);
    if a.store.tracking != st.tracking {
      MarkKeepsNoDuplicates(st.tracking, f);
    }
  }

  /** Every name in `names` is clean. */
  predicate AllClean(names: seq<string>) {
    forall k :: 0 <= k < |names| ==> CleanName(names[k])
  }

  lemma AllCleanInit(names: seq<string>)
    requires names != [] && AllClean(names)
    ensures AllClean(names[..|names| - 1]) && CleanName(names[|names| - 1])
  {
    var n := |names| - 1;
    forall k | 0 <= k < n
      ensures CleanName(names[..n][k])
    {
      assert names[..n][k] == names[k];
    }
  }

  /** No name in `names` holds a line break. */
  predicate AllNoBreaks(names: seq<string>) {
    forall k :: 0 <= k < |names| ==> NoBreaks(names[k])
  }

  lemma AllNoBreaksInit(names: seq<string>)
    requires names != [] && AllNoBreaks(names)
    ensures AllNoBreaks(names[..|names| - 1]) && NoBreaks(names[|names| - 1])
  {
    var n := |names| - 1;
    forall k | 0 <= k < n
      ensures NoBreaks(names[..n][k])
    {
      assert names[..n][k] == names[k];
    }
  }

  /**
   * Every name recorded during the run is the stripped form of a name of
   * the run whose file is in the download directory: the list gains a line
   * only after that body was written out. Needs names without line breaks,
   * since one with a break would add other names.
   */
  lemma {:induction false} DownloadAllMarksStripped(env: Env, s: Store, names: seq<string>, fetch: nat -> GetOutcome, g: string)
    requires WellTerminated(s.tracking) && AllNoBreaks(names) && ListApart(env, names)
    requires IsDownloaded(DownloadAll(env, s, names, fetch).store.tracking, g) && !IsDownloaded(s.tracking, g)
    ensures exists k :: (0 <= k < |names| && Strip(names[k]) == g
                         && OutputPath(env, names[k]) in DownloadAll(env, s, names, fetch).store.media)
    decreases |names|
  {
    if names != [] {
      var n := |names| - 1;
      var f := names[n];
      var prev := DownloadAll(env, s, names[..n], fetch);
      var a := DownloadVideo(env, prev.store, f, fetch(n));
      var media := a.store.media;
      assert DownloadAll(env, s, names, fetch).store == a.store;
      ListApartInit(env, names);
      AllNoBreaksInit(names);
      if IsDownloaded(prev.store.tracking, g) {
        DownloadAllMarksStripped(env, s, names[..n], fetch, g);
        var k :| 0 <= k < n && Strip(names[..n][k]) == g && OutputPath(env, names[..n][k]) in prev.store.media;
        assert names[..n][k] == names[k];
        assert OutputPath(env, names[k]) in media;
      } else {
        DownloadAllKeepsEntries(env, s, names[..n], fetch);
        StepMarksOnlySaved(env, prev.store, f, fetch(n), g);
        assert OutputPath(env, names[n]) in media;
      }
    }
  }

  /**
   * The file for a name recorded during the run is in the download
   * directory, under a name of the run that strips to it; with clean names,
   * under the recorded name itself.
   */
  lemma DownloadAllMarksOnlySaved(env: Env, s: Store, names: seq<string>, fetch: nat -> GetOutcome, g: string)
    requires WellTerminated(s.tracking) && AllNoBreaks(names) && ListApart(env, names)
    requires IsDownloaded(DownloadAll(env, s, names, fetch).store.tracking, g) && !IsDownloaded(s.tracking, g)
    ensures exists k :: (0 <= k < |names| && Strip(names[k]) == g
                         && OutputPath(env, names[k]) in DownloadAll(env, s, names, fetch).store.media)
    ensures AllClean(names) ==> OutputPath(env, g) in DownloadAll(env, s, names, fetch).store.media
  {
    var media := DownloadAll(env, s, names, fetch).store.media;
    DownloadAllMarksStripped(env, s, names, fetch, g);
    if AllClean(names) {
      var k :| 0 <= k < |names| && Strip(names[k]) == g && OutputPath(env, names[k]) in media;
      StripTrimmed(names[k]);
    }
  }

  /** With clean names, a run keeps the list free of duplicate entries. */
  lemma {:induction false} DownloadAllKeepsNoDuplicates(env: Env, s: Store, names: seq<string>, fetch: nat -> GetOutcome)
    requires WellTerminated(s.tracking) && NoDuplicates(s.tracking) && AllClean(names) && ListApart(env, names)
    ensures NoDuplicates(DownloadAll(env, s, names, fetch).store.tracking)
    decreases |names|
  {
    if names != [] {
      var n := |names| - 1;
      var prev := DownloadAll(env, s, names[..n], fetch);
      assert DownloadAll(env, s, names, fetch).store == DownloadVideo(env, prev.store, names[n], fetch(n)).store;
      AllCleanInit(names);
      ListApartInit(env, names);
      DownloadAllKeepsNoDuplicates(env, s, names[..n], fetch);
      DownloadAllKeepsEntries(env, s, names[..n], fetch);
      StepKeepsNoDuplicates(env, prev.store, names[n], fetch(n));
    }
  }

  /** `download_videos(limit)`: the loop over the catalogue of `listing`. */
  function DownloadVideos(env: Env, s: Store, listing: string, limit: Option<int>, fetch: nat -> GetOutcome): Run {
    DownloadAll(env, s, FileNames(DownloadCatalogue(listing, limit)), fetch)
  }
}
