# fireflies_transcription: download tracking, catalogue, size check and transcription, in Dafny

This project models the bookkeeping core of the `fireflies_transcription` scripts:

- **`process_videos.py`**
  - Reads the download list, keeps the URL lines and applies an optional limit.
  - Streams each body into `DOWNLOAD_DIR/<file name>`.
  - Records each completed download in the tracking list `downloaded.txt`.
  - Later walks the list again to transcribe what has been downloaded.
- **`generate_file_sizes.py`** asks each URL for its `Content-Length` and folds the positive sizes into a file-name → size map.
- **`check_file_sizes.py`** sorts each tracked file into one of four cases: no expected size, missing, size mismatch, size match.
- **`transcribe_service.py`** runs one batch over the tracking list. It skips videos that are absent, skips transcripts that already exist, and tallies successes and failures.
- **`transcribe.py`** is a command-line tool. It transcribes one file, or every media file of a directory, into a `.txt` file beside the input, and returns an exit status.

The outside world enters only as parameters:

- **HTTP**
  - A `GetOutcome` is a status plus the successive `read(8192)` results, or an exception.
  - A `HeadOutcome` is a status plus an optional `Content-Length`, or an exception.
  - `fetch(n)` and `probe(n)` give the outcome for the n-th URL.
- **File system**
  - A `Store` holds the tracking list and the downloaded bytes. The list is the file `downloaded.txt` in the download directory.
  - The list is well-terminated when it is missing or its text ends in a newline. The scripts start from a missing list and append whole lines, so it stays well-terminated unless a video is saved over it. A list edited by hand to end without a newline has the next name written onto its last line (Tracking.UnterminatedMergesMark). The properties of marking below assume a well-terminated list.
  - A `Disk` holds present paths, written transcripts and unwritable paths.
  - `Env` holds the download directory, output paths that cannot be opened, and whether the list can be appended to. `Env.text` gives the text read back from bytes saved over the list.
  - `DirView` holds what a directory listing yields.
- **Whisper** is a function from a path to the transcript text, or `None` for an exception.

Python's own string and path primitives are modelled exactly where the scripts depend on them:

- `str.strip()`, with the full `str.isspace()` set;
- line iteration over a text file, with universal newlines;
- `str.split('/')[-1]` and `os.path.basename`;
- `os.path.join` and `os.path.splitext`;
- `PurePath.suffix` and `PurePath.with_suffix`, as CPython 3.13 and earlier define them;
- `int()` on a header value. This includes the whitespace it skips, which is the `str.isspace()` set without the information separators U+001C to U+001F. It also includes the default limit of 4300 digits on a decimal numeral.

Modules follow the scripts:

| module | file | covers |
|---|---|---|
| `Text`, `LineReader`, `Paths` | `text.dfy`, `lines.dfy`, `paths.dfy` | the Python string and path primitives |
| `Tracking` | `tracking.dfy` | `downloaded.txt` |
| `Catalogue` | `catalogue.dfy` | the download list and file names |
| `Download` | `download.dfy` | the download half of `process_videos.py` |
| `Sizes` | `sizes.dfy` | `generate_file_sizes.py` |
| `SizeCheck` | `check.dfy` | `check_file_sizes.py` |
| `Transcription` | `transcription.dfy` | `process_video`, the service batch and `transcribe_videos` |
| `TranscribeCli` | `cli.dfy` | `src/transcribe.py` |

How the scripts behave where a reader might expect more:

- A failed request is not retried: there is no back-off, speed floor or connectivity probe.
- Chunks come from `read(8192)`.
- `download_video` marks a file as downloaded without comparing its size. Sizes are compared only in `check_file_sizes.py`.
- `process_videos.py` keeps `downloaded.txt` in `DOWNLOAD_DIR`, the directory the downloads are saved in. The other scripts keep it in `TRACKING_DIR`.
- A video named `downloaded.txt` is therefore saved over the tracking list of `process_videos.py`.

## Model

| member | source | states |
|---|---|---|
| Text.Strip | src/process_videos.py:38 | The stripped line has no leading or trailing `isspace()` character and is no longer than the line. |
| Text.StripIsInfix | src/process_videos.py:38 | The stripped line is a contiguous piece of the line with only whitespace before and after it. |
| Text.StripUnique | src/process_videos.py:38 | Whitespace, then text without surrounding whitespace, then whitespace, strips to exactly that text. |
| Text.StripIdempotent | src/process_videos.py:38 | Stripping twice is stripping once. |
| Text.Split | src/generate_file_sizes.py:39 | `split('/')` gives at least one piece, and no piece contains `/`. |
| Text.SplitThenJoin | src/generate_file_sizes.py:39 | Joining the pieces of a split with `/` gives back the string. |
| Text.JoinThenSplit | src/generate_file_sizes.py:39 | Splitting a `/`-join of `/`-free pieces gives back exactly those pieces. |
| Text.LastPiece | src/generate_file_sizes.py:39 | `split('/')[-1]` is the final segment: a suffix with no `/`, preceded by `/` or by nothing. |
| Text.Basename | src/process_videos.py:31 | `os.path.basename` is the final segment of the path. |
| Text.LastPieceIsBasename | src/process_videos.py:29-31 | The URL branch and the path branch of `get_filename` always agree. |
| Text.FinalSegmentUnique | src/process_videos.py:27-31 | A string has exactly one final segment. |
| Text.AsciiLower | src/transcribe.py:46 | Lower-casing keeps the length and maps each of `A`-`Z` to the letter at the same place in `a`-`z`, leaving every other character alone. |
| LineReader.LinesNoBreaks | src/process_videos.py:37-38 | No line produced by iterating a file contains a line break once its terminator is dropped. |
| LineReader.LinesOfUnlines | src/process_videos.py:37-43 | Break-free lines written one per line read back as the same lines. |
| LineReader.LinesAppend | src/process_videos.py:40-43 | Appending to text that ends at a line boundary leaves its lines unchanged and adds the lines of the appended text after them. |
| LineReader.OneLine | src/process_videos.py:43 | A break-free name followed by `\n` reads back as exactly that one line. |
| LineReader.StripAll | src/process_videos.py:38 | `[line.strip() for line in f]` has one entry per line, each the strip of its line. |
| LineReader.StripNonBlank | src/process_videos.py:104 | The non-blank stripped lines are non-empty, stripped, and no more than the lines. |
| LineReader.StripNonBlankMembers | src/process_videos.py:104 | A text is kept exactly when it is non-empty and is the strip of some line. |
| LineReader.StripNonBlankAppend | src/process_videos.py:104 | The filter keeps file order: it distributes over concatenation. |
| LineReader.StripNonBlankKeepsClean | src/process_videos.py:104 | Lines that are already non-empty and stripped pass through unchanged. |
| LineReader.NonBlankLines | src/process_videos.py:103-104 | Every entry read from a list file is non-empty, stripped and break-free. |
| LineReader.NonBlankLinesOfUnlines | src/process_videos.py:103-104 | A list written one clean entry per line reads back as exactly those entries. |
| Paths.Join | src/process_videos.py:47 | `os.path.join(a, b)` is `b` when `b` is absolute; otherwise it starts with `a` and ends with `b`. |
| Paths.JoinSeparator | src/process_videos.py:47 | `join` inserts a `/` exactly when the first component is non-empty and does not already end in one. |
| Paths.JoinFinalSegment | src/process_videos.py:47 | The file name of a joined path is the file name of its second component. |
| Paths.SplitExt | src/transcribe_service.py:36 | `splitext` cuts the path into root and extension. The extension is empty, or a dot followed by neither `/` nor `.`, and the final component has a non-dot before it. |
| Paths.SplitExtOfName | src/transcribe_service.py:36 | `a.e`, with `a` not all dots and `e` free of dots and slashes, splits as `(a, .e)`. |
| Paths.SplitExtHidden | src/transcribe_service.py:36 | A name made only of leading dots, then `.e`, has no extension, so `.bashrc` keeps its whole name. |
| Paths.Suffix | src/transcribe.py:46 | `PurePath.suffix` is a proper tail of the name: empty, or a dot, at least one more character, and no further dot. |
| Paths.PathStem | src/transcribe.py:37 | The stem followed by the suffix is the name, and a non-empty name has a non-empty stem. |
| Paths.WithSuffix | src/transcribe.py:37 | `with_suffix(x)` succeeds exactly for a valid suffix on a non-empty name, and gives the stem followed by `x`. |
| Paths.WithSuffixRoundTrip | src/transcribe.py:37 | After `with_suffix(x)`, the name's suffix is `x` and its stem is the old stem. |
| Paths.SuffixAfter | src/transcribe.py:46 | A non-empty stem followed by a single-dot suffix has exactly that suffix and stem. |
| Tracking.Entries | src/process_videos.py:37-38 | The list reads as one stripped entry per line. A missing file reads as no entries. |
| Tracking.IsDownloaded | src/process_videos.py:33-38 | `is_downloaded(name)` holds exactly when the list exists and `name` equals one of its stripped lines. |
| Tracking.MarkAsDownloaded | src/process_videos.py:40-43 | An append creates the file if needed, keeps the old text as a prefix and ends at a line boundary. On a well-terminated list, a break-free name adds exactly one line. |
| Tracking.MarkKeepsEntries | src/process_videos.py:40-43 | On a well-terminated list, earlier entries keep reading the same and only the appended text's lines are added. |
| Tracking.MarkEntries | src/process_videos.py:33-43 | On a well-terminated list, marking a name without line breaks adds exactly one entry at the end, the stripped name. A clean name adds itself. |
| Tracking.MarkThenIsDownloaded | src/process_videos.py:33-43 | On a well-terminated list, after marking a name without line breaks, `is_downloaded` holds for exactly the names it held for before, plus the stripped name. For a clean name that is the name itself. |
| Tracking.EntriesTrimmed | src/process_videos.py:38 | Every entry read from the list is stripped. |
| Tracking.UntrimmedNeverRecognised | src/process_videos.py:33-43 | A name with surrounding whitespace is never recognised, even right after it was marked. |
| Tracking.MarkKeepsNoDuplicates | src/process_videos.py:40-43 | On a well-terminated list, marking a clean name that is not yet listed keeps the list free of duplicates. |
| Tracking.UnterminatedMergesMark | src/process_videos.py:38-43 | On the list `b` without a final newline, marking `c` leaves the single entry `bc`, so `b` is no longer recognised. |
| Catalogue.IsUrl | src/process_videos.py:23-25 | `is_url(path)` holds exactly when the path starts with `http://` or `https://`. |
| Catalogue.IsUrlSchemes | src/process_videos.py:23-25 | `http://` and `https://` prefixes are URLs. `HTTP://`, `ftp://` and `/` prefixes are not: the test is case-sensitive. |
| Catalogue.GetFilename | src/process_videos.py:27-31 | `get_filename` is the final `/`-segment of its input, for URLs and for paths alike. |
| Catalogue.FileNames | src/process_videos.py:116-117 | Each URL's stored name is `get_filename` of it, which is also `url.split('/')[-1]`. |
| Catalogue.UrlsOnly | src/process_videos.py:107 | An entry survives the URL filter exactly when it is a URL of the list. |
| Catalogue.UrlsOnlyAppend | src/process_videos.py:107 | The URL filter keeps list order: it distributes over concatenation. |
| Catalogue.Head | src/process_videos.py:110-111 | `xs[:limit]` is a prefix. Its length is `min(limit, len)` for a non-negative limit, it drops `-limit` entries for a negative one, and it is everything without a limit. |
| Catalogue.DownloadCatalogue | src/process_videos.py:102-111 | The fetched URLs are a prefix of the list's URL lines in file order, and there are `min(limit, #URL lines)` of them. |
| Catalogue.CatalogueEntry | src/process_videos.py:103-107 | Every fetched entry is a URL line of the list: non-empty, stripped and break-free. |
| Catalogue.TranscriptionCandidates | src/process_videos.py:126-132 | The transcription walk applies the limit to all non-blank lines, URLs or not. |
| Catalogue.LimitBeforeOrAfterFilter | src/process_videos.py:103-132 | Given a local path then a URL, a limit of one makes the download side take the URL and the transcription side take the path. |
| Catalogue.TwoLineListing | src/process_videos.py:103-104 | A list of two clean lines reads back as those two entries. |
| Catalogue.CatalogueNameShape | src/process_videos.py:116-117 | A catalogue URL's file name has no line break and no trailing whitespace. |
| Download.StopIndex | src/process_videos.py:58-61 | Locates the first read that ends the copy loop (empty or failing). Every read before it carries bytes. |
| Download.DrainWritesUntilStop | src/process_videos.py:57-62 | The file receives the concatenation, in order, of the reads before the first stopping read. The copy completes exactly when that read is the empty one. |
| Download.CopyBody | src/process_videos.py:57-62 | The loop form of the copy writes the same bytes and completes under the same condition. |
| Download.DownloadVideo | src/process_videos.py:21-71 | A request is issued exactly when the name is not yet listed. A listed name returns True with nothing changed. A requested download returns True exactly when the status is 200, the output opens, the read completes and the list can be appended to. Without a 200 response and an openable output nothing changes. When the output path is not `downloaded.txt`, the list changes only by appending the name, and only when the body was saved and True is returned. When it is not `downloaded.txt` and the output opens after a 200 response, the file holds every chunk read before the first stop, even when the read breaks off or the append fails. When it is `downloaded.txt`, the body replaces the list, the name is appended on success, and no other file changes. |
| Download.SharedListLosesMarks | src/process_videos.py:21-64 | Saving a video named `downloaded.txt` whose body reads back as empty text leaves only that name recognised. Every earlier mark is lost. |
| Download.SharedListTruncated | src/process_videos.py:55-71 | A read of `downloaded.txt` that breaks off returns False, and the list is left holding the partial body. |
| Download.MarkAsDownloadedChanges | src/process_videos.py:40-43 | An append always changes the list. |
| Download.DownloadAllKeepsEntries | src/process_videos.py:114-118 | When no name's output path is the list, a run keeps a well-terminated list well-terminated and only appends to it. |
| Download.DownloadAllKeepsMarks | src/process_videos.py:114-118 | On a well-terminated list, when no name's output path is the list, a name recognised before a run is recognised after it. |
| Download.DownloadAllSkipsMarked | src/process_videos.py:114-118 | On a well-terminated list, when no name's output path is the list, no request is issued for a name the list held when the run began. |
| Download.DownloadAll | src/process_videos.py:114-118 | The loop of `download_videos`: one `download_video` per file name, in order, each on the store the earlier ones left. It records the positions at which a request was issued. |
| Download.DownloadVideos | src/process_videos.py:97-118 | `download_videos(limit)` runs that loop over the file names of the limited URL lines of the download list. |
| Download.DownloadAllIdempotent | src/process_videos.py:114-118 | When every name is already listed, a run issues no request and changes nothing. |
| Download.StepMarksOnlySaved | src/process_videos.py:38-65 | On a well-terminated list, when the name has no line break and its output path is not the list, a name newly recognised after one attempt is the attempt's name stripped, and the attempt's own file is saved. For a clean name, the recognised name is the name itself and its file is saved. |
| Download.StepAppends | src/process_videos.py:49-65 | On a well-terminated list, a completed download of an unlisted, break-free name whose output path is not the list is requested and returns True. It appends the stripped name to the list, which stays well-terminated. |
| Download.LeadingSpaceMarksUnsaved | src/process_videos.py:38-65 | A download of `" " + g` saves under `" " + g` but makes `g` recognised, although no file for `g` exists. |
| Download.UntrimmedRunTwice | src/process_videos.py:114-118 | A run listing a name with surrounding whitespace twice requests it both times and appends its stripped form twice. |
| Download.LeadingSpaceDuplicates | src/process_videos.py:114-118 | A run over `[" " + g, " " + g]` requests both and leaves `g` listed twice, so the list has a duplicate. |
| Download.StepKeepsNoDuplicates | src/process_videos.py:49-65 | On a well-terminated list, when the name's output path is not the list, one attempt with a clean name keeps the list free of duplicates. |
| Download.DownloadAllMarksStripped | src/process_videos.py:114-118 | On a well-terminated list, when no name has a line break and no name's output path is the list, every name a run adds is the stripped form of a name of the run whose file is in the download directory. |
| Download.DownloadAllMarksOnlySaved | src/process_videos.py:114-118 | On a well-terminated list, when no name has a line break and no name's output path is the list, every name a run adds is the stripped form of a name of the run whose file is saved. With clean names, the added name's own file is saved. |
| Download.DownloadAllKeepsNoDuplicates | src/process_videos.py:114-118 | On a well-terminated list, when no name's output path is the list, a sequential run with clean names never appends a duplicate entry. |
| Sizes.ParseInt | src/generate_file_sizes.py:27 | `int()` succeeds only on text that is non-empty once stripped and holds no information separator. |
| Sizes.ParseSeparatorRejected | src/generate_file_sizes.py:27 | `int("\x1c5")` fails although `strip()` removes the U+001C. |
| Sizes.ParseDecimal | src/generate_file_sizes.py:27 | `int(str(n)) == n` for every natural `n` of at most 4300 digits. A longer numeral is refused. |
| Sizes.ParsePadded | src/generate_file_sizes.py:27 | Whitespace that `int()` skips around a decimal header value is ignored. The value is read when it has at most 4300 digits and refused otherwise. |
| Sizes.ParseSigned | src/generate_file_sizes.py:27 | A sign followed by at most 4300 digits parses to the signed value, and more digits are refused. The sign is not counted. |
| Sizes.GetFileSize | src/generate_file_sizes.py:22-35 | A size is given only for status 200 with a `Content-Length` header. It is always positive and is the header's `int()` value. With status 200, a header that `int()` parses to a positive value gives exactly that value. A header that `int()` rejects, or reads as zero or negative (`00`, `+0`, `-5`), gives None. |
| Sizes.GetFileSizeOfDecimal | src/generate_file_sizes.py:25-30 | A 200 response with header `n` gives `n` when `n > 0` and `n` has at most 4300 digits. It gives nothing for `0`, for a longer numeral or for a missing header. |
| Sizes.GetFileSizeOfNegative | src/generate_file_sizes.py:27-29 | A negative header parses but gives no size. |
| Sizes.CollectSizes | src/generate_file_sizes.py:57-64 | The map has no more keys than there are URLs, and every value is positive. |
| Sizes.CollectSizesKeys | src/generate_file_sizes.py:53-64 | A name is a key exactly when some URL with that file name got a size. |
| Sizes.CollectSizesLastWins | src/generate_file_sizes.py:58-61 | The stored size is the last success for that name. A later failure does not erase it. |
| Sizes.SizeOf | src/generate_file_sizes.py:59-60 | Every size obtained from a probe is positive. |
| Sizes.GenerateFileSizes | src/generate_file_sizes.py:41-70 | The saved map has at most one entry per listed URL, and only positive sizes. |
| SizeCheck.ExpectedSizes | src/check_file_sizes.py:21-35 | The decoded table, or an empty table when the file is missing or cannot be read or decoded. |
| SizeCheck.DownloadedFiles | src/check_file_sizes.py:37-48 | Non-empty, stripped, break-free names, or none when the list is missing or unreadable. |
| SizeCheck.CheckFile | src/check_file_sizes.py:66-87 | Exactly one of four verdicts per name. "No expected size" comes before any disk check. "Not found" is never compared. A mismatch has a non-zero `actual - expected`. A match means the sizes are equal. |
| SizeCheck.CheckAll | src/check_file_sizes.py:66-87 | One verdict per listed name, in list order. |
| SizeCheck.CheckFileSizes | src/check_file_sizes.py:50-87 | Nothing is classified when the size table or the list is empty. Otherwise there is a verdict for every listed file. |
| SizeCheck.CheckDir | src/check_file_sizes.py:95-100 | A non-empty `--download-dir` replaces the default directory. |
| SizeCheck.DiskSizes | src/check_file_sizes.py:78 | `getsize` reports each saved file's length. |
| SizeCheck.CheckSavedFile | src/check_file_sizes.py:71-87 | A file saved at its expected length is a match. One cut short is a mismatch with a negative difference. |
| Transcription.TranscriptPath | src/transcribe_service.py:36 | The transcript of `filename` is `TRANSCRIPT_DIR` joined with the name's `splitext` root plus `.txt`. |
| Transcription.TranscriptPathOfName | src/transcribe_service.py:36 | `stem.ext` gets the transcript `TRANSCRIPT_DIR/stem.txt`. |
| Transcription.TranscribeAudio | src/transcribe.py:19-21 | A missing file fails before Whisper runs. A present file gets Whisper's result. |
| Transcription.ProcessVideo | src/transcribe_service.py:33-58 | Returns True exactly when the transcript exists afterwards. The disk is unchanged, or a transcript that was absent and writable is saved with Whisper's text. |
| Transcription.ProcessVideoIdempotent | src/transcribe_service.py:38-41 | Right after a success, the same call skips and changes nothing. |
| Transcription.ProcessVideoFails | src/transcribe_service.py:43-58 | Failure happens exactly when no transcript exists and the video is missing, Whisper raises, or the transcript cannot be opened. A failure changes nothing. |
| Transcription.ServiceDownloadedFiles | src/transcribe_service.py:26-31 | Non-empty, stripped, break-free names, or none without a list. |
| Transcription.ServiceSeesDownloaded | src/transcribe_service.py:26-31 | Read from the same list text, every non-empty name `is_downloaded` recognises is in the service's list. |
| Transcription.ProcessAll | src/transcribe_service.py:78-87 | One outcome per listed name. Existing files stay present and the unwritable set is unchanged. |
| Transcription.ServiceIteration | src/transcribe_service.py:65-89 | The iteration is idle exactly when the list is empty. Otherwise skipped + successful + failed equals the number of listed names. |
| Transcription.CountPartition | src/transcribe_service.py:79-87 | Every outcome is counted exactly once, as skipped, successful or failed. |
| Transcription.ProcessAllLast | src/transcribe_service.py:78-87 | A name is skipped exactly when its video is absent. Success leaves a transcript. An existing transcript means nothing is written and no failure. |
| Transcription.SkippedOnlyIfAbsent | src/transcribe_service.py:79-82 | A skipped name's video was absent when the batch began. |
| Transcription.SucceededHasTranscript | src/transcribe_service.py:84-85 | Every successful name has its transcript on disk at the end of the batch. |
| Transcription.ProcessAllDone | src/transcribe_service.py:78-87 | When every transcript already exists, a batch writes nothing and counts no failure. |
| Transcription.WalkNamesLast | src/process_videos.py:135-140 | Each walk step acts on the disk the earlier steps left. Only a success changes it, by saving that name's transcript. |
| Transcription.WalkNamesPassesOver | src/process_videos.py:135-140 | Exactly the entries marked as passed over are passed over. |
| Transcription.WalkPassesOverUndownloaded | src/process_videos.py:135-140 | Exactly the URL entries not yet listed are passed over. Local paths always reach `process_video`. |
| Transcription.WalkNamesWritesOnlyAttempted | src/process_videos.py:135-140 | Every transcript the walk writes belongs to a name that reached `process_video` and succeeded. |
| Transcription.WalkWritesOnlyAttempted | src/process_videos.py:120-140 | Passing over an entry writes nothing. Every new transcript belongs to an entry that was not passed over and succeeded. |
| Transcription.TranscribeVideos | src/process_videos.py:120-140 | `transcribe_videos(limit)` walks the limited non-blank lines of the download list. It makes one step per entry. |
| TranscribeCli.Parent | src/transcribe.py:37 | The directory part followed by the file name is the path, and it ends in `/` unless empty. |
| TranscribeCli.BasenameUnder | src/transcribe.py:37 | A `/`-free name under a directory part has that name and that directory. |
| TranscribeCli.PathWithSuffix | src/transcribe.py:37 | `path.with_suffix(x)` succeeds exactly for a valid suffix and a non-empty file name. |
| TranscribeCli.PathWithSuffixShape | src/transcribe.py:37 | The renamed path keeps the directory and the stem, and carries suffix `x`. |
| TranscribeCli.TextOutput | src/transcribe.py:37 | The output path exists exactly when the input has a non-empty file name. |
| TranscribeCli.TextOutputShape | src/transcribe.py:37 | The output sits beside the input, with the input's stem and suffix `.txt`. |
| TranscribeCli.MediaFiles | src/transcribe.py:43-46 | An entry is kept exactly when it is a regular file whose lower-cased suffix is one of the six media suffixes. |
| TranscribeCli.MediaFilesAppend | src/transcribe.py:46 | Listing order is kept. |
| TranscribeCli.EmptyNotMediaSuffix | src/transcribe.py:45-46 | A file without a suffix is not media. |
| TranscribeCli.TxtNotMediaSuffix | src/transcribe.py:45-46 | `.txt` is not a media suffix. |
| TranscribeCli.UpperMp4MediaSuffix | src/transcribe.py:45-46 | `.MP4` is accepted: the test ignores case. |
| TranscribeCli.MediaByExtension | src/transcribe.py:43-46 | Any regular file named stem plus a media suffix is a media file. |
| TranscribeCli.TextOutputNotMedia | src/transcribe.py:37-46 | A transcript is never taken for a media file. |
| TranscribeCli.TextOutputIsNotInput | src/transcribe.py:37-46 | Transcribing a media file never writes over the file itself. |
| TranscribeCli.ProcessFile | src/transcribe.py:33-41 | A transcript is saved exactly when Whisper succeeds, the file name is non-empty and the output is writable. It is saved at `with_suffix('.txt')` with Whisper's text. Any failure is reported and changes nothing. |
| TranscribeCli.ProcessFileKeepsInput | src/transcribe.py:33-41 | The media file stays present, with its content unchanged. |
| TranscribeCli.ProcessFiles | src/transcribe.py:77-78 | Every file gets a result, since `process_file` never raises. |
| TranscribeCli.ProcessFilesLast | src/transcribe.py:77-78 | Each file is handled against the disk the earlier files left. |
| TranscribeCli.ProcessFilesWritesOnlyOutputs | src/transcribe.py:77-78 | Every file written is the `.txt` output of a processed file that reported success. |
| TranscribeCli.EntryPaths | src/transcribe.py:77-78 | The paths of the listed entries, one per entry, in order. |
| TranscribeCli.Main | src/transcribe.py:48-84 | Status 2 exactly when neither argument is given. Status 1 exactly when a directory argument names no listable directory. Otherwise status 0. A file argument takes precedence. A directory processes its media files in order. Any non-zero status processes nothing and writes nothing. |
| TranscribeCli.MainWritesOnlyTranscripts | src/transcribe.py:48-84 | A run writes only the `.txt` outputs of files it processed successfully. |
| TranscribeCli.DirectoryModeProcessesMedia | src/transcribe.py:66-78 | In directory mode every processed path is media, and its output is a different path. |

## Left out

- HTTP sessions, timeouts and response streaming: each request is a given outcome, and a timeout is the `HeadFailure`/`RequestFailure` case.
- The chunk size 8192: each read is a given chunk of any length.
- JSON encoding and decoding: `file_sizes.json` is a given `SizesFile`, and a decoded file is a map to integers. Non-integer JSON values are not modelled.
- Whisper model loading and `model.transcribe`: a given function from path to optional text. `--model` and its choices only select the model, so they are not modelled.
- `argparse` itself, logging, `print`, and the `__main__` blocks: `process_videos.py` runs download then transcription, and each half is modelled separately.
- `os.makedirs`, the service's endless loop and `time.sleep`: one service iteration is modelled.
- Module constants and environment variables: directories are parameters.
- Partial writes: a download whose body is written but whose append to the tracking list fails is modelled. A write that fails halfway through is not. Failing to read the tracking list in `is_downloaded` is not modelled either.
- Missing or unreadable input files: several reads raise when their file is missing or unreadable, and the model takes their text as given. These are `docs/download_list.txt` (src/process_videos.py:103 and :126), the download list in src/generate_file_sizes.py:47, and `downloaded.txt` in src/transcribe_service.py:30, whose exception ends the service loop.
- `pathlib` normalisation: trailing slashes, `./` and doubled slashes in CLI paths. Paths are taken as written.
- `is_file()`/`exists()` raising in the CLI: folded into `DirView`.
- Sizes.ParseInt: Unicode digits other than ASCII `0`-`9` are not modelled. The digit limit is the default 4300. Changing it with `sys.set_int_max_str_digits` or `PYTHONINTMAXSTRDIGITS` is not modelled.
- Text.AsciiLower: only ASCII letters are lowered. This is exact for the media-suffix test. The only non-ASCII characters whose lower case is ASCII are KELVIN SIGN (to `k`, in no media suffix) and U+0130 (to `i` plus a combining dot, which makes the suffix too long to match).
- Text.Strip: `lstrip` and `rstrip` are not modelled on their own.
- Transcription.SkippedOnlyIfAbsent: states only one direction against the disk at batch start. The exact condition, against the disk the earlier passes left, is in Transcription.ProcessAllLast.
- Download.DownloadAllKeepsEntries: requires that no name's output path is `downloaded.txt`. A video of that name is saved over the list, which can drop every entry (see Download.SharedListLosesMarks).
- Download.DownloadAllKeepsMarks: requires that no name's output path is `downloaded.txt`, because saving such a video over the list can lose earlier marks (Download.SharedListLosesMarks).
- Download.DownloadAllSkipsMarked: requires that no name's output path is `downloaded.txt`. Once the list is overwritten, a name it held can be requested again.
- Download.StepMarksOnlySaved: requires that the output path is not `downloaded.txt`, since overwriting the list can bring in names from the body's text. It also requires a name without line breaks, since a name holding one appends several lines.
- Download.StepKeepsNoDuplicates: requires a clean name and an output path other than `downloaded.txt`. A name with surrounding whitespace is never recognised, so it is appended again on every attempt (Download.LeadingSpaceDuplicates). Overwriting the list can bring in duplicate lines from the body's text.
- Download.DownloadAllMarksOnlySaved: requires that no name's output path is `downloaded.txt` and that no name holds a line break, for the reasons given for Download.StepMarksOnlySaved.
- Download.DownloadAllKeepsNoDuplicates: requires clean names and no output path equal to `downloaded.txt`, for the reasons given for Download.StepKeepsNoDuplicates. Catalogue names can carry a leading space (`http://h/ a.mp4`).
- Download.DownloadVideo: the text read back from bytes saved over `downloaded.txt` is a parameter (`Env.text`). Python's locale decoding and decoding errors are not modelled.
- Concurrency: the scripts await each request before the next, so the runs are modelled as sequential folds.
