# youtube-music: the download registry and its routes, in Dafny

`app.py` is a small Flask application. It searches a music catalogue, downloads a song in the background, converts it to MP3, reports its progress and streams the finished file to the browser once. This project models its core. The core is the job registry `download_progress`, a dictionary from download id to the job's state, together with the code that reads and writes it:

- `download` registers a job and starts the background task;
- the progress hook and the end of the background task write percentages, the file name or the error;
- `progress` reports a job;
- `download_file` streams the finished file in 8192-byte chunks, then removes the file and the job.

Around the registry sit the pure pieces of the routes:

- the validation of the search query with Python's `str.strip`;
- the mapping of catalogue records to songs, with the artists joined by `", "`;
- the conversion of the progress string with `int(float(...))`;
- the rewriting of `.webm` and `.m4a` to `.mp3` with chained `str.replace`.

Modules, one file each:

- `wrappers.dfy`: `Option`.
- `text.dfy`: the Python string built-ins used: `strip`, `join` (checked against `split`) and `replace`. It also defines substring occurrence, which the contracts of the file-name normalisation are stated in.
- `search.dfy`: the `/search` route. The catalogue provider is a function parameter.
- `runner.dfy`: the background task. This covers the request handed to the provider, the progress hook's arithmetic and the file-name normalisation.
- `delivery.dfy`: the chunked reader as a loop over the file's bytes, `os.path.basename`, and a `Disk` class for the download folder.
- `registry.dfy`: the class `DownloadRegistry` with the field `progress: map<DownloadId, Entry>` and one method per route or background step. Three scenario methods run whole job histories against a fresh registry.

The model keeps these behaviours of the code exactly:

- An id the registry does not hold reports `{'progress': 0}`.
- `quality` falls back to `'128'` only when the field is absent. An empty string is forwarded.
- Asking for the file of a job that is still running raises `TypeError`, because `'filename' in 0` fails. This is the `InternalError` response, status 500.
- `os.remove` runs before `pop`, so a failed removal leaves the job in the registry, still deliverable.
- The percentage is stored as parsed. It is neither clamped to 0–100 nor kept non-decreasing, since the code does neither.

## Model

| member | source | states |
|---|---|---|
| Text.Strip | app.py:26 | the stripped text is no longer than the input, is empty exactly when the input is all white space, and neither starts nor ends with white space |
| Text.StripPadding | app.py:26 | stripping white space `a`, text `s` and white space `b` gives back `s` exactly, when `s` is itself unpadded |
| Text.StripIdempotent | app.py:26 | stripping twice is stripping once |
| Text.Join | app.py:35 | Python's `sep.join`; `SplitJoin` states that `split` inverts it |
| Text.SplitJoin | app.py:35 | splitting the joined parts on the separator gives back the parts, when no part contains the separator's first character |
| Text.ReplaceAll | app.py:84 | Python's `str.replace` with the leftmost non-overlapping scan, also used on the percent string at app.py:57; `ReplaceAllAbsent`, `ReplaceAllPlainPrefix` and `ReplaceAllAvoids` state its behaviour |
| Text.ReplaceAllAbsent | app.py:84 | `replace` leaves a string with no occurrence of the pattern unchanged |
| Text.ReplaceAllPlainPrefix | app.py:57 | `replace` copies a prefix free of the pattern's first character and continues after it |
| Text.ReplaceAllAvoids | app.py:84 | after replacing every occurrence of a pattern, a string `q` occurs nowhere in the result, when `q` is the pattern or absent from the input and the replacement cannot start or take part in an occurrence of `q` |
| Search.ToSongs | app.py:31-38 | one song per catalogue record, same order and count; each song keeps the id and title and joins the artist names with `", "` |
| Search.Search | app.py:26-42 | 400 `Query is required` exactly when the field is absent or all white space; otherwise the provider is asked for the stripped text; if it raises the reply is 500, and if it answers the reply is 200 carrying exactly `ToSongs` of its results |
| Search.BlankQueryNeedsNoProvider | app.py:26-28 | a blank query gets the same 400 reply whatever the provider |
| Search.Query | app.py:26 | the query is the field, `''` when absent, stripped; `QueryIgnoresPadding` states what it gives |
| Search.QueryIgnoresPadding | app.py:26 | the text searched for is the field without its surrounding white space |
| Search.SearchDependsOnQuery | app.py:26-39 | two fields with the same stripped text get the same reply |
| Search.PaddingIsIgnored | app.py:26-39 | padding a query with white space does not change the reply |
| Search.ArtistsRecoverable | app.py:35 | the artist string splits back into the artist names when there is at least one and none contains a comma |
| Search.ArtistExamples | app.py:35 | the artist string for zero, one and two artists is `""`, `"A"` and `"A, B"` |
| Runner.Quality | app.py:48 | the quality is `'128'` when the field is absent and the field verbatim, even empty, when it is present |
| Runner.WatchUrl | app.py:67 | the URL is the watch prefix followed by the video id |
| Runner.SignedPart | app.py:59 | a parsed value exists only for non-empty text and is negative only after a leading minus; its full behaviour is stated by `SignedPartComplete` and `SignedPartSound` |
| Runner.SignedPartComplete | app.py:59 | every text made of an optional sign, digits, at most one decimal point and at least one digit parses, to the integer digits' value with the sign applied |
| Runner.SignedPartSound | app.py:58-61 | any text that parses has that form and that value; every other text is the `ValueError` the hook swallows |
| Runner.UnsignedPartComplete | app.py:59 | unsigned notation parses to the value of its integer digits |
| Runner.UnsignedPartSound | app.py:59 | only unsigned notation has an unsigned value, and it is the integer digits' value |
| Runner.TruncatedNumber | app.py:59 | `int(float(s))` is the parse of the text without its white-space padding, or nothing when that padding holds an information separator (U+001C to U+001F), which `float()` does not strip; `TruncatedNumberOfPadded`, `TruncatedNumberUnpadded` and `SignedDecimalTruncates` state its value |
| Runner.TruncatedNumberOfPadded | app.py:59 | a number padded with white space parses as the number when the padding holds no information separator, and does not parse when it does |
| Runner.BlankIsNotANumber | app.py:58-61 | blank text does not parse |
| Runner.TrailingSeparatorIsNotANumber | app.py:58-61 | `5` followed by U+001C does not parse |
| Runner.TruncatedNumberUnpadded | app.py:59 | text without surrounding white space is parsed as it stands |
| Runner.HookUpdate | app.py:55-63 | a `finished` event writes 100, and a status other than `downloading` or `finished` writes nothing |
| Runner.SignedDecimalTruncates | app.py:59 | `int(float(...))` of an optionally signed decimal is the value of its integer digits with the sign applied: the fraction is truncated toward zero |
| Runner.PercentText | app.py:57 | the percent string, `'0.0%'` when absent, stripped and with every `%` removed; `PercentTextOfPadded` states what it gives for a printed percentage |
| Runner.PercentTextOfPadded | app.py:57 | stripping and removing `%` from a padded number followed by `%` leaves the number |
| Runner.HookReadsFormattedPercent | app.py:56-59 | a `downloading` event whose percent string is a padded `n.d%` writes `n` |
| Runner.MissingPercentIsZero | app.py:57-59 | a `downloading` event without a percent string writes 0 |
| Runner.NotANumber | app.py:58-61 | the text `N/A` does not parse as a number |
| Runner.UnparsablePercentIsIgnored | app.py:56-61 | a `downloading` event whose percent string is `N/A%` writes nothing |
| Runner.SeparatorInPercentIsIgnored | app.py:56-61 | a `downloading` event whose percent string is `5`, U+001C, `%` writes nothing: `str.strip()` keeps the separator and `float()` rejects it |
| Runner.NormalizeExtension | app.py:84 | the normalised name contains neither `.webm` nor `.m4a` |
| Runner.NormalizeKeepsOtherNames | app.py:84 | a name with neither extension is left unchanged |
| Runner.NormalizeIdempotent | app.py:84 | normalising twice is normalising once |
| Runner.NormalizeSwapsExtension | app.py:84 | for a stem without dots, `.webm` and `.m4a` become `.mp3`, and `.opus` is kept |
| Delivery.ReadAt | app.py:114 | one read returns exactly the requested number of bytes, or all that is left when fewer remain, taken from the current offset; it is empty exactly at the end of the file |
| Delivery.StreamFile | app.py:112-115 | the loop yields exactly the chunks `Chunks` describes; together they are the file, and each holds 1 to 8192 bytes |
| Delivery.Chunks | app.py:114-115 | the chunks the reads yield; `ChunksFlatten`, `ChunksBounded` and `ChunksAreFull` state what they are |
| Delivery.ChunksFlatten | app.py:113-115 | the chunks put back together are the file's bytes |
| Delivery.ChunksBounded | app.py:114-115 | no chunk is empty and none is longer than 8192 bytes |
| Delivery.ChunksAreFull | app.py:114-115 | there are `ceil(size / 8192)` chunks and every chunk but the last holds 8192 bytes |
| Delivery.Basename | app.py:125 | `os.path.basename`: the path after its last `/`; `BasenameIsLastComponent` states its properties |
| Delivery.BasenameIsLastComponent | app.py:125 | the attachment name contains no `/`, and a `/` precedes it whenever it is not the whole path |
| Delivery.Disk.Remove | app.py:117 | removal succeeds exactly when the file exists and the system does not refuse; the file is then gone, and otherwise nothing changes |
| Registry.DownloadRegistry.constructor | app.py:15 | the registry starts empty |
| Registry.DownloadRegistry.Start | app.py:44-53 | no video id, or an empty one, gives 400 and changes nothing; otherwise the fresh id is registered at 0, every other job is kept, and the background download is asked for the song's watch URL at the chosen quality |
| Registry.DownloadRegistry.Hook | app.py:55-63 | a hook event writes the computed percentage into its own job only, or leaves the registry as it was |
| Registry.DownloadRegistry.Finish | app.py:82-88 | the job's entry becomes the normalised file name on success or the exception's message on failure; no other job changes |
| Registry.DownloadRegistry.Report | app.py:93-101 | an error entry reports its message with status 500, a file entry reports 100 and the file name, and a percentage reports itself; an unknown id reports 0 |
| Registry.DownloadRegistry.Deliver | app.py:103-120 | an unknown or failed job gives 400 and a pending one 500, each changing nothing; a missing file gives 404; otherwise the file's chunks are streamed under its base name, and the file and then the job are removed unless removal fails, which keeps both |
| Registry.Lifecycle | app.py:44-120 | one job from start to delivery: 0 per cent, 500 while pending, the hook's percentage, ready with the normalised name, streamed exactly, then gone (0 per cent and 400) |
| Registry.FailedCleanupKeepsJob | app.py:116-120 | when removal fails after streaming, the job still reports ready and is delivered again identically |
| Registry.IndependentJobs | app.py:53-101 | two jobs evolve independently: one failing leaves the other's outcome intact |

## Left out

- Flask itself is not modelled: routing, form decoding, `jsonify`, the `Response` object and its MIME type and headers, the index page and `app.run` with `PORT`. Each response is a datatype carrying its payload and status code.
- The catalogue client (`YTMusic`) and the downloader (`YoutubeDL`) are inputs. The search provider is a function from the query to its results or an exception. The download's events and outcome are the arguments of `Hook` and `Finish`.
- Search.ToSongs: a catalogue record missing `videoId`, `title` or `artists`, or an artist without `name`, makes the route answer 500 through the `KeyError`. Records here always carry these keys.
- Runner.HookUpdate: an event without a `status` key raises `KeyError` inside the downloader. Events here always carry a status.
- Runner.HookUpdate: its own contract leaves out the `downloading` case. Lemmas state it instead. `SignedPartComplete` and `SignedPartSound` give the parse of any text. `PercentTextOfPadded`, `HookReadsFormattedPercent` and `UnparsablePercentIsIgnored` give the clean-up and the result for printed percentages.
- Runner.TruncatedNumber: `float()` is modelled for decimal notation only: surrounding white space other than the information separators U+001C to U+001F, an optional sign, digits, at most one point. Everything else reads as the `ValueError` the hook swallows, so nothing is written. Python agrees for `nan`, where `int()` raises `ValueError`. It differs in three ways:
  - exponents, digit-group underscores and non-ASCII digits parse in Python, and for a value within the range of a double a value is written;
  - `inf`, or any number beyond the double range (`1e400`, a 400-digit string), makes `int()` raise `OverflowError`, which escapes the hook and ends the job with an error entry, where the model writes nothing or the full integer;
  - digit strings within the range but longer than a double's precision are rounded by `float` before truncation, where the model keeps every digit.
- Threads are not modelled. The background task runs as separate calls to `Hook` and `Finish`, so interleavings with other requests, and a hook firing after `Finish`, are not covered.
- `uuid.uuid4()` is replaced by an id the caller supplies. The ghost set `issued` records that an id is never handed out twice.
- `os.path.exists` is membership in the `Disk` map (`Delivery.Disk.Exists`), with no contract of its own and no row.
- Logging is left out. The file-system layout is left out too: the download folder, `outtmpl` and the `ffmpeg` location. The file name the downloader prepares is an input.
- Registry.DownloadRegistry.Deliver: the generator runs to the end within the call. A client that disconnects mid-stream leaves no clean-up, and that case is not modelled. Another request changing the file between `os.path.exists` and `open` is not modelled either.
