/**
 * The job registry `download_progress` (app.py:15) and the routes and
 * background steps that read and write it: starting a download
 * (app.py:44-53), the progress hook (app.py:55-63), the end of the
 * background task (app.py:82-88), the progress report (app.py:93-101) and
 * the file delivery with its clean-up (app.py:103-126).  Each background
 * step is a method call; threads and their interleavings are not modelled.
 */
module Registry {
  import opened Wrappers
  import opened Text
  import opened Runner
  import opened Delivery

  type DownloadId = string

  /**
   * A registry value: the integer percentage of a running job, the dict
   * `{'filename': ...}` of a finished one, or `{'error': ...}` of a failed one.
   */
  datatype Entry = Percent(percent: int) | Filename(name: string) | Error(message: string)

  /** The form fields of a `/download` request. */
  datatype DownloadForm = DownloadForm(videoId: Option<string>, quality: Option<string>)

  datatype StartResponse =
    | NoSongSelected                                          // {'error': 'No song selected'}, 400
    | Started(downloadId: DownloadId, fetch: FetchRequest)    // {'download_id': ...}; the background download is launched with `fetch`
  {
    function Code(): int {
      if NoSongSelected? then 400 else 200
    }
  }

  /** The JSON payload of `/progress/<id>`. */
  datatype Status =
    | Progress(percent: int)                  // {'progress': p}
    | Done(percent: int, filename: string)    // {'progress': 100, 'filename': f}
    | Failed(error: string)                   // {'error': m}, 500
  {
    function Code(): int {
      if Failed? then 500 else 200
    }
  }

  /** The outcome of `/download_file/<id>`. */
  datatype DeliverResponse =
    | NotReady          // {'error': 'File not ready or does not exist'}, 400
    | InternalError     // the `in` test raises TypeError on an integer entry, 500
    | FileMissing       // {'error': 'File not found'}, 404
    | Streamed(attachmentName: string, chunks: seq<seq<Byte>>)
  {
    function Code(): int {
      match this
      case NotReady => 400
      case InternalError => 500
      case FileMissing => 404
      case Streamed(_, _) => 200
    }
  }

  class DownloadRegistry {
    /** `download_progress`. */
    var progress: map<DownloadId, Entry>
    /** Every id a `Start` has handed out; ids are never handed out twice. */
    ghost var issued: set<DownloadId>

    ghost predicate Valid()
      reads this
    {
      progress.Keys <= issued
    }

    constructor ()
      ensures Valid() && progress == map[] && issued == {}
    {
      progress := map[];
      issued := {};
    }

    /**
     * `download`: rejects a request without a song, otherwise registers the
     * fresh id at 0 and returns it with the request the background task
     * makes.  `freshId` stands for `uuid4()`: it was never handed out before.
     */
    method Start(form: DownloadForm, freshId: DownloadId) returns (resp: StartResponse)
      requires Valid() && freshId !in issued
      modifies this
      ensures Valid()
      ensures resp.NoSongSelected? <==> form.videoId.None? || form.videoId.value == ""
      ensures resp.NoSongSelected? ==> progress == old(progress) && issued == old(issued)
      ensures resp.Started? ==>
        && resp.downloadId == freshId && freshId !in old(progress)
        && progress == old(progress)[freshId := Percent(0)]
        && issued == old(issued) + {freshId}
        && resp.fetch == FetchRequest(WatchUrl(form.videoId.value), Quality(form.quality))
    {
      if form.videoId.None? || form.videoId.value == "" {
        return NoSongSelected;
      }
      progress := progress[freshId := Percent(0)];
      issued := issued + {freshId};
      resp := Started(freshId, FetchRequest(WatchUrl(form.videoId.value), Quality(form.quality)));
    }

    /**
     * `progress_hook` of the job `id`: writes the percentage `HookUpdate`
     * computes for the event into the job's own entry, or nothing.
     */
    method Hook(id: DownloadId, e: HookEvent)
      requires Valid() && id in issued
      modifies this
      ensures Valid() && issued == old(issued)
      ensures HookUpdate(e).Some? ==> progress == old(progress)[id := Percent(HookUpdate(e).value)]
      ensures HookUpdate(e).None? ==> progress == old(progress)
    {
      var update := HookUpdate(e);
      if update.Some? {
        progress := progress[id := Percent(update.value)];
      }
    }

    /**
     * The end of `download_thread` for the job `id`: the normalised file
     * name on success, the exception's message on failure.
     */
    method Finish(id: DownloadId, outcome: Outcome)
      requires Valid() && id in issued
      modifies this
      ensures Valid() && issued == old(issued)
      ensures outcome.Fetched? ==> progress == old(progress)[id := Filename(NormalizeExtension(outcome.preparedName))]
      ensures outcome.FetchFailed? ==> progress == old(progress)[id := Error(outcome.message)]
    {
      match outcome
      case Fetched(name) =>
        progress := progress[id := Filename(NormalizeExtension(name))];
      case FetchFailed(message) =>
        progress := progress[id := Error(message)];
    }

    /** `progress`: the status of a job; an id the registry does not hold reads as 0 per cent. */
    function Report(id: DownloadId): (r: Status)
      reads this
      ensures r.Failed? <==> id in progress && progress[id].Error?
      ensures r.Done? <==> id in progress && progress[id].Filename?
      ensures r.Failed? ==> r.error == progress[id].message
      ensures r.Done? ==> r.percent == 100 && r.filename == progress[id].name
      ensures r.Progress? ==> r.percent == (if id in progress then progress[id].percent else 0)
      ensures r.Code() == 500 <==> r.Failed?
    {
      if id !in progress then Progress(0)
      else
        match progress[id]
        case Error(m) => Failed(m)
        case Filename(f) => Done(100, f)
        case Percent(p) => Progress(p)
    }

    /**
     * `download_file` with its generator run to the end: checks the entry
     * and the file, streams the file in chunks, then removes the file and,
     * only if that worked, the entry.  `removeFails` says whether
     * `os.remove` raises.
     */
    method Deliver(id: DownloadId, disk: Disk, removeFails: bool) returns (resp: DeliverResponse)
      requires Valid()
      modifies this, disk
      ensures Valid() && issued == old(issued)
      ensures id !in old(progress) || old(progress)[id].Error? ==>
        resp == NotReady && progress == old(progress) && disk.files == old(disk.files)
      ensures id in old(progress) && old(progress)[id].Percent? ==>
        resp == InternalError && progress == old(progress) && disk.files == old(disk.files)
      ensures id in old(progress) && old(progress)[id].Filename? && old(progress)[id].name !in old(disk.files) ==>
        resp == FileMissing && progress == old(progress) && disk.files == old(disk.files)
      ensures id in old(progress) && old(progress)[id].Filename? && old(progress)[id].name in old(disk.files) ==>
        var f := old(progress)[id].name;
        && resp == Streamed(Basename(f), Chunks(old(disk.files)[f]))
        && (removeFails ==> progress == old(progress) && disk.files == old(disk.files))
        && (!removeFails ==> progress == old(progress) - {id} && disk.files == old(disk.files) - {f})
    {
      if id !in progress || progress[id].Error? {
        return NotReady;
      }
      if progress[id].Percent? {
        return InternalError;
      }
      var f := progress[id].name;
      if !disk.Exists(f) {
        return FileMissing;
      }
      var chunks := StreamFile(disk.files[f]);
      resp := Streamed(Basename(f), chunks);
      var removed := disk.Remove(f, removeFails);
      if removed {
        progress := progress - {id};
      }
    }
  }

  /**
   * One download from request to delivery: the job reads 0 per cent once
   * started, fails to deliver while pending, reports the hook's percentage,
   * becomes ready with the normalised name, streams the file exactly, and
   * is then gone (reading 0 per cent again and no longer deliverable).
   */
  method Lifecycle(videoId: string, quality: Option<string>, id: DownloadId, preparedName: string, audio: seq<Byte>)
    returns (started: StartResponse, pending: Status, early: DeliverResponse, midway: Status,
             ready: Status, delivered: DeliverResponse, after: Status, again: DeliverResponse)
    requires videoId != ""
    ensures started == Started(id, FetchRequest(WatchUrl(videoId), Quality(quality)))
    ensures pending == Progress(0) && early == InternalError
    ensures midway == Progress(42)
    ensures ready == Done(100, NormalizeExtension(preparedName))
    ensures delivered == Streamed(Basename(NormalizeExtension(preparedName)), Chunks(audio))
    ensures Flatten(delivered.chunks) == audio
    ensures after == Progress(0) && again == NotReady && again.Code() == 400
  {
    var registry := new DownloadRegistry();
    var file := NormalizeExtension(preparedName);
    var disk := new Disk(map[file := audio]);
    started := registry.Start(DownloadForm(Some(videoId), quality), id);
    pending := registry.Report(id);
    early := registry.Deliver(id, disk, false);
    HookReadsFormattedPercent(42, 5, 1);
    registry.Hook(id, HookEvent("downloading", Some(FormatPercent(42, 5, 1))));
    midway := registry.Report(id);
    registry.Hook(id, HookEvent("finished", None));
    registry.Finish(id, Fetched(preparedName));
    ready := registry.Report(id);
    delivered := registry.Deliver(id, disk, false);
    ChunksFlatten(audio);
    after := registry.Report(id);
    again := registry.Deliver(id, disk, false);
  }

  /**
   * When `os.remove` fails after streaming, the entry is not popped: the
   * job still reports ready and can be delivered again.
   */
  method FailedCleanupKeepsJob(id: DownloadId, file: string, audio: seq<Byte>)
    returns (first: DeliverResponse, status: Status, second: DeliverResponse)
    requires !Contains(file, ".webm") && !Contains(file, ".m4a")
    ensures first == second == Streamed(Basename(file), Chunks(audio))
    ensures status == Done(100, file)
  {
    var registry := new DownloadRegistry();
    var disk := new Disk(map[file := audio]);
    var _ := registry.Start(DownloadForm(Some("v"), None), id);
    NormalizeKeepsOtherNames(file);
    registry.Finish(id, Fetched(file));
    first := registry.Deliver(id, disk, true);
    status := registry.Report(id);
    second := registry.Deliver(id, disk, true);
  }

  /** Two jobs evolve independently: one failing leaves the other's outcome intact. */
  method IndependentJobs(a: DownloadId, b: DownloadId, message: string, preparedName: string)
    returns (statusA: Status, statusB: Status)
    requires a != b
    ensures statusA == Failed(message) && statusA.Code() == 500
    ensures statusB == Done(100, NormalizeExtension(preparedName))
  {
    var registry := new DownloadRegistry();
    var _ := registry.Start(DownloadForm(Some("first"), None), a);
    var _ := registry.Start(DownloadForm(Some("second"), Some("")), b);
    registry.Hook(a, HookEvent("finished", None));
    registry.Finish(b, Fetched(preparedName));
    registry.Finish(a, FetchFailed(message));
    statusA := registry.Report(a);
    statusB := registry.Report(b);
  }
}
