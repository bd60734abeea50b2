/**
 * The export service: an in-memory table of export jobs, the directory the
 * PDF files are written to, and the life of one job from `pending` through
 * `processing` to `completed` or `failed`.
 *
 * The browser that renders the PDF is an oracle: a `BrowserRun` says whether
 * the run completes or which step raised and with what message.  Random job
 * ids and the clock are parameters: a uuid is a number below 2^128 and a time
 * is a whole number of seconds since the epoch.  The export directory is the
 * set of the names of the files in it.
 */
module ExportService {
  import opened Wrappers
  import opened Text
  import opened Schemas

  // ---------------------------------------------------------------------------
  // Job ids
  // ---------------------------------------------------------------------------

  function Pow16(n: nat): nat
  {
    if n == 0 then 1 else 16 * Pow16(n - 1)
  }

  const HexDigits: string := "0123456789abcdef"

  /** The value of a lowercase hexadecimal digit. */
  function DigitValue(c: char): nat
  {
    if '0' <= c <= '9' then c as nat - '0' as nat
    else if 'a' <= c <= 'f' then c as nat - 'a' as nat + 10
    else 0
  }

  /** The `width` lowest hexadecimal digits of `value`, most significant first, in lower case. */
  function Hex(value: nat, width: nat): (s: string)
    ensures |s| == width
    ensures forall k :: 0 <= k < |s| ==> s[k] in HexDigits
  {
    if width == 0 then [] else Hex(value / 16, width - 1) + [HexDigits[value % 16]]
  }

  /** The number a string of hexadecimal digits denotes. */
  function HexValue(s: string): nat
  {
    if s == [] then 0 else 16 * HexValue(s[..|s| - 1]) + DigitValue(s[|s| - 1])
  }

  /** Rendering a number that fits in `width` digits and reading it back gives the number. */
  lemma {:induction false} HexRoundTrip(value: nat, width: nat)
    requires value < Pow16(width)
    ensures HexValue(Hex(value, width)) == value
  {
    if width > 0 {
      var s := Hex(value, width);
      HexRoundTrip(value / 16, width - 1);
      assert s[..|s| - 1] == Hex(value / 16, width - 1);
      assert DigitValue(HexDigits[value % 16]) == value % 16;
    }
  }

  /** The id of the job created with uuid `uuid`: `export_` and the first twelve digits of its hex form. */
  function JobIdFor(uuid: nat): string
    requires uuid < Pow16(32)
  {
    "export_" + Hex(uuid, 32)[..12]
  }

  /** A job id is `export_` followed by twelve lowercase hexadecimal digits. */
  lemma JobIdShape(uuid: nat)
    requires uuid < Pow16(32)
    ensures var id := JobIdFor(uuid);
      && |id| == 19 && id[..7] == "export_"
      && forall k :: 7 <= k < 19 ==> id[k] in HexDigits
  {
    var id := JobIdFor(uuid);
    var hex := Hex(uuid, 32);
    forall k | 7 <= k < 19
      ensures id[k] in HexDigits
    {
      assert id[k] == hex[k - 7];
    }
  }

  // ---------------------------------------------------------------------------
  // Processing outcomes
  // ---------------------------------------------------------------------------

  /** The browser steps that can raise, in the order they run. */
  datatype BrowserStep =
    | Launch  // starting Chromium, opening the page and loading the viewer
    | Load    // waiting for the slides to appear
    | Print   // printing the page to PDF
    | Close   // closing the page context and the browser

  /** How one browser run goes. */
  datatype BrowserRun = Completes | Raises(step: BrowserStep, message: string)

  /** The progress a job has reached when `step` starts. */
  function ProgressBefore(step: BrowserStep): int
  {
    match step
    case Launch => 10
    case Load => 30
    case Print => 50
    case Close => 90
  }

  /** The progress values a job takes, in order, while it is processed. */
  function ProgressSteps(run: BrowserRun): seq<int>
  {
    match run
    case Completes => [10, 30, 50, 90, 100]
    case Raises(Launch, _) => [10]
    case Raises(Load, _) => [10, 30]
    case Raises(Print, _) => [10, 30, 50]
    case Raises(Close, _) => [10, 30, 50, 90]
  }

  const BrowserClosedMarker: string := "Target page, context or browser has been closed"
  const MissingExecutableMarker: string := "Executable doesn't exist"
  const BrowserCrashedText: string :=
    "Browser crashed during export. This may indicate Playwright/Chromium compatibility issues with your system. Try updating Playwright: `playwright install --force chromium`"
  const ChromiumMissingText: string := "Chromium browser not found. Run: `playwright install chromium`"

  /**
   * The error recorded for a failed job: the two known browser failures get
   * an explanation, checked in this order; any other message is kept.
   */
  function ErrorMessage(raw: string): (message: string)
    ensures Contains(raw, BrowserClosedMarker) ==> message == BrowserCrashedText
    ensures !Contains(raw, BrowserClosedMarker) && Contains(raw, MissingExecutableMarker) ==> message == ChromiumMissingText
    ensures !Contains(raw, BrowserClosedMarker) && !Contains(raw, MissingExecutableMarker) ==> message == raw
  {
    if Contains(raw, BrowserClosedMarker) then BrowserCrashedText
    else if Contains(raw, MissingExecutableMarker) then ChromiumMissingText
    else raw
  }

  /** Where a completed job's PDF is downloaded from. */
  function DownloadUrl(jobId: string): string
  {
    "/api/exports/" + jobId + "/download"
  }

  /** The name of a job's PDF in the export directory. */
  function PdfName(jobId: string): string
  {
    jobId + ".pdf"
  }

  /** The job `job`, stored under `jobId`, after a run that ends at time `now`. */
  function Processed(job: ExportJob, jobId: string, run: BrowserRun, now: int): ExportJob
  {
    match run
    case Completes =>
      job.(status := Completed, progress := Some(100), downloadUrl := Some(DownloadUrl(jobId)), completedAt := Some(now))
    case Raises(step, message) =>
      job.(status := Failed, progress := Some(ProgressBefore(step)), error := Some(ErrorMessage(message)), completedAt := Some(now))
  }

  /** The files a run writes: the PDF exists once printing has succeeded. */
  function WrittenFiles(jobId: string, run: BrowserRun): set<string>
  {
    if run.Completes? || run.step == Close then {PdfName(jobId)} else {}
  }

  /**
   * Processing ends in a terminal state at time `now`: `completed` with
   * progress 100 and the download URL exactly when the run completes,
   * `failed` with the mapped error and the progress last reached otherwise.
   * The job keeps its id, presentation and creation time.
   */
  lemma ProcessedOutcome(job: ExportJob, jobId: string, run: BrowserRun, now: int)
    ensures var done := Processed(job, jobId, run, now);
      && (done.status == Completed <==> run.Completes?)
      && (done.status == Completed || done.status == Failed)
      && done.completedAt == Some(now)
      && done.progress == Some(ProgressSteps(run)[|ProgressSteps(run)| - 1])
      && (run.Completes? ==> done.downloadUrl == Some(DownloadUrl(jobId)) && done.error == job.error)
      && (run.Raises? ==> done.error == Some(ErrorMessage(run.message)) && done.downloadUrl == job.downloadUrl)
      && done.jobId == job.jobId && done.presentationId == job.presentationId && done.createdAt == job.createdAt
      && ValidProgress(done.progress)
  {
  }

  /** The progress never goes down, stays within 0 to 100 and starts at 10. */
  lemma ProgressStepsClimb(run: BrowserRun)
    ensures var steps := ProgressSteps(run);
      && steps != [] && steps[0] == 10
      && (forall i, j :: 0 <= i <= j < |steps| ==> steps[i] <= steps[j])
      && (forall i :: 0 <= i < |steps| ==> 0 <= steps[i] <= 100)
  {
  }

  /** A completed job always has its PDF written. */
  lemma CompletedHasPdf(jobId: string, run: BrowserRun)
    ensures run.Completes? ==> PdfName(jobId) in WrittenFiles(jobId, run)
    ensures run.Raises? && run.step != Close ==> WrittenFiles(jobId, run) == {}
  {
  }

  // ---------------------------------------------------------------------------
  // Cleanup
  // ---------------------------------------------------------------------------

  /** The age, in hours, past which a cleanup removes a finished job when the caller gives none. */
  const DefaultMaxAgeHours: int := 24

  /** A job that finished before `cutoff`. */
  predicate Expired(job: ExportJob, cutoff: int)
  {
    job.completedAt.Some? && job.completedAt.value < cutoff
  }

  /** The ids of the jobs a cleanup with this cutoff removes. */
  function ExpiredIds(jobs: map<string, ExportJob>, cutoff: int): set<string>
  {
    set id | id in jobs && Expired(jobs[id], cutoff)
  }

  /** The PDF names of a set of job ids. */
  function PdfNames(ids: set<string>): set<string>
  {
    set id | id in ids :: PdfName(id)
  }

  /** The ids listed in `s`. */
  function Elements(s: seq<string>): set<string>
  {
    set id | id in s
  }

  lemma ElementsSnoc(s: seq<string>, id: string)
    ensures Elements(s + [id]) == Elements(s) + {id}
  {
  }

  /** Removing the ids of a list one by one removes them all. */
  lemma RemoveStep(jobs: map<string, ExportJob>, s: seq<string>, k: nat)
    requires k < |s|
    ensures (jobs - Elements(s[..k])) - {s[k]} == jobs - Elements(s[..k + 1])
  {
    assert s[..k + 1] == s[..k] + [s[k]];
    ElementsSnoc(s[..k], s[k]);
  }

  /** Visiting one more pending job adds it to the removed ones exactly when it has expired. */
  lemma ExpiredStep(jobs: map<string, ExportJob>, cutoff: int, pending: set<string>, id: string)
    requires id in pending && pending <= jobs.Keys
    ensures ExpiredIds(jobs, cutoff) - (pending - {id}) ==
      (ExpiredIds(jobs, cutoff) - pending) + (if Expired(jobs[id], cutoff) then {id} else {})
    ensures id !in ExpiredIds(jobs, cutoff) - pending
  {
  }

  /**
   * One job visited by the first pass of a cleanup: an expired job joins the
   * removed ones and its PDF leaves the directory, any other job changes
   * nothing.
   */
  lemma SweepStep(jobs: map<string, ExportJob>, cutoff: int, files: set<string>, pending: set<string>, id: string,
                  removed: set<string>, toRemove: seq<string>)
    requires id in pending && pending <= jobs.Keys
    requires removed == ExpiredIds(jobs, cutoff) - pending
    requires removed == Elements(toRemove)
    ensures Expired(jobs[id], cutoff) ==>
      && removed + {id} == ExpiredIds(jobs, cutoff) - (pending - {id})
      && removed + {id} == Elements(toRemove + [id])
      && |removed + {id}| == |removed| + 1
      && files - PdfNames(removed) - {PdfName(id)} == files - PdfNames(removed + {id})
      && (PdfName(id) !in files - PdfNames(removed) ==> files - PdfNames(removed) == files - PdfNames(removed + {id}))
    ensures !Expired(jobs[id], cutoff) ==> removed == ExpiredIds(jobs, cutoff) - (pending - {id})
  {
    ExpiredStep(jobs, cutoff, pending, id);
    ElementsSnoc(toRemove, id);
    PdfNamesAdd(removed, id);
  }

  /** Naming one more id names its PDF too. */
  lemma PdfNamesAdd(ids: set<string>, id: string)
    ensures PdfNames(ids + {id}) == PdfNames(ids) + {PdfName(id)}
  {
  }

  /**
   * After a cleanup exactly the jobs that have not finished, or finished at
   * or after the cutoff, are left, each unchanged; and a second cleanup with
   * the same cutoff removes nothing.
   */
  lemma CleanupKeeps(jobs: map<string, ExportJob>, cutoff: int, id: string)
    ensures var kept := jobs - ExpiredIds(jobs, cutoff);
      && (id in kept <==> id in jobs && (jobs[id].completedAt.None? || jobs[id].completedAt.value >= cutoff))
      && (id in kept ==> kept[id] == jobs[id])
      && ExpiredIds(kept, cutoff) == {}
  {
  }

  /** Every job is stored under its own id and its progress is within 0 to 100. */
  predicate ValidJobs(jobs: map<string, ExportJob>)
  {
    forall id :: id in jobs ==> jobs[id].jobId == id && ValidProgress(jobs[id].progress)
  }

  /** Removing jobs keeps the table valid. */
  lemma ValidJobsRemove(jobs: map<string, ExportJob>, ids: set<string>)
    requires ValidJobs(jobs)
    ensures ValidJobs(jobs - ids)
  {
  }

  /**
   * The two passes of a cleanup over a job table and the export directory:
   * the first collects the expired jobs and deletes their PDFs, the second
   * drops the collected jobs from the table.
   */
  method Cleanup(jobs: map<string, ExportJob>, files: set<string>, cutoff: int)
    returns (kept: map<string, ExportJob>, left: set<string>, cleaned: nat)
    ensures kept == jobs - ExpiredIds(jobs, cutoff)
    ensures left == files - PdfNames(ExpiredIds(jobs, cutoff))
    ensures cleaned == |ExpiredIds(jobs, cutoff)|
  {
    ghost var expired := ExpiredIds(jobs, cutoff);
    ghost var removed: set<string> := {};
    var toRemove: seq<string> := [];
    var pending := jobs.Keys;
    left := files;
    cleaned := 0;
    while pending != {}
      invariant pending <= jobs.Keys
      invariant removed == expired - pending
      invariant removed == Elements(toRemove)
      invariant left == files - PdfNames(removed)
      invariant cleaned == |removed|
      decreases |pending|
    {
      var jobId :| jobId in pending;
      SweepStep(jobs, cutoff, files, pending, jobId, removed, toRemove);
      pending := pending - {jobId};
      var job := jobs[jobId];
      if job.completedAt.Some? && job.completedAt.value < cutoff {
        if PdfName(jobId) in left {
          left := left - {PdfName(jobId)};
        }
        toRemove := toRemove + [jobId];
        removed := removed + {jobId};
        cleaned := cleaned + 1;
      }
    }
    kept := jobs;
    for k := 0 to |toRemove|
      invariant kept == jobs - Elements(toRemove[..k])
    {
      RemoveStep(jobs, toRemove, k);
      kept := kept - {toRemove[k]};
    }
    assert toRemove[..|toRemove|] == toRemove;
  }

  // ---------------------------------------------------------------------------
  // The service
  // ---------------------------------------------------------------------------

  class ExportService {
    var frontendUrl: string
    var jobs: map<string, ExportJob>
    /** The names of the files in the export directory. */
    var files: set<string>

    predicate Valid()
      reads this
    {
      ValidJobs(jobs)
    }

    /**
     * A service for the frontend at `frontendUrl`, writing to a directory that
     * already holds `existing`; the URL loses its trailing slashes.
     */
    constructor(frontendUrl: string, existing: set<string>)
      ensures this.frontendUrl == RStrip(frontendUrl, {'/'})
      ensures this.frontendUrl == [] || this.frontendUrl[|this.frontendUrl| - 1] != '/'
      ensures jobs == map[] && files == existing
      ensures Valid()
    {
      this.frontendUrl := RStrip(frontendUrl, {'/'});
      jobs := map[];
      files := existing;
    }

    /**
     * Creates a pending job at progress 0 for `presentationId` under the id
     * drawn from `uuid`, stores it and returns it; nothing else changes.
     */
    method CreateExportJob(presentationId: string, uuid: nat, now: int) returns (job: ExportJob)
      requires uuid < Pow16(32)
      requires Valid()
      modifies this
      ensures Valid()
      ensures job == ExportJob(JobIdFor(uuid), presentationId, Pending, Some(0), None, None, now, None)
      ensures jobs == old(jobs)[job.jobId := job]
      ensures files == old(files) && frontendUrl == old(frontendUrl)
    {
      var jobId := "export_" + Hex(uuid, 32)[..12];
      var built := MakeExportJob(jobId, presentationId, Pending, Some(0), now);
      job := built.value;
      jobs := jobs[jobId := job];
    }

    /** The job stored under `jobId`, if any. */
    function JobStatus(jobId: string): (r: Option<ExportJob>)
      reads this
      ensures r.Some? <==> jobId in jobs
      ensures r.Some? ==> r.value == jobs[jobId]
    {
      if jobId in jobs then Some(jobs[jobId]) else None
    }

    /** The PDF of `jobId`, if it is in the export directory. */
    function PdfPath(jobId: string): (r: Option<string>)
      reads this
      ensures r.Some? <==> PdfName(jobId) in files
      ensures r.Some? ==> r.value == PdfName(jobId)
    {
      if PdfName(jobId) in files then Some(PdfName(jobId)) else None
    }

    /**
     * Runs the export of the job stored under `jobId` and returns the progress
     * values it took in order.  An unknown id changes nothing.
     */
    method ProcessExport(jobId: string, run: BrowserRun, now: int) returns (progressSteps: seq<int>)
      requires Valid()
      modifies this
      ensures Valid()
      ensures frontendUrl == old(frontendUrl)
      ensures jobId !in old(jobs) ==> jobs == old(jobs) && files == old(files) && progressSteps == []
      ensures jobId in old(jobs) ==>
        && jobs == old(jobs)[jobId := Processed(old(jobs)[jobId], jobId, run, now)]
        && files == old(files) + WrittenFiles(jobId, run)
        && progressSteps == ProgressSteps(run)
    {
      if jobId !in jobs {
        return [];
      }
      var job := jobs[jobId];
      job := job.(status := Processing, progress := Some(10));
      progressSteps := [10];
      // The message of the exception raised inside the browser session, if any.
      var raised: Option<string> := None;
      if run.Raises? && run.step == Launch {
        raised := Some(run.message);
      } else {
        job := job.(progress := Some(30));
        progressSteps := progressSteps + [30];
        if run.Raises? && run.step == Load {
          raised := Some(run.message);
        } else {
          job := job.(progress := Some(50));
          progressSteps := progressSteps + [50];
          if run.Raises? && run.step == Print {
            raised := Some(run.message);
          } else {
            files := files + {PdfName(jobId)};
            job := job.(progress := Some(90));
            progressSteps := progressSteps + [90];
            if run.Raises? {
              raised := Some(run.message);
            }
          }
        }
      }
      match raised {
        case None =>
          job := job.(status := Completed, progress := Some(100), downloadUrl := Some(DownloadUrl(jobId)), completedAt := Some(now));
          progressSteps := progressSteps + [100];
        case Some(message) =>
          job := job.(status := Failed, error := Some(ErrorMessage(message)), completedAt := Some(now));
      }
      jobs := jobs[jobId := job];
    }

    /**
     * Removes every job that finished more than `maxAgeHours` hours before
     * `now`, together with its PDF, and returns how many were removed.
     * Callers that give no age pass `DefaultMaxAgeHours`.
     */
    method CleanupOldJobs(maxAgeHours: int, now: int) returns (cleaned: nat)
      requires Valid()
      modifies this
      ensures Valid()
      ensures var removed := ExpiredIds(old(jobs), now - maxAgeHours * 3600);
        && jobs == old(jobs) - removed
        && files == old(files) - PdfNames(removed)
        && cleaned == |removed|
      ensures frontendUrl == old(frontendUrl)
    {
      var cutoff := now - maxAgeHours * 3600;
      var kept, left;
      kept, left, cleaned := Cleanup(jobs, files, cutoff);
      ValidJobsRemove(jobs, ExpiredIds(jobs, cutoff));
      jobs := kept;
      files := left;
    }
  }
}
