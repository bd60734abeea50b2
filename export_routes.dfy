/**
 * The `/api/exports` endpoints: they reach the export service registered at
 * start-up and turn its answers into responses or HTTP errors.
 */
module ExportRoutes {
  import opened Wrappers
  import opened Schemas
  import opened Http
  import ES = ExportService

  /** The body of a status response. */
  datatype ExportStatusResponse = ExportStatusResponse(job: ExportJob)

  /** A file sent back to the client. */
  datatype FileResponse = FileResponse(path: string, mediaType: string, filename: string, contentDisposition: string)

  const ServiceMissing: string := "Export service not initialized"

  function JobNotFound(jobId: string): RouteError
  {
    HttpException(NotFound, "Export job '" + jobId + "' not found")
  }

  /**
   * A status as an f-string renders it: the enum's class and member name,
   * which is how Python 3.11 and later format a member of an enum that mixes
   * in `str`.
   */
  function StatusText(s: ExportJobStatus): string
  {
    match s
    case Pending => "ExportJobStatus.PENDING"
    case Processing => "ExportJobStatus.PROCESSING"
    case Completed => "ExportJobStatus.COMPLETED"
    case Failed => "ExportJobStatus.FAILED"
  }

  /** An optional error as an f-string renders it. */
  function ErrorText(error: Option<string>): string
  {
    match error
    case None => "None"
    case Some(message) => message
  }

  /** The PDF of a job, offered for download under its presentation's name. */
  function PdfResponse(jobId: string, presentationId: string): FileResponse
  {
    FileResponse(ES.PdfName(jobId), "application/pdf", presentationId + ".pdf",
                 "attachment; filename=\"" + presentationId + ".pdf\"")
  }

  /** The status answer for `jobId` given the service's job table. */
  function StatusOf(jobs: map<string, ExportJob>, jobId: string): (r: Result<ExportStatusResponse, RouteError>)
    ensures r.Success? <==> jobId in jobs
    ensures r.Success? ==> r.value.job == jobs[jobId]
    ensures r.Failure? ==> r.error == JobNotFound(jobId)
  {
    if jobId in jobs then Success(ExportStatusResponse(jobs[jobId])) else Failure(JobNotFound(jobId))
  }

  /**
   * The download answer for `jobId` given the service's job table and the
   * files of its export directory: the checks run in this order, and only a
   * completed job whose PDF is present is served.
   */
  function Download(jobs: map<string, ExportJob>, files: set<string>, jobId: string): (r: Result<FileResponse, RouteError>)
    ensures r.Success? <==> jobId in jobs && jobs[jobId].status == Completed && ES.PdfName(jobId) in files
    ensures r.Success? ==> r.value == PdfResponse(jobId, jobs[jobId].presentationId)
    ensures jobId !in jobs ==> r == Failure(JobNotFound(jobId))
    ensures jobId in jobs && jobs[jobId].status == Failed ==>
      r == Failure(HttpException(BadRequest, "Export job failed: " + ErrorText(jobs[jobId].error)))
    ensures jobId in jobs && jobs[jobId].status in {Pending, Processing} ==>
      r == Failure(HttpException(BadRequest, "Export job is " + StatusText(jobs[jobId].status) + ", not ready for download"))
    ensures jobId in jobs && jobs[jobId].status == Completed && ES.PdfName(jobId) !in files ==>
      r == Failure(HttpException(NotFound, "PDF file not found"))
  {
    if jobId !in jobs then Failure(JobNotFound(jobId))
    else
      var job := jobs[jobId];
      if job.status == Failed then Failure(HttpException(BadRequest, "Export job failed: " + ErrorText(job.error)))
      else if job.status != Completed then
        Failure(HttpException(BadRequest, "Export job is " + StatusText(job.status) + ", not ready for download"))
      else if ES.PdfName(jobId) !in files then Failure(HttpException(NotFound, "PDF file not found"))
      else Success(PdfResponse(jobId, job.presentationId))
  }

  /**
   * A job just created can be polled, and cannot be downloaded yet: the
   * answer says it is pending.
   */
  lemma CreatedJobNotReady(jobs: map<string, ExportJob>, files: set<string>, uuid: nat, presentationId: string, now: int)
    requires uuid < ES.Pow16(32)
    ensures var job := ExportJob(ES.JobIdFor(uuid), presentationId, Pending, Some(0), None, None, now, None);
      var stored := jobs[job.jobId := job];
      && StatusOf(stored, job.jobId) == Success(ExportStatusResponse(job))
      && Download(stored, files, job.jobId)
         == Failure(HttpException(BadRequest, "Export job is " + StatusText(Pending) + ", not ready for download"))
  {
  }

  /**
   * After a run that completes, the job's PDF is served under its
   * presentation's name; after a run that fails, the download is refused
   * with the recorded error.
   */
  lemma ProcessedDownload(jobs: map<string, ExportJob>, files: set<string>, jobId: string, run: ES.BrowserRun, now: int)
    requires jobId in jobs
    ensures var job := jobs[jobId];
      var r := Download(jobs[jobId := ES.Processed(job, jobId, run, now)], files + ES.WrittenFiles(jobId, run), jobId);
      && (run.Completes? ==> r == Success(PdfResponse(jobId, job.presentationId)))
      && (run.Raises? ==> r == Failure(HttpException(BadRequest, "Export job failed: " + ES.ErrorMessage(run.message))))
  {
    ES.ProcessedOutcome(jobs[jobId], jobId, run, now);
    ES.CompletedHasPdf(jobId, run);
  }

  /** The routes' hold on the export service, unset until start-up registers one. */
  class ExportRouter {
    var service: ES.ExportService?

    constructor()
      ensures service == null
    {
      service := null;
    }

    /** Registers the service the endpoints use from now on. */
    method SetExportService(s: ES.ExportService)
      modifies this
      ensures service == s
    {
      service := s;
    }

    /** The registered service, or a runtime error before one is registered. */
    function GetExportService(): (r: Result<ES.ExportService, RouteError>)
      reads this
      ensures r.Success? <==> service != null
      ensures r.Success? ==> r.value == service
      ensures r.Failure? ==> r.error == RuntimeError(ServiceMissing)
    {
      if service == null then Failure(RuntimeError(ServiceMissing)) else Success(service)
    }

    /**
     * `POST /api/exports/{presentation_id}/export`: creates a job through the
     * service and returns it as created.  The request options are accepted
     * and not used.
     */
    method CreateExport(presentationId: string, request: ExportRequest, uuid: nat, now: int)
      returns (r: Result<ExportJob, RouteError>)
      requires uuid < ES.Pow16(32)
      requires service != null ==> service.Valid()
      modifies service
      ensures service == old(service)
      ensures service == null ==> r == Failure(RuntimeError(ServiceMissing))
      ensures service != null ==>
        && service.Valid()
        && r == Success(ExportJob(ES.JobIdFor(uuid), presentationId, Pending, Some(0), None, None, now, None))
        && service.jobs == old(service.jobs)[r.value.jobId := r.value]
        && service.files == old(service.files)
    {
      var found := GetExportService();
      if found.Failure? {
        return Failure(found.error);
      }
      var job := found.value.CreateExportJob(presentationId, uuid, now);
      r := Success(job);
    }

    /** `GET /api/exports/{job_id}/status`. */
    function GetExportStatus(jobId: string): (r: Result<ExportStatusResponse, RouteError>)
      reads this, service
      ensures service == null ==> r == Failure(RuntimeError(ServiceMissing))
      ensures service != null ==> r == StatusOf(service.jobs, jobId)
    {
      if service == null then Failure(RuntimeError(ServiceMissing)) else StatusOf(service.jobs, jobId)
    }

    /** `GET /api/exports/{job_id}/download`. */
    function DownloadExport(jobId: string): (r: Result<FileResponse, RouteError>)
      reads this, service
      ensures service == null ==> r == Failure(RuntimeError(ServiceMissing))
      ensures service != null ==> r == Download(service.jobs, service.files, jobId)
    {
      if service == null then Failure(RuntimeError(ServiceMissing)) else Download(service.jobs, service.files, jobId)
    }
  }
}
