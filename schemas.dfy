/**
 * The records the backend exchanges, with the field constraints and defaults
 * pydantic enforces when one of them is built.  Timestamps are whole seconds
 * since the epoch, in UTC.
 */
module Schemas {
  import opened Wrappers

  /** Metadata of one presentation as the backend serves it. */
  datatype Presentation = Presentation(
    id: string,
    title: string,
    description: Option<string>,
    slideCount: int,
    createdAt: string,
    updatedAt: string,
    filePath: string)

  /** The field that failed validation. */
  datatype ValidationError = ValidationError(field: string)

  predicate ValidPresentation(p: Presentation)
  {
    p.slideCount >= 1
  }

  /** Building a `Presentation` fails exactly when the slide count is below one. */
  function MakePresentation(
    id: string, title: string, description: Option<string>, slideCount: int,
    createdAt: string, updatedAt: string, filePath: string): (r: Result<Presentation, ValidationError>)
    ensures r.Success? <==> slideCount >= 1
    ensures r.Success? ==>
      && ValidPresentation(r.value)
      && r.value.id == id && r.value.title == title && r.value.description == description
      && r.value.slideCount == slideCount && r.value.createdAt == createdAt
      && r.value.updatedAt == updatedAt && r.value.filePath == filePath
    ensures r.Failure? ==> r.error == ValidationError("slide_count")
  {
    if slideCount >= 1 then Success(Presentation(id, title, description, slideCount, createdAt, updatedAt, filePath))
    else Failure(ValidationError("slide_count"))
  }

  /** A list of presentations and how many there are. */
  datatype PresentationList = PresentationList(presentations: seq<Presentation>, total: int)

  /** Building a `PresentationList` fails exactly when `total` is negative. */
  function MakePresentationList(presentations: seq<Presentation>, total: int): (r: Result<PresentationList, ValidationError>)
    ensures r.Success? <==> total >= 0
    ensures r.Success? ==> r.value.presentations == presentations && r.value.total == total
    ensures r.Failure? ==> r.error == ValidationError("total")
  {
    if total >= 0 then Success(PresentationList(presentations, total)) else Failure(ValidationError("total"))
  }

  /** The lifecycle of an export job. */
  datatype ExportJobStatus = Pending | Processing | Completed | Failed

  /** The string value behind each status. */
  function StatusValue(s: ExportJobStatus): string
  {
    match s
    case Pending => "pending"
    case Processing => "processing"
    case Completed => "completed"
    case Failed => "failed"
  }

  /** Looking a status up by its value, as `ExportJobStatus(value)` does. */
  function StatusOfValue(v: string): Option<ExportJobStatus>
  {
    if v == "pending" then Some(Pending)
    else if v == "processing" then Some(Processing)
    else if v == "completed" then Some(Completed)
    else if v == "failed" then Some(Failed)
    else None
  }

  /** The four values name the four statuses one to one, and no other string names a status. */
  lemma StatusValues(s: ExportJobStatus, v: string)
    ensures StatusOfValue(StatusValue(s)) == Some(s)
    ensures StatusOfValue(v) == Some(s) <==> v == StatusValue(s)
    ensures StatusOfValue(v).Some? <==> v in {"pending", "processing", "completed", "failed"}
  {
  }

  /** Options of an export request. */
  datatype ExportRequest = ExportRequest(format: string, quality: string)

  /** The request used when the client sends none. */
  const DefaultExportRequest := ExportRequest("pdf", "high")

  /** One export job. */
  datatype ExportJob = ExportJob(
    jobId: string,
    presentationId: string,
    status: ExportJobStatus,
    progress: Option<int>,
    downloadUrl: Option<string>,
    error: Option<string>,
    createdAt: int,
    completedAt: Option<int>)

  predicate ValidProgress(progress: Option<int>)
  {
    progress.None? || 0 <= progress.value <= 100
  }

  /**
   * Building an `ExportJob` from the fields a caller gives: it fails exactly
   * when the progress is outside 0 to 100, and the download URL, the error and
   * the completion time start out absent.
   */
  function MakeExportJob(jobId: string, presentationId: string, status: ExportJobStatus, progress: Option<int>, createdAt: int)
    : (r: Result<ExportJob, ValidationError>)
    ensures r.Success? <==> ValidProgress(progress)
    ensures r.Success? ==>
      && r.value.jobId == jobId && r.value.presentationId == presentationId && r.value.status == status
      && r.value.progress == progress && r.value.createdAt == createdAt
      && r.value.downloadUrl.None? && r.value.error.None? && r.value.completedAt.None?
    ensures r.Failure? ==> r.error == ValidationError("progress")
  {
    if ValidProgress(progress) then Success(ExportJob(jobId, presentationId, status, progress, None, None, createdAt, None))
    else Failure(ValidationError("progress"))
  }
}
