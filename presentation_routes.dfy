/**
 * The `/api/presentations` endpoints: they reach the scanner registered at
 * start-up, whose state is the presentations directory it reads.
 */
module PresentationRoutes {
  import opened Wrappers
  import opened Schemas
  import opened Http
  import opened Scanner

  const ScannerMissing: string := "Presentation scanner not initialized"

  function PresentationNotFound(id: string): RouteError
  {
    HttpException(NotFound, "Presentation '" + id + "' not found")
  }

  /** What looking `id` up in `dir` yields. */
  function Lookup(dir: seq<SourceFile>, id: string): Option<Presentation>
  {
    match FirstExisting(dir, id)
    case None => None
    case Some(name) => ParsedPresentation(FileNamed(dir, name))
  }

  /**
   * Every presentation found by id is one the listing shows, and it carries
   * at least one slide.
   */
  lemma FoundIsListed(dir: seq<SourceFile>, id: string)
    ensures Lookup(dir, id).Some? ==>
      && Lookup(dir, id).value in ScannedUpTo(dir, |Extensions|, ParsedPresentation)
      && ValidPresentation(Lookup(dir, id).value)
  {
    FirstExtensionFromIsFirst(dir, id, 0);
    if Lookup(dir, id).Some? {
      var e := FirstExtensionFrom(dir, id, 0).value;
      var name := id + Extensions[e];
      var f := FileNamed(dir, name);
      assert name[|name| - |Extensions[e]|..] == Extensions[e];
      assert ListedUpTo(f.name, |Extensions|);
      ParsedPresentationFields(f);
      ScanAllMembers(dir, Lookup(dir, id).value);
    }
  }

  /** Every listed presentation carries at least one slide. */
  lemma ListedAreValid(dir: seq<SourceFile>, p: Presentation)
    requires p in ScannedUpTo(dir, |Extensions|, ParsedPresentation)
    ensures ValidPresentation(p)
  {
    ScanAllMembers(dir, p);
    var f :| f in dir && ListedUpTo(f.name, |Extensions|) && ParsedPresentation(f) == Some(p);
    ParsedPresentationFields(f);
  }

  /** The routes' hold on the scanner, unset until start-up registers one. */
  class PresentationRouter {
    /** The directory the registered scanner reads, if one is registered. */
    var scanner: Option<seq<SourceFile>>

    constructor()
      ensures scanner == None
    {
      scanner := None;
    }

    /** Registers the scanner the endpoints use from now on. */
    method SetScanner(dir: seq<SourceFile>)
      modifies this
      ensures scanner == Some(dir)
    {
      scanner := Some(dir);
    }

    /** The registered scanner, or a runtime error before one is registered. */
    function GetScanner(): (r: Result<seq<SourceFile>, RouteError>)
      reads this
      ensures r.Success? <==> scanner.Some?
      ensures r.Success? ==> r.value == scanner.value
      ensures r.Failure? ==> r.error == RuntimeError(ScannerMissing)
    {
      match scanner
      case None => Failure(RuntimeError(ScannerMissing))
      case Some(dir) => Success(dir)
    }

    /** `GET /api/presentations`: the scanned list and its length. */
    method ListPresentations() returns (r: Result<PresentationList, RouteError>)
      ensures scanner.None? ==> r == Failure(RuntimeError(ScannerMissing))
      ensures scanner.Some? ==>
        && r.Success?
        && r.value.presentations == ScannedUpTo(scanner.value, |Extensions|, ParsedPresentation)
        && r.value.total == |r.value.presentations|
    {
      var found := GetScanner();
      if found.Failure? {
        return Failure(found.error);
      }
      var presentations := ScanAll(found.value);
      var list := MakePresentationList(presentations, |presentations|);
      return Success(list.value);
    }

    /** `GET /api/presentations/{presentation_id}`: the presentation, or 404. */
    method GetPresentation(id: string) returns (r: Result<Presentation, RouteError>)
      ensures scanner.None? ==> r == Failure(RuntimeError(ScannerMissing))
      ensures scanner.Some? && Lookup(scanner.value, id).None? ==> r == Failure(PresentationNotFound(id))
      ensures scanner.Some? && Lookup(scanner.value, id).Some? ==> r == Success(Lookup(scanner.value, id).value)
    {
      var found := GetScanner();
      if found.Failure? {
        return Failure(found.error);
      }
      var presentation := GetById(found.value, id);
      if presentation.None? {
        return Failure(PresentationNotFound(id));
      }
      return Success(presentation.value);
    }
  }
}
