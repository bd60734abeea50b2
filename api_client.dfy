/**
 * The frontend's API client: it serves a static list of presentations built
 * from the metadata the presentation modules export, with no backend call.
 */
module ApiClient {
  import opened Wrappers

  /** A presentation as the frontend sees it. */
  datatype Presentation = Presentation(
    id: string,
    title: string,
    description: Option<string>,
    slideCount: int,
    createdAt: string,
    updatedAt: string)

  /** The metadata the Vedunya product presentation exports. */
  const VedunyaMetadata: Presentation := Presentation(
    "vedunya-product",
    "Ведунья — Корпоративный ИИ",
    Some("Презентация продукта Ведунья: единый центр корпоративного интеллекта"),
    7,
    "2025-12-10",
    "2025-12-10")

  /** The static list, copied field by field from the metadata. */
  const Presentations: seq<Presentation> := [
    Presentation(
      VedunyaMetadata.id,
      VedunyaMetadata.title,
      VedunyaMetadata.description,
      VedunyaMetadata.slideCount,
      VedunyaMetadata.createdAt,
      VedunyaMetadata.updatedAt)
  ]

  /** The list holds the Vedunya presentation and nothing else. */
  lemma StaticList()
    ensures Presentations == [VedunyaMetadata]
    ensures Presentations[0].id == "vedunya-product" && Presentations[0].slideCount == 7
  {
  }

  /** `fetchPresentations()`: the static list, unchanged. */
  function FetchPresentations(): (r: seq<Presentation>)
    ensures r == [VedunyaMetadata]
  {
    Presentations
  }

  /** The index of the first presentation with id `id` in `ps`, as `Array.prototype.find` picks it. */
  function FindIndex(ps: seq<Presentation>, id: string): (r: Option<nat>)
    ensures r.Some? ==> r.value < |ps| && ps[r.value].id == id && forall j :: 0 <= j < r.value ==> ps[j].id != id
    ensures r.None? <==> forall j :: 0 <= j < |ps| ==> ps[j].id != id
  {
    if ps == [] then None
    else if ps[0].id == id then Some(0)
    else
      match FindIndex(ps[1..], id)
      case None => None
      case Some(i) => Some(i + 1)
  }

  function NotFoundMessage(id: string): string
  {
    "Presentation '" + id + "' not found"
  }

  /**
   * `fetchPresentation(id)`: the first presentation of the list with that id,
   * or an error naming the id when there is none.
   */
  function FetchPresentation(id: string): (r: Result<Presentation, string>)
    ensures r.Success? <==> exists j :: 0 <= j < |Presentations| && Presentations[j].id == id
    ensures r.Success? ==> r.value in Presentations && r.value.id == id
    ensures r.Failure? ==> r.error == NotFoundMessage(id)
  {
    match FindIndex(Presentations, id)
    case None => Failure(NotFoundMessage(id))
    case Some(i) => Success(Presentations[i])
  }

  /** Only the Vedunya id is found, and it yields the Vedunya presentation. */
  lemma FetchPresentationStatic(id: string)
    ensures FetchPresentation(id) == if id == "vedunya-product" then Success(VedunyaMetadata) else Failure(NotFoundMessage(id))
  {
    StaticList();
  }
}
