/** The `/api/extract` handler (src/index.ts:158-174): map the query
    parameter and the pipeline's outcome to a status and a JSON body. */
module Endpoint {
  import opened Wrappers
  import opened Links
  import opened Extract
  import Text
  import Fragment
  import opened Sandbox

  const MISSING_URL_ERROR: string := "URL query parameter is required."
  const NO_LINKS_MESSAGE: string := "No video links found."
  const EXTRACTION_ERROR: string := "Failed to extract video links."

  /** How the awaited `fetchAndDecode(url)` settles. */
  datatype Attempt = Resolved(links: seq<ExtractedLink>) | Rejected(message: string)

  /** The response bodies, one per status the handler sends. */
  datatype Response =
    | BadRequest(error: string)
    | NotFound(message: string, source: string)
    | Found(links: seq<ExtractedLink>)
    | ServerError(error: string, details: string)

  function Status(r: Response): (code: int)
    ensures code in {200, 400, 404, 500}
  {
    match r
    case BadRequest(_) => 400
    case NotFound(_, _) => 404
    case Found(_) => 200
    case ServerError(_, _) => 500
  }

  /** `!url` holds for an absent parameter and for the empty string. */
  predicate Present(url: Option<string>)
  {
    url.Some? && url.value != ""
  }

  /** The handler, with the pipeline as a parameter. */
  function HandleExtract(url: Option<string>, pipeline: string -> Attempt): (r: Response)
    ensures Status(r) == 400 <==> !Present(url)
    ensures !Present(url) ==> r == BadRequest(MISSING_URL_ERROR)
    ensures Present(url) && pipeline(url.value) == Resolved([]) ==>
              r == NotFound(NO_LINKS_MESSAGE, url.value)
    ensures Status(r) == 200 <==> Present(url) && pipeline(url.value).Resolved?
                                  && pipeline(url.value).links != []
    ensures r.Found? ==> r.links == pipeline(url.value).links
    ensures Status(r) == 500 <==> Present(url) && pipeline(url.value).Rejected?
    ensures r.ServerError? ==> r == ServerError(EXTRACTION_ERROR, pipeline(url.value).message)
  {
    if !Present(url) then BadRequest(MISSING_URL_ERROR)
    else
      match pipeline(url.value)
      case Resolved(links) =>
        if |links| == 0 then NotFound(NO_LINKS_MESSAGE, url.value) else Found(links)
      case Rejected(message) => ServerError(EXTRACTION_ERROR, message)
  }

  /** A missing `url` is answered before the pipeline is called: the
      response does not depend on it. */
  lemma MissingUrlSkipsPipeline(url: Option<string>, p: string -> Attempt, p': string -> Attempt)
    requires !Present(url)
    ensures HandleExtract(url, p) == HandleExtract(url, p')
  {
  }

  /** The modelled `fetchAndDecode` catches every error it meets and
      resolves, so through it the handler never answers 500. */
  lemma ModelledPipelineNeverFails<D, H>(url: Option<string>, fetch: string -> Fetched, sb: Sandbox<D, H>)
    ensures Status(HandleExtract(url, u => Resolved(Decoded(fetch(u), sb)))) != 500
  {
  }

  /** A page without the fragment marker gives 404 naming the source. */
  lemma PageWithoutMarkerIsNotFound<D, H>(x: string, html: string, fetch: string -> Fetched, sb: Sandbox<D, H>)
    requires x != "" && fetch(x) == Body(html)
    requires forall k :: !Text.OccursAt(html, Fragment.START_MARKER, k)
    ensures HandleExtract(Some(x), u => Resolved(Decoded(fetch(u), sb)))
            == NotFound(NO_LINKS_MESSAGE, x)
  {
    Fragment.LocateFailsWithoutStartMarker(html);
  }
}
