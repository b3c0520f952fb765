/** The values that flow between the stages (src/index.ts:28-31, 102-117). */
module Links {
  import opened Wrappers

  /** `ExtractedLink`: a quality label and a stream link. */
  datatype ExtractedLink = ExtractedLink(quality: string, link: string)

  /** A `button.hd_btn` element of the mutated document: its `textContent`
      and its `data-url` attribute (`getAttribute` gives null when absent). */
  datatype Button = Button(text: string, dataUrl: Option<string>)

  /** What the collector reads from the document after the settle delay:
      the `button.hd_btn` elements in document order and `body.innerHTML`. */
  datatype MutatedDocument = MutatedDocument(buttons: seq<Button>, bodyMarkup: string)

  /** The link fields of a result list, in order. */
  function LinksOf(r: seq<ExtractedLink>): (ls: seq<string>)
    ensures |ls| == |r|
    ensures forall k :: 0 <= k < |r| ==> ls[k] == r[k].link
  {
    if r == [] then [] else LinksOf(r[..|r| - 1]) + [r[|r| - 1].link]
  }
}
