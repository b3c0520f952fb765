/** `fetchAndDecode` (src/index.ts:33-148) once the network and the DOM
    library are parameters: locate the fragment, seed a fresh DOM with it,
    run its scripts, let the settle delay pass and collect. */
module Extract {
  import opened Wrappers
  import opened Links
  import opened Fragment
  import opened Sandbox
  import opened Collector

  /** The outcome of `fetch` followed by `response.text()`: the body text
      whatever the status, or a thrown transport error. */
  datatype Fetched = Body(html: string) | TransportFailure(message: string)

  /** The links `fetchAndDecode` resolves with. */
  function Decoded<D, H>(fetched: Fetched, sb: Sandbox<D, H>): seq<ExtractedLink>
  {
    match fetched
    case TransportFailure(_) => []
    case Body(html) =>
      match Locate(html)
      case None => []
      case Some(f) =>
        var dom := sb.load(ContainerMarkup(f.text));
        Collected(sb.observe(sb.settle(AfterScripts(sb.textOf, sb.eval, dom, sb.scriptsOf(dom)))))
  }

  /** Without a fragment the result is empty and no sandbox is consulted:
      any two sandboxes give the same result. */
  lemma NoFragmentSkipsSandbox<D, H>(html: string, sb: Sandbox<D, H>, sb': Sandbox<D, H>)
    requires Locate(html).None?
    ensures Decoded(Body(html), sb) == []
    ensures Decoded(Body(html), sb) == Decoded(Body(html), sb')
  {
  }

  /** The page matters only through the located fragment. */
  lemma DecodedDependsOnlyOnFragment<D, H>(html: string, html': string, sb: Sandbox<D, H>)
    requires Locate(html).Some? && Locate(html').Some?
    requires Locate(html).value.text == Locate(html').value.text
    ensures Decoded(Body(html), sb) == Decoded(Body(html'), sb)
  {
  }

  /** With a fragment, the result obeys the collector's rules on the
      document the sandbox leaves: primary rule if and only if a button
      exists. */
  lemma DecodedFollowsCollector<D, H>(html: string, sb: Sandbox<D, H>)
    requires Locate(html).Some?
    ensures var dom := sb.load(ContainerMarkup(Locate(html).value.text));
            var doc := sb.observe(sb.settle(AfterScripts(sb.textOf, sb.eval, dom, sb.scriptsOf(dom))));
            (|doc.buttons| > 0 ==> Decoded(Body(html), sb) == PrimaryLinks(doc.buttons))
            && (|doc.buttons| == 0 ==> Decoded(Body(html), sb) == FallbackLinks(doc.bodyMarkup))
  {
  }

  /** The pipeline inside its `try`: `[]` when the fetch throws or no
      fragment is found, the collected links otherwise. */
  method FetchAndDecode<D, H>(fetched: Fetched, sb: Sandbox<D, H>) returns (links: seq<ExtractedLink>)
    ensures links == Decoded(fetched, sb)
    ensures fetched.TransportFailure? ==> links == []
    ensures fetched.Body? && Locate(fetched.html).None? ==> links == []
  {
    match fetched
    case TransportFailure(_) =>
      links := [];
    case Body(html) =>
      var found := Locate(html);
      if found.None? {
        links := [];
        return;
      }
      var dom := sb.load(ContainerMarkup(found.value.text));
      dom := RunScripts(sb.textOf, sb.eval, dom, sb.scriptsOf(dom));
      dom := sb.settle(dom);
      links := Collect(sb.observe(dom));
  }
}
