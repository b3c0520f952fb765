# Video link extractor: verified model of the decoding core

The repository is a small Express service. `GET /api/extract?url=…` fetches a
video page, cuts out the `<div class="quality_change">…</button></div>` block
that holds the page's obfuscated decryption script, runs that script in a
happy-dom window, waits one second, and reads the stream links the script
leaves behind. By preference these are the `button.hd_btn` elements and their
`data-url` attributes. When there is no such button, the service scans the
resulting markup for `.m3u8` URLs instead.

This project models the deterministic part of that pipeline in Dafny:

- `Text`: literal search (`FindFrom`) and `String.prototype.trim`.
- `Fragment`: the lazy regular expression that locates the fragment.
- `ManifestScan`: the global regular expression `https?://[^"']+\.m3u8`, written
  out as the regex engine runs it (leftmost start, greedy run, backtracking to
  the last `.m3u8`, resume after the match).
- `Dedup`: `[...new Set(urlMatch)]`. `Unique` is the reference definition.
  `UniqueInOrder` is the loop with a `seen` set and an insertion-ordered list.
- `Links`: the data model. `ExtractedLink`, a `Button`
  (`textContent`, `data-url`), and the `MutatedDocument` the collector reads.
- `Collector`: the `setTimeout` callback. It applies the primary rule when
  there is a button and the fallback rule otherwise, each as a loop that
  pushes into `results`.
- `Sandbox`: the seeding markup and the per-script `try`/`catch` loop around
  `window.eval`. The DOM library is given as a value of type `Sandbox<D, H>`,
  which holds functions over an abstract DOM state `D` and script handles `H`.
- `Extract`: `fetchAndDecode`, with the fetch outcome and the sandbox as
  parameters.
- `Endpoint`: the `/api/extract` status mapping (400, 404, 200, 500).

Three facts about `src/index.ts` shape the model:

- The file has one strategy only: the `quality_change` fragment. It has no
  player-page strategy, no link registry and no retry of the fetch.
- The `try` in `fetchAndDecode` (src/index.ts:37-147) catches the awaited
  rejections of `fetch` and `response.text()` (lines 39 and 41) and any
  synchronous throw before the timer is set, and it then returns `[]`. It
  does not cover the timer callback, which runs later on Node's global
  `setTimeout` (line 101). So the modelled pipeline never makes the handler
  answer 500. The lemma `Endpoint.ModelledPipelineNeverFails` states this.
  The 500 branch is still modelled, for a rejected pipeline.
- `window.close()` runs only at line 139, at the end of the timer callback.
  The early return at line 53 and the `catch` at line 144 do not close a
  window.

## Model

| member | source | states |
|---|---|---|
| Text.FindFrom | src/index.ts:44-45 | the result is the first index at or after `from` where the literal occurs; None means it occurs nowhere after `from` |
| Text.TrimStart | src/index.ts:108 | the result is a suffix of the input; everything cut is whitespace; the result does not begin with whitespace |
| Text.TrimEnd | src/index.ts:108 | the result is a prefix of the input; everything cut is whitespace; the result does not end with whitespace |
| Text.Trim | src/index.ts:108 | the trimmed label is no longer than the input and neither begins nor ends with an ECMAScript whitespace or line terminator |
| Text.TrimIsSlice | src/index.ts:108 | the trimmed label is a contiguous slice of the text, and only whitespace lies outside that slice |
| Text.TrimFixesTrimmed | src/index.ts:108 | a string with non-whitespace at both ends is left unchanged |
| Text.TrimIdempotent | src/index.ts:108 | trimming twice equals trimming once |
| Fragment.LeftmostMatch | src/index.ts:44-45 | a found match starts at the first `open` marker, ends with a `close` marker, holds no earlier `close` after the `open`, and is a slice of the page; there is no match exactly when no `open` is followed by a `close` |
| Fragment.Locate | src/index.ts:44-47 | with the `quality_change` markers: the returned `match[0]` begins with the start marker, ends with the end marker, starts at the first start marker and holds no earlier end marker; None exactly when no start marker is followed by an end marker |
| Fragment.LocateSucceedsWhenMarkersPresent | src/index.ts:44-47 | any start marker followed by a non-overlapping end marker makes the locator succeed, at that start marker or an earlier one |
| Fragment.LocateFailsWithoutStartMarker | src/index.ts:45-53 | a page without the start marker, such as a challenge page, yields no fragment |
| ManifestScan.QuoteFreeEnd | src/index.ts:118 | the greedy `[^"']+` run stops at the first quote or at the end of the markup |
| ManifestScan.LastExtensionAt | src/index.ts:118 | backtracking finds the last `.m3u8` in the run, or reports that the run has none |
| ManifestScan.TailEnd | src/index.ts:118 | `[^"']+\.m3u8` from `q` ends at the greatest end of a quote-free run with at least one character before a final `.m3u8`; None exactly when no such end exists |
| ManifestScan.MatchAt | src/index.ts:118 | the match at `i` is the longest slice from `i` in the language (`https://` or `http://`, at least one character, `.m3u8`, no quote); None exactly when no slice from `i` is in it |
| ManifestScan.Matches | src/index.ts:118 | every element of the global match list is a manifest URL |
| ManifestScan.MatchesEmptyIff | src/index.ts:118-119 | the global scan finds nothing, so `urlMatch` is null, exactly when no slice of the markup is in the language |
| ManifestScan.MatchesStep | src/index.ts:118 | a non-empty scan begins with the leftmost-starting, then longest, slice in the language and resumes at its end |
| ManifestScan.NoSchemeNoMatches | src/index.ts:118-119 | markup without an `http://` or `https://` has no match, so `urlMatch` is null |
| Dedup.UniqueHasSameElements | src/index.ts:122 | the de-duplicated list holds exactly the values of the input |
| Dedup.UniqueHasNoDuplicates | src/index.ts:122 | the de-duplicated list has no repeated value |
| Dedup.UniqueFollowsFirstOccurrence | src/index.ts:122 | the values are ordered by their first occurrence in the input |
| Dedup.UniqueInOrder | src/index.ts:122 | building the `Set` and spreading it yields the reference de-duplication |
| Collector.YieldingPositionsExact | src/index.ts:107-113 | the positions that yield an entry increase, and they are exactly the buttons with a non-empty `data-url` |
| Collector.PrimaryLinksOnePerYieldingButton | src/index.ts:102-114 | one entry per button with a non-empty `data-url`, in document order, each with the trimmed text and the attribute; so there are at most as many entries as buttons |
| Collector.PrimaryLinksEmptyWithoutUrls | src/index.ts:109-110 | buttons that all lack a `data-url` give no entry |
| Collector.FallbackLinksAreUniqueMatches | src/index.ts:115-129 | the fallback's links are the regex matches with repeats removed: each link is a manifest URL labelled "auto", no link repeats, the links are exactly the matches, and they follow first occurrence |
| Collector.FallbackEmptyIffNoUrl | src/index.ts:117-129 | the fallback gives no link exactly when no slice of the markup is a manifest URL |
| Collector.CollectedIgnoresMarkupWhenButtonsExist | src/index.ts:105-115 | with at least one button the markup is never consulted; buttons all lacking `data-url` give an empty result, not the fallback |
| Collector.CollectPrimary | src/index.ts:107-114 | the `forEach` loop returns the primary rule's result |
| Collector.CollectFallback | src/index.ts:117-129 | the scan, the de-duplication and the `forEach` loop return the fallback rule's result |
| Collector.Collect | src/index.ts:102-130 | the primary rule applies when there is a button, the fallback rule when there is none |
| Sandbox.ContainerMarkup | src/index.ts:84 | the body markup has the fragment verbatim right after the container's opening tag |
| Sandbox.ThrowsAreSwallowed | src/index.ts:88-97 | whether a script throws never changes the resulting DOM; only the changes the scripts make count |
| Sandbox.AfterScriptsSplits | src/index.ts:88-97 | a throwing script does not stop later scripts: running a list is running a prefix and then the rest |
| Sandbox.RunScripts | src/index.ts:87-97 | the loop visits the `script` elements taken once before it, reads each `textContent` at that script's turn in the DOM the earlier scripts left, and evaluates every non-empty body, whether or not earlier ones threw |
| Extract.NoFragmentSkipsSandbox | src/index.ts:45-54 | without a fragment the result is empty and does not depend on the sandbox, so no sandbox step runs |
| Extract.DecodedDependsOnlyOnFragment | src/index.ts:84 | the page affects the result only through the located fragment |
| Extract.DecodedFollowsCollector | src/index.ts:84-130 | with a fragment, the result is the primary rule on the sandbox's document when it has a button, the fallback otherwise |
| Extract.FetchAndDecode | src/index.ts:33-148 | a fetch that throws, or a page without a fragment, gives `[]`; otherwise the result is that of collection after seeding, scripts and settling |
| Endpoint.Status | src/index.ts:162-172 | the handler only ever sends 200, 400, 404 or 500 |
| Endpoint.HandleExtract | src/index.ts:158-174 | 400 exactly when `url` is missing or empty; 404 with `source` equal to the url when no link is found; 200 exactly when links are found, carrying exactly those links; 500 exactly when the pipeline rejects, carrying its message |
| Endpoint.MissingUrlSkipsPipeline | src/index.ts:161-163 | a missing `url` is answered without the pipeline: any two pipelines give the same response |
| Endpoint.ModelledPipelineNeverFails | src/index.ts:144-147 | through the modelled `fetchAndDecode`, which catches its own errors, the handler never answers 500 |
| Endpoint.PageWithoutMarkerIsNotFound | src/index.ts:45-54 | a fetched page without the start marker gives 404 "No video links found." with the requested url as `source` |

## Left out

- Network I/O. The `node-fetch` call and its header bundle (src/index.ts:8-26, 39-41) become the `Fetched` value: the body text, or a thrown transport error.
- happy-dom. Window construction, its settings, and the mocks of `fetch`, `getContext`, `scrollIntoView` and `alert` (src/index.ts:59-80) are foreign code. They appear only as the functions of `Sandbox<D, H>`: load, the script elements, their text, eval, settle and observe. What the mocks do for the scripts is not modelled.
- Script semantics. What `window.eval` does to the DOM is an arbitrary function. The model states only that errors are swallowed per script and that empty bodies are skipped.
- Sandbox.RunScripts: happy-dom mutates one DOM in place. The model threads a DOM value through the loop, so aliasing between the window and the document is not modelled.
- Timing. The 1000 ms `setTimeout`, `Date.now`, and the `toFixed` formatting of the elapsed time (src/index.ts:35, 100-141) are left out. The settle delay is the `settle` function of the sandbox.
- An exception thrown inside the timer callback, for instance when a script has removed `document.body` so that line 117 throws. It is thrown on Node's global `setTimeout` (line 101), outside every `try`. By default an uncaught exception ends the Node process. The model's collector cannot throw.
- A throw from the DOM library itself: `new Window`, the `innerHTML` assignment and `querySelectorAll` (src/index.ts:59-87) are taken never to throw. In the source such a throw is caught at line 144 and gives `[]`.
- `window.close()` (src/index.ts:139) and all logging, including the Cloudflare and "Access denied" checks (src/index.ts:48-52). They only log and change no result.
- Server plumbing. The Express app, the `/` page, `app.listen` and the `NODE_ENV` switch (src/index.ts:5-6, 150-156, 176-184) are left out. A `url` query parameter given as an array or object is not modelled: the model's `url` is an optional string.
- Text.Trim: Dafny `char` is a Unicode scalar value, while JavaScript strings are UTF-16 code units. The whitespace set is the ECMAScript WhiteSpace and LineTerminator set, and since all of it lies in the Basic Multilingual Plane, trimming agrees on every well-formed string.
- ManifestScan.Matches: it assumes the same UTF-16 versus scalar-value correspondence. A lone surrogate in the markup is not modelled.
