/** The fragment locator of `fetchAndDecode` (src/index.ts:43-54): the lazy
    regular expression `<div class="quality_change">([\s\S]*?)</button></div>`
    applied once to the fetched page. */
module Fragment {
  import opened Wrappers
  import opened Text

  const START_MARKER: string := "<div class=\"quality_change\">"
  const END_MARKER: string := "</button></div>"

  /** The whole match (`match[0]`) and the index where it begins. */
  datatype Located = Located(start: nat, text: string)

  /** `f` is what `open([\s\S]*?)close` matches in `html`: a slice that
      starts at the first `open`, ends with a `close`, and holds no `close`
      between the two (the lazy `[\s\S]*?`). */
  predicate IsLeftmostMatch(html: string, open: string, close: string, f: Located)
  {
    f.start + |f.text| <= |html| && f.text == html[f.start..f.start + |f.text|]
    && |open| + |close| <= |f.text|
    && StartsWith(f.text, open) && EndsWith(f.text, close)
    && OccursAt(html, open, f.start)
    && OccursAt(html, close, f.start + |f.text| - |close|)
    && (forall k :: 0 <= k < f.start ==> !OccursAt(html, open, k))
    && (forall k :: f.start + |open| <= k < f.start + |f.text| - |close|
          ==> !OccursAt(html, close, k))
  }

  /** The leftmost match of `open([\s\S]*?)close`: the first `open`, then
      the first `close` after it. A later `open` can never succeed when the
      first one fails, because the `close`s after it are a subset; so there
      is no match exactly when no `open` is followed by a `close`. */
  function LeftmostMatch(html: string, open: string, close: string): (r: Option<Located>)
    ensures r.Some? ==> IsLeftmostMatch(html, open, close, r.value)
    ensures r.None? ==> forall i, j :: OccursAt(html, open, i) && i + |open| <= j
                                       ==> !OccursAt(html, close, j)
  {
    match FindFrom(html, open, 0)
    case None => None
    case Some(i) =>
      match FindFrom(html, close, i + |open|)
      case None => None
      case Some(j) =>
        FirstMarkersMatch(html, open, close, i, j);
        Some(Located(i, html[i..j + |close|]))
  }

  /** `html.match(regex)` with the fragment's markers. */
  function Locate(html: string): (r: Option<Located>)
    ensures r.Some? ==> IsLeftmostMatch(html, START_MARKER, END_MARKER, r.value)
    ensures r.None? ==> forall i, j :: OccursAt(html, START_MARKER, i) && i + |START_MARKER| <= j
                                       ==> !OccursAt(html, END_MARKER, j)
  {
    LeftmostMatch(html, START_MARKER, END_MARKER)
  }

  /** The locator finds a fragment whenever a start marker is followed,
      without overlap, by an end marker. */
  lemma LocateSucceedsWhenMarkersPresent(html: string, i: nat, j: nat)
    requires OccursAt(html, START_MARKER, i)
    requires i + |START_MARKER| <= j && OccursAt(html, END_MARKER, j)
    ensures Locate(html).Some?
    ensures Locate(html).value.start <= i
  {
  }

  /** The first `open` and the first `close` after it bound the leftmost
      match. */
  lemma {:induction false} FirstMarkersMatch(html: string, open: string, close: string, i: nat, j: nat)
    requires FindFrom(html, open, 0) == Some(i)
    requires FindFrom(html, close, i + |open|) == Some(j)
    ensures IsLeftmostMatch(html, open, close, Located(i, html[i..j + |close|]))
  {
    MarkersBracketSlice(html, open, close, i, j);
    var f := Located(i, html[i..j + |close|]);
    assert f.start + |f.text| - |close| == j;
  }

  /** The slice from an `open` to the end of a later `close` begins and
      ends with them. */
  lemma MarkersBracketSlice(html: string, open: string, close: string, i: nat, j: nat)
    requires OccursAt(html, open, i) && OccursAt(html, close, j) && i + |open| <= j
    ensures StartsWith(html[i..j + |close|], open) && EndsWith(html[i..j + |close|], close)
  {
    var text := html[i..j + |close|];
    assert text[..|open|] == html[i..i + |open|];
    assert text[|text| - |close|..] == html[j..j + |close|];
  }

  /** No start marker at all: nothing is located. */
  lemma LocateFailsWithoutStartMarker(html: string)
    requires forall k :: !OccursAt(html, START_MARKER, k)
    ensures Locate(html).None?
  {
  }
}
