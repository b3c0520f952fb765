/** The result collector run by the `setTimeout` callback
    (src/index.ts:102-130). */
module Collector {
  import opened Text
  import opened Links
  import opened ManifestScan
  import opened Dedup

  const AUTO_QUALITY: string := "auto"

  /** `if (link)`: a missing or empty `data-url` yields no entry. */
  predicate Yields(b: Button)
  {
    b.dataUrl.Some? && b.dataUrl.value != ""
  }

  function EntryOf(b: Button): ExtractedLink
    requires Yields(b)
  {
    ExtractedLink(Trim(b.text), b.dataUrl.value)
  }

  /** The primary rule, as the `buttons.forEach` loop builds it. */
  function PrimaryLinks(buttons: seq<Button>): seq<ExtractedLink>
  {
    if buttons == [] then []
    else
      var earlier := PrimaryLinks(buttons[..|buttons| - 1]);
      var b := buttons[|buttons| - 1];
      if Yields(b) then earlier + [EntryOf(b)] else earlier
  }

  /** The positions of the buttons that yield an entry, in document order. */
  ghost function YieldingPositions(buttons: seq<Button>): seq<nat>
  {
    if buttons == [] then []
    else
      var earlier := YieldingPositions(buttons[..|buttons| - 1]);
      if Yields(buttons[|buttons| - 1]) then earlier + [|buttons| - 1] else earlier
  }

  /** The yielding positions are increasing, and they are exactly the
      positions of the buttons that yield an entry. */
  lemma {:induction false} YieldingPositionsExact(buttons: seq<Button>)
    ensures forall j :: 0 <= j < |YieldingPositions(buttons)| ==>
              YieldingPositions(buttons)[j] < |buttons| && Yields(buttons[YieldingPositions(buttons)[j]])
    ensures forall j, k :: 0 <= j < k < |YieldingPositions(buttons)| ==>
              YieldingPositions(buttons)[j] < YieldingPositions(buttons)[k]
    ensures forall i :: 0 <= i < |buttons| && Yields(buttons[i]) ==> i in YieldingPositions(buttons)
  {
    if buttons != [] {
      var init := buttons[..|buttons| - 1];
      YieldingPositionsExact(init);
      assert forall i :: 0 <= i < |init| ==> init[i] == buttons[i];
    }
  }

  /** The primary result has exactly one entry per yielding button, in
      document order, each with the trimmed label and the attribute. */
  lemma {:induction false} PrimaryLinksOnePerYieldingButton(buttons: seq<Button>)
    ensures |PrimaryLinks(buttons)| == |YieldingPositions(buttons)| <= |buttons|
    ensures forall j :: 0 <= j < |YieldingPositions(buttons)| ==>
              YieldingPositions(buttons)[j] < |buttons|
              && Yields(buttons[YieldingPositions(buttons)[j]])
              && PrimaryLinks(buttons)[j] == EntryOf(buttons[YieldingPositions(buttons)[j]])
  {
    YieldingPositionsExact(buttons);
    if buttons != [] {
      var init := buttons[..|buttons| - 1];
      PrimaryLinksOnePerYieldingButton(init);
      YieldingPositionsExact(init);
      var ps, ps0 := YieldingPositions(buttons), YieldingPositions(init);
      var r, r0 := PrimaryLinks(buttons), PrimaryLinks(init);
      forall j | 0 <= j < |ps|
        ensures r[j] == EntryOf(buttons[ps[j]])
      {
        if j < |ps0| {
          assert ps[j] == ps0[j] && r[j] == r0[j];
          assert init[ps0[j]] == buttons[ps0[j]];
        }
      }
    }
  }

  /** Buttons none of which carries a `data-url` give an empty result. */
  lemma {:induction false} PrimaryLinksEmptyWithoutUrls(buttons: seq<Button>)
    requires forall i :: 0 <= i < |buttons| ==> !Yields(buttons[i])
    ensures PrimaryLinks(buttons) == []
  {
    if buttons != [] {
      PrimaryLinksEmptyWithoutUrls(buttons[..|buttons| - 1]);
    }
  }

  /** The fallback rule: every distinct manifest URL of the markup, in the
      order of first occurrence, labelled "auto". */
  function FallbackLinks(markup: string): seq<ExtractedLink>
  {
    var unique := Unique(Matches(markup, 0));
    seq(|unique|, k requires 0 <= k < |unique| => ExtractedLink(AUTO_QUALITY, unique[k]))
  }

  /** The fallback's links are the matches of the scan with repetitions
      removed; hence each is a manifest URL, none repeats, every match is
      present, they follow first occurrence, and each is labelled "auto". */
  lemma FallbackLinksAreUniqueMatches(markup: string)
    ensures LinksOf(FallbackLinks(markup)) == Unique(Matches(markup, 0))
    ensures forall k :: 0 <= k < |FallbackLinks(markup)| ==>
              FallbackLinks(markup)[k].quality == AUTO_QUALITY
              && IsManifestUrl(FallbackLinks(markup)[k].link)
    ensures NoDuplicates(LinksOf(FallbackLinks(markup)))
    ensures forall m :: m in LinksOf(FallbackLinks(markup)) <==> m in Matches(markup, 0)
    ensures forall a, b :: 0 <= a < b < |FallbackLinks(markup)| ==>
              FirstIndex(Matches(markup, 0), FallbackLinks(markup)[a].link)
              < FirstIndex(Matches(markup, 0), FallbackLinks(markup)[b].link)
  {
    var ms := Matches(markup, 0);
    var r := FallbackLinks(markup);
    assert LinksOf(r) == Unique(ms);
    UniqueHasSameElements(ms);
    UniqueHasNoDuplicates(ms);
    UniqueFollowsFirstOccurrence(ms);
  }

  /** `urlMatch` is null, and the fallback gives nothing, exactly when no
      slice of the markup is a manifest URL. */
  lemma FallbackEmptyIffNoUrl(markup: string)
    ensures FallbackLinks(markup) == []
            <==> forall i, e :: 0 <= i < e <= |markup| ==> !IsManifestUrl(markup[i..e])
  {
    var ms := Matches(markup, 0);
    MatchesEmptyIff(markup, 0);
    UniqueHasSameElements(ms);
    if ms != [] {
      assert ms[0] in Unique(ms);
    }
  }

  /** The collector's result, as the callback computes it: the primary rule
      when there is at least one `hd_btn` button, the fallback otherwise. */
  function Collected(doc: MutatedDocument): seq<ExtractedLink>
  {
    if |doc.buttons| > 0 then PrimaryLinks(doc.buttons) else FallbackLinks(doc.bodyMarkup)
  }

  /** With at least one button the markup is never consulted: buttons that
      all lack a `data-url` give an empty result, not the fallback. */
  lemma CollectedIgnoresMarkupWhenButtonsExist(doc: MutatedDocument, otherMarkup: string)
    requires |doc.buttons| > 0
    ensures Collected(doc) == Collected(doc.(bodyMarkup := otherMarkup))
    ensures (forall i :: 0 <= i < |doc.buttons| ==> !Yields(doc.buttons[i])) ==> Collected(doc) == []
  {
    if forall i :: 0 <= i < |doc.buttons| ==> !Yields(doc.buttons[i]) {
      PrimaryLinksEmptyWithoutUrls(doc.buttons);
    }
  }

  /** The `buttons.forEach` loop pushing into `results`. */
  method CollectPrimary(buttons: seq<Button>) returns (results: seq<ExtractedLink>)
    ensures results == PrimaryLinks(buttons)
  {
    results := [];
    for i := 0 to |buttons|
      invariant results == PrimaryLinks(buttons[..i])
    {
      var btn := buttons[i];
      var quality := Trim(btn.text);
      var link := btn.dataUrl;
      if link.Some? && link.value != "" {
        results := results + [ExtractedLink(quality, link.value)];
      }
      assert buttons[..i + 1][..i] == buttons[..i];
    }
    assert buttons[..|buttons|] == buttons;
  }

  /** The fallback branch: the scan, the ordered de-duplication and the
      `uniqueLinks.forEach` loop pushing into `results`. */
  method CollectFallback(markup: string) returns (results: seq<ExtractedLink>)
    ensures results == FallbackLinks(markup)
  {
    var urlMatch := Matches(markup, 0);
    results := [];
    if |urlMatch| > 0 {
      var uniqueLinks := UniqueInOrder(urlMatch);
      for i := 0 to |uniqueLinks|
        invariant |results| == i
        invariant forall k :: 0 <= k < i ==> results[k] == ExtractedLink(AUTO_QUALITY, uniqueLinks[k])
      {
        results := results + [ExtractedLink(AUTO_QUALITY, uniqueLinks[i])];
      }
    }
  }

  /** The whole callback body: primary rule if and only if a button exists. */
  method Collect(doc: MutatedDocument) returns (results: seq<ExtractedLink>)
    ensures results == Collected(doc)
    ensures |doc.buttons| > 0 ==> results == PrimaryLinks(doc.buttons)
    ensures |doc.buttons| == 0 ==> results == FallbackLinks(doc.bodyMarkup)
  {
    var buttons := doc.buttons;
    if |buttons| > 0 {
      results := CollectPrimary(buttons);
    } else {
      results := CollectFallback(doc.bodyMarkup);
    }
  }
}
