/** The fallback scan of the collector (src/index.ts:117-118):
    `docContent.match(/https?:\/\/[^"']+\.m3u8/g)`, written out as the
    regular expression engine runs it. A global match scans left to right;
    at each position it tries `https://` (the greedy `s?` first) and then
    `http://`; `[^"']+` first takes the longest quote-free run and then
    gives characters back until `.m3u8` follows; after a match the scan
    resumes at its end. */
module ManifestScan {
  import opened Wrappers
  import opened Text

  const SECURE_SCHEME: string := "https://"
  const PLAIN_SCHEME: string := "http://"
  const EXTENSION: string := ".m3u8"

  predicate IsQuote(c: char)
  {
    c == '"' || c == '\''
  }

  predicate QuoteFree(u: string)
  {
    forall k :: 0 <= k < |u| ==> !IsQuote(u[k])
  }

  /** The language of the regular expression: `https://` or `http://`, at
      least one further character before the final `.m3u8`, and no quote
      anywhere (the scheme and the extension hold none). */
  predicate IsManifestUrl(u: string)
  {
    ((StartsWith(u, SECURE_SCHEME) && |SECURE_SCHEME| + 1 + |EXTENSION| <= |u|)
     || (StartsWith(u, PLAIN_SCHEME) && |PLAIN_SCHEME| + 1 + |EXTENSION| <= |u|))
    && EndsWith(u, EXTENSION)
    && QuoteFree(u)
  }

  /** `s[q..e]` is what `[^"']+\.m3u8` can match starting at `q`. */
  predicate IsTail(s: string, q: nat, e: nat)
  {
    q + 1 + |EXTENSION| <= e <= |s| && OccursAt(s, EXTENSION, e - |EXTENSION|)
    && forall k :: q <= k < e ==> !IsQuote(s[k])
  }

  lemma LiteralsQuoteFree()
    ensures QuoteFree(SECURE_SCHEME) && QuoteFree(PLAIN_SCHEME) && QuoteFree(EXTENSION)
  {
  }

  /** The end of the longest quote-free run starting at `q`. */
  function QuoteFreeEnd(s: string, q: nat): (e: nat)
    requires q <= |s|
    ensures q <= e <= |s|
    ensures forall k :: q <= k < e ==> !IsQuote(s[k])
    ensures e == |s| || IsQuote(s[e])
    decreases |s| - q
  {
    if q == |s| || IsQuote(s[q]) then q else QuoteFreeEnd(s, q + 1)
  }

  /** The greatest `m` with `lo <= m <= hi` at which the extension occurs:
      the first one backtracking reaches. */
  function LastExtensionAt(s: string, lo: nat, hi: nat): (r: Option<nat>)
    ensures r.Some? ==> lo <= r.value <= hi && OccursAt(s, EXTENSION, r.value)
    ensures r.Some? ==> forall k :: r.value < k <= hi ==> !OccursAt(s, EXTENSION, k)
    ensures r.None? ==> forall k :: lo <= k <= hi ==> !OccursAt(s, EXTENSION, k)
    decreases hi
  {
    if hi < lo then None
    else if OccursAt(s, EXTENSION, hi) then Some(hi)
    else if hi == lo then None
    else LastExtensionAt(s, lo, hi - 1)
  }

  /** An extension inside the quote-free run ends a tail. */
  lemma ExtensionInRun(s: string, q: nat, m: nat)
    requires q <= |s| && q + 1 <= m <= QuoteFreeEnd(s, q)
    requires OccursAt(s, EXTENSION, m)
    ensures IsTail(s, q, m + |EXTENSION|)
  {
    LiteralsQuoteFree();
    forall k | m <= k < m + |EXTENSION|
      ensures !IsQuote(s[k])
    {
      assert s[k] == s[m..m + |EXTENSION|][k - m] == EXTENSION[k - m];
    }
  }

  /** Where `[^"']+\.m3u8` stops when it starts at `q`: the greedy run
      backs off to its last `.m3u8`, so the end is the greatest tail end,
      and there is none exactly when the run holds no `.m3u8` after its
      first character. */
  function TailEnd(s: string, q: nat): (r: Option<nat>)
    requires q <= |s|
    ensures r.Some? ==> IsTail(s, q, r.value)
    ensures r.Some? ==> forall e: nat :: r.value < e ==> !IsTail(s, q, e)
    ensures r.None? ==> forall e: nat :: !IsTail(s, q, e)
  {
    var run := QuoteFreeEnd(s, q);
    match LastExtensionAt(s, q + 1, run)
    case None => None
    case Some(m) =>
      ExtensionInRun(s, q, m);
      Some(m + |EXTENSION|)
  }

  /** With `scheme` at `i`, the slice `s[i..e]` is a match through that
      scheme exactly when the rest of it is a tail. */
  lemma {:induction false} SchemeThenTail(s: string, i: nat, scheme: string, e: nat)
    requires OccursAt(s, scheme, i) && QuoteFree(scheme)
    requires i <= e <= |s|
    ensures (StartsWith(s[i..e], scheme) && |scheme| + 1 + |EXTENSION| <= |s[i..e]|
             && EndsWith(s[i..e], EXTENSION) && QuoteFree(s[i..e]))
            <==> IsTail(s, i + |scheme|, e)
  {
    var u := s[i..e];
    assert forall k :: 0 <= k < |u| ==> u[k] == s[i + k];
    if |u| >= |scheme| {
      assert u[..|scheme|] == s[i..i + |scheme|];
    }
    if |u| >= |EXTENSION| {
      assert u[|u| - |EXTENSION|..] == s[e - |EXTENSION|..e];
    }
    if IsTail(s, i + |scheme|, e) {
      forall k | 0 <= k < |u|
        ensures !IsQuote(u[k])
      {
        if k < |scheme| {
          assert u[k] == s[i..i + |scheme|][k] == scheme[k];
        }
      }
    }
  }

  /** Which slices starting at `i` are matches: `https://` is tried first,
      and the two schemes exclude each other at one position. */
  lemma {:induction false} UrlAt(s: string, i: nat, e: nat)
    requires i <= e <= |s|
    ensures IsManifestUrl(s[i..e])
            <==> (OccursAt(s, SECURE_SCHEME, i) && IsTail(s, i + |SECURE_SCHEME|, e))
                 || (!OccursAt(s, SECURE_SCHEME, i) && OccursAt(s, PLAIN_SCHEME, i)
                     && IsTail(s, i + |PLAIN_SCHEME|, e))
  {
    LiteralsQuoteFree();
    var u := s[i..e];
    if |u| >= |SECURE_SCHEME| {
      assert u[..|SECURE_SCHEME|] == s[i..i + |SECURE_SCHEME|];
    }
    if |u| >= |PLAIN_SCHEME| {
      assert u[..|PLAIN_SCHEME|] == s[i..i + |PLAIN_SCHEME|];
    }
    if OccursAt(s, SECURE_SCHEME, i) {
      SchemeThenTail(s, i, SECURE_SCHEME, e);
      assert s[i + 4] == SECURE_SCHEME[4] != PLAIN_SCHEME[4];
      if StartsWith(u, PLAIN_SCHEME) {
        assert u[4] == s[i + 4];
      }
    } else if OccursAt(s, PLAIN_SCHEME, i) {
      SchemeThenTail(s, i, PLAIN_SCHEME, e);
    }
  }

  /** The end of the match that starts at `i`: the longest slice from `i`
      in the language, or None when no slice from `i` is in it. */
  function MatchAt(s: string, i: nat): (r: Option<nat>)
    requires i <= |s|
    ensures r.Some? ==> i < r.value <= |s| && IsManifestUrl(s[i..r.value])
    ensures r.Some? ==> forall e :: r.value < e <= |s| ==> !IsManifestUrl(s[i..e])
    ensures r.None? ==> forall e :: i < e <= |s| ==> !IsManifestUrl(s[i..e])
  {
    forall e | i <= e <= |s| {
      UrlAt(s, i, e);
    }
    if OccursAt(s, SECURE_SCHEME, i) then TailEnd(s, i + |SECURE_SCHEME|)
    else if OccursAt(s, PLAIN_SCHEME, i) then TailEnd(s, i + |PLAIN_SCHEME|)
    else None
  }

  /** Every match of the global scan from position `p` on, in order. */
  function Matches(s: string, p: nat): (ms: seq<string>)
    requires p <= |s|
    ensures forall k :: 0 <= k < |ms| ==> IsManifestUrl(ms[k])
    decreases |s| - p
  {
    if p == |s| then []
    else
      match MatchAt(s, p)
      case Some(e) => [s[p..e]] + Matches(s, e)
      case None => Matches(s, p + 1)
  }

  /** The scan finds nothing, so `match` gives null, exactly when no slice
      of the markup from `p` on is in the language. */
  lemma {:induction false} MatchesEmptyIff(s: string, p: nat)
    requires p <= |s|
    ensures Matches(s, p) == [] <==> forall i, e :: p <= i < e <= |s| ==> !IsManifestUrl(s[i..e])
    decreases |s| - p
  {
    if p < |s| {
      match MatchAt(s, p)
      case Some(e) =>
      case None =>
        MatchesEmptyIff(s, p + 1);
    }
  }

  /** `s[i..e]` is the match a scan from `p` takes first: the leftmost
      start of any slice in the language, and the longest from there. */
  predicate LeftmostLongest(s: string, p: nat, i: nat, e: nat)
  {
    p <= i < e <= |s| && IsManifestUrl(s[i..e])
    && (forall j, f :: p <= j < i && j < f <= |s| ==> !IsManifestUrl(s[j..f]))
    && (forall f :: e < f <= |s| ==> !IsManifestUrl(s[i..f]))
  }

  /** A non-empty scan starts with the leftmost-longest match and resumes
      at its end; with `MatchesEmptyIff` this fixes the whole list. */
  lemma {:induction false} MatchesStep(s: string, p: nat)
    requires p <= |s| && Matches(s, p) != []
    ensures exists i: nat, e: nat :: LeftmostLongest(s, p, i, e) && Matches(s, p) == [s[i..e]] + Matches(s, e)
    decreases |s| - p
  {
    match MatchAt(s, p)
    case Some(e) =>
      assert LeftmostLongest(s, p, p, e);
    case None =>
      MatchesStep(s, p + 1);
      var i: nat, e: nat :| LeftmostLongest(s, p + 1, i, e) && Matches(s, p + 1) == [s[i..e]] + Matches(s, e);
      assert LeftmostLongest(s, p, i, e);
  }

  /** A markup without any `http` scheme has no match. */
  lemma {:induction false} NoSchemeNoMatches(s: string, p: nat)
    requires p <= |s|
    requires forall k :: !OccursAt(s, PLAIN_SCHEME, k) && !OccursAt(s, SECURE_SCHEME, k)
    ensures Matches(s, p) == []
    decreases |s| - p
  {
    if p < |s| {
      NoSchemeNoMatches(s, p + 1);
    }
  }
}
