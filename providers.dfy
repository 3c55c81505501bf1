/**
  The two provider adapters of save_samples.py (`search_pixabay`,
  `search_pexels`) after the HTTP request: what they take from the decoded
  JSON body. A JSON key the body may lack is an `Option`; a URL is usable when
  it is truthy in Python's sense, that is present and not the empty string.
*/
module Providers {
  import opened Wrappers

  /** The counts `display_search_info` looks at. */
  datatype SearchInfo = SearchInfo(total: int, totalHits: int)

  /** One page as the controller sees it: the request failed, or it produced
      candidate URLs and the search counts. */
  datatype PageResult = RequestFailed | Fetched(urls: seq<string>, info: SearchInfo)

  /** One element of Pixabay's `hits`. */
  datatype PixabayHit = PixabayHit(largeImageURL: Option<string>, webformatURL: Option<string>)

  /** The fields of Pixabay's response body that the program reads. */
  datatype PixabayBody = PixabayBody(total: Option<int>, totalHits: Option<int>, hits: Option<seq<PixabayHit>>)

  /** Pexels' `src` object of one photo. */
  datatype PexelsSrc = PexelsSrc(original: Option<string>, large2x: Option<string>,
                                 large: Option<string>, medium: Option<string>)

  /** One element of Pexels' `photos`; `src` may be missing. */
  datatype PexelsPhoto = PexelsPhoto(src: Option<PexelsSrc>)

  /** The fields of Pexels' response body that the program reads. */
  datatype PexelsBody = PexelsBody(totalResults: Option<int>, photos: Option<seq<PexelsPhoto>>)

  /** What the request for one page produced. */
  datatype Response = Failed | Pixabay(pixabay: PixabayBody) | Pexels(pexels: PexelsBody)

  // ---------------------------------------------------------------------------
  // Python truthiness and `or`

  predicate Truthy(u: Option<string>) {
    u.Some? && u.value != ""
  }

  /** Python's `a or b`: `a` when it is truthy, else `b`. */
  function Or(a: Option<string>, b: Option<string>): (r: Option<string>)
    ensures Truthy(r) <==> Truthy(a) || Truthy(b)
    ensures Truthy(a) ==> r == a
    ensures !Truthy(a) ==> r == b
  {
    if Truthy(a) then a else b
  }

  /** `[u for u in us if u]`: the truthy candidates, in order. */
  function KeepTruthy(us: seq<Option<string>>): (r: seq<string>)
    ensures |r| <= |us|
    ensures forall k | 0 <= k < |r| :: r[k] != ""
  {
    if us == [] then []
    else (if Truthy(us[0]) then [us[0].value] else []) + KeepTruthy(us[1..])
  }

  /** Filtering keeps the order: the filter of a concatenation is the
      concatenation of the filters. */
  lemma {:induction false} KeepTruthyAppend(a: seq<Option<string>>, b: seq<Option<string>>)
    ensures KeepTruthy(a + b) == KeepTruthy(a) + KeepTruthy(b)
    decreases |a|
  {
    if a == [] {
      assert a + b == b;
    } else {
      assert (a + b)[0] == a[0];
      assert (a + b)[1..] == a[1..] + b;
      KeepTruthyAppend(a[1..], b);
    }
  }

  /** Every surviving URL is one of the candidates, and the filter drops only the
      candidates that are absent or empty. */
  lemma {:induction false} KeepTruthyMembers(us: seq<Option<string>>)
    ensures forall u :: u in KeepTruthy(us) <==> u != "" && Some(u) in us
  {
    if us != [] {
      KeepTruthyMembers(us[1..]);
      assert us == [us[0]] + us[1..];
    }
  }

  // ---------------------------------------------------------------------------
  // Pixabay

  /** `hit.get("largeImageURL") or hit.get("webformatURL")`. */
  function PixabayCandidate(hit: PixabayHit): Option<string> {
    Or(hit.largeImageURL, hit.webformatURL)
  }

  /** The candidate of each hit, in hit order. */
  function PixabayCandidates(hits: seq<PixabayHit>): (r: seq<Option<string>>)
    ensures |r| == |hits|
    ensures forall k | 0 <= k < |hits| :: r[k] == PixabayCandidate(hits[k])
  {
    if hits == [] then [] else [PixabayCandidate(hits[0])] + PixabayCandidates(hits[1..])
  }

  /** The URL list comprehension of `search_pixabay` over `data.get("hits", [])`. */
  function PixabayUrls(body: PixabayBody): (urls: seq<string>)
    ensures |urls| <= |body.hits.GetOr([])|
    ensures forall k | 0 <= k < |urls| :: urls[k] != ""
  {
    KeepTruthy(PixabayCandidates(body.hits.GetOr([])))
  }

  /** The candidates of consecutive runs of hits are consecutive. */
  lemma {:induction false} PixabayCandidatesAppend(hits: seq<PixabayHit>, more: seq<PixabayHit>)
    ensures PixabayCandidates(hits + more) == PixabayCandidates(hits) + PixabayCandidates(more)
  {
    var l, a, b := PixabayCandidates(hits + more), PixabayCandidates(hits), PixabayCandidates(more);
    assert |l| == |a + b|;
    forall k | 0 <= k < |l| ensures l[k] == (a + b)[k] {
      if k < |hits| {
        assert (hits + more)[k] == hits[k];
      } else {
        assert (hits + more)[k] == more[k - |hits|];
      }
    }
  }

  /** A hit yields `largeImageURL` when it is usable, else `webformatURL` when
      that is usable, else nothing; the URLs come in hit order, none is empty,
      and there are at most as many as hits. */
  lemma {:induction false} PixabayUrlsSpec(hits: seq<PixabayHit>, more: seq<PixabayHit>)
    ensures var urls := PixabayUrls(PixabayBody(None, None, Some(hits)));
      && |urls| <= |hits|
      && (forall k | 0 <= k < |urls| :: urls[k] != "")
    ensures PixabayUrls(PixabayBody(None, None, Some(hits + more)))
         == PixabayUrls(PixabayBody(None, None, Some(hits))) + PixabayUrls(PixabayBody(None, None, Some(more)))
    ensures forall h: PixabayHit ::
      PixabayUrls(PixabayBody(None, None, Some([h])))
        == if Truthy(h.largeImageURL) then [h.largeImageURL.value]
           else if Truthy(h.webformatURL) then [h.webformatURL.value]
           else []
  {
    PixabayCandidatesAppend(hits, more);
    KeepTruthyAppend(PixabayCandidates(hits), PixabayCandidates(more));
    forall h: PixabayHit
      ensures PixabayUrls(PixabayBody(None, None, Some([h])))
        == if Truthy(h.largeImageURL) then [h.largeImageURL.value]
           else if Truthy(h.webformatURL) then [h.webformatURL.value]
           else []
    {
      var c := PixabayCandidates([h]);
      assert c == [PixabayCandidate(h)];
      assert KeepTruthy(c) == (if Truthy(c[0]) then [c[0].value] else []) + KeepTruthy([]);
    }
  }

  /** The `search_info` of `search_pixabay`: each count is the body's, and 0
      when the body lacks it. */
  function PixabayInfo(body: PixabayBody): (info: SearchInfo)
    ensures body.total.Some? ==> info.total == body.total.value
    ensures body.totalHits.Some? ==> info.totalHits == body.totalHits.value
    ensures body.total.None? ==> info.total == 0
    ensures body.totalHits.None? ==> info.totalHits == 0
  {
    SearchInfo(body.total.GetOr(0), body.totalHits.GetOr(0))
  }

  // ---------------------------------------------------------------------------
  // Pexels

  const NoSrc := PexelsSrc(None, None, None, None)

  /** `src.get("original") or src.get("large2x") or src.get("large") or src.get("medium")`
      with `src = p.get("src", {})`. */
  function PexelsCandidate(photo: PexelsPhoto): Option<string> {
    var src := photo.src.GetOr(NoSrc);
    Or(Or(Or(src.original, src.large2x), src.large), src.medium)
  }

  /** A photo yields the first usable of original, large2x, large and medium,
      and nothing when none of the four is usable. */
  lemma PexelsPreference(photo: PexelsPhoto)
    ensures var src := photo.src.GetOr(NoSrc); var c := PexelsCandidate(photo);
      && (Truthy(c) <==> Truthy(src.original) || Truthy(src.large2x) || Truthy(src.large) || Truthy(src.medium))
      && (Truthy(src.original) ==> c == src.original)
      && (!Truthy(src.original) && Truthy(src.large2x) ==> c == src.large2x)
      && (!Truthy(src.original) && !Truthy(src.large2x) && Truthy(src.large) ==> c == src.large)
      && (!Truthy(src.original) && !Truthy(src.large2x) && !Truthy(src.large) ==> c == src.medium)
  {
  }

  /** The candidate of each photo, in photo order. */
  function PexelsCandidates(photos: seq<PexelsPhoto>): (r: seq<Option<string>>)
    ensures |r| == |photos|
    ensures forall k | 0 <= k < |photos| :: r[k] == PexelsCandidate(photos[k])
  {
    if photos == [] then [] else [PexelsCandidate(photos[0])] + PexelsCandidates(photos[1..])
  }

  /** The URLs `search_pexels` returns for a body. */
  function PexelsUrls(body: PexelsBody): (urls: seq<string>)
    ensures |urls| <= |body.photos.GetOr([])|
    ensures forall k | 0 <= k < |urls| :: urls[k] != ""
  {
    KeepTruthy(PexelsCandidates(body.photos.GetOr([])))
  }

  /** The loop of `search_pexels`: append the candidate of every photo, then keep
      the truthy ones. */
  method CollectPexelsUrls(photos: seq<PexelsPhoto>) returns (urls: seq<string>)
    ensures urls == PexelsUrls(PexelsBody(None, Some(photos)))
    ensures |urls| <= |photos| && forall k | 0 <= k < |urls| :: urls[k] != ""
  {
    var candidates: seq<Option<string>> := [];
    for i := 0 to |photos|
      invariant |candidates| == i
      invariant forall k | 0 <= k < i :: candidates[k] == PexelsCandidate(photos[k])
    {
      candidates := candidates + [PexelsCandidate(photos[i])];
    }
    assert candidates == PexelsCandidates(photos);
    urls := [];
    for i := 0 to |candidates|
      invariant urls == KeepTruthy(candidates[..i])
    {
      KeepTruthyAppend(candidates[..i], [candidates[i]]);
      assert candidates[..i + 1] == candidates[..i] + [candidates[i]];
      if Truthy(candidates[i]) {
        urls := urls + [candidates[i].value];
      }
    }
    assert candidates[..|candidates|] == candidates;
  }

  /** The `search_info` of `search_pexels`: both counts are `total_results`
      (0 when missing), so they never differ. */
  function PexelsInfo(body: PexelsBody): (info: SearchInfo)
    ensures info.total == info.totalHits
    ensures body.totalResults.Some? ==> info.total == body.totalResults.value
    ensures body.totalResults.None? ==> info.total == 0
  {
    SearchInfo(body.totalResults.GetOr(0), body.totalResults.GetOr(0))
  }

  // ---------------------------------------------------------------------------

  /** What the adapter hands back to the controller for one response. */
  function Extract(response: Response): (r: PageResult)
    ensures r.RequestFailed? <==> response.Failed?
    ensures r.Fetched? ==> forall k | 0 <= k < |r.urls| :: r.urls[k] != ""
    ensures response.Pixabay? ==> |r.urls| <= |response.pixabay.hits.GetOr([])|
    ensures response.Pexels? ==> |r.urls| <= |response.pexels.photos.GetOr([])|
                                 && r.info.total == r.info.totalHits
  {
    match response
    case Failed => RequestFailed
    case Pixabay(body) => Fetched(PixabayUrls(body), PixabayInfo(body))
    case Pexels(body) => Fetched(PexelsUrls(body), PexelsInfo(body))
  }

  /** The adapter step as the program runs it, with the Pexels loop. */
  method Search(response: Response) returns (result: PageResult)
    ensures result == Extract(response)
  {
    match response
    case Failed =>
      result := RequestFailed;
    case Pixabay(body) =>
      result := Fetched(PixabayUrls(body), PixabayInfo(body));
    case Pexels(body) =>
      var urls := CollectPexelsUrls(body.photos.GetOr([]));
      result := Fetched(urls, PexelsInfo(body));
  }
}
