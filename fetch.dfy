/** download_asset_json: which address is requested for an asset URL. The
    request itself is an oracle supplied by the caller. */
module Fetch {
  import opened Wrappers
  import opened JsonValue
  import opened Text

  /** Appended to the stripped asset URL to ask for its JSON rendition. */
  const JsonSuffix := ".2.json"

  /** The address requested for an asset URL. */
  function FetchTarget(url: string): (t: string)
    ensures |t| == |Strip(url)| + |JsonSuffix|
    ensures t[..|Strip(url)|] == Strip(url) && t[|Strip(url)|..] == JsonSuffix
  {
    Strip(url) + JsonSuffix
  }

  /** The response to one GET request: the decoded JSON body when the status is
      below 400, None for an HTTP error. */
  type Server = string -> Option<Json>

  /** download_asset_json(url) against a server. */
  function DownloadAssetJson(url: string, server: Server): Option<Json> {
    server(FetchTarget(url))
  }

  /** Two asset URLs are fetched from the same address exactly when they agree
      once stripped. */
  lemma FetchTargetSameIff(u1: string, u2: string)
    ensures FetchTarget(u1) == FetchTarget(u2) <==> Strip(u1) == Strip(u2)
  {
    if FetchTarget(u1) == FetchTarget(u2) {
      assert Strip(u1) == FetchTarget(u1)[..|FetchTarget(u1)| - |JsonSuffix|];
    }
  }

  /** Whitespace around the URL in the input cell never changes the request. */
  lemma FetchTargetIgnoresPadding(w1: string, url: string, w2: string)
    requires AllWs(w1) && AllWs(w2)
    ensures FetchTarget(w1 + url + w2) == FetchTarget(url)
  {
    StripIgnoresPadding(w1, url, w2);
  }
}
