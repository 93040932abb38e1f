/** The override script (assets/js/proxy-override.js): it wraps the page's
    `fetch` so that requests to the PDDIKTI API go through the site's own
    proxy, and it installs its own `searchMahasiswa` that tries that proxy
    first, falls back to the AllOrigins relay, and otherwise answers with an
    empty list. The network is a transport function from URL to outcome. */
module ProxyOverride {
  import opened Wrappers
  import opened Text
  import opened Json
  import opened Http
  import Uri
  import Search

  // The addresses are written as scheme, host and path so that the hosts
  // can be compared character by character.
  const PddiktiHost := "api-pddikti.ridwaanhall.com"
  const ProxyHost := "galeri-unmul.vercel.app"
  const AllOriginsHost := "api.allorigins.win"

  const ApiBase := "https://" + PddiktiHost + "/search/mhs/"
  const ProxyBase := "https://" + ProxyHost + "/api/pddikti-proxy?url="
  const PddiktiOrigin := "https://" + PddiktiHost + "/"
  const AllOriginsBase := "https://" + AllOriginsHost + "/raw?url="

  // ---------------------------------------------------------------------
  // The wrapped fetch
  // ---------------------------------------------------------------------

  /** The first argument of `fetch`: a URL string, a request-like object
      with or without a string `url`, or anything else (a URL object, null). */
  datatype FetchInput = UrlText(text: string) | RequestLike(url: Option<string>) | OtherInput

  /** The URL the wrapper inspects; "" when the input carries none. */
  function InspectedUrl(input: FetchInput): (url: string)
    ensures input.UrlText? ==> url == input.text
    ensures input.RequestLike? ==> url == (if input.url.Some? then input.url.value else "")
    ensures input.OtherInput? ==> url == ""
  {
    match input
    case UrlText(text) => text
    case RequestLike(url) => if url.Some? then url.value else ""
    case OtherInput => ""
  }

  /** `url.startsWith('https://api-pddikti.ridwaanhall.com/')`. */
  function IsPddikti(url: string): (b: bool)
    ensures b <==> |url| >= |PddiktiOrigin| && url[..|PddiktiOrigin|] == PddiktiOrigin
  {
    PddiktiOrigin <= url
  }

  /** The proxy address carrying `url`, encoded, as its `url` parameter. */
  function ProxiedUrl(url: string): (r: string)
    ensures ProxyBase <= r && |r| >= |ProxyBase| + |url|
  {
    ProxyBase + Uri.EncodeURIComponent(url)
  }

  /** The AllOrigins address carrying `url`, encoded, as its `url` parameter. */
  function AllOriginsUrl(url: string): (r: string)
    ensures AllOriginsBase <= r && |r| >= |AllOriginsBase| + |url|
  {
    AllOriginsBase + Uri.EncodeURIComponent(url)
  }

  /** Nothing of the URL is lost: different URLs give different proxy
      addresses. */
  lemma ProxiedUrlInjective(u1: string, u2: string)
    requires ProxiedUrl(u1) == ProxiedUrl(u2)
    ensures u1 == u2
  {
    assert Uri.EncodeURIComponent(u1) == ProxiedUrl(u1)[|ProxyBase|..];
    assert Uri.EncodeURIComponent(u2) == ProxiedUrl(u2)[|ProxyBase|..];
    Uri.EncodeInjective(u1, u2);
  }

  /** Nothing of the URL is lost: different URLs give different AllOrigins
      addresses. */
  lemma AllOriginsUrlInjective(u1: string, u2: string)
    requires AllOriginsUrl(u1) == AllOriginsUrl(u2)
    ensures u1 == u2
  {
    assert Uri.EncodeURIComponent(u1) == AllOriginsUrl(u1)[|AllOriginsBase|..];
    assert Uri.EncodeURIComponent(u2) == AllOriginsUrl(u2)[|AllOriginsBase|..];
    Uri.EncodeInjective(u1, u2);
  }

  /** The first argument the wrapped `fetch` hands to the original one: a
      PDDIKTI URL, whether given as a string or inside a request object, is
      replaced by the proxy URL carrying it encoded; every other input is
      passed on as it came. */
  function Reroute(input: FetchInput): (out: FetchInput)
    ensures IsPddikti(InspectedUrl(input)) ==> out == UrlText(ProxiedUrl(InspectedUrl(input)))
    ensures !IsPddikti(InspectedUrl(input)) ==> out == input
    ensures out != input ==> out.UrlText? && ProxyBase <= out.text
  {
    var url := InspectedUrl(input);
    if IsPddikti(url) then UrlText(ProxiedUrl(url)) else input
  }

  /** A URL that differs from the PDDIKTI origin at some character within
      the origin's length is passed through unchanged. */
  lemma NotRerouted(base: string, rest: string, i: nat)
    requires i < |base| && i < |PddiktiOrigin| && base[i] != PddiktiOrigin[i]
    ensures !IsPddikti(base + rest)
    ensures Reroute(UrlText(base + rest)) == UrlText(base + rest)
  {
    assert (base + rest)[i] == base[i];
  }

  /** The proxy URL starts with another host than the PDDIKTI API's. */
  lemma ProxiedNotRerouted(url: string)
    ensures Reroute(UrlText(ProxiedUrl(url))) == UrlText(ProxiedUrl(url))
  {
    assert ProxyBase[8] == ProxyHost[0];
    NotRerouted(ProxyBase, Uri.EncodeURIComponent(url), 8);
  }

  /** Rerouting happens at most once: the proxy URL it produces is left
      alone by a second pass through the wrapper. */
  lemma RerouteIdempotent(input: FetchInput)
    ensures Reroute(Reroute(input)) == Reroute(input)
  {
    if IsPddikti(InspectedUrl(input)) {
      ProxiedNotRerouted(InspectedUrl(input));
    }
  }

  /** The AllOrigins request the fallback makes passes through the wrapper
      unchanged. */
  lemma AllOriginsNotRerouted(url: string)
    ensures Reroute(UrlText(AllOriginsUrl(url))) == UrlText(AllOriginsUrl(url))
  {
    NotRerouted(AllOriginsBase, Uri.EncodeURIComponent(url), 11);
  }

  /** The search page's own API request passes through the wrapper
      unchanged. */
  lemma SearchApiNotRerouted(query: string)
    ensures Reroute(UrlText(Search.SearchUrl(query))) == UrlText(Search.SearchUrl(query))
  {
    var tail := "?query=" + Uri.EncodeURIComponent(query);
    assert Search.SearchUrl(query) == Search.SearchApi + tail;
    NotRerouted(Search.SearchApi, tail, 11);
  }

  // ---------------------------------------------------------------------
  // Answer shapes and the two transports
  // ---------------------------------------------------------------------

  /** `normalize(data)`: a bare array, else an array under `mahasiswa`,
      else no results. Unlike the search page it never looks at `data`. */
  function Normalize(data: JsonValue): (r: seq<JsonValue>)
    ensures data.JArray? ==> r == data.items
    ensures !data.JArray? && ArrayField(data, "mahasiswa").Some? ==> r == ArrayField(data, "mahasiswa").value
    ensures r != [] ==> data.JArray? || ArrayField(data, "mahasiswa").Some?
  {
    if data.JArray? then data.items
    else if ArrayField(data, "mahasiswa").Some? then ArrayField(data, "mahasiswa").value
    else []
  }

  /** The two normalisations disagree exactly on an object whose `data`
      field is an array other than what `mahasiswa` would give. */
  lemma NormalizationsDiffer(data: JsonValue)
    ensures Normalize(data) != Search.NormalizeResults(data) <==>
      && !data.JArray?
      && ArrayField(data, "data").Some?
      && ArrayField(data, "data").value != Normalize(data)
  {
  }

  /** `viaVercelProxy(url)`: one request through the site's proxy; a
      rejected request, a status outside 200-299 or a body that is not JSON
      is a failure. */
  function ViaVercelProxy(url: string, fetch: string -> HttpOutcome): (r: Result<JsonValue>)
    ensures var outcome := fetch(ProxiedUrl(url));
      r.Success? <==> outcome.Response? && IsOk(outcome.status) && outcome.body.Success?
    ensures var outcome := fetch(ProxiedUrl(url));
      outcome.Response? && !IsOk(outcome.status) ==> r == Failure("Proxy fetch failed: " + Digits(outcome.status))
    ensures r.Success? ==> r.value == fetch(ProxiedUrl(url)).body.value
  {
    match fetch(ProxiedUrl(url))
    case NetworkError(message) => Failure(message)
    case Response(status, body) =>
      if !IsOk(status) then Failure("Proxy fetch failed: " + Digits(status))
      else body
  }

  /** `viaAllOrigins(url)`: one request through the AllOrigins relay; the
      same failures, with a body that is not JSON reported as an invalid
      proxy response. */
  function ViaAllOrigins(url: string, fetch: string -> HttpOutcome): (r: Result<JsonValue>)
    ensures var outcome := fetch(AllOriginsUrl(url));
      r.Success? <==> outcome.Response? && IsOk(outcome.status) && outcome.body.Success?
    ensures var outcome := fetch(AllOriginsUrl(url));
      outcome.Response? && !IsOk(outcome.status) ==> r == Failure("AllOrigins fetch failed: " + Digits(outcome.status))
    ensures var outcome := fetch(AllOriginsUrl(url));
      outcome.Response? && IsOk(outcome.status) && outcome.body.Failure? ==> r == Failure("Invalid proxy response")
    ensures r.Success? ==> r.value == fetch(AllOriginsUrl(url)).body.value
  {
    match fetch(AllOriginsUrl(url))
    case NetworkError(message) => Failure(message)
    case Response(status, body) =>
      if !IsOk(status) then Failure("AllOrigins fetch failed: " + Digits(status))
      else if body.Failure? then Failure("Invalid proxy response")
      else body
  }

  // ---------------------------------------------------------------------
  // The replacement searchMahasiswa
  // ---------------------------------------------------------------------

  /** What one search did: the URLs it requested, in order, and the list it
      answered with. */
  datatype SearchRun = SearchRun(requested: seq<string>, list: seq<JsonValue>)

  /** The PDDIKTI search address for `query`. */
  function TargetUrl(query: string): (url: string)
    ensures ApiBase <= url && |url| >= |ApiBase| + |query|
  {
    ApiBase + Uri.EncodeURIComponent(query)
  }

  /** Nothing of the query is lost: different queries give different
      PDDIKTI search addresses. */
  lemma TargetUrlInjective(q1: string, q2: string)
    requires TargetUrl(q1) == TargetUrl(q2)
    ensures q1 == q2
  {
    assert Uri.EncodeURIComponent(q1) == TargetUrl(q1)[|ApiBase|..];
    assert Uri.EncodeURIComponent(q2) == TargetUrl(q2)[|ApiBase|..];
    Uri.EncodeInjective(q1, q2);
  }

  /** The replacement `searchMahasiswa(query)`. It always answers with a
      list and never fails. The proxy is asked first; AllOrigins is asked
      exactly when the proxy attempt fails (an empty list from the proxy is
      an answer, not a failure); when both fail the answer is empty. Both
      requests carry the same PDDIKTI search URL. */
  function SearchMahasiswa(query: string, fetch: string -> HttpOutcome): (r: SearchRun)
    ensures 1 <= |r.requested| <= 2
    ensures r.requested[0] == ProxiedUrl(TargetUrl(query))
    ensures |r.requested| == 2 <==> ViaVercelProxy(TargetUrl(query), fetch).Failure?
    ensures |r.requested| == 2 ==> r.requested[1] == AllOriginsUrl(TargetUrl(query))
    ensures ViaVercelProxy(TargetUrl(query), fetch).Success? ==>
      r.list == Normalize(ViaVercelProxy(TargetUrl(query), fetch).value)
    ensures ViaVercelProxy(TargetUrl(query), fetch).Failure? && ViaAllOrigins(TargetUrl(query), fetch).Success? ==>
      r.list == Normalize(ViaAllOrigins(TargetUrl(query), fetch).value)
    ensures ViaVercelProxy(TargetUrl(query), fetch).Failure? && ViaAllOrigins(TargetUrl(query), fetch).Failure? ==>
      r.list == []
  {
    var url := TargetUrl(query);
    match ViaVercelProxy(url, fetch)
    case Success(data) => SearchRun([ProxiedUrl(url)], Normalize(data))
    case Failure(_) =>
      match ViaAllOrigins(url, fetch)
      case Success(data) => SearchRun([ProxiedUrl(url), AllOriginsUrl(url)], Normalize(data))
      case Failure(_) => SearchRun([ProxiedUrl(url), AllOriginsUrl(url)], [])
  }

  /** The list the replacement answers with. */
  function Answer(query: string, fetch: string -> HttpOutcome): seq<JsonValue>
  {
    SearchMahasiswa(query, fetch).list
  }

  /** The search page with the override installed: since the replacement
      never fails, a search ends on the error panel only when a record of
      its answer makes a card throw; a non-empty query whose records all
      render shows whatever list the override answered with. */
  method SearchOverridden(page: Search.SearchPage, input: string, fetch: string -> HttpOutcome)
    modifies page
    ensures var answer := Answer(Trim(input), fetch);
      page.shown == Some(Search.ErrorState) ==> Trim(input) != [] && Search.RenderedCount(answer) < |answer|
    ensures var answer := Answer(Trim(input), fetch);
      Trim(input) != [] && Search.RenderedCount(answer) == |answer| ==> page.Displays(answer, Trim(input))
  {
    page.PerformSearch(input, q => Success(Answer(q, fetch)));
  }
}
