/** The serverless proxy (api/pddikti-proxy.js): it answers CORS preflight
    requests, insists on a `url` query parameter, undoes up to two layers of
    percent-encoding on it, fetches that address and mirrors the answer, or
    reports a gateway error. The platform hands the handler the query
    parameters already parsed; `decodeURIComponent` is a partial function
    (None where it throws) and the upstream fetch is a function from the
    target URL to what it yields. */
module PddiktiProxy {
  import opened Wrappers
  import opened Json
  import Uri
  import ProxyOverride

  const AllowOrigin := "Access-Control-Allow-Origin"
  const AllowMethods := "Access-Control-Allow-Methods"
  const AllowHeaders := "Access-Control-Allow-Headers"
  const MaxAge := "Access-Control-Max-Age"
  const CacheControl := "Cache-Control"
  const ContentType := "Content-Type"
  const DefaultContentType := "application/json; charset=utf-8"

  /** The request as the handler sees it: its method and its `url` query
      parameter, if any. */
  datatype Request = Request(httpMethod: string, url: Option<string>)

  /** What fetching the target yields: a response with its status, its
      content type if it sent one and its body bytes; or a thrown error with
      its `message` and its string form. */
  datatype Upstream =
    | Fetched(status: nat, contentType: Option<string>, bytes: seq<bv8>)
    | Failed(message: string, text: string)

  datatype Body = NoBody | JsonBody(json: JsonValue) | BytesBody(bytes: seq<bv8>)

  /** A finished answer: status, headers and body. */
  datatype Reply = Reply(status: nat, headers: map<string, string>, body: Body)

  const PreflightHeaders: map<string, string> :=
    map[AllowOrigin := "*", AllowMethods := "GET,HEAD,OPTIONS", AllowHeaders := "Content-Type", MaxAge := "86400"]

  function ForwardHeaders(contentType: string): map<string, string>
  {
    map[AllowOrigin := "*", CacheControl := "public, max-age=300", ContentType := contentType]
  }

  function MissingUrl(): JsonValue
  {
    JObject(map["error" := JString("Missing url param")])
  }

  function UpstreamError(detail: string): JsonValue
  {
    JObject(map["error" := JString("Upstream fetch failed"), "detail" := JString(detail)])
  }

  // ---------------------------------------------------------------------
  // The decode cascade
  // ---------------------------------------------------------------------

  /** The address the handler fetches: decoded twice when both decodings
      succeed, decoded once when only the first does, and as given when
      even the first fails. */
  function DecodedTarget(url: string, decode: string -> Option<string>): (target: string)
    ensures decode(url).None? ==> target == url
    ensures decode(url).Some? && decode(decode(url).value).None? ==> target == decode(url).value
    ensures decode(url).Some? && decode(decode(url).value).Some? ==> target == decode(decode(url).value).value
  {
    match decode(url)
    case None => url
    case Some(once) =>
      match decode(once)
      case None => once
      case Some(twice) => twice
  }

  /** The decoding step as the handler performs it: a first attempt that
      decodes twice, and on failure a second attempt that decodes once. The
      retry repeats the first decoding, so the outcome is never more than
      two decodings deep, and `decode` is called three times when the second
      decoding fails and twice otherwise. */
  method DecodeTarget(url: string, decode: string -> Option<string>) returns (target: string, calls: nat)
    ensures target == DecodedTarget(url, decode)
    ensures 2 <= calls <= 3
    ensures calls == 3 <==> decode(url).Some? && decode(decode(url).value).None?
  {
    target := url;
    calls := 1;
    var once := decode(target);
    if once.Some? {
      calls := calls + 1;
      var twice := decode(once.value);
      if twice.Some? {
        target := twice.value;
        return;
      }
    }
    calls := calls + 1;
    var retry := decode(target);
    if retry.Some? {
      target := retry.value;
    }
  }

  /** An address that decoding leaves alone is fetched as it is. */
  lemma PlainTargetKept(url: string, decode: string -> Option<string>)
    requires decode(url) == Some(url)
    ensures DecodedTarget(url, decode) == url
  {
  }

  /** A search address the override builds from a query of unreserved
      characters carries no percent sign. So, with a `decode` that leaves
      such text alone, the handler fetches exactly that address, once the
      platform has undone the override's encoding of the parameter. */
  lemma PlainSearchReachesUpstream(query: string, decode: string -> Option<string>)
    requires forall i | 0 <= i < |query| :: Uri.IsUnreserved(query[i])
    requires forall s: string :: '%' !in s ==> decode(s) == Some(s)
    ensures ProxyOverride.TargetUrl(query) == ProxyOverride.ApiBase + query
    ensures DecodedTarget(ProxyOverride.TargetUrl(query), decode) == ProxyOverride.TargetUrl(query)
  {
    PlainTargetUnescaped(query);
  }

  /** The search address built from a query of unreserved characters is
      the API base followed by the query itself, with no percent sign. */
  lemma PlainTargetUnescaped(query: string)
    requires forall i | 0 <= i < |query| :: Uri.IsUnreserved(query[i])
    ensures ProxyOverride.TargetUrl(query) == ProxyOverride.ApiBase + query
    ensures '%' !in ProxyOverride.TargetUrl(query)
  {
    assert Uri.EncodeURIComponent(query) == query;
    ApiBaseUnescaped();
    assert '%' !in query by {
      forall i | 0 <= i < |query| ensures query[i] != '%' {
        assert Uri.IsUnreserved(query[i]);
      }
    }
  }

  lemma ApiBaseUnescaped()
    ensures '%' !in ProxyOverride.ApiBase
  {
    assert '%' !in ProxyOverride.PddiktiHost;
  }

  // ---------------------------------------------------------------------
  // The decision table
  // ---------------------------------------------------------------------

  /** The answer the handler gives. A preflight gets 204 with the CORS
      headers whatever else the request holds; a request without a `url`
      (or with an empty one) gets 400; otherwise the decoded target is
      fetched, and its status, content type (JSON by default) and bytes are
      mirrored with a five-minute cache, or a failure becomes 502 naming the
      error. Every answer allows any origin. */
  function Respond(req: Request, decode: string -> Option<string>, fetch: string -> Upstream): (r: Reply)
    ensures AllowOrigin in r.headers && r.headers[AllowOrigin] == "*"
    ensures req.httpMethod == "OPTIONS" ==> r == Reply(204, PreflightHeaders, NoBody)
    ensures req.httpMethod != "OPTIONS" && (req.url.None? || req.url.value == "") ==>
      r == Reply(400, map[AllowOrigin := "*"], JsonBody(MissingUrl()))
    ensures req.httpMethod != "OPTIONS" && req.url.Some? && req.url.value != "" ==>
      var upstream := fetch(DecodedTarget(req.url.value, decode));
      && (upstream.Fetched? ==>
            && r.status == upstream.status
            && r.body == BytesBody(upstream.bytes)
            && r.headers.Keys == {AllowOrigin, CacheControl, ContentType}
            && r.headers[CacheControl] == "public, max-age=300"
            && r.headers[ContentType] == (if upstream.contentType.Some? && upstream.contentType.value != ""
                                           then upstream.contentType.value else DefaultContentType))
      && (upstream.Failed? ==>
            && r.status == 502
            && r.headers == map[AllowOrigin := "*"]
            && r.body == JsonBody(UpstreamError(if upstream.message != "" then upstream.message else upstream.text)))
  {
    if req.httpMethod == "OPTIONS" then Reply(204, PreflightHeaders, NoBody)
    else if req.url.None? || req.url.value == "" then Reply(400, map[AllowOrigin := "*"], JsonBody(MissingUrl()))
    else
      match fetch(DecodedTarget(req.url.value, decode))
      case Fetched(status, contentType, bytes) =>
        var ct := if contentType.Some? && contentType.value != "" then contentType.value else DefaultContentType;
        Reply(status, ForwardHeaders(ct), BytesBody(bytes))
      case Failed(message, text) =>
        Reply(502, map[AllowOrigin := "*"], JsonBody(UpstreamError(if message != "" then message else text)))
  }

  /** A preflight never reaches the `url` check or the upstream. */
  lemma PreflightIgnoresUrl(url1: Option<string>, url2: Option<string>,
                            decode: string -> Option<string>, fetch: string -> Upstream)
    ensures Respond(Request("OPTIONS", url1), decode, fetch) == Respond(Request("OPTIONS", url2), decode, fetch)
    ensures Respond(Request("OPTIONS", url1), decode, fetch).status == 204
  {
  }

  // ---------------------------------------------------------------------
  // The response object and the handler
  // ---------------------------------------------------------------------

  /** The platform's response object, reduced to what the handler uses. */
  class ServerResponse {
    var statusCode: nat
    var headers: map<string, string>
    var body: Body
    var finished: bool

    constructor()
      ensures statusCode == 200 && headers == map[] && body == NoBody && !finished
    {
      statusCode := 200;
      headers := map[];
      body := NoBody;
      finished := false;
    }

    /** `res.setHeader(name, value)`. */
    method SetHeader(name: string, value: string)
      modifies this
      ensures headers == old(headers)[name := value]
      ensures statusCode == old(statusCode) && body == old(body) && finished == old(finished)
    {
      headers := headers[name := value];
    }

    /** `res.status(code)`. */
    method Status(code: nat)
      modifies this
      ensures statusCode == code
      ensures headers == old(headers) && body == old(body) && finished == old(finished)
    {
      statusCode := code;
    }

    /** `res.end()`: the answer is complete, with no body. */
    method End()
      modifies this
      ensures finished
      ensures statusCode == old(statusCode) && headers == old(headers) && body == old(body)
    {
      finished := true;
    }

    /** `res.json(value)`. */
    method Json(value: JsonValue)
      modifies this
      ensures finished && body == JsonBody(value)
      ensures statusCode == old(statusCode) && headers == old(headers)
    {
      body := JsonBody(value);
      finished := true;
    }

    /** `res.send(bytes)`. */
    method Send(bytes: seq<bv8>)
      modifies this
      ensures finished && body == BytesBody(bytes)
      ensures statusCode == old(statusCode) && headers == old(headers)
    {
      body := BytesBody(bytes);
      finished := true;
    }
  }

  /** Setting one more header on top of headers already added is adding
      it to the added ones. */
  lemma AddHeader(base: map<string, string>, added: map<string, string>, name: string, value: string)
    ensures (base + added)[name := value] == base + added[name := value]
  {
  }

  /** `handler(req, res)` on a response nothing has been written to: it
      finishes the response with the status and body of `Respond`, and
      adds `Respond`'s headers to those already present. */
  method Handle(req: Request, res: ServerResponse, decode: string -> Option<string>, fetch: string -> Upstream)
    requires !res.finished && res.body == NoBody
    modifies res
    ensures res.finished
    ensures var r := Respond(req, decode, fetch);
      res.statusCode == r.status && res.body == r.body && res.headers == old(res.headers) + r.headers
  {
    ghost var base := res.headers;
    ghost var added: map<string, string> := map[];
    assert base + added == base;
    if req.httpMethod == "OPTIONS" {
      AddHeader(base, added, AllowOrigin, "*");
      res.SetHeader(AllowOrigin, "*");
      added := added[AllowOrigin := "*"];
      AddHeader(base, added, AllowMethods, "GET,HEAD,OPTIONS");
      res.SetHeader(AllowMethods, "GET,HEAD,OPTIONS");
      added := added[AllowMethods := "GET,HEAD,OPTIONS"];
      AddHeader(base, added, AllowHeaders, "Content-Type");
      res.SetHeader(AllowHeaders, "Content-Type");
      added := added[AllowHeaders := "Content-Type"];
      AddHeader(base, added, MaxAge, "86400");
      res.SetHeader(MaxAge, "86400");
      added := added[MaxAge := "86400"];
      assert added == PreflightHeaders;
      res.Status(204);
      res.End();
      return;
    }
    if req.url.None? || req.url.value == "" {
      AddHeader(base, added, AllowOrigin, "*");
      res.SetHeader(AllowOrigin, "*");
      res.Status(400);
      res.Json(MissingUrl());
      return;
    }
    var target, _ := DecodeTarget(req.url.value, decode);
    match fetch(target)
    case Fetched(status, contentType, bytes) =>
      AddHeader(base, added, AllowOrigin, "*");
      res.SetHeader(AllowOrigin, "*");
      added := added[AllowOrigin := "*"];
      AddHeader(base, added, CacheControl, "public, max-age=300");
      res.SetHeader(CacheControl, "public, max-age=300");
      added := added[CacheControl := "public, max-age=300"];
      var ct := if contentType.Some? && contentType.value != "" then contentType.value else DefaultContentType;
      AddHeader(base, added, ContentType, ct);
      res.SetHeader(ContentType, ct);
      added := added[ContentType := ct];
      assert added == ForwardHeaders(ct);
      res.Status(status);
      res.Send(bytes);
    case Failed(message, text) =>
      AddHeader(base, added, AllowOrigin, "*");
      res.SetHeader(AllowOrigin, "*");
      res.Status(502);
      res.Json(UpstreamError(if message != "" then message else text));
  }
}
