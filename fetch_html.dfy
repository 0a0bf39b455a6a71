/**
 * `fetchPageHtml` (src/fetch-html.ts): the internal self-fetch the middleware
 * makes to obtain a page's HTML. The network is not modelled: the caller
 * supplies what `fetch` produced, and the method returns the request it would
 * have sent alongside the HTML it accepts.
 */
module FetchHtml {
  import opened Wrappers
  import opened JsString
  import opened Http

  /** What `await fetch(...)` produced: it threw, or a response arrived with a
      status, an optional `content-type` header and a body. */
  datatype FetchResponse =
    | Threw
    | Responded(status: int, contentType: Option<string>, body: string)

  /** The arguments of the `fetch` call: URL, HTTP method, headers and cache mode. */
  datatype OutgoingRequest = OutgoingRequest(url: string, verb: string, headers: Headers, cache: string)

  /** A header value as an `if (value)` test sees it: present and non-empty. */
  function NonEmpty(v: Option<string>): (r: Option<string>)
    ensures r.Some? <==> v.Some? && v.value != ""
    ensures r.Some? ==> r == v
  {
    if v.Some? && v.value != "" then v else None
  }

  /** `response.ok`. */
  predicate IsOk(status: int) {
    200 <= status <= 299
  }

  /** The HTML `fetchPageHtml` resolves to, `None` standing for `null`: the body
      of a successful response whose content type mentions `text/html`. */
  function AcceptedHtml(response: FetchResponse): (html: Option<string>)
    ensures html.Some? <==> && response.Responded?
                            && IsOk(response.status)
                            && exists k: nat :: SliceAt(response.contentType.GetOr(""), k, "text/html")
    ensures html.Some? ==> html.value == response.body
  {
    match response
    case Threw => None
    case Responded(status, contentType, body) =>
      if !IsOk(status) then None
      else if !Includes(contentType.GetOr(""), "text/html") then None
      else Some(body)
  }

  /** The headers of the self-fetch: `accept: text/html`, the skip header set to
      `1`, and the caller's `cookie` and `accept-language` when non-empty; nothing
      else. A skip header named like one of the others is overwritten by that
      header where it is set later (`accept`) and overwrites it where it is set
      earlier (`cookie`, `accept-language`). */
  predicate ForwardedHeaders(incoming: Headers, skipHeader: string, out: Headers) {
    && Get(out, "accept") == Some("text/html")
    && (Lower(skipHeader) != "accept" ==> Get(out, skipHeader) == Some("1"))
    && (Lower(skipHeader) != "cookie" ==> Get(out, "cookie") == NonEmpty(Get(incoming, "cookie")))
    && (Lower(skipHeader) != "accept-language" ==>
          Get(out, "accept-language") == NonEmpty(Get(incoming, "accept-language")))
    && out.Keys == {"accept", Lower(skipHeader)}
                   + (if NonEmpty(Get(incoming, "cookie")).Some? then {"cookie"} else {})
                   + (if NonEmpty(Get(incoming, "accept-language")).Some? then {"accept-language"} else {})
  }

  /** `fetchPageHtml(request, skipHeader)`, given what the network returns. */
  method FetchPageHtml(request: Request, skipHeader: string, network: FetchResponse)
    returns (sent: OutgoingRequest, html: Option<string>)
    ensures sent.url == request.url && sent.verb == "GET" && sent.cache == "no-store"
    ensures ForwardedHeaders(request.headers, skipHeader, sent.headers)
    ensures html == AcceptedHtml(network)
  {
    var forward: Headers := map[];
    var cookie := Get(request.headers, "cookie");
    if cookie.Some? && cookie.value != "" {
      forward := Set(forward, "cookie", cookie.value);
    }
    var withCookie := forward;
    var lang := Get(request.headers, "accept-language");
    if lang.Some? && lang.value != "" {
      forward := Set(forward, "accept-language", lang.value);
    }
    CopiedAfterSets(request.headers, withCookie, forward);
    var copied := forward;
    forward := Set(forward, skipHeader, "1");
    var marked := forward;
    forward := Set(forward, "accept", "text/html");
    ForwardedAfterSets(request.headers, skipHeader, copied, marked, forward);
    sent := OutgoingRequest(request.url, "GET", forward, "no-store");
    html := AcceptedHtml(network);
  }

  lemma LowerHeaderNames()
    ensures Lower("cookie") == "cookie"
    ensures Lower("accept-language") == "accept-language"
    ensures Lower("accept") == "accept"
  {
  }

  /** The copied headers hold exactly the non-empty `cookie` and `accept-language`. */
  ghost predicate CopiedHeaders(incoming: Headers, copied: Headers) {
    && Get(copied, "cookie") == NonEmpty(Get(incoming, "cookie"))
    && Get(copied, "accept-language") == NonEmpty(Get(incoming, "accept-language"))
    && copied.Keys == (if NonEmpty(Get(incoming, "cookie")).Some? then {"cookie"} else {})
                      + (if NonEmpty(Get(incoming, "accept-language")).Some? then {"accept-language"} else {})
  }

  lemma CopiedAfterSets(incoming: Headers, withCookie: Headers, copied: Headers)
    requires withCookie == if NonEmpty(Get(incoming, "cookie")).Some?
                           then Set(map[], "cookie", Get(incoming, "cookie").value) else map[]
    requires var lang := NonEmpty(Get(incoming, "accept-language"));
             copied == if lang.Some? then Set(withCookie, "accept-language", lang.value) else withCookie
    ensures CopiedHeaders(incoming, copied)
  {
    LowerHeaderNames();
  }

  lemma ForwardedAfterSets(incoming: Headers, skipHeader: string, copied: Headers, marked: Headers, out: Headers)
    requires CopiedHeaders(incoming, copied)
    requires marked == Set(copied, skipHeader, "1")
    requires out == Set(marked, "accept", "text/html")
    ensures ForwardedHeaders(incoming, skipHeader, out)
  {
    LowerHeaderNames();
  }

  /** The caller's `accept` never reaches the self-fetch, whatever it asked for. */
  lemma AcceptAlwaysHtml(incoming: Headers, skipHeader: string, out: Headers)
    requires ForwardedHeaders(incoming, skipHeader, out)
    ensures "accept" in out && out["accept"] == "text/html"
  {
    assert Lower("accept") == "accept";
  }

  /** A redirect, an error status or a non-HTML page gives no HTML. */
  lemma RejectedResponses(body: string)
    ensures AcceptedHtml(Responded(404, Some("text/html"), body)).None?
    ensures AcceptedHtml(Responded(301, Some("text/html"), body)).None?
    ensures AcceptedHtml(Responded(200, Some("application/json"), body)).None?
    ensures AcceptedHtml(Responded(200, None, body)).None?
    ensures AcceptedHtml(Responded(200, Some("text/html; charset=utf-8"), body)) == Some(body)
  {
    assert SliceAt("text/html; charset=utf-8", 0, "text/html");
    ShorterExcludes("", "text/html");
    var json := "application/json";
    forall k: nat ensures !SliceAt(json, k, "text/html") {
      if k + 9 <= |json| {
        assert json[k..k + 9][5] == json[k + 5];
        assert json[k + 5] != 'h';
      }
    }
  }
}
