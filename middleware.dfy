/**
 * `withMarkdownForAgents` (src/middleware.ts): the handler it returns decides,
 * for each request, whether to pass it on or to answer with the page's
 * markdown. Calling the wrapped middleware and `NextResponse.next()` are
 * outcomes here, not calls; the self-fetch's network response and the
 * HTML-to-markdown converter are parameters.
 */
module Middleware {
  import opened Wrappers
  import opened JsString
  import opened Http
  import opened Types
  import opened Tokens
  import opened Detect
  import opened FetchHtml
  import StripBoilerplate

  const DefaultSkipHeader: string := "x-markdown-skip"

  // The destructuring defaults of the options.
  function SkipHeaderOf(options: MarkdownAgentsOptions): string { options.skipHeader.GetOr(DefaultSkipHeader) }
  function VaryOf(options: MarkdownAgentsOptions): bool { options.varyHeader.GetOr(true) }
  function ContentSignalOf(options: MarkdownAgentsOptions): ContentSignal { options.contentSignal.GetOr(Flag(false)) }
  function StripSelectorsOf(options: MarkdownAgentsOptions): seq<string> { options.stripSelectors.GetOr([]) }

  /** What a content-signal option permits (AI training, search, AI input): a
      flag grants everything; an object grants each use it does not set to false. */
  datatype Permissions = Permissions(aiTrain: bool, search: bool, aiInput: bool)

  function PermissionsOf(signal: ContentSignal): Permissions {
    match signal
    case Flag(_) => Permissions(true, true, true)
    case Signals(o) => Permissions(o.aiTrain.GetOr(true), o.search.GetOr(true), o.aiInput.GetOr(true))
  }

  function YesNo(b: bool): string { if b then "yes" else "no" }

  /** The header value for a set of permissions. */
  function SignalHeader(p: Permissions): string {
    "ai-train=" + YesNo(p.aiTrain) + ", search=" + YesNo(p.search) + ", ai-input=" + YesNo(p.aiInput)
  }

  /** `buildContentSignalHeader(option)`: no header for `false`, otherwise the
      permissions written out. Every object is truthy, including `{}`. */
  function BuildContentSignalHeader(option: ContentSignal): (r: Option<string>)
    ensures r.None? <==> option == Flag(false)
    ensures r.Some? ==> r.value == SignalHeader(PermissionsOf(option))
  {
    match option
    case Flag(on) => if on then Some(SignalHeader(Permissions(true, true, true))) else None
    case Signals(o) => Some(SignalHeader(PermissionsOf(option)))
  }

  /** The header value is unambiguous: it determines the three permissions. */
  lemma {:induction false} SignalHeaderInjective(p: Permissions, q: Permissions)
    requires SignalHeader(p) == SignalHeader(q)
    ensures p == q
  {
    var h := SignalHeader(p);
    assert h[9] == SignalHeader(q)[9];
    assert p.aiTrain == q.aiTrain;
    var i := 9 + |YesNo(p.aiTrain)| + 9;
    assert h[i] == SignalHeader(q)[i];
    assert p.search == q.search;
    var j := i + |YesNo(p.search)| + 11;
    assert h[j] == SignalHeader(q)[j];
  }

  /** `contentSignal: true` and `contentSignal: {}` both allow everything. */
  lemma ContentSignalAllowAll()
    ensures BuildContentSignalHeader(Flag(true)) == Some("ai-train=yes, search=yes, ai-input=yes")
    ensures BuildContentSignalHeader(Signals(ContentSignalOptions(None, None, None)))
            == BuildContentSignalHeader(Flag(true))
  {
    assert "ai-train=" + "yes" + ", search=" + "yes" + ", ai-input=" + "yes"
        == "ai-train=yes, search=yes, ai-input=yes";
  }

  /** `contentSignal: { aiTrain: false, search: true, aiInput: true }`. */
  lemma ContentSignalDenyTraining()
    ensures BuildContentSignalHeader(Signals(ContentSignalOptions(Some(false), Some(true), Some(true))))
            == Some("ai-train=no, search=yes, ai-input=yes")
  {
    assert "ai-train=" + "no" + ", search=" + "yes" + ", ai-input=" + "yes"
        == "ai-train=no, search=yes, ai-input=yes";
  }

  /** What the handler does with a request. */
  datatype Outcome =
    | CallWrapped                 // `middleware(request, event)`
    | NextResponse                // `NextResponse.next()`
    | MarkdownResponse(status: int, headers: Headers, body: string)

  /** The fallback every early return takes. */
  function PassOn(hasMiddleware: bool): Outcome {
    if hasMiddleware then CallWrapped else NextResponse
  }

  /** The request is not one of the handler's own self-fetches and asks for markdown. */
  predicate Negotiates(options: MarkdownAgentsOptions, request: Request) {
    Get(request.headers, SkipHeaderOf(options)) != Some("1") && WantsMarkdown(request)
  }

  /** The headers of a markdown response, exactly. */
  predicate MarkdownHeaders(options: MarkdownAgentsOptions, body: string, h: Headers) {
    var signal := BuildContentSignalHeader(ContentSignalOf(options));
    && Get(h, "content-type") == Some("text/markdown; charset=utf-8")
    && Get(h, "x-markdown-tokens") == Some(DecimalString(EstimateTokens(body)))
    && Get(h, "vary") == (if VaryOf(options) then Some("accept") else None)
    && Get(h, "content-signal") == signal
    && h.Keys == {"content-type", "x-markdown-tokens"}
                 + (if VaryOf(options) then {"vary"} else {})
                 + (if signal.Some? then {"content-signal"} else {})
  }

  /** One invocation of the handler `withMarkdownForAgents(middleware, options)`
      returns; `hasMiddleware` says whether a middleware was wrapped, `network`
      is what the self-fetch would produce. */
  method Handle(options: MarkdownAgentsOptions, hasMiddleware: bool, request: Request,
                network: FetchResponse, convert: string -> string)
    returns (outcome: Outcome, selfFetch: Option<OutgoingRequest>)
    ensures Get(request.headers, SkipHeaderOf(options)) == Some("1") || !WantsMarkdown(request)
            ==> outcome == PassOn(hasMiddleware) && selfFetch.None?
    ensures selfFetch.Some? <==> Negotiates(options, request)
    ensures selfFetch.Some? ==> && selfFetch.value.url == request.url
                                && selfFetch.value.verb == "GET"
                                && selfFetch.value.cache == "no-store"
                                && ForwardedHeaders(request.headers, SkipHeaderOf(options), selfFetch.value.headers)
    ensures Negotiates(options, request) && (AcceptedHtml(network).None? || AcceptedHtml(network) == Some(""))
            ==> outcome == PassOn(hasMiddleware)
    ensures Negotiates(options, request) && AcceptedHtml(network).Some? && AcceptedHtml(network) != Some("")
            ==> && outcome.MarkdownResponse?
                && outcome.status == 200
                && outcome.body == convert(StripBoilerplate.Stripped(AcceptedHtml(network).value, StripSelectorsOf(options)))
                && MarkdownHeaders(options, outcome.body, outcome.headers)
    ensures outcome.MarkdownResponse? ==> ParseInt(outcome.headers["x-markdown-tokens"]) == Some(EstimateTokens(outcome.body))
  {
    var skipHeader := SkipHeaderOf(options);
    if Get(request.headers, skipHeader) == Some("1") {
      return PassOn(hasMiddleware), None;
    }
    if !WantsMarkdown(request) {
      return PassOn(hasMiddleware), None;
    }
    var sent, html := FetchPageHtml(request, skipHeader, network);
    selfFetch := Some(sent);
    if html.None? || html.value == "" {
      outcome := PassOn(hasMiddleware);
      return;
    }
    outcome := RespondWithMarkdown(options, html.value, convert);
  }

  /** The markdown branch of the handler: strip, convert, and build the response. */
  method RespondWithMarkdown(options: MarkdownAgentsOptions, html: string, convert: string -> string)
    returns (outcome: Outcome)
    ensures outcome.MarkdownResponse? && outcome.status == 200
    ensures outcome.body == convert(StripBoilerplate.Stripped(html, StripSelectorsOf(options)))
    ensures MarkdownHeaders(options, outcome.body, outcome.headers)
    ensures ParseInt(outcome.headers["x-markdown-tokens"]) == Some(EstimateTokens(outcome.body))
  {
    var cleanedHtml := StripBoilerplate.StripBoilerplate(html, StripSelectorsOf(options));
    var markdown := convert(cleanedHtml);
    outcome := MarkdownResponseOf(options, markdown);
  }

  /** The 200 response carrying `markdown` and the headers the options ask for. */
  method MarkdownResponseOf(options: MarkdownAgentsOptions, markdown: string) returns (outcome: Outcome)
    ensures outcome.MarkdownResponse? && outcome.status == 200 && outcome.body == markdown
    ensures MarkdownHeaders(options, markdown, outcome.headers)
    ensures ParseInt(outcome.headers["x-markdown-tokens"]) == Some(EstimateTokens(markdown))
  {
    var tokens := DecimalString(EstimateTokens(markdown));
    ResponseHeaderNames();
    var initial: Headers := map["content-type" := "text/markdown; charset=utf-8", "x-markdown-tokens" := tokens];
    var varied := if VaryOf(options) then Set(initial, "vary", "accept") else initial;
    var contentSignalValue := BuildContentSignalHeader(ContentSignalOf(options));
    var responseHeaders :=
      if contentSignalValue.Some? then Set(varied, "content-signal", contentSignalValue.value) else varied;
    ResponseHeadersBuilt(options, markdown, initial, varied, responseHeaders);
    outcome := MarkdownResponse(200, responseHeaders, markdown);
  }

  lemma ResponseHeaderNames()
    ensures Lower("content-type") == "content-type"
    ensures Lower("x-markdown-tokens") == "x-markdown-tokens"
    ensures Lower("vary") == "vary"
    ensures Lower("content-signal") == "content-signal"
  {
  }

  /** The three `set` steps that build a response's headers. */
  ghost predicate BuiltHeaders(options: MarkdownAgentsOptions, body: string, initial: Headers, varied: Headers, h: Headers) {
    var signal := BuildContentSignalHeader(ContentSignalOf(options));
    && initial == map["content-type" := "text/markdown; charset=utf-8",
                      "x-markdown-tokens" := DecimalString(EstimateTokens(body))]
    && varied == (if VaryOf(options) then Set(initial, "vary", "accept") else initial)
    && h == (if signal.Some? then Set(varied, "content-signal", signal.value) else varied)
  }

  lemma ResponseHeadersBuilt(options: MarkdownAgentsOptions, body: string, initial: Headers, varied: Headers, h: Headers)
    requires BuiltHeaders(options, body, initial, varied, h)
    ensures MarkdownHeaders(options, body, h)
    ensures ParseInt(h["x-markdown-tokens"]) == Some(EstimateTokens(body))
  {
    ResponseHeaderNames();
    BuiltHeaderValues(options, body, initial, varied, h);
    BuiltHeaderKeys(options, body, initial, varied, h);
    ParseIntOfDecimal(EstimateTokens(body));
  }

  lemma BuiltHeaderValues(options: MarkdownAgentsOptions, body: string, initial: Headers, varied: Headers, h: Headers)
    requires BuiltHeaders(options, body, initial, varied, h)
    ensures Get(h, "content-type") == Some("text/markdown; charset=utf-8")
    ensures Get(h, "x-markdown-tokens") == Some(DecimalString(EstimateTokens(body)))
    ensures Get(h, "vary") == (if VaryOf(options) then Some("accept") else None)
    ensures Get(h, "content-signal") == BuildContentSignalHeader(ContentSignalOf(options))
  {
    ResponseHeaderNames();
  }

  lemma BuiltHeaderKeys(options: MarkdownAgentsOptions, body: string, initial: Headers, varied: Headers, h: Headers)
    requires BuiltHeaders(options, body, initial, varied, h)
    ensures h.Keys == {"content-type", "x-markdown-tokens"}
                      + (if VaryOf(options) then {"vary"} else {})
                      + (if BuildContentSignalHeader(ContentSignalOf(options)).Some? then {"content-signal"} else {})
  {
    ResponseHeaderNames();
  }

  /** Loop prevention: the handler's own self-fetch, arriving at a handler with the
      same options, is never answered with markdown and triggers no further fetch. */
  lemma SelfFetchPassesThrough(options: MarkdownAgentsOptions, incoming: Headers, url: string, out: Headers)
    requires ForwardedHeaders(incoming, SkipHeaderOf(options), out)
    ensures !Negotiates(options, Request(url, out))
  {
    assert Lower("accept") == "accept";
    ShortAcceptIsNotMarkdown(Request(url, out));
  }
}
