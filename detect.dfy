/** `wantsMarkdown` (src/detect.ts): content negotiation on the `Accept` header alone. */
module Detect {
  import opened Wrappers
  import opened JsString
  import opened Http

  /** `(request.headers.get('accept') ?? '').includes('text/markdown')`. The test
      is case-sensitive and ignores the URL, so a `?markdown=1` query does not
      count. */
  function WantsMarkdown(request: Request): (r: bool)
    ensures r <==> "accept" in request.headers
                   && exists k: nat :: SliceAt(request.headers["accept"], k, "text/markdown")
  {
    assert Lower("accept") == "accept";
    Includes(Get(request.headers, "accept").GetOr(""), "text/markdown")
  }

  /** Any `Accept` value shorter than `text/markdown` (in particular `text/html`)
      does not ask for markdown. */
  lemma ShortAcceptIsNotMarkdown(request: Request)
    requires Get(request.headers, "accept").Some?
    requires |Get(request.headers, "accept").value| < 13
    ensures !WantsMarkdown(request)
  {
    assert Lower("accept") == "accept";
    ShorterExcludes(request.headers["accept"], "text/markdown");
  }

  /** A list of media types asks for markdown when one of them is `text/markdown`. */
  lemma MarkdownInAcceptList(url: string)
    ensures WantsMarkdown(Request(url, map["accept" := "text/html, text/markdown;q=0.9"]))
  {
    var v := "text/html, text/markdown;q=0.9";
    assert SliceAt(v, 11, "text/markdown");
  }

  /** The comparison is case-sensitive: `TEXT/MARKDOWN` does not ask for markdown. */
  lemma UpperCaseAcceptIgnored(url: string)
    ensures !WantsMarkdown(Request(url, map["accept" := "TEXT/MARKDOWN"]))
  {
    var v := "TEXT/MARKDOWN";
    forall k: nat ensures !SliceAt(v, k, "text/markdown") {
      if k == 0 {
        assert v[0..13][0] != "text/markdown"[0];
      }
    }
  }

  /** No `Accept` header, no markdown, whatever the URL and the other headers say. */
  lemma NoAcceptNoMarkdown(url: string, headers: Headers)
    requires "accept" !in headers
    ensures !WantsMarkdown(Request(url, headers))
  {
  }
}
