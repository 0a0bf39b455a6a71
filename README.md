# next-agent-md, modelled in Dafny

next-agent-md lets a Next.js site answer AI agents with Markdown instead of
HTML. A middleware (`withMarkdownForAgents`) checks whether a request asks for
`text/markdown` in its `Accept` header. If it does, the middleware fetches the
page's own HTML with a loop-prevention header and strips boilerplate elements
with a fixed series of regular-expression passes. It converts what remains to
Markdown and answers with `x-markdown-tokens`, `vary` and `content-signal`
headers. The build step (`buildStaticMarkdown`) reads the Next.js prerender
manifest and looks up each static route's pre-rendered HTML among five
candidate paths. It writes the Markdown under `public/.well-known/markdown/`.
A CLI scaffolds the middleware file (`init`) and runs the build step (`build`).
A `next.config` plugin adds a `Vary: accept` header rule to the configuration.

The project models each source file as one module:

- `StripBoilerplate` (strip-boilerplate.ts)
  - Each of the four regex shapes gets a scanner: paired element, self-closing element, ARIA role, comment.
  - A ghost predicate `Matches` reads each pattern literally. It is used to prove that each scanner deletes the shortest accepted span.
  - `ReplaceAll` is a `replace(/…/g, '')` loop.
  - `StripBoilerplate` runs the passes in the source's order: for each tag the paired pass then the self-closing pass, then the four role passes, then the comment pass.
- `Tokens` (tokens.ts) and `Detect` (detect.ts) are pure functions.
- `FetchHtml` (fetch-html.ts):
  - the outgoing self-fetch (URL, GET, `no-store`, forwarded headers);
  - the rule for accepting an abstract network response.
- `Middleware` (middleware.ts):
  - `buildContentSignalHeader`;
  - the handler's three guards;
  - the markdown response and its exact header map.
- `Build` (build.ts):
  - the slug formula, `markdownPublicPath` and the five-candidate lookup;
  - the route loop, as a `FileSystem` class method proved against a function `Build` of the old file map.
- `Cli` (cli.ts):
  - `detectNextVersion`;
  - `runInit`'s candidate search, file choice and write;
  - `runBuild`'s outcome branches and exit code.
- `ConfigPlugin` (config-plugin.ts): the configuration copy and header merge of `withAgentMd`, and `checkMiddlewareExists`.

Helper modules:

- `Wrappers`: `Option` and `Result`.
- `JsString`: the JavaScript string built-ins the source relies on.
  - `\s`, `includes` and ASCII case folding;
  - `parseInt(…, 10)`, and `String(n)` for naturals.
- `Http`: header maps keyed by lower-cased names, with `get` and `set`.
- `Fs`:
  - a `FileSystem` class with a map of files and a set of directories;
  - `path.join` as `/`-concatenation;
  - `dirname`.

Three things are not modelled and become parameters:

- `fetch` is a `FetchResponse` value: it threw, or a status, content type and body.
- `htmlToMarkdown` is `convert: string -> string`.
- `JSON.parse` of the manifest and of `package.json` is a function from text to an optional key list or package record.

Where the documentation and the code disagree, the model follows the code:

- The doc comment at src/middleware.ts:27 also promises `?markdown=1`. `wantsMarkdown` reads only the `accept` header, case-sensitively, and never the query (`Detect.WantsMarkdown`).
- The build step skips a route whose first existing candidate is an empty file (`!html`), even when a later candidate has content (`Build.SkippedIffNoHtml`).

## Model

| member | source | states |
|---|---|---|
| `StripBoilerplate.StripBoilerplate` | src/strip-boilerplate.ts:32-60 | the result is the built-in tags then `extraTags` (paired then self-closing pass for each), then the four role passes, then the comment pass, applied in that order; the result is a subsequence of the input |
| `StripBoilerplate.StripTags` | src/strip-boilerplate.ts:35-45 | the tag loop applies, for each tag in order, the paired pass then the self-closing pass |
| `StripBoilerplate.StripRoleAttributes` | src/strip-boilerplate.ts:48-54 | the role loop applies the passes for navigation, banner, contentinfo and complementary in that order |
| `StripBoilerplate.ReplaceAll` | src/strip-boilerplate.ts:39-57 | a global `replace(…, '')` scans left to right, deleting at each position the span the pattern matches there and keeping the character otherwise; the result is a subsequence of the input |
| `StripBoilerplate.MatchEndIsShortest` | src/strip-boilerplate.ts:39-57 | at every position each scanner finds exactly the shortest span the regular expression accepts, or none when it accepts none |
| `StripBoilerplate.PairedShortest` | src/strip-boilerplate.ts:39 | the paired pass needs `<tag` plus whitespace or `>` and ends at the first following `</tag>`, case-insensitively |
| `StripBoilerplate.SelfClosingShortest` | src/strip-boilerplate.ts:43 | the self-closing pass ends at the first `>` after `<tag` and matches only when that `>` follows `/` |
| `StripBoilerplate.RoleShortest` | src/strip-boilerplate.ts:50 | the role span starts at `<`+letter, has the role attribute (either quote) before the tag's first `>`, and ends at the first `</letters>` after it |
| `StripBoilerplate.RoleSound` | src/strip-boilerplate.ts:50 | every span the role scanner returns is accepted by the role pattern |
| `StripBoilerplate.RoleComplete` | src/strip-boilerplate.ts:50 | whenever the role pattern accepts a span, the scanner finds one no longer |
| `StripBoilerplate.CommentShortest` | src/strip-boilerplate.ts:57 | a comment span runs from `<!--` to the nearest following `-->` |
| `StripBoilerplate.CloseTagEndIff` | src/strip-boilerplate.ts:50 | the closing-tag search succeeds exactly on `</` + one or more letters + `>` |
| `StripBoilerplate.TagPassList` | src/strip-boilerplate.ts:37-45 | the passes for a tag list are a paired pass and then a self-closing pass for each tag, in list order |
| `StripBoilerplate.RolePassList` | src/strip-boilerplate.ts:48-54 | one role pass per role, in list order |
| `StripBoilerplate.ApplyPassesAppend` | src/strip-boilerplate.ts:33-57 | running two pass lists one after another is running their concatenation |
| `StripBoilerplate.StrippedSubsequence` | src/strip-boilerplate.ts:32-59 | every pass only deletes, so the output is a subsequence of the input and never longer |
| `StripBoilerplate.StrippedClean` | src/strip-boilerplate.ts:32-60 | clean input, in which no pass of the call can start a span at any position, is returned unchanged |
| `StripBoilerplate.StrippedWithoutMarkup` | src/strip-boilerplate.ts:32-60 | an input in which every `<` is the last character or is followed by `/` is returned unchanged, for any extra tags that are non-empty and do not start with `/` |
| `StripBoilerplate.StrippedWithoutAngleBracket` | src/strip-boilerplate.ts:32-60 | an input with no `<` comes back unchanged, whatever the extra tags |
| `StripBoilerplate.NoAngleBracket` | src/strip-boilerplate.ts:39-57 | an input with no `<` at all qualifies for the previous property |
| `StripBoilerplate.UnclosedPairedStops` | src/strip-boilerplate.ts:39 | when `<tag` has no closing tag after it, no later position has one either, and the rest of the text is kept |
| `StripBoilerplate.NoMatchFrom` | src/strip-boilerplate.ts:40 | a scan that meets no match keeps the text as it is |
| `StripBoilerplate.NestedSameTagLeavesTail` | src/strip-boilerplate.ts:39 | `<nav>a<nav>b</nav>c</nav>` becomes `c</nav>`: the span ends at the first `</nav>` |
| `StripBoilerplate.LongerTagNameNotPaired` | src/strip-boilerplate.ts:39 | `<navbar>x</navbar>` is not a paired `nav` match |
| `StripBoilerplate.LongerTagNameSelfClosing` | src/strip-boilerplate.ts:43 | `<navbar/>` is deleted by the self-closing `nav` pass, which has no boundary check |
| `StripBoilerplate.UpperCaseTagStripped` | src/strip-boilerplate.ts:39 | `<NAV>x</NAV>` is deleted because of the `i` flag |
| `StripBoilerplate.DataRoleAttributeStripped` | src/strip-boilerplate.ts:50 | `data-role="banner"` is enough to match the role pass |
| `StripBoilerplate.RoleSpanSkipsDigitCloseTag` | src/strip-boilerplate.ts:50 | `</h1>`, which contains a digit, does not end a role span |
| `StripBoilerplate.CommentPassJoinsTag` | src/strip-boilerplate.ts:37-57 | the comment pass turns `<na<!---->v>x</nav>` into `<nav>x</nav>`, which a `nav` pass then deletes entirely, so the stripper's output need not be clean |
| `StripBoilerplate.CommentSeenAfterTags` | src/strip-boilerplate.ts:37-57 | a `</nav>` inside a comment still ends a nav span, because comments are removed last |
| `Tokens.EstimateTokens` | src/tokens.ts:8-10 | the estimate is the least `r` with `4r >= length` |
| `Tokens.EstimateTokensUnique` | src/tokens.ts:9 | that least `r` is unique, so the estimate is `ceil(length / 4)` |
| `Tokens.EstimateTokensMonotone` | src/tokens.ts:9 | appending text never lowers the estimate and adds at most the appended text's estimate |
| `Tokens.EstimateTokensByLength` | src/tokens.ts:9 | the estimate depends only on the length |
| `Tokens.EstimateTokensOfLength400` | src/tokens.ts:9 | 400 code units give 100 tokens |
| `Tokens.EstimateTokensExamples` | src/tokens.ts:9 | lengths 0, 1, 4 and 5 give 0, 1, 1 and 2 |
| `Detect.WantsMarkdown` | src/detect.ts:5-8 | true exactly when an `accept` header exists and contains `text/markdown` |
| `Detect.ShortAcceptIsNotMarkdown` | src/detect.ts:7 | an `accept` value shorter than `text/markdown` gives false |
| `Detect.MarkdownInAcceptList` | src/detect.ts:7 | `text/html, text/markdown;q=0.9` gives true |
| `Detect.UpperCaseAcceptIgnored` | src/detect.ts:7 | the test is case-sensitive: `TEXT/MARKDOWN` gives false |
| `Detect.NoAcceptNoMarkdown` | src/detect.ts:6 | with no `accept` header the answer is false whatever the URL and the other headers |
| `JsString.Includes` | src/detect.ts:7 | `includes` holds exactly when the word occurs at some index |
| `JsString.ParseInt` | src/cli.ts:42 | plain definition of `parseInt(s, 10)`: leading whitespace, an optional sign, the longest digit run; NaN without digits |
| `JsString.ParseIntOf` | src/cli.ts:42 | `parseInt` skips leading whitespace, reads an optional sign and the longest digit run, and ignores the rest |
| `JsString.ParseIntWithoutDigits` | src/cli.ts:42-43 | text without digits parses to NaN |
| `JsString.ParseIntOfDecimal` | src/middleware.ts:84 | `parseInt(String(n))` is `n`, so the token header reads back as the estimate |
| `JsString.DecimalRoundTrip` | src/middleware.ts:84 | the decimal digits of `n` have value `n` |
| `Http.Set` | src/fetch-html.ts:20-30 | `Headers.set` makes `get` of that name return the value, leaves other names alone and adds one lower-cased key |
| `Http.LowerChar` | src/fetch-html.ts:19-30 | `A`-`Z` move up by 32 onto `a`-`z`; every other character is unchanged |
| `Http.Lower` | src/fetch-html.ts:19-30 | each character of a header name is lower-cased by `LowerChar`, position by position; already lower-case names are unchanged |
| `Http.Get` | src/fetch-html.ts:19-23 | plain definition of `headers.get`: the entry under the lower-cased name, or `null` |
| `FetchHtml.NonEmpty` | src/fetch-html.ts:19-24 | a header is forwarded exactly when present and non-empty |
| `FetchHtml.AcceptedHtml` | src/fetch-html.ts:39-48 | the HTML is the body exactly when fetch did not throw, the status is 2xx and the content type contains `text/html`; otherwise null |
| `FetchHtml.FetchPageHtml` | src/fetch-html.ts:11-49 | the request goes to the incoming URL with GET and `no-store`; its headers are the forwarded set; the result is the accepted HTML |
| `FetchHtml.CopiedAfterSets` | src/fetch-html.ts:19-24 | the two conditional `set` calls copy `cookie` and `accept-language` exactly when non-empty |
| `FetchHtml.ForwardedAfterSets` | src/fetch-html.ts:16-30 | after the skip-header and `accept` calls the headers are exactly the forwarded set |
| `FetchHtml.AcceptAlwaysHtml` | src/fetch-html.ts:30 | the outgoing `accept` is always `text/html`, overriding the caller's |
| `FetchHtml.RejectedResponses` | src/fetch-html.ts:43-48 | 404, 301, a JSON type and a missing type give null; `text/html; charset=utf-8` gives the body |
| `Middleware.BuildContentSignalHeader` | src/middleware.ts:12-21 | no header exactly for `false`; otherwise each permission is `no` only when explicitly false, in the order ai-train, search, ai-input |
| `Middleware.SignalHeaderInjective` | src/middleware.ts:20 | the header value determines the three permissions |
| `Middleware.ContentSignalAllowAll` | src/middleware.ts:15-20 | `true` and `{}` both give `ai-train=yes, search=yes, ai-input=yes` |
| `Middleware.ContentSignalDenyTraining` | src/middleware.ts:16-20 | `{aiTrain: false, search: true, aiInput: true}` gives `ai-train=no, search=yes, ai-input=yes` |
| `Middleware.Handle` | src/middleware.ts:44-100 | a skip header equal to `1`, or no markdown request, delegates with no self-fetch; otherwise it self-fetches a `GET` of the same URL with cache mode `no-store` and the forwarded headers; null or empty HTML delegates; other HTML gives status 200 with body `convert(strip(html))` and exactly the markdown headers |
| `Middleware.RespondWithMarkdown` | src/middleware.ts:75-99 | stripping precedes conversion; status 200; the exact header map; `x-markdown-tokens` parses back to the body's estimate |
| `Middleware.MarkdownResponseOf` | src/middleware.ts:82-99 | the response built from a markdown body has status 200 and exactly the content-type, token, vary and content-signal headers |
| `Middleware.BuiltHeaderValues` | src/middleware.ts:82-94 | after the `new Headers` and the conditional `set` calls each header has its documented value |
| `Middleware.BuiltHeaderKeys` | src/middleware.ts:82-94 | `vary` is present exactly when `varyHeader`; `content-signal` exactly when the builder returns a value |
| `Middleware.ResponseHeadersBuilt` | src/middleware.ts:82-94 | the built headers are the markdown headers and the token count reads back |
| `Middleware.SelfFetchPassesThrough` | src/middleware.ts:58-68 | the handler's own self-fetch is never negotiated again, so it cannot loop |
| `Build.Slug` | src/build.ts:81 | `/` gives `index`; otherwise one leading `/` is removed; a route without one is kept |
| `Build.SlugNotInjective` | src/build.ts:102 | `/` and `/index` share a slug |
| `Build.MarkdownPublicPath` | src/build.ts:129-131 | the path is `/.well-known/markdown/`, then the route's slug, then `.md` |
| `Build.MarkdownPublicPathSameFile` | src/build.ts:129-131 | two pathnames share a public path exactly when they share a slug |
| `Build.MarkdownPublicPathExamples` | src/build.ts:123-131 | `/` and `/blog/hello` map to `/.well-known/markdown/index.md` and `/.well-known/markdown/blog/hello.md` |
| `Build.DefaultOutputServedAtPublicPath` | src/build.ts:129-131 | with default options each file is written at `public` + its public path |
| `Build.MdFileInjective` | src/build.ts:82 | two routes write the same file only when they share a slug |
| `Build.FirstExisting` | src/build.ts:114-120 | the first existing path supplies the content; none exists exactly when the result is null |
| `Build.FirstExistingAgree` | src/build.ts:114-118 | the lookup depends only on the candidate files |
| `Build.FindHtmlForRoute` | src/build.ts:101-121 | the loop returns the first existing of the five candidates, in order: app page.html, app .html, app index.html, pages .html, pages index.html |
| `Build.SkippedIffNoHtml` | src/build.ts:71-75 | a route is skipped exactly when no candidate exists or the first existing one is empty |
| `Build.RoutesPartition` | src/build.ts:65-89 | generated and skipped together hold every route once, as a multiset; `|generated| + |skipped| = |routes|` |
| `Build.WritesTargets` | src/build.ts:82-85 | every write targets the `.md` file of some manifest route |
| `Build.KeepsOtherFiles` | src/build.ts:84-85 | files that are not a route's `.md` file are unchanged |
| `Build.LookupAfterWrites` | src/build.ts:70-87 | writing `.md` files never changes what the HTML lookup finds |
| `Build.GeneratedFileContent` | src/build.ts:77-85 | a generated route's `.md` file holds `convert(strip(html))` of its own HTML, unless another route has the same slug |
| `Build.ApplyWritesElsewhere` | src/build.ts:85 | a sequence of writes leaves untouched any path it does not write |
| `Build.BuildNeedsOutput` | src/build.ts:43-47 | a missing build directory fails before anything is read or written |
| `Build.BuildWithoutRoutes` | src/build.ts:50-62 | a missing manifest, or one whose `routes` object has no keys, gives two empty lists and writes nothing |
| `Build.BuildReportsEveryRoute` | src/build.ts:59-89 | a successful build reports each route in exactly one list, skipped exactly when it has no HTML, and leaves other files as they were |
| `Build.GenerateRoute` | src/build.ts:71-86 | one loop iteration: a route with non-empty HTML is generated, its Markdown written to `<outDir>/<slug>.md` and that file's directories created; any other route leaves the file system unchanged |
| `Build.GenerateRoutes` | src/build.ts:65-87 | the loop's lists and file writes are those of the route-by-route specification |
| `Build.BuildStaticMarkdown` | src/build.ts:33-90 | the result and the new files and directories are those of the function `Build` of the old state |
| `Build.RenderMarkdown` | src/build.ts:77 | a route's markdown is `convert(strip(html, stripSelectors))` |
| `Fs.FileSystem.WriteFile` | src/build.ts:85 | `writeFileSync` replaces one file and nothing else |
| `Fs.FileSystem.MakeDirs` | src/build.ts:84 | `mkdirSync(…, {recursive: true})` adds the directory and its ancestors |
| `Fs.DirnameOfJoin` | src/build.ts:84 | `dirname(join(a, b))` is `a` for a plain name `b` |
| `Fs.FirstPresent` | src/cli.ts:66 | `find(existsSync)` gives the first candidate that exists, or undefined exactly when none does |
| `Cli.NextVersionStringPrecedence` | src/cli.ts:41 | `dependencies.next`, else `devDependencies.next`, else the empty string |
| `Cli.RemoveFirstNonDigit` | src/cli.ts:42 | `replace(/[^0-9]/, '')` as written: only the first non-digit is removed |
| `Cli.MajorAsWritten` | src/cli.ts:42-43 | plain definition: `parseInt` of the text after that replacement, 15 for NaN |
| `Cli.MajorAsWrittenWithPrefix` | src/cli.ts:42-43 | as written, one leading non-digit (`^15.2.0`, `~16.1.0`) gives the major version |
| `Cli.MajorAsWrittenDropsDot` | src/cli.ts:42 | as written, a bare `a.0…` version reads as `10·a` |
| `Cli.MajorAsWrittenWithoutDigits` | src/cli.ts:43 | a version without digits (`''`, `latest`) defaults to 15 |
| `Cli.VersionFindingAsWritten` | src/cli.ts:42 | as written, `15.0.0` reads as 150 |
| `Cli.RangeFindingAsWritten` | src/cli.ts:42-43 | as written, `>=16.1.0` reads as 15 |
| `Cli.DropLeadingNonDigits` | src/cli.ts:42 | the corrected version drops every leading non-digit and stops at the first digit |
| `Cli.MajorIntendedReadsMajor` | src/cli.ts:42-43 | corrected: any non-digit prefix followed by the major version gives that version |
| `Cli.MajorIntendedWithoutDigits` | src/cli.ts:43 | corrected: a version without digits defaults to 15 |
| `Cli.VersionFindingIntended` | src/cli.ts:42 | corrected: `15.0.0` reads as 15 |
| `Cli.RangeFindingIntended` | src/cli.ts:42 | corrected: `>=16.1.0` reads as 16 |
| `Cli.NextVersionRange` | src/cli.ts:40-41 | no version text exactly when `package.json` is missing or does not parse; otherwise the `next` entry by the precedence above |
| `Cli.DetectNextVersion` | src/cli.ts:38-47 | as written: a missing or unparsable `package.json` gives 15, otherwise the version text read as the source reads it |
| `Cli.DetectNextVersionIntended` | src/cli.ts:38-47 | corrected: the same, with the version text read by its major version |
| `Cli.DetectNextVersionAgreesOnCaret` | src/cli.ts:42-43 | for a `^16.1.0`-style range, one non-digit before the major version, both readings give that major version |
| `Cli.DetectExactPinAsWritten` | src/cli.ts:38-47 | as written, `"next": "15.0.0"` gives 150 |
| `Cli.InitCreatesScaffold` | src/cli.ts:54-76 | with no candidate present, `init` creates the scaffold named by the detected version, under `src/` exactly when `src` exists |
| `Cli.InitExactPinWritesProxy` | src/cli.ts:38-76 | as written, with `"next": "15.0.0"` and no middleware yet, `init` writes `proxy.ts` |
| `Cli.ExactPinScaffoldIntended` | src/cli.ts:38-54 | corrected, `"next": "15.0.0"` picks `middleware.ts` |
| `Cli.ScaffoldName` | src/cli.ts:54 | `proxy.ts` exactly for major >= 16, `middleware.ts` otherwise |
| `Cli.MiddlewareCandidates` | src/cli.ts:61-66 | the eight candidates, in order, joined to the working directory |
| `Cli.RelativeOfJoin` | src/cli.ts:69 | `path.relative(cwd, join(cwd, f))` is `f` |
| `Cli.FindExistingMiddleware` | src/cli.ts:61-66 | the first existing candidate, or none |
| `Cli.RunInit` | src/cli.ts:49-76 | the outcome and new files are those of `Init`; directories are unchanged |
| `Cli.InitKeepsExisting` | src/cli.ts:61-74 | if a candidate exists, the first one is reported relative to the directory and nothing is written |
| `Cli.InitWritesScaffold` | src/cli.ts:54-76 | otherwise the scaffold is written as `proxy.ts` for Next.js 16 and later, under `src/` exactly when `src` exists |
| `Cli.ScaffoldIsCandidate` | src/cli.ts:57-66 | the file `init` writes is one of the files it looks for |
| `Cli.InitIdempotent` | src/cli.ts:61-76 | a second `init` finds the first one's file and writes nothing |
| `Cli.Report` | src/cli.ts:104-137 | "nothing to build" exactly for two empty lists; failed exactly for a thrown error |
| `Cli.ExitCode` | src/cli.ts:133-137 | exit status 1 exactly on failure |
| `Cli.RunBuild` | src/cli.ts:101-138 | the default build runs on the file system, then its result is reported |
| `Cli.BuildWithoutOutputExitsWithOne` | src/cli.ts:133-137 | without build output the CLI exits with status 1 |
| `Cli.RoutesAreReported` | src/cli.ts:107-121 | a manifest with routes is never reported as "nothing to build" |
| `ConfigPlugin.WithAgentMd` | src/config-plugin.ts:29-48 | every other field is copied; the headers are the existing rules, in order, followed by exactly the vary rule |
| `ConfigPlugin.OptionsIgnored` | src/config-plugin.ts:29 | the plugin options have no effect |
| `ConfigPlugin.OnlyVaryRuleWithoutHeaders` | src/config-plugin.ts:37 | with no `headers`, the rules are the vary rule alone |
| `ConfigPlugin.AppliedTwice` | src/config-plugin.ts:33-45 | applying the plugin twice adds the vary rule twice after the user's rules |
| `ConfigPlugin.CandidatesAgree` | src/config-plugin.ts:57-62 | the plugin and `init` look for the same eight files in the same order |
| `ConfigPlugin.CheckMiddlewareExists` | src/config-plugin.ts:54-66 | the warning is printed exactly when none of the eight candidates exists |
| `ConfigPlugin.Plugin` | src/config-plugin.ts:30-47 | the plugin warns exactly as `checkMiddlewareExists` does and returns the merged configuration |
| `ConfigPlugin.WarnsIffInitCreates` | src/config-plugin.ts:57-66 | the plugin warns exactly when `init` would create a scaffold |
| `ConfigPlugin.InitSilencesWarning` | src/config-plugin.ts:64-66 | after `init`, the plugin no longer warns |

## Findings

| source | as written | input that shows it | evidently intended | confidence | as-written member | corrected member |
|---|---|---|---|---|---|---|
| src/cli.ts:42 | `version.replace(/[^0-9]/, '')` has no `g` flag and no anchor, so it removes only the first non-digit anywhere in the version | `15.0.0` becomes `150.0` and gives 150, so `init` writes `proxy.ts` for Next.js 15; `>=16.1.0` becomes `=16.1.0`, gives NaN and defaults to 15, so `init` writes `middleware.ts` for Next.js 16 | strip the leading range characters and read the major version: 15 and 16 | not executed | `Cli.InitExactPinWritesProxy`, `Cli.VersionFindingAsWritten`, `Cli.RangeFindingAsWritten`, `Cli.MajorAsWrittenDropsDot` (used by `Cli.DetectNextVersion`, `Cli.Init`) | `Cli.DetectNextVersionIntended`, `Cli.ExactPinScaffoldIntended`, `Cli.VersionFindingIntended`, `Cli.RangeFindingIntended`, `Cli.MajorIntendedReadsMajor` |

## Left out

- src/convert.ts (`htmlToMarkdown` over the external `node-html-markdown` library) is the parameter `convert`; its options are not part of this model.
- `fetch`, `response.text()` and the network: the handler takes the response as a `FetchResponse` value. A `text()` that rejects is not modelled.
- `new URL(request.url)` parsing and normalisation: the request's URL string is passed through unchanged, and an invalid URL that makes the constructor throw is not modelled.
- `JSON.parse` of the prerender manifest and of `package.json` is a parameter (`manifestKeys`, `parsePackage`) that returns `None` when the text does not parse. An unparsable manifest makes the build fail with `ManifestUnreadable`. An unparsable `package.json` gives version 15. A `next` entry that is not a string is not modelled: dependency maps hold strings only.
- Node's `path.join`, `path.dirname` and `path.relative`: joining is `/`-concatenation, with no normalisation of `..`, duplicate or trailing slashes.
- `fs.existsSync` is membership in the file map or the directory set. A `readFileSync` on a candidate that is a directory is not modelled: the lookup looks among files only. Errors of `mkdirSync` and `writeFileSync` are not modelled.
- Console output, ANSI colours, `printHelp`, `process.argv` dispatch and `process.cwd()`: the working directory is a parameter.
- The wrapped middleware and `NextResponse.next()` are the outcomes `CallWrapped` and `NextResponse`; what they return is not modelled.
- `async`/`await`: the plugin's `headers()` function is modelled by the list it resolves to. No concurrency between requests is modelled.
- Next.js configuration fields other than `headers` are copied as opaque values of a type parameter.
- Names in `stripSelectors` that contain regular-expression metacharacters are interpolated unescaped by the source. The model treats every tag as a literal name.
- Case-insensitive matching folds ASCII letters only; the Unicode case folding of the `i` flag is not modelled.
- Idempotence of `stripBoilerplate` on its own output is not a property of the source, and the model does not promise it. The comment pass runs last (src/strip-boilerplate.ts:56-57), so `<na<!---->v>x</nav>` strips to `<nav>x</nav>`, and a second call gives the empty string. `StripBoilerplate.CommentPassJoinsTag` proves the two passes involved. Only clean input is returned unchanged (`StripBoilerplate.StrippedClean`).
- Strings are sequences of UTF-16 code units (`char`); no code-point reasoning.
- Header validation and normalisation of `Headers.set` are not modelled. A skip header name that is not a valid token throws in the source. `set` also strips leading and trailing HTTP whitespace from the value, while `Http.Set` stores the value unchanged. Every value the sources set is a constant, a decimal number, a content-signal list or a value read back with `get`, none with surrounding whitespace, so the second case does not arise.
- `JsString.ParseIntOf`: integers are unbounded, so `parseInt` of digit runs beyond 2^53 is exact here, not rounded; `String(n)` for n >= 1e21 (exponent notation) is not modelled.
- src/types.ts contains only declarations and becomes the `Types` datatypes. tsup.config.ts and example/ have no logic and are not part of this model.
