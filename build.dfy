/**
 * `buildStaticMarkdown` (src/build.ts): after `next build`, look up the
 * pre-rendered HTML of every static route listed in the prerender manifest,
 * convert it to Markdown and write it under the output directory, reporting
 * which routes were generated and which were skipped.
 *
 * The manifest's JSON is represented by `manifestKeys`, which gives the
 * ordered keys of its `routes` object, or `None` when parsing fails or there
 * is no `routes` object (both throw in the source). The HTML to Markdown
 * library is the parameter `convert`.
 */
module Build {
  import opened Wrappers
  import opened Fs
  import StripBoilerplate

  datatype BuildOptions = BuildOptions(
    cwd: Option<string>,
    distDir: Option<string>,
    outDir: Option<string>,
    stripSelectors: Option<seq<string>>)

  const NoBuildOptions := BuildOptions(None, None, None, None)

  datatype BuildResult = BuildResult(generated: seq<string>, skipped: seq<string>)

  /** What the function throws: a missing build directory, or an unreadable manifest. */
  datatype BuildError = BuildOutputMissing(distDir: string) | ManifestUnreadable(manifestPath: string)

  const DefaultDistDir := ".next"
  /** `path.join('public', '.well-known', 'markdown')` */
  const DefaultOutDir := "public/.well-known/markdown"
  const ManifestName := "prerender-manifest.json"

  function ProjectDir(options: BuildOptions, processCwd: string): string {
    options.cwd.GetOr(processCwd)
  }

  function DistDir(options: BuildOptions): string {
    options.distDir.GetOr(DefaultDistDir)
  }

  function DistPath(options: BuildOptions, processCwd: string): string {
    Join(ProjectDir(options, processCwd), DistDir(options))
  }

  function OutPath(options: BuildOptions, processCwd: string): string {
    Join(ProjectDir(options, processCwd), options.outDir.GetOr(DefaultOutDir))
  }

  function StripSelectors(options: BuildOptions): seq<string> {
    options.stripSelectors.GetOr([])
  }

  function ManifestPath(distPath: string): string {
    Join(distPath, ManifestName)
  }

  // ---------------------------------------------------------------------
  // Slugs and paths.

  /** The path of a route below the output directories: `index` for the root,
      otherwise the route without its one leading `/`. */
  function Slug(route: string): (slug: string)
    ensures route == "/" ==> slug == "index"
    ensures route != "/" && |route| > 0 && route[0] == '/' ==> "/" + slug == route
    ensures (|route| == 0 || route[0] != '/') ==> slug == route
  {
    if route == "/" then "index"
    else if |route| > 0 && route[0] == '/' then route[1..]
    else route
  }

  /** Two routes share a slug, so their Markdown files coincide. */
  lemma SlugNotInjective()
    ensures "/" != "/index" && Slug("/") == Slug("/index")
  {
    var r := "/index";
    assert r[0] == '/' && r != "/";
    assert "/" + Slug(r) == r;
    assert |Slug(r)| == 5;
    assert forall i :: 0 <= i < 5 ==> Slug(r)[i] == r[i + 1];
    assert Slug(r) == "index";
  }

  /** `markdownPublicPath(pathname)`: the URL path a pre-built file is served at. */
  function MarkdownPublicPath(pathname: string): (p: string)
    ensures |p| == |Slug(pathname)| + 25
    ensures p[..22] == "/.well-known/markdown/" && p[|p| - 3..] == ".md"
    ensures p[22..|p| - 3] == Slug(pathname)
  {
    "/.well-known/markdown/" + Slug(pathname) + ".md"
  }

  /** Two pathnames are served the same pre-built file exactly when their slugs agree. */
  lemma MarkdownPublicPathSameFile(a: string, b: string)
    ensures MarkdownPublicPath(a) == MarkdownPublicPath(b) <==> Slug(a) == Slug(b)
  {
    if MarkdownPublicPath(a) == MarkdownPublicPath(b) {
      var p := MarkdownPublicPath(a);
      assert Slug(a) == p[22..|p| - 3] == Slug(b);
    }
  }

  lemma SlugOfNestedRoute()
    ensures Slug("/blog/hello") == "blog/hello"
  {
    var r := "/blog/hello";
    assert r[0] == '/' && r != "/";
    assert "/" + Slug(r) == r;
    assert forall i :: 0 <= i < |Slug(r)| ==> Slug(r)[i] == r[i + 1];
  }

  lemma MarkdownPublicPathExamples()
    ensures MarkdownPublicPath("/") == "/.well-known/markdown/index.md"
    ensures MarkdownPublicPath("/blog/hello") == "/.well-known/markdown/blog/hello.md"
  {
    PublicPathOfRoot();
    PublicPathOfNestedRoute();
  }

  lemma PublicPathOfRoot()
    ensures MarkdownPublicPath("/") == "/.well-known/markdown/index.md"
  {
    assert MarkdownPublicPath("/") == "/.well-known/markdown/" + "index" + ".md";
  }

  lemma PublicPathOfNestedRoute()
    ensures MarkdownPublicPath("/blog/hello") == "/.well-known/markdown/blog/hello.md"
  {
    SlugOfNestedRoute();
    assert MarkdownPublicPath("/blog/hello") == "/.well-known/markdown/" + "blog/hello" + ".md";
  }

  function AppDir(distPath: string): string {
    Join(Join(distPath, "server"), "app")
  }

  function PagesDir(distPath: string): string {
    Join(Join(distPath, "server"), "pages")
  }

  /** The five places a route's HTML may be, App Router first. */
  function Candidates(distPath: string, slug: string): seq<string> {
    [ Join(Join(AppDir(distPath), slug), "page.html"),
      Join(AppDir(distPath), slug + ".html"),
      Join(Join(AppDir(distPath), slug), "index.html"),
      Join(PagesDir(distPath), slug + ".html"),
      Join(Join(PagesDir(distPath), slug), "index.html") ]
  }

  /** The file the Markdown of `route` is written to. */
  function MdFile(outPath: string, route: string): string {
    Join(outPath, Slug(route) + ".md")
  }

  lemma DefaultOutDirInPublic()
    ensures "/" + DefaultOutDir + "/" == "/public" + "/.well-known/markdown/"
  {
  }

  /** With the default options, the file written for a route is the one the
      public directory serves at `MarkdownPublicPath(route)`. */
  lemma DefaultOutputServedAtPublicPath(processCwd: string, route: string)
    ensures MdFile(OutPath(NoBuildOptions, processCwd), route)
         == processCwd + "/public" + MarkdownPublicPath(route)
  {
    var slug := Slug(route);
    var infix := "/" + DefaultOutDir + "/";
    DefaultOutDirInPublic();
    assert MdFile(OutPath(NoBuildOptions, processCwd), route) == processCwd + infix + (slug + ".md");
    var pub := MarkdownPublicPath(route);
    assert pub == "/.well-known/markdown/" + slug + ".md";
    assert processCwd + "/public" + pub == processCwd + infix + (slug + ".md");
  }

  /** Every candidate ends in `.html`; every Markdown file ends in `.md`. */
  lemma CandidatesEndInL(distPath: string, slug: string)
    ensures forall c :: c in Candidates(distPath, slug) ==> |c| > 0 && c[|c| - 1] == 'l'
  {
    JoinEndsLikeLast(Join(AppDir(distPath), slug), "page.html");
    JoinEndsLikeLast(AppDir(distPath), slug + ".html");
    JoinEndsLikeLast(Join(AppDir(distPath), slug), "index.html");
    JoinEndsLikeLast(PagesDir(distPath), slug + ".html");
    JoinEndsLikeLast(Join(PagesDir(distPath), slug), "index.html");
  }

  lemma MdFileEndsInD(outPath: string, route: string)
    ensures |MdFile(outPath, route)| > 0 && MdFile(outPath, route)[|MdFile(outPath, route)| - 1] == 'd'
  {
    JoinEndsLikeLast(outPath, Slug(route) + ".md");
  }

  /** Routes with different slugs are written to different files. */
  lemma MdFileInjective(outPath: string, r1: string, r2: string)
    requires MdFile(outPath, r1) == MdFile(outPath, r2)
    ensures Slug(r1) == Slug(r2)
  {
    var a, b := Slug(r1), Slug(r2);
    assert |a| == |b|;
    forall i | 0 <= i < |a|
      ensures a[i] == b[i]
    {
      assert MdFile(outPath, r1)[|outPath| + 1 + i] == a[i];
      assert MdFile(outPath, r2)[|outPath| + 1 + i] == b[i];
    }
  }

  // ---------------------------------------------------------------------
  // Looking up a route's HTML.

  /** The content of the first of `paths` that is a file. */
  function FirstExisting(files: map<string, string>, paths: seq<string>): (r: Option<string>)
    ensures r.Some? ==> exists i :: 0 <= i < |paths| && paths[i] in files && r.value == files[paths[i]]
                          && forall j :: 0 <= j < i ==> paths[j] !in files
    ensures r.None? <==> forall i :: 0 <= i < |paths| ==> paths[i] !in files
    decreases |paths|
  {
    if |paths| == 0 then None
    else if paths[0] in files then Some(files[paths[0]])
    else FirstExisting(files, paths[1..])
  }

  /** Two filesystems that agree on `paths` give the same lookup. */
  lemma {:induction false} FirstExistingAgree(f1: map<string, string>, f2: map<string, string>, paths: seq<string>)
    requires forall i :: 0 <= i < |paths| ==> (paths[i] in f1 <==> paths[i] in f2)
    requires forall i :: 0 <= i < |paths| && paths[i] in f1 ==> f1[paths[i]] == f2[paths[i]]
    ensures FirstExisting(f1, paths) == FirstExisting(f2, paths)
    decreases |paths|
  {
    if |paths| > 0 && paths[0] !in f1 {
      FirstExistingAgree(f1, f2, paths[1..]);
    }
  }

  /** `findHtmlForRoute(distPath, route)` as a value; `None` stands for `null`. */
  function LookupHtml(files: map<string, string>, distPath: string, route: string): Option<string> {
    FirstExisting(files, Candidates(distPath, Slug(route)))
  }

  /** A route is generated when its HTML is found and is not empty (`!html` skips ""). */
  predicate IsGenerated(files: map<string, string>, distPath: string, route: string) {
    var html := LookupHtml(files, distPath, route);
    html.Some? && html.value != ""
  }

  /** A route is skipped exactly when none of its candidates is a file, or the
      first one that is holds the empty text. */
  lemma SkippedIffNoHtml(files: map<string, string>, distPath: string, route: string)
    ensures var cands := Candidates(distPath, Slug(route));
      !IsGenerated(files, distPath, route) <==>
        (forall i :: 0 <= i < 5 ==> cands[i] !in files) ||
        (exists i :: 0 <= i < 5 && cands[i] in files && files[cands[i]] == ""
           && forall j :: 0 <= j < i ==> cands[j] !in files)
  {
    var cands := Candidates(distPath, Slug(route));
    var html := LookupHtml(files, distPath, route);
    if html.Some? {
      var k :| 0 <= k < 5 && cands[k] in files && html.value == files[cands[k]]
                && forall j :: 0 <= j < k ==> cands[j] !in files;
      forall i | 0 <= i < 5 && cands[i] in files && forall j :: 0 <= j < i ==> cands[j] !in files
        ensures i == k
      {
      }
    }
  }

  /** `findHtmlForRoute`: try the candidates in order, return the first file's content. */
  method FindHtmlForRoute(fs: FileSystem, distPath: string, route: string) returns (html: Option<string>)
    ensures html == LookupHtml(fs.files, distPath, route)
  {
    var candidates := Candidates(distPath, Slug(route));
    var i := 0;
    while i < |candidates|
      invariant 0 <= i <= |candidates|
      invariant FirstExisting(fs.files, candidates[i..]) == FirstExisting(fs.files, candidates)
    {
      if candidates[i] in fs.files {
        return Some(fs.files[candidates[i]]);
      }
      assert candidates[i..][1..] == candidates[i + 1..];
      i := i + 1;
    }
    return None;
  }

  // ---------------------------------------------------------------------
  // The build loop as values.

  /** The routes written, in manifest order. */
  function GeneratedRoutes(files: map<string, string>, distPath: string, routes: seq<string>): seq<string>
    decreases |routes|
  {
    if |routes| == 0 then []
    else
      var prev := GeneratedRoutes(files, distPath, routes[..|routes| - 1]);
      var route := routes[|routes| - 1];
      if IsGenerated(files, distPath, route) then prev + [route] else prev
  }

  /** The routes skipped, in manifest order. */
  function SkippedRoutes(files: map<string, string>, distPath: string, routes: seq<string>): seq<string>
    decreases |routes|
  {
    if |routes| == 0 then []
    else
      var prev := SkippedRoutes(files, distPath, routes[..|routes| - 1]);
      var route := routes[|routes| - 1];
      if IsGenerated(files, distPath, route) then prev else prev + [route]
  }

  /** Every route lands in exactly one of the two lists, and in the right one. */
  lemma RoutesPartition(files: map<string, string>, distPath: string, routes: seq<string>)
    ensures var g, s := GeneratedRoutes(files, distPath, routes), SkippedRoutes(files, distPath, routes);
      multiset(g) + multiset(s) == multiset(routes) && |g| + |s| == |routes|
      && (forall r :: r in g <==> r in routes && IsGenerated(files, distPath, r))
      && (forall r :: r in s <==> r in routes && !IsGenerated(files, distPath, r))
  {
    RoutesPartitionCount(files, distPath, routes);
    RoutesPartitionMembers(files, distPath, routes);
    var g, s := GeneratedRoutes(files, distPath, routes), SkippedRoutes(files, distPath, routes);
    assert |multiset(g) + multiset(s)| == |g| + |s|;
  }

  lemma {:induction false} RoutesPartitionCount(files: map<string, string>, distPath: string, routes: seq<string>)
    ensures multiset(GeneratedRoutes(files, distPath, routes)) + multiset(SkippedRoutes(files, distPath, routes))
      == multiset(routes)
    decreases |routes|
  {
    if |routes| > 0 {
      var prefix := routes[..|routes| - 1];
      var last := routes[|routes| - 1];
      RoutesPartitionCount(files, distPath, prefix);
      var gp, sp := GeneratedRoutes(files, distPath, prefix), SkippedRoutes(files, distPath, prefix);
      assert routes == prefix + [last];
      assert multiset(routes) == multiset(prefix) + multiset{last};
      if IsGenerated(files, distPath, last) {
        assert multiset(gp + [last]) == multiset(gp) + multiset{last};
      } else {
        assert multiset(sp + [last]) == multiset(sp) + multiset{last};
      }
    }
  }

  lemma {:induction false} RoutesPartitionMembers(files: map<string, string>, distPath: string, routes: seq<string>)
    ensures forall r :: r in GeneratedRoutes(files, distPath, routes) <==> r in routes && IsGenerated(files, distPath, r)
    ensures forall r :: r in SkippedRoutes(files, distPath, routes) <==> r in routes && !IsGenerated(files, distPath, r)
    decreases |routes|
  {
    if |routes| > 0 {
      var prefix := routes[..|routes| - 1];
      RoutesPartitionMembers(files, distPath, prefix);
      assert routes == prefix + [routes[|routes| - 1]];
    }
  }

  /** `html => htmlToMarkdown(stripBoilerplate(html, stripSelectors))`. */
  function Renderer(stripSelectors: seq<string>, convert: string -> string): string -> string {
    html => convert(StripBoilerplate.Stripped(html, stripSelectors))
  }

  /** The (file, Markdown) pairs written, in order; `render` turns HTML into Markdown. */
  function Writes(files: map<string, string>, distPath: string, outPath: string, routes: seq<string>,
                  render: string -> string): seq<(string, string)>
    decreases |routes|
  {
    if |routes| == 0 then []
    else
      var prev := Writes(files, distPath, outPath, routes[..|routes| - 1], render);
      var route := routes[|routes| - 1];
      if IsGenerated(files, distPath, route) then
        var html := LookupHtml(files, distPath, route).value;
        prev + [(MdFile(outPath, route), render(html))]
      else prev
  }

  /** Only the Markdown files of the given routes are written. */
  lemma {:induction false} WritesTargets(files: map<string, string>, distPath: string, outPath: string, routes: seq<string>,
                                         render: string -> string, i: nat)
    requires i < |Writes(files, distPath, outPath, routes, render)|
    ensures exists r :: r in routes && Writes(files, distPath, outPath, routes, render)[i].0 == MdFile(outPath, r)
    decreases |routes|
  {
    var prefix := routes[..|routes| - 1];
    var last := routes[|routes| - 1];
    var prev := Writes(files, distPath, outPath, prefix, render);
    var w := Writes(files, distPath, outPath, routes, render);
    if i < |prev| {
      WritesTargets(files, distPath, outPath, prefix, render, i);
      var r :| r in prefix && prev[i].0 == MdFile(outPath, r);
      assert w[i] == prev[i];
      assert r in routes;
    } else {
      assert w[i].0 == MdFile(outPath, last);
    }
  }

  /** Every path written ends in `d`, as `.md` does. */
  lemma WritesEndInD(files: map<string, string>, distPath: string, outPath: string, routes: seq<string>,
                     render: string -> string)
    ensures var w := Writes(files, distPath, outPath, routes, render);
      forall i :: 0 <= i < |w| ==> |w[i].0| > 0 && w[i].0[|w[i].0| - 1] == 'd'
  {
    var w := Writes(files, distPath, outPath, routes, render);
    forall i | 0 <= i < |w|
      ensures |w[i].0| > 0 && w[i].0[|w[i].0| - 1] == 'd'
    {
      WritesTargets(files, distPath, outPath, routes, render, i);
      var r :| r in routes && w[i].0 == MdFile(outPath, r);
      MdFileEndsInD(outPath, r);
    }
  }

  /** The files after performing `writes` in order. */
  function ApplyWrites(files: map<string, string>, writes: seq<(string, string)>): map<string, string>
    decreases |writes|
  {
    if |writes| == 0 then files
    else
      var last := writes[|writes| - 1];
      ApplyWrites(files, writes[..|writes| - 1])[last.0 := last.1]
  }

  /** The directories made for `writes`. */
  function WriteDirs(writes: seq<(string, string)>): set<string>
    decreases |writes|
  {
    if |writes| == 0 then {}
    else WriteDirs(writes[..|writes| - 1]) + Ancestors(Dirname(writes[|writes| - 1].0))
  }

  lemma WritesSnoc(files: map<string, string>, writes: seq<(string, string)>, last: (string, string))
    ensures ApplyWrites(files, writes + [last]) == ApplyWrites(files, writes)[last.0 := last.1]
    ensures WriteDirs(writes + [last]) == WriteDirs(writes) + Ancestors(Dirname(last.0))
  {
    assert (writes + [last])[..|writes|] == writes;
  }

  /** A path no write touches is as it was. */
  lemma {:induction false} ApplyWritesElsewhere(files: map<string, string>, writes: seq<(string, string)>, k: string)
    requires forall i :: 0 <= i < |writes| ==> writes[i].0 != k
    ensures (k in ApplyWrites(files, writes) <==> k in files)
    ensures k in files ==> ApplyWrites(files, writes)[k] == files[k]
    decreases |writes|
  {
    if |writes| > 0 {
      ApplyWritesElsewhere(files, writes[..|writes| - 1], k);
    }
  }

  /** Files no route writes, among them all the build output, are left alone. */
  lemma KeepsOtherFiles(files: map<string, string>, distPath: string, outPath: string, routes: seq<string>,
                        render: string -> string, k: string)
    requires forall r :: r in routes ==> k != MdFile(outPath, r)
    ensures var after := ApplyWrites(files, Writes(files, distPath, outPath, routes, render));
      (k in after <==> k in files) && (k in files ==> after[k] == files[k])
  {
    var w := Writes(files, distPath, outPath, routes, render);
    forall i | 0 <= i < |w|
      ensures w[i].0 != k
    {
      WritesTargets(files, distPath, outPath, routes, render, i);
    }
    ApplyWritesElsewhere(files, w, k);
  }

  /** Writing Markdown never changes where a route's HTML is found. */
  lemma LookupAfterWrites(files: map<string, string>, distPath: string, outPath: string, routes: seq<string>,
                          render: string -> string, route: string)
    ensures LookupHtml(ApplyWrites(files, Writes(files, distPath, outPath, routes, render)), distPath, route)
         == LookupHtml(files, distPath, route)
  {
    var w := Writes(files, distPath, outPath, routes, render);
    var cands := Candidates(distPath, Slug(route));
    CandidatesEndInL(distPath, Slug(route));
    WritesEndInD(files, distPath, outPath, routes, render);
    forall i | 0 <= i < |cands|
      ensures (cands[i] in ApplyWrites(files, w) <==> cands[i] in files)
      ensures cands[i] in files ==> ApplyWrites(files, w)[cands[i]] == files[cands[i]]
    {
      ApplyWritesElsewhere(files, w, cands[i]);
    }
    FirstExistingAgree(ApplyWrites(files, w), files, cands);
  }

  /** A generated route whose slug no other route shares ends up with its
      Markdown file holding the converted, stripped HTML. */
  lemma {:induction false} GeneratedFileContent(files: map<string, string>, distPath: string, outPath: string,
                                                routes: seq<string>, render: string -> string,
                                                route: string)
    requires route in routes && IsGenerated(files, distPath, route)
    requires forall r :: r in routes && Slug(r) == Slug(route) ==> r == route
    ensures var after := ApplyWrites(files, Writes(files, distPath, outPath, routes, render));
      MdFile(outPath, route) in after
      && after[MdFile(outPath, route)]
         == render(LookupHtml(files, distPath, route).value)
    decreases |routes|
  {
    var prefix := routes[..|routes| - 1];
    var last := routes[|routes| - 1];
    assert routes == prefix + [last];
    if last != route {
      assert route in prefix;
      GeneratedFileContent(files, distPath, outPath, prefix, render, route);
      if IsGenerated(files, distPath, last) && MdFile(outPath, last) == MdFile(outPath, route) {
        MdFileInjective(outPath, last, route);
        assert false;
      }
    }
  }

  // ---------------------------------------------------------------------
  // The whole build.

  /** The result and the filesystem after a build. */
  datatype Run = Run(result: Result<BuildResult, BuildError>, files: map<string, string>, dirs: set<string>)

  /** What `buildStaticMarkdown(options)` returns or throws, and the filesystem it leaves. */
  function Build(files: map<string, string>, dirs: set<string>, options: BuildOptions, processCwd: string,
                 manifestKeys: string -> Option<seq<string>>, convert: string -> string): Run
  {
    var distPath := DistPath(options, processCwd);
    var outPath := OutPath(options, processCwd);
    var manifestPath := ManifestPath(distPath);
    if distPath !in files && distPath !in dirs then
      Run(Failure(BuildOutputMissing(DistDir(options))), files, dirs)
    else if manifestPath !in files && manifestPath !in dirs then
      Run(Success(BuildResult([], [])), files, dirs)
    else if manifestPath !in files || manifestKeys(files[manifestPath]).None? then
      Run(Failure(ManifestUnreadable(manifestPath)), files, dirs)
    else
      var routes := manifestKeys(files[manifestPath]).value;
      if |routes| == 0 then Run(Success(BuildResult([], [])), files, dirs)
      else
        var w := Writes(files, distPath, outPath, routes, Renderer(StripSelectors(options), convert));
        Run(Success(BuildResult(GeneratedRoutes(files, distPath, routes), SkippedRoutes(files, distPath, routes))),
            ApplyWrites(files, w), dirs + Ancestors(outPath) + WriteDirs(w))
  }

  /** Without the build directory the build throws and touches nothing. */
  lemma BuildNeedsOutput(files: map<string, string>, dirs: set<string>, options: BuildOptions, processCwd: string,
                         manifestKeys: string -> Option<seq<string>>, convert: string -> string)
    requires var d := DistPath(options, processCwd); d !in files && d !in dirs
    ensures Build(files, dirs, options, processCwd, manifestKeys, convert)
         == Run(Failure(BuildOutputMissing(DistDir(options))), files, dirs)
  {
  }

  /** A missing manifest, or one without routes, gives two empty lists and writes nothing. */
  lemma BuildWithoutRoutes(files: map<string, string>, dirs: set<string>, options: BuildOptions, processCwd: string,
                           manifestKeys: string -> Option<seq<string>>, convert: string -> string)
    requires var d := DistPath(options, processCwd); d in files || d in dirs
    requires var m := ManifestPath(DistPath(options, processCwd));
      (m !in files && m !in dirs) || (m in files && manifestKeys(files[m]) == Some([]))
    ensures Build(files, dirs, options, processCwd, manifestKeys, convert)
         == Run(Success(BuildResult([], [])), files, dirs)
  {
  }

  /** A successful build reports each manifest route once, in the right list,
      and leaves every other file as it was. */
  lemma BuildReportsEveryRoute(files: map<string, string>, dirs: set<string>, options: BuildOptions, processCwd: string,
                               manifestKeys: string -> Option<seq<string>>, convert: string -> string)
    requires var m := ManifestPath(DistPath(options, processCwd));
      var d := DistPath(options, processCwd);
      (d in files || d in dirs) && m in files && manifestKeys(files[m]).Some?
    ensures var m := ManifestPath(DistPath(options, processCwd));
      var routes := manifestKeys(files[m]).value;
      var run := Build(files, dirs, options, processCwd, manifestKeys, convert);
      run.result.Success?
      && multiset(run.result.value.generated) + multiset(run.result.value.skipped) == multiset(routes)
      && (forall r :: r in run.result.value.skipped <==> r in routes && !IsGenerated(files, DistPath(options, processCwd), r))
      && (forall k :: k in files && (forall r :: r in routes ==> k != MdFile(OutPath(options, processCwd), r))
            ==> k in run.files && run.files[k] == files[k])
  {
    var distPath := DistPath(options, processCwd);
    var routes := manifestKeys(files[ManifestPath(distPath)]).value;
    RoutesPartition(files, distPath, routes);
    forall k | k in files && (forall r :: r in routes ==> k != MdFile(OutPath(options, processCwd), r))
      ensures k in Build(files, dirs, options, processCwd, manifestKeys, convert).files
      ensures Build(files, dirs, options, processCwd, manifestKeys, convert).files[k] == files[k]
    {
      KeepsOtherFiles(files, distPath, OutPath(options, processCwd), routes, Renderer(StripSelectors(options), convert), k);
    }
  }

  /** How the two route lists grow when one more route is handled. */
  lemma RoutesStep(files: map<string, string>, distPath: string, routes: seq<string>, i: nat)
    requires i < |routes|
    ensures var route, before, after := routes[i], routes[..i], routes[..i + 1];
      if IsGenerated(files, distPath, route) then
        GeneratedRoutes(files, distPath, after) == GeneratedRoutes(files, distPath, before) + [route]
        && SkippedRoutes(files, distPath, after) == SkippedRoutes(files, distPath, before)
      else
        GeneratedRoutes(files, distPath, after) == GeneratedRoutes(files, distPath, before)
        && SkippedRoutes(files, distPath, after) == SkippedRoutes(files, distPath, before) + [route]
  {
    assert routes[..i + 1][..i] == routes[..i];
  }

  /** How the writes grow when one more route is handled. */
  lemma WritesStep(files: map<string, string>, distPath: string, outPath: string, routes: seq<string>,
                   render: string -> string, i: nat)
    requires i < |routes|
    ensures var route, before, after := routes[i], routes[..i], routes[..i + 1];
      Writes(files, distPath, outPath, after, render)
      == Writes(files, distPath, outPath, before, render)
         + if IsGenerated(files, distPath, route) then
             [(MdFile(outPath, route),
               render(LookupHtml(files, distPath, route).value))]
           else []
  {
    assert routes[..i + 1][..i] == routes[..i];
  }

  /** The filesystem after one more route is handled. */
  lemma WriteStepEffect(files: map<string, string>, distPath: string, outPath: string, routes: seq<string>,
                        render: string -> string, i: nat)
    requires i < |routes|
    ensures var route := routes[i];
      var before := Writes(files, distPath, outPath, routes[..i], render);
      var after := Writes(files, distPath, outPath, routes[..i + 1], render);
      if IsGenerated(files, distPath, route) then
        ApplyWrites(files, after)
        == ApplyWrites(files, before)[MdFile(outPath, route) :=
             render(LookupHtml(files, distPath, route).value)]
        && WriteDirs(after) == WriteDirs(before) + Ancestors(Dirname(MdFile(outPath, route)))
      else after == before
  {
    var route := routes[i];
    WritesStep(files, distPath, outPath, routes, render, i);
    if IsGenerated(files, distPath, route) {
      WritesSnoc(files, Writes(files, distPath, outPath, routes[..i], render),
        (MdFile(outPath, route), render(LookupHtml(files, distPath, route).value)));
    }
  }

  /** The loop invariant carried over one iteration, from the filesystem
      before it (`f`, `d`) to the one after it (`f2`, `d2`). */
  lemma LoopStep(files0: map<string, string>, dirs0: set<string>, distPath: string, outPath: string,
                 routes: seq<string>, render: string -> string, i: nat,
                 f: map<string, string>, d: set<string>, f2: map<string, string>, d2: set<string>)
    requires i < |routes|
    requires f == ApplyWrites(files0, Writes(files0, distPath, outPath, routes[..i], render))
    requires d == dirs0 + WriteDirs(Writes(files0, distPath, outPath, routes[..i], render))
    requires IsGenerated(files0, distPath, routes[i]) ==>
      f2 == f[MdFile(outPath, routes[i]) := render(LookupHtml(files0, distPath, routes[i]).value)]
      && d2 == d + Ancestors(Dirname(MdFile(outPath, routes[i])))
    requires !IsGenerated(files0, distPath, routes[i]) ==> f2 == f && d2 == d
    ensures f2 == ApplyWrites(files0, Writes(files0, distPath, outPath, routes[..i + 1], render))
    ensures d2 == dirs0 + WriteDirs(Writes(files0, distPath, outPath, routes[..i + 1], render))
  {
    WriteStepEffect(files0, distPath, outPath, routes, render, i);
  }

  /** `htmlToMarkdown(stripBoilerplate(html, stripSelectors))`: stripping comes first. */
  method RenderMarkdown(html: string, stripSelectors: seq<string>, convert: string -> string) returns (markdown: string)
    ensures markdown == convert(StripBoilerplate.Stripped(html, stripSelectors))
  {
    var stripped := StripBoilerplate.StripBoilerplate(html, stripSelectors);
    markdown := convert(stripped);
  }

  /** One iteration of the loop: look up `route`, and write its Markdown when
      there is HTML for it. The lookup sees what it would have seen in `files0`. */
  method GenerateRoute(fs: FileSystem, ghost files0: map<string, string>, distPath: string, outPath: string,
                       route: string, stripSelectors: seq<string>, convert: string -> string)
    returns (generated: bool)
    requires LookupHtml(fs.files, distPath, route) == LookupHtml(files0, distPath, route)
    modifies fs
    ensures generated == IsGenerated(files0, distPath, route)
    ensures generated ==>
      fs.files == old(fs.files)[MdFile(outPath, route) :=
                                  Renderer(stripSelectors, convert)(LookupHtml(files0, distPath, route).value)]
      && fs.dirs == old(fs.dirs) + Ancestors(Dirname(MdFile(outPath, route)))
    ensures !generated ==> fs.files == old(fs.files) && fs.dirs == old(fs.dirs)
  {
    var html := FindHtmlForRoute(fs, distPath, route);
    if html.None? || html.value == "" {
      return false;
    }
    var markdown := RenderMarkdown(html.value, stripSelectors, convert);
    var mdFile := Join(outPath, Slug(route) + ".md");
    fs.MakeDirs(Dirname(mdFile));
    fs.WriteFile(mdFile, markdown);
    return true;
  }

  /** The loop of `buildStaticMarkdown` over the manifest's routes. */
  method GenerateRoutes(fs: FileSystem, distPath: string, outPath: string, staticRoutes: seq<string>,
                        stripSelectors: seq<string>, convert: string -> string)
    returns (generated: seq<string>, skipped: seq<string>)
    modifies fs
    ensures generated == GeneratedRoutes(old(fs.files), distPath, staticRoutes)
    ensures skipped == SkippedRoutes(old(fs.files), distPath, staticRoutes)
    ensures fs.files == ApplyWrites(old(fs.files), Writes(old(fs.files), distPath, outPath, staticRoutes, Renderer(stripSelectors, convert)))
    ensures fs.dirs == old(fs.dirs) + WriteDirs(Writes(old(fs.files), distPath, outPath, staticRoutes, Renderer(stripSelectors, convert)))
  {
    ghost var files0 := fs.files;
    ghost var dirs0 := fs.dirs;
    ghost var render := Renderer(stripSelectors, convert);
    generated, skipped := [], [];
    assert staticRoutes[..0] == [];

    for i := 0 to |staticRoutes|
      invariant generated == GeneratedRoutes(files0, distPath, staticRoutes[..i])
      invariant skipped == SkippedRoutes(files0, distPath, staticRoutes[..i])
      invariant fs.files == ApplyWrites(files0, Writes(files0, distPath, outPath, staticRoutes[..i], render))
      invariant fs.dirs == dirs0 + WriteDirs(Writes(files0, distPath, outPath, staticRoutes[..i], render))
    {
      var route := staticRoutes[i];
      RoutesStep(files0, distPath, staticRoutes, i);
      LookupAfterWrites(files0, distPath, outPath, staticRoutes[..i], render, route);
      ghost var filesBefore, dirsBefore := fs.files, fs.dirs;
      var written := GenerateRoute(fs, files0, distPath, outPath, route, stripSelectors, convert);
      LoopStep(files0, dirs0, distPath, outPath, staticRoutes, render, i, filesBefore, dirsBefore, fs.files, fs.dirs);
      if written {
        generated := generated + [route];
      } else {
        skipped := skipped + [route];
      }
    }
    assert staticRoutes[..|staticRoutes|] == staticRoutes;
  }

  /** `buildStaticMarkdown(options)`. */
  method BuildStaticMarkdown(fs: FileSystem, options: BuildOptions, processCwd: string,
                             manifestKeys: string -> Option<seq<string>>, convert: string -> string)
    returns (result: Result<BuildResult, BuildError>)
    modifies fs
    ensures Run(result, fs.files, fs.dirs)
         == Build(old(fs.files), old(fs.dirs), options, processCwd, manifestKeys, convert)
  {
    var distDir := DistDir(options);
    var stripSelectors := StripSelectors(options);
    var distPath := DistPath(options, processCwd);
    var outPath := OutPath(options, processCwd);

    if !fs.Exists(distPath) {
      return Failure(BuildOutputMissing(distDir));
    }

    var manifestPath := ManifestPath(distPath);
    if !fs.Exists(manifestPath) {
      return Success(BuildResult([], []));
    }
    if manifestPath !in fs.files {
      return Failure(ManifestUnreadable(manifestPath));
    }
    var keys := manifestKeys(fs.files[manifestPath]);
    if keys.None? {
      return Failure(ManifestUnreadable(manifestPath));
    }
    var staticRoutes := keys.value;
    if |staticRoutes| == 0 {
      return Success(BuildResult([], []));
    }

    fs.MakeDirs(outPath);
    var generated, skipped := GenerateRoutes(fs, distPath, outPath, staticRoutes, stripSelectors, convert);
    return Success(BuildResult(generated, skipped));
  }
}
