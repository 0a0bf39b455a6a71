/**
 * The `next.config` plugin (src/config-plugin.ts): it copies the user's
 * configuration, appends one `Vary: accept` header rule to whatever rules
 * the configuration already returns, and warns at start-up when no proxy or
 * middleware file exists.
 *
 * A Next.js configuration is modelled as its `headers` rules together with a
 * map holding every other field under its name; the values of those fields
 * are never looked at, so their type is a parameter. The async `headers()`
 * function is modelled by the list it resolves to, `None` when the
 * configuration has no `headers` field.
 */
module ConfigPlugin {
  import opened Wrappers
  import opened Fs
  import Cli

  datatype HeaderEntry = HeaderEntry(key: string, value: string)

  /** One entry of the list `headers()` returns: a path pattern and the headers it sets. */
  datatype HeaderRule = HeaderRule(source: string, headers: seq<HeaderEntry>)

  datatype NextConfig<V> = NextConfig(settings: map<string, V>, headers: Option<seq<HeaderRule>>)

  /** The plugin's options; no option is read. */
  datatype PluginOptions = PluginOptions(entries: map<string, string>)

  /** Every path except Next.js static assets and the favicon. */
  const NonStaticSource := "/((?!_next/static|_next/image|favicon.ico).*)"

  /** The rule the plugin adds so that caches keep HTML and Markdown apart. */
  const VaryRule := HeaderRule(NonStaticSource, [HeaderEntry("vary", "accept")])

  /** `withAgentMd(options)(nextConfig)` without the start-up check: the
      configuration copied, with the vary rule after the existing rules. */
  function WithAgentMd<V>(options: PluginOptions, config: NextConfig<V>): (r: NextConfig<V>)
    ensures r.settings == config.settings
    ensures r.headers.Some?
    ensures var existing := config.headers.GetOr([]);
      |r.headers.value| == |existing| + 1
      && r.headers.value[..|existing|] == existing
      && r.headers.value[|existing|] == VaryRule
  {
    NextConfig(config.settings, Some(config.headers.GetOr([]) + [VaryRule]))
  }

  /** The options have no effect on the result. */
  lemma OptionsIgnored<V>(a: PluginOptions, b: PluginOptions, config: NextConfig<V>)
    ensures WithAgentMd(a, config) == WithAgentMd(b, config)
  {
  }

  /** A configuration without `headers` ends up with the vary rule alone. */
  lemma OnlyVaryRuleWithoutHeaders<V>(options: PluginOptions, config: NextConfig<V>)
    requires config.headers.None?
    ensures WithAgentMd(options, config).headers == Some([VaryRule])
  {
  }

  /** Applying the plugin twice keeps the user's rules first and adds the vary rule twice. */
  lemma AppliedTwice<V>(options: PluginOptions, config: NextConfig<V>)
    ensures var once := WithAgentMd(options, config);
      WithAgentMd(options, once).settings == config.settings
      && WithAgentMd(options, once).headers == Some(config.headers.GetOr([]) + [VaryRule, VaryRule])
  {
    var e := config.headers.GetOr([]);
    assert e + [VaryRule] + [VaryRule] == e + [VaryRule, VaryRule];
  }

  /** The files whose presence silences the start-up warning. */
  const MiddlewareFiles: seq<string> := [
    "proxy.ts", "proxy.js",
    "middleware.ts", "middleware.js",
    "src/proxy.ts", "src/proxy.js",
    "src/middleware.ts", "src/middleware.js"]

  /** The plugin looks for the same files, in the same order, as `init` does. */
  lemma CandidatesAgree()
    ensures MiddlewareFiles == Cli.MiddlewareFiles
  {
  }

  /** Whether the start-up check prints its hint: no candidate exists. */
  predicate Warns(files: map<string, string>, dirs: set<string>, cwd: string) {
    forall i :: 0 <= i < |MiddlewareFiles| ==>
      Join(cwd, MiddlewareFiles[i]) !in files && Join(cwd, MiddlewareFiles[i]) !in dirs
  }

  /** `checkMiddlewareExists()`: `candidates.some(existsSync)`, and the hint when it is false. */
  method CheckMiddlewareExists(fs: FileSystem, processCwd: string) returns (warned: bool)
    ensures warned <==> Warns(fs.files, fs.dirs, processCwd)
  {
    var found := false;
    var i := 0;
    while i < |MiddlewareFiles| && !found
      invariant 0 <= i <= |MiddlewareFiles|
      invariant found ==> i > 0 && fs.Exists(Join(processCwd, MiddlewareFiles[i - 1]))
      invariant !found ==> forall j :: 0 <= j < i ==> !fs.Exists(Join(processCwd, MiddlewareFiles[j]))
    {
      found := fs.Exists(Join(processCwd, MiddlewareFiles[i]));
      i := i + 1;
    }
    warned := !found;
  }

  /** `withAgentMd(options)(nextConfig)`: the start-up check, then the new configuration. */
  method Plugin<V>(fs: FileSystem, processCwd: string, options: PluginOptions, config: NextConfig<V>)
    returns (warned: bool, result: NextConfig<V>)
    ensures warned <==> Warns(fs.files, fs.dirs, processCwd)
    ensures result == WithAgentMd(options, config)
  {
    warned := CheckMiddlewareExists(fs, processCwd);
    result := WithAgentMd(options, config);
  }

  /** The warning is printed exactly when `init` would write a new scaffold. */
  lemma WarnsIffInitCreates(files: map<string, string>, dirs: set<string>, cwd: string,
                            parsePackage: string -> Option<Cli.Package>)
    ensures Warns(files, dirs, cwd) <==> Cli.Init(files, dirs, cwd, parsePackage).outcome.Created?
  {
    var cands := Cli.MiddlewareCandidates(cwd);
    assert Warns(files, dirs, cwd) <==> forall i :: 0 <= i < |cands| ==> cands[i] !in files && cands[i] !in dirs;
  }

  /** After `init`, the plugin no longer warns. */
  lemma InitSilencesWarning(files: map<string, string>, dirs: set<string>, cwd: string,
                            parsePackage: string -> Option<Cli.Package>)
    ensures !Warns(Cli.Init(files, dirs, cwd, parsePackage).files, dirs, cwd)
  {
    var after := Cli.Init(files, dirs, cwd, parsePackage).files;
    if Cli.Init(files, dirs, cwd, parsePackage).outcome.Created? {
      Cli.InitIdempotent(files, dirs, cwd, parsePackage);
      WarnsIffInitCreates(after, dirs, cwd, parsePackage);
    } else {
      WarnsIffInitCreates(files, dirs, cwd, parsePackage);
    }
  }
}
