/**
 * The `init` and `build` commands (src/cli.ts). `init` picks the Next.js
 * major version from package.json, chooses `proxy.ts` or `middleware.ts` and
 * writes the scaffold unless a middleware or proxy file is already there.
 * `build` runs the static pre-builder with default options and turns its
 * outcome into a report and an exit status.
 *
 * `parsePackage` stands for `JSON.parse` of package.json: `None` when it
 * throws or gives something whose fields cannot be read.
 */
module Cli {
  import opened Wrappers
  import opened Fs
  import opened JsString
  import Build

  /** The two fields of package.json that are read; each maps package names to version ranges. */
  datatype Package = Package(
    dependencies: Option<map<string, string>>,
    devDependencies: Option<map<string, string>>)

  /** `pkg.dependencies?.next ?? pkg.devDependencies?.next ?? ''` */
  function NextVersionString(pkg: Package): string {
    if pkg.dependencies.Some? && "next" in pkg.dependencies.value then pkg.dependencies.value["next"]
    else if pkg.devDependencies.Some? && "next" in pkg.devDependencies.value then pkg.devDependencies.value["next"]
    else ""
  }

  /** `dependencies` wins over `devDependencies`; a package without `next` gives the empty text. */
  lemma NextVersionStringPrecedence(pkg: Package, v: string, w: string)
    ensures NextVersionString(Package(Some(map["next" := v]), Some(map["next" := w]))) == v
    ensures NextVersionString(Package(None, Some(map["next" := w]))) == w
    ensures NextVersionString(Package(Some(map[]), None)) == ""
  {
  }

  /** `s.replace(/[^0-9]/, '')`: without the `g` flag, only the first
      non-digit character, the one just after the leading digits, is removed. */
  function RemoveFirstNonDigit(s: string): (r: string)
    ensures var k := |LeadingDigits(s)|;
      r == if k == |s| then s else s[..k] + s[k + 1..]
    decreases |s|
  {
    if |s| == 0 then s
    else if !IsDigit(s[0]) then s[1..]
    else
      var t := s[1..];
      var r := [s[0]] + RemoveFirstNonDigit(t);
      var k' := |LeadingDigits(t)|;
      assert |LeadingDigits(s)| == k' + 1;
      assert k' < |t| ==> s[..k' + 1] + s[k' + 2..] == [s[0]] + (t[..k'] + t[k' + 1..]);
      assert s == [s[0]] + t;
      r
  }

  /** The major version as the source computes it from a version text
      (`parseInt` after the replacement, 15 for NaN). */
  function MajorAsWritten(version: string): int {
    ParseInt(RemoveFirstNonDigit(version)).GetOr(15)
  }

  /** The non-digit prefix of a version range removed (`^`, `~`, `>=`, ...). */
  function DropLeadingNonDigits(s: string): (r: string)
    ensures |r| <= |s| && r == s[|s| - |r|..]
    ensures forall i :: 0 <= i < |s| - |r| ==> !IsDigit(s[i])
    ensures r == [] || IsDigit(r[0])
    decreases |s|
  {
    if |s| > 0 && !IsDigit(s[0]) then DropLeadingNonDigits(s[1..]) else s
  }

  /** The major version as evidently intended: the first run of digits of the range. */
  function MajorIntended(version: string): int {
    ParseInt(DropLeadingNonDigits(version)).GetOr(15)
  }

  /** A one-character range prefix (`^15.2.0`, `~16.1.0`) is handled as intended by the source. */
  lemma {:induction false} MajorAsWrittenWithPrefix(prefix: char, n: nat, rest: string)
    requires !IsDigit(prefix)
    requires rest == [] || !IsDigit(rest[0])
    ensures MajorAsWritten([prefix] + DecimalString(n) + rest) == n
  {
    var s := [prefix] + DecimalString(n) + rest;
    assert s[1..] == DecimalString(n) + rest;
    ParseIntOfDigits(DecimalString(n), rest);
    DecimalRoundTrip(n);
  }

  /** The character removed is the one right after the leading digits. */
  lemma RemoveAfterDigits(d: string, c: char, rest: string)
    requires AllDigits(d) && !IsDigit(c)
    ensures RemoveFirstNonDigit(d + [c] + rest) == d + rest
  {
    var s := d + [c] + rest;
    LeadingDigitsOf(d, [c] + rest);
    assert s == d + ([c] + rest);
    assert s[..|d|] == d && s[|d| + 1..] == rest;
  }

  /** A trailing zero multiplies a decimal by ten. */
  lemma AppendZero(a: nat)
    ensures AllDigits(DecimalString(a) + "0")
    ensures DigitsValue(DecimalString(a) + "0") == 10 * a
  {
    var digits := DecimalString(a) + "0";
    assert digits[..|digits| - 1] == DecimalString(a);
    DecimalRoundTrip(a);
  }

  lemma RemoveDot(d: string, rest: string)
    requires AllDigits(d)
    ensures RemoveFirstNonDigit(d + ".0" + rest) == d + "0" + rest
  {
    assert d + ".0" + rest == d + ['.'] + ("0" + rest);
    RemoveAfterDigits(d, '.', "0" + rest);
    assert d + ("0" + rest) == d + "0" + rest;
  }

  lemma ParseTimesTen(a: nat, rest: string)
    requires rest == [] || !IsDigit(rest[0])
    ensures ParseInt(DecimalString(a) + "0" + rest) == Some(10 * a)
  {
    var d := DecimalString(a);
    AppendZero(a);
    assert d + "0" + rest == (d + "0") + rest;
    ParseIntOfDigits(d + "0", rest);
  }

  /** A bare version `a.0.x` loses its first dot: the source reads `10 * a`. */
  lemma {:induction false} MajorAsWrittenDropsDot(a: nat, rest: string)
    requires rest == [] || !IsDigit(rest[0])
    ensures MajorAsWritten(DecimalString(a) + ".0" + rest) == 10 * a
  {
    RemoveDot(DecimalString(a), rest);
    ParseTimesTen(a, rest);
  }

  /** A version text without digits (`''`, `latest`, `*`) falls back to 15. */
  lemma MajorAsWrittenWithoutDigits(version: string)
    requires forall i :: 0 <= i < |version| ==> !IsDigit(version[i])
    ensures MajorAsWritten(version) == 15
  {
    var r := RemoveFirstNonDigit(version);
    assert forall i :: 0 <= i < |r| ==> !IsDigit(r[i]) by {
      var k := |LeadingDigits(version)|;
      if k < |version| {
        assert forall i :: 0 <= i < |r| ==> r[i] == version[if i < k then i else i + 1];
      }
    }
    ParseIntWithoutDigits(r);
  }

  /** The corrected reading: any non-digit prefix, then the major version. */
  lemma {:induction false} MajorIntendedReadsMajor(prefix: string, n: nat, rest: string)
    requires forall i :: 0 <= i < |prefix| ==> !IsDigit(prefix[i])
    requires rest == [] || !IsDigit(rest[0])
    ensures MajorIntended(prefix + DecimalString(n) + rest) == n
    decreases |prefix|
  {
    var s := prefix + DecimalString(n) + rest;
    if prefix == [] {
      assert s == DecimalString(n) + rest;
      assert IsDigit(s[0]);
      ParseIntOfDigits(DecimalString(n), rest);
      DecimalRoundTrip(n);
    } else {
      assert s[1..] == prefix[1..] + DecimalString(n) + rest;
      MajorIntendedReadsMajor(prefix[1..], n, rest);
    }
  }

  /** A version text without digits falls back to 15 in the corrected reading too. */
  lemma MajorIntendedWithoutDigits(version: string)
    requires forall i :: 0 <= i < |version| ==> !IsDigit(version[i])
    ensures MajorIntended(version) == 15
  {
    ParseIntWithoutDigits(DropLeadingNonDigits(version));
  }

  /** The source reads `15.0.0` as 150. */
  lemma VersionFindingAsWritten()
    ensures MajorAsWritten("15.0.0") == 150
  {
    var v := DecimalString(15) + ".0" + ".0";
    assert v == "15.0.0" by {
      assert DecimalString(15) == "15";
    }
    MajorAsWrittenDropsDot(15, ".0");
  }

  /** The corrected reading gives 15 for `15.0.0`. */
  lemma VersionFindingIntended()
    ensures MajorIntended("15.0.0") == 15
  {
    var v := "" + DecimalString(15) + ".0.0";
    assert v == "15.0.0" by {
      assert DecimalString(15) == "15";
    }
    MajorIntendedReadsMajor("", 15, ".0.0");
  }

  /** A two-character range prefix keeps its second character: the source reads
      `>=16.1.0` as NaN and so as 15. */
  lemma RangeFindingAsWritten()
    ensures MajorAsWritten(">=16.1.0") == 15
  {
    var v := ">=16.1.0";
    assert RemoveFirstNonDigit(v) == v[1..];
    ParseIntWithoutLeadingDigit(v[1..]);
  }

  /** The corrected reading gives 16 for `>=16.1.0`. */
  lemma RangeFindingIntended()
    ensures MajorIntended(">=16.1.0") == 16
  {
    var v := ">=" + DecimalString(16) + ".1.0";
    assert v == ">=16.1.0" by {
      assert DecimalString(16) == "16";
    }
    MajorIntendedReadsMajor(">=", 16, ".1.0");
  }

  /** Text starting with a character that is neither blank, sign nor digit parses to NaN. */
  lemma ParseIntWithoutLeadingDigit(t: string)
    requires |t| > 0 && !IsDigit(t[0]) && t[0] != '+' && t[0] != '-' && !IsJsSpace(t[0])
    ensures ParseInt(t) == None
  {
    assert TrimStart(t) == t;
  }

  /** The text of `<cwd>/package.json`, or `None` when reading it throws. */
  function PackageJsonText(files: map<string, string>, cwd: string): Option<string> {
    var p := Join(cwd, "package.json");
    if p in files then Some(files[p]) else None
  }

  /** The `next` version range of `<cwd>/package.json`, `None` when reading or
      parsing the file throws. */
  function NextVersionRange(files: map<string, string>, cwd: string,
                            parsePackage: string -> Option<Package>): (v: Option<string>)
    ensures v.None? <==> PackageJsonText(files, cwd).None?
                         || parsePackage(PackageJsonText(files, cwd).value).None?
    ensures v.Some? ==> v.value == NextVersionString(parsePackage(PackageJsonText(files, cwd).value).value)
  {
    match PackageJsonText(files, cwd)
    case None => None
    case Some(text) =>
      match parsePackage(text)
      case None => None
      case Some(pkg) => Some(NextVersionString(pkg))
  }

  /** `detectNextVersion(cwd)` as written: the version read by `MajorAsWritten`;
      every failure gives 15. */
  function DetectNextVersion(files: map<string, string>, cwd: string, parsePackage: string -> Option<Package>): (major: int)
    ensures NextVersionRange(files, cwd, parsePackage).None? ==> major == 15
    ensures NextVersionRange(files, cwd, parsePackage).Some?
            ==> major == MajorAsWritten(NextVersionRange(files, cwd, parsePackage).value)
  {
    match NextVersionRange(files, cwd, parsePackage)
    case None => 15
    case Some(version) => MajorAsWritten(version)
  }

  /** `detectNextVersion(cwd)` with the corrected major-version reading. */
  function DetectNextVersionIntended(files: map<string, string>, cwd: string,
                                     parsePackage: string -> Option<Package>): (major: int)
    ensures NextVersionRange(files, cwd, parsePackage).None? ==> major == 15
    ensures NextVersionRange(files, cwd, parsePackage).Some?
            ==> major == MajorIntended(NextVersionRange(files, cwd, parsePackage).value)
  {
    match NextVersionRange(files, cwd, parsePackage)
    case None => 15
    case Some(version) => MajorIntended(version)
  }

  /** The two readings agree on a version with a one-character range prefix
      (`^15.2.0`, `~16.1.0`), the form package managers write by default. */
  lemma DetectNextVersionAgreesOnCaret(files: map<string, string>, cwd: string,
                                       parsePackage: string -> Option<Package>,
                                       prefix: char, n: nat, rest: string)
    requires NextVersionRange(files, cwd, parsePackage) == Some([prefix] + DecimalString(n) + rest)
    requires !IsDigit(prefix)
    requires rest == [] || !IsDigit(rest[0])
    ensures DetectNextVersion(files, cwd, parsePackage) == n
    ensures DetectNextVersionIntended(files, cwd, parsePackage) == n
  {
    MajorAsWrittenWithPrefix(prefix, n, rest);
    assert [prefix] + DecimalString(n) + rest == [prefix] + DecimalString(n) + rest;
    MajorIntendedReadsMajor([prefix], n, rest);
  }

  // ---------------------------------------------------------------------
  // init

  const MiddlewareContent :=
    "import { withMarkdownForAgents } from 'next-agent-md'\n\n"
    + "export default withMarkdownForAgents()\n\n"
    + "export const config = {\n"
    + "  matcher: ['/((?!_next/static|_next/image|favicon.ico).*)'],\n"
    + "}\n"

  /** Next.js 16 and later read `proxy.ts`; older versions read `middleware.ts`. */
  function ScaffoldName(major: int): (name: string)
    ensures name == "proxy.ts" <==> major >= 16
    ensures name == "middleware.ts" <==> major < 16
  {
    if major >= 16 then "proxy.ts" else "middleware.ts"
  }

  /** The eight files, relative to the project, whose presence stops `init`. */
  const MiddlewareFiles: seq<string> := [
    "proxy.ts", "proxy.js",
    "middleware.ts", "middleware.js",
    "src/proxy.ts", "src/proxy.js",
    "src/middleware.ts", "src/middleware.js"]

  function MiddlewareCandidates(cwd: string): (c: seq<string>)
    ensures |c| == |MiddlewareFiles|
    ensures forall i :: 0 <= i < |c| ==> c[i] == Join(cwd, MiddlewareFiles[i])
  {
    seq(|MiddlewareFiles|, i requires 0 <= i < |MiddlewareFiles| => Join(cwd, MiddlewareFiles[i]))
  }

  /** `path.relative(cwd, p)` for a path below `cwd`. */
  function Relative(cwd: string, p: string): string {
    if |cwd| + 1 <= |p| && p[..|cwd| + 1] == cwd + "/" then p[|cwd| + 1..] else p
  }

  lemma RelativeOfJoin(cwd: string, f: string)
    ensures Relative(cwd, Join(cwd, f)) == f
  {
    var p := Join(cwd, f);
    assert p[..|cwd| + 1] == cwd + "/";
    assert p[|cwd| + 1..] == f;
  }

  /** `existing.find(f => fs.existsSync(f))` over the candidates, in order. */
  method FindExistingMiddleware(fs: FileSystem, cwd: string) returns (existing: Option<string>)
    ensures existing == FirstPresent(fs.files, fs.dirs, MiddlewareCandidates(cwd))
  {
    var candidates := MiddlewareCandidates(cwd);
    var i := 0;
    while i < |candidates|
      invariant 0 <= i <= |candidates|
      invariant FirstPresent(fs.files, fs.dirs, candidates[i..]) == FirstPresent(fs.files, fs.dirs, candidates)
    {
      if fs.Exists(candidates[i]) {
        return Some(candidates[i]);
      }
      assert candidates[i..][1..] == candidates[i + 1..];
      i := i + 1;
    }
    return None;
  }

  /** What `init` reports: the file that is already there, or the one it created. */
  datatype InitOutcome = AlreadyExists(relativePath: string) | Created(displayPath: string)

  datatype InitRun = InitRun(outcome: InitOutcome, files: map<string, string>)

  function UsesSrcDir(files: map<string, string>, dirs: set<string>, cwd: string): bool {
    var src := Join(cwd, "src");
    src in files || src in dirs
  }

  /** Where the scaffold goes: `src/<name>` when `src` exists, `<name>` otherwise. */
  function TargetFile(cwd: string, useSrcDir: bool, name: string): string {
    if useSrcDir then Join(Join(cwd, "src"), name) else Join(cwd, name)
  }

  function DisplayPath(useSrcDir: bool, name: string): string {
    if useSrcDir then "src/" + name else name
  }

  /** `runInit()` as a value: the outcome and the files afterwards. */
  function Init(files: map<string, string>, dirs: set<string>, cwd: string,
                parsePackage: string -> Option<Package>): InitRun
  {
    var name := ScaffoldName(DetectNextVersion(files, cwd, parsePackage));
    var useSrcDir := UsesSrcDir(files, dirs, cwd);
    match FirstPresent(files, dirs, MiddlewareCandidates(cwd))
    case Some(existing) => InitRun(AlreadyExists(Relative(cwd, existing)), files)
    case None =>
      InitRun(Created(DisplayPath(useSrcDir, name)), files[TargetFile(cwd, useSrcDir, name) := MiddlewareContent])
  }

  /** `runInit()`. */
  method RunInit(fs: FileSystem, processCwd: string, parsePackage: string -> Option<Package>)
    returns (outcome: InitOutcome)
    modifies fs
    ensures InitRun(outcome, fs.files) == Init(old(fs.files), old(fs.dirs), processCwd, parsePackage)
    ensures fs.dirs == old(fs.dirs)
  {
    var cwd := processCwd;
    var nextMajor := DetectNextVersion(fs.files, cwd, parsePackage);
    var filename := ScaffoldName(nextMajor);
    var useSrcDir := fs.Exists(Join(cwd, "src"));
    var targetDir := if useSrcDir then Join(cwd, "src") else cwd;
    var targetFile := Join(targetDir, filename);
    var displayPath := if useSrcDir then "src/" + filename else filename;

    var existing := FindExistingMiddleware(fs, cwd);
    if existing.Some? {
      return AlreadyExists(Relative(cwd, existing.value));
    }
    fs.WriteFile(targetFile, MiddlewareContent);
    return Created(displayPath);
  }

  /** When any candidate exists, `init` reports the first one and writes nothing. */
  lemma InitKeepsExisting(files: map<string, string>, dirs: set<string>, cwd: string,
                          parsePackage: string -> Option<Package>, i: nat)
    requires i < |MiddlewareFiles|
    requires var c := Join(cwd, MiddlewareFiles[i]); c in files || c in dirs
    requires forall j :: 0 <= j < i ==> Join(cwd, MiddlewareFiles[j]) !in files && Join(cwd, MiddlewareFiles[j]) !in dirs
    ensures Init(files, dirs, cwd, parsePackage) == InitRun(AlreadyExists(MiddlewareFiles[i]), files)
  {
    var cands := MiddlewareCandidates(cwd);
    var r := FirstPresent(files, dirs, cands);
    assert r.Some?;
    var k :| 0 <= k < |cands| && cands[k] == r.value && (r.value in files || r.value in dirs)
             && forall j :: 0 <= j < k ==> cands[j] !in files && cands[j] !in dirs;
    assert k == i;
    RelativeOfJoin(cwd, MiddlewareFiles[i]);
  }

  /** When no candidate exists, `init` writes the scaffold, under `src/` exactly
      when `src` exists and named `proxy.ts` exactly for Next.js 16 and later. */
  lemma InitWritesScaffold(files: map<string, string>, dirs: set<string>, cwd: string,
                           parsePackage: string -> Option<Package>)
    requires forall i :: 0 <= i < |MiddlewareFiles| ==>
      Join(cwd, MiddlewareFiles[i]) !in files && Join(cwd, MiddlewareFiles[i]) !in dirs
    ensures var major := DetectNextVersion(files, cwd, parsePackage);
      var useSrc := UsesSrcDir(files, dirs, cwd);
      var name := if major >= 16 then "proxy.ts" else "middleware.ts";
      var target := if useSrc then cwd + "/src/" + name else cwd + "/" + name;
      Init(files, dirs, cwd, parsePackage)
      == InitRun(Created(if useSrc then "src/" + name else name), files[target := MiddlewareContent])
  {
    var cands := MiddlewareCandidates(cwd);
    assert FirstPresent(files, dirs, cands).None?;
    var name := ScaffoldName(DetectNextVersion(files, cwd, parsePackage));
    assert Join(Join(cwd, "src"), name) == cwd + "/src/" + name;
  }

  /** The scaffold `init` writes is always one of the files it looks for. */
  lemma ScaffoldIsCandidate(cwd: string, useSrcDir: bool, name: string)
    requires name == "proxy.ts" || name == "middleware.ts"
    ensures var i := (if useSrcDir then 4 else 0) + (if name == "proxy.ts" then 0 else 2);
      i < |MiddlewareFiles| && MiddlewareCandidates(cwd)[i] == TargetFile(cwd, useSrcDir, name)
  {
    var f := if useSrcDir then "src/" + name else name;
    assert TargetFile(cwd, useSrcDir, name) == Join(cwd, f);
    var i := (if useSrcDir then 4 else 0) + (if name == "proxy.ts" then 0 else 2);
    assert MiddlewareFiles[i] == f;
  }

  /** `init` run twice writes once: the second run finds the file the first created. */
  lemma InitIdempotent(files: map<string, string>, dirs: set<string>, cwd: string,
                       parsePackage: string -> Option<Package>)
    requires Init(files, dirs, cwd, parsePackage).outcome.Created?
    ensures var after := Init(files, dirs, cwd, parsePackage).files;
      Init(after, dirs, cwd, parsePackage).outcome.AlreadyExists?
      && Init(after, dirs, cwd, parsePackage).files == after
  {
    var name := ScaffoldName(DetectNextVersion(files, cwd, parsePackage));
    var useSrc := UsesSrcDir(files, dirs, cwd);
    var target := TargetFile(cwd, useSrc, name);
    var after := Init(files, dirs, cwd, parsePackage).files;
    assert after == files[target := MiddlewareContent];
    ScaffoldIsCandidate(cwd, useSrc, name);
    var i := (if useSrc then 4 else 0) + (if name == "proxy.ts" then 0 else 2);
    var cands := MiddlewareCandidates(cwd);
    assert cands[i] in after;
    assert FirstPresent(after, dirs, cands).Some?;
  }

  /** As written, a project pinned to `"next": "15.0.0"` gets `proxy.ts`, the
      file Next.js 15 does not read. */
  lemma InitExactPinWritesProxy(files: map<string, string>, dirs: set<string>, cwd: string,
                                parsePackage: string -> Option<Package>)
    requires forall i :: 0 <= i < |MiddlewareFiles| ==>
      Join(cwd, MiddlewareFiles[i]) !in files && Join(cwd, MiddlewareFiles[i]) !in dirs
    requires NextVersionRange(files, cwd, parsePackage) == Some("15.0.0")
    ensures Init(files, dirs, cwd, parsePackage).outcome
            == Created(if UsesSrcDir(files, dirs, cwd) then "src/proxy.ts" else "proxy.ts")
  {
    DetectExactPinAsWritten(files, cwd, parsePackage);
    InitCreatesScaffold(files, dirs, cwd, parsePackage);
    ProxyDisplayPaths();
  }

  lemma ProxyDisplayPaths()
    ensures DisplayPath(true, "proxy.ts") == "src/proxy.ts"
    ensures DisplayPath(false, "proxy.ts") == "proxy.ts"
  {
  }

  /** With no candidate present, `init` reports the scaffold it creates. */
  lemma InitCreatesScaffold(files: map<string, string>, dirs: set<string>, cwd: string,
                            parsePackage: string -> Option<Package>)
    requires forall i :: 0 <= i < |MiddlewareFiles| ==>
      Join(cwd, MiddlewareFiles[i]) !in files && Join(cwd, MiddlewareFiles[i]) !in dirs
    ensures Init(files, dirs, cwd, parsePackage).outcome
            == Created(DisplayPath(UsesSrcDir(files, dirs, cwd), ScaffoldName(DetectNextVersion(files, cwd, parsePackage))))
  {
    assert FirstPresent(files, dirs, MiddlewareCandidates(cwd)).None?;
  }

  /** As written, the pin `15.0.0` is read as major version 150. */
  lemma DetectExactPinAsWritten(files: map<string, string>, cwd: string,
                                parsePackage: string -> Option<Package>)
    requires NextVersionRange(files, cwd, parsePackage) == Some("15.0.0")
    ensures DetectNextVersion(files, cwd, parsePackage) == 150
  {
    VersionFindingAsWritten();
  }

  /** With the corrected reading the same project gets `middleware.ts`. */
  lemma ExactPinScaffoldIntended(files: map<string, string>, cwd: string,
                                 parsePackage: string -> Option<Package>)
    requires NextVersionRange(files, cwd, parsePackage) == Some("15.0.0")
    ensures ScaffoldName(DetectNextVersionIntended(files, cwd, parsePackage)) == "middleware.ts"
  {
    VersionFindingIntended();
  }

  // ---------------------------------------------------------------------
  // build

  /** What `runBuild` reports. */
  datatype BuildReport =
    | NothingToBuild
    | Wrote(generated: seq<string>, skipped: seq<string>)
    | Failed(error: Build.BuildError)

  function Report(result: Result<Build.BuildResult, Build.BuildError>): (r: BuildReport)
    ensures r.NothingToBuild? <==> result == Success(Build.BuildResult([], []))
    ensures r.Failed? <==> result.Failure?
    ensures r.Wrote? ==> r.generated == result.value.generated && r.skipped == result.value.skipped
  {
    match result
    case Failure(e) => Failed(e)
    case Success(b) =>
      if |b.generated| == 0 && |b.skipped| == 0 then NothingToBuild else Wrote(b.generated, b.skipped)
  }

  /** `process.exit(1)` after an error; a normal return otherwise. */
  function ExitCode(r: BuildReport): (code: int)
    ensures code == 1 <==> r.Failed?
    ensures code == 0 <==> !r.Failed?
  {
    if r.Failed? then 1 else 0
  }

  /** `runBuild()`: the pre-builder with default options. */
  method RunBuild(fs: FileSystem, processCwd: string, manifestKeys: string -> Option<seq<string>>,
                  convert: string -> string)
    returns (report: BuildReport, exitCode: int)
    modifies fs
    ensures var run := Build.Build(old(fs.files), old(fs.dirs), Build.NoBuildOptions, processCwd, manifestKeys, convert);
      report == Report(run.result) && exitCode == ExitCode(report)
      && fs.files == run.files && fs.dirs == run.dirs
  {
    var result := Build.BuildStaticMarkdown(fs, Build.NoBuildOptions, processCwd, manifestKeys, convert);
    report := Report(result);
    exitCode := ExitCode(report);
  }

  /** Without `.next`, the build command fails with status 1. */
  lemma BuildWithoutOutputExitsWithOne(files: map<string, string>, dirs: set<string>, processCwd: string,
                                      manifestKeys: string -> Option<seq<string>>, convert: string -> string)
    requires var d := Build.DistPath(Build.NoBuildOptions, processCwd); d !in files && d !in dirs
    ensures ExitCode(Report(Build.Build(files, dirs, Build.NoBuildOptions, processCwd, manifestKeys, convert).result)) == 1
  {
    Build.BuildNeedsOutput(files, dirs, Build.NoBuildOptions, processCwd, manifestKeys, convert);
  }

  /** A manifest with at least one route never reads as "no static pages". */
  lemma RoutesAreReported(files: map<string, string>, dirs: set<string>, processCwd: string,
                          manifestKeys: string -> Option<seq<string>>, convert: string -> string)
    requires var d := Build.DistPath(Build.NoBuildOptions, processCwd);
      var m := Build.ManifestPath(d);
      (d in files || d in dirs) && m in files && manifestKeys(files[m]).Some? && |manifestKeys(files[m]).value| > 0
    ensures Report(Build.Build(files, dirs, Build.NoBuildOptions, processCwd, manifestKeys, convert).result).Wrote?
  {
    var d := Build.DistPath(Build.NoBuildOptions, processCwd);
    var routes := manifestKeys(files[Build.ManifestPath(d)]).value;
    Build.RoutesPartition(files, d, routes);
  }
}
