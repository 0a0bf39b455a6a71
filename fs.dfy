/**
 * The slice of `node:fs` and `node:path` the build and init commands use: a
 * filesystem holding file contents by path and a set of directory paths,
 * `existsSync`, `writeFileSync` and `mkdirSync(..., { recursive: true })`,
 * and `path.join` / `path.dirname` on paths written with `/`.
 */
module Fs {
  import opened Wrappers

  /** `path.join(a, b)`: the two segments joined by one separator (no normalisation). */
  function Join(a: string, b: string): string {
    a + "/" + b
  }

  /** A joined path ends the way its last segment ends. */
  lemma JoinEndsLikeLast(a: string, b: string)
    requires |b| > 0
    ensures |Join(a, b)| > 0 && Join(a, b)[|Join(a, b)| - 1] == b[|b| - 1]
  {
  }

  /** Index of the last `/` in `p`, if any. */
  function LastSlash(p: string): (r: Option<nat>)
    ensures r.Some? ==> r.value < |p| && p[r.value] == '/'
    ensures r.Some? ==> forall j :: r.value < j < |p| ==> p[j] != '/'
    ensures r.None? ==> forall j :: 0 <= j < |p| ==> p[j] != '/'
    decreases |p|
  {
    if |p| == 0 then None
    else if p[|p| - 1] == '/' then Some(|p| - 1)
    else LastSlash(p[..|p| - 1])
  }

  /** `path.dirname(p)` for a path without a trailing separator. */
  function Dirname(p: string): string {
    match LastSlash(p)
    case None => "."
    case Some(i) => if i == 0 then "/" else p[..i]
  }

  /** The directory holding `Join(a, b)` is `a` when `b` is a single segment. */
  lemma DirnameOfJoin(a: string, b: string)
    requires |a| > 0 && '/' !in b
    ensures Dirname(Join(a, b)) == a
  {
    var p := Join(a, b);
    assert p[|a|] == '/';
    assert forall j :: |a| < j < |p| ==> p[j] == b[j - |a| - 1];
    var r := LastSlash(p);
    assert r.Some? && r.value >= |a|;
    assert r.value == |a|;
    assert p[..|a|] == a;
  }

  /** Every directory `mkdirSync(p, { recursive: true })` makes sure of: `p`
      and each of its proper prefixes that ends just before a separator. */
  function Ancestors(p: string): (r: set<string>)
    ensures |p| > 0 ==> p in r
    ensures forall d :: d in r ==> |d| > 0 && |d| <= |p| && d == p[..|d|]
  {
    var r := set i | 0 < i <= |p| && (i == |p| || p[i] == '/') :: p[..i];
    assert p[..|p|] == p;
    assert |p| > 0 ==> p[..|p|] in r;
    r
  }

  /** The filesystem as the sources see it. */
  class FileSystem {
    var files: map<string, string>
    var dirs: set<string>

    constructor (files: map<string, string>, dirs: set<string>)
      ensures this.files == files && this.dirs == dirs
    {
      this.files := files;
      this.dirs := dirs;
    }

    /** `fs.existsSync(path)`: a file or a directory is there. */
    predicate Exists(path: string)
      reads this
    {
      path in files || path in dirs
    }

    /** `fs.writeFileSync(path, content, 'utf8')`. */
    method WriteFile(path: string, content: string)
      modifies this
      ensures files == old(files)[path := content]
      ensures dirs == old(dirs)
    {
      files := files[path := content];
    }

    /** `fs.mkdirSync(path, { recursive: true })`. */
    method MakeDirs(path: string)
      modifies this
      ensures dirs == old(dirs) + Ancestors(path)
      ensures files == old(files)
    {
      dirs := dirs + Ancestors(path);
    }
  }

  /** The first of `paths` that exists (the `find` of an `existsSync` test). */
  function FirstPresent(files: map<string, string>, dirs: set<string>, paths: seq<string>): (r: Option<string>)
    ensures r.Some? ==> exists i :: 0 <= i < |paths| && paths[i] == r.value
                          && (r.value in files || r.value in dirs)
                          && forall j :: 0 <= j < i ==> paths[j] !in files && paths[j] !in dirs
    ensures r.None? <==> forall i :: 0 <= i < |paths| ==> paths[i] !in files && paths[i] !in dirs
    decreases |paths|
  {
    if |paths| == 0 then None
    else if paths[0] in files || paths[0] in dirs then Some(paths[0])
    else FirstPresent(files, dirs, paths[1..])
  }
}
