/**
 * The repository store: the filesystem under REPOS_DIR as the server sees it,
 * `os.path.join`, and the rules that turn a request's name into a directory
 * name under the root.
 */
module Store {
  import opened Wrappers
  import opened Text
  import opened Process

  type Path = string

  datatype Kind = File | Dir

  /** A filesystem: every path that exists, by its text without trailing `/`. */
  type Entries = map<Path, Kind>

  /** What an operation returned, with the filesystem it left behind. */
  datatype Step<+T> = Step(value: T, fs: Entries)

  /** REPOS_DIR as `os.path.expanduser` yields it: non-empty, no trailing `/`. */
  predicate ValidRoot(root: Path) {
    root != [] && root[|root| - 1] != '/'
  }

  /** `os.path.join(a, b)` on POSIX: an absolute `b` replaces `a`. */
  function Join(a: Path, b: string): (p: Path)
    ensures StartsWith(b, "/") ==> p == b
    ensures !StartsWith(b, "/") ==> EndsWith(p, b) && StartsWith(p, a)
  {
    if StartsWith(b, "/") then b
    else if a == [] || EndsWith(a, "/") then a + b
    else a + "/" + b
  }

  /** Under a valid root a name without a leading `/` is one more path component. */
  lemma JoinUnderRoot(root: Path, name: string)
    requires ValidRoot(root) && !StartsWith(name, "/")
    ensures Join(root, name) == root + "/" + name
  {
  }

  /**
   * What `stat(p)` finds. The map holds paths without trailing slashes; a
   * path written with trailing slashes names the same entry and must be a
   * directory.
   */
  function Lookup(fs: Entries, p: Path): (k: Option<Kind>)
    ensures k.Some? ==> RStripChar(p, '/') in fs || p in fs
  {
    var q := RStripChar(p, '/');
    if q == p || q == [] then (if p in fs then Some(fs[p]) else None)
    else if q in fs && fs[q] == Dir then Some(Dir)
    else None
  }

  /** `os.path.exists` */
  predicate Exists(fs: Entries, p: Path) {
    Lookup(fs, p).Some?
  }

  /** `os.path.isdir` */
  predicate IsDir(fs: Entries, p: Path) {
    Lookup(fs, p) == Some(Dir)
  }

  /** `is_git_dir(path)`: `path/.git` is a directory. */
  predicate IsGitDir(fs: Entries, p: Path) {
    IsDir(fs, Join(p, ".git"))
  }

  /** A path without a trailing `/` is looked up as written. */
  lemma LookupPlain(fs: Entries, p: Path)
    requires p != [] && p[|p| - 1] != '/'
    ensures Lookup(fs, p) == if p in fs then Some(fs[p]) else None
  {
  }

  /** The same path with a trailing `/` exists exactly when it is a directory. */
  lemma LookupTrailingSlash(fs: Entries, p: Path)
    requires p != [] && p[|p| - 1] != '/'
    ensures Exists(fs, p + "/") <==> IsDir(fs, p)
  {
    RStripCharAppend(p, '/');
    assert RStripChar(p, '/') == p;
    assert RStripChar(p + "/", '/') == p != p + "/";
  }

  /** The names `os.listdir(dir)` returns, as a set. */
  function Children(fs: Entries, dir: Path): (names: set<string>)
    ensures forall n :: n in names <==> n != [] && '/' !in n && dir + "/" + n in fs
  {
    var prefix := dir + "/";
    var names := set k | k in fs && |k| > |prefix| && k[..|prefix|] == prefix && '/' !in k[|prefix|..] :: k[|prefix|..];
    assert forall n :: n != [] && '/' !in n && prefix + n in fs ==> n in names by {
      forall n | n != [] && '/' !in n && prefix + n in fs ensures n in names {
        var k := prefix + n;
        assert k[..|prefix|] == prefix && k[|prefix|..] == n;
      }
    }
    assert forall n :: n in names ==> prefix + n in fs by {
      forall n | n in names ensures prefix + n in fs {
        var k :| k in fs && |k| > |prefix| && k[..|prefix|] == prefix && '/' !in k[|prefix|..] && n == k[|prefix|..];
        assert k == prefix + n;
      }
    }
    assert forall n :: prefix + n == dir + "/" + n;
    names
  }

  /** `os.makedirs(p, exist_ok=True)` without the creation of missing parents. */
  function MakeDirsStep(fs: Entries, p: Path, describe: Fault -> string): (s: Step<Result<()>>)
  {
    if IsDir(fs, p) then Step(Ok(()), fs)
    else if Exists(fs, p) then Step(Err(FileExistsError(describe(PathBlocked(p)))), fs)
    else Step(Ok(()), fs[p := Dir])
  }

  /** makedirs fails exactly on a non-directory in the way, and otherwise leaves a directory. */
  lemma MakeDirsOutcome(fs: Entries, p: Path, describe: Fault -> string)
    requires p != [] && p[|p| - 1] != '/'
    ensures var s := MakeDirsStep(fs, p, describe);
      && (s.value.Err? <==> p in fs && fs[p] == File)
      && (s.value.Err? ==> s.fs == fs)
      && (s.value.Ok? ==> IsDir(s.fs, p) && s.fs.Keys == fs.Keys + {p}
                          && forall q :: q in fs && q != p ==> s.fs[q] == fs[q])
  {
  }

  /** A second makedirs finds the directory the first one left. */
  lemma MakeDirsIdempotent(fs: Entries, p: Path, describe: Fault -> string)
    requires p != [] && p[|p| - 1] != '/'
    requires MakeDirsStep(fs, p, describe).value.Ok?
    ensures var s := MakeDirsStep(fs, p, describe);
      MakeDirsStep(s.fs, p, describe) == s
  {
  }

  /** The directories that a successful `git init <p>` or `git clone <url> <p>` leaves. */
  function WithRepository(fs: Entries, p: Path): Entries {
    fs[p := Dir][Join(p, ".git") := Dir]
  }

  /** After a repository is created at a plain path, that path exists and holds `.git`. */
  lemma WithRepositoryIsRepository(fs: Entries, p: Path)
    requires p != [] && p[|p| - 1] != '/'
    ensures var fs' := WithRepository(fs, p);
      Exists(fs', p) && IsDir(fs', p) && IsGitDir(fs', p)
  {
    var fs' := WithRepository(fs, p);
    var g := Join(p, ".git");
    assert ".git"[..1] == ".";
    JoinUnderRoot(p, ".git");
    assert g[|g| - 1] == 't';
    LookupPlain(fs', g);
    if p != g {
      LookupPlain(fs', p);
    }
  }

  /** The filesystem that the server's operations read and change. */
  class FileSystem {
    var entries: Entries

    constructor (initial: Entries)
      ensures entries == initial
    {
      entries := initial;
    }

    /** `os.makedirs(p, exist_ok=True)` */
    method MakeDirs(p: Path, describe: Fault -> string) returns (r: Result<()>)
      modifies this
      ensures Step(r, entries) == MakeDirsStep(old(entries), p, describe)
    {
      if IsDir(entries, p) {
        r := Ok(());
      } else if Exists(entries, p) {
        r := Err(FileExistsError(describe(PathBlocked(p))));
      } else {
        entries := entries[p := Dir];
        r := Ok(());
      }
    }

    /** `os.listdir(dir)`: every child once, in an order the model leaves open. */
    method ListDir(dir: Path) returns (names: seq<string>)
      ensures Members(names) == Children(entries, dir)
      ensures Distinct(names)
    {
      var rest := Children(entries, dir);
      names := [];
      while rest != {}
        invariant Members(names) + rest == Children(entries, dir)
        invariant Members(names) !! rest
        invariant Distinct(names)
        decreases rest
      {
        var n :| n in rest;
        names := names + [n];
        rest := rest - {n};
      }
    }

    /** What a successful `git init` or `git clone` into `p` leaves on disk. */
    method AddRepository(p: Path)
      modifies this
      ensures entries == WithRepository(old(entries), p)
    {
      entries := entries[p := Dir];
      entries := entries[Join(p, ".git") := Dir];
    }
  }

  /*
   * Repository names.
   */

  /** `init_repo`'s rule (script.py:77): non-empty, no `/` or `\`, no leading `.`. */
  predicate InitNameOk(name: string) {
    name != [] && '/' !in name && '\\' !in name && !StartsWith(name, ".")
  }

  /** `clone_repo`'s rule (script.py:93): the same without the emptiness test. */
  predicate CloneNameOk(name: string) {
    '/' !in name && '\\' !in name && !StartsWith(name, ".")
  }

  /** The two rules differ in exactly one name: the empty one, which only clone lets through. */
  lemma NameRulesDiffer(name: string)
    ensures InitNameOk(name) ==> CloneNameOk(name)
    ensures CloneNameOk(name) && !InitNameOk(name) <==> name == []
  {
  }

  /**
   * `url.rstrip("/").split("/")[-1].removesuffix(".git") or "repo"`: the
   * name a clone takes when the request gives none.
   */
  function DeriveCloneName(url: string): (name: string)
    ensures name != []
    ensures '/' !in name
  {
    var last := LastSegment(RStripChar(url, '/'));
    var stem := RemoveSuffix(last, ".git");
    PrefixKeepsNoSlash(last, stem);
    if stem == [] then DefaultNameNoSlash(); "repo" else stem
  }

  /** A prefix of a string without `/` has none either. */
  lemma PrefixKeepsNoSlash(s: string, t: string)
    requires '/' !in s && |t| <= |s| && t == s[..|t|]
    ensures '/' !in t
  {
    forall i | 0 <= i < |t| ensures t[i] != '/' {
      assert t[i] == s[i];
    }
  }

  lemma DefaultNameNoSlash()
    ensures '/' !in "repo"
  {
    assert forall c :: c in "repo" ==> c == 'r' || c == 'e' || c == 'p' || c == 'o';
  }

  /** Trailing slashes on the URL do not change the derived name. */
  lemma DeriveIgnoresTrailingSlash(url: string)
    ensures DeriveCloneName(url + "/") == DeriveCloneName(url)
  {
    RStripCharAppend(url, '/');
  }

  /** A URL ending in `/<n>.git` yields `n`, or `repo` when `n` is empty. */
  lemma DeriveFromGitUrl(prefix: string, n: string)
    requires '/' !in n
    ensures DeriveCloneName(prefix + "/" + n + ".git") == if n == [] then "repo" else n
  {
    var url := prefix + "/" + n + ".git";
    assert url[|url| - 1] == 't';
    assert RStripChar(url, '/') == url;
    assert '/' !in n + ".git";
    assert url == prefix + "/" + (n + ".git");
    LastSegmentAfterSlash(prefix, n + ".git");
    assert (n + ".git")[|n + ".git"| - 4..] == ".git";
    assert (n + ".git")[..|n + ".git"| - 4] == n;
  }

  /** A URL ending in `/<n>` with no `.git` suffix yields `n`. */
  lemma DeriveFromPlainUrl(prefix: string, n: string)
    requires n != [] && '/' !in n && !EndsWith(n, ".git")
    ensures DeriveCloneName(prefix + "/" + n) == n
  {
    var url := prefix + "/" + n;
    assert url[|url| - 1] == n[|n| - 1];
    assert n[|n| - 1] in n;
    assert RStripChar(url, '/') == url;
    LastSegmentAfterSlash(prefix, n);
  }

  /** The documented example: `https://example.com/foo.git` clones into `foo`. */
  lemma DeriveExample()
    ensures DeriveCloneName("https://example.com/foo.git") == "foo"
  {
    assert "https://example.com/foo.git" == "https://example.com" + "/" + "foo" + ".git";
    DeriveFromGitUrl("https://example.com", "foo");
  }

  /** `foo` and `demo` are acceptable repository names. */
  lemma ExampleNames()
    ensures InitNameOk("foo") && InitNameOk("demo")
  {
    assert "foo"[..1] == "f" && "demo"[..1] == "d";
    assert forall c :: c in "foo" ==> c == 'f' || c == 'o';
    assert forall c :: c in "demo" ==> c == 'd' || c == 'e' || c == 'm' || c == 'o';
  }
}
