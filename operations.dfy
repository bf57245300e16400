/**
 * The operation executor: `init_repo`, `clone_repo` and `run_git`
 * (script.py:76-124), each over the filesystem and the git outcomes in the
 * configuration. Each operation has a specification function giving its
 * result and the filesystem it leaves; init and clone are also methods that
 * change a FileSystem object and are proved against it.
 */
module Operations {
  import opened Wrappers
  import opened Text
  import opened Process
  import opened Store

  /** `{"name": ..., "path": ...}`, returned by init and clone. */
  datatype Stub = Stub(name: string, path: Path)

  const InvalidName: string := "Invalid repo name"
  const UrlRequired: string := "Clone URL required"

  /** The message of the "already exists" error. */
  function AlreadyExists(name: string): string {
    "A directory named \"" + name + "\" already exists"
  }

  /** `git init <full>`, bounded by 10 seconds. */
  function InitInvocation(full: Path): Invocation {
    Invocation(["git", "init", full], 10)
  }

  /** `git clone <url> <full>`, bounded by 300 seconds. */
  function CloneInvocation(url: string, full: Path): Invocation {
    Invocation(["git", "clone", url, full], 300)
  }

  /** `git -C <full> <args...>`, bounded by 60 seconds. */
  function RunInvocation(full: Path, args: seq<string>): Invocation {
    Invocation(["git", "-C", full] + args, 60)
  }

  /** The process finished with exit status 0: `check=True` raises on anything else. */
  predicate Succeeded(o: ProcessOutcome) {
    o.Completed? && o.code == 0
  }
  /** The root is not a regular file, so creating it succeeds and leaves a directory. */
  predicate RootUsable(fs: Entries, root: Path) {
    !(root in fs && fs[root] == File)
  }

  /**
   * The part init and clone share once the name is settled
   * (script.py:80-84 and 95-105): the target must not exist, then `inv`
   * must succeed, and the answer is the name with its path.
   */
  function Place(fs: Entries, cfg: Config, n: string, inv: Invocation): Step<Result<Stub>> {
    var full := Join(cfg.root, n);
    if Exists(fs, full) then Step(Err(FileExistsError(AlreadyExists(n))), fs)
    else
      var o := cfg.git(inv);
      if Succeeded(o) then Step(Ok(Stub(n, full)), WithRepository(fs, full))
      else Step(Err(Raised(cfg, inv, o)), fs)
  }

  /**
   * `init_repo(name)` (script.py:76-84): the name rule first, then the root,
   * then the target, then `git init`.
   */
  function InitSpec(fs: Entries, cfg: Config, name: string): Step<Result<Stub>> {
    if !InitNameOk(name) then Step(Err(ValueError(InvalidName)), fs)
    else
      var made := MakeDirsStep(fs, cfg.root, cfg.describe);
      if made.value.Err? then Step(Err(made.value.error), made.fs)
      else Place(made.fs, cfg, name, InitInvocation(Join(cfg.root, name)))
  }

  /** The name a clone uses: the one given, else the one derived from the URL. */
  function CloneName(url: string, name: Option<string>): string {
    if name.None? then DeriveCloneName(url) else name.value
  }

  /**
   * `clone_repo(url, name)` (script.py:87-105): the URL, then the root, then
   * the (given or derived) name, then the target, then `git clone`.
   */
  function CloneSpec(fs: Entries, cfg: Config, url: string, name: Option<string>): Step<Result<Stub>> {
    if url == [] then Step(Err(ValueError(UrlRequired)), fs)
    else
      var made := MakeDirsStep(fs, cfg.root, cfg.describe);
      if made.value.Err? then Step(Err(made.value.error), made.fs)
      else CloneInto(made.fs, cfg, url, CloneName(url, name))
  }

  /** The part of `clone_repo` after the name is chosen (script.py:93-105). */
  function CloneInto(fs: Entries, cfg: Config, url: string, n: string): Step<Result<Stub>> {
    if !CloneNameOk(n) then Step(Err(ValueError(InvalidName)), fs)
    else Place(fs, cfg, n, CloneInvocation(url, Join(cfg.root, n)))
  }

  /**
   * `run_git(repo, args)` (script.py:108-124). It reads the filesystem and
   * does not validate `repo`; what the git command does to the files is not
   * modelled.
   */
  function RunGit(fs: Entries, cfg: Config, repo: string, args: seq<string>): Result<string> {
    if args == [] then Ok("")
    else
      var full := Join(cfg.root, repo);
      if !IsGitDir(fs, full) then Err(FileNotFoundError("Not a git repository: " + repo))
      else RunOutcome(cfg, RunInvocation(full, args))
  }

  /** What `run_git` makes of the process it started (script.py:114-124). */
  function RunOutcome(cfg: Config, inv: Invocation): Result<string> {
    match cfg.git(inv)
    case Completed(code, stdout, stderr) =>
      var out := Trim(stdout);
      var err := Trim(stderr);
      if code != 0 && err != [] then Err(RuntimeError(err))
      else Ok(if out != [] then out else err)
    case _ => Err(Raised(cfg, inv, cfg.git(inv)))
  }

  /** `init_repo(name)`, changing the filesystem. */
  method InitRepo(fs: FileSystem, cfg: Config, name: string) returns (r: Result<Stub>)
    modifies fs
    ensures Step(r, fs.entries) == InitSpec(old(fs.entries), cfg, name)
  {
    if name == [] || '/' in name || '\\' in name || StartsWith(name, ".") {
      return Err(ValueError(InvalidName));
    }
    var made := fs.MakeDirs(cfg.root, cfg.describe);
    if made.Err? {
      return Err(made.error);
    }
    var full := Join(cfg.root, name);
    if Exists(fs.entries, full) {
      return Err(FileExistsError(AlreadyExists(name)));
    }
    var inv := InitInvocation(full);
    var o := cfg.git(inv);
    if !(o.Completed? && o.code == 0) {
      return Err(Raised(cfg, inv, o));
    }
    fs.AddRepository(full);
    return Ok(Stub(name, full));
  }

  /** `clone_repo(url, name)`, changing the filesystem. */
  method CloneRepo(fs: FileSystem, cfg: Config, url: string, name: Option<string>) returns (r: Result<Stub>)
    modifies fs
    ensures Step(r, fs.entries) == CloneSpec(old(fs.entries), cfg, url, name)
  {
    if url == [] {
      return Err(ValueError(UrlRequired));
    }
    var made := fs.MakeDirs(cfg.root, cfg.describe);
    if made.Err? {
      return Err(made.error);
    }
    var n := if name.None? then DeriveCloneName(url) else name.value;
    if '/' in n || '\\' in n || StartsWith(n, ".") {
      return Err(ValueError(InvalidName));
    }
    var full := Join(cfg.root, n);
    if Exists(fs.entries, full) {
      return Err(FileExistsError(AlreadyExists(n)));
    }
    var inv := CloneInvocation(url, full);
    var o := cfg.git(inv);
    if !(o.Completed? && o.code == 0) {
      return Err(Raised(cfg, inv, o));
    }
    fs.AddRepository(full);
    return Ok(Stub(n, full));
  }

  /*
   * The shared tail.
   */

  /** Under a valid root, creating the root leaves a child path's existence as it was. */
  lemma MakeDirsKeepsChild(fs: Entries, root: Path, d: Fault -> string, name: string)
    requires ValidRoot(root) && name != [] && '/' !in name
    ensures Exists(MakeDirsStep(fs, root, d).fs, root + "/" + name) <==> Exists(fs, root + "/" + name)
  {
    var full := root + "/" + name;
    assert full[|full| - 1] == name[|name| - 1];
    assert name[|name| - 1] in name;
    LookupPlain(fs, full);
    LookupPlain(MakeDirsStep(fs, root, d).fs, full);
    assert |full| > |root|;
  }

  /**
   * A repository added at `<root>/<n>`, for a non-empty acceptable name, is a
   * git repository there, and leaves the root as usable as it was.
   */
  lemma CreatedRepository(fs: Entries, root: Path, n: string)
    requires ValidRoot(root) && n != [] && CloneNameOk(n)
    ensures Join(root, n) == root + "/" + n
    ensures Exists(WithRepository(fs, root + "/" + n), root + "/" + n)
    ensures IsGitDir(WithRepository(fs, root + "/" + n), root + "/" + n)
    ensures RootUsable(fs, root) ==> RootUsable(WithRepository(fs, root + "/" + n), root)
  {
    var full := root + "/" + n;
    assert n[0] in n;
    JoinUnderRoot(root, n);
    assert full[|full| - 1] == n[|n| - 1];
    assert n[|n| - 1] in n;
    WithRepositoryIsRepository(fs, full);
    assert ".git"[..1] == ".";
    JoinUnderRoot(full, ".git");
    assert |Join(full, ".git")| > |root| && |full| > |root|;
  }

  /**
   * Once the root is a directory: an answer means a non-empty name and a new
   * repository at `<root>/<name>`, and a refusal leaves the filesystem as it
   * was. The empty name refers to the root itself, which exists.
   */
  lemma PlaceOutcomes(fs: Entries, cfg: Config, n: string, inv: Invocation)
    requires ValidRoot(cfg.root) && IsDir(fs, cfg.root) && CloneNameOk(n)
    ensures var s := Place(fs, cfg, n, inv);
      && (s.value.Ok? ==>
            && n != []
            && s.value.value == Stub(n, cfg.root + "/" + n)
            && s.fs == WithRepository(fs, cfg.root + "/" + n)
            && IsGitDir(s.fs, cfg.root + "/" + n))
      && (s.value.Err? ==> s.fs == fs)
      && (n == [] ==> s == Step(Err(FileExistsError(AlreadyExists(n))), fs))
  {
    var full := Join(cfg.root, n);
    if n == [] {
      assert full == cfg.root + "/";
      LookupTrailingSlash(fs, cfg.root);
      assert Place(fs, cfg, n, inv) == Step(Err(FileExistsError(AlreadyExists(n))), fs);
    } else if !Exists(fs, full) && Succeeded(cfg.git(inv)) {
      CreatedRepository(fs, cfg.root, n);
      assert Place(fs, cfg, n, inv) == Step(Ok(Stub(n, full)), WithRepository(fs, full));
    }
  }

  /**
   * With an acceptable non-empty name and a usable root, init and clone
   * reduce to the shared tail on the filesystem with the root created, and
   * the target exists there exactly when it existed before.
   */
  lemma Stages(fs: Entries, cfg: Config, url: string, name: Option<string>, n: string)
    requires ValidRoot(cfg.root) && RootUsable(fs, cfg.root)
    requires n != [] && CloneNameOk(n)
    ensures var made := MakeDirsStep(fs, cfg.root, cfg.describe);
      var full := cfg.root + "/" + n;
      && made.value.Ok? && IsDir(made.fs, cfg.root)
      && Join(cfg.root, n) == full
      && (Exists(made.fs, full) <==> Exists(fs, full))
      && (InitNameOk(n) ==> InitSpec(fs, cfg, n) == Place(made.fs, cfg, n, InitInvocation(full)))
      && (url != [] && CloneName(url, name) == n ==>
            CloneSpec(fs, cfg, url, name) == Place(made.fs, cfg, n, CloneInvocation(url, full)))
  {
    MakeDirsOutcome(fs, cfg.root, cfg.describe);
    assert n[0] in n;
    JoinUnderRoot(cfg.root, n);
    MakeDirsKeepsChild(fs, cfg.root, cfg.describe, n);
  }

  /*
   * Properties of init.
   */

  /**
   * Init refuses exactly the names its rule refuses, and does so before it
   * touches the filesystem or runs git.
   */
  lemma InitRejectsInvalidNames(fs: Entries, cfg: Config, name: string)
    ensures InitSpec(fs, cfg, name).value == Err(ValueError(InvalidName)) <==> !InitNameOk(name)
    ensures !InitNameOk(name) ==> InitSpec(fs, cfg, name).fs == fs
  {
  }

  /**
   * An existing target gives "already exists", leaves the filesystem as
   * creating the root left it, and runs no git: the answer is the same
   * whatever git would do.
   */
  lemma InitConflict(fs: Entries, root: Path, g1: Invocation -> ProcessOutcome, g2: Invocation -> ProcessOutcome,
                     d: Fault -> string, name: string)
    requires ValidRoot(root) && InitNameOk(name) && RootUsable(fs, root)
    requires Exists(fs, root + "/" + name)
    ensures InitSpec(fs, Config(root, g1, d), name) == InitSpec(fs, Config(root, g2, d), name)
    ensures InitSpec(fs, Config(root, g1, d), name)
         == Step(Err(FileExistsError(AlreadyExists(name))), MakeDirsStep(fs, root, d).fs)
  {
    Stages(fs, Config(root, g1, d), [], None, name);
    Stages(fs, Config(root, g2, d), [], None, name);
  }

  /**
   * A free name with a successful `git init` gives `{name, <root>/<name>}`
   * and leaves a repository there.
   */
  lemma InitCreates(fs: Entries, cfg: Config, name: string)
    requires ValidRoot(cfg.root) && InitNameOk(name) && RootUsable(fs, cfg.root)
    requires !Exists(fs, cfg.root + "/" + name)
    requires Succeeded(cfg.git(InitInvocation(cfg.root + "/" + name)))
    ensures InitSpec(fs, cfg, name).value == Ok(Stub(name, cfg.root + "/" + name))
    ensures InitSpec(fs, cfg, name).fs == WithRepository(MakeDirsStep(fs, cfg.root, cfg.describe).fs, cfg.root + "/" + name)
    ensures IsGitDir(InitSpec(fs, cfg, name).fs, cfg.root + "/" + name)
  {
    Stages(fs, cfg, [], None, name);
    CreatedRepository(MakeDirsStep(fs, cfg.root, cfg.describe).fs, cfg.root, name);
  }

  /**
   * A free name whose `git init` does not succeed raises what
   * `subprocess.run` raised and leaves no repository behind.
   */
  lemma InitGitFails(fs: Entries, cfg: Config, name: string)
    requires ValidRoot(cfg.root) && InitNameOk(name) && RootUsable(fs, cfg.root)
    requires !Exists(fs, cfg.root + "/" + name)
    requires !Succeeded(cfg.git(InitInvocation(cfg.root + "/" + name)))
    ensures var inv := InitInvocation(cfg.root + "/" + name);
      InitSpec(fs, cfg, name) == Step(Err(Raised(cfg, inv, cfg.git(inv))), MakeDirsStep(fs, cfg.root, cfg.describe).fs)
    ensures !Exists(InitSpec(fs, cfg, name).fs, cfg.root + "/" + name)
  {
    Stages(fs, cfg, [], None, name);
  }

  /** Once init has created a repository, a second init of the same name conflicts. */
  lemma InitTwiceConflicts(fs: Entries, cfg: Config, name: string)
    requires ValidRoot(cfg.root) && InitNameOk(name) && RootUsable(fs, cfg.root)
    requires !Exists(fs, cfg.root + "/" + name)
    requires Succeeded(cfg.git(InitInvocation(cfg.root + "/" + name)))
    ensures InitSpec(InitSpec(fs, cfg, name).fs, cfg, name).value == Err(FileExistsError(AlreadyExists(name)))
  {
    var made := MakeDirsStep(fs, cfg.root, cfg.describe).fs;
    var after := WithRepository(made, cfg.root + "/" + name);
    InitCreates(fs, cfg, name);
    assert InitSpec(fs, cfg, name).fs == after;
    assert RootUsable(made, cfg.root) by {
      MakeDirsOutcome(fs, cfg.root, cfg.describe);
      LookupPlain(made, cfg.root);
    }
    CreatedRepository(made, cfg.root, name);
    InitConflict(after, cfg.root, cfg.git, cfg.git, cfg.describe, name);
    assert cfg == Config(cfg.root, cfg.git, cfg.describe);
  }

  /**
   * Whatever init does: when it answers, the repository is `<root>/<name>`
   * and exists there; when it raises, the filesystem is as it was or as
   * creating the root left it.
   */
  lemma InitOutcomes(fs: Entries, cfg: Config, name: string)
    requires ValidRoot(cfg.root)
    ensures var s := InitSpec(fs, cfg, name);
      var made := MakeDirsStep(fs, cfg.root, cfg.describe).fs;
      && (s.value.Ok? ==>
            && s.value.value == Stub(name, cfg.root + "/" + name)
            && s.fs == WithRepository(made, cfg.root + "/" + name)
            && IsGitDir(s.fs, cfg.root + "/" + name))
      && (s.value.Err? ==> s.fs == fs || s.fs == made)
  {
    var made := MakeDirsStep(fs, cfg.root, cfg.describe);
    MakeDirsOutcome(fs, cfg.root, cfg.describe);
    if InitNameOk(name) && made.value.Ok? {
      assert InitSpec(fs, cfg, name) == Place(made.fs, cfg, name, InitInvocation(Join(cfg.root, name)));
      PlaceOutcomes(made.fs, cfg, name, InitInvocation(Join(cfg.root, name)));
    }
  }

  /*
   * Properties of clone.
   */

  /** Clone needs a URL. */
  lemma CloneRequiresUrl(fs: Entries, cfg: Config, name: Option<string>)
    ensures CloneSpec(fs, cfg, [], name) == Step(Err(ValueError(UrlRequired)), fs)
  {
  }

  /**
   * Given a URL and a usable root, clone refuses exactly the names the clone
   * rule refuses; a derived name is never refused for being empty or for
   * holding `/`.
   */
  lemma CloneRejectsInvalidNames(fs: Entries, cfg: Config, url: string, name: Option<string>)
    requires url != [] && ValidRoot(cfg.root) && RootUsable(fs, cfg.root)
    ensures CloneSpec(fs, cfg, url, name).value == Err(ValueError(InvalidName)) <==> !CloneNameOk(CloneName(url, name))
    ensures name.None? ==> CloneName(url, name) != [] && '/' !in CloneName(url, name)
  {
    var made := MakeDirsStep(fs, cfg.root, cfg.describe);
    var n := CloneName(url, name);
    MakeDirsOutcome(fs, cfg.root, cfg.describe);
    assert CloneSpec(fs, cfg, url, name) == CloneInto(made.fs, cfg, url, n);
    CloneIntoRejects(made.fs, cfg, url, n);
  }

  /** Once the name is chosen, the only "Invalid repo name" is the clone rule's. */
  lemma CloneIntoRejects(fs: Entries, cfg: Config, url: string, n: string)
    ensures CloneInto(fs, cfg, url, n).value == Err(ValueError(InvalidName)) <==> !CloneNameOk(n)
  {
    if CloneNameOk(n) {
      var inv := CloneInvocation(url, Join(cfg.root, n));
      assert CloneInto(fs, cfg, url, n) == Place(fs, cfg, n, inv);
      assert !Raised(cfg, inv, cfg.git(inv)).ValueError?;
    }
  }

  /**
   * The empty name passes the clone rule, and then names the root itself,
   * which exists: the clone ends in "already exists", without running git.
   */
  lemma CloneEmptyNameConflicts(fs: Entries, cfg: Config, url: string)
    requires ValidRoot(cfg.root) && url != [] && RootUsable(fs, cfg.root)
    ensures CloneNameOk("")
    ensures CloneSpec(fs, cfg, url, Some("")).value == Err(FileExistsError(AlreadyExists("")))
  {
    var made := MakeDirsStep(fs, cfg.root, cfg.describe);
    MakeDirsOutcome(fs, cfg.root, cfg.describe);
    assert CloneSpec(fs, cfg, url, Some("")) == Place(made.fs, cfg, "", CloneInvocation(url, Join(cfg.root, "")));
    assert Join(cfg.root, "") == cfg.root + "/";
    LookupTrailingSlash(made.fs, cfg.root);
  }

  /**
   * An existing target gives "already exists" for clone too, leaves the
   * filesystem as creating the root left it, and runs no git: the answer is
   * the same whatever git would do.
   */
  lemma CloneConflict(fs: Entries, root: Path, g1: Invocation -> ProcessOutcome, g2: Invocation -> ProcessOutcome,
                      d: Fault -> string, url: string, name: Option<string>)
    requires ValidRoot(root) && url != [] && RootUsable(fs, root)
    requires CloneName(url, name) != [] && CloneNameOk(CloneName(url, name))
    requires Exists(fs, root + "/" + CloneName(url, name))
    ensures CloneSpec(fs, Config(root, g1, d), url, name) == CloneSpec(fs, Config(root, g2, d), url, name)
    ensures CloneSpec(fs, Config(root, g1, d), url, name)
         == Step(Err(FileExistsError(AlreadyExists(CloneName(url, name)))), MakeDirsStep(fs, root, d).fs)
  {
    var n := CloneName(url, name);
    Stages(fs, Config(root, g1, d), url, name, n);
    Stages(fs, Config(root, g2, d), url, name, n);
  }

  /**
   * A free, non-empty acceptable name with a successful `git clone` gives
   * `{name, <root>/<name>}` and leaves a repository there.
   */
  lemma CloneCreates(fs: Entries, cfg: Config, url: string, name: Option<string>)
    requires ValidRoot(cfg.root) && url != [] && RootUsable(fs, cfg.root)
    requires CloneName(url, name) != [] && CloneNameOk(CloneName(url, name))
    requires !Exists(fs, cfg.root + "/" + CloneName(url, name))
    requires Succeeded(cfg.git(CloneInvocation(url, cfg.root + "/" + CloneName(url, name))))
    ensures CloneSpec(fs, cfg, url, name).value == Ok(Stub(CloneName(url, name), cfg.root + "/" + CloneName(url, name)))
    ensures IsGitDir(CloneSpec(fs, cfg, url, name).fs, cfg.root + "/" + CloneName(url, name))
  {
    var n := CloneName(url, name);
    Stages(fs, cfg, url, name, n);
    CreatedRepository(MakeDirsStep(fs, cfg.root, cfg.describe).fs, cfg.root, n);
  }

  /**
   * With a free, non-empty acceptable name, given or derived from the URL,
   * a `git clone` that does not succeed raises what `subprocess.run` raised
   * and leaves no repository behind.
   */
  lemma CloneGitFails(fs: Entries, cfg: Config, url: string, name: Option<string>)
    requires ValidRoot(cfg.root) && RootUsable(fs, cfg.root) && url != []
    requires CloneName(url, name) != [] && CloneNameOk(CloneName(url, name))
    requires !Exists(fs, cfg.root + "/" + CloneName(url, name))
    requires !Succeeded(cfg.git(CloneInvocation(url, cfg.root + "/" + CloneName(url, name))))
    ensures var inv := CloneInvocation(url, cfg.root + "/" + CloneName(url, name));
      CloneSpec(fs, cfg, url, name)
        == Step(Err(Raised(cfg, inv, cfg.git(inv))), MakeDirsStep(fs, cfg.root, cfg.describe).fs)
    ensures !Exists(CloneSpec(fs, cfg, url, name).fs, cfg.root + "/" + CloneName(url, name))
  {
    Stages(fs, cfg, url, name, CloneName(url, name));
  }

  /**
   * `https://example.com/foo.git` with no name clones into `<root>/foo`
   * when `foo` is free and git succeeds.
   */
  lemma CloneExample(fs: Entries, cfg: Config)
    requires ValidRoot(cfg.root) && RootUsable(fs, cfg.root)
    requires !Exists(fs, cfg.root + "/" + "foo")
    requires Succeeded(cfg.git(CloneInvocation("https://example.com/foo.git", cfg.root + "/" + "foo")))
    ensures CloneSpec(fs, cfg, "https://example.com/foo.git", None).value == Ok(Stub("foo", cfg.root + "/" + "foo"))
  {
    var url := "https://example.com/foo.git";
    assert CloneName(url, None) == "foo" by {
      DeriveExample();
    }
    ExampleNames();
    CloneCreates(fs, cfg, url, None);
  }

  /**
   * Whatever clone does: when it answers, the name is the given or derived
   * one, never empty, and the repository is `<root>/<name>`; when it raises,
   * the filesystem is as it was or as creating the root left it.
   */
  lemma CloneOutcomes(fs: Entries, cfg: Config, url: string, name: Option<string>)
    requires ValidRoot(cfg.root)
    ensures var s := CloneSpec(fs, cfg, url, name);
      var made := MakeDirsStep(fs, cfg.root, cfg.describe).fs;
      var n := CloneName(url, name);
      && (s.value.Ok? ==>
            && n != []
            && s.value.value == Stub(n, cfg.root + "/" + n)
            && s.fs == WithRepository(made, cfg.root + "/" + n)
            && IsGitDir(s.fs, cfg.root + "/" + n))
      && (s.value.Err? ==> s.fs == fs || s.fs == made)
  {
    var made := MakeDirsStep(fs, cfg.root, cfg.describe);
    var n := CloneName(url, name);
    MakeDirsOutcome(fs, cfg.root, cfg.describe);
    if url != [] && made.value.Ok? {
      assert CloneSpec(fs, cfg, url, name) == CloneInto(made.fs, cfg, url, n);
      if CloneNameOk(n) {
        PlaceOutcomes(made.fs, cfg, n, CloneInvocation(url, Join(cfg.root, n)));
      }
    }
  }

  /*
   * Properties of run.
   */

  /** Empty arguments answer "" before the repository is looked at or git runs. */
  lemma RunEmptyArgs(fs: Entries, cfg: Config, repo: string)
    ensures RunGit(fs, cfg, repo, []) == Ok("")
  {
  }

  /** Without a `.git` directory the answer is "not a git repository", whatever the arguments. */
  lemma RunNotARepository(fs: Entries, cfg: Config, repo: string, args: seq<string>)
    requires args != [] && !IsGitDir(fs, Join(cfg.root, repo))
    ensures RunGit(fs, cfg, repo, args) == Err(FileNotFoundError("Not a git repository: " + repo))
  {
  }

  /**
   * The result policy for a git process that ran: it fails exactly when the
   * exit status is nonzero and the trimmed error text is not empty, with
   * that text; otherwise it answers the trimmed output, or the trimmed error
   * text when the output is empty. Either way the text is already trimmed.
   */
  lemma RunResultPolicy(cfg: Config, inv: Invocation)
    requires cfg.git(inv).Completed?
    ensures var o := cfg.git(inv);
      var r := RunOutcome(cfg, inv);
      && (r.Err? <==> o.code != 0 && Trim(o.stderr) != [])
      && (r.Err? ==> r.error == RuntimeError(Trim(o.stderr)) && Trim(r.error.msg) == r.error.msg)
      && (r.Ok? ==> r.value == (if Trim(o.stdout) != [] then Trim(o.stdout) else Trim(o.stderr)))
      && (r.Ok? ==> Trim(r.value) == r.value)
  {
    TrimIdempotent(cfg.git(inv).stdout);
    TrimIdempotent(cfg.git(inv).stderr);
  }

  /** A nonzero exit with only whitespace on standard error still counts as success. */
  lemma RunNonzeroQuietSucceeds(cfg: Config, inv: Invocation, code: int, out: string, err: string)
    requires cfg.git(inv) == Completed(code, out, err)
    requires code != 0 && forall i :: 0 <= i < |err| ==> IsSpace(err[i])
    ensures RunOutcome(cfg, inv) == Ok(Trim(out))
  {
  }

  /**
   * In a repository, run passes the arguments to `git -C <root>/<repo>` and
   * answers what the process gives.
   */
  lemma RunInRepository(fs: Entries, cfg: Config, repo: string, args: seq<string>)
    requires args != [] && IsGitDir(fs, Join(cfg.root, repo))
    ensures RunGit(fs, cfg, repo, args) == RunOutcome(cfg, RunInvocation(Join(cfg.root, repo), args))
  {
  }

  /**
   * No check keeps `repo` under the root: an absolute name runs git in that
   * directory itself.
   */
  lemma RunAbsoluteRepository(fs: Entries, cfg: Config, repo: string, args: seq<string>)
    requires StartsWith(repo, "/") && args != [] && IsGitDir(fs, repo)
    requires cfg.git(RunInvocation(repo, args)) == Completed(0, "ok", "")
    ensures RunGit(fs, cfg, repo, args) == Ok("ok")
  {
    assert !IsSpace('o') && !IsSpace('k');
    TrimOfTrimmed("ok");
  }
}
