/**
 * The request router (`Handler.do_GET` and `Handler.do_POST`,
 * script.py:143-206): which operation a request reaches, and which status
 * and body each outcome of that operation becomes. Requests arrive already
 * decoded: a path without its query, and the fields of the JSON body.
 */
module Router {
  import opened Wrappers
  import opened Text
  import opened Process
  import opened Store
  import opened Inventory
  import opened Operations

  /** The JSON body of a response; `NoBody` for the bare 404 of an unknown path. */
  datatype Payload =
    | NoBody
    | Error(message: string)
    | Created(name: string, path: Path)
    | Output(output: string)
    | Listing(records: seq<Record>)
    | Health(reposDir: string)      // {"ok": true, "reposDir": ...}

  datatype Response = Response(status: int, payload: Payload)

  /** The `args` field of a request: absent or null, some other JSON value, or a list. */
  datatype Args = ArgsAbsent | ArgsNotList | ArgsList(items: seq<string>)

  /** The fields of a POST body that the routes read; a missing body reads as `{}`. */
  datatype Body = Body(name: Option<string>, url: Option<string>, repo: Option<string>, args: Args)

  const EmptyBody: Body := Body(None, None, None, ArgsAbsent)

  const MissingName: string := "Missing 'name'"
  const MissingUrl: string := "Missing 'url'"
  const MissingRun: string := "Missing 'repo' or 'args' (list)"

  /** A field is truthy: present, not null and not the empty string. */
  predicate Given(field: Option<string>) {
    field.Some? && field.value != []
  }

  /** The message of a failed `git clone`: standard error, else standard output, else `str(e)`, stripped. */
  function CloneFailureText(stdout: string, stderr: string, msg: string): string {
    Trim(if stderr != [] then stderr else if stdout != [] then stdout else msg)
  }

  /** The statuses of `/init` (script.py:163-170). */
  function InitResponse(r: Result<Stub>): Response {
    match r
    case Ok(s) => Response(201, Created(s.name, s.path))
    case Err(FileExistsError(m)) => Response(409, Error(m))
    case Err(ValueError(m)) => Response(400, Error(m))
    case Err(e) => Response(500, Error(e.msg))
  }

  /** The statuses of `/clone` (script.py:177-186). */
  function CloneResponse(r: Result<Stub>): Response {
    match r
    case Ok(s) => Response(201, Created(s.name, s.path))
    case Err(FileExistsError(m)) => Response(409, Error(m))
    case Err(ValueError(m)) => Response(400, Error(m))
    case Err(CalledProcessError(out, err, m)) => Response(400, Error(CloneFailureText(out, err, m)))
    case Err(e) => Response(500, Error(e.msg))
  }

  /** The statuses of `/run` (script.py:194-201). */
  function RunResponse(r: Result<string>): Response {
    match r
    case Ok(text) => Response(200, Output(text))
    case Err(FileNotFoundError(m)) => Response(404, Error(m))
    case Err(RuntimeError(m)) => Response(400, Error(m))
    case Err(e) => Response(500, Error(e.msg))
  }

  /** The statuses of `GET /repos` (script.py:144-148). */
  function ReposResponse(r: Result<seq<Record>>): Response {
    match r
    case Ok(records) => Response(200, Listing(records))
    case Err(e) => Response(500, Error(e.msg))
  }

  /** `do_POST`: the response and the filesystem it leaves. */
  function PostSpec(fs: Entries, cfg: Config, path: string, body: Body): Step<Response> {
    if path == "/init" then PostInit(fs, cfg, body)
    else if path == "/clone" then PostClone(fs, cfg, body)
    else if path == "/run" then Step(PostRun(fs, cfg, body), fs)
    else Step(Response(404, NoBody), fs)
  }

  /** `POST /init` (script.py:159-171). */
  function PostInit(fs: Entries, cfg: Config, body: Body): Step<Response> {
    if !Given(body.name) then Step(Response(400, Error(MissingName)), fs)
    else
      var s := InitSpec(fs, cfg, body.name.value);
      Step(InitResponse(s.value), s.fs)
  }

  /** `POST /clone` (script.py:173-187). */
  function PostClone(fs: Entries, cfg: Config, body: Body): Step<Response> {
    if !Given(body.url) then Step(Response(400, Error(MissingUrl)), fs)
    else
      var s := CloneSpec(fs, cfg, body.url.value, body.name);
      Step(CloneResponse(s.value), s.fs)
  }

  /** `POST /run` (script.py:189-202), which leaves the filesystem as it is. */
  function PostRun(fs: Entries, cfg: Config, body: Body): Response {
    if !Given(body.repo) || !body.args.ArgsList? then Response(400, Error(MissingRun))
    else RunResponse(RunGit(fs, cfg, body.repo.value, body.args.items))
  }

  /** `do_GET`: the response and the filesystem it leaves. */
  ghost function GetSpec(fs: Entries, cfg: Config, path: string): Step<Response> {
    if path == "/repos" then
      var s := ReposStep(fs, cfg);
      Step(ReposResponse(s.value), s.fs)
    else if path == "/health" then Step(Response(200, Health(cfg.root)), fs)
    else Step(Response(404, NoBody), fs)
  }

  /** Serves one POST request. */
  method HandlePost(fs: FileSystem, cfg: Config, path: string, body: Body) returns (resp: Response)
    modifies fs
    ensures Step(resp, fs.entries) == PostSpec(old(fs.entries), cfg, path, body)
  {
    if path == "/init" {
      if body.name.None? || body.name.value == [] {
        return Response(400, Error(MissingName));
      }
      var r := InitRepo(fs, cfg, body.name.value);
      resp := InitResponse(r);
    } else if path == "/clone" {
      if body.url.None? || body.url.value == [] {
        return Response(400, Error(MissingUrl));
      }
      var r := CloneRepo(fs, cfg, body.url.value, body.name);
      resp := CloneResponse(r);
    } else if path == "/run" {
      if body.repo.None? || body.repo.value == [] || !body.args.ArgsList? {
        return Response(400, Error(MissingRun));
      }
      resp := RunResponse(RunGit(fs.entries, cfg, body.repo.value, body.args.items));
    } else {
      resp := Response(404, NoBody);
    }
  }

  /** Serves one GET request. */
  method HandleGet(fs: FileSystem, cfg: Config, path: string) returns (resp: Response)
    modifies fs
    ensures Step(resp, fs.entries) == GetSpec(old(fs.entries), cfg, path)
  {
    if path == "/repos" {
      var r := GetRepos(fs, cfg);
      resp := ReposResponse(r);
    } else if path == "/health" {
      resp := Response(200, Health(cfg.root));
    } else {
      resp := Response(404, NoBody);
    }
  }

  /*
   * Properties of the router.
   */

  /** Each POST path reaches its own route. */
  lemma PostRoutes(fs: Entries, cfg: Config, body: Body)
    ensures PostSpec(fs, cfg, "/init", body) == PostInit(fs, cfg, body)
    ensures PostSpec(fs, cfg, "/clone", body) == PostClone(fs, cfg, body)
    ensures PostSpec(fs, cfg, "/run", body) == Step(PostRun(fs, cfg, body), fs)
  {
    assert |"/init"| == 5 && |"/clone"| == 6 && |"/run"| == 4;
  }

  /**
   * The outcome-to-status tables: a 201 exactly for a created repository, a
   * 200 exactly for run output, and an error message with every other status.
   * Each handler catches the exception kinds it names in order, and sends
   * every other kind to 500.
   */
  lemma ResponseShapes(r: Result<Stub>, q: Result<string>, l: Result<seq<Record>>)
    ensures var i := InitResponse(r);
      && i.status in {201, 400, 409, 500}
      && (i.status == 201 <==> r.Ok?) && (i.status == 201 <==> i.payload.Created?)
      && (r.Ok? ==> i.payload == Created(r.value.name, r.value.path))
      && (i.status != 201 ==> i.payload.Error? && i.payload.message == r.error.msg)
      && (r.Err? ==> i.status == if r.error.FileExistsError? then 409 else if r.error.ValueError? then 400 else 500)
    ensures var c := CloneResponse(r);
      && c.status in {201, 400, 409, 500}
      && (c.status == 201 <==> r.Ok?) && (c.status == 201 <==> c.payload.Created?)
      && (r.Ok? ==> c.payload == Created(r.value.name, r.value.path))
      && (c.status != 201 ==> c.payload.Error?)
      && (r.Err? ==>
            c.status == (if r.error.FileExistsError? then 409
                         else if r.error.ValueError? || r.error.CalledProcessError? then 400
                         else 500))
      && (r.Err? && r.error.CalledProcessError? ==>
            c.payload.message == CloneFailureText(r.error.stdout, r.error.stderr, r.error.msg))
      && (r.Err? && !r.error.CalledProcessError? ==> c.payload.message == r.error.msg)
    ensures var o := RunResponse(q);
      && o.status in {200, 400, 404, 500}
      && (o.status == 200 <==> q.Ok?) && (o.status == 200 <==> o.payload.Output?)
      && (q.Ok? ==> o.payload == Output(q.value))
      && (o.status != 200 ==> o.payload.Error? && o.payload.message == q.error.msg)
      && (q.Err? ==> o.status == if q.error.FileNotFoundError? then 404 else if q.error.RuntimeError? then 400 else 500)
    ensures var g := ReposResponse(l);
      && g.status in {200, 500}
      && (g.status == 200 <==> l.Ok?)
      && (l.Ok? ==> g.payload == Listing(l.value))
      && (l.Err? ==> g.payload == Error(l.error.msg))
  {
  }

  /**
   * A missing or empty field is answered with 400 before any operation runs:
   * the filesystem is untouched and git is not consulted.
   */
  lemma MissingFieldsRejected(fs: Entries, cfg: Config, body: Body)
    ensures !Given(body.name) ==> PostSpec(fs, cfg, "/init", body) == Step(Response(400, Error(MissingName)), fs)
    ensures !Given(body.url) ==> PostSpec(fs, cfg, "/clone", body) == Step(Response(400, Error(MissingUrl)), fs)
    ensures !Given(body.repo) || !body.args.ArgsList? ==>
      PostSpec(fs, cfg, "/run", body) == Step(Response(400, Error(MissingRun)), fs)
  {
  }

  /** A name init's rule refuses answers 400 "Invalid repo name", before the filesystem is touched. */
  lemma InitInvalidNameRejected(fs: Entries, cfg: Config, name: string)
    requires name != [] && !InitNameOk(name)
    ensures PostSpec(fs, cfg, "/init", Body(Some(name), None, None, ArgsAbsent))
         == Step(Response(400, Error(InvalidName)), fs)
  {
    var body := Body(Some(name), None, None, ArgsAbsent);
    PostRoutes(fs, cfg, body);
    InitRejectsInvalidNames(fs, cfg, name);
    assert PostInit(fs, cfg, body) == Step(InitResponse(Err(ValueError(InvalidName))), fs);
  }

  /** A name clone's rule refuses answers 400 "Invalid repo name", once the root is created. */
  lemma CloneInvalidNameRejected(fs: Entries, cfg: Config, url: string, name: Option<string>)
    requires url != [] && ValidRoot(cfg.root) && RootUsable(fs, cfg.root)
    requires !CloneNameOk(CloneName(url, name))
    ensures PostSpec(fs, cfg, "/clone", Body(name, Some(url), None, ArgsAbsent))
         == Step(Response(400, Error(InvalidName)), MakeDirsStep(fs, cfg.root, cfg.describe).fs)
  {
    var body := Body(name, Some(url), None, ArgsAbsent);
    var made := MakeDirsStep(fs, cfg.root, cfg.describe);
    PostRoutes(fs, cfg, body);
    MakeDirsOutcome(fs, cfg.root, cfg.describe);
    assert CloneSpec(fs, cfg, url, name) == CloneInto(made.fs, cfg, url, CloneName(url, name));
    assert PostClone(fs, cfg, body) == Step(CloneResponse(Err(ValueError(InvalidName))), made.fs);
  }

  /** Init of an existing target answers 409 "already exists", whatever git would do. */
  lemma InitExistingIsConflict(fs: Entries, cfg: Config, name: string)
    requires ValidRoot(cfg.root) && RootUsable(fs, cfg.root)
    requires InitNameOk(name) && Exists(fs, cfg.root + "/" + name)
    ensures PostSpec(fs, cfg, "/init", Body(Some(name), None, None, ArgsAbsent))
         == Step(Response(409, Error(AlreadyExists(name))), MakeDirsStep(fs, cfg.root, cfg.describe).fs)
  {
    var body := Body(Some(name), None, None, ArgsAbsent);
    var made := MakeDirsStep(fs, cfg.root, cfg.describe).fs;
    assert cfg == Config(cfg.root, cfg.git, cfg.describe);
    InitConflict(fs, cfg.root, cfg.git, cfg.git, cfg.describe, name);
    PostRoutes(fs, cfg, body);
    assert PostInit(fs, cfg, body) == Step(InitResponse(Err(FileExistsError(AlreadyExists(name)))), made);
  }

  /** Clone into an existing target answers 409 "already exists", whatever git would do. */
  lemma CloneExistingIsConflict(fs: Entries, cfg: Config, url: string, name: Option<string>)
    requires ValidRoot(cfg.root) && RootUsable(fs, cfg.root) && url != []
    requires CloneName(url, name) != [] && CloneNameOk(CloneName(url, name))
    requires Exists(fs, cfg.root + "/" + CloneName(url, name))
    ensures PostSpec(fs, cfg, "/clone", Body(name, Some(url), None, ArgsAbsent))
         == Step(Response(409, Error(AlreadyExists(CloneName(url, name)))), MakeDirsStep(fs, cfg.root, cfg.describe).fs)
  {
    var body := Body(name, Some(url), None, ArgsAbsent);
    var made := MakeDirsStep(fs, cfg.root, cfg.describe).fs;
    var n := CloneName(url, name);
    assert cfg == Config(cfg.root, cfg.git, cfg.describe);
    CloneConflict(fs, cfg.root, cfg.git, cfg.git, cfg.describe, url, name);
    PostRoutes(fs, cfg, body);
    assert PostClone(fs, cfg, body) == Step(CloneResponse(Err(FileExistsError(AlreadyExists(n)))), made);
  }

  /** The routes a POST can reach. */
  predicate PostRoute(path: string) {
    path == "/init" || path == "/clone" || path == "/run"
  }

  /**
   * Every POST is answered with one of the statuses the server uses; a 201
   * carries the created repository, a 200 the git output, a bare 404 means
   * an unknown path, and every other answer carries an error message.
   */
  lemma PostResponsesWellFormed(fs: Entries, cfg: Config, path: string, body: Body)
    ensures var r := PostSpec(fs, cfg, path, body).value;
      && r.status in {200, 201, 400, 404, 409, 500}
      && (r.status == 201 <==> r.payload.Created?)
      && (r.status == 200 <==> r.payload.Output?)
      && (r.payload.NoBody? <==> !PostRoute(path))
      && (r.status in {400, 409, 500} ==> r.payload.Error?)
      && (r.status == 201 ==> path != "/run")
      && (r.status == 200 ==> path == "/run")
  {
    PostRoutes(fs, cfg, body);
    if path == "/init" && Given(body.name) {
      ResponseShapes(InitSpec(fs, cfg, body.name.value).value, Ok(""), Ok([]));
    } else if path == "/clone" && Given(body.url) {
      ResponseShapes(CloneSpec(fs, cfg, body.url.value, body.name).value, Ok(""), Ok([]));
    } else if path == "/run" && Given(body.repo) && body.args.ArgsList? {
      ResponseShapes(Ok(Stub("", "")), RunGit(fs, cfg, body.repo.value, body.args.items), Ok([]));
    }
  }

  /**
   * Only a 201 changes the filesystem beyond creating the root: it then holds
   * a repository at the reported path, which is `<root>/<name>`. Every other
   * POST leaves the filesystem as it was, or as creating the root left it.
   */
  lemma PostOnlyCreatedAddsRepository(fs: Entries, cfg: Config, path: string, body: Body)
    requires ValidRoot(cfg.root)
    ensures var s := PostSpec(fs, cfg, path, body);
      var made := MakeDirsStep(fs, cfg.root, cfg.describe).fs;
      && (s.value.status != 201 ==> s.fs == fs || s.fs == made)
      && (s.value.status == 201 ==>
            && s.value.payload.Created?
            && s.value.payload.path == cfg.root + "/" + s.value.payload.name
            && s.fs == WithRepository(made, s.value.payload.path)
            && IsGitDir(s.fs, s.value.payload.path))
  {
    PostRoutes(fs, cfg, body);
    if path == "/init" && Given(body.name) {
      InitOutcomes(fs, cfg, body.name.value);
      ResponseShapes(InitSpec(fs, cfg, body.name.value).value, Ok(""), Ok([]));
    } else if path == "/clone" && Given(body.url) {
      CloneOutcomes(fs, cfg, body.url.value, body.name);
      ResponseShapes(CloneSpec(fs, cfg, body.url.value, body.name).value, Ok(""), Ok([]));
    } else if path == "/run" && Given(body.repo) && body.args.ArgsList? {
      ResponseShapes(Ok(Stub("", "")), RunGit(fs, cfg, body.repo.value, body.args.items), Ok([]));
    }
  }

  /** `GET /health` answers 200 with the root; any other unknown GET path a bare 404. */
  lemma GetFixedRoutes(fs: Entries, cfg: Config, path: string)
    ensures GetSpec(fs, cfg, "/health") == Step(Response(200, Health(cfg.root)), fs)
    ensures path != "/repos" && path != "/health" ==> GetSpec(fs, cfg, path) == Step(Response(404, NoBody), fs)
  {
  }

  /** `GET /repos` on an empty root answers 200 with an empty list. */
  lemma EmptyRootGivesEmptyListing(fs: Entries, cfg: Config)
    requires ValidRoot(cfg.root) && RootUsable(fs, cfg.root)
    requires forall p :: p in fs ==> !StartsWith(p, cfg.root + "/")
    ensures GetSpec(fs, cfg, "/repos").value == Response(200, Listing([]))
  {
    EmptyRootListsNothing(fs, cfg);
  }

  /*
   * Outcome-to-status scenarios.
   */

  /** Creating `demo` answers 201; creating it again answers 409. */
  lemma InitDemoTwice(fs: Entries, cfg: Config)
    requires ValidRoot(cfg.root) && RootUsable(fs, cfg.root)
    requires !Exists(fs, cfg.root + "/" + "demo")
    requires Succeeded(cfg.git(InitInvocation(cfg.root + "/" + "demo")))
    ensures var body := Body(Some("demo"), None, None, ArgsAbsent);
      var first := PostSpec(fs, cfg, "/init", body);
      && first.value == Response(201, Created("demo", cfg.root + "/" + "demo"))
      && PostSpec(first.fs, cfg, "/init", body).value.status == 409
  {
    ExampleNames();
    InitCreates(fs, cfg, "demo");
    InitTwiceConflicts(fs, cfg, "demo");
  }

  /**
   * After `demo` is created, a `git status --porcelain` in it that prints
   * nothing answers 200 with empty output.
   */
  lemma InitThenRunStatus(fs: Entries, cfg: Config)
    requires ValidRoot(cfg.root) && RootUsable(fs, cfg.root)
    requires !Exists(fs, cfg.root + "/" + "demo")
    requires Succeeded(cfg.git(InitInvocation(cfg.root + "/" + "demo")))
    requires cfg.git(RunInvocation(cfg.root + "/" + "demo", ["status", "--porcelain"])) == Completed(0, "", "")
    ensures var first := PostSpec(fs, cfg, "/init", Body(Some("demo"), None, None, ArgsAbsent));
      PostSpec(first.fs, cfg, "/run", Body(None, None, Some("demo"), ArgsList(["status", "--porcelain"])))
        == Step(Response(200, Output("")), first.fs)
  {
    var full := cfg.root + "/" + "demo";
    var args := ["status", "--porcelain"];
    var init := Body(Some("demo"), None, None, ArgsAbsent);
    var run := Body(None, None, Some("demo"), ArgsList(args));
    ExampleNames();
    InitCreates(fs, cfg, "demo");
    var after := InitSpec(fs, cfg, "demo").fs;
    assert IsGitDir(after, full);
    PostRoutes(fs, cfg, init);
    assert PostSpec(fs, cfg, "/init", init).fs == after by {
      assert PostInit(fs, cfg, init) == Step(InitResponse(InitSpec(fs, cfg, "demo").value), after);
    }
    assert Join(cfg.root, "demo") == full by {
      CreatedRepository(fs, cfg.root, "demo");
    }
    RunInRepository(after, cfg, "demo", args);
    assert RunGit(after, cfg, "demo", args) == Ok("") by {
      assert Trim("") == "";
      assert RunOutcome(cfg, RunInvocation(full, args)) == Ok("");
    }
    PostRoutes(after, cfg, run);
    assert PostRun(after, cfg, run) == RunResponse(Ok(""));
  }

  /**
   * A `git init` that fails in any way (nonzero exit, timeout, git missing)
   * answers 500 and leaves no repository behind.
   */
  lemma InitGitFailureIsServerError(fs: Entries, cfg: Config, name: string)
    requires ValidRoot(cfg.root) && InitNameOk(name) && RootUsable(fs, cfg.root)
    requires !Exists(fs, cfg.root + "/" + name)
    requires !Succeeded(cfg.git(InitInvocation(cfg.root + "/" + name)))
    ensures var s := PostSpec(fs, cfg, "/init", Body(Some(name), None, None, ArgsAbsent));
      && s.value.status == 500
      && s.fs == MakeDirsStep(fs, cfg.root, cfg.describe).fs
      && !Exists(s.fs, cfg.root + "/" + name)
  {
    InitGitFails(fs, cfg, name);
  }

  /**
   * A `git clone` that exits nonzero answers 400 with its stripped standard
   * error, else its standard output, else the exception's text; one that
   * times out or cannot start answers 500 with the exception's text. None
   * leaves a repository behind.
   */
  lemma CloneGitFailure(fs: Entries, cfg: Config, url: string, name: Option<string>)
    requires ValidRoot(cfg.root) && RootUsable(fs, cfg.root) && url != []
    requires CloneName(url, name) != [] && CloneNameOk(CloneName(url, name))
    requires !Exists(fs, cfg.root + "/" + CloneName(url, name))
    requires !Succeeded(cfg.git(CloneInvocation(url, cfg.root + "/" + CloneName(url, name))))
    ensures var inv := CloneInvocation(url, cfg.root + "/" + CloneName(url, name));
      var o := cfg.git(inv);
      var s := PostSpec(fs, cfg, "/clone", Body(name, Some(url), None, ArgsAbsent));
      && (o.Completed? && o.stderr != [] ==> s.value == Response(400, Error(Trim(o.stderr))))
      && (o.Completed? && o.stderr == [] && o.stdout != [] ==> s.value == Response(400, Error(Trim(o.stdout))))
      && (o.Completed? && o.stderr == [] && o.stdout == [] ==>
            s.value == Response(400, Error(Trim(cfg.describe(ExitStatus(inv.argv, o.code))))))
      && (o.TimedOut? ==> s.value == Response(500, Error(cfg.describe(TimedOutAfter(inv.argv, 300)))))
      && (o.SpawnFailed? ==> s.value.status == 500)
      && s.fs == MakeDirsStep(fs, cfg.root, cfg.describe).fs
      && !Exists(s.fs, cfg.root + "/" + CloneName(url, name))
  {
    var body := Body(name, Some(url), None, ArgsAbsent);
    var inv := CloneInvocation(url, cfg.root + "/" + CloneName(url, name));
    var e := Raised(cfg, inv, cfg.git(inv));
    CloneGitFails(fs, cfg, url, name);
    PostRoutes(fs, cfg, body);
    assert PostSpec(fs, cfg, "/clone", body)
      == Step(CloneResponse(Err(e)), MakeDirsStep(fs, cfg.root, cfg.describe).fs);
    if cfg.git(inv).Completed? {
      var o := cfg.git(inv);
      CloneExitStatus(cfg, inv, o.code, o.stdout, o.stderr);
      CloneFailureTextCases(o.stdout, o.stderr, cfg.describe(ExitStatus(inv.argv, o.code)));
    } else {
      CloneNoExitStatus(cfg, inv);
    }
  }

  /** A clone whose git exits nonzero answers 400 with the failure text (script.py:184-185). */
  lemma CloneExitStatus(cfg: Config, inv: Invocation, code: int, out: string, err: string)
    requires cfg.git(inv) == Completed(code, out, err)
    ensures CloneResponse(Err(Raised(cfg, inv, cfg.git(inv))))
         == Response(400, Error(CloneFailureText(out, err, cfg.describe(ExitStatus(inv.argv, code)))))
  {
    var e := CalledProcessError(out, err, cfg.describe(ExitStatus(inv.argv, code)));
    assert Raised(cfg, inv, cfg.git(inv)) == e;
    assert CloneResponse(Err(e)) == Response(400, Error(CloneFailureText(e.stdout, e.stderr, e.msg)));
  }

  /** A clone whose git times out or cannot start answers 500 (script.py:186-187). */
  lemma CloneNoExitStatus(cfg: Config, inv: Invocation)
    requires !cfg.git(inv).Completed?
    ensures cfg.git(inv).TimedOut? ==>
      CloneResponse(Err(Raised(cfg, inv, cfg.git(inv))))
        == Response(500, Error(cfg.describe(TimedOutAfter(inv.argv, inv.seconds))))
    ensures CloneResponse(Err(Raised(cfg, inv, cfg.git(inv)))).status == 500
  {
    assert !Raised(cfg, inv, cfg.git(inv)).CalledProcessError?;
  }

  /** A failed clone reports standard error, else standard output, else the exception's text. */
  lemma CloneFailureTextCases(stdout: string, stderr: string, msg: string)
    ensures stderr != [] ==> CloneFailureText(stdout, stderr, msg) == Trim(stderr)
    ensures stderr == [] && stdout != [] ==> CloneFailureText(stdout, stderr, msg) == Trim(stdout)
    ensures stderr == [] && stdout == [] ==> CloneFailureText(stdout, stderr, msg) == Trim(msg)
  {
  }



  /**
   * The usual clone request names no directory: a failing `git clone` of
   * `<prefix>/<n>.git` reports its standard error, with `n` as the target.
   */
  lemma CloneDerivedNameFailure(fs: Entries, cfg: Config, prefix: string, n: string)
    requires ValidRoot(cfg.root) && RootUsable(fs, cfg.root)
    requires n != [] && CloneNameOk(n)
    requires !Exists(fs, cfg.root + "/" + n)
    requires var o := cfg.git(CloneInvocation(prefix + "/" + n + ".git", cfg.root + "/" + n));
      o.Completed? && o.code != 0 && o.stderr != []
    ensures var url := prefix + "/" + n + ".git";
      var o := cfg.git(CloneInvocation(url, cfg.root + "/" + n));
      var s := PostSpec(fs, cfg, "/clone", Body(None, Some(url), None, ArgsAbsent));
      && s.value == Response(400, Error(Trim(o.stderr)))
      && !Exists(s.fs, cfg.root + "/" + n)
  {
    var url := prefix + "/" + n + ".git";
    DeriveFromGitUrl(prefix, n);
    assert CloneName(url, None) == n;
    CloneGitFailure(fs, cfg, url, None);
  }

  /** Cloning with an empty `name` answers 409: the empty name passes and names the root. */
  lemma CloneEmptyNameIsConflict(fs: Entries, cfg: Config, url: string)
    requires ValidRoot(cfg.root) && RootUsable(fs, cfg.root) && url != []
    ensures PostSpec(fs, cfg, "/clone", Body(Some(""), Some(url), None, ArgsAbsent)).value.status == 409
  {
    CloneEmptyNameConflicts(fs, cfg, url);
  }

  /**
   * `/run` on a name with no repository answers 404, and so does a run whose
   * git executable is missing; a run that times out, or whose process cannot
   * start for another reason, answers 500; a failure
   * with error text answers 400 with that text. Run leaves the filesystem
   * as it is.
   */
  lemma RunStatuses(fs: Entries, cfg: Config, repo: string, args: seq<string>)
    requires repo != [] && args != []
    ensures var s := PostSpec(fs, cfg, "/run", Body(None, None, Some(repo), ArgsList(args)));
      var full := Join(cfg.root, repo);
      var o := cfg.git(RunInvocation(full, args));
      && s.fs == fs
      && (!IsGitDir(fs, full) ==> s.value == Response(404, Error("Not a git repository: " + repo)))
      && (IsGitDir(fs, full) && o == SpawnFailed(true) ==> s.value.status == 404)
      && (IsGitDir(fs, full) && o == SpawnFailed(false) ==> s.value.status == 500)
      && (IsGitDir(fs, full) && o.TimedOut? ==> s.value.status == 500)
      && (IsGitDir(fs, full) && o.Completed? && o.code != 0 && Trim(o.stderr) != [] ==>
            s.value == Response(400, Error(Trim(o.stderr))))
  {
    var full := Join(cfg.root, repo);
    var body := Body(None, None, Some(repo), ArgsList(args));
    PostRoutes(fs, cfg, body);
    assert PostRun(fs, cfg, body) == RunResponse(RunGit(fs, cfg, repo, args));
    if IsGitDir(fs, full) {
      var inv := RunInvocation(full, args);
      RunInRepository(fs, cfg, repo, args);
      match cfg.git(inv)
      case Completed(code, out, err) =>
        assert RunOutcome(cfg, inv) == if code != 0 && Trim(err) != [] then Err(RuntimeError(Trim(err)))
          else Ok(if Trim(out) != [] then Trim(out) else Trim(err));
      case TimedOut =>
        assert RunOutcome(cfg, inv) == Err(TimeoutExpired(cfg.describe(TimedOutAfter(inv.argv, inv.seconds))));
      case SpawnFailed(missing) =>
        assert RunOutcome(cfg, inv) == Err(Raised(cfg, inv, SpawnFailed(missing)));
    } else {
      RunNotARepository(fs, cfg, repo, args);
    }
  }

  /** `/run` with an empty argument list answers 200 with empty output, whatever the repository. */
  lemma RunNothing(fs: Entries, cfg: Config, repo: string)
    requires repo != []
    ensures PostSpec(fs, cfg, "/run", Body(None, None, Some(repo), ArgsList([])))
         == Step(Response(200, Output("")), fs)
  {
  }
}
