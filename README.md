# Termux git server, modelled in Dafny

`script.py` is a small local HTTP gateway over git. It keeps a directory of
repositories (REPOS_DIR, `~/Repositories`) and serves five routes:

- `GET /repos`: lists the repositories with their current branch and whether
  the working tree is clean.
- `GET /health`: returns the configured root.
- `POST /init`: creates an empty repository.
- `POST /clone`: clones a URL into the root.
- `POST /run`: runs an arbitrary git subcommand in one repository.

This project models the command gateway behind those routes. It covers the
name rules, the three operations and the inventory scan, and the mapping from
each operation's outcome to an HTTP status and body.

The modules follow the program's layers:

- `Text` (text.dfy): the Python string operations the code relies on:
  - `str.strip`, `rstrip("/")`, `split("/")[-1]` and `removesuffix`;
  - code-point ordering and `sorted` on lists of names.
- `Process` (process.dfy): `subprocess.run` as an outcome given per invocation,
  and the exception classes the handlers distinguish.
- `Store` (store.dfy):
  - the filesystem as a `FileSystem` object whose entries map paths to file or
    directory;
  - `os.path.join`, `exists`, `isdir`, `listdir`, and `makedirs(exist_ok=True)`;
  - the two repository-name rules and the derivation of a clone's name from
    its URL.
- `Inventory` (inventory.dfy): `get_repos`, as a method that scans the root
  and is proved equal to a specification function.
- `Operations` (operations.dfy):
  - `init_repo` and `clone_repo` as methods that change the filesystem, each
    proved against its specification function;
  - `run_git` as a function.
- `Router` (router.dfy): `do_GET` and `do_POST`, as methods proved against
  functions that give the response and the resulting filesystem.

Three things are parameters of the configuration `Config`:

- the repository root;
- the outcome of every git invocation: exit status with standard output and
  standard error, a timeout, or a failure to start the process;
- the text `str(e)` of exceptions raised by the Python library.

A git command that succeeds in `init` or `clone` is modelled as leaving a
directory with a `.git` directory inside it at the target. A git command that
fails is modelled as leaving nothing. `run` does not change the modelled
filesystem.

The model follows the code as written, including these behaviours:

- A name supplied to clone is not checked for emptiness (script.py:93).
  The empty name then names the root itself, which exists, so the request
  answers 409.
- Only a nonzero exit of `git clone` answers 400 with the process's text. A
  clone that times out or cannot start answers 500 (script.py:184-187).
- `run` does not validate the repository name (script.py:111). An absolute
  name, or one with `..`, reaches outside the root.
- A nonzero exit of `git status` during the scan reports `isClean` as false,
  not unknown (script.py:64). A branch probe that exits nonzero does not stop
  the status probe; one that raises skips it, since both share one try block
  (script.py:49-66).
- A `git init` that exits nonzero answers 500 (script.py:170-171).
- When git itself is missing, `run` answers 404, because starting the process
  raises FileNotFoundError (script.py:197-198).

## Model

| member | source | states |
|---|---|---|
| Process.Raised | script.py:98-104 | the exception `subprocess.run` raises: with `check=True` a nonzero exit is CalledProcessError carrying both outputs, a timeout is TimeoutExpired, a missing executable FileNotFoundError, any other failure to start OSError |
| Text.Trim | script.py:120-121 | the result is the input with leading and trailing whitespace (Python's `isspace` set) removed: no whitespace at either end, and empty exactly when the input is all whitespace |
| Text.TrimIdempotent | script.py:57 | stripping a stripped text changes nothing |
| Text.RStripChar | script.py:92 | `rstrip("/")` removes exactly the trailing run of `/`, and the result does not end in `/` |
| Text.RStripCharAppend | script.py:92 | appending a `/` does not change the result of `rstrip("/")` |
| Text.LastSegment | script.py:92 | `split("/")[-1]` is a suffix without `/`, preceded by `/` unless it is the whole text |
| Text.LastSegmentAfterSlash | script.py:92 | the last segment of `p + "/" + n` is `n` when `n` holds no `/` |
| Text.RemoveSuffix | script.py:92 | `removesuffix` drops the suffix exactly when it is non-empty and present, and otherwise returns the input |
| Text.LexLessIrreflexive | script.py:41 | no name sorts before itself |
| Text.LexLessTransitive | script.py:41 | the code-point order on names is transitive |
| Text.LexLessTotal | script.py:41 | any two different names are ordered one way or the other |
| Text.Insert | script.py:41 | inserting into a list adds exactly that element (as a multiset) |
| Text.SortStrings | script.py:41 | `sorted` returns a permutation of its input |
| Text.SortStringsSorted | script.py:41 | the result of `sorted` is in ascending order |
| Text.SortStringsStrictlySorted | script.py:41 | sorting names without duplicates gives a strictly ascending list |
| Text.StrictlySortedUnique | script.py:41 | two strictly ascending lists with the same members are equal, so the scan order does not depend on the order `listdir` returns |
| Text.SortedMembers | script.py:41 | every finite set of names has a strictly ascending listing, empty exactly for the empty set |
| Store.Join | script.py:80 | `os.path.join(root, name)` is `name` when it is absolute, and otherwise begins with the root and ends with the name |
| Store.Lookup | script.py:81 | what `stat` finds: the entry as written, or, for a path with trailing slashes, the entry without them only when it is a directory |
| Store.Exists | script.py:81 | `os.path.exists`: the lookup finds an entry |
| Store.IsDir | script.py:45 | `os.path.isdir`: the lookup finds a directory |
| Store.IsGitDir | script.py:34-35 | `is_git_dir(path)`: `path/.git` is a directory |
| Store.MakeDirsStep | script.py:30-31 | `ensure_repos_dir`: an existing directory is kept, a non-directory in the way raises FileExistsError, otherwise the directory is added |
| Store.InitNameOk | script.py:77 | init's name rule: non-empty, no `/`, no `\`, no leading `.` |
| Store.CloneNameOk | script.py:93 | clone's name rule: no `/`, no `\`, no leading `.`, and no emptiness test |
| Store.JoinUnderRoot | script.py:95 | under a root without a trailing `/`, a relative name joins to `root/name` |
| Store.LookupTrailingSlash | script.py:96 | a path with a trailing `/` exists exactly when the path is a directory |
| Store.Children | script.py:41 | `listdir` gives exactly the non-empty, slash-free names whose `dir/name` entry exists |
| Store.MakeDirsOutcome | script.py:30-31 | `makedirs(exist_ok=True)` fails exactly when a non-directory is in the way, leaves the entries alone then, and otherwise leaves a directory, adding only that path |
| Store.MakeDirsIdempotent | script.py:30-31 | creating the root a second time changes nothing |
| Store.FileSystem.MakeDirs | script.py:30-31 | the method's result and new entries are those of the makedirs step |
| Store.FileSystem.ListDir | script.py:41 | the names returned are exactly the children of the directory, without duplicates |
| Store.FileSystem.AddRepository | script.py:83 | a successful git command leaves the target and its `.git` as directories |
| Store.WithRepositoryIsRepository | script.py:34-35 | after that, the target exists, is a directory and is a git repository |
| Store.NameRulesDiffer | script.py:93 | every name init accepts, clone accepts; the only name clone accepts and init refuses is the empty one |
| Store.DeriveCloneName | script.py:92 | the derived name is never empty and never holds `/` |
| Store.DeriveIgnoresTrailingSlash | script.py:92 | trailing slashes on the URL do not change the derived name |
| Store.DeriveFromGitUrl | script.py:92 | a URL ending in `/<n>.git` derives `n`, or `repo` when `n` is empty |
| Store.DeriveFromPlainUrl | script.py:92 | a URL ending in `/<n>` without `.git` derives `n` |
| Store.DeriveExample | script.py:92 | `https://example.com/foo.git` derives `foo` |
| Inventory.Listed | script.py:42-46 | the scan keeps a child that does not start with `.`, is a directory and holds a `.git` directory |
| Inventory.RecordFor | script.py:47-72 | one repository's record: the branch probe, then the status probe, each field staying None when the probe raised |
| Inventory.Repos | script.py:41-72 | the records of the kept children, in sorted order |
| Inventory.ReposStep | script.py:38-73 | `get_repos`: create the root, whose error escapes, then scan it |
| Inventory.RecordFields | script.py:47-66 | the branch is the trimmed rev-parse output only on exit 0 and when non-empty. A repository is clean exactly when status exits 0 with only whitespace. A nonzero status exit reads as not clean. The fields are unknown exactly when a probe raised |
| Inventory.CollectRecords | script.py:41-72 | every record the loop appends is for a name from the listing that passed the filter, and is that name's own record |
| Inventory.CollectComplete | script.py:41-72 | the loop leaves a record for every listed name it keeps |
| Inventory.CollectSorted | script.py:41-72 | for a strictly ascending listing (as `sorted` of `listdir` gives), the records come out in strictly ascending name order |
| Inventory.SortedListing | script.py:41 | sorting the names `listdir` returns gives the one strictly ascending listing of the root's children |
| Inventory.Probe | script.py:47-66 | the two probes in their try block yield the record described for that name |
| Inventory.ScanRepos | script.py:41-72 | the loop returns exactly the specified listing for the current entries |
| Inventory.GetRepos | script.py:38-73 | the scan creates the root first, fails only when the root cannot be created, and otherwise returns the specified listing |
| Inventory.ReposOrdered | script.py:41 | the records come out in strictly ascending name order |
| Inventory.ReposEntries | script.py:41-72 | each record is a child of the root the scan keeps, at `root/name`, with that name's probe fields |
| Inventory.ReposComplete | script.py:41-46 | every child the scan keeps has a record |
| Inventory.ReposContents | script.py:38-73 | names are strictly ascending. Every record is a child of the root that does not start with `.`, is a directory and holds `.git`, with path `root/name` and the probes' fields. Every such child has a record |
| Inventory.EmptyRootListsNothing | script.py:38-41 | an empty root lists nothing, and is not an error |
| Inventory.BrokenRepositoryStillListed | script.py:49-66 | a repository whose probes both raise is still listed, with both fields unknown |
| Operations.Place | script.py:95-105 | the tail shared by init and clone: an existing target raises FileExistsError, otherwise git must exit 0, and success answers the name with its path and adds the repository; a failure raises what `subprocess.run` raised and leaves the filesystem alone |
| Operations.InitSpec | script.py:76-84 | `init_repo`: the name rule, then the root, then the target check, then `git init` with a 10-second bound |
| Operations.CloneName | script.py:91-92 | the given name when present, else the one derived from the URL |
| Operations.CloneSpec | script.py:87-105 | `clone_repo`: the URL check, then the root, then the given or derived name |
| Operations.CloneInto | script.py:93-105 | the clone rule on the chosen name, then the target check and `git clone` with a 300-second bound |
| Operations.RunGit | script.py:108-124 | `run_git`: empty arguments answer "" first, a target without `.git` raises FileNotFoundError "Not a git repository: <name>", otherwise the outcome of `git -C` with a 60-second bound |
| Operations.RunOutcome | script.py:114-124 | a completed process fails with RuntimeError on a nonzero exit with non-blank standard error, and otherwise answers the stripped output, or the stripped error text when the output is blank; a process that did not complete raises what `subprocess.run` raised |
| Operations.InitRepo | script.py:76-84 | the method's result and new filesystem are those of the init specification |
| Operations.CloneRepo | script.py:87-105 | the method's result and new filesystem are those of the clone specification |
| Operations.InitRejectsInvalidNames | script.py:77-78 | init answers "Invalid repo name" exactly for the names its rule refuses, and then leaves the filesystem untouched |
| Operations.MakeDirsKeepsChild | script.py:79-81 | creating the root does not change whether `root/name` exists |
| Operations.InitConflict | script.py:81-82 | an existing target answers "already exists" whatever git would do, so git is not run |
| Operations.CreatedRepository | script.py:80-84 | a non-empty acceptable name joins to `root/name`, and after a successful git command that path exists and is a repository, while the root stays usable |
| Operations.PlaceOutcomes | script.py:80-84 | the tail init and clone share: a success answers `{name, root/name}` with a repository there, so the name is not empty; an empty name names the root and answers "already exists" with the filesystem unchanged; every failure leaves the filesystem unchanged |
| Operations.Stages | script.py:79-81 | with a usable root and a non-empty acceptable name, creating the root succeeds and leaves a directory, the target's existence is unchanged, and init and clone reduce to the shared tail |
| Operations.InitGitFails | script.py:83 | a `git init` that does not succeed raises what `subprocess.run` raised, leaves the filesystem as creating the root left it, and no target exists |
| Operations.InitCreates | script.py:79-84 | a free name with a successful `git init` answers `{name, root/name}` and leaves a repository there |
| Operations.InitTwiceConflicts | script.py:81-82 | a second init of the same name answers "already exists" |
| Operations.InitOutcomes | script.py:76-84 | a successful init reports `root/name` and adds exactly that repository. A failed one leaves the filesystem as it was, or with only the root added |
| Operations.CloneRequiresUrl | script.py:88-89 | an empty URL answers "Clone URL required" and touches nothing |
| Operations.CloneRejectsInvalidNames | script.py:91-94 | clone answers "Invalid repo name" exactly for the names the clone rule refuses. A derived name is never empty and never holds `/` |
| Operations.CloneConflict | script.py:95-98 | for a non-empty acceptable clone name whose target exists, clone answers "already exists" whatever git would do, with the filesystem as creating the root left it |
| Operations.CloneIntoRejects | script.py:93-94 | after the name is chosen, clone answers "Invalid repo name" exactly when the clone rule refuses it |
| Operations.CloneGitFails | script.py:98-104 | for a free, non-empty acceptable name, given or derived from the URL, a `git clone` that does not succeed raises what `subprocess.run` raised, and leaves no repository behind |
| Operations.CloneEmptyNameConflicts | script.py:93-97 | an empty supplied name passes the clone rule, then names the existing root, and answers "already exists" |
| Operations.CloneCreates | script.py:95-105 | a free, non-empty, acceptable name with a successful `git clone` answers `{name, root/name}` and leaves a repository there |
| Operations.CloneExample | script.py:92-105 | cloning `https://example.com/foo.git` without a name creates `root/foo` |
| Operations.CloneOutcomes | script.py:87-105 | a successful clone uses the given or derived name, never empty, and adds exactly `root/name`. A failed one leaves the filesystem as it was, or with only the root added |
| Operations.RunEmptyArgs | script.py:109-110 | empty arguments answer "" before anything else |
| Operations.RunNotARepository | script.py:111-113 | a repository name without `.git` answers "Not a git repository: <name>" |
| Operations.RunInRepository | script.py:114-124 | with arguments and a repository at `root/repo`, run's answer is the outcome of `git -C root/repo` with those arguments |
| Operations.RunResultPolicy | script.py:120-124 | for a git process that completes, run fails exactly on a nonzero exit with non-blank standard error, carrying that text. Otherwise it answers the trimmed output, or the trimmed error text when the output is blank, and the answer is trimmed |
| Operations.RunNonzeroQuietSucceeds | script.py:122-124 | a nonzero exit with blank standard error counts as success |
| Operations.RunAbsoluteRepository | script.py:111 | an absolute repository name runs git in that directory, outside the root |
| Router.CloneFailureText | script.py:185 | the message of a failed clone: standard error, else standard output, else the exception's text, stripped |
| Router.InitResponse | script.py:164-171 | init's outcome to status: 201, 409, 400 or 500 |
| Router.CloneResponse | script.py:178-187 | clone's outcome to status: 201, 409, 400 (for ValueError and CalledProcessError) or 500 |
| Router.RunResponse | script.py:195-202 | run's outcome to status: 200, 404, 400 or 500 |
| Router.ReposResponse | script.py:144-148 | the scan's outcome to status: 200 or 500 |
| Router.PostSpec | script.py:155-206 | `do_POST`: dispatch on the path, with a bare 404 for any other path |
| Router.PostInit | script.py:159-171 | `POST /init`: a missing or empty name answers 400, otherwise init's response |
| Router.PostClone | script.py:173-187 | `POST /clone`: a missing or empty URL answers 400, otherwise clone's response with the optional name |
| Router.PostRun | script.py:189-202 | `POST /run`: a missing repository or non-list arguments answer 400, otherwise run's response |
| Router.GetSpec | script.py:143-153 | `do_GET`: `/repos` scans, `/health` answers the root, any other path a bare 404 |
| Router.HandlePost | script.py:155-206 | the POST handler's response and new filesystem are those of the POST specification |
| Router.HandleGet | script.py:143-153 | the GET handler's response and new filesystem are those of the GET specification |
| Router.PostRoutes | script.py:159-206 | `/init`, `/clone` and `/run` each reach their own handler; `/run` never changes the modelled filesystem |
| Router.ResponseShapes | script.py:164-202 | the outcome-to-status tables. Init: 201 with the stub on success, FileExistsError 409, ValueError 400, anything else 500. Clone: the same, and CalledProcessError 400 with its standard error, else standard output, else its text, stripped. Run: 200 with the output, FileNotFoundError 404, RuntimeError 400, anything else 500. `GET /repos`: 200 with the listing, or 500. Every error status carries the exception's message |
| Router.InitInvalidNameRejected | script.py:164-169 | init of a non-empty name its rule refuses answers 400 "Invalid repo name" and leaves the filesystem untouched |
| Router.CloneInvalidNameRejected | script.py:178-183 | clone with a name the clone rule refuses answers 400 "Invalid repo name", with only the root created |
| Router.InitExistingIsConflict | script.py:164-167 | init of an existing target answers 409 "already exists", with only the root created |
| Router.CloneExistingIsConflict | script.py:178-181 | clone into an existing target answers 409 "already exists", with only the root created |
| Router.MissingFieldsRejected | script.py:159-194 | a missing or empty required field answers 400 with its message before any operation runs |
| Router.PostResponsesWellFormed | script.py:155-206 | every POST answers 200, 201, 400, 404, 409 or 500. 201 carries the created repository, 200 only comes from `/run`, an empty 404 exactly for unknown paths, and every error status carries a message |
| Router.PostOnlyCreatedAddsRepository | script.py:159-187 | only a 201 adds a repository, at the reported `root/name`. Every other POST leaves the filesystem as it was, or with only the root added |
| Router.GetFixedRoutes | script.py:149-153 | `/health` answers 200 with the root; an unknown GET path answers an empty 404 |
| Router.EmptyRootGivesEmptyListing | script.py:144-146 | `GET /repos` on an empty root answers 200 with an empty list |
| Router.InitDemoTwice | script.py:164-167 | `POST /init {"name":"demo"}` answers 201 with `root/demo`, and again answers 409 |
| Router.InitThenRunStatus | script.py:195-196 | after creating `demo`, a silent `git status --porcelain` answers 200 with empty output |
| Router.InitGitFailureIsServerError | script.py:170-171 | a failed `git init`, whatever the cause, answers 500 and creates no repository |
| Router.CloneGitFailure | script.py:184-187 | for a given or derived name and a `git clone` that does not succeed: a nonzero exit answers 400 with its standard error stripped, else its standard output stripped, else the exception's text stripped; a timeout answers 500 with the exception's text, and so does a failure to start git. The filesystem is as creating the root left it, with no target |
| Router.CloneExitStatus | script.py:184-185 | a clone whose git exits nonzero answers 400 with the failure text built from its outputs and the exception's text |
| Router.CloneNoExitStatus | script.py:186-187 | a clone whose git times out or cannot start answers 500, a timeout with the exception's text |
| Router.CloneFailureTextCases | script.py:185 | the failure text is standard error stripped when there is any, else standard output stripped when there is any, else the exception's text stripped |
| Router.CloneDerivedNameFailure | script.py:178-185 | a request with only a URL `<prefix>/<n>.git` whose clone exits nonzero with error text answers 400 with that text stripped, and `root/n` does not exist afterwards |
| Router.CloneEmptyNameIsConflict | script.py:180-181 | cloning with `"name": ""` answers 409 |
| Router.RunStatuses | script.py:195-202 | a missing repository answers 404 with its message, and so does a missing git executable. A timeout, or another failure to start git, answers 500. A failure with error text answers 400 with that text. Run never changes the modelled filesystem |
| Router.RunNothing | script.py:196 | an empty argument list answers 200 with empty output, whatever the repository |

## Left out

- HTTP transport: the server socket, headers and `Content-Length`, JSON encoding and decoding, logging, `main`, HOST and PORT. Requests arrive decoded: the path without its query string (`urlparse`), and the body's fields.
- A body that is not valid JSON, or a truthy JSON value that is not an object: the handler raises outside its try blocks (at `json.loads`, script.py:141, or at `body.get`, script.py:160, 174 and 190), so there is no status to model. A falsy body (`[]`, `0`, `""`, `false`, `null`) becomes `{}` (script.py:157) and is answered like an empty body, which `EmptyBody` models.
- JSON field values that are not strings for `name`, `url` and `repo`, and `args` elements that are not strings: the model takes these fields as strings. In the code the answer then depends on the value. A falsy value reads as missing and answers 400 (script.py:161, 175, 192). `run` with empty `args` answers 200 with `""` whatever `repo` is (script.py:109-110), and one whose target is not a repository answers 404 before any argument is used (script.py:112-113). Otherwise the first check or library call that meets the value decides, mostly by raising an exception (TypeError, AttributeError) that the handler's last clause answers with 500.
- HTTP methods other than GET and POST.
- `~` expansion of REPOS_DIR: the root is a parameter of the configuration.
- The text of exceptions raised by the Python library (`str(e)` of CalledProcessError, TimeoutExpired, OSError, FileExistsError from makedirs): the model names their cause and takes the text from the configuration.
- Running git: each invocation's outcome is a parameter, and the same invocation is taken to give the same outcome.
- Concurrency between requests: requests are served one at a time.
- Store.MakeDirsStep: does not model the creation of missing parent directories of the root, nor makedirs failing for permission reasons.
- Store.Lookup: paths are not normalised (`..`, `.`, repeated `/`), and symbolic links are not modelled.
- Store.FileSystem.AddRepository: git's effect is reduced to the target directory and its `.git` directory. A failed `git init` or `git clone` is taken to leave nothing behind.
- Operations.RunGit: what the git command does to the filesystem is not modelled; `/run` is taken to leave the modelled filesystem unchanged. A git subcommand can create or remove entries anywhere, including repositories under the root (`init ../x`, `clone <url> ../x`, `worktree add ../x`). After such a run the program answers 409 to an init of `x` and lists `x` in `/repos`, which the model, working on the unchanged filesystem, does not reflect.
- Process.Raised: does not model the ValueError ("embedded null byte") that `subprocess.run` raises before starting git when an argument holds a NUL character. A name, URL or argument holding NUL then answers 400 in init and clone (script.py:168-169, 182-183) and 500 in run, where the model consults the git outcome instead. `os.path.exists` and `os.path.isdir` answer false for such paths, which the model matches only for a filesystem holding no path with NUL.
- Inventory.GetRepos: a failing `os.listdir` (permission denied, root removed meanwhile) is not modelled; only makedirs can make the scan fail.
- Decoding of git's output bytes as text is not modelled: outputs are already strings.
