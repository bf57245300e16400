/**
 * The server's view of `subprocess.run` and of the exceptions its code raises
 * or lets through. Running git is not modelled: every invocation's outcome is
 * given by the configuration, as is the text `str(e)` of an exception raised
 * by the Python library.
 */
module Process {

  /** One `subprocess.run` call: the argument vector and the `timeout=` bound in seconds. */
  datatype Invocation = Invocation(argv: seq<string>, seconds: nat)

  /** What `subprocess.run` gives back or raises. */
  datatype ProcessOutcome =
    | Completed(code: int, stdout: string, stderr: string)
    | TimedOut                      // subprocess.TimeoutExpired
    | SpawnFailed(missing: bool)    // OSError from starting the process; FileNotFoundError when `missing`

  /** Library-raised exceptions, whose message `str(e)` the model does not compute. */
  datatype Fault =
    | ExitStatus(argv: seq<string>, code: int)          // CalledProcessError from `check=True`
    | TimedOutAfter(argv: seq<string>, seconds: nat)    // TimeoutExpired
    | SpawnFault(argv: seq<string>, missing: bool)      // OSError raised while starting git
    | PathBlocked(path: string)                         // FileExistsError from os.makedirs

  /** The Python exception classes the request handlers distinguish, each with `str(e)`. */
  datatype Exc =
    | ValueError(msg: string)
    | FileExistsError(msg: string)
    | FileNotFoundError(msg: string)
    | RuntimeError(msg: string)
    | CalledProcessError(stdout: string, stderr: string, msg: string)
    | TimeoutExpired(msg: string)
    | OSError(msg: string)

  /** A value returned, or an exception raised. */
  datatype Result<+T> = Ok(value: T) | Err(error: Exc)

  /**
   * The process-wide configuration: the repository root (REPOS_DIR), the
   * outcome of every git invocation, and `str` of library exceptions.
   */
  datatype Config = Config(root: string, git: Invocation -> ProcessOutcome, describe: Fault -> string)

  /**
   * The exception `subprocess.run(inv)` raises for `o`: for a completed
   * process it is the one `check=True` raises on a nonzero exit.
   */
  function Raised(cfg: Config, inv: Invocation, o: ProcessOutcome): Exc {
    match o
    case Completed(code, out, err) => CalledProcessError(out, err, cfg.describe(ExitStatus(inv.argv, code)))
    case TimedOut => TimeoutExpired(cfg.describe(TimedOutAfter(inv.argv, inv.seconds)))
    case SpawnFailed(missing) =>
      var text := cfg.describe(SpawnFault(inv.argv, missing));
      if missing then FileNotFoundError(text) else OSError(text)
  }
}
