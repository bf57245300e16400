/**
 * The inventory scan, `get_repos` (script.py:38-73): the repositories under
 * REPOS_DIR in name order, each with its current branch and whether its
 * working tree is clean, as far as two git probes can tell.
 */
module Inventory {
  import opened Wrappers
  import opened Text
  import opened Process
  import opened Store

  /** One entry of the listing: `{name, path, currentBranch, isClean}`. */
  datatype Record = Record(name: string, path: Path, currentBranch: Option<string>, isClean: Option<bool>)

  /** `git -C <full> rev-parse --abbrev-ref HEAD`, bounded by 5 seconds. */
  function BranchProbe(full: Path): Invocation {
    Invocation(["git", "-C", full, "rev-parse", "--abbrev-ref", "HEAD"], 5)
  }

  /** `git -C <full> status --porcelain`, bounded by 5 seconds. */
  function StatusProbe(full: Path): Invocation {
    Invocation(["git", "-C", full, "status", "--porcelain"], 5)
  }

  /** The entries the scan reports on: no leading `.`, a directory, holding a `.git` directory. */
  predicate Listed(fs: Entries, root: Path, name: string) {
    var full := Join(root, name);
    !StartsWith(name, ".") && IsDir(fs, full) && IsGitDir(fs, full)
  }

  /**
   * The record for one repository. A probe that raises (times out, cannot
   * start) leaves the fields not yet set at None; the status probe runs only
   * after the branch probe returned.
   */
  function RecordFor(cfg: Config, name: string): Record {
    var full := Join(cfg.root, name);
    var b := cfg.git(BranchProbe(full));
    if !b.Completed? then Record(name, full, None, None)
    else
      var branch := if b.code == 0 && Trim(b.stdout) != [] then Some(Trim(b.stdout)) else None;
      var st := cfg.git(StatusProbe(full));
      if !st.Completed? then Record(name, full, branch, None)
      else Record(name, full, branch, Some(st.code == 0 && Trim(st.stdout) == []))
  }

  /** What the probes decide, field by field. */
  lemma RecordFields(cfg: Config, name: string)
    ensures var r := RecordFor(cfg, name);
      var full := Join(cfg.root, name);
      var b := cfg.git(BranchProbe(full));
      var st := cfg.git(StatusProbe(full));
      && r.name == name && r.path == full
      // the branch is the trimmed rev-parse output, only on exit 0, None when empty
      && (r.currentBranch.Some? <==> b.Completed? && b.code == 0 && Trim(b.stdout) != [])
      && (r.currentBranch.Some? ==> r.currentBranch.value == Trim(b.stdout)
                                    && Trim(r.currentBranch.value) == r.currentBranch.value)
      // clean exactly when status exits 0 with nothing to report
      && (r.isClean == Some(true) <==> b.Completed? && st.Completed? && st.code == 0 && Trim(st.stdout) == [])
      // a nonzero status exit reads as "not clean", not as unknown
      && (b.Completed? && st.Completed? && st.code != 0 ==> r.isClean == Some(false))
      // unknown exactly when one of the probes raised
      && (r.isClean.None? <==> !b.Completed? || !st.Completed?)
  {
    var b := cfg.git(BranchProbe(Join(cfg.root, name)));
    if b.Completed? {
      TrimIdempotent(b.stdout);
    }
  }

  /**
   * One record per entry of `listing` that `keep` admits, built by `make`, in
   * the listing's order: the shape of the scan's loop.
   */
  function Collect(listing: seq<string>, keep: string -> bool, make: string -> Record): seq<Record> {
    if listing == [] then []
    else
      var rest := Collect(listing[..|listing| - 1], keep, make);
      var name := listing[|listing| - 1];
      if keep(name) then rest + [make(name)] else rest
  }

  /** Every record is an admitted entry's own record. */
  lemma {:induction false} CollectRecords(listing: seq<string>, keep: string -> bool, make: string -> Record)
    requires forall n :: make(n).name == n
    ensures forall k :: 0 <= k < |Collect(listing, keep, make)| ==>
      && Collect(listing, keep, make)[k].name in listing
      && keep(Collect(listing, keep, make)[k].name)
      && Collect(listing, keep, make)[k] == make(Collect(listing, keep, make)[k].name)
  {
    if listing != [] {
      var front := listing[..|listing| - 1];
      CollectRecords(front, keep, make);
      assert forall n :: n in front ==> n in listing;
    }
  }

  /** Some record in `records` is named `n`. */
  ghost predicate HasRecord(records: seq<Record>, n: string) {
    exists k :: 0 <= k < |records| && records[k].name == n
  }

  /** Every admitted entry has a record. */
  lemma {:induction false} CollectComplete(listing: seq<string>, keep: string -> bool, make: string -> Record)
    requires forall n :: make(n).name == n
    ensures forall n :: n in listing && keep(n) ==> HasRecord(Collect(listing, keep, make), n)
  {
    if listing != [] {
      var front := listing[..|listing| - 1];
      var name := listing[|listing| - 1];
      CollectComplete(front, keep, make);
      var rest := Collect(front, keep, make);
      var records := Collect(listing, keep, make);
      assert |rest| <= |records| && forall k :: 0 <= k < |rest| ==> records[k] == rest[k];
      forall n | n in listing && keep(n)
        ensures HasRecord(records, n)
      {
        if n == name {
          assert records[|records| - 1].name == name;
        } else {
          assert n in front && HasRecord(rest, n);
          var k :| 0 <= k < |rest| && rest[k].name == n;
          assert records[k].name == n;
        }
      }
    }
  }

  /** A strictly sorted listing gives records in strictly increasing name order. */
  lemma {:induction false} CollectSorted(listing: seq<string>, keep: string -> bool, make: string -> Record)
    requires forall n :: make(n).name == n
    requires StrictlySorted(listing)
    ensures forall i, j :: 0 <= i < j < |Collect(listing, keep, make)| ==>
      LexLess(Collect(listing, keep, make)[i].name, Collect(listing, keep, make)[j].name)
  {
    if listing != [] {
      var front := listing[..|listing| - 1];
      var name := listing[|listing| - 1];
      CollectSorted(front, keep, make);
      CollectRecords(front, keep, make);
      var rest := Collect(front, keep, make);
      forall k | 0 <= k < |rest| ensures LexLess(rest[k].name, name) {
        var p :| 0 <= p < |front| && front[p] == rest[k].name;
        assert listing[p] == rest[k].name;
      }
    }
  }

  /** The records `get_repos` builds for a listing of the root. */
  function ScanListing(fs: Entries, cfg: Config, listing: seq<string>): seq<Record> {
    Collect(listing, n => Listed(fs, cfg.root, n), n => RecordFor(cfg, n))
  }

  /** The scan of a listing grows by one entry at a time. */
  lemma ScanListingStep(fs: Entries, cfg: Config, listing: seq<string>, name: string)
    ensures ScanListing(fs, cfg, listing + [name]) ==
      if Listed(fs, cfg.root, name) then ScanListing(fs, cfg, listing) + [RecordFor(cfg, name)]
      else ScanListing(fs, cfg, listing)
  {
    assert (listing + [name])[..|listing|] == listing;
  }

  /** `sorted` of any listing of a directory is the directory's sorted member list. */
  lemma SortedListing(names: seq<string>, children: set<string>)
    requires Members(names) == children && Distinct(names)
    ensures SortStrings(names) == SortedMembers(children)
  {
    var sorted := SortStrings(names);
    SortStringsStrictlySorted(names);
    assert Members(sorted) == Members(names) by {
      forall x ensures x in sorted <==> x in names {
        assert x in sorted <==> x in multiset(sorted);
        assert x in names <==> x in multiset(names);
      }
    }
    StrictlySortedUnique(sorted, SortedMembers(children));
  }

  /** What `get_repos` returns once the root exists: the inventory of the sorted listing. */
  ghost function Repos(fs: Entries, cfg: Config): seq<Record> {
    ScanListing(fs, cfg, SortedMembers(Children(fs, cfg.root)))
  }

  /** `get_repos` in full: `ensure_repos_dir`, whose error escapes, then the scan. */
  ghost function ReposStep(fs: Entries, cfg: Config): Step<Result<seq<Record>>> {
    var made := MakeDirsStep(fs, cfg.root, cfg.describe);
    if made.value.Err? then Step(Err(made.value.error), made.fs)
    else Step(Ok(Repos(made.fs, cfg)), made.fs)
  }

  /**
   * The scan over the root's listing (script.py:41-72), for a root that
   * exists: it sorts whatever order `os.listdir` gives.
   */
  method ScanRepos(fs: FileSystem, cfg: Config) returns (records: seq<Record>)
    ensures records == Repos(fs.entries, cfg)
  {
    var names := fs.ListDir(cfg.root);
    var entries := fs.entries;
    var sorted := SortStrings(names);
    SortedListing(names, Children(entries, cfg.root));
    records := [];
    var i := 0;
    while i < |sorted|
      invariant 0 <= i <= |sorted|
      invariant records == ScanListing(entries, cfg, sorted[..i])
    {
      var name := sorted[i];
      ScanListingStep(entries, cfg, sorted[..i], name);
      assert sorted[..i + 1] == sorted[..i] + [name];
      var full := Join(cfg.root, name);
      if !StartsWith(name, ".") && IsDir(entries, full) && IsGitDir(entries, full) {
        var record := Probe(cfg, name, full);
        records := records + [record];
      }
      i := i + 1;
    }
    assert sorted[..|sorted|] == sorted;
  }

  /**
   * The two probes for one repository (script.py:47-72): each field stays
   * None until a probe that returned sets it.
   */
  method Probe(cfg: Config, name: string, full: Path) returns (record: Record)
    requires full == Join(cfg.root, name)
    ensures record == RecordFor(cfg, name)
  {
    var currentBranch: Option<string> := None;
    var isClean: Option<bool> := None;
    var r := cfg.git(BranchProbe(full));
    if r.Completed? {
      if r.code == 0 {
        var branch := Trim(r.stdout);
        currentBranch := if branch == [] then None else Some(branch);
      }
      var r2 := cfg.git(StatusProbe(full));
      if r2.Completed? {
        isClean := Some(r2.code == 0 && Trim(r2.stdout) == []);
      }
    }
    record := Record(name, full, currentBranch, isClean);
  }

  /** `get_repos()` (script.py:38-73). */
  method GetRepos(fs: FileSystem, cfg: Config) returns (r: Result<seq<Record>>)
    modifies fs
    ensures Step(r, fs.entries) == ReposStep(old(fs.entries), cfg)
  {
    var made := fs.MakeDirs(cfg.root, cfg.describe);
    if made.Err? {
      return Err(made.error);
    }
    var records := ScanRepos(fs, cfg);
    return Ok(records);
  }

  /**
   * The listing is sorted by name, holds exactly the listed repositories among
   * the root's children, each once, and each record is its probes' record at
   * `<root>/<name>`.
   */
  lemma ReposContents(fs: Entries, cfg: Config)
    requires ValidRoot(cfg.root)
    ensures var rs := Repos(fs, cfg);
      && (forall i, j :: 0 <= i < j < |rs| ==> LexLess(rs[i].name, rs[j].name))
      && (forall k :: 0 <= k < |rs| ==>
            && rs[k].name in Children(fs, cfg.root)
            && !StartsWith(rs[k].name, ".")
            && IsDir(fs, rs[k].path) && IsGitDir(fs, rs[k].path)
            && rs[k].path == cfg.root + "/" + rs[k].name
            && rs[k] == RecordFor(cfg, rs[k].name))
      && (forall n :: n in Children(fs, cfg.root) && Listed(fs, cfg.root, n) ==> HasRecord(rs, n))
  {
    ReposOrdered(fs, cfg);
    ReposEntries(fs, cfg);
    ReposComplete(fs, cfg);
  }

  /** The inventory is in strictly increasing name order. */
  lemma ReposOrdered(fs: Entries, cfg: Config)
    ensures var rs := Repos(fs, cfg);
      forall i, j :: 0 <= i < j < |rs| ==> LexLess(rs[i].name, rs[j].name)
  {
    var keep := n => Listed(fs, cfg.root, n);
    var make := n => RecordFor(cfg, n);
    assert forall n :: make(n).name == n;
    CollectSorted(SortedMembers(Children(fs, cfg.root)), keep, make);
  }

  /** Each record is a listed child's own record, at `<root>/<name>`. */
  lemma ReposEntries(fs: Entries, cfg: Config)
    requires ValidRoot(cfg.root)
    ensures var rs := Repos(fs, cfg);
      forall k :: 0 <= k < |rs| ==>
        && rs[k].name in Children(fs, cfg.root)
        && Listed(fs, cfg.root, rs[k].name)
        && rs[k].path == cfg.root + "/" + rs[k].name
        && rs[k] == RecordFor(cfg, rs[k].name)
  {
    var listing := SortedMembers(Children(fs, cfg.root));
    var rs := Repos(fs, cfg);
    var keep := n => Listed(fs, cfg.root, n);
    var make := n => RecordFor(cfg, n);
    assert forall n :: make(n).name == n;
    assert rs == Collect(listing, keep, make);
    CollectRecords(listing, keep, make);
    forall k | 0 <= k < |rs|
      ensures && rs[k].name in Children(fs, cfg.root)
              && Listed(fs, cfg.root, rs[k].name)
              && rs[k].path == cfg.root + "/" + rs[k].name
              && rs[k] == RecordFor(cfg, rs[k].name)
    {
      var n := rs[k].name;
      assert n in listing && keep(n) && rs[k] == make(n);
      assert n in Members(listing);
      JoinUnderRoot(cfg.root, n);
    }
  }

  /** Every listed child has a record. */
  lemma ReposComplete(fs: Entries, cfg: Config)
    ensures forall n :: n in Children(fs, cfg.root) && Listed(fs, cfg.root, n) ==> HasRecord(Repos(fs, cfg), n)
  {
    var listing := SortedMembers(Children(fs, cfg.root));
    var keep := n => Listed(fs, cfg.root, n);
    var make := n => RecordFor(cfg, n);
    assert forall n :: make(n).name == n;
    CollectComplete(listing, keep, make);
    forall n | n in Children(fs, cfg.root) && Listed(fs, cfg.root, n)
      ensures HasRecord(Repos(fs, cfg), n)
    {
      assert n in Members(listing);
    }
  }

  /** An empty root lists as an empty sequence, never as an error. */
  lemma EmptyRootListsNothing(fs: Entries, cfg: Config)
    requires ValidRoot(cfg.root)
    requires Children(fs, cfg.root) == {}
    requires cfg.root !in fs || fs[cfg.root] == Dir
    ensures ReposStep(fs, cfg).value == Ok([])
  {
    MakeDirsOutcome(fs, cfg.root, cfg.describe);
    var made := MakeDirsStep(fs, cfg.root, cfg.describe);
    assert Children(made.fs, cfg.root) == {} by {
      forall n | n != [] && '/' !in n && cfg.root + "/" + n in made.fs
        ensures cfg.root + "/" + n in fs
      {
        assert |cfg.root + "/" + n| > |cfg.root|;
      }
    }
  }

  /**
   * A repository whose probes cannot even run is still listed, with both
   * fields unknown.
   */
  lemma BrokenRepositoryStillListed(fs: Entries, cfg: Config, n: string)
    requires ValidRoot(cfg.root)
    requires n in Children(fs, cfg.root) && Listed(fs, cfg.root, n)
    requires !cfg.git(BranchProbe(Join(cfg.root, n))).Completed?
    ensures exists k :: 0 <= k < |Repos(fs, cfg)| && Repos(fs, cfg)[k] == Record(n, cfg.root + "/" + n, None, None)
  {
    ReposContents(fs, cfg);
    JoinUnderRoot(cfg.root, n);
  }
}
