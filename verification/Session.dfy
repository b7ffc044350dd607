/**
 Publication of a run (pkg/slint/session.go): every run writes its own audit file and moves the shared alias
 `sli-summary.json` to its summary, in a directory where looking up, writing and removing may fail.
 */
module Sessions {
  import opened GoStrings
  import opened Selectors
  import opened Summaries
  import opened Identity
  import opened Engine

  const ALIAS := "sli-summary.json"

  /** What a file holds: a published summary or anything else. */
  datatype File = Published(summary: Summary) | Other(content: string)

  type Directory = map<string, File>

  /** What a failed write leaves at its own path. */
  datatype Leftover = Untouched | Replaced(file: File) | Gone

  /** How the file system behaves during one `End`. */
  datatype Faults = Faults(
    statFails: set<string>, auditWrites: bool, auditLeftover: Leftover,
    aliasWrites: bool, aliasLeftover: Leftover, removeFails: bool)

  /** The caller's checks of a published summary: strictness and gating. */
  datatype Checks = Checks(strict: Summary -> bool, gate: Summary -> bool)

  datatype EndError =
    | NotStarted
    | StatFailed
    | RunFailedWith(error: ExecError)
    | AliasNotWritten
    | NotStrict
    | NotGated
    | AliasNotInvalidated(cause: EndError)

  // ----- file names -----

  /** Bytes that do not occur in a file name. */
  predicate Unsafe(c: char)
  {
    c in ['/', '\\', ' ', ':', ';', '\"', '\'', '\n', '\r', '\t']
  }

  function SanitizedByte(c: char): char
  {
    if Unsafe(c) then '_' else c
  }

  /** `SanitizeFilename`. */
  function SanitizeFilename(s: string): (r: string)
    ensures 0 < |r| <= 120
    ensures forall c :: c in r ==> !Unsafe(c)
  {
    var t := TrimSpace(s);
    if t == "" then "unknown"
    else
      var u := seq(|t|, i requires 0 <= i < |t| => SanitizedByte(t[i]));
      if |u| > 120 then u[..120] else u
  }

  /** A name keeps its first 120 bytes, blanks at the ends aside, except that the ten replaced bytes become `_`. */
  lemma SanitizedBytes(s: string)
    ensures var t, r := TrimSpace(s), SanitizeFilename(s);
      if t == "" then r == "unknown" else
      && |r| == (if |t| < 120 then |t| else 120)
      && forall i :: 0 <= i < |r| ==> r[i] == if t[i] in "/\\ :;\"'\n\r\t" then '_' else t[i]
  {
    var unsafe := "/\\ :;\"'\n\r\t";
    assert |unsafe| == 10;
    assert unsafe == ['/', '\\', ' ', ':', ';', '\"', '\'', '\n', '\r', '\t'];
    hide TrimSpace;
  }

  function UniqueFilename(runID: string, testCase: string): string
  {
    "sli-summary." + SanitizeFilename(runID) + "." + SanitizeFilename(testCase) + ".json"
  }

  /** The i-th path that NextSummaryPath tries. */
  function Candidate(base: string, i: nat): string
  {
    if i == 0 then base else base + "-" + Itoa(i)
  }

  /** Every path before the n-th candidate exists. */
  ghost predicate AllTaken(files: Directory, base: string, n: nat)
  {
    forall i :: 0 <= i < n ==> Candidate(base, i) in files
  }

  lemma CandidatesDiffer(base: string, i: nat, j: nat)
    ensures Candidate(base, i) == Candidate(base, j) ==> i == j
  {
    hide Itoa;
    if i > 0 && j > 0 && Candidate(base, i) == Candidate(base, j) {
      assert Itoa(i) == Candidate(base, i)[|base| + 1..] == Itoa(j);
      ItoaInjective(i, j);
    }
  }

  /** A per-run file lies in the directory itself and is never the alias. */
  lemma PerRunNames(runID: string, testCase: string, i: nat)
    ensures Candidate(UniqueFilename(runID, testCase), i) != ALIAS
    ensures Candidate(UniqueFilename(runID, testCase), i) != ""
    ensures '/' !in UniqueFilename(runID, testCase)
  {
    hide SanitizeFilename, Itoa;
    assert |ALIAS| == 16;
    assert |UniqueFilename(runID, testCase)| > 17;
  }

  // ----- the disk -----

  class Disk {
    var files: Directory

    constructor (files: Directory)
      ensures this.files == files
    {
      this.files := files;
    }

    /** A writer that is honest: success means that the summary is there, failure may leave anything at the
        path itself and nothing elsewhere; without a path there is nothing to write. */
    method Write(path: string, s: Summary, succeeds: bool, leftover: Leftover) returns (ok: bool)
      modifies this
      ensures ok <==> succeeds || path == ""
      ensures path == "" ==> files == old(files)
      ensures path != "" && ok ==> files == old(files)[path := Published(s)]
      ensures forall p :: p != path ==> (p in files <==> p in old(files))
      ensures forall p :: p != path && p in files ==> files[p] == old(files)[p]
    {
      if path == "" {
        return true;
      }
      ok := succeeds;
      if succeeds {
        files := files[path := Published(s)];
      } else {
        FailedWrite(path, leftover);
      }
    }

    method FailedWrite(path: string, leftover: Leftover)
      modifies this
      ensures forall p :: p != path ==> (p in files <==> p in old(files))
      ensures forall p :: p != path && p in files ==> files[p] == old(files)[p]
    {
      match leftover {
        case Untouched =>
        case Replaced(f) => files := files[path := f];
        case Gone => files := files - {path};
      }
    }

    /** `os.Remove`; a missing file is not an error. */
    method Remove(path: string, fails: bool) returns (ok: bool)
      modifies this
      ensures ok <==> !fails
      ensures files == if fails then old(files) else old(files) - {path}
    {
      if fails {
        return false;
      }
      files := files - {path};
      return true;
    }

    /** `invalidateStaleStaticAlias`. */
    method InvalidateStaleAlias(path: string, runErr: EndError, removeFails: bool) returns (err: EndError)
      modifies this
      ensures path == "" ==> err == runErr && files == old(files)
      ensures path != "" && removeFails ==> err == AliasNotInvalidated(runErr) && files == old(files)
      ensures path != "" && !removeFails ==> err == runErr && files == old(files) - {path}
    {
      if path == "" {
        return runErr;
      }
      var ok := Remove(path, removeFails);
      if !ok {
        return AliasNotInvalidated(runErr);
      }
      return runErr;
    }

    /** The first candidate that does not exist; the search ends because the directory is finite. */
    method NextPath(base: string, statFails: set<string>) returns (r: Option<string>)
      ensures r.Some? ==> r.value !in files && exists n :: r.value == Candidate(base, n) && AllTaken(files, base, n)
      ensures r.None? ==> exists n :: Candidate(base, n) in statFails && AllTaken(files, base, n)
    {
      hide Candidate, Itoa;
      FirstCandidate(base);
      var path := base;
      var i := 1;
      ghost var untried := files.Keys;
      while true
        invariant i >= 1 && path == Candidate(base, i - 1)
        invariant AllTaken(files, base, i - 1)
        invariant forall k :: k >= i - 1 && Candidate(base, k) in files ==> Candidate(base, k) in untried
        decreases |untried|
      {
        if path in statFails {
          return None;
        }
        if path !in files {
          return Some(path);
        }
        forall k | k >= i && Candidate(base, k) in files ensures Candidate(base, k) in untried - {path} {
          CandidatesDiffer(base, i - 1, k);
        }
        untried := untried - {path};
        NextCandidate(base, i);
        path := base + "-" + Itoa(i);
        i := i + 1;
      }
    }
  }

  lemma FirstCandidate(base: string)
    ensures Candidate(base, 0) == base
  {
  }

  lemma NextCandidate(base: string, i: nat)
    requires i > 0
    ensures Candidate(base, i) == base + "-" + Itoa(i)
  {
  }

  // ----- the end of a run -----

  /** One `End` on a directory.  `audit` is the per-run file that it wrote, if any. */
  datatype Event = Event(
    before: Directory, after: Directory, artifactsDir: string,
    sum: Option<Summary>, err: Option<EndError>, audit: Option<string>)

  /** Every file but the alias is still there with its content. */
  ghost predicate Keeps(before: Directory, after: Directory)
  {
    forall p :: p in before && p != ALIAS ==> p in after && after[p] == before[p]
  }

  /** The alias is the summary of this run. */
  ghost predicate AliasCurrent(e: Event)
  {
    e.sum.Some? && ALIAS in e.after && e.after[ALIAS] == Published(e.sum.value)
  }

  /** There is no alias, and the run says why. */
  ghost predicate AliasCleared(e: Event)
  {
    ALIAS !in e.after && e.err.Some?
  }

  /** An alias may remain that is not this run's, because removing it failed, and the run says so. */
  ghost predicate AliasStuck(e: Event)
  {
    e.err.Some? && e.err.value.AliasNotInvalidated?
  }

  ghost predicate AuditOwned(e: Event)
  {
    e.audit.Some? ==>
      && e.audit.value != ALIAS && e.audit.value !in e.before
      && e.sum.Some? && e.audit.value in e.after && e.after[e.audit.value] == Published(e.sum.value)
  }

  predicate WritesArtifacts(e: Event)
  {
    e.artifactsDir != ""
  }

  /** What every `End` guarantees. */
  ghost predicate EndOutcome(e: Event)
  {
    && Keeps(e.before, e.after) && AuditOwned(e)
    && (e.err == Some(NotStarted) || !WritesArtifacts(e) ==> e.after == e.before)
    && (e.err != Some(NotStarted) && WritesArtifacts(e) ==> AliasCurrent(e) || AliasCleared(e) || AliasStuck(e))
    && (e.err in [None, Some(NotStrict), Some(NotGated)] && WritesArtifacts(e) ==> AliasCurrent(e))
  }

  /** The error of a run that invalidates the alias: the cause, or that the alias could not be removed. */
  function Invalidating(cause: EndError, artifactsDir: string, removeFails: bool): EndError
  {
    if artifactsDir != "" && removeFails then AliasNotInvalidated(cause) else cause
  }

  /** The error of a run that has a summary to publish. */
  function PublishError(s: Summary, artifactsDir: string, f: Faults, checks: Checks): Option<EndError>
  {
    if artifactsDir != "" && !f.aliasWrites then Some(Invalidating(AliasNotWritten, artifactsDir, f.removeFails))
    else if !checks.strict(s) then Some(NotStrict)
    else if !checks.gate(s) then Some(NotGated)
    else None
  }

  /** The engine's error: the first reason to refuse the request, or that the audit file could not be written. */
  function EngineError(env: Env, req: Request): ExecError
  {
    if RequestError(env, req).Some? then RequestError(env, req).value else WriteFailed
  }

  lemma NothingHappened(files: Directory, artifactsDir: string)
    ensures EndOutcome(Event(files, files, artifactsDir, None, Some(NotStarted), None))
  {
  }

  class Session {
    const disk: Disk
    const artifactsDir: string
    const runID: string
    const testCase: string
    var started: bool
    var hasFailed: bool

    constructor (disk: Disk, artifactsDir: string, runID: string, testCase: string)
      ensures this.disk == disk && this.artifactsDir == artifactsDir
      ensures this.runID == runID && this.testCase == testCase
      ensures !started && !hasFailed
    {
      this.disk, this.artifactsDir, this.runID, this.testCase := disk, artifactsDir, runID, testCase;
      started, hasFailed := false, false;
    }

    /** None stands for a failed lookup, "" for no artifact directory. */
    method NextSummaryPath(filename: string, statFails: set<string>) returns (r: Option<string>)
      ensures !NotBlank(artifactsDir) ==> r == Some("")
      ensures statFails == {} ==> r.Some?
      ensures NotBlank(artifactsDir) && r.Some? ==>
        r.value !in disk.files && exists n :: r.value == Candidate(filename, n) && AllTaken(disk.files, filename, n)
    {
      if !NotBlank(artifactsDir) {
        return Some("");
      }
      r := disk.NextPath(filename, statFails);
    }

    /** The path of the audit file; the run has no path when it keeps no artifacts. */
    method AuditPath(statFails: set<string>) returns (r: Option<string>)
      ensures artifactsDir == "" ==> r == Some("")
      ensures r.Some? && r.value != "" ==> r.value !in disk.files && r.value != ALIAS
      ensures r.Some? ==> (r.value != "" <==> NotBlank(artifactsDir))
      ensures statFails == {} ==> r.Some?
    {
      hide SanitizeFilename, Candidate, UniqueFilename, NotBlank;
      BlankIsEmpty();
      if artifactsDir == "" {
        return Some("");
      }
      var filename := UniqueFilename(runID, testCase);
      r := NextSummaryPath(filename, statFails);
      if NotBlank(artifactsDir) && r.Some? {
        ghost var n :| r.value == Candidate(filename, n) && AllTaken(disk.files, filename, n);
        PerRunNames(runID, testCase, n);
      }
    }

    method End(env: Env, digest: Digest, req: Request, w: World, f: Faults, checks: Checks)
      returns (sum: Option<Summary>, err: Option<EndError>, audit: Option<string>)
      modifies this`hasFailed, disk
      ensures EndOutcome(Event(old(disk.files), disk.files, artifactsDir, sum, err, audit))
      ensures err == Some(NotStarted) <==> !started
      ensures hasFailed == (old(hasFailed) || (started && err.Some?))
      ensures sum.Some? ==> Emitted(env, digest, req, w, EMPTY_RELIABILITY, sum.value)
      ensures audit.Some? ==> sum.Some?
      ensures sum.Some? ==> (audit.Some? <==> NotBlank(artifactsDir) && f.auditWrites)
      ensures sum.Some? ==> PointFailed(req, w) || f.auditWrites || !NotBlank(artifactsDir)
      ensures (started && f.statFails == {} && RequestError(env, req).None? &&
               (PointFailed(req, w) || f.auditWrites || !NotBlank(artifactsDir))) ==> sum.Some?
      ensures err.None? <==>
        (started && sum.Some? && (artifactsDir == "" || f.aliasWrites) &&
         checks.strict(sum.value) && checks.gate(sum.value))
      ensures sum.Some? ==> err == PublishError(sum.value, artifactsDir, f, checks)
      ensures started && sum.None? ==>
        || err == Some(Invalidating(RunFailedWith(EngineError(env, req)), artifactsDir, f.removeFails))
        || (err == Some(Invalidating(StatFailed, artifactsDir, f.removeFails)) && f.statFails != {})
    {
      hide Emitted, PointFailed, RequestError, EMPTY_RELIABILITY, NotBlank, EndOutcome, EngineError;
      ghost var before := disk.files;
      if !started {
        NothingHappened(before, artifactsDir);
        return None, Some(NotStarted), None;
      }
      var path := AuditPath(f.statFails);
      if path.None? {
        sum, audit := None, None;
        err := Abort(StatFailed, f.removeFails, before, None, None);
        return;
      }
      sum, err, audit := RunTo(path.value, env, digest, req, w, f, checks);
    }

    /** The run itself, with the path of its audit file, if it has one. */
    method RunTo(path: string, env: Env, digest: Digest, req: Request, w: World, f: Faults, checks: Checks)
      returns (sum: Option<Summary>, err: Option<EndError>, audit: Option<string>)
      requires path != "" ==> path !in disk.files && path != ALIAS
      requires path != "" <==> NotBlank(artifactsDir)
      modifies this`hasFailed, disk
      ensures EndOutcome(Event(old(disk.files), disk.files, artifactsDir, sum, err, audit))
      ensures err != Some(NotStarted) && hasFailed == (old(hasFailed) || err.Some?)
      ensures sum.Some? ==> Emitted(env, digest, req, w, EMPTY_RELIABILITY, sum.value)
      ensures audit.Some? <==> sum.Some? && path != "" && f.auditWrites
      ensures sum.Some? <==> RequestError(env, req).None? && (PointFailed(req, w) || f.auditWrites || path == "")
      ensures err == if sum.Some? then PublishError(sum.value, artifactsDir, f, checks)
        else Some(Invalidating(RunFailedWith(EngineError(env, req)), artifactsDir, f.removeFails))
    {
      hide Emitted, PointFailed, RequestError, EMPTY_RELIABILITY, NotBlank, EndOutcome, PublishError, Invalidating;
      sum, err, audit := None, None, None;
      ghost var before := disk.files;
      BlankIsEmpty();
      var rel := new ReliabilityRecord();
      var result := Execute(env, digest, req, w.(writes := f.auditWrites || path == ""), rel);
      audit := WriteAudit(path, result, f);
      SamePointFailure(req, w, f.auditWrites || path == "");
      if result.Err? {
        err := Abort(RunFailedWith(result.error), f.removeFails, before, None, None);
        return;
      }
      sum := Some(result.value);
      EmittedAnyway(env, digest, req, w, f.auditWrites || path == "", result.value);
      err := Publish(result.value, f, checks, before, audit);
    }

    /** Fails the run and invalidates the alias. */
    method Abort(
      cause: EndError, removeFails: bool, ghost before: Directory, ghost sum: Option<Summary>,
      ghost audit: Option<string>)
      returns (err: Option<EndError>)
      requires cause.StatFailed? || cause.RunFailedWith? || cause.AliasNotWritten?
      requires Keeps(before, disk.files) && AuditOwned(Event(before, disk.files, artifactsDir, sum, None, audit))
      requires artifactsDir == "" ==> disk.files == before
      modifies this`hasFailed, disk
      ensures hasFailed && err == Some(Invalidating(cause, artifactsDir, removeFails)) && err != Some(NotStarted)
      ensures EndOutcome(Event(before, disk.files, artifactsDir, sum, err, audit))
    {
      hasFailed := true;
      var aliasPath := if artifactsDir != "" then ALIAS else "";
      var e := disk.InvalidateStaleAlias(aliasPath, cause, removeFails);
      err := Some(e);
    }

    /** Moves the alias to this run's summary, then applies the caller's checks. */
    method Publish(s: Summary, f: Faults, checks: Checks, ghost before: Directory, ghost audit: Option<string>)
      returns (err: Option<EndError>)
      requires Keeps(before, disk.files) && AuditOwned(Event(before, disk.files, artifactsDir, Some(s), None, audit))
      requires artifactsDir == "" ==> disk.files == before
      modifies this`hasFailed, disk
      ensures hasFailed == (old(hasFailed) || err.Some?) && err != Some(NotStarted)
      ensures EndOutcome(Event(before, disk.files, artifactsDir, Some(s), err, audit))
      ensures err == PublishError(s, artifactsDir, f, checks)
    {
      if artifactsDir != "" {
        var ok := disk.Write(ALIAS, s, f.aliasWrites, f.aliasLeftover);
        if !ok {
          hide EndOutcome;
          err := Abort(AliasNotWritten, f.removeFails, before, Some(s), audit);
          return;
        }
      }
      if !checks.strict(s) {
        hasFailed := true;
        return Some(NotStrict);
      }
      if !checks.gate(s) {
        hasFailed := true;
        return Some(NotGated);
      }
      return None;
    }

    /** The engine's write of the audit file, as its result shows it: it writes every summary it reports, and
        tried to write one when it reports that writing failed. */
    method WriteAudit(path: string, result: Result<Summary, ExecError>, f: Faults) returns (audit: Option<string>)
      requires path != "" ==> path !in disk.files && path != ALIAS
      modifies disk
      ensures Keeps(old(disk.files), disk.files)
      ensures path == "" ==> disk.files == old(disk.files)
      ensures ALIAS in disk.files <==> ALIAS in old(disk.files)
      ensures audit.Some? <==> path != "" && result.Ok? && f.auditWrites
      ensures audit.Some? ==> audit.value == path && path in disk.files && disk.files[path] == Published(result.value)
    {
      if result.Ok? {
        var ok := disk.Write(path, result.value, f.auditWrites, f.auditLeftover);
        return if ok && path != "" then Some(path) else None;
      }
      if result.error == WriteFailed && path != "" {
        disk.FailedWrite(path, f.auditLeftover);
      }
      return None;
    }
  }

  lemma BlankIsEmpty()
    ensures !NotBlank("")
  {
    assert TrimSpace("") == "";
  }

  lemma SamePointFailure(req: Request, w: World, writes: bool)
    ensures PointFailed(req, w.(writes := writes)) <==> PointFailed(req, w)
  {
  }

  /** Whether the audit file can be written is not part of what the engine reports. */
  lemma EmittedAnyway(env: Env, digest: Digest, req: Request, w: World, writes: bool, s: Summary)
    requires Emitted(env, digest, req, w.(writes := writes), EMPTY_RELIABILITY, s)
    ensures Emitted(env, digest, req, w, EMPTY_RELIABILITY, s)
  {
    hide ResultsOf, RawResults, VersionOf;
  }

  // ----- a published summary without an audit file -----

  /** A started session, writes that all succeed, and an artifacts directory of white space only: the run
      succeeds and moves the alias, and keeps no audit file. */
  method BlankDirectoryKeepsNoAudit(
    env: Env, digest: Digest, req: Request, w: World, f: Faults, checks: Checks, session: Session)
    returns (sum: Option<Summary>, err: Option<EndError>, audit: Option<string>)
    requires session.started && session.artifactsDir == " " && RequestError(env, req).None?
    requires f.statFails == {} && f.auditWrites && f.aliasWrites
    requires forall s :: checks.strict(s) && checks.gate(s)
    modifies session`hasFailed, session.disk
    ensures err.None? && sum.Some? && audit.None?
    ensures ALIAS in session.disk.files && session.disk.files[ALIAS] == Published(sum.value)
  {
    BlankSpace();
    sum, err, audit := session.End(env, digest, req, w, f, checks);
  }

  lemma BlankSpace()
    ensures !NotBlank(" ")
  {
    assert TrimSpace(" ") == "";
  }

  /** An ordinary directory, a point fetch that fails and an audit file that cannot be written: the engine drops
      the write error, so again the run succeeds and moves the alias without an audit file. */
  method FailedFetchKeepsNoAudit(
    env: Env, digest: Digest, req: Request, w: World, f: Faults, checks: Checks, session: Session)
    returns (sum: Option<Summary>, err: Option<EndError>, audit: Option<string>)
    requires session.started && session.artifactsDir == "artifacts" && RequestError(env, req).None?
    requires NeedsPoint(req.specs) && w.start.None?
    requires f.statFails == {} && !f.auditWrites && f.aliasWrites
    requires forall s :: checks.strict(s) && checks.gate(s)
    modifies session`hasFailed, session.disk
    ensures err.None? && sum.Some? && audit.None?
    ensures ALIAS in session.disk.files && session.disk.files[ALIAS] == Published(sum.value)
  {
    sum, err, audit := session.End(env, digest, req, w, f, checks);
  }
}
