/**
 One run of the measurement engine (pkg/slo/engine/engine.go, pkg/slo/engine/comparability.go): validate the
 request, evaluate every SLI on what was fetched, stamp identities and write the summary.
 */
module Engine {
  import opened GoStrings
  import opened Sorting
  import opened Selectors
  import opened Summaries
  import opened Evidence
  import opened Measurement
  import opened Evaluation
  import opened Identity

  const COMPLETE := "Complete"
  const PARTIAL := "Partial"
  const FAILED := "Failed"

  datatype TrustContract = TrustContract(subjectID: string, sourceConfigID: string, windowID: string)

  /** `timesSet` says whether both time stamps of the run are set. */
  datatype Request = Request(timesSet: bool, trust: Option<TrustContract>, specs: seq<SLISpec>)

  /** What the outside world does in this run: the snapshots that the fetchers return, None for a failed or
      impossible fetch, and whether the summary can be written. */
  datatype World = World(
    start: Option<Snapshot>, end: Option<Snapshot>, hasWindow: bool, window: Option<seq<Snapshot>>, writes: bool)

  datatype ExecError =
    | TimesUnset | IncompleteTrust | BadSpecIDs | BadSelector | IncompleteIdentity | WriteFailed

  // ----- the request -----

  predicate CompleteTrust(tc: TrustContract)
  {
    NotBlank(tc.subjectID) && NotBlank(tc.sourceConfigID) && NotBlank(tc.windowID)
  }

  predicate UniqueSpecIDs(specs: seq<SLISpec>)
  {
    forall i, j :: 0 <= i < j < |specs| ==> specs[i].id != specs[j].id
  }

  predicate ProtectedIDs(specs: seq<SLISpec>)
  {
    UniqueSpecIDs(specs) && forall s :: s in specs ==> NotBlank(s.id)
  }

  /** The first reason to refuse the request. */
  function RequestError(env: Env, req: Request): Option<ExecError>
  {
    if !req.timesSet then Some(TimesUnset)
    else if req.trust.Some? && !CompleteTrust(req.trust.value) then Some(IncompleteTrust)
    else if req.trust.Some? && !ProtectedIDs(req.specs) then Some(BadSpecIDs)
    else if exists s :: s in req.specs && !ValidSelectors(env, s) then Some(BadSelector)
    else None
  }

  method ValidateProtectedSpecIDs(specs: seq<SLISpec>) returns (ok: bool)
    ensures ok <==> ProtectedIDs(specs)
  {
    hide NotBlank;
    var seen: set<string> := {};
    for i := 0 to |specs|
      invariant forall j :: 0 <= j < i ==> NotBlank(specs[j].id)
      invariant forall j, k :: 0 <= j < k < i ==> specs[j].id != specs[k].id
      invariant forall x :: x in seen <==> exists j :: 0 <= j < i && specs[j].id == x
    {
      assert specs[i] in specs;
      if !NotBlank(specs[i].id) {
        return false;
      }
      if specs[i].id in seen {
        var j :| 0 <= j < i && specs[j].id == specs[i].id;
        return false;
      }
      seen := seen + {specs[i].id};
    }
    return true;
  }

  method ValidateRequest(env: Env, req: Request) returns (err: Option<ExecError>)
    ensures err == RequestError(env, req)
  {
    hide ValidSelectors, CompleteTrust;
    if !req.timesSet {
      return Some(TimesUnset);
    }
    if req.trust.Some? && !CompleteTrust(req.trust.value) {
      return Some(IncompleteTrust);
    }
    if req.trust.Some? {
      var ok := ValidateProtectedSpecIDs(req.specs);
      if !ok {
        return Some(BadSpecIDs);
      }
    }
    for i := 0 to |req.specs|
      invariant forall j :: 0 <= j < i ==> ValidSelectors(env, req.specs[j])
    {
      var ok := ValidateSelectors(env, req.specs[i]);
      if !ok {
        assert req.specs[i] in req.specs;
        return Some(BadSelector);
      }
    }
    return None;
  }

  predicate NeedsPoint(specs: seq<SLISpec>)
  {
    specs == [] || exists s :: s in specs && !WindowMode(s.mode)
  }

  predicate NeedsWindow(specs: seq<SLISpec>)
  {
    exists s :: s in specs && WindowMode(s.mode)
  }

  method SplitSpecNeeds(specs: seq<SLISpec>) returns (needsPoint: bool, needsWindow: bool)
    ensures needsPoint == NeedsPoint(specs) && needsWindow == NeedsWindow(specs)
  {
    hide WindowMode;
    if |specs| == 0 {
      return true, false;
    }
    needsPoint, needsWindow := false, false;
    for i := 0 to |specs|
      invariant needsPoint <==> exists j :: 0 <= j < i && !WindowMode(specs[j].mode)
      invariant needsWindow <==> exists j :: 0 <= j < i && WindowMode(specs[j].mode)
    {
      if WindowMode(specs[i].mode) {
        needsWindow := true;
      } else {
        needsPoint := true;
      }
    }
    assert forall j :: 0 <= j < |specs| ==> specs[j] in specs;
    assert forall s :: s in specs ==> exists j :: 0 <= j < |specs| && specs[j] == s;
  }

  // ----- what a run reports -----

  predicate PointFailed(req: Request, w: World)
  {
    NeedsPoint(req.specs) && (w.start.None? || w.end.None?)
  }

  predicate WindowFailed(req: Request, w: World)
  {
    NeedsWindow(req.specs) && w.hasWindow && w.window.None?
  }

  /** A snapshot that was not fetched has no values. */
  function Values(s: Option<Snapshot>): Snapshot
  {
    if s.Some? then s.value else map[]
  }

  function ObservationsOf(req: Request, w: World): Observations
  {
    var point := NeedsPoint(req.specs);
    var window := NeedsWindow(req.specs) && w.hasWindow;
    Observations(
      if point then Values(w.start) else map[], if point then Values(w.end) else map[],
      w.hasWindow, WindowFailed(req, w), if window && w.window.Some? then w.window.value else [])
  }

  ghost function RawResults(env: Env, specs: seq<SLISpec>, d: Observations): (r: seq<SLIResult>)
    ensures |r| == |specs| && forall i :: 0 <= i < |r| ==> r[i] == ResultOf(env, specs[i], d)
  {
    seq(|specs|, i requires 0 <= i < |specs| => ResultOf(env, specs[i], d))
  }

  function SkippedOf(results: seq<SLIResult>): seq<string>
  {
    if results == [] then [] else
    var n := |results| - 1;
    SkippedOf(results[..n]) + (if results[n].status == STATUS_SKIP then [results[n].id] else [])
  }

  function MissingInputsOf(results: seq<SLIResult>): set<string>
  {
    set r, m | r in results && m in r.inputsMissing :: m
  }

  ghost function IdentityFor(digest: Digest, s: SLISpec, tc: TrustContract): Comparability
  {
    Comparability(ContractIDOf(digest, s), tc.subjectID, WindowIDOf(digest, s, tc.windowID), tc.sourceConfigID)
  }

  /** `contractVersion`. */
  function VersionOf(trust: Option<TrustContract>, collectionStatus: string): string
  {
    if trust.None? then SCHEMA_LEGACY
    else if FailedStatus(collectionStatus) then SCHEMA_LEGACY
    else SCHEMA_TRUST
  }

  function CollectionAfter(before: string, windowFailed: bool): string
  {
    if windowFailed then FAILED else if before == "" then COMPLETE else before
  }

  /** The results of a run in which the point fetch did not fail: every SLI in order, with its identity iff
      the version carries identities. */
  ghost function ResultsOf(env: Env, digest: Digest, req: Request, w: World, version: string): (r: seq<SLIResult>)
    ensures |r| == |req.specs|
    ensures forall i :: 0 <= i < |r| ==> r[i] == ResultOf(env, req.specs[i], ObservationsOf(req, w)).(comparability :=
      if version == SCHEMA_TRUST && req.trust.Some? then Some(IdentityFor(digest, req.specs[i], req.trust.value))
      else None)
  {
    seq(|req.specs|, i requires 0 <= i < |req.specs| =>
      ResultOf(env, req.specs[i], ObservationsOf(req, w)).(comparability :=
        if version == SCHEMA_TRUST && req.trust.Some? then Some(IdentityFor(digest, req.specs[i], req.trust.value))
        else None))
  }

  /** The missing inputs of the results are appended once each, in some order. */
  ghost predicate AddsMissing(before: seq<string>, after: seq<string>, results: seq<SLIResult>)
  {
    && before <= after
    && Distinct(after[|before|..]) && Elements(after[|before|..]) == MissingInputsOf(results)
  }

  /** The record that a run leaves behind; the order of the missing inputs is that of a map. */
  ghost predicate Recorded(env: Env, req: Request, w: World, before: Reliability, after: Reliability)
  {
    var raw := RawResults(env, req.specs, ObservationsOf(req, w));
    && after.collectionStatus == CollectionAfter(before.collectionStatus, WindowFailed(req, w))
    && after.skippedSLIs == before.skippedSLIs + SkippedOf(raw)
    && after.evaluationStatus == (if after.skippedSLIs == [] then COMPLETE else PARTIAL)
    && AddsMissing(before.missingInputs, after.missingInputs, raw)
    && (!WindowFailed(req, w) ==> after.blockedReason == before.blockedReason)
  }

  /** What a run reports for an acceptable request. */
  ghost predicate Emitted(env: Env, digest: Digest, req: Request, w: World, before: Reliability, s: Summary)
  {
    s.generated && s.reliability.Some? &&
    var after := s.reliability.value;
    && s.schemaVersion == VersionOf(req.trust, after.collectionStatus)
    && if PointFailed(req, w)
       then s.results == [] && after == before.(collectionStatus := FAILED, blockedReason := after.blockedReason)
       else Recorded(env, req, w, before, after) && s.results == ResultsOf(env, digest, req, w, s.schemaVersion)
  }

  /** The record between the fetches and the evaluation. */
  ghost predicate Fetched(req: Request, w: World, before: Reliability, now: Reliability)
  {
    if WindowFailed(req, w) then now == before.(collectionStatus := FAILED, blockedReason := now.blockedReason)
    else now == before
  }

  function Begun(r: Reliability): Reliability
  {
    r.(collectionStatus := if r.collectionStatus == "" then COMPLETE else r.collectionStatus,
      evaluationStatus := COMPLETE)
  }

  function Demoted(r: Reliability): Reliability
  {
    if |r.skippedSLIs| > 0 then r.(evaluationStatus := PARTIAL) else r
  }

  // ----- the run -----

  class ReliabilityRecord {
    var collectionStatus: string
    var evaluationStatus: string
    var blockedReason: string
    var missingInputs: seq<string>
    var skippedSLIs: seq<string>

    constructor ()
      ensures Value() == EMPTY_RELIABILITY
    {
      collectionStatus, evaluationStatus, blockedReason := "", "", "";
      missingInputs, skippedSLIs := [], [];
    }

    function Value(): Reliability
      reads this
    {
      Reliability(collectionStatus, evaluationStatus, blockedReason, missingInputs, skippedSLIs)
    }

    method BeginEvaluation()
      modifies this`collectionStatus, this`evaluationStatus
      ensures Value() == Begun(old(Value()))
    {
      if collectionStatus == "" {
        collectionStatus := COMPLETE;
      }
      evaluationStatus := COMPLETE;
    }

    /** With skipped SLIs the evaluation is only partial. */
    method Demote()
      modifies this`evaluationStatus
      ensures Value() == Demoted(old(Value()))
    {
      if |skippedSLIs| > 0 {
        evaluationStatus := PARTIAL;
      }
    }

    method EvaluateRun(env: Env, req: Request, w: World, d: Observations, ghost before: Reliability)
      returns (results: seq<SLIResult>)
      requires d == ObservationsOf(req, w)
      requires exists fetched :: Fetched(req, w, before, fetched) && Value() == Begun(fetched)
      modifies this`skippedSLIs, this`missingInputs
      ensures results == RawResults(env, req.specs, d)
      ensures Recorded(env, req, w, before, Demoted(Value()))
      ensures collectionStatus == old(collectionStatus)
    {
      ghost var fetched :| Fetched(req, w, before, fetched) && Value() == Begun(fetched);
      FetchedMeaning(req, w, before, fetched);
      hide Fetched, CollectionAfter, RawResults, SkippedOf, AddsMissing, WindowFailed, ObservationsOf, Recorded;
      results := EvaluateSLIs(env, req.specs, d);
      RecordedParts(env, req, w, before, Demoted(Value()));
    }

    /** Evaluates every SLI in order, recording skips and missing inputs. */
    method EvaluateSLIs(env: Env, specs: seq<SLISpec>, d: Observations) returns (results: seq<SLIResult>)
      modifies this`skippedSLIs, this`missingInputs
      ensures results == RawResults(env, specs, d)
      ensures skippedSLIs == old(skippedSLIs) + SkippedOf(results)
      ensures AddsMissing(old(missingInputs), missingInputs, results)
    {
      hide ResultOf, AllowedStatus, SkippedOf, MissingInputsOf, RawResults;
      NoResults(env, d);
      results := [];
      var missingSet: set<string> := {};
      for i := 0 to |specs|
        invariant results == RawResults(env, specs[..i], d)
        invariant skippedSLIs == old(skippedSLIs) + SkippedOf(results)
        invariant missingInputs == old(missingInputs)
        invariant missingSet == MissingInputsOf(results)
      {
        var r := Evaluate(env, specs[i], d);
        SkippedIffNoValue(env, specs[i], d);
        ResultsNext(env, specs, i, d);
        NextResult(results, r);
        missingSet := missingSet + (set m | m in r.inputsMissing);
        if r.status == STATUS_SKIP {
          skippedSLIs := skippedSLIs + [specs[i].id];
        }
        results := results + [r];
      }
      assert specs[..|specs|] == specs;
      hide STATUS_SKIP;
      var missing := RangeKeys(missingSet);
      missingInputs := missingInputs + missing;
      assert missingInputs[|old(missingInputs)|..] == missing;
    }

    /** The record after a failed point fetch. */
    method PointFetchFailure(reason: string)
      modifies this`collectionStatus, this`blockedReason
      ensures Value() == old(Value()).(collectionStatus := FAILED, blockedReason := reason)
    {
      collectionStatus := FAILED;
      blockedReason := reason;
    }

    /** The record after the window fetch. */
    method FetchWindowSamples(w: World) returns (samples: seq<Snapshot>, failed: bool)
      modifies this`collectionStatus, this`blockedReason
      ensures failed <==> w.window.None?
      ensures samples == if w.window.Some? then w.window.value else []
      ensures failed ==> collectionStatus == FAILED
      ensures !failed ==> collectionStatus == old(collectionStatus) && blockedReason == old(blockedReason)
    {
      if w.window.None? {
        collectionStatus := FAILED;
        blockedReason := "fetch(window) failed";
        return [], true;
      }
      return w.window.value, false;
    }
  }

  lemma NoResults(env: Env, d: Observations)
    ensures RawResults(env, [], d) == [] && SkippedOf([]) == [] && MissingInputsOf([]) == {}
  {
  }

  lemma ResultsNext(env: Env, specs: seq<SLISpec>, i: nat, d: Observations)
    requires i < |specs|
    ensures RawResults(env, specs[..i + 1], d) == RawResults(env, specs[..i], d) + [ResultOf(env, specs[i], d)]
  {
    hide ResultOf;
    assert specs[..i + 1] == specs[..i] + [specs[i]];
  }

  lemma NextResult(results: seq<SLIResult>, r: SLIResult)
    ensures SkippedOf(results + [r]) == SkippedOf(results) + if r.status == STATUS_SKIP then [r.id] else []
    ensures MissingInputsOf(results + [r]) == MissingInputsOf(results) + (set m | m in r.inputsMissing)
  {
    assert (results + [r])[..|results|] == results;
  }

  method DeriveIdentity(digest: Digest, s: SLISpec, tc: TrustContract) returns (cmp: Option<Comparability>)
    ensures cmp == Some(IdentityFor(digest, s, tc))
  {
    hide ContractIDOf, WindowIDOf;
    var contract := SliContractID(digest, s);
    var window := WindowID(digest, s, tc.windowID);
    cmp := Some(Comparability(contract, tc.subjectID, window, tc.sourceConfigID));
  }

  /** The summary under construction; it shares the reliability record with the run. */
  class RunSummary {
    const schemaVersion: string
    const reliability: ReliabilityRecord
    var results: seq<SLIResult>

    constructor (schemaVersion: string, reliability: ReliabilityRecord, results: seq<SLIResult>)
      ensures this.schemaVersion == schemaVersion && this.reliability == reliability && this.results == results
    {
      this.schemaVersion, this.reliability, this.results := schemaVersion, reliability, results;
    }

    function Value(): Summary
      reads this, reliability
    {
      Summary(schemaVersion, true, Some(reliability.Value()), results)
    }

    /** Stamps the identity of its spec on every result, in place; it fails on incomplete coordinates and on
        a result without a spec, and nothing else can be incomplete. */
    method ApplyTrustContract(digest: Digest, specs: seq<SLISpec>, tc: TrustContract) returns (ok: bool)
      modifies this`results
      ensures ok <==> CompleteTrust(tc) && forall r :: r in old(results) ==> LastSpec(specs, r.id).Some?
      ensures |results| == |old(results)|
      ensures ok ==> forall i :: 0 <= i < |results| ==>
        results[i] == StampedResult(digest, specs, tc, old(results)[i])
    {
      hide CompleteTrust, IdentityFor, Complete, LastSpec;
      if !CompleteTrust(tc) {
        return false;
      }
      var specByID := IndexSpecs(specs);
      for i := 0 to |results|
        invariant |results| == |old(results)|
        invariant forall j :: i <= j < |results| ==> results[j] == old(results)[j]
        invariant forall j :: 0 <= j < i ==> LastSpec(specs, old(results)[j].id).Some?
        invariant forall j :: 0 <= j < i ==> results[j] == StampedResult(digest, specs, tc, old(results)[j])
      {
        assert old(results)[i] in old(results);
        if results[i].id !in specByID {
          return false;
        }
        var s := specByID[results[i].id];
        var cmp := DeriveIdentity(digest, s, tc);
        IdentityComplete(digest, s, tc);
        if !Complete(cmp) {
          return false;
        }
        results := results[i := results[i].(comparability := cmp)];
      }
      assert forall r :: r in old(results) ==> exists j :: 0 <= j < |results| && old(results)[j] == r;
      return true;
    }
  }

  /** The spec with this id that a map filled from the list holds. */
  function LastSpec(specs: seq<SLISpec>, id: string): Option<SLISpec>
  {
    if specs == [] then None
    else if specs[|specs| - 1].id == id then Some(specs[|specs| - 1])
    else LastSpec(specs[..|specs| - 1], id)
  }

  ghost function StampedResult(digest: Digest, specs: seq<SLISpec>, tc: TrustContract, r: SLIResult): SLIResult
  {
    match LastSpec(specs, r.id)
    case None => r
    case Some(s) => r.(comparability := Some(IdentityFor(digest, s, tc)))
  }

  method IndexSpecs(specs: seq<SLISpec>) returns (byID: map<string, SLISpec>)
    ensures forall id :: id in byID <==> LastSpec(specs, id).Some?
    ensures forall id :: id in byID ==> LastSpec(specs, id) == Some(byID[id])
  {
    byID := map[];
    for i := 0 to |specs|
      invariant forall id :: id in byID <==> LastSpec(specs[..i], id).Some?
      invariant forall id :: id in byID ==> LastSpec(specs[..i], id) == Some(byID[id])
    {
      assert specs[..i + 1][..i] == specs[..i];
      byID := byID[specs[i].id := specs[i]];
    }
    assert specs[..|specs|] == specs;
  }

  lemma {:induction false} LastSpecUnique(specs: seq<SLISpec>, i: nat)
    requires i < |specs| && UniqueSpecIDs(specs)
    ensures LastSpec(specs, specs[i].id) == Some(specs[i])
  {
    var n := |specs| - 1;
    if i < n {
      assert specs[i].id != specs[n].id;
      LastSpecUnique(specs[..n], i);
    }
  }

  /** A derived identity is complete whenever the caller's coordinates are. */
  lemma IdentityComplete(digest: Digest, s: SLISpec, tc: TrustContract)
    requires CompleteTrust(tc)
    ensures Complete(Some(IdentityFor(digest, s, tc)))
  {
    hide ContractFields, Encode, TrimSpace;
    assert Graphic('s') && Graphic('w');
    NotBlankStart(ContractIDOf(digest, s));
    NotBlankStart(WindowIDOf(digest, s, tc.windowID));
  }

  lemma StampedAll(env: Env, digest: Digest, req: Request, w: World, raw: seq<SLIResult>, results: seq<SLIResult>)
    requires req.trust.Some? && UniqueSpecIDs(req.specs)
    requires raw == RawResults(env, req.specs, ObservationsOf(req, w)) && |results| == |raw|
    requires forall i :: 0 <= i < |raw| ==> results[i] == StampedResult(digest, req.specs, req.trust.value, raw[i])
    ensures results == ResultsOf(env, digest, req, w, SCHEMA_TRUST)
  {
    hide ResultOf, IdentityFor, ObservationsOf;
    forall i | 0 <= i < |raw| ensures results[i] == ResultsOf(env, digest, req, w, SCHEMA_TRUST)[i] {
      SkippedIffNoValue(env, req.specs[i], ObservationsOf(req, w));
      LastSpecUnique(req.specs, i);
    }
  }

  lemma UnstampedAll(env: Env, digest: Digest, req: Request, w: World, raw: seq<SLIResult>)
    requires raw == RawResults(env, req.specs, ObservationsOf(req, w))
    ensures raw == ResultsOf(env, digest, req, w, SCHEMA_LEGACY)
  {
    hide ResultOf, IdentityFor, ObservationsOf;
    assert SCHEMA_LEGACY != SCHEMA_TRUST;
    forall i | 0 <= i < |raw| ensures raw[i] == ResultsOf(env, digest, req, w, SCHEMA_LEGACY)[i] {
      SkippedIffNoValue(env, req.specs[i], ObservationsOf(req, w));
    }
  }

  lemma RawHaveSpecs(env: Env, specs: seq<SLISpec>, d: Observations)
    requires UniqueSpecIDs(specs)
    ensures forall r :: r in RawResults(env, specs, d) ==> LastSpec(specs, r.id).Some?
  {
    hide ResultOf;
    var raw := RawResults(env, specs, d);
    forall r | r in raw ensures LastSpec(specs, r.id).Some? {
      var i :| 0 <= i < |raw| && raw[i] == r;
      SkippedIffNoValue(env, specs[i], d);
      LastSpecUnique(specs, i);
    }
  }

  /** From the fetched samples to the written summary. */
  method Finish(
    env: Env, digest: Digest, req: Request, w: World, rel: ReliabilityRecord, d: Observations,
    ghost before: Reliability)
    returns (r: Result<Summary, ExecError>)
    requires RequestError(env, req).None? && !PointFailed(req, w) && d == ObservationsOf(req, w)
    requires Fetched(req, w, before, rel.Value())
    modifies rel
    ensures r.Ok? <==> w.writes
    ensures r.Err? ==> r == Err(WriteFailed)
    ensures r.Ok? ==> Emitted(env, digest, req, w, before, r.value) && r.value.reliability == Some(rel.Value())
  {
    TrustedRequest(env, req);
    hide RequestError, PointFailed, WindowFailed, ObservationsOf, CompleteTrust, UniqueSpecIDs, FailedStatus;
    hide Fetched, RawResults, ResultsOf, VersionOf, Recorded, Emitted, Demoted;
    hide COMPLETE, PARTIAL, FAILED, SCHEMA_LEGACY, SCHEMA_TRUST, STATUS_SKIP;
    rel.BeginEvaluation();
    var version := VersionOf(req.trust, rel.collectionStatus);
    var raw := rel.EvaluateRun(env, req, w, d, before);
    var sum := new RunSummary(version, rel, raw);
    rel.Demote();
    VersionNeedsTrust(req.trust, rel.collectionStatus);
    var ok := Stamp(env, digest, req, w, sum, d);
    if !ok {
      return Err(IncompleteIdentity);
    }
    if !w.writes {
      return Err(WriteFailed);
    }
    r := Ok(sum.Value());
    EmittedParts(env, digest, req, w, before, sum.Value());
  }

  lemma FetchedMeaning(req: Request, w: World, before: Reliability, now: Reliability)
    requires Fetched(req, w, before, now)
    ensures (if now.collectionStatus == "" then COMPLETE else now.collectionStatus) ==
      CollectionAfter(before.collectionStatus, WindowFailed(req, w))
    ensures now.skippedSLIs == before.skippedSLIs && now.missingInputs == before.missingInputs
    ensures !WindowFailed(req, w) ==> now.blockedReason == before.blockedReason
  {
    hide WindowFailed;
  }

  lemma RecordedParts(env: Env, req: Request, w: World, before: Reliability, after: Reliability)
    requires var raw := RawResults(env, req.specs, ObservationsOf(req, w));
      && after.skippedSLIs == before.skippedSLIs + SkippedOf(raw)
      && AddsMissing(before.missingInputs, after.missingInputs, raw)
    requires after.evaluationStatus == if after.skippedSLIs == [] then COMPLETE else PARTIAL
    requires after.collectionStatus == CollectionAfter(before.collectionStatus, WindowFailed(req, w))
    requires !WindowFailed(req, w) ==> after.blockedReason == before.blockedReason
    ensures Recorded(env, req, w, before, after)
  {
    hide ObservationsOf, RawResults, SkippedOf, AddsMissing, WindowFailed, CollectionAfter;
  }

  lemma EmittedParts(env: Env, digest: Digest, req: Request, w: World, before: Reliability, s: Summary)
    requires s.generated && s.reliability.Some? && !PointFailed(req, w)
    requires Recorded(env, req, w, before, s.reliability.value)
    requires s.schemaVersion == VersionOf(req.trust, s.reliability.value.collectionStatus)
    requires s.results == ResultsOf(env, digest, req, w, s.schemaVersion)
    ensures Emitted(env, digest, req, w, before, s)
  {
    hide Recorded, VersionOf, ResultsOf, PointFailed;
  }

  lemma VersionNeedsTrust(trust: Option<TrustContract>, collectionStatus: string)
    ensures var v := VersionOf(trust, collectionStatus);
      v == SCHEMA_LEGACY || (v == SCHEMA_TRUST && trust.Some? && !FailedStatus(collectionStatus))
  {
    hide FailedStatus;
  }

  /** Stamps the summary if its version carries identities. */
  method Stamp(env: Env, digest: Digest, req: Request, w: World, sum: RunSummary, d: Observations) returns (ok: bool)
    requires d == ObservationsOf(req, w) && sum.results == RawResults(env, req.specs, d)
    requires req.trust.Some? ==> CompleteTrust(req.trust.value) && ProtectedIDs(req.specs)
    requires sum.schemaVersion == SCHEMA_LEGACY || (sum.schemaVersion == SCHEMA_TRUST && req.trust.Some?)
    modifies sum`results
    ensures ok && sum.results == ResultsOf(env, digest, req, w, sum.schemaVersion)
  {
    hide CompleteTrust, ObservationsOf, RawResults, ResultsOf, UniqueSpecIDs, LastSpec, StampedResult;
    ghost var raw := sum.results;
    ok := true;
    if sum.schemaVersion == SCHEMA_TRUST {
      RawHaveSpecs(env, req.specs, d);
      ok := sum.ApplyTrustContract(digest, req.specs, req.trust.value);
      StampedAll(env, digest, req, w, raw, sum.results);
    } else {
      UnstampedAll(env, digest, req, w, raw);
    }
  }

  lemma TrustedRequest(env: Env, req: Request)
    requires RequestError(env, req).None?
    ensures req.trust.Some? ==> CompleteTrust(req.trust.value) && ProtectedIDs(req.specs)
    ensures forall s :: s in req.specs ==> ValidSelectors(env, s)
  {
    hide CompleteTrust, ProtectedIDs, ValidSelectors;
  }

  /** The run refuses a bad request before anything else; after that only an unwritable summary is an error,
      and not even that when the point fetch failed. */
  method Execute(env: Env, digest: Digest, req: Request, w: World, rel: ReliabilityRecord)
    returns (r: Result<Summary, ExecError>)
    modifies rel
    ensures RequestError(env, req).Some? ==>
      r == Err(RequestError(env, req).value) && rel.Value() == old(rel.Value())
    ensures RequestError(env, req).None? ==> (r.Ok? <==> PointFailed(req, w) || w.writes)
    ensures RequestError(env, req).None? && r.Err? ==> r == Err(WriteFailed)
    ensures r.Ok? ==> Emitted(env, digest, req, w, old(rel.Value()), r.value)
    ensures r.Ok? ==> r.value.reliability == Some(rel.Value())
  {
    hide RequestError, NeedsPoint, NeedsWindow, FailedStatus, Recorded, ResultsOf;
    var err := ValidateRequest(env, req);
    if err.Some? {
      return Err(err.value);
    }
    var needsPoint, needsWindow := SplitSpecNeeds(req.specs);
    var start: Snapshot, end: Snapshot := map[], map[];
    if needsPoint {
      if w.start.None? {
        rel.PointFetchFailure("fetch(start) failed");
        return Ok(Summary(VersionOf(req.trust, rel.collectionStatus), true, Some(rel.Value()), []));
      }
      if w.end.None? {
        rel.PointFetchFailure("fetch(end) failed");
        return Ok(Summary(VersionOf(req.trust, rel.collectionStatus), true, Some(rel.Value()), []));
      }
      start, end := w.start.value, w.end.value;
    }
    var samples: seq<Snapshot>, windowFailed := [], false;
    if needsWindow && w.hasWindow {
      samples, windowFailed := rel.FetchWindowSamples(w);
    }
    var d := Observations(start, end, w.hasWindow, windowFailed, samples);
    r := Finish(env, digest, req, w, rel, d, old(rel.Value()));
  }
}
