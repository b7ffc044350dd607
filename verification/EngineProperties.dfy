/**
 What an emitted summary promises (pkg/slo/engine/engine.go, pkg/slo/engine/comparability.go,
 pkg/slo/summary/schema.go, pkg/gate/evidence.go): its version, its identities, its validity, and that the
 gate takes from it exactly the values that the engine computed.
 */
module EngineProperties {
  import opened GoStrings
  import opened Sorting
  import opened Selectors
  import opened Summaries
  import opened Evidence
  import opened Measurement
  import opened Evaluation
  import opened Identity
  import opened Engine

  /** Some fetch that the run needed failed. */
  predicate FetchFailed(req: Request, w: World)
  {
    PointFailed(req, w) || WindowFailed(req, w)
  }

  // ----- the statuses that the engine writes -----

  lemma StatusText(s: string, lower: string)
    requires s != [] && Graphic(s[0]) && Graphic(s[|s| - 1]) && Lower(s) == lower
    ensures FailedStatus(s) <==> lower == "failed"
    ensures ReliabilityStatus(s) <==> lower in ["complete", "partial", "failed"]
  {
    TrimSpaceKeeps(s);
    assert Lower("Failed") == "failed";
    hide Lower, TrimSpace;
  }

  lemma LowerStatuses()
    ensures Lower("Failed") == "failed" && Lower("Complete") == "complete" && Lower("Partial") == "partial"
  {
  }

  lemma EngineStatuses()
    ensures FailedStatus(FAILED) && !FailedStatus(COMPLETE) && !FailedStatus(PARTIAL) && !FailedStatus("")
    ensures ReliabilityStatus(FAILED) && ReliabilityStatus(COMPLETE) && ReliabilityStatus(PARTIAL)
  {
    LowerStatuses();
    BlankNotFailed();
    hide Lower, TrimSpace, FailedStatus, ReliabilityStatus;
    StatusText(FAILED, "failed");
    StatusText(COMPLETE, "complete");
    StatusText(PARTIAL, "partial");
  }

  lemma BlankNotFailed()
    ensures !FailedStatus("")
  {
    assert TrimSpace("") == "";
    assert |Lower("")| == 0 && |Lower("Failed")| == 6;
    hide Lower, TrimSpace;
  }

  /** From a fresh record, the collection status says whether collection failed, and it alone says whether
      the run did. */
  lemma FreshStatuses(env: Env, digest: Digest, req: Request, w: World, s: Summary)
    requires Emitted(env, digest, req, w, EMPTY_RELIABILITY, s)
    ensures var r := s.reliability.value;
      && r.collectionStatus == (if FetchFailed(req, w) then FAILED else COMPLETE)
      && r.evaluationStatus in ["", COMPLETE, PARTIAL]
      && (RunFailed(s) <==> FetchFailed(req, w))
  {
    EngineStatuses();
    hide PointFailed, WindowFailed, ResultsOf, RawResults, FailedStatus, AddsMissing;
  }

  // ----- version and identities -----

  /** A summary is slo.v4 iff a trust contract was given and collection did not fail, else slo.v3. */
  lemma VersionExact(env: Env, digest: Digest, req: Request, w: World, s: Summary)
    requires Emitted(env, digest, req, w, EMPTY_RELIABILITY, s)
    ensures s.schemaVersion == SCHEMA_TRUST <==> req.trust.Some? && !FetchFailed(req, w)
    ensures s.schemaVersion != SCHEMA_TRUST ==> s.schemaVersion == SCHEMA_LEGACY
  {
    EngineStatuses();
    FreshStatuses(env, digest, req, w, s);
    hide PointFailed, WindowFailed, ResultsOf, Recorded, FailedStatus, RunFailed;
  }

  /** Every result of a v4 summary carries the complete identity of its spec; no result of a v3 one carries
      any. */
  lemma IdentityIffTrusted(env: Env, digest: Digest, req: Request, w: World, before: Reliability, s: Summary)
    requires RequestError(env, req).None? && Emitted(env, digest, req, w, before, s)
    ensures s.schemaVersion == SCHEMA_TRUST ==>
      && req.trust.Some? && |s.results| == |req.specs|
      && forall i :: 0 <= i < |s.results| ==>
        && s.results[i].id == req.specs[i].id
        && s.results[i].comparability == Some(IdentityFor(digest, req.specs[i], req.trust.value))
        && Complete(s.results[i].comparability)
    ensures s.schemaVersion != SCHEMA_TRUST ==> forall r :: r in s.results ==> r.comparability.None?
  {
    TrustedRequest(env, req);
    VersionNeedsTrust(req.trust, s.reliability.value.collectionStatus);
    FailedIsLegacy(env, digest, req, w, before, s);
    hide RequestError, PointFailed, Recorded, VersionOf, Complete, IdentityFor, ObservationsOf, CompleteTrust, ResultOf;
    forall i | 0 <= i < |s.results|
      ensures s.results[i].id == req.specs[i].id
      ensures s.schemaVersion == SCHEMA_TRUST ==> Complete(s.results[i].comparability)
    {
      SkippedIffNoValue(env, req.specs[i], ObservationsOf(req, w));
      if s.schemaVersion == SCHEMA_TRUST {
        IdentityComplete(digest, req.specs[i], req.trust.value);
      }
    }
  }

  lemma FailedIsLegacy(env: Env, digest: Digest, req: Request, w: World, before: Reliability, s: Summary)
    requires Emitted(env, digest, req, w, before, s)
    ensures PointFailed(req, w) ==> s.schemaVersion == SCHEMA_LEGACY
  {
    EngineStatuses();
    hide PointFailed, Recorded, FailedStatus, ResultsOf;
  }

  // ----- validity -----

  lemma ResultShape(env: Env, digest: Digest, req: Request, w: World, before: Reliability, s: Summary, i: nat)
    requires Emitted(env, digest, req, w, before, s) && !PointFailed(req, w) && i < |req.specs|
    ensures |s.results| == |req.specs|
    ensures var r, computed := s.results[i], ResultOf(env, req.specs[i], ObservationsOf(req, w));
      && r.id == req.specs[i].id && r.value == computed.value && r.status == computed.status
      && r.inputsMissing == computed.inputsMissing && AllowedStatus(r.status)
      && (r.status == STATUS_SKIP <==> r.value.None?) && (r.inputsMissing != [] ==> r.value.None?)
  {
    SkippedIffNoValue(env, req.specs[i], ObservationsOf(req, w));
    hide ResultOf, ObservationsOf, PointFailed, Recorded, IdentityFor, VersionOf, AllowedStatus;
  }

  /** A summary from a fresh record is valid iff it has no results or the spec ids are neither empty nor
      repeated. */
  lemma ValidExact(env: Env, digest: Digest, req: Request, w: World, s: Summary)
    requires Emitted(env, digest, req, w, EMPTY_RELIABILITY, s)
    ensures ValidSummary(s) <==>
      PointFailed(req, w) || (UniqueSpecIDs(req.specs) && forall x :: x in req.specs ==> x.id != "")
  {
    hide *;
    FreshIsWellFormed(env, digest, req, w, s);
    ValidParts(s);
    if PointFailed(req, w) {
      NoneReported(env, digest, req, w, s);
    } else {
      ResultPerSpec(env, digest, req, w, s);
      SameIDs(req.specs, s.results);
      SameUniqueness(req.specs, s.results);
    }
  }

  lemma FreshIsWellFormed(env: Env, digest: Digest, req: Request, w: World, s: Summary)
    requires Emitted(env, digest, req, w, EMPTY_RELIABILITY, s)
    ensures SupportedSchema(s.schemaVersion) && s.generated
    ensures s.reliability.Some? && ValidReliability(s.reliability.value)
  {
    EngineStatuses();
    FreshStatuses(env, digest, req, w, s);
    VersionExact(env, digest, req, w, s);
    hide PointFailed, Recorded, ResultsOf, RunFailed, FetchFailed, ReliabilityStatus, FailedStatus;
  }

  lemma ResultPerSpec(env: Env, digest: Digest, req: Request, w: World, s: Summary)
    requires Emitted(env, digest, req, w, EMPTY_RELIABILITY, s) && !PointFailed(req, w)
    ensures |s.results| == |req.specs|
    ensures forall i :: 0 <= i < |req.specs| ==>
      s.results[i].id == req.specs[i].id && AllowedStatus(s.results[i].status)
  {
    assert |s.results| == |req.specs| by { hide ResultOf, Recorded, PointFailed; }
    hide *;
    forall i | 0 <= i < |req.specs| ensures s.results[i].id == req.specs[i].id && AllowedStatus(s.results[i].status) {
      ResultShape(env, digest, req, w, EMPTY_RELIABILITY, s, i);
    }
  }

  /** In particular every v4 summary is valid. */
  lemma TrustedIsValid(env: Env, digest: Digest, req: Request, w: World, s: Summary)
    requires RequestError(env, req).None? && Emitted(env, digest, req, w, EMPTY_RELIABILITY, s)
    requires s.schemaVersion == SCHEMA_TRUST
    ensures ValidSummary(s)
  {
    VersionExact(env, digest, req, w, s);
    TrustedRequest(env, req);
    ValidExact(env, digest, req, w, s);
    hide PointFailed, Emitted, ValidSummary, RequestError, CompleteTrust, UniqueSpecIDs;
    assert TrimSpace("") == "";
  }

  lemma NoneReported(env: Env, digest: Digest, req: Request, w: World, s: Summary)
    requires Emitted(env, digest, req, w, EMPTY_RELIABILITY, s) && PointFailed(req, w)
    ensures s.results == [] && UniqueIDs(s.results)
  {
    hide PointFailed, Recorded, ResultsOf;
  }

  lemma ValidParts(s: Summary)
    requires SupportedSchema(s.schemaVersion) && s.generated
    requires s.reliability.Some? && ValidReliability(s.reliability.value)
    ensures ValidSummary(s) <==>
      UniqueIDs(s.results) && forall r :: r in s.results ==> r.id != "" && AllowedStatus(r.status)
  {
    hide AllowedStatus, ValidReliability, SupportedSchema;
  }

  lemma SameIDs(specs: seq<SLISpec>, results: seq<SLIResult>)
    requires |specs| == |results|
    requires forall i :: 0 <= i < |specs| ==> results[i].id == specs[i].id && AllowedStatus(results[i].status)
    ensures (forall r :: r in results ==> r.id != "" && AllowedStatus(r.status)) <==>
      (forall x :: x in specs ==> x.id != "")
  {
    hide AllowedStatus;
    forall r | r in results ensures exists x :: x in specs && x.id == r.id && AllowedStatus(r.status) {
      var i :| 0 <= i < |results| && results[i] == r;
      assert specs[i] in specs;
    }
    forall x | x in specs ensures exists r :: r in results && r.id == x.id {
      var i :| 0 <= i < |specs| && specs[i] == x;
      assert results[i] in results;
    }
  }

  lemma SameUniqueness(specs: seq<SLISpec>, results: seq<SLIResult>)
    requires |specs| == |results| && forall i :: 0 <= i < |specs| ==> results[i].id == specs[i].id
    ensures UniqueIDs(results) <==> UniqueSpecIDs(specs)
  {
  }

  // ----- evidence -----

  /** In a run that did not fail, the skip markers of a summary from a fresh record are exactly the ids of the
      results without a value. */
  lemma {:induction false} SkippedAreValueless(results: seq<SLIResult>)
    requires forall r :: r in results ==> (r.status == STATUS_SKIP <==> r.value.None?)
    ensures forall id :: id in SkippedOf(results) <==> exists r :: r in results && r.id == id && r.value.None?
  {
    if results != [] {
      var n := |results| - 1;
      SkippedAreValueless(results[..n]);
      assert results == results[..n] + [results[n]];
    }
  }

  lemma {:induction false} SkippedIgnoresIdentity(a: seq<SLIResult>, b: seq<SLIResult>)
    requires |a| == |b|
    requires forall i :: 0 <= i < |a| ==> a[i].id == b[i].id && a[i].status == b[i].status
    ensures SkippedOf(a) == SkippedOf(b)
  {
    if a != [] {
      SkippedIgnoresIdentity(a[..|a| - 1], b[..|b| - 1]);
    }
  }

  /** The skip markers of a run are its valueless results, in order. */
  lemma SkippedExact(env: Env, digest: Digest, req: Request, w: World, s: Summary)
    requires Emitted(env, digest, req, w, EMPTY_RELIABILITY, s)
    ensures SkippedIDs(s) == SkippedOf(s.results)
    ensures forall id :: id in SkippedIDs(s) <==> exists r :: r in s.results && r.id == id && r.value.None?
  {
    if !PointFailed(req, w) {
      var d := ObservationsOf(req, w);
      var raw := RawResults(env, req.specs, d);
      hide ResultOf, ObservationsOf, IdentityFor, AddsMissing, WindowFailed, VersionOf;
      assert |s.results| == |raw|;
      forall i | 0 <= i < |raw| ensures s.results[i].id == raw[i].id && s.results[i].status == raw[i].status {
        assert raw[i] == ResultOf(env, req.specs[i], d);
      }
      SkippedIgnoresIdentity(s.results, raw);
      forall i | 0 <= i < |raw| ensures s.results[i].status == STATUS_SKIP <==> s.results[i].value.None? {
        SkippedIffNoValue(env, req.specs[i], d);
      }
      hide Emitted;
      assert forall r :: r in s.results ==> (r.status == STATUS_SKIP <==> r.value.None?);
      SkippedAreValueless(s.results);
    }
  }

  /** Engine and gate agree: in a run that did not fail, the gate has sufficient evidence for exactly the SLIs
      that the engine gave a value, and grades that value. */
  lemma EvidenceAgrees(env: Env, digest: Digest, req: Request, w: World, s: Summary, i: nat)
    requires Emitted(env, digest, req, w, EMPTY_RELIABILITY, s) && UniqueSpecIDs(req.specs)
    requires !RunFailed(s) && i < |req.specs|
    ensures var id, computed := req.specs[i].id, ResultOf(env, req.specs[i], ObservationsOf(req, w)).value;
      && (id in SkippedIDs(s) <==> computed.None?)
      && SufficiencyOf(Some(s), id) ==
           if computed.Some? then Sufficient(computed.value) else Insufficient(EvidenceInsufficient)
  {
    FreshStatuses(env, digest, req, w, s);
    ResultShape(env, digest, req, w, EMPTY_RELIABILITY, s, i);
    RecordOf(env, digest, req, w, s, i);
    SkippedExact(env, digest, req, w, s);
    hide *;
    hide ResultOf;
    SoleRecord(s, i);
    SufficiencyFromRecord(s, s.results[i]);
  }

  /** Under unique ids the record of a spec is the result at its place. */
  lemma RecordOf(env: Env, digest: Digest, req: Request, w: World, s: Summary, i: nat)
    requires Emitted(env, digest, req, w, EMPTY_RELIABILITY, s) && UniqueSpecIDs(req.specs)
    requires !PointFailed(req, w) && i < |req.specs|
    ensures |s.results| == |req.specs| && UniqueIDs(s.results)
    ensures LastRecord(s.results, req.specs[i].id) == Some(s.results[i])
  {
    forall j | 0 <= j < |req.specs| ensures |s.results| == |req.specs| && s.results[j].id == req.specs[j].id {
      ResultShape(env, digest, req, w, EMPTY_RELIABILITY, s, j);
    }
    hide *;
    SameUniqueness(req.specs, s.results);
    LastRecordUnique(s.results, i);
  }

  lemma SoleRecord(s: Summary, i: nat)
    requires UniqueIDs(s.results) && i < |s.results|
    ensures (exists r :: r in s.results && r.id == s.results[i].id && r.value.None?) <==> s.results[i].value.None?
  {
    assert s.results[i] in s.results;
  }

  lemma SufficiencyFromRecord(s: Summary, r: SLIResult)
    requires !RunFailed(s) && LastRecord(s.results, r.id) == Some(r)
    requires (r.id in SkippedIDs(s) <==> r.value.None?) && (r.inputsMissing != [] ==> r.value.None?)
    ensures SufficiencyOf(Some(s), r.id) ==
      if r.value.Some? then Sufficient(r.value.value) else Insufficient(EvidenceInsufficient)
  {
    hide RunFailed, SkippedIDs;
  }
}
