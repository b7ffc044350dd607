/**
 What a run reports, stated on what its fetchers returned (pkg/slo/engine/engine.go): every SLI is measured on the
 start and the end snapshot or on the samples of the window, and a failed fetch is reported as such.
 */
module EngineMeaning {
  import opened GoStrings
  import opened Sorting
  import opened Selectors
  import opened Summaries
  import opened Measurement
  import opened Evaluation
  import opened Identity
  import opened Engine
  import opened EngineProperties
  import opened PairingAddition
  import opened IdentityExchange
  import opened PointMeaning
  import opened WindowMeaning

  /** Without specs, or with one that is not a window mode, the run needs both snapshots. */
  predicate NeedsSnapshots(specs: seq<SLISpec>)
  {
    specs == [] || exists s :: s in specs && !WindowMode(s.mode)
  }

  predicate NeedsSamples(specs: seq<SLISpec>)
  {
    exists s :: s in specs && WindowMode(s.mode)
  }

  /** The result repeats what the spec says of itself, and lists its input keys. */
  predicate Describes(s: SLISpec, r: SLIResult)
  {
    && r.id == s.id && r.title == s.title && r.unit == s.unit && r.kind == s.kind && r.description == s.description
    && |r.inputsUsed| == |s.inputs| && forall i :: 0 <= i < |s.inputs| ==> r.inputsUsed[i] == s.inputs[i].key
  }

  /** A result as it follows from what was fetched. */
  ghost predicate Reported(env: Env, s: SLISpec, w: World, r: SLIResult)
  {
    && Describes(s, r)
    && if WindowMode(s.mode) then
         if w.hasWindow && w.window.Some? then WindowReported(env, s, w.window.value, r)
         else r.value.None? && r.status == "skip"
       else if PointMode(s.mode) then
         w.start.Some? && w.end.Some? && PointReported(env, s, w.start.value, w.end.value, r)
       else r.value.None? && r.status == "skip"
  }

  ghost predicate AllReported(env: Env, specs: seq<SLISpec>, w: World, results: seq<SLIResult>)
  {
    |results| == |specs| && forall i :: 0 <= i < |specs| ==> Reported(env, specs[i], w, results[i])
  }

  lemma SkippedReported(s: SLISpec, reason: string)
    ensures var r := SkippedResult(s, reason); r.value.None? && r.status == "skip"
  {
  }

  /** The identity of a result plays no part in what it reports. */
  lemma ReportedIgnoresIdentity(env: Env, s: SLISpec, w: World, r: SLIResult, c: Option<Comparability>)
    requires Reported(env, s, w, r)
    ensures Reported(env, s, w, r.(comparability := c))
  {
    hide MissingAre, AllAvailable, Judged, ValuesIn, AllSeen, WindowMeasured, WindowMode, PointMode, Total;
  }

  lemma FinishedDescribes(env: Env, s: SLISpec, res: SLIResult, sum: PointSum)
    requires Describes(s, res)
    ensures Describes(s, Finished(env, s, res, sum))
  {
    hide Verdict;
  }

  lemma ResultDescribes(env: Env, s: SLISpec, d: Observations)
    ensures Describes(s, ResultOf(env, s, d))
  {
    var sum := PointSumOf(env, s.mode, d.start, d.end, s.inputs);
    FinishedDescribes(env, s, BaseResult(s).(inputsUsed := InputKeys(s.inputs), inputsMissing := sum.missing), sum);
    hide Finished, PointSumOf, Aggregated, Pool, MissingOf, Verdict, WindowMode;
  }

  lemma SpecReported(env: Env, req: Request, w: World, i: nat)
    requires RequestError(env, req).None? && !PointFailed(req, w) && i < |req.specs|
    ensures Reported(env, req.specs[i], w, ResultOf(env, req.specs[i], ObservationsOf(req, w)))
  {
    var s := req.specs[i];
    assert s in req.specs;
    AcceptedSelectors(env, req, s);
    ResultDescribes(env, s, ObservationsOf(req, w));
    SkippedIffNoValue(env, s, ObservationsOf(req, w));
    hide Describes;
    hide RequestError, PointReported, WindowReported, PointResult, WindowResult, ValidSelectors;
    hide AllowedStatus;
    if WindowMode(s.mode) {
      SkippedReported(s, "window fetcher required");
      SkippedReported(s, "fetch(window) failed");
      if w.hasWindow && w.window.Some? { WindowResultMeaning(env, s, w.window.value); }
    } else {
      assert w.start.Some? && w.end.Some?;
      if PointMode(s.mode) {
        PointResultMeaning(env, s, w.start.value, w.end.value);
      } else {
        UnknownMode(env, s, w.start.value, w.end.value);
      }
    }
  }

  lemma AcceptedSelectors(env: Env, req: Request, s: SLISpec)
    requires RequestError(env, req).None? && s in req.specs
    ensures ValidSelectors(env, s)
  {
    hide ValidSelectors, CompleteTrust, ProtectedIDs;
  }

  lemma ResultsReported(env: Env, digest: Digest, req: Request, w: World, before: Reliability, s: Summary)
    requires RequestError(env, req).None? && Emitted(env, digest, req, w, before, s) && !PointFailed(req, w)
    ensures AllReported(env, req.specs, w, s.results)
  {
    hide RequestError, PointFailed, Recorded, Reported, ObservationsOf, ResultOf, IdentityFor, VersionOf;
    forall i | 0 <= i < |req.specs| ensures |s.results| == |req.specs| && Reported(env, req.specs[i], w, s.results[i]) {
      var r := ResultOf(env, req.specs[i], ObservationsOf(req, w));
      SpecReported(env, req, w, i);
      ReportedIgnoresIdentity(env, req.specs[i], w, r, s.results[i].comparability);
      assert s.results[i] == r.(comparability := s.results[i].comparability);
    }
  }

  /** What a run reports: every SLI in order, measured on what was fetched; nothing but the failure if a snapshot that
      was needed is missing; and a failed collection if the samples that were needed are missing. */
  lemma RunMeaning(env: Env, digest: Digest, req: Request, w: World, before: Reliability, s: Summary)
    requires RequestError(env, req).None? && Emitted(env, digest, req, w, before, s)
    ensures s.reliability.Some?
    ensures NeedsSnapshots(req.specs) && (w.start.None? || w.end.None?) ==>
      s.results == [] && s.reliability.value.collectionStatus == "Failed"
    ensures !NeedsSnapshots(req.specs) || (w.start.Some? && w.end.Some?) ==>
      AllReported(env, req.specs, w, s.results)
    ensures NeedsSamples(req.specs) && w.hasWindow && w.window.None? ==>
      s.reliability.value.collectionStatus == "Failed"
  {
    if !PointFailed(req, w) { ResultsReported(env, digest, req, w, before, s); }
    hide RequestError, AllReported, ResultsOf, RawResults, WindowMode, AddsMissing, VersionOf;
  }

  // ----- the request -----

  /** A coordinate that the caller must give is missing or white space. */
  predicate LacksCoordinate(tc: TrustContract)
  {
    exists t :: t in [tc.subjectID, tc.sourceConfigID, tc.windowID] && TrimSpace(t) == ""
  }

  /** A spec without an id, or an id twice. */
  predicate LacksIDs(specs: seq<SLISpec>)
  {
    || (exists s :: s in specs && TrimSpace(s.id) == "")
    || (exists i, j :: 0 <= i < j < |specs| && specs[i].id == specs[j].id)
  }

  /** Which requests are refused, and why: the first reason in this order. */
  lemma RequestMeaning(env: Env, req: Request)
    ensures var e, lacking := RequestError(env, req), req.trust.Some? && LacksCoordinate(req.trust.value);
      var anonymous := req.trust.Some? && LacksIDs(req.specs);
      && (e == Some(TimesUnset) <==> !req.timesSet)
      && (e == Some(IncompleteTrust) <==> req.timesSet && lacking)
      && (e == Some(BadSpecIDs) <==> req.timesSet && !lacking && anonymous)
      && (e.None? ==> req.timesSet && !lacking && !anonymous && forall s :: s in req.specs ==> ValidSelectors(env, s))
      && (e.Some? && req.timesSet && !lacking && !anonymous ==>
           e == Some(BadSelector) && exists s :: s in req.specs && !ValidSelectors(env, s))
  {
    hide ValidSelectors, TrimSpace;
    if req.trust.Some? {
      var tc := req.trust.value;
      var given := [tc.subjectID, tc.sourceConfigID, tc.windowID];
      assert given[0] in given && given[1] in given && given[2] in given;
      assert CompleteTrust(tc) <==> !LacksCoordinate(tc);
      assert ProtectedIDs(req.specs) <==> !LacksIDs(req.specs);
      hide CompleteTrust, LacksCoordinate, ProtectedIDs, LacksIDs;
    }
  }

  // ----- the record and the identities -----

  /** The skipped SLIs and the missing inputs of the results are added to those that were there. */
  ghost predicate Collects(before: Reliability, after: Reliability, results: seq<SLIResult>)
  {
    && (forall id :: id in after.skippedSLIs <==>
         id in before.skippedSLIs || exists r :: r in results && r.id == id && r.status == "skip")
    && (forall m :: m in after.missingInputs <==>
         m in before.missingInputs || exists r :: r in results && m in r.inputsMissing)
  }

  lemma {:induction false} SkippedMembers(results: seq<SLIResult>)
    ensures forall id :: id in SkippedOf(results) <==> exists r :: r in results && r.id == id && r.status == "skip"
  {
    if results != [] {
      var n := |results| - 1;
      SkippedMembers(results[..n]);
      assert results == results[..n] + [results[n]];
    }
  }

  lemma MissingMembers(before: seq<string>, after: seq<string>, results: seq<SLIResult>)
    requires AddsMissing(before, after, results)
    ensures forall m :: m in after <==> m in before || exists r :: r in results && m in r.inputsMissing
  {
    var added := after[|before|..];
    assert after == before + added;
    assert forall m :: m in added <==> m in Elements(added);
  }

  lemma RawCollects(before: Reliability, after: Reliability, raw: seq<SLIResult>)
    requires after.skippedSLIs == before.skippedSLIs + SkippedOf(raw)
    requires AddsMissing(before.missingInputs, after.missingInputs, raw)
    ensures Collects(before, after, raw)
  {
    SkippedMembers(raw);
    MissingMembers(before.missingInputs, after.missingInputs, raw);
    hide SkippedOf, AddsMissing;
  }

  lemma CollectsIgnoresIdentity(
    before: Reliability, after: Reliability, raw: seq<SLIResult>, results: seq<SLIResult>)
    requires Collects(before, after, raw) && |raw| == |results|
    requires forall i :: 0 <= i < |raw| ==> results[i] == raw[i].(comparability := results[i].comparability)
    ensures Collects(before, after, results)
  {
    forall r | r in raw ensures exists q :: q in results && q == r.(comparability := q.comparability) {
      var i :| 0 <= i < |raw| && raw[i] == r;
      assert results[i] in results;
    }
    forall q | q in results ensures exists r :: r in raw && q == r.(comparability := q.comparability) {
      var i :| 0 <= i < |results| && results[i] == q;
      assert raw[i] in raw;
    }
  }

  /** What a run with the snapshots it needs writes to its record. */
  lemma RecordMeaning(env: Env, digest: Digest, req: Request, w: World, before: Reliability, s: Summary)
    requires Emitted(env, digest, req, w, before, s)
    requires !NeedsSnapshots(req.specs) || (w.start.Some? && w.end.Some?)
    ensures s.reliability.Some?
    ensures var after := s.reliability.value;
      && Collects(before, after, s.results)
      && after.evaluationStatus == (if after.skippedSLIs == [] then "Complete" else "Partial")
      && after.collectionStatus ==
           if NeedsSamples(req.specs) && w.hasWindow && w.window.None? then "Failed"
           else if before.collectionStatus == "" then "Complete" else before.collectionStatus
  {
    var raw := RawResults(env, req.specs, ObservationsOf(req, w));
    var after := s.reliability.value;
    RawCollects(before, after, raw);
    hide ResultOf, ObservationsOf, IdentityFor, VersionOf, SkippedOf, AddsMissing, Collects, WindowMode;
    CollectsIgnoresIdentity(before, after, raw, s.results);
  }

  /** A run without a snapshot that it needs leaves everything else of the record as it was. */
  lemma FailedRecordMeaning(env: Env, digest: Digest, req: Request, w: World, before: Reliability, s: Summary)
    requires Emitted(env, digest, req, w, before, s)
    requires NeedsSnapshots(req.specs) && (w.start.None? || w.end.None?)
    ensures s.results == [] && s.reliability.Some?
    ensures s.reliability.value ==
      before.(collectionStatus := "Failed", blockedReason := s.reliability.value.blockedReason)
  {
    hide Recorded, ResultsOf, VersionOf, WindowMode;
  }

  /** The identity of every v4 result: the contract and the window of its spec, and subject, source and window extent as
      the caller gave them. */
  lemma IdentityCoordinates(env: Env, digest: Digest, req: Request, w: World, before: Reliability, s: Summary, i: nat)
    requires RequestError(env, req).None? && Emitted(env, digest, req, w, before, s)
    requires s.schemaVersion == "slo.v4" && i < |s.results|
    ensures req.trust.Some? && i < |req.specs| && s.results[i].comparability.Some?
    ensures var c, tc := s.results[i].comparability.value, req.trust.value;
      && c.subjectID == tc.subjectID && c.sourceConfigID == tc.sourceConfigID
      && c.sliContractID == ContractIDOf(digest, req.specs[i])
      && c.windowID == WindowIDOf(digest, req.specs[i], tc.windowID)
  {
    IdentityIffTrusted(env, digest, req, w, before, s);
    hide RequestError, Emitted, ContractIDOf, WindowIDOf, Complete;
  }

  // ----- exact keys -----

  lemma {:induction false} ExactReadings(env: Env, inputs: seq<MetricRef>, d: Snapshot)
    requires forall x :: x in inputs ==> x.selector.None? && x.key in d
    ensures forall k :: k in InputKeys(inputs) ==> k in d
    ensures ValuesIn(env, inputs, d) == Summands(d, InputKeys(inputs))
  {
    forall i | 0 <= i < |inputs|
      ensures InputKeys(inputs)[i] in d && ReadIn(env, inputs[i], d) == Some(d[inputs[i].key])
    {
      assert inputs[i] in inputs;
    }
  }

  ghost predicate HoldAll(inputs: seq<MetricRef>, start: Snapshot, end: Snapshot)
  {
    forall x :: x in inputs ==> x.key in start && x.key in end
  }

  /** The value of a point mode over exact keys: the total of the start snapshot, the total of the end snapshot, or
      the latter less the former when that is not negative; none when a key is not in both. */
  ghost predicate ExactValue(env: Env, s: SLISpec, start: Snapshot, end: Snapshot, v: Option<real>)
  {
    var keys := InputKeys(s.inputs);
    if HoldAll(s.inputs, start, end) then
      assert forall k :: k in keys ==> k in start && k in end by { KeysHeld(s.inputs, start, end); }
      var a, b := Total(env, Summands(start, keys)), Total(env, Summands(end, keys));
      && (s.mode == "single" || s.mode == "start" ==> v == Some(a))
      && (s.mode == "end" ==> v == Some(b))
      && (s.mode == "delta" && env.sub(b, a) >= 0.0 ==> v == Some(env.sub(b, a)))
    else v.None?
  }

  lemma KeysHeld(inputs: seq<MetricRef>, start: Snapshot, end: Snapshot)
    requires HoldAll(inputs, start, end)
    ensures forall k :: k in InputKeys(inputs) ==> k in start && k in end
  {
    forall i | 0 <= i < |inputs| ensures InputKeys(inputs)[i] in start && InputKeys(inputs)[i] in end {
      assert inputs[i] in inputs;
    }
  }

  lemma ExactMeasured(env: Env, s: SLISpec, start: Snapshot, end: Snapshot, r: SLIResult)
    requires PointReported(env, s, start, end, r) && forall x :: x in s.inputs ==> x.selector.None?
    ensures ExactValue(env, s, start, end, r.value)
  {
    assert AllAvailable(env, s.mode, start, end, s.inputs) <==> HoldAll(s.inputs, start, end);
    if HoldAll(s.inputs, start, end) {
      KeysHeld(s.inputs, start, end);
      ExactReadings(env, s.inputs, start);
      ExactReadings(env, s.inputs, end);
    }
    hide Total, Judged, ValuesIn, InputKeys, Summands, AllAvailable, HoldAll, MissingAre;
  }

  /** The values of the point modes over exact keys in a run with both snapshots. */
  lemma ExactPointValue(
    env: Env, digest: Digest, req: Request, w: World, before: Reliability, s: Summary, i: nat)
    requires RequestError(env, req).None? && Emitted(env, digest, req, w, before, s)
    requires w.start.Some? && w.end.Some? && i < |req.specs| && PointMode(req.specs[i].mode)
    requires forall x :: x in req.specs[i].inputs ==> x.selector.None?
    ensures i < |s.results|
    ensures ExactValue(env, req.specs[i], w.start.value, w.end.value, s.results[i].value)
  {
    var spec := req.specs[i];
    RunMeaning(env, digest, req, w, before, s);
    PointIsNotWindow(spec.mode);
    hide RequestError, Emitted, WindowMode, PointReported, ExactValue, NeedsSnapshots, NeedsSamples;
    assert Reported(env, spec, w, s.results[i]);
    ExactMeasured(env, spec, w.start.value, w.end.value, s.results[i]);
  }

  lemma PointIsNotWindow(mode: string)
    requires PointMode(mode)
    ensures !WindowMode(mode)
  {
  }
}
