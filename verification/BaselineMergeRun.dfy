/**
 The merge command from its guards to the changed baseline (cmd/slint-gate/baseline_merge.go), and what a
 later gate makes of the merged baseline.
 */
module BaselineMergeRun {
  import opened GoStrings
  import opened Summaries
  import opened Policies
  import opened Evidence
  import opened Gate
  import opened GateRun
  import opened GateProperties
  import opened BaselineMerging
  import opened BaselineMergeProperties

  datatype MergeError =
    | NotPassing(grade: Grade)
    | ContractMismatch
    | CorruptBaseline(id: string)
    | CorruptSummary(id: string)

  // ----- the duplicate guard -----

  /** The first position from j on that repeats an earlier id. */
  function FirstRepeat(results: seq<SLIResult>, j: nat): (k: nat)
    requires j <= |results|
    ensures j <= k <= |results|
    ensures k < |results| ==> results[k].id in IDs(results[..k])
    ensures forall i :: j <= i < k ==> results[i].id !in IDs(results[..i])
    decreases |results| - j
  {
    if j == |results| || results[j].id in IDs(results[..j]) then j else FirstRepeat(results, j + 1)
  }

  function DuplicateID(results: seq<SLIResult>): string
  {
    var k := FirstRepeat(results, 0);
    if k < |results| then results[k].id else ""
  }

  method FirstDuplicateID(s: Summary) returns (dup: string)
    ensures dup == DuplicateID(s.results)
  {
    var seen: set<string> := {};
    for i := 0 to |s.results|
      invariant seen == IDs(s.results[..i])
      invariant FirstRepeat(s.results, 0) == FirstRepeat(s.results, i)
    {
      assert s.results[..i + 1] == s.results[..i] + [s.results[i]];
      if s.results[i].id in seen {
        return s.results[i].id;
      }
      seen := seen + {s.results[i].id};
    }
    return "";
  }

  /** A blank id is the first one to be repeated. */
  predicate BlankRepeatedFirst(results: seq<SLIResult>)
  {
    exists j :: 0 <= j < |results| && results[j].id == "" && "" in IDs(results[..j]) && UniqueIDs(results[..j])
  }

  /** The guard accepts duplicate-free lists, and also those whose first repeated id is blank; so it is exact
      for every list without that, in particular for every list without blank ids. */
  lemma DuplicateGuardExact(results: seq<SLIResult>)
    ensures DuplicateID(results) == "" <==> UniqueIDs(results) || BlankRepeatedFirst(results)
    ensures BlankRepeatedFirst(results) ==> !UniqueIDs(results)
  {
    var k := FirstRepeat(results, 0);
    NoRepeatUnique(results, k);
    hide FirstRepeat;
    if k < |results| {
      var i :| 0 <= i < k && results[i].id == results[k].id;
      assert !UniqueIDs(results);
      if j :| 0 <= j < |results| && results[j].id == "" && "" in IDs(results[..j]) && UniqueIDs(results[..j]) {
        RepeatWithin(results, k, j);
      }
    } else {
      assert results[..k] == results;
    }
    if j :| 0 <= j < |results| && results[j].id == "" && "" in IDs(results[..j]) && UniqueIDs(results[..j]) {
      var i :| 0 <= i < j && results[..j][i].id == "";
      assert results[i].id == results[j].id;
    }
  }

  lemma NoRepeatUnique(results: seq<SLIResult>, k: nat)
    requires k <= |results| && forall i :: 0 <= i < k ==> results[i].id !in IDs(results[..i])
    ensures UniqueIDs(results[..k])
  {
    forall i, j | 0 <= i < j < k ensures results[i].id != results[j].id {
      assert results[..j][i] == results[i] && results[i] in results[..j];
    }
  }

  /** The first repeat is at k, a list unique up to j repeats at j: it is the same place. */
  lemma RepeatWithin(results: seq<SLIResult>, k: nat, j: nat)
    requires k < |results| && j < |results|
    requires results[k].id in IDs(results[..k]) && results[j].id in IDs(results[..j])
    requires forall i :: 0 <= i < k ==> results[i].id !in IDs(results[..i])
    requires UniqueIDs(results[..j])
    ensures k == j
  {
    var i :| 0 <= i < k && results[..k][i].id == results[k].id;
    UniqueTake(results, i, k, j);
  }

  lemma UniqueTake(results: seq<SLIResult>, i: nat, k: nat, j: nat)
    requires i < k < |results| && j <= |results| && UniqueIDs(results[..j])
    ensures k < j ==> results[i].id != results[k].id
  {
    if k < j {
      assert results[..j][i] == results[i] && results[..j][k] == results[k];
    }
  }

  /** Two records without an id pass the guard. */
  lemma BlankDuplicateAccepted(r: SLIResult)
    requires r.id == ""
    ensures DuplicateID([r, r]) == "" && !UniqueIDs([r, r])
  {
    assert [r, r][..1] == [r] && r in [r];
    assert "" in IDs([r]);
    assert [r, r][1].id in IDs([r, r][..1]);
  }

  // ----- the command -----

  function RulesOf(i: Inputs): seq<ThresholdRule>
  {
    match i.policy
    case Decoded(p) => p.thresholds
    case _ => []
  }

  /** No guard refuses: the current run passes its policy, the contracts agree, and the duplicate guard finds
      nothing in either list. */
  ghost predicate Mergeable(i: Inputs, base: Summary, cur: Summary)
  {
    && ReportOf(i).gateResult == PASS
    && base.schemaVersion == cur.schemaVersion
    && DuplicateID(base.results) == "" && DuplicateID(cur.results) == ""
  }

  /** A grade of PASS vouches for the ids of the current run. */
  lemma PassingIsUnique(i: Inputs, cur: Summary)
    requires i.measurement == Decoded(cur) && ReportOf(i).gateResult == PASS
    ensures ValidSummary(cur) && UniqueIDs(cur.results)
  {
    GradeExact(i);
    hide ReportOf;
    ReadyValid(i);
    hide Ready, AllowedStatus, SupportedSchema;
  }

  /** The merge refuses and leaves the baseline alone, or makes exactly the merged summary of it. */
  method RunMerge(i: Inputs, mode: Mode, baseline: Baseline, cur: Summary) returns (err: Option<MergeError>)
    requires i.measurement == Decoded(cur) && !i.baselineGiven
    modifies baseline
    ensures err.None? <==> Mergeable(i, old(baseline.Value()), cur)
    ensures err.Some? ==> baseline.Value() == old(baseline.Value())
    ensures err.None? ==>
      baseline.Value() == MergedSummary(Merge(mode, old(baseline.Value()), cur, Directions(i, mode)))
  {
    hide ReportOf, DuplicateID, MergedSummary, DirectionsOf;
    var result := new GateSummary();
    result.Evaluate(i);
    assert result.gateResult == ReportOf(i).gateResult by {
      assert result.Value().gateResult == result.gateResult;
    }
    if result.gateResult != PASS {
      return Some(NotPassing(result.gateResult));
    }
    if baseline.schemaVersion != cur.schemaVersion {
      return Some(ContractMismatch);
    }
    var dup := FirstDuplicateID(baseline.Value());
    if dup != "" {
      return Some(CorruptBaseline(dup));
    }
    dup := FirstDuplicateID(cur);
    if dup != "" {
      return Some(CorruptSummary(dup));
    }
    PassingIsUnique(i, cur);
    var directions: map<string, Direction> := map[];
    if mode == ReviewExisting {
      directions := LoadMetricDirections(RulesOf(i));
    }
    var m := Merge(mode, baseline.Value(), cur, directions);
    var plan := ComputeMergePlan(m);
    baseline.ApplyMergePlan(m, plan, cur, mode);
    return None;
  }

  function Directions(i: Inputs, mode: Mode): map<string, Direction>
  {
    if mode == ReviewExisting then DirectionsOf(RulesOf(i)) else map[]
  }

  // ----- the merge and the gate -----

  /** The merge command grades the current run without a baseline, so under a policy that enables regression
      checks it always refuses. */
  lemma MergeNeedsRegressionDisabled(i: Inputs)
    requires !i.baselineGiven && ReportOf(i).gateResult == PASS
    ensures !i.policy.value.regression.enabled
  {
    GradeExact(i);
    hide ReportOf;
    hide Ready, RuleHolds, RuleUnregressed, Covered, TrustCorrect, ReliabilityRank, RequiredRank;
  }

  /** After a force-replace the same run shows no regression against the merged baseline, on every rule whose
      SLI it measured with sufficient evidence and a complete identity. */
  lemma ForceReplaceHasNoRegression(m: Merge, p: Policy, rule: ThresholdRule)
    requires DuplicateFree(m) && m.mode == ForceReplace && p.regression.tolerancePercent >= 0.0
    requires !RunFailed(m.base)
    requires SufficiencyOf(Some(m.cur), rule.metric).Sufficient? && Complete(IdentityOf(m.cur, rule.metric))
    ensures RuleUnregressed(p, m.cur, MergedSummary(m), rule)
  {
    SufficientIsNumeric(m.cur, rule.metric);
    ForceReplaceEvidence(m, rule.metric);
    ForceReplaceExact(m, rule.metric);
    NoRegressionOnItself(rule.operator, SufficiencyOf(Some(m.cur), rule.metric).value, p.regression.tolerancePercent);
    hide SufficiencyOf, Complete, MergedResults, WithSkips, LastRecord, DuplicateFree, Unregressed, ValidPolicy;
    hide SkippedIDs, NumericIDs, Reconciled, RunFailed;
  }

  lemma NoRegressionOnItself(operator: string, v: real, tolerance: real)
    requires tolerance >= 0.0
    ensures Unregressed(operator, v, v, tolerance)
  {
    hide LowerIsBetter, HigherIsBetter;
    assert tolerance * Abs(v) >= 0.0;
  }

  lemma SufficientIsNumeric(s: Summary, id: string)
    requires SufficiencyOf(Some(s), id).Sufficient?
    ensures !RunFailed(s) && id in NumericIDs(s.results)
  {
    hide RunFailed, SkippedIDs;
    LastRecordNone(s.results, id);
  }
}
