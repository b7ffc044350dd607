/**
 What the gate decides, stated on the policy, the summaries and their values (pkg/gate): what an operator compares,
 when an SLI has evidence, what each check says, and when the report passes or fails.
 */
module GateMeaning {
  import opened GoStrings
  import opened Summaries
  import opened Policies
  import opened Evidence
  import opened Gate
  import opened GateProperties

  // ----- operators -----

  /** The characters of the operator say how the value may stand to the target. */
  predicate Relates(v: real, operator: string, target: real)
  {
    var op := TrimSpace(operator);
    ('<' in op && v < target) || ('>' in op && v > target) || ('=' in op && v == target)
  }

  /** Thresholds, regression and merge read one direction out of an operator: lower is better iff it admits lesser
      values, higher is better iff it admits greater ones. */
  lemma OperatorCharacters(operator: string)
    ensures SupportedOperator(operator) <==> TrimSpace(operator) in ["<=", "=<", ">=", "=>", "<", ">", "==", "="]
    ensures LowerIsBetter(operator) <==> SupportedOperator(operator) && '<' in TrimSpace(operator)
    ensures HigherIsBetter(operator) <==> SupportedOperator(operator) && '>' in TrimSpace(operator)
  {
    hide TrimSpace;
    assert "<="[0] == '<' && "=<"[1] == '<' && "<"[0] == '<' && ">="[0] == '>' && "=>"[1] == '>' && ">"[0] == '>';
  }

  /** A supported operator admits a value iff it stands to the target as one of its characters says. */
  lemma CompareOpMeaning(v: real, operator: string, target: real)
    requires SupportedOperator(operator)
    ensures CompareOp(v, operator, target) == Some(Relates(v, operator, target))
  {
    hide TrimSpace;
    assert "<="[0] == '<' && "<="[1] == '=' && "=<"[0] == '=' && "=<"[1] == '<' && "<"[0] == '<';
    assert ">="[0] == '>' && ">="[1] == '=' && "=>"[0] == '=' && "=>"[1] == '>' && ">"[0] == '>';
    assert "=="[0] == '=' && "="[0] == '=';
  }

  // ----- evidence -----

  /** A failed status, in any letter case and between any blanks. */
  predicate SaysFailed(status: string)
  {
    Lower(TrimSpace(status)) == "failed"
  }

  predicate CollectionOrEvaluationFailed(m: Summary)
  {
    m.reliability.Some? &&
    (SaysFailed(m.reliability.value.collectionStatus) || SaysFailed(m.reliability.value.evaluationStatus))
  }

  /** The place of the record that counts for an id: the last one. */
  predicate LastPlace(results: seq<SLIResult>, id: string, i: nat)
  {
    i < |results| && results[i].id == id && forall j :: i < j < |results| ==> results[j].id != id
  }

  /** The summary is evidence that the SLI has this value. */
  ghost predicate Evidenced(m: Summary, id: string, v: real)
  {
    && !CollectionOrEvaluationFailed(m)
    && (m.reliability.Some? ==> id !in m.reliability.value.skippedSLIs)
    && exists i: nat :: LastPlace(m.results, id, i) && m.results[i].inputsMissing == [] && m.results[i].value == Some(v)
  }

  lemma FailedMeaning(m: Summary)
    ensures RunFailed(m) <==> CollectionOrEvaluationFailed(m)
  {
    assert Lower("Failed") == "failed";
    hide Lower, TrimSpace;
  }

  lemma {:induction false} LastPlaceMeaning(results: seq<SLIResult>, id: string, i: nat)
    requires LastPlace(results, id, i)
    ensures LastRecord(results, id) == Some(results[i])
  {
    var n := |results| - 1;
    if i < n { LastPlaceMeaning(results[..n], id, i); }
  }

  lemma {:induction false} SomeLastPlace(results: seq<SLIResult>, id: string) returns (i: nat)
    requires LastRecord(results, id).Some?
    ensures LastPlace(results, id, i) && results[i] == LastRecord(results, id).value
  {
    var n := |results| - 1;
    if results[n].id == id {
      i := n;
    } else {
      i := SomeLastPlace(results[..n], id);
    }
  }

  lemma EvidenceMeaning(m: Summary, id: string, v: real)
    ensures SufficiencyOf(Some(m), id) == Sufficient(v) <==> Evidenced(m, id, v)
  {
    FailedMeaning(m);
    hide RunFailed, CollectionOrEvaluationFailed;
    if SufficiencyOf(Some(m), id) == Sufficient(v) {
      var i := SomeLastPlace(m.results, id);
    }
    if Evidenced(m, id, v) {
      var i: nat :| LastPlace(m.results, id, i) && m.results[i].inputsMissing == [] && m.results[i].value == Some(v);
      LastPlaceMeaning(m.results, id, i);
    }
  }

  ghost predicate HasEvidence(m: Summary, id: string)
  {
    exists v :: Evidenced(m, id, v)
  }

  lemma HasEvidenceMeaning(m: Summary, id: string)
    ensures SufficiencyOf(Some(m), id).Sufficient? <==> HasEvidence(m, id)
    ensures SufficiencyOf(Some(m), id).Sufficient? ==> Evidenced(m, id, SufficiencyOf(Some(m), id).value)
    ensures forall v :: Evidenced(m, id, v) ==> SufficiencyOf(Some(m), id) == Sufficient(v)
  {
    forall v ensures SufficiencyOf(Some(m), id) == Sufficient(v) <==> Evidenced(m, id, v) {
      EvidenceMeaning(m, id, v);
    }
    hide Evidenced, SufficiencyOf;
  }

  // ----- rules -----

  /** There is evidence that the rule is satisfied. */
  ghost predicate Satisfied(m: Summary, rule: ThresholdRule)
  {
    rule.value.Some? && exists v :: Evidenced(m, rule.metric, v) && Relates(v, rule.operator, rule.value.value)
  }

  /** There is evidence that it is not. */
  ghost predicate Missed(m: Summary, rule: ThresholdRule)
  {
    rule.value.Some? && exists v :: Evidenced(m, rule.metric, v) && !Relates(v, rule.operator, rule.value.value)
  }

  lemma RuleMeaning(m: Summary, rule: ThresholdRule)
    requires SupportedOperator(rule.operator)
    ensures RuleHolds(m, rule) <==> Satisfied(m, rule)
    ensures RuleMisses(m, rule) <==> Missed(m, rule)
  {
    HasEvidenceMeaning(m, rule.metric);
    var e := SufficiencyOf(Some(m), rule.metric);
    if e.Sufficient? && rule.value.Some? { CompareOpMeaning(e.value, rule.operator, rule.value.value); }
    hide SufficiencyOf, Evidenced, CompareOp, Relates, SupportedOperator, HasEvidence;
  }

  // ----- regression -----

  /** Not worse than the baseline by more than the tolerance, in the direction that the operator admits; against a zero
      baseline only the same value, or any value where greater ones are admitted. */
  predicate NotWorse(operator: string, cur: real, base: real, tolerance: real)
  {
    var op := TrimSpace(operator);
    var slack := tolerance * Abs(base);
    if base == 0.0 then cur == 0.0 || '>' in op
    else if '<' in op then 100.0 * (cur - base) <= slack
    else if '>' in op then 100.0 * (base - cur) <= slack
    else -slack <= 100.0 * (cur - base) <= slack
  }

  lemma UnregressedMeaning(operator: string, cur: real, base: real, tolerance: real)
    requires SupportedOperator(operator)
    ensures Unregressed(operator, cur, base, tolerance) <==> NotWorse(operator, cur, base, tolerance)
  {
    OperatorCharacters(operator);
    hide LowerIsBetter, HigherIsBetter, EqualityOperator, TrimSpace;
  }

  /** Both summaries hold evidence for the rule under one complete identity. */
  ghost predicate BothEvidenced(m: Summary, b: Summary, id: string, cur: real, base: real)
  {
    Evidenced(m, id, cur) && Evidenced(b, id, base) && SameIdentity(m, b, id)
  }

  ghost predicate SameIdentity(m: Summary, b: Summary, id: string)
  {
    exists i: nat, j: nat ::
      && LastPlace(m.results, id, i) && LastPlace(b.results, id, j)
      && m.results[i].comparability.Some? && m.results[i].comparability == b.results[j].comparability
      && WhollyGiven(m.results[i].comparability.value)
  }

  predicate WhollyGiven(c: Comparability)
  {
    forall t :: t in [c.sliContractID, c.subjectID, c.windowID, c.sourceConfigID] ==> TrimSpace(t) != ""
  }

  lemma CompleteMeaning(c: Comparability)
    ensures Complete(Some(c)) <==> WhollyGiven(c)
  {
    hide TrimSpace;
    var all := [c.sliContractID, c.subjectID, c.windowID, c.sourceConfigID];
    assert all[0] in all && all[1] in all && all[2] in all && all[3] in all;
  }

  lemma IdentityMeaning(m: Summary, b: Summary, id: string)
    ensures Comparable(IdentityOf(m, id), IdentityOf(b, id)) <==> SameIdentity(m, b, id)
  {
    var x, y := IdentityOf(m, id), IdentityOf(b, id);
    hide Complete, WhollyGiven;
    if Comparable(x, y) {
      IdentityIsGiven(x);
      CompleteMeaning(x.value);
      var i := SomeLastPlace(m.results, id);
      var j := SomeLastPlace(b.results, id);
    }
    if SameIdentity(m, b, id) {
      var i: nat, j: nat :|
        && LastPlace(m.results, id, i) && LastPlace(b.results, id, j)
        && m.results[i].comparability.Some? && m.results[i].comparability == b.results[j].comparability
        && WhollyGiven(m.results[i].comparability.value);
      LastPlaceMeaning(m.results, id, i);
      LastPlaceMeaning(b.results, id, j);
      CompleteMeaning(x.value);
    }
  }

  lemma IdentityIsGiven(c: Option<Comparability>)
    requires Complete(c)
    ensures c.Some?
  {
  }

  ghost predicate Comparables(m: Summary, b: Summary, id: string)
  {
    HasEvidence(m, id) && HasEvidence(b, id) && SameIdentity(m, b, id)
  }

  ghost predicate Kept(tolerance: real, m: Summary, b: Summary, rule: ThresholdRule)
  {
    exists cur, base :: BothEvidenced(m, b, rule.metric, cur, base) && NotWorse(rule.operator, cur, base, tolerance)
  }

  ghost predicate Worsened(tolerance: real, m: Summary, b: Summary, rule: ThresholdRule)
  {
    exists cur, base :: BothEvidenced(m, b, rule.metric, cur, base) && !NotWorse(rule.operator, cur, base, tolerance)
  }

  lemma RegressionRuleMeaning(p: Policy, m: Summary, b: Summary, rule: ThresholdRule)
    requires SupportedOperator(rule.operator)
    ensures ComparableEvidence(m, b, rule.metric) <==> Comparables(m, b, rule.metric)
    ensures RuleUnregressed(p, m, b, rule) <==> Kept(p.regression.tolerancePercent, m, b, rule)
    ensures RuleRegressed(p, m, b, rule) <==> Worsened(p.regression.tolerancePercent, m, b, rule)
  {
    HasEvidenceMeaning(m, rule.metric);
    HasEvidenceMeaning(b, rule.metric);
    IdentityMeaning(m, b, rule.metric);
    var x, y := SufficiencyOf(Some(m), rule.metric), SufficiencyOf(Some(b), rule.metric);
    if x.Sufficient? && y.Sufficient? {
      UnregressedMeaning(rule.operator, x.value, y.value, p.regression.tolerancePercent);
    }
    hide SufficiencyOf, Evidenced, Comparable, IdentityOf, SameIdentity, Unregressed, NotWorse, SupportedOperator;
    hide HasEvidence;
  }

  // ----- the other sections -----

  /** The minimum level is met: complete always does, partial does unless complete is asked for. */
  predicate Reaches(minLevel: string, status: string)
  {
    || Lower(TrimSpace(status)) == "complete"
    || (Lower(TrimSpace(status)) == "partial" && Lower(TrimSpace(minLevel)) != "complete")
  }

  predicate ReliableEnough(p: Policy, m: Summary)
  {
    p.reliability.required ==>
      m.reliability.Some? && Reaches(p.reliability.minLevel, m.reliability.value.collectionStatus)
  }

  lemma ReliabilityMeaning(p: Policy, m: Summary)
    ensures TooUnreliable(p, m) <==> !ReliableEnough(p, m)
  {
    var blank := "";
    assert TrimSpace(blank) == "" && |Lower(blank)| == 0 && |"complete"| == 8 && |"partial"| == 7;
    hide Lower, TrimSpace;
  }

  /** A rule or the informational list names the SLI. */
  predicate Named(p: Policy, id: string)
  {
    || (exists rule :: rule in p.thresholds && TrimSpace(rule.metric) == id)
    || (exists x :: x in p.coverage.informational && TrimSpace(x) == id)
  }

  ghost predicate SomeUnnamed(p: Policy, m: Summary)
  {
    exists r :: r in m.results && HasEvidence(m, r.id) && !Named(p, r.id)
  }

  lemma GapsAreUnnamed(p: Policy, m: Summary)
    requires ValidSummary(m)
    ensures HasGap(p, m) <==> SomeUnnamed(p, m)
  {
    GapMeaning(p, m);
    forall r | r in m.results
      ensures SufficiencyOf(Some(m), r.id).Sufficient? <==> HasEvidence(m, r.id)
      ensures Covered(p, r.id) <==> Named(p, r.id)
    {
      HasEvidenceMeaning(m, r.id);
      assert r.id != "";
      hide SufficiencyOf, HasEvidence, TrimSpace;
    }
    hide ValidSummary, SufficiencyOf, HasEvidence, Covered, Named, HasGap;
  }

  /** The condition fails the gate: a list names it, or neither list names anything. */
  ghost predicate Promotes(p: Policy, condition: string)
  {
    var listed := p.failOn + p.promoteToFail;
    || (exists x :: x in listed && Lower(TrimSpace(x)) == condition)
    || (forall x :: x in listed ==> Lower(TrimSpace(x)) == "")
  }

  lemma PromotionMeaning(p: Policy, condition: string)
    requires condition in ["threshold_miss", "regression_detected", "coverage_gap"]
    ensures Promoted(p, condition) <==> Promotes(p, condition)
  {
    assert condition != "" && AllowedPromotion(condition);
    hide Lower, TrimSpace;
  }

  // ----- the inputs -----

  predicate InputsReady(i: Inputs)
  {
    i.policy.Decoded? && ValidPolicy(i.policy.value) && i.measurement.Decoded? && ValidSummary(i.measurement.value)
  }

  lemma ReadyMeaning(i: Inputs)
    ensures Ready(i) <==> InputsReady(i)
  {
    hide ValidPolicy, AllowedStatus, UniqueIDs, ValidReliability;
  }

  /** A valid baseline is given, and policy, measurement and baseline are all of the version that compares. */
  predicate BaselineReady(i: Inputs, p: Policy, m: Summary)
  {
    && i.baselineGiven && i.baseline.Decoded? && ValidSummary(i.baseline.value)
    && TrimSpace(p.schemaVersion) == "slint.policy.v2"
    && m.schemaVersion == "slo.v4" && i.baseline.value.schemaVersion == "slo.v4"
  }

  lemma BaselineMeaning(i: Inputs, p: Policy, m: Summary)
    ensures RegressionGradable(i, p, m) <==> BaselineReady(i, p, m)
    ensures BaselineReady(i, p, m) ==> BaselineOf(i) == Some(i.baseline.value)
    ensures BaselineStatusOf(i) == AbsentFirstRun <==> !i.baselineGiven
  {
    hide AllowedStatus, UniqueIDs, ValidReliability, TrimSpace;
  }

  // ----- the grade -----

  ghost predicate Passes(i: Inputs)
  {
    InputsReady(i) &&
    var p, m := i.policy.value, i.measurement.value;
    && !CollectionOrEvaluationFailed(m)
    && (forall rule :: rule in p.thresholds ==> Satisfied(m, rule))
    && ReliableEnough(p, m)
    && (p.coverage.required ==> !SomeUnnamed(p, m))
    && (p.regression.enabled ==>
         && BaselineReady(i, p, m)
         && forall rule :: rule in p.thresholds ==>
              Kept(p.regression.tolerancePercent, m, i.baseline.value, rule))
  }

  ghost predicate Fails(i: Inputs)
  {
    InputsReady(i) &&
    var p, m := i.policy.value, i.measurement.value;
    || (Promotes(p, "threshold_miss") && exists rule :: rule in p.thresholds && Missed(m, rule))
    || (Promotes(p, "regression_detected") && p.regression.enabled && BaselineReady(i, p, m) &&
        exists rule :: rule in p.thresholds && Worsened(p.regression.tolerancePercent, m, i.baseline.value, rule))
    || (Promotes(p, "coverage_gap") && p.coverage.required && SomeUnnamed(p, m))
  }

  ghost predicate Undecided(i: Inputs)
  {
    !InputsReady(i) ||
    var p, m := i.policy.value, i.measurement.value;
    || CollectionOrEvaluationFailed(m)
    || (exists rule :: rule in p.thresholds && !HasEvidence(m, rule.metric))
    || (p.regression.enabled && i.baselineGiven &&
        (!BaselineReady(i, p, m) ||
         exists rule :: rule in p.thresholds && !Comparables(m, i.baseline.value, rule.metric)))
  }

  lemma RulesMeaning(p: Policy, m: Summary)
    requires ValidPolicy(p)
    ensures forall rule :: rule in p.thresholds ==>
      && (RuleHolds(m, rule) <==> Satisfied(m, rule)) && (RuleMisses(m, rule) <==> Missed(m, rule))
      && (SufficiencyOf(Some(m), rule.metric).Insufficient? <==> !HasEvidence(m, rule.metric))
  {
    hide RuleHolds, RuleMisses, Satisfied, Missed, SufficiencyOf, HasEvidence, SupportedOperator;
    forall rule | rule in p.thresholds
      ensures (RuleHolds(m, rule) <==> Satisfied(m, rule)) && (RuleMisses(m, rule) <==> Missed(m, rule))
      ensures SufficiencyOf(Some(m), rule.metric).Insufficient? <==> !HasEvidence(m, rule.metric)
    {
      RuleMeaning(m, rule);
      HasEvidenceMeaning(m, rule.metric);
    }
  }

  lemma RegressionRulesMeaning(p: Policy, m: Summary, b: Summary)
    requires ValidPolicy(p)
    ensures forall rule :: rule in p.thresholds ==>
      && (RuleUnregressed(p, m, b, rule) <==> Kept(p.regression.tolerancePercent, m, b, rule))
      && (RuleRegressed(p, m, b, rule) <==> Worsened(p.regression.tolerancePercent, m, b, rule))
      && (ComparableEvidence(m, b, rule.metric) <==> Comparables(m, b, rule.metric))
  {
    hide RuleUnregressed, RuleRegressed, Kept, Worsened, ComparableEvidence, Comparables, SupportedOperator;
    forall rule | rule in p.thresholds
      ensures RuleUnregressed(p, m, b, rule) <==> Kept(p.regression.tolerancePercent, m, b, rule)
      ensures RuleRegressed(p, m, b, rule) <==> Worsened(p.regression.tolerancePercent, m, b, rule)
      ensures ComparableEvidence(m, b, rule.metric) <==> Comparables(m, b, rule.metric)
    {
      RegressionRuleMeaning(p, m, b, rule);
    }
  }

  lemma FailsMeaning(i: Inputs)
    requires InputsReady(i)
    ensures FailCondition(i) <==> Fails(i)
  {
    var p, m := i.policy.value, i.measurement.value;
    ReadyMeaning(i);
    RulesMeaning(p, m);
    GapsAreUnnamed(p, m);
    PromotionMeaning(p, "threshold_miss");
    PromotionMeaning(p, "regression_detected");
    PromotionMeaning(p, "coverage_gap");
    BaselineMeaning(i, p, m);
    if BaselineReady(i, p, m) { RegressionRulesMeaning(p, m, i.baseline.value); }
    hide Ready, InputsReady, RuleMisses, Missed, HasGap, SomeUnnamed, Promoted, Promotes, BaselineReady, BaselineOf;
    hide RegressionGradable, RuleRegressed, Worsened, RuleHolds, Satisfied, SufficiencyOf, HasEvidence;
    hide RuleUnregressed, Kept, ComparableEvidence, Comparables, BaselineStatusOf;
  }

  lemma UndecidedMeaning(i: Inputs)
    requires InputsReady(i)
    ensures Ungradable(i) <==> Undecided(i)
  {
    var p, m := i.policy.value, i.measurement.value;
    ReadyMeaning(i);
    FailedMeaning(m);
    RulesMeaning(p, m);
    BaselineMeaning(i, p, m);
    if BaselineReady(i, p, m) { RegressionRulesMeaning(p, m, i.baseline.value); }
    hide Ready, InputsReady, RuleMisses, Missed, RuleHolds, Satisfied, SufficiencyOf, HasEvidence, RunFailed;
    hide RegressionGradable, BaselineReady, BaselineOf, RuleUnregressed, Kept, RuleRegressed, Worsened;
    hide ComparableEvidence, Comparables, BaselineStatusOf, CollectionOrEvaluationFailed;
  }

  lemma PassesMeaning(i: Inputs)
    requires InputsReady(i)
    ensures PassCondition(i) <==> Passes(i)
  {
    var p, m := i.policy.value, i.measurement.value;
    ReadyMeaning(i);
    FailedMeaning(m);
    RulesMeaning(p, m);
    ReliabilityMeaning(p, m);
    GapsAreUnnamed(p, m);
    GapMeaning(p, m);
    BaselineMeaning(i, p, m);
    if BaselineReady(i, p, m) { RegressionRulesMeaning(p, m, i.baseline.value); }
    hide Ready, InputsReady, RuleMisses, Missed, RuleHolds, Satisfied, SufficiencyOf, HasEvidence, RunFailed;
    hide RegressionGradable, BaselineReady, BaselineOf, RuleUnregressed, Kept, RuleRegressed, Worsened, Covered;
    hide ComparableEvidence, Comparables, BaselineStatusOf, CollectionOrEvaluationFailed, SomeUnnamed, HasGap;
    hide ReliableEnough, ReliabilityRank, RequiredRank, CollectionStatus;
  }

  /** The four grades on the inputs: FAIL iff a promoted condition is met; otherwise NO_GRADE iff something required
      cannot be decided; PASS iff everything is satisfied; WARN in every other case. */
  lemma GradeMeaning(i: Inputs)
    ensures ReportOf(i).gateResult == FAIL <==> Fails(i)
    ensures ReportOf(i).gateResult == NO_GRADE <==> !Fails(i) && Undecided(i)
    ensures ReportOf(i).gateResult == PASS <==> Passes(i)
    ensures ReportOf(i).gateResult == WARN <==> !Fails(i) && !Undecided(i) && !Passes(i)
  {
    GradeExact(i);
    ReadyMeaning(i);
    if InputsReady(i) {
      FailsMeaning(i);
      UndecidedMeaning(i);
      PassesMeaning(i);
    }
    hide ReportOf, Ready, InputsReady;
  }

  // ----- the checks -----

  /** What the check of a rule says: its status, and the value it is about. */
  ghost predicate ChecksRule(m: Summary, rule: ThresholdRule, c: Check)
  {
    && c.category == Threshold && c.metric == rule.metric
    && (c.status == CheckPass <==> Satisfied(m, rule))
    && (c.status == CheckFail <==> Missed(m, rule))
    && (c.status == CheckNoGrade <==> !HasEvidence(m, rule.metric))
    && (forall v :: Evidenced(m, rule.metric, v) ==> c.observed == Number(v))
  }

  lemma RuleCheck(p: Policy, m: Summary, rule: ThresholdRule)
    requires ValidPolicy(p) && rule in p.thresholds
    ensures rule.value.Some? && ChecksRule(m, rule, RuleThreshold(p, m, rule).check)
  {
    RuleMeaning(m, rule);
    HasEvidenceMeaning(m, rule.metric);
    ValidRuleCompares(p, m, rule);
    var e := SufficiencyOf(Some(m), rule.metric);
    hide SufficiencyOf, CompareOp, Evidenced, HasEvidence, Satisfied, Missed, Promoted;
    if e.Sufficient? {
      var holds := CompareOp(e.value, rule.operator, rule.value.value).value;
      assert holds == true || holds == false;
    }
  }

  /** The report starts with one check per rule, in order, each saying how its rule stands. */
  lemma ChecksMeaning(i: Inputs)
    requires InputsReady(i)
    ensures var p, m, checks := i.policy.value, i.measurement.value, ReportOf(i).checks;
      && |checks| >= |p.thresholds|
      && forall k :: 0 <= k < |p.thresholds| ==> ChecksRule(m, p.thresholds[k], checks[k])
  {
    var p, m := i.policy.value, i.measurement.value;
    ReadyMeaning(i);
    var all := ThresholdOutcomes(p, m);
    assert ThresholdSection(p, m).checks == ChecksOf(all);
    hide ChecksRule, RuleThreshold, InputsReady, Ready, ValidPolicy, GradeOf, EvaluationStatusOf, AllReasons;
    hide RegressionSection, ReliabilitySection, CoverageSection, Diagnostics;
    forall k | 0 <= k < |p.thresholds| ensures ChecksRule(m, p.thresholds[k], all[k].check) {
      assert p.thresholds[k] in p.thresholds;
      RuleCheck(p, m, p.thresholds[k]);
    }
    hide ThresholdOutcomes;
  }

  /** What the regression check of a rule says. */
  ghost predicate ChecksRegression(p: Policy, m: Summary, b: Summary, rule: ThresholdRule, c: Check)
  {
    && c.category == Regression && c.metric == rule.metric
    && (c.status == CheckPass <==> Kept(p.regression.tolerancePercent, m, b, rule))
    && (c.status == CheckFail <==> Worsened(p.regression.tolerancePercent, m, b, rule))
    && (c.status == CheckNoGrade <==> !Comparables(m, b, rule.metric))
  }

  lemma RegressionOutcomeStatus(p: Policy, m: Summary, b: Summary, rule: ThresholdRule)
    requires ValidPolicy(p)
    ensures var c := RuleRegression(p, m, b, rule).check;
      && c.category == Regression && c.metric == rule.metric
      && (c.status == CheckPass <==> RuleUnregressed(p, m, b, rule))
      && (c.status == CheckFail <==> RuleRegressed(p, m, b, rule))
      && (c.status == CheckNoGrade <==> !ComparableEvidence(m, b, rule.metric))
  {
    hide SufficiencyOf, Promoted, Comparable, IdentityOf, LowerIsBetter, HigherIsBetter;
    var cur, base := SufficiencyOf(Some(m), rule.metric), SufficiencyOf(Some(b), rule.metric);
    if cur.Sufficient? && base.Sufficient? && base.value != 0.0 {
      RegressionMeaning(rule.operator, cur.value, base.value, p.regression.tolerancePercent);
    }
    hide WithinTolerance, IsRegression, DeltaPct;
  }

  lemma RegressionCheck(p: Policy, m: Summary, b: Summary, rule: ThresholdRule)
    requires ValidPolicy(p) && rule in p.thresholds
    ensures ChecksRegression(p, m, b, rule, RuleRegression(p, m, b, rule).check)
  {
    RegressionOutcomeStatus(p, m, b, rule);
    RegressionRulesMeaning(p, m, b);
    hide RuleRegression, RuleUnregressed, RuleRegressed, ComparableEvidence, Kept, Worsened, Comparables, ValidPolicy;
  }

  lemma RegressionSectionChecks(i: Inputs, p: Policy, m: Summary, b: Summary)
    requires p.regression.enabled && RegressionGradable(i, p, m) && BaselineOf(i) == Some(b)
    ensures RegressionSection(p, m, BaselineOf(i), BaselineStatusOf(i)).checks == ChecksOf(RegressionOutcomes(p, m, b))
  {
    hide BaselineOf, BaselineStatusOf, RegressionOutcomes, IsTrustCorrect, IsTrustCorrectPolicy;
  }

  lemma ReportChecks(i: Inputs)
    requires Ready(i)
    ensures var p, m := i.policy.value, i.measurement.value;
      ReportOf(i).checks == ThresholdSection(p, m).checks +
        RegressionSection(p, m, BaselineOf(i), BaselineStatusOf(i)).checks +
        ReliabilitySection(p, m).checks + Diagnostics(m.results) + CoverageSection(p, m).checks
  {
    hide ThresholdSection, RegressionSection, ReliabilitySection, CoverageSection, Diagnostics, Ready, AllReasons;
    hide BaselineOf, BaselineStatusOf, GradeOf, EvaluationStatusOf;
  }

  lemma SecondPart<T>(a: seq<T>, b: seq<T>, c: seq<T>, d: seq<T>, e: seq<T>)
    ensures var s := a + b + c + d + e;
      |s| >= |a| + |b| && forall k :: 0 <= k < |b| ==> s[|a| + k] == b[k]
  {
  }

  lemma RegressionChecksOf(i: Inputs, p: Policy, m: Summary, b: Summary)
    requires i.policy == Decoded(p) && i.measurement == Decoded(m) && i.baseline == Decoded(b)
    requires InputsReady(i) && p.regression.enabled && BaselineReady(i, p, m)
    ensures var checks, n := ReportOf(i).checks, |p.thresholds|;
      |checks| >= 2 * n && forall k :: 0 <= k < n ==> ChecksRegression(p, m, b, p.thresholds[k], checks[n + k])
  {
    hide *;
    ReadyMeaning(i);
    BaselineMeaning(i, p, m);
    PolicyOfReady(i);
    RegressionSectionChecks(i, p, m, b);
    RegressionOutcomeChecks(p, m, b);
    ThresholdCheckCount(p, m);
    ReportChecks(i);
    SecondPart(ThresholdSection(p, m).checks, ChecksOf(RegressionOutcomes(p, m, b)), ReliabilitySection(p, m).checks,
      Diagnostics(m.results), CoverageSection(p, m).checks);
  }

  /** With a baseline to compare to, one regression check per rule follows, in order. */
  lemma RegressionChecksMeaning(i: Inputs)
    requires InputsReady(i) && i.policy.value.regression.enabled
    requires BaselineReady(i, i.policy.value, i.measurement.value)
    ensures var p, m, checks := i.policy.value, i.measurement.value, ReportOf(i).checks;
      var n := |p.thresholds|;
      && |checks| >= 2 * n
      && forall k :: 0 <= k < n ==> ChecksRegression(p, m, i.baseline.value, p.thresholds[k], checks[n + k])
  {
    hide ValidPolicy, ValidSummary, ReportOf, ChecksRegression;
    RegressionChecksOf(i, i.policy.value, i.measurement.value, i.baseline.value);
  }

  lemma ThresholdCheckCount(p: Policy, m: Summary)
    requires ValidPolicy(p)
    ensures |ThresholdSection(p, m).checks| == |p.thresholds|
  {
    hide ValidPolicy;
  }

  lemma RegressionOutcomeChecks(p: Policy, m: Summary, b: Summary)
    requires ValidPolicy(p)
    ensures var checks := ChecksOf(RegressionOutcomes(p, m, b));
      |checks| == |p.thresholds| &&
      forall k :: 0 <= k < |checks| ==> ChecksRegression(p, m, b, p.thresholds[k], checks[k])
  {
    hide ValidPolicy, RuleRegression, ChecksRegression;
    var all := RegressionOutcomes(p, m, b);
    forall k | 0 <= k < |all| ensures ChecksRegression(p, m, b, p.thresholds[k], all[k].check) {
      assert p.thresholds[k] in p.thresholds;
      RegressionCheck(p, m, b, p.thresholds[k]);
    }
  }

  lemma PolicyOfReady(i: Inputs)
    requires InputsReady(i)
    ensures ValidPolicy(i.policy.value)
  {
    hide ValidPolicy, ValidSummary;
  }

  /** The info check of a result whose status is neither pass nor empty. */
  function InfoCheck(r: SLIResult): Check
  {
    Check("measurement-diagnostic:" + r.id, MeasurementDiagnostic, CheckInfo, r.id,
      if r.value.Some? then Number(r.value.value) else Nothing)
  }

  lemma {:induction false} DiagnosticsMeaning(results: seq<SLIResult>, c: Check)
    ensures c in Diagnostics(results) <==>
      exists r :: r in results && r.status != "pass" && r.status != "" && c == InfoCheck(r)
  {
    if results != [] {
      var n := |results| - 1;
      assert results == results[..n] + [results[n]];
      DiagnosticsMeaning(results[..n], c);
      hide InfoCheck;
      DiagnosticIsInfo(results[n]);
      hide Diagnostic;
    }
  }

  lemma DiagnosticIsInfo(r: SLIResult)
    ensures Diagnostic(r) == InfoCheck(r)
  {
  }

  /** The check of an SLI that has evidence and is not named. */
  ghost predicate ChecksCoverage(p: Policy, m: Summary, r: SLIResult, c: Check)
  {
    && HasEvidence(m, r.id) && !Named(p, r.id) && r.value.Some?
    && c == Check("coverage:" + r.id, Coverage, if Promotes(p, "coverage_gap") then CheckFail else CheckWarn,
         r.id, Number(r.value.value))
  }

  lemma {:induction false} CoverageChecksMeaning(p: Policy, m: Summary, results: seq<SLIResult>, c: Check)
    requires forall r :: r in results ==> r.id != ""
    ensures (exists o :: o in CoverageOutcomes(p, m, results) && o.check == c) <==>
      exists r :: r in results && ChecksCoverage(p, m, r, c)
  {
    if results != [] {
      var n := |results| - 1;
      assert results == results[..n] + [results[n]];
      CoverageChecksMeaning(p, m, results[..n], c);
      GapHasValue(p, m, results[n]);
      CoverageCheckMeaning(p, m, results[n], c);
      hide ChecksCoverage, CoverageGap, CoverageOutcome, Promoted;
    }
  }

  lemma CoverageCheckMeaning(p: Policy, m: Summary, r: SLIResult, c: Check)
    requires r.id != "" && (CoverageGap(p, m, r) ==> r.value.Some?)
    ensures ChecksCoverage(p, m, r, c) <==>
      CoverageGap(p, m, r) && CoverageOutcome(r, Promoted(p, COVERAGE_GAP)).check == c
  {
    HasEvidenceMeaning(m, r.id);
    PromotionMeaning(p, "coverage_gap");
    hide SufficiencyOf, HasEvidence, Promoted, Promotes, TrimSpace;
  }

  /** The report carries an info check for each result whose status is neither pass nor empty, and the check of every
      gap if coverage is required. */
  lemma OtherChecksMeaning(i: Inputs, r: SLIResult)
    requires InputsReady(i) && r in i.measurement.value.results
    ensures var p, m, checks := i.policy.value, i.measurement.value, ReportOf(i).checks;
      && (r.status != "pass" && r.status != "" ==> InfoCheck(r) in checks)
      && (p.coverage.required ==> forall c :: ChecksCoverage(p, m, r, c) ==> c in checks)
  {
    var p, m := i.policy.value, i.measurement.value;
    ReadyMeaning(i);
    ReportChecks(i);
    DiagnosticsMeaning(m.results, InfoCheck(r));
    assert forall x :: x in m.results ==> x.id != "" by { hide AllowedStatus, ValidPolicy; }
    if p.coverage.required {
      forall c | ChecksCoverage(p, m, r, c) ensures c in CoverageSection(p, m).checks {
        CoverageChecksMeaning(p, m, m.results, c);
        OutcomeListed(CoverageOutcomes(p, m, m.results), c);
        hide CoverageOutcomes, ChecksCoverage;
      }
    }
    hide InputsReady, Ready, ReportOf, ThresholdSection, RegressionSection, ReliabilitySection, CoverageSection;
    hide Diagnostics, ChecksCoverage, InfoCheck;
  }

  lemma OutcomeListed(outcomes: seq<Outcome>, c: Check)
    requires exists o :: o in outcomes && o.check == c
    ensures c in FromOutcomes(outcomes).checks
  {
    var o :| o in outcomes && o.check == c;
    var k :| 0 <= k < |outcomes| && outcomes[k] == o;
    assert ChecksOf(outcomes)[k] == c;
  }

  /** The reliability check: no grade for a failed run, else a warning below the minimum level. */
  ghost predicate ChecksReliability(p: Policy, m: Summary, c: Check)
  {
    && c.category == CollectionReliability
    && c.status == if CollectionOrEvaluationFailed(m) then CheckNoGrade
                   else if !ReliableEnough(p, m) then CheckWarn else CheckPass
  }

  lemma ReliabilitySectionCheck(p: Policy, m: Summary) returns (c: Check)
    ensures ReliabilitySection(p, m).checks == [c] && ChecksReliability(p, m, c)
  {
    FailedMeaning(m);
    ReliabilityMeaning(p, m);
    hide RunFailed, TooUnreliable, CollectionOrEvaluationFailed, ReliableEnough;
    c := ReliabilitySection(p, m).checks[0];
  }

  /** The report carries the reliability check. */
  lemma ReliabilityCheckMeaning(i: Inputs) returns (c: Check)
    requires InputsReady(i)
    ensures c in ReportOf(i).checks && ChecksReliability(i.policy.value, i.measurement.value, c)
  {
    ReadyMeaning(i);
    ReportChecks(i);
    c := ReliabilitySectionCheck(i.policy.value, i.measurement.value);
    hide InputsReady, Ready, ReportOf, ThresholdSection, RegressionSection, CoverageSection, Diagnostics;
    hide ChecksReliability, ReliabilitySection;
  }

  // ----- the statuses -----

  /** The run failed or stays below the minimum level. */
  predicate TooLittleMeasured(i: Inputs)
  {
    InputsReady(i) &&
    (CollectionOrEvaluationFailed(i.measurement.value) || !ReliableEnough(i.policy.value, i.measurement.value))
  }

  /** What the report says of its inputs. */
  lemma StatusesMeaning(i: Inputs)
    ensures var r := ReportOf(i);
      && (r.policyStatus == PolicyMissing <==> i.policy.NotFound?)
      && (r.policyStatus == PolicyOK <==> i.policy.Decoded? && ValidPolicy(i.policy.value))
      && (r.measurementStatus == MeasurementMissing <==> i.measurement.NotFound?)
      && (r.measurementStatus == MeasurementUnsupported <==>
           i.measurement.Decoded? && i.measurement.value.schemaVersion !in ["slo.v3", "slo.v4"])
      && (r.measurementStatus == MeasurementInsufficient <==> TooLittleMeasured(i))
      && (r.measurementStatus == MeasurementOK ==>
           i.measurement.Decoded? && ValidSummary(i.measurement.value))
      && (r.baselineStatus == AbsentFirstRun <==> !i.baselineGiven)
      && (r.baselineStatus == Unavailable <==> i.baselineGiven && i.baseline.NotFound?)
      && (r.baselineStatus == Present <==>
           i.baselineGiven && i.baseline.Decoded? && ValidSummary(i.baseline.value))
  {
    ReadyMeaning(i);
    if InputsReady(i) {
      FailedMeaning(i.measurement.value);
      ReliabilityMeaning(i.policy.value, i.measurement.value);
    }
    hide ValidPolicy, AllowedStatus, UniqueIDs, ValidReliability, RunFailed, TooUnreliable, ReliableEnough;
    hide CollectionOrEvaluationFailed, SectionsOf, AllReasons, AllChecks, InputReasons, GradeOf, EvaluationStatusOf;
  }
}
