/** What the grade means: exact conditions for each result, and what cannot influence it. */
module GateProperties {
  import opened GoStrings
  import opened Summaries
  import opened Policies
  import opened Evidence
  import opened Gate

  // ----- the conditions in declarative form -----

  /** There is sufficient evidence and it satisfies the rule. */
  ghost predicate RuleHolds(m: Summary, rule: ThresholdRule)
  {
    var e := SufficiencyOf(Some(m), rule.metric);
    rule.value.Some? && e.Sufficient? && CompareOp(e.value, rule.operator, rule.value.value) == Some(true)
  }

  /** There is sufficient evidence and it violates the rule. */
  ghost predicate RuleMisses(m: Summary, rule: ThresholdRule)
  {
    var e := SufficiencyOf(Some(m), rule.metric);
    rule.value.Some? && e.Sufficient? && CompareOp(e.value, rule.operator, rule.value.value) == Some(false)
  }

  /** The current value is not worse than the baseline by more than the tolerance, a percentage of the
      magnitude of the baseline, in the direction that the operator implies. */
  predicate WithinTolerance(operator: string, cur: real, base: real, tolerance: real)
  {
    var slack := tolerance * Abs(base);
    if LowerIsBetter(operator) then 100.0 * (cur - base) <= slack
    else if HigherIsBetter(operator) then 100.0 * (base - cur) <= slack
    else 100.0 * Abs(cur - base) <= slack
  }

  /** The rule the code applies: against a zero baseline a non-zero value passes exactly when higher is
      better. */
  predicate Unregressed(operator: string, cur: real, base: real, tolerance: real)
  {
    if base == 0.0 then cur == 0.0 || HigherIsBetter(operator)
    else WithinTolerance(operator, cur, base, tolerance)
  }

  /** Both sides have sufficient evidence under one complete identity. */
  ghost predicate ComparableEvidence(m: Summary, b: Summary, id: string)
  {
    && SufficiencyOf(Some(m), id).Sufficient? && SufficiencyOf(Some(b), id).Sufficient?
    && Comparable(IdentityOf(m, id), IdentityOf(b, id))
  }

  ghost predicate RuleUnregressed(p: Policy, m: Summary, b: Summary, rule: ThresholdRule)
  {
    ComparableEvidence(m, b, rule.metric) &&
    Unregressed(rule.operator, SufficiencyOf(Some(m), rule.metric).value, SufficiencyOf(Some(b), rule.metric).value,
      p.regression.tolerancePercent)
  }

  ghost predicate RuleRegressed(p: Policy, m: Summary, b: Summary, rule: ThresholdRule)
  {
    ComparableEvidence(m, b, rule.metric) &&
    !Unregressed(rule.operator, SufficiencyOf(Some(m), rule.metric).value, SufficiencyOf(Some(b), rule.metric).value,
      p.regression.tolerancePercent)
  }

  ghost predicate RegressionGradable(i: Inputs, p: Policy, m: Summary)
  {
    BaselineStatusOf(i) == Present && TrustCorrect(p, m, BaselineOf(i))
  }

  ghost predicate HasGap(p: Policy, m: Summary)
  {
    exists r :: r in m.results && CoverageGap(p, m, r)
  }

  ghost predicate PassCondition(i: Inputs)
  {
    Ready(i) &&
    var p, m := i.policy.value, i.measurement.value;
    && !RunFailed(m)
    && (forall rule :: rule in p.thresholds ==> RuleHolds(m, rule))
    && (p.reliability.required ==> ReliabilityRank(CollectionStatus(m)) >= RequiredRank(p))
    && (p.coverage.required ==>
         forall r :: r in m.results && SufficiencyOf(Some(m), r.id).Sufficient? ==> Covered(p, r.id))
    && (p.regression.enabled ==>
         && RegressionGradable(i, p, m)
         && forall rule :: rule in p.thresholds ==> RuleUnregressed(p, m, BaselineOf(i).value, rule))
  }

  ghost predicate SomeMiss(p: Policy, m: Summary)
  {
    exists rule :: rule in p.thresholds && RuleMisses(m, rule)
  }

  ghost predicate SomeOpen(p: Policy, m: Summary)
  {
    exists rule :: rule in p.thresholds && SufficiencyOf(Some(m), rule.metric).Insufficient?
  }

  ghost predicate SomeRegressed(p: Policy, m: Summary, b: Summary)
  {
    exists rule :: rule in p.thresholds && RuleRegressed(p, m, b, rule)
  }

  ghost predicate SomeIncomparable(p: Policy, m: Summary, b: Summary)
  {
    exists rule :: rule in p.thresholds && !ComparableEvidence(m, b, rule.metric)
  }

  /** A condition that the policy promotes to FAIL is met. */
  ghost predicate FailCondition(i: Inputs)
  {
    Ready(i) &&
    var p, m := i.policy.value, i.measurement.value;
    || (Promoted(p, THRESHOLD_MISS) && SomeMiss(p, m))
    || (Promoted(p, REGRESSION_DETECTED) && p.regression.enabled && RegressionGradable(i, p, m) &&
        SomeRegressed(p, m, BaselineOf(i).value))
    || (Promoted(p, COVERAGE_GAP) && p.coverage.required && HasGap(p, m))
  }

  /** Something that the policy asks for cannot be graded. */
  ghost predicate Ungradable(i: Inputs)
  {
    !Ready(i) ||
    var p, m := i.policy.value, i.measurement.value;
    || RunFailed(m)
    || SomeOpen(p, m)
    || (p.regression.enabled && BaselineStatusOf(i) != AbsentFirstRun &&
        (!RegressionGradable(i, p, m) || SomeIncomparable(p, m, BaselineOf(i).value)))
  }

  // ----- from checks to conditions -----

  lemma ScaledQuotient(x: real, a: real, t: real)
    requires a > 0.0
    ensures (x / a) * 100.0 > t <==> 100.0 * x > t * a
    ensures (x / a) * 100.0 < t <==> 100.0 * x < t * a
  {
    var q := x / a;
    assert q * a == x;
    if q * 100.0 > t {
      assert (q * 100.0 - t) * a > 0.0;
    } else if q * 100.0 < t {
      assert (t - q * 100.0) * a > 0.0;
    }
    assert (q * 100.0 - t) * a == 100.0 * x - t * a;
  }

  /** The percentage comparison of the code, without the division. */
  lemma RegressionMeaning(operator: string, cur: real, base: real, tolerance: real)
    requires tolerance >= 0.0 && base != 0.0
    ensures IsRegression(DeltaPct(cur, base), tolerance, operator) <==> !WithinTolerance(operator, cur, base, tolerance)
  {
    hide LowerIsBetter, HigherIsBetter;
    var a := Abs(base);
    ScaledQuotient(cur - base, a, tolerance);
    ScaledQuotient(cur - base, a, -tolerance);
    assert (-tolerance) * a == -(tolerance * a);
  }

  /** Away from a negative value against a zero baseline the rule of the code is the tolerance rule; there
      it is the opposite for every operator with a direction. */
  lemma ZeroBaselineRule(operator: string, cur: real, base: real, tolerance: real)
    requires tolerance >= 0.0
    ensures Unregressed(operator, cur, base, tolerance) == WithinTolerance(operator, cur, base, tolerance)
      <==> !(base == 0.0 && cur < 0.0 && (LowerIsBetter(operator) || HigherIsBetter(operator)))
  {
    OneDirection(operator);
    hide LowerIsBetter, HigherIsBetter;
  }

  lemma OneDirection(operator: string)
    ensures !(LowerIsBetter(operator) && HigherIsBetter(operator))
  {
  }

  /** For example, falling from 0 to -1 passes a rule for which higher is better, and fails one for which
      lower is better. */
  lemma ZeroBaselineCounterexample()
    ensures Unregressed(">=", -1.0, 0.0, 0.0) && !WithinTolerance(">=", -1.0, 0.0, 0.0)
    ensures !Unregressed("<=", -1.0, 0.0, 0.0) && WithinTolerance("<=", -1.0, 0.0, 0.0)
  {
    assert TrimSpace(">=") == ">=" by { TrimSpaceKeeps(">="); }
    assert TrimSpace("<=") == "<=" by { TrimSpaceKeeps("<="); }
  }

  lemma ThresholdFlags(p: Policy, m: Summary)
    requires ValidPolicy(p)
    ensures var s, promoted := ThresholdSection(p, m), Promoted(p, THRESHOLD_MISS);
      && s.failed == (promoted && SomeMiss(p, m))
      && s.warn == (!promoted && SomeMiss(p, m))
      && s.noGrade == SomeOpen(p, m)
  {
    hide SufficiencyOf, Promoted, CompareOp;
    var all := ThresholdOutcomes(p, m);
    forall i | 0 <= i < |all|
      ensures (all[i].failed || all[i].warn) <==> RuleMisses(m, p.thresholds[i])
      ensures all[i].failed ==> Promoted(p, THRESHOLD_MISS)
      ensures all[i].warn ==> !Promoted(p, THRESHOLD_MISS)
      ensures all[i].noGrade <==> SufficiencyOf(Some(m), p.thresholds[i].metric).Insufficient?
    {
      assert p.thresholds[i] in p.thresholds;
      ValidRuleCompares(p, m, p.thresholds[i]);
    }
    OutcomeFlags(all, p.thresholds, (rule: ThresholdRule) => RuleMisses(m, rule), Promoted(p, THRESHOLD_MISS),
      (rule: ThresholdRule) => SufficiencyOf(Some(m), rule.metric).Insufficient?);
  }

  lemma ValidRuleCompares(p: Policy, m: Summary, rule: ThresholdRule)
    requires ValidPolicy(p) && rule in p.thresholds
    ensures rule.value.Some?
    ensures SufficiencyOf(Some(m), rule.metric).Sufficient? ==>
      CompareOp(SufficiencyOf(Some(m), rule.metric).value, rule.operator, rule.value.value).Some?
  {
    hide SufficiencyOf;
    var e := SufficiencyOf(Some(m), rule.metric);
    if e.Sufficient? { SupportedOperatorCompares(e.value, rule.operator, rule.value.value); }
  }

  /** The flags of a list of outcomes, one per rule. */
  lemma OutcomeFlags(
    all: seq<Outcome>, rules: seq<ThresholdRule>, bad: ThresholdRule -> bool, promoted: bool,
    open: ThresholdRule -> bool)
    requires |all| == |rules|
    requires forall i :: 0 <= i < |all| ==> ((all[i].failed || all[i].warn) <==> bad(rules[i]))
    requires forall i :: 0 <= i < |all| ==> (all[i].failed ==> promoted) && (all[i].warn ==> !promoted)
    requires forall i :: 0 <= i < |all| ==> (all[i].noGrade <==> open(rules[i]))
    ensures var s := FromOutcomes(all);
      && (s.failed <==> promoted && exists rule :: rule in rules && bad(rule))
      && (s.warn <==> !promoted && exists rule :: rule in rules && bad(rule))
      && (s.noGrade <==> exists rule :: rule in rules && open(rule))
  {
    if rule :| rule in rules && bad(rule) {
      var i :| 0 <= i < |rules| && rules[i] == rule;
      assert all[i] in all;
    }
    if rule :| rule in rules && open(rule) {
      var i :| 0 <= i < |rules| && rules[i] == rule;
      assert all[i] in all;
    }
    if o :| o in all && (o.failed || o.warn) {
      var i :| 0 <= i < |all| && all[i] == o;
      assert rules[i] in rules;
    }
    if o :| o in all && o.noGrade {
      var i :| 0 <= i < |all| && all[i] == o;
      assert rules[i] in rules;
    }
  }

  lemma RegressionCheckMeaning(p: Policy, m: Summary, b: Summary, rule: ThresholdRule)
    requires ValidPolicy(p)
    ensures var o := RuleRegression(p, m, b, rule);
      && ((o.failed || o.warn) <==> RuleRegressed(p, m, b, rule))
      && (o.failed ==> Promoted(p, REGRESSION_DETECTED)) && (o.warn ==> !Promoted(p, REGRESSION_DETECTED))
      && (o.noGrade <==> !ComparableEvidence(m, b, rule.metric))
  {
    hide SufficiencyOf, Promoted, Comparable, IdentityOf, LowerIsBetter, HigherIsBetter;
    var cur, base := SufficiencyOf(Some(m), rule.metric), SufficiencyOf(Some(b), rule.metric);
    if cur.Sufficient? && base.Sufficient? && base.value != 0.0 {
      RegressionMeaning(rule.operator, cur.value, base.value, p.regression.tolerancePercent);
    }
  }

  lemma RuleRegressionFlags(p: Policy, m: Summary, b: Summary)
    requires ValidPolicy(p)
    ensures var s, promoted := FromOutcomes(RegressionOutcomes(p, m, b)), Promoted(p, REGRESSION_DETECTED);
      && s.failed == (promoted && SomeRegressed(p, m, b))
      && s.warn == (!promoted && SomeRegressed(p, m, b))
      && s.noGrade == SomeIncomparable(p, m, b)
  {
    hide Promoted, RuleRegressed, ComparableEvidence, RuleRegression, ValidPolicy;
    var all := RegressionOutcomes(p, m, b);
    forall k | 0 <= k < |all|
      ensures var o := all[k];
        && ((o.failed || o.warn) <==> RuleRegressed(p, m, b, p.thresholds[k]))
        && (o.failed ==> Promoted(p, REGRESSION_DETECTED)) && (o.warn ==> !Promoted(p, REGRESSION_DETECTED))
        && (o.noGrade <==> !ComparableEvidence(m, b, p.thresholds[k].metric))
    {
      RegressionCheckMeaning(p, m, b, p.thresholds[k]);
    }
    OutcomeFlags(all, p.thresholds, (rule: ThresholdRule) => RuleRegressed(p, m, b, rule),
      Promoted(p, REGRESSION_DETECTED), (rule: ThresholdRule) => !ComparableEvidence(m, b, rule.metric));
  }

  lemma RegressionFlags(i: Inputs)
    requires Ready(i)
    ensures var p, m := i.policy.value, i.measurement.value;
      var s, promoted := RegressionSection(p, m, BaselineOf(i), BaselineStatusOf(i)), Promoted(p, REGRESSION_DETECTED);
      var regressed := p.regression.enabled && RegressionGradable(i, p, m) && SomeRegressed(p, m, BaselineOf(i).value);
      var first := p.regression.enabled && BaselineStatusOf(i) == AbsentFirstRun;
      && s.failed == (promoted && regressed)
      && s.warn == (first || (!promoted && regressed))
      && s.noGrade == (p.regression.enabled && BaselineStatusOf(i) != AbsentFirstRun &&
           (!RegressionGradable(i, p, m) || SomeIncomparable(p, m, BaselineOf(i).value)))
  {
    var p, m := i.policy.value, i.measurement.value;
    ReadyValid(i);
    var b := BaselineOf(i);
    if b.Some? { RuleRegressionFlags(p, m, b.value); }
    BaselinePresence(i);
    hide *;
    RegressionFlagsOf(i, p, m, b, BaselineStatusOf(i));
  }

  lemma BaselinePresence(i: Inputs)
    ensures BaselineOf(i).Some? <==> BaselineStatusOf(i) == Present
  {
    hide ValidSummary, SupportedSchema;
  }

  lemma RegressionFlagsOf(i: Inputs, p: Policy, m: Summary, b: Option<Summary>, status: BaselineStatus)
    requires b == BaselineOf(i) && status == BaselineStatusOf(i)
    requires b.Some? <==> status == Present
    requires b.Some? ==>
      var s, promoted := FromOutcomes(RegressionOutcomes(p, m, b.value)), Promoted(p, REGRESSION_DETECTED);
      && s.failed == (promoted && SomeRegressed(p, m, b.value))
      && s.warn == (!promoted && SomeRegressed(p, m, b.value))
      && s.noGrade == SomeIncomparable(p, m, b.value)
    ensures var s, promoted := RegressionSection(p, m, b, status), Promoted(p, REGRESSION_DETECTED);
      var regressed := p.regression.enabled && RegressionGradable(i, p, m) && SomeRegressed(p, m, b.value);
      var first := p.regression.enabled && status == AbsentFirstRun;
      && s.failed == (promoted && regressed)
      && s.warn == (first || (!promoted && regressed))
      && s.noGrade == (p.regression.enabled && status != AbsentFirstRun &&
           (!RegressionGradable(i, p, m) || SomeIncomparable(p, m, b.value)))
  {
    hide Promoted, SomeRegressed, SomeIncomparable, FromOutcomes, RegressionOutcomes, BaselineOf, BaselineStatusOf;
    hide IsTrustCorrect, IsTrustCorrectPolicy;
  }

  predicate CoverageFlagged(p: Policy, o: Outcome)
  {
    o.failed == Promoted(p, COVERAGE_GAP) && o.warn == !Promoted(p, COVERAGE_GAP) && !o.noGrade
  }

  lemma CoverageOutcomeFlagged(p: Policy, r: SLIResult)
    requires r.value.Some?
    ensures CoverageFlagged(p, CoverageOutcome(r, Promoted(p, COVERAGE_GAP)))
  {
    hide Promoted;
  }

  lemma GapHasValue(p: Policy, m: Summary, r: SLIResult)
    ensures CoverageGap(p, m, r) ==> r.value.Some?
  {
    hide Covered, SufficiencyOf;
  }

  lemma {:induction false} CoverageOutcomesFlags(p: Policy, m: Summary, results: seq<SLIResult>)
    ensures forall o :: o in CoverageOutcomes(p, m, results) ==> CoverageFlagged(p, o)
    ensures CoverageOutcomes(p, m, results) != [] <==> exists r :: r in results && CoverageGap(p, m, r)
  {
    hide Promoted, CoverageGap, CoverageFlagged, CoverageOutcome;
    if results != [] {
      var n := |results| - 1;
      CoverageOutcomesFlags(p, m, results[..n]);
      GapHasValue(p, m, results[n]);
      if CoverageGap(p, m, results[n]) {
        CoverageOutcomeFlagged(p, results[n]);
      }
      MembersOfLast(results);
    }
  }

  lemma MembersOfLast<T>(s: seq<T>)
    requires s != []
    ensures forall x :: x in s <==> x in s[..|s| - 1] || x == s[|s| - 1]
  {
    assert s == s[..|s| - 1] + [s[|s| - 1]];
  }

  lemma CoverageFlags(p: Policy, m: Summary)
    ensures var s := CoverageSection(p, m);
      && (s.failed <==> Promoted(p, COVERAGE_GAP) && p.coverage.required && HasGap(p, m))
      && (s.warn <==> !Promoted(p, COVERAGE_GAP) && p.coverage.required && HasGap(p, m))
  {
    CoverageOutcomesFlags(p, m, m.results);
    hide Promoted, CoverageGap;
    var all := CoverageOutcomes(p, m, m.results);
    if all != [] { assert all[0] in all; }
  }

  lemma GapMeaning(p: Policy, m: Summary)
    requires ValidSummary(m)
    ensures HasGap(p, m) <==>
      exists r :: r in m.results && SufficiencyOf(Some(m), r.id).Sufficient? && !Covered(p, r.id)
  {
    hide Covered, RunFailed, SkippedIDs, AllowedStatus, ValidReliability;
    forall r | r in m.results && SufficiencyOf(Some(m), r.id).Sufficient? ensures r.value.Some? && r.id != "" {
      var i :| 0 <= i < |m.results| && m.results[i] == r;
      LastRecordUnique(m.results, i);
    }
  }

  // ----- the grade -----

  lemma ReadyValid(i: Inputs)
    requires Ready(i)
    ensures ValidPolicy(i.policy.value) && ValidSummary(i.measurement.value)
  {
    hide ValidPolicy, ValidSummary, SupportedSchema;
  }

  /** A rule of a valid policy holds, is missed, or lacks evidence. */
  lemma RulesSplit(p: Policy, m: Summary)
    requires ValidPolicy(p)
    ensures (forall rule :: rule in p.thresholds ==> RuleHolds(m, rule)) <==> !SomeMiss(p, m) && !SomeOpen(p, m)
  {
    forall rule | rule in p.thresholds
      ensures RuleHolds(m, rule) <==> (!RuleMisses(m, rule) && SufficiencyOf(Some(m), rule.metric).Sufficient?)
    {
      ValidRuleCompares(p, m, rule);
      RuleSplit(m, rule);
    }
    hide SufficiencyOf, CompareOp, ValidPolicy, RuleHolds, RuleMisses;
  }

  lemma RuleSplit(m: Summary, rule: ThresholdRule)
    requires rule.value.Some?
    requires SufficiencyOf(Some(m), rule.metric).Sufficient? ==>
      CompareOp(SufficiencyOf(Some(m), rule.metric).value, rule.operator, rule.value.value).Some?
    ensures RuleHolds(m, rule) <==> (!RuleMisses(m, rule) && SufficiencyOf(Some(m), rule.metric).Sufficient?)
  {
    hide SufficiencyOf, CompareOp;
    var e := SufficiencyOf(Some(m), rule.metric);
    if e.Sufficient? {
      var holds := CompareOp(e.value, rule.operator, rule.value.value).value;
      assert holds == true || holds == false;
    }
  }

  lemma RegressionsSplit(p: Policy, m: Summary, b: Summary)
    ensures (forall rule :: rule in p.thresholds ==> RuleUnregressed(p, m, b, rule)) <==>
      !SomeRegressed(p, m, b) && !SomeIncomparable(p, m, b)
  {
    hide ComparableEvidence, Unregressed, SufficiencyOf;
    assert forall rule :: RuleUnregressed(p, m, b, rule) <==>
      (!RuleRegressed(p, m, b, rule) && ComparableEvidence(m, b, rule.metric));
  }

  /** The pass condition in terms of what can go wrong. */
  lemma PassMeaning(i: Inputs)
    requires Ready(i)
    ensures var p, m := i.policy.value, i.measurement.value;
      PassCondition(i) <==>
      (!RunFailed(m) && !SomeMiss(p, m) && !SomeOpen(p, m) && !TooUnreliable(p, m)
       && !(p.coverage.required && HasGap(p, m))
       && (p.regression.enabled ==>
            (RegressionGradable(i, p, m) &&
             !SomeRegressed(p, m, BaselineOf(i).value) && !SomeIncomparable(p, m, BaselineOf(i).value))))
  {
    var p, m := i.policy.value, i.measurement.value;
    ReadyValid(i);
    RulesSplit(p, m);
    GapMeaning(p, m);
    if BaselineOf(i).Some? { RegressionsSplit(p, m, BaselineOf(i).value); }
    hide Ready, SomeMiss, SomeOpen, HasGap, SomeRegressed, SomeIncomparable, RunFailed, RuleHolds, RuleUnregressed;
    hide BaselineOf, BaselineStatusOf, Covered, SufficiencyOf, ValidPolicy, ValidSummary, ReliabilityRank, RequiredRank;
  }

  lemma ReliabilityFlags(p: Policy, m: Summary)
    ensures var s := ReliabilitySection(p, m);
      s.noGrade == RunFailed(m) && s.warn == (!RunFailed(m) && TooUnreliable(p, m))
  {
    hide RunFailed, TooUnreliable;
  }

  /** The four grades, exactly: FAIL iff a promoted condition is met; otherwise NO_GRADE iff something
      required cannot be graded; PASS iff everything holds; WARN in every other case. */
  lemma GradeExact(i: Inputs)
    ensures ReportOf(i).gateResult == FAIL <==> FailCondition(i)
    ensures ReportOf(i).gateResult == NO_GRADE <==> !FailCondition(i) && Ungradable(i)
    ensures ReportOf(i).gateResult == PASS <==> PassCondition(i)
    ensures ReportOf(i).gateResult == WARN <==> !FailCondition(i) && !Ungradable(i) && !PassCondition(i)
  {
    if Ready(i) {
      var p, m := i.policy.value, i.measurement.value;
      ReadyValid(i);
      ThresholdFlags(p, m);
      RegressionFlags(i);
      ReliabilityFlags(p, m);
      CoverageFlags(p, m);
      PassMeaning(i);
      GradableBaseline(i);
      hide Ready, ThresholdSection, RegressionSection, CoverageSection, ReliabilitySection, Promoted, HasGap;
      hide SomeMiss, SomeOpen, SomeRegressed, SomeIncomparable, RunFailed, TooUnreliable, PassCondition;
      hide RegressionGradable, BaselineStatusOf, BaselineOf, AllReasons, AllChecks, InputReasons, Diagnostics;
      hide ValidPolicy, ValidSummary, PolicyStatusOf, LoadStatus;
    }
  }

  lemma GradableBaseline(i: Inputs)
    requires Ready(i)
    ensures RegressionGradable(i, i.policy.value, i.measurement.value) ==>
      BaselineStatusOf(i) == Present && BaselineOf(i).Some?
  {
    hide Ready, BaselineStatusOf, BaselineOf, IsTrustCorrect, IsTrustCorrectPolicy;
  }
}
