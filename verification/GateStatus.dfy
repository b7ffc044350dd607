/** The evaluation status of a report: it says exactly whether something asked for could not be graded. */
module GateStatus {
  import opened GoStrings
  import opened Summaries
  import opened Policies
  import opened Evidence
  import opened Gate
  import opened GateProperties

  predicate Ungraded(checks: seq<Check>)
  {
    exists c :: c in checks && c.status == CheckNoGrade
  }

  lemma ThresholdStatus(rule: ThresholdRule, evidence: Sufficiency, promoted: bool)
    requires rule.value.Some?
    ensures var o := ThresholdOutcome(rule, evidence, promoted); o.check.status == CheckNoGrade ==> o.noGrade
  {
    hide CompareOp;
  }

  lemma RegressionStatus(
    rule: ThresholdRule, cur: Sufficiency, base: Sufficiency, comparable: bool, tolerance: real, promoted: bool)
    ensures var o := RegressionOutcome(rule, cur, base, comparable, tolerance, promoted);
      o.check.status == CheckNoGrade ==> o.noGrade
  {
    hide IsRegression, DeltaPct, HigherIsBetter;
  }

  lemma OutcomesUngraded(all: seq<Outcome>)
    requires forall o :: o in all && o.check.status == CheckNoGrade ==> o.noGrade
    ensures Ungraded(FromOutcomes(all).checks) ==> FromOutcomes(all).noGrade
  {
    var checks := ChecksOf(all);
    if c :| c in checks && c.status == CheckNoGrade {
      var k :| 0 <= k < |checks| && checks[k] == c;
      assert all[k] in all;
    }
  }

  lemma ThresholdsUngraded(p: Policy, m: Summary)
    requires ValidPolicy(p)
    ensures Ungraded(ThresholdSection(p, m).checks) ==> ThresholdSection(p, m).noGrade
  {
    var all := ThresholdOutcomes(p, m);
    hide ValidPolicy, ThresholdOutcome, SufficiencyOf, Promoted, FromOutcomes;
    forall o | o in all && o.check.status == CheckNoGrade ensures o.noGrade {
      var k :| 0 <= k < |all| && all[k] == o;
      ThresholdStatus(p.thresholds[k], SufficiencyOf(Some(m), p.thresholds[k].metric), Promoted(p, THRESHOLD_MISS));
    }
    OutcomesUngraded(all);
  }

  lemma RegressionsUngraded(p: Policy, m: Summary, b: Option<Summary>, status: BaselineStatus)
    ensures var s := RegressionSection(p, m, b, status); Ungraded(s.checks) ==> s.noGrade
  {
    hide RegressionOutcome, SufficiencyOf, Promoted, FromOutcomes, Comparable, IdentityOf;
    if b.Some? {
      var all := RegressionOutcomes(p, m, b.value);
      forall o | o in all && o.check.status == CheckNoGrade ensures o.noGrade {
        var k :| 0 <= k < |all| && all[k] == o;
        var rule := p.thresholds[k];
        RegressionStatus(rule, SufficiencyOf(Some(m), rule.metric), SufficiencyOf(Some(b.value), rule.metric),
          Comparable(IdentityOf(m, rule.metric), IdentityOf(b.value, rule.metric)),
          p.regression.tolerancePercent, Promoted(p, REGRESSION_DETECTED));
      }
      OutcomesUngraded(all);
    }
    hide RegressionOutcomes, IsTrustCorrect, IsTrustCorrectPolicy;
  }

  lemma {:induction false} CoverageGraded(p: Policy, m: Summary, results: seq<SLIResult>)
    ensures forall o :: o in CoverageOutcomes(p, m, results) ==> o.check.status != CheckNoGrade && !o.noGrade
  {
    hide Promoted, CoverageGap;
    if results != [] {
      CoverageGraded(p, m, results[..|results| - 1]);
    }
  }

  lemma CoverageUngraded(p: Policy, m: Summary)
    ensures !Ungraded(CoverageSection(p, m).checks)
  {
    CoverageGraded(p, m, m.results);
    hide CoverageOutcomes;
    OutcomesUngraded(CoverageOutcomes(p, m, m.results));
  }

  lemma {:induction false} DiagnosticsGraded(results: seq<SLIResult>)
    ensures !Ungraded(Diagnostics(results))
  {
    if results != [] {
      DiagnosticsGraded(results[..|results| - 1]);
    }
  }

  lemma ReliabilityUngraded(p: Policy, m: Summary)
    ensures var s := ReliabilitySection(p, m); s.checks != [] && (Ungraded(s.checks) ==> s.noGrade)
  {
    hide RunFailed, TooUnreliable;
  }

  lemma StatusOfSections(s: Sections, noGrade: bool)
    requires noGrade == (s.thresholds.noGrade || s.regression.noGrade || s.reliability.noGrade)
    requires Ungraded(s.thresholds.checks) ==> s.thresholds.noGrade
    requires Ungraded(s.regression.checks) ==> s.regression.noGrade
    requires Ungraded(s.reliability.checks) ==> s.reliability.noGrade
    requires s.reliability.checks != [] && !Ungraded(s.diagnostics) && !Ungraded(s.coverage.checks)
    ensures EvaluationStatusOf(AllChecks(s), noGrade) == if noGrade then PartiallyEvaluated else Evaluated
  {
    var all := AllChecks(s);
    assert s.reliability.checks[0] in all;
    if c :| c in all && c.status == CheckNoGrade {
      assert c in s.thresholds.checks || c in s.regression.checks || c in s.reliability.checks ||
        c in s.diagnostics || c in s.coverage.checks;
    }
  }

  /** Without usable inputs nothing is evaluated; otherwise the evaluation is partial iff something that the
      policy asks for cannot be graded. */
  lemma EvaluationStatusExact(i: Inputs)
    ensures ReportOf(i).evaluationStatus ==
      if !Ready(i) then NotEvaluated else if Ungradable(i) then PartiallyEvaluated else Evaluated
  {
    if Ready(i) {
      var p, m := i.policy.value, i.measurement.value;
      ReadyValid(i);
      SectionsUngraded(i);
      FlagsUngradable(i);
      ReportStatus(i);
      hide *;
      var s := SectionsOf(i);
      StatusOfSections(s, s.thresholds.noGrade || s.regression.noGrade || s.reliability.noGrade);
    }
  }

  lemma ReportStatus(i: Inputs)
    requires Ready(i)
    ensures var s := SectionsOf(i);
      ReportOf(i).evaluationStatus ==
        EvaluationStatusOf(AllChecks(s), s.thresholds.noGrade || s.regression.noGrade || s.reliability.noGrade)
  {
    hide Ready, SectionsOf, AllReasons, InputReasons, GradeOf, EvaluationStatusOf, MeasurementStatusAfter, AllChecks;
  }

  lemma SectionsUngraded(i: Inputs)
    requires Ready(i)
    ensures var s := SectionsOf(i);
      && (Ungraded(s.thresholds.checks) ==> s.thresholds.noGrade)
      && (Ungraded(s.regression.checks) ==> s.regression.noGrade)
      && (Ungraded(s.reliability.checks) ==> s.reliability.noGrade)
      && s.reliability.checks != [] && !Ungraded(s.diagnostics) && !Ungraded(s.coverage.checks)
  {
    var p, m := i.policy.value, i.measurement.value;
    ReadyValid(i);
    ThresholdsUngraded(p, m);
    RegressionsUngraded(p, m, BaselineOf(i), BaselineStatusOf(i));
    ReliabilityUngraded(p, m);
    CoverageUngraded(p, m);
    DiagnosticsGraded(m.results);
    hide ThresholdSection, RegressionSection, ReliabilitySection, CoverageSection, Diagnostics, Ungraded;
    hide Ready, BaselineOf, BaselineStatusOf, ValidPolicy, ValidSummary;
  }

  lemma FlagsUngradable(i: Inputs)
    requires Ready(i)
    ensures var s := SectionsOf(i);
      (s.thresholds.noGrade || s.regression.noGrade || s.reliability.noGrade) <==> Ungradable(i)
  {
    var p, m := i.policy.value, i.measurement.value;
    ReadyValid(i);
    ThresholdFlags(p, m);
    RegressionFlags(i);
    ReliabilityFlags(p, m);
    GradableBaseline(i);
    hide ThresholdSection, RegressionSection, CoverageSection, ReliabilitySection, Promoted, Diagnostics, Ready;
    hide SomeMiss, SomeOpen, SomeRegressed, SomeIncomparable, RunFailed, TooUnreliable, RegressionGradable;
    hide BaselineStatusOf, BaselineOf, ValidPolicy, ValidSummary;
  }
}
