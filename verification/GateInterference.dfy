/**
 What the producer of a measurement cannot influence: the verdicts and texts it attaches to its results
 reach the report only as diagnostics.
 */
module GateInterference {
  import opened GoStrings
  import opened Summaries
  import opened Policies
  import opened Evidence
  import opened Gate

  /** The results agree on every fact that the gate may grade by; status, reason, title, unit, kind,
      description and the list of used inputs are free, as long as both statuses are valid or neither is. */
  predicate SameFacts(a: SLIResult, b: SLIResult)
  {
    && a.id == b.id && a.value == b.value && a.inputsMissing == b.inputsMissing && a.comparability == b.comparability
    && (AllowedStatus(a.status) <==> AllowedStatus(b.status))
  }

  predicate SameMeasurements(a: Summary, b: Summary)
  {
    && a.schemaVersion == b.schemaVersion && a.generated == b.generated && a.reliability == b.reliability
    && |a.results| == |b.results|
    && forall i :: 0 <= i < |a.results| ==> SameFacts(a.results[i], b.results[i])
  }

  predicate SameLoaded(a: Loaded<Summary>, b: Loaded<Summary>)
  {
    if a.Decoded? && b.Decoded? then SameMeasurements(a.value, b.value) else a == b
  }

  /** The checks that may support a grade. */
  function Graded(checks: seq<Check>): seq<Check>
  {
    if checks == [] then [] else
    var n := |checks| - 1;
    if checks[n].category == MeasurementDiagnostic then Graded(checks[..n]) else Graded(checks[..n]) + [checks[n]]
  }

  // ----- the same evidence -----

  lemma {:induction false} SameRecord(a: seq<SLIResult>, b: seq<SLIResult>, id: string)
    requires |a| == |b| && forall i :: 0 <= i < |a| ==> SameFacts(a[i], b[i])
    ensures LastRecord(a, id).None? <==> LastRecord(b, id).None?
    ensures LastRecord(a, id).Some? ==> SameFacts(LastRecord(a, id).value, LastRecord(b, id).value)
  {
    hide AllowedStatus;
    if a != [] {
      var n := |a| - 1;
      SameRecord(a[..n], b[..n], id);
      assert SameFacts(a[n], b[n]);
    }
  }

  lemma SameEvidence(a: Summary, b: Summary, id: string)
    requires SameMeasurements(a, b)
    ensures SufficiencyOf(Some(a), id) == SufficiencyOf(Some(b), id)
    ensures IdentityOf(a, id) == IdentityOf(b, id)
  {
    hide AllowedStatus;
    SameRecord(a.results, b.results, id);
  }

  lemma SameValidity(a: Summary, b: Summary)
    requires SameMeasurements(a, b)
    ensures ValidSummary(a) <==> ValidSummary(b)
  {
    hide AllowedStatus, ValidReliability, SupportedSchema;
    forall x, y | SameMeasurements(x, y) && ValidSummary(x) && {x, y} == {a, b} ensures ValidSummary(y) {
      forall r | r in y.results ensures r.id != "" && AllowedStatus(r.status) {
        var i :| 0 <= i < |y.results| && y.results[i] == r;
        assert SameFacts(x.results[i], r) && x.results[i] in x.results;
      }
      forall i, j | 0 <= i < j < |y.results| ensures y.results[i].id != y.results[j].id {
        assert SameFacts(x.results[i], y.results[i]) && SameFacts(x.results[j], y.results[j]);
      }
    }
    assert SameMeasurements(b, a) by {
      forall i | 0 <= i < |a.results| ensures SameFacts(b.results[i], a.results[i]) {
        assert SameFacts(a.results[i], b.results[i]);
      }
    }
    assert {a, b} == {b, a};
  }

  // ----- the same sections -----

  lemma SameThresholds(p: Policy, a: Summary, b: Summary)
    requires ValidPolicy(p) && SameMeasurements(a, b)
    ensures ThresholdSection(p, a) == ThresholdSection(p, b)
  {
    hide ValidPolicy, SufficiencyOf, SameMeasurements, FromOutcomes, Promoted, ThresholdOutcome;
    var x, y := ThresholdOutcomes(p, a), ThresholdOutcomes(p, b);
    forall i | 0 <= i < |x| ensures x[i] == y[i] {
      SameEvidence(a, b, p.thresholds[i].metric);
    }
    assert x == y;
  }

  lemma SameRegressions(p: Policy, a: Summary, b: Summary, base1: Summary, base2: Summary)
    requires SameMeasurements(a, b) && SameMeasurements(base1, base2)
    ensures RegressionOutcomes(p, a, base1) == RegressionOutcomes(p, b, base2)
  {
    hide SufficiencyOf, SameMeasurements, Promoted, RegressionOutcome, Comparable, IdentityOf;
    forall i | 0 <= i < |p.thresholds|
      ensures RuleRegression(p, a, base1, p.thresholds[i]) == RuleRegression(p, b, base2, p.thresholds[i])
    {
      SameEvidence(a, b, p.thresholds[i].metric);
      SameEvidence(base1, base2, p.thresholds[i].metric);
    }
  }

  lemma {:induction false} SameCoverage(p: Policy, a: Summary, b: Summary, n: nat)
    requires SameMeasurements(a, b) && n <= |a.results|
    ensures CoverageOutcomes(p, a, a.results[..n]) == CoverageOutcomes(p, b, b.results[..n])
  {
    hide SufficiencyOf, Promoted, Covered, AllowedStatus;
    if n > 0 {
      SameCoverage(p, a, b, n - 1);
      assert a.results[..n][..n - 1] == a.results[..n - 1] && b.results[..n][..n - 1] == b.results[..n - 1];
      assert SameFacts(a.results[n - 1], b.results[n - 1]);
      SameEvidence(a, b, a.results[n - 1].id);
    }
  }

  // ----- the same checks -----

  lemma {:induction false} GradedPlus(a: seq<Check>, b: seq<Check>)
    ensures Graded(a + b) == Graded(a) + Graded(b)
  {
    if b == [] {
      assert a + b == a;
    } else {
      var n := |b| - 1;
      GradedPlus(a, b[..n]);
      assert (a + b)[..|a + b| - 1] == a + b[..n];
    }
  }

  lemma {:induction false} DiagnosticsUngraded(results: seq<SLIResult>)
    ensures Graded(Diagnostics(results)) == []
    ensures forall c :: c in Diagnostics(results) ==> c.status == CheckInfo
  {
    if results != [] {
      var n := |results| - 1;
      DiagnosticsUngraded(results[..n]);
      var front, one := Diagnostics(results[..n]), [Diagnostic(results[n])];
      GradedPlus(front, one);
      assert one[..0] == [] && front + [] == front;
    }
  }

  lemma GradedChecks(s: Sections, diagnostics: seq<Check>)
    requires Graded(s.diagnostics) == [] && Graded(diagnostics) == []
    ensures Graded(AllChecks(s)) == Graded(AllChecks(s.(diagnostics := diagnostics)))
  {
    hide Graded;
    var front := s.thresholds.checks + s.regression.checks + s.reliability.checks;
    GradedPlus(front, s.diagnostics);
    GradedPlus(front, diagnostics);
    GradedPlus(front + s.diagnostics, s.coverage.checks);
    GradedPlus(front + diagnostics, s.coverage.checks);
  }

  /** Diagnostics alone never decide the evaluation status: the reliability check is always there. */
  lemma SameEvaluationStatus(s: Sections, diagnostics: seq<Check>, noGrade: bool)
    requires s.reliability.checks != []
    requires forall c :: c in s.diagnostics || c in diagnostics ==> c.status == CheckInfo
    ensures EvaluationStatusOf(AllChecks(s), noGrade) ==
      EvaluationStatusOf(AllChecks(s.(diagnostics := diagnostics)), noGrade)
  {
    var x, y := AllChecks(s), AllChecks(s.(diagnostics := diagnostics));
    assert s.reliability.checks[0] in x && s.reliability.checks[0] in y;
    assert forall c: Check :: c.status == CheckNoGrade ==> (c in x <==> c in y);
  }

  // ----- the theorem -----

  lemma SameSections(i: Inputs, j: Inputs)
    requires i.policy == j.policy && i.baselineGiven == j.baselineGiven
    requires SameLoaded(i.measurement, j.measurement) && SameLoaded(i.baseline, j.baseline)
    requires Ready(i) && Ready(j)
    ensures SectionsOf(j) == SectionsOf(i).(diagnostics := Diagnostics(j.measurement.value.results))
  {
    var p, a, b := i.policy.value, i.measurement.value, j.measurement.value;
    SameStatuses(i, j);
    SameThresholds(p, a, b);
    SameCoverage(p, a, b, |a.results|);
    assert a.results[..|a.results|] == a.results && b.results[..|b.results|] == b.results;
    SameRegressionSection(p, a, b, BaselineOf(i), BaselineOf(j), BaselineStatusOf(i));
    hide ThresholdOutcomes, CoverageOutcomes, FromOutcomes, RegressionSection, LoadStatus, ValidPolicy, SameFacts;
    hide RunFailed, TooUnreliable, BaselineStatusOf, CollectionStatus, ThresholdSection, SameMeasurements, BaselineOf;
    hide Ready, SameLoaded, ReliabilitySection, Diagnostics;
    SameReliability(p, a, b);
  }

  lemma SameRegressionSection(
    p: Policy, a: Summary, b: Summary, base1: Option<Summary>, base2: Option<Summary>, status: BaselineStatus)
    requires SameMeasurements(a, b)
    requires base1.Some? <==> base2.Some?
    requires base1.Some? ==> SameMeasurements(base1.value, base2.value)
    ensures RegressionSection(p, a, base1, status) == RegressionSection(p, b, base2, status)
  {
    if base1.Some? {
      SameRegressions(p, a, b, base1.value, base2.value);
    }
    hide FromOutcomes, RegressionOutcomes, SameFacts, IsTrustCorrectPolicy;
  }

  lemma SameReliability(p: Policy, a: Summary, b: Summary)
    requires a.reliability == b.reliability
    ensures ReliabilitySection(p, a) == ReliabilitySection(p, b)
    ensures MeasurementStatusAfter(p, a, MeasurementOK) == MeasurementStatusAfter(p, b, MeasurementOK)
  {
    hide FailedStatus, ReliabilityRank, RequiredRank;
  }

  lemma SameStatuses(i: Inputs, j: Inputs)
    requires i.policy == j.policy && i.baselineGiven == j.baselineGiven
    requires SameLoaded(i.measurement, j.measurement) && SameLoaded(i.baseline, j.baseline)
    ensures LoadStatus(i.measurement) == LoadStatus(j.measurement)
    ensures LoadStatus(i.baseline) == LoadStatus(j.baseline)
    ensures BaselineStatusOf(i) == BaselineStatusOf(j) && PolicyStatusOf(i) == PolicyStatusOf(j)
    ensures BaselineOf(i).Some? <==> BaselineOf(j).Some?
    ensures BaselineOf(i).Some? ==> SameMeasurements(BaselineOf(i).value, BaselineOf(j).value)
  {
    hide ValidSummary, ValidPolicy, SupportedSchema;
    if i.measurement.Decoded? && j.measurement.Decoded? { SameValidity(i.measurement.value, j.measurement.value); }
    if i.baseline.Decoded? && j.baseline.Decoded? { SameValidity(i.baseline.value, j.baseline.value); }
  }

  /** Two measurements, and two baselines, with the same facts get the same report, up to diagnostics. */
  lemma ProducerNonInterference(i: Inputs, j: Inputs)
    requires i.policy == j.policy && i.baselineGiven == j.baselineGiven
    requires SameLoaded(i.measurement, j.measurement) && SameLoaded(i.baseline, j.baseline)
    ensures var x, y := ReportOf(i), ReportOf(j);
      x.(checks := Graded(x.checks)) == y.(checks := Graded(y.checks))
  {
    SameStatuses(i, j);
    if Ready(i) {
      SameSections(i, j);
      SameReports(i, j);
    }
    hide LoadStatus, BaselineStatusOf, ValidPolicy, SectionsOf, AllChecks, AllReasons, PolicyReasons;
    hide MeasurementReasons;
    hide BaselineReasons, AddReasons, EvaluationStatusOf, MeasurementStatusAfter, GradeOf, Graded;
  }

  lemma SameReports(i: Inputs, j: Inputs)
    requires i.policy == j.policy && Ready(i) && Ready(j)
    requires SameLoaded(i.measurement, j.measurement)
    requires SectionsOf(j) == SectionsOf(i).(diagnostics := Diagnostics(j.measurement.value.results))
    ensures var s, t := SectionsOf(i), SectionsOf(j);
      && Graded(AllChecks(s)) == Graded(AllChecks(t))
      && AllReasons(InputReasons(i), s) == AllReasons(InputReasons(i), t)
      && forall noGrade :: EvaluationStatusOf(AllChecks(s), noGrade) == EvaluationStatusOf(AllChecks(t), noGrade)
    ensures MeasurementStatusAfter(i.policy.value, i.measurement.value, MeasurementOK) ==
      MeasurementStatusAfter(j.policy.value, j.measurement.value, MeasurementOK)
  {
    var p, a, b := i.policy.value, i.measurement.value, j.measurement.value;
    DiagnosticsUngraded(a.results);
    DiagnosticsUngraded(b.results);
    SameReliability(p, a, b);
    var s, d := SectionsOf(i), Diagnostics(b.results);
    GradedChecks(s, d);
    hide LoadStatus, ValidPolicy, ThresholdSection, RegressionSection, CoverageSection, Diagnostics, RunFailed;
    hide TooUnreliable, CollectionStatus, Graded, SameFacts, AllChecks, EvaluationStatusOf, AddReasons;
    forall noGrade
      ensures EvaluationStatusOf(AllChecks(s), noGrade) ==
        EvaluationStatusOf(AllChecks(s.(diagnostics := d)), noGrade)
    {
      SameEvaluationStatus(s, d, noGrade);
    }
  }
}
