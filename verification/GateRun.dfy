/** The gate as it runs: one report object that every section extends in place (pkg/gate). */
module GateRun {
  import opened GoStrings
  import opened Summaries
  import opened Policies
  import opened Evidence
  import opened Gate

  const FRESH_REPORT := Report(NO_GRADE, NotEvaluated, MeasurementOK, AbsentFirstRun, PolicyOK, [], [])

  class GateSummary {
    var gateResult: Grade
    var evaluationStatus: EvaluationStatus
    var measurementStatus: MeasurementStatus
    var baselineStatus: BaselineStatus
    var policyStatus: PolicyStatus
    var reasons: seq<Reason>
    var checks: seq<Check>

    constructor ()
      ensures Value() == FRESH_REPORT
    {
      gateResult, evaluationStatus := NO_GRADE, NotEvaluated;
      measurementStatus, baselineStatus, policyStatus := MeasurementOK, AbsentFirstRun, PolicyOK;
      reasons, checks := [], [];
    }

    function Value(): Report
      reads this
    {
      Report(gateResult, evaluationStatus, measurementStatus, baselineStatus, policyStatus, reasons, checks)
    }

    /** The report is `start` with the reasons and checks of `s` added and nothing else changed. */
    ghost predicate Extends(start: Report, s: Section)
      reads this
    {
      Value() == With(start, s)
    }

    /** `addReason`. */
    method AddCode(code: Reason)
      modifies this`reasons
      ensures reasons == AddReason(old(reasons), code)
    {
      for i := 0 to |reasons|
        invariant reasons == old(reasons)
        invariant code !in reasons[..i]
      {
        assert reasons[..i + 1] == reasons[..i] + [reasons[i]];
        if reasons[i] == code {
          return;
        }
      }
      assert reasons[..|reasons|] == reasons;
      reasons := reasons + [code];
    }

    method AddCodes(codes: seq<Reason>)
      modifies this`reasons
      ensures reasons == AddReasons(old(reasons), codes)
    {
      for i := 0 to |codes|
        invariant reasons == AddReasons(old(reasons), codes[..i])
      {
        assert codes[..i + 1][..i] == codes[..i];
        AddCode(codes[i]);
      }
      assert codes[..|codes|] == codes;
    }

    /** Adds the reasons and the check of one outcome, as every loop over checks does. */
    method Record(o: Outcome, ghost start: Report, ghost s: Section)
      requires Extends(start, s)
      modifies this`reasons, this`checks
      ensures Extends(start, Plus(s, o))
    {
      AddReasonsTwice(start.reasons, s.reasons, o.reasons);
      AddCodes(o.reasons);
      checks := checks + [o.check];
    }

    method RunThresholds(p: Policy, m: Summary, ev: EvidenceIndex, promote: set<string>)
      returns (failed: bool, warn: bool, noGrade: bool)
      requires ValidPolicy(p) && Indexes(ev, Some(m)) && forall v :: v in promote <==> Promoted(p, v)
      modifies this
      ensures var s := ThresholdSection(p, m);
        Extends(old(Value()), s) && failed == s.failed && warn == s.warn && noGrade == s.noGrade
    {
      hide Promoted, SufficiencyOf, ThresholdOutcome, Indexes, Extends, FromOutcomes, ValidPolicy;
      failed, warn, noGrade := false, false, false;
      ghost var all, start := ThresholdOutcomes(p, m), Value();
      ExtendsByNothing(all);
      for i := 0 to |p.thresholds|
        invariant var s := FromOutcomes(all[..i]);
          Extends(start, s) && failed == s.failed && warn == s.warn && noGrade == s.noGrade
      {
        var rule := p.thresholds[i];
        IndexAnswers(ev, Some(m), rule.metric);
        var o := ThresholdOutcome(rule, ValueSufficient(ev, rule.metric), THRESHOLD_MISS in promote);
        FromOutcomesNext(all, i);
        failed, warn, noGrade := failed || o.failed, warn || o.warn, noGrade || o.noGrade;
        Record(o, start, FromOutcomes(all[..i]));
      }
      assert all[..|all|] == all;
    }

    lemma ExtendsByNothing(all: seq<Outcome>)
      ensures all[..0] == [] && FromOutcomes(all[..0]) == NO_SECTION && Extends(Value(), NO_SECTION)
    {
      assert all[..0] == [];
    }

    method CompareRules(p: Policy, m: Summary, b: Summary, promote: set<string>)
      returns (failed: bool, warn: bool, noGrade: bool)
      requires ValidPolicy(p) && forall v :: v in promote <==> Promoted(p, v)
      modifies this
      ensures var s := FromOutcomes(RegressionOutcomes(p, m, b));
        Extends(old(Value()), s) && failed == s.failed && warn == s.warn && noGrade == s.noGrade
    {
      hide Promoted, SufficiencyOf, RegressionOutcome, Comparable, ValidPolicy, Extends, FromOutcomes, Indexes;
      hide IdentityOf;
      failed, warn, noGrade := false, false, false;
      var curEv := NewEvidenceIndex(Some(m));
      var baseEv := NewEvidenceIndex(Some(b));
      var curCmp := ComparabilityIndex(m);
      var baseCmp := ComparabilityIndex(b);
      ghost var all, start := RegressionOutcomes(p, m, b), Value();
      ExtendsByNothing(all);
      for i := 0 to |p.thresholds|
        invariant var s := FromOutcomes(all[..i]);
          Extends(start, s) && failed == s.failed && warn == s.warn && noGrade == s.noGrade
      {
        var rule := p.thresholds[i];
        NamedMetric(p, i);
        if rule.metric == "" {
          continue;
        }
        IndexAnswers(curEv, Some(m), rule.metric);
        IndexAnswers(baseEv, Some(b), rule.metric);
        IdentityFound(m, rule.metric, curCmp);
        IdentityFound(b, rule.metric, baseCmp);
        var comparable := ComparabilityEqual(Lookup(curCmp, rule.metric), Lookup(baseCmp, rule.metric));
        var o := RegressionOutcome(rule, ValueSufficient(curEv, rule.metric), ValueSufficient(baseEv, rule.metric),
          comparable, p.regression.tolerancePercent, REGRESSION_DETECTED in promote);
        FromOutcomesNext(all, i);
        failed, warn, noGrade := failed || o.failed, warn || o.warn, noGrade || o.noGrade;
        Record(o, start, FromOutcomes(all[..i]));
      }
      assert all[..|all|] == all;
    }

    method RunRegression(p: Policy, m: Summary, b: Option<Summary>, promote: set<string>)
      returns (failed: bool, warn: bool, noGrade: bool)
      requires ValidPolicy(p) && forall v :: v in promote <==> Promoted(p, v)
      modifies this
      ensures var s := RegressionSection(p, m, b, old(baselineStatus));
        Extends(old(Value()), s) && failed == s.failed && warn == s.warn && noGrade == s.noGrade
    {
      hide Promoted, FromOutcomes, RuleRegression, ValidPolicy, IsTrustCorrect, IsTrustCorrectPolicy;
      if !p.regression.enabled {
        return false, false, false;
      }
      match baselineStatus
      case AbsentFirstRun =>
        AddCodes([BaselineAbsentFirstRun]);
        return false, true, false;
      case Unavailable => return false, false, true;
      case Corrupt => return false, false, true;
      case Present =>
      if !TrustCorrect(p, m, b) {
        AddCodes([BaselineIncomparable]);
        checks := checks + [INCOMPARABLE];
        return false, false, true;
      }
      failed, warn, noGrade := CompareRules(p, m, b.value, promote);
    }

    method RunReliability(p: Policy, m: Summary) returns (warn: bool, noGrade: bool)
      modifies this
      ensures var s := ReliabilitySection(p, m);
        Value() == WithReliability(old(Value()), p, m) && warn == s.warn && noGrade == s.noGrade
    {
      hide RunFailed, TooUnreliable;
      var status := CollectionStatus(m);
      var check := Check("reliability-minimum", CollectionReliability, CheckPass, "reliability.collectionStatus",
        if status == "" then Nothing else Text(status));
      if RunFailed(m) {
        check := check.(status := CheckNoGrade);
        AddCodes([CollectionFailed]);
        measurementStatus := MeasurementInsufficient;
        checks := checks + [check];
        return false, true;
      }
      warn := false;
      if TooUnreliable(p, m) {
        check := check.(status := CheckWarn);
        AddCodes([ReliabilityInsufficient]);
        measurementStatus := MeasurementInsufficient;
        warn := true;
      }
      checks := checks + [check];
      return warn, false;
    }

    method RecordProducerDiagnostics(m: Summary)
      modifies this`checks
      ensures Value() == WithChecks(old(Value()), Diagnostics(m.results))
    {
      for i := 0 to |m.results|
        invariant checks == old(checks) + Diagnostics(m.results[..i])
      {
        var r := m.results[i];
        assert m.results[..i + 1][..i] == m.results[..i];
        if r.status == STATUS_PASS || r.status == "" {
          continue;
        }
        checks := checks + [Diagnostic(r)];
      }
      assert m.results[..|m.results|] == m.results;
    }

    method RunCoverage(p: Policy, m: Summary, ev: EvidenceIndex, promote: set<string>)
      returns (failed: bool, warn: bool)
      requires Indexes(ev, Some(m)) && forall v :: v in promote <==> Promoted(p, v)
      modifies this
      ensures var s := CoverageSection(p, m);
        Extends(old(Value()), s) && failed == s.failed && warn == s.warn
    {
      hide Promoted, SufficiencyOf, Indexes, Covered, Extends, FromOutcomes;
      failed, warn := false, false;
      ExtendsByNothing([]);
      if !p.coverage.required {
        return;
      }
      var covered := CoveredIDs(p);
      ghost var start := Value();
      for i := 0 to |m.results|
        invariant var s := FromOutcomes(CoverageOutcomes(p, m, m.results[..i]));
          Extends(start, s) && failed == s.failed && warn == s.warn
      {
        var r := m.results[i];
        CoverageNext(p, m, i);
        if r.value.None? || r.id == "" || r.id in covered {
          continue;
        }
        IndexAnswers(ev, Some(m), r.id);
        if ValueSufficient(ev, r.id).Insufficient? {
          continue;
        }
        var o := CoverageOutcome(r, COVERAGE_GAP in promote);
        failed, warn := failed || o.failed, warn || o.warn;
        Record(o, start, FromOutcomes(CoverageOutcomes(p, m, m.results[..i])));
      }
      assert m.results[..|m.results|] == m.results;
    }

    method InitPolicy(i: Inputs)
      modifies this
      ensures Value() == old(Value()).(
        policyStatus := if PolicyStatusOf(i) == PolicyOK then old(policyStatus) else PolicyStatusOf(i),
        reasons := AddReasons(old(reasons), PolicyReasons(PolicyStatusOf(i))))
    {
      hide PolicyStatusOf;
      match PolicyStatusOf(i) {
        case PolicyMissing =>
          policyStatus := PolicyMissing;
          AddCodes([PolicyIsMissing]);
        case PolicyInvalid =>
          policyStatus := PolicyInvalid;
          AddCodes([PolicyIsInvalid]);
        case PolicyOK =>
      }
    }

    method InitMeasurement(i: Inputs)
      modifies this
      ensures Value() == old(Value()).(
        measurementStatus := if LoadStatus(i.measurement) == MeasurementOK then old(measurementStatus)
                             else LoadStatus(i.measurement),
        reasons := AddReasons(old(reasons), MeasurementReasons(LoadStatus(i.measurement))))
    {
      LoadStatusRange(i.measurement);
      hide LoadStatus;
      match LoadStatus(i.measurement) {
        case MeasurementMissing =>
          measurementStatus := MeasurementMissing;
          AddCodes([MeasurementInputMissing]);
        case MeasurementCorrupt =>
          measurementStatus := MeasurementCorrupt;
          AddCodes([MeasurementInputCorrupt]);
        case MeasurementUnsupported =>
          measurementStatus := MeasurementUnsupported;
          AddCodes([MeasurementSchemaUnsupported]);
        case _ =>
      }
    }

    method InitBaseline(i: Inputs)
      requires baselineStatus == AbsentFirstRun
      modifies this
      ensures Value() == old(Value()).(
        baselineStatus := BaselineStatusOf(i),
        reasons := AddReasons(old(reasons), BaselineReasons(BaselineStatusOf(i))))
    {
      hide LoadStatus;
      if !i.baselineGiven {
        return;
      }
      match LoadStatus(i.baseline) {
        case MeasurementMissing =>
          baselineStatus := Unavailable;
          AddCodes([BaselineUnavailable]);
        case MeasurementOK =>
          baselineStatus := Present;
        case _ =>
          baselineStatus := Corrupt;
          AddCodes([BaselineIsCorrupt]);
      }
    }

    /** The five sections, in order. */
    method RunSections(i: Inputs, p: Policy, m: Summary) returns (failed: bool, warn: bool, noGrade: bool)
      requires Ready(i) && p == i.policy.value && m == i.measurement.value
      requires baselineStatus == BaselineStatusOf(i)
      modifies this
      ensures var s := SectionsOf(i);
        && Value() == old(Value()).(
             measurementStatus := MeasurementStatusAfter(p, m, old(measurementStatus)),
             reasons := AllReasons(old(reasons), s), checks := old(checks) + AllChecks(s))
        && failed == (s.thresholds.failed || s.regression.failed || s.coverage.failed)
        && noGrade == (s.thresholds.noGrade || s.regression.noGrade || s.reliability.noGrade)
        && warn == (s.regression.warn || s.reliability.warn || s.thresholds.warn || s.coverage.warn)
    {
      ghost var s := SectionsOf(i);
      ReadyDecodes(i);
      assert s.thresholds == ThresholdSection(p, m) && s.reliability == ReliabilitySection(p, m);
      assert s.regression == RegressionSection(p, m, BaselineOf(i), baselineStatus);
      assert s.diagnostics == Diagnostics(m.results) && s.coverage == CoverageSection(p, m);
      var ev := NewEvidenceIndex(Some(m));
      var promote := MakePromotionSet(p);
      hide With, WithReliability, WithChecks, AllReasons, AllChecks, MeasurementStatusAfter, SectionsOf, Promoted;
      hide Indexes;
      hide ThresholdSection, RegressionSection, ReliabilitySection, Diagnostics, CoverageSection, ValidPolicy, Ready;
      hide BaselineOf, BaselineStatusOf;
      ReportChain(Value(), p, m, s);
      var tFailed, tWarn, tNoGrade := RunThresholds(p, m, ev, promote);
      var rFailed, rWarn, rNoGrade := RunRegression(p, m, BaselineOf(i), promote);
      var relWarn, relNoGrade := RunReliability(p, m);
      RecordProducerDiagnostics(m);
      var covFailed, covWarn := RunCoverage(p, m, ev, promote);
      failed, noGrade := tFailed || rFailed || covFailed, tNoGrade || rNoGrade || relNoGrade;
      warn := rWarn || relWarn || tWarn || covWarn;
    }

    /** `Evaluate`, from the decoded inputs on. */
    method Evaluate(i: Inputs)
      requires Value() == FRESH_REPORT
      modifies this
      ensures Value() == ReportOf(i)
    {
      hide PolicyStatusOf, LoadStatus, BaselineStatusOf, AddReasons, SectionsOf, RunFailed, TooUnreliable;
      InitPolicy(i);
      InitMeasurement(i);
      InitBaseline(i);
      if policyStatus != PolicyOK || measurementStatus != MeasurementOK {
        return;
      }
      ReadyDecodes(i);
      var p, m := i.policy.value, i.measurement.value;
      var failed, warn, noGrade := RunSections(i, p, m);
      evaluationStatus := EvaluationStatusOf(checks, noGrade);
      gateResult := GradeOf(failed, warn, noGrade, baselineStatus, p.regression.enabled);
    }
  }

  lemma ReadyDecodes(i: Inputs)
    requires Ready(i)
    ensures i.policy.Decoded? && i.measurement.Decoded?
    ensures ValidPolicy(i.policy.value) && ValidSummary(i.measurement.value)
  {
    hide ValidSummary, SupportedSchema, ValidPolicy;
  }

  lemma NamedMetric(p: Policy, i: nat)
    requires ValidPolicy(p) && i < |p.thresholds|
    ensures p.thresholds[i].metric != ""
  {
    assert p.thresholds[i] in p.thresholds;
    assert TrimSpace("") == "";
  }

  function Lookup(m: map<string, Option<Comparability>>, id: string): Option<Comparability>
  {
    if id in m then m[id] else None
  }

  ghost predicate IndexesIdentities(s: Summary, m: map<string, Option<Comparability>>)
  {
    && (forall id :: id in m <==> LastRecord(s.results, id).Some?)
    && (forall id :: id in m ==> m[id] == IdentityOf(s, id))
  }

  lemma IdentityFound(s: Summary, id: string, m: map<string, Option<Comparability>>)
    requires IndexesIdentities(s, m)
    ensures Lookup(m, id) == IdentityOf(s, id)
  {
  }

  method ComparabilityIndex(s: Summary) returns (m: map<string, Option<Comparability>>)
    ensures IndexesIdentities(s, m)
  {
    m := map[];
    for i := 0 to |s.results|
      invariant forall id :: id in m <==> LastRecord(s.results[..i], id).Some?
      invariant forall id :: id in m ==> m[id] == LastRecord(s.results[..i], id).value.comparability
    {
      assert s.results[..i + 1][..i] == s.results[..i];
      m := m[s.results[i].id := s.results[i].comparability];
    }
    assert s.results[..|s.results|] == s.results;
  }

  lemma CoverageNext(p: Policy, m: Summary, i: nat)
    requires i < |m.results|
    ensures var before, after := CoverageOutcomes(p, m, m.results[..i]), CoverageOutcomes(p, m, m.results[..i + 1]);
      if CoverageGap(p, m, m.results[i])
      then FromOutcomes(after) == Plus(FromOutcomes(before), CoverageOutcome(m.results[i], Promoted(p, COVERAGE_GAP)))
      else after == before
  {
    hide CoverageGap, FromOutcomes, Promoted;
    assert m.results[..i + 1][..i] == m.results[..i];
    if CoverageGap(p, m, m.results[i]) {
      var before, after := CoverageOutcomes(p, m, m.results[..i]), CoverageOutcomes(p, m, m.results[..i + 1]);
      var n := |before|;
      assert after[..n] == before && after[..n + 1] == after;
      FromOutcomesNext(after, n);
    }
  }

  method CoveredIDs(p: Policy) returns (covered: set<string>)
    ensures forall id :: id in covered <==> Covered(p, id)
  {
    hide TrimSpace;
    covered := {};
    for i := 0 to |p.thresholds|
      invariant forall id :: id in covered <==>
        id != "" && exists j :: 0 <= j < i && TrimSpace(p.thresholds[j].metric) == id
    {
      var metric := TrimSpace(p.thresholds[i].metric);
      if metric != "" {
        covered := covered + {metric};
      }
    }
    var informational: set<string> := {};
    var names := p.coverage.informational;
    for i := 0 to |names|
      invariant forall id :: id in informational <==> id != "" && exists j :: 0 <= j < i && TrimSpace(names[j]) == id
    {
      var id := TrimSpace(names[i]);
      if id != "" {
        informational := informational + {id};
      }
    }
    CoveredIndices(p);
    covered := covered + informational;
  }

  lemma CoveredIndices(p: Policy)
    ensures forall id :: Covered(p, id) <==>
      (id != "" &&
       ((exists j :: 0 <= j < |p.thresholds| && TrimSpace(p.thresholds[j].metric) == id) ||
        (exists j :: 0 <= j < |p.coverage.informational| && TrimSpace(p.coverage.informational[j]) == id)))
  {
    hide TrimSpace;
    forall id | Covered(p, id)
      ensures (exists j :: 0 <= j < |p.thresholds| && TrimSpace(p.thresholds[j].metric) == id) ||
        (exists j :: 0 <= j < |p.coverage.informational| && TrimSpace(p.coverage.informational[j]) == id)
    {
      if r :| r in p.thresholds && TrimSpace(r.metric) == id {
        var j :| 0 <= j < |p.thresholds| && p.thresholds[j] == r;
      } else {
        var x :| x in p.coverage.informational && TrimSpace(x) == id;
        var j :| 0 <= j < |p.coverage.informational| && p.coverage.informational[j] == x;
      }
    }
    forall j | 0 <= j < |p.thresholds| && TrimSpace(p.thresholds[j].metric) != ""
      ensures Covered(p, TrimSpace(p.thresholds[j].metric))
    {
      assert p.thresholds[j] in p.thresholds;
    }
    forall j | 0 <= j < |p.coverage.informational| && TrimSpace(p.coverage.informational[j]) != ""
      ensures Covered(p, TrimSpace(p.coverage.informational[j]))
    {
      assert p.coverage.informational[j] in p.coverage.informational;
    }
  }
}
