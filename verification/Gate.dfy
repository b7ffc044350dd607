/**
 The gate (pkg/gate): thresholds, regression against a baseline, reliability, coverage and producer
 diagnostics, and how they add up to a result.  Numbers are exact reals.
 */
module Gate {
  import opened GoStrings
  import opened Summaries
  import opened Policies
  import opened Evidence

  datatype Grade = PASS | WARN | FAIL | NO_GRADE

  datatype EvaluationStatus = Evaluated | PartiallyEvaluated | NotEvaluated

  datatype MeasurementStatus =
    | MeasurementOK | MeasurementMissing | MeasurementCorrupt | MeasurementInsufficient | MeasurementUnsupported

  datatype BaselineStatus = Present | AbsentFirstRun | Unavailable | Corrupt

  datatype PolicyStatus = PolicyOK | PolicyMissing | PolicyInvalid

  datatype CheckStatus = CheckPass | CheckWarn | CheckFail | CheckNoGrade | CheckInfo

  datatype Category = Threshold | Regression | CollectionReliability | Coverage | MeasurementDiagnostic

  datatype Observed = Nothing | Number(value: real) | Text(text: string)

  datatype Check = Check(name: string, category: Category, status: CheckStatus, metric: string, observed: Observed)

  /** One check with the reasons and flags it raises. */
  datatype Outcome = Outcome(check: Check, reasons: seq<Reason>, failed: bool, warn: bool, noGrade: bool)

  /** What one section of the evaluation adds to the report. */
  datatype Section = Section(reasons: seq<Reason>, checks: seq<Check>, failed: bool, warn: bool, noGrade: bool)

  // ----- reasons -----

  function AddReason(reasons: seq<Reason>, code: Reason): seq<Reason>
  {
    if code in reasons then reasons else reasons + [code]
  }

  function AddReasons(reasons: seq<Reason>, codes: seq<Reason>): seq<Reason>
  {
    if codes == [] then reasons
    else AddReason(AddReasons(reasons, codes[..|codes| - 1]), codes[|codes| - 1])
  }

  lemma {:induction false} AddReasonsTwice(reasons: seq<Reason>, a: seq<Reason>, b: seq<Reason>)
    ensures AddReasons(reasons, a + b) == AddReasons(AddReasons(reasons, a), b)
  {
    if b == [] {
      assert a + b == a;
    } else {
      var n := |b| - 1;
      AddReasonsTwice(reasons, a, b[..n]);
      assert (a + b)[..|a + b| - 1] == a + b[..n];
    }
  }

  // ----- sections made of outcomes -----

  function ReasonsOf(outcomes: seq<Outcome>): seq<Reason>
  {
    if outcomes == [] then []
    else ReasonsOf(outcomes[..|outcomes| - 1]) + outcomes[|outcomes| - 1].reasons
  }

  function ChecksOf(outcomes: seq<Outcome>): seq<Check>
  {
    seq(|outcomes|, i requires 0 <= i < |outcomes| => outcomes[i].check)
  }

  function FromOutcomes(outcomes: seq<Outcome>): Section
  {
    Section(ReasonsOf(outcomes), ChecksOf(outcomes),
      exists o :: o in outcomes && o.failed,
      exists o :: o in outcomes && o.warn,
      exists o :: o in outcomes && o.noGrade)
  }

  function Plus(s: Section, o: Outcome): Section
  {
    Section(s.reasons + o.reasons, s.checks + [o.check],
      s.failed || o.failed, s.warn || o.warn, s.noGrade || o.noGrade)
  }

  lemma FromOutcomesNext(outcomes: seq<Outcome>, i: nat)
    requires i < |outcomes|
    ensures FromOutcomes(outcomes[..i + 1]) == Plus(FromOutcomes(outcomes[..i]), outcomes[i])
  {
    var a, b := outcomes[..i], outcomes[..i + 1];
    assert b == a + [outcomes[i]] && b[..i] == a;
    assert forall o :: o in b <==> o in a || o == outcomes[i];
  }

  // ----- single checks -----

  function ThresholdOutcome(rule: ThresholdRule, evidence: Sufficiency, promoted: bool): Outcome
    requires rule.value.Some?
  {
    var name := if rule.name == "" then "unnamed-threshold" else rule.name;
    var check := Check(name, Threshold, CheckNoGrade, rule.metric, Nothing);
    match evidence
    case Insufficient(reason) => Outcome(check, [reason], false, false, true)
    case Sufficient(v) =>
      var seen := check.(observed := Number(v));
      match CompareOp(v, rule.operator, rule.value.value)
      case None => Outcome(seen, [PolicyIsInvalid], false, false, true)
      case Some(true) => Outcome(seen.(status := CheckPass), [], false, false, false)
      case Some(false) => Outcome(seen.(status := CheckFail), [ThresholdMiss], promoted, !promoted, false)
  }

  function Abs(x: real): real
  {
    if x < 0.0 then -x else x
  }

  /** `deltaPct` away from its infinite case: percentage change from base to cur. */
  function DeltaPct(cur: real, base: real): real
    requires base == 0.0 ==> cur == 0.0
  {
    if base == 0.0 then 0.0 else ((cur - base) / Abs(base)) * 100.0
  }

  predicate IsRegression(d: real, tolerance: real, operator: string)
  {
    if LowerIsBetter(operator) then d > tolerance
    else if HigherIsBetter(operator) then d < -tolerance
    else Abs(d) > tolerance
  }

  function RegressionOutcome(
    rule: ThresholdRule, cur: Sufficiency, base: Sufficiency, comparable: bool, tolerance: real, promoted: bool)
    : Outcome
  {
    var check := Check("regression:" + rule.metric, Regression, CheckNoGrade, rule.metric, Nothing);
    if cur.Insufficient? || base.Insufficient? then Outcome(check, [EvidenceInsufficient], false, false, true)
    else if !comparable then Outcome(check, [BaselineIncomparable], false, false, true)
    else if base.value == 0.0 && cur.value != 0.0 then
      var seen := check.(observed := Text("baseline_zero_current_nonzero"));
      if HigherIsBetter(rule.operator) then Outcome(seen.(status := CheckPass), [], false, false, false)
      else Outcome(seen.(status := CheckFail), [RegressionDetected], promoted, !promoted, false)
    else
      var d := DeltaPct(cur.value, base.value);
      var seen := check.(observed := Number(d));
      if IsRegression(d, tolerance, rule.operator)
      then Outcome(seen.(status := CheckFail), [RegressionDetected], promoted, !promoted, false)
      else Outcome(seen.(status := CheckPass), [], false, false, false)
  }

  function CoverageOutcome(r: SLIResult, promoted: bool): Outcome
    requires r.value.Some?
  {
    var check := Check("coverage:" + r.id, Coverage, if promoted then CheckFail else CheckWarn,
      r.id, Number(r.value.value));
    Outcome(check, [CoverageGapFound], promoted, !promoted, false)
  }

  function Diagnostic(r: SLIResult): Check
  {
    Check("measurement-diagnostic:" + r.id, MeasurementDiagnostic, CheckInfo, r.id,
      if r.value.Some? then Number(r.value.value) else Nothing)
  }

  // ----- sections -----

  function RuleThreshold(p: Policy, m: Summary, rule: ThresholdRule): Outcome
    requires rule.value.Some?
  {
    ThresholdOutcome(rule, SufficiencyOf(Some(m), rule.metric), Promoted(p, THRESHOLD_MISS))
  }

  function ThresholdOutcomes(p: Policy, m: Summary): (r: seq<Outcome>)
    requires ValidPolicy(p)
    ensures |r| == |p.thresholds|
    ensures forall i :: 0 <= i < |r| ==> p.thresholds[i].value.Some? && r[i] == RuleThreshold(p, m, p.thresholds[i])
  {
    assert forall i :: 0 <= i < |p.thresholds| ==> p.thresholds[i] in p.thresholds;
    seq(|p.thresholds|, i requires 0 <= i < |p.thresholds| => RuleThreshold(p, m, p.thresholds[i]))
  }

  function ThresholdSection(p: Policy, m: Summary): Section
    requires ValidPolicy(p)
  {
    FromOutcomes(ThresholdOutcomes(p, m))
  }

  function IdentityOf(s: Summary, id: string): Option<Comparability>
  {
    match LastRecord(s.results, id)
    case None => None
    case Some(r) => r.comparability
  }

  function RuleRegression(p: Policy, m: Summary, b: Summary, rule: ThresholdRule): Outcome
  {
    RegressionOutcome(rule, SufficiencyOf(Some(m), rule.metric), SufficiencyOf(Some(b), rule.metric),
      Comparable(IdentityOf(m, rule.metric), IdentityOf(b, rule.metric)),
      p.regression.tolerancePercent, Promoted(p, REGRESSION_DETECTED))
  }

  function RegressionOutcomes(p: Policy, m: Summary, b: Summary): (r: seq<Outcome>)
    ensures |r| == |p.thresholds|
    ensures forall i :: 0 <= i < |r| ==> r[i] == RuleRegression(p, m, b, p.thresholds[i])
  {
    seq(|p.thresholds|, i requires 0 <= i < |p.thresholds| => RuleRegression(p, m, b, p.thresholds[i]))
  }

  /** Both sides and the policy use the contracts that carry comparability. */
  predicate TrustCorrect(p: Policy, m: Summary, b: Option<Summary>)
  {
    IsTrustCorrectPolicy(p) && IsTrustCorrect(m) && b.Some? && IsTrustCorrect(b.value)
  }

  const NO_SECTION := Section([], [], false, false, false)

  const INCOMPARABLE := Check("regression-comparability", Regression, CheckNoGrade, "*", Nothing)

  function RegressionSection(p: Policy, m: Summary, b: Option<Summary>, baselineStatus: BaselineStatus): Section
  {
    if !p.regression.enabled then NO_SECTION
    else if baselineStatus == AbsentFirstRun then Section([BaselineAbsentFirstRun], [], false, true, false)
    else if baselineStatus == Unavailable || baselineStatus == Corrupt then Section([], [], false, false, true)
    else if !TrustCorrect(p, m, b) then Section([BaselineIncomparable], [INCOMPARABLE], false, false, true)
    else FromOutcomes(RegressionOutcomes(p, m, b.value))
  }

  function CollectionStatus(m: Summary): string
  {
    if m.reliability.Some? then m.reliability.value.collectionStatus else ""
  }

  function ReliabilityRank(status: string): int
  {
    match Lower(TrimSpace(status))
    case "complete" => 2
    case "partial" => 1
    case _ => 0
  }

  function RequiredRank(p: Policy): int
  {
    if Normalized(p.reliability.minLevel) == "complete" then 2 else 1
  }

  predicate TooUnreliable(p: Policy, m: Summary)
  {
    p.reliability.required && ReliabilityRank(CollectionStatus(m)) < RequiredRank(p)
  }

  function ReliabilitySection(p: Policy, m: Summary): Section
  {
    var status := CollectionStatus(m);
    var check := Check("reliability-minimum", CollectionReliability, CheckPass, "reliability.collectionStatus",
      if status == "" then Nothing else Text(status));
    if RunFailed(m) then Section([CollectionFailed], [check.(status := CheckNoGrade)], false, false, true)
    else if TooUnreliable(p, m)
      then Section([ReliabilityInsufficient], [check.(status := CheckWarn)], false, true, false)
    else Section([], [check], false, false, false)
  }

  predicate Covered(p: Policy, id: string)
  {
    id != "" &&
    ((exists r :: r in p.thresholds && TrimSpace(r.metric) == id) ||
     (exists x :: x in p.coverage.informational && TrimSpace(x) == id))
  }

  /** A measured SLI with sufficient evidence that no rule covers. */
  predicate CoverageGap(p: Policy, m: Summary, r: SLIResult)
  {
    && r.value.Some? && r.id != "" && !Covered(p, r.id)
    && SufficiencyOf(Some(m), r.id).Sufficient?
  }

  function CoverageOutcomes(p: Policy, m: Summary, results: seq<SLIResult>): seq<Outcome>
  {
    if results == [] then [] else
    var n := |results| - 1;
    CoverageOutcomes(p, m, results[..n]) +
      (if CoverageGap(p, m, results[n]) then [CoverageOutcome(results[n], Promoted(p, COVERAGE_GAP))] else [])
  }

  function CoverageSection(p: Policy, m: Summary): Section
  {
    if p.coverage.required then FromOutcomes(CoverageOutcomes(p, m, m.results)) else NO_SECTION
  }

  function Diagnostics(results: seq<SLIResult>): seq<Check>
  {
    if results == [] then [] else
    var n := |results| - 1;
    Diagnostics(results[..n]) +
      (if results[n].status == STATUS_PASS || results[n].status == "" then [] else [Diagnostic(results[n])])
  }

  // ----- the whole evaluation -----

  /** What loading an input yields before its contents are checked. */
  datatype Loaded<+T> = NotFound | Unreadable | Decoded(value: T)

  /** `baselineGiven` is false when no baseline path was passed. */
  datatype Inputs = Inputs(
    policy: Loaded<Policy>, measurement: Loaded<Summary>, baselineGiven: bool, baseline: Loaded<Summary>)

  datatype Report = Report(
    gateResult: Grade, evaluationStatus: EvaluationStatus, measurementStatus: MeasurementStatus,
    baselineStatus: BaselineStatus, policyStatus: PolicyStatus, reasons: seq<Reason>, checks: seq<Check>)

  function PolicyStatusOf(i: Inputs): PolicyStatus
  {
    match i.policy
    case NotFound => PolicyMissing
    case Unreadable => PolicyInvalid
    case Decoded(p) => if ValidPolicy(p) then PolicyOK else PolicyInvalid
  }

  function LoadStatus(l: Loaded<Summary>): MeasurementStatus
  {
    match l
    case NotFound => MeasurementMissing
    case Unreadable => MeasurementCorrupt
    case Decoded(s) =>
      if !SupportedSchema(s.schemaVersion) then MeasurementUnsupported
      else if ValidSummary(s) then MeasurementOK
      else MeasurementCorrupt
  }

  lemma LoadStatusRange(l: Loaded<Summary>)
    ensures LoadStatus(l) != MeasurementInsufficient
  {
    hide ValidSummary, SupportedSchema;
  }

  function BaselineStatusOf(i: Inputs): BaselineStatus
  {
    if !i.baselineGiven then AbsentFirstRun
    else if LoadStatus(i.baseline) == MeasurementMissing then Unavailable
    else if LoadStatus(i.baseline) == MeasurementOK then Present
    else Corrupt
  }

  function PolicyReasons(status: PolicyStatus): seq<Reason>
  {
    match status
    case PolicyMissing => [PolicyIsMissing]
    case PolicyInvalid => [PolicyIsInvalid]
    case PolicyOK => []
  }

  function MeasurementReasons(status: MeasurementStatus): seq<Reason>
  {
    match status
    case MeasurementMissing => [MeasurementInputMissing]
    case MeasurementCorrupt => [MeasurementInputCorrupt]
    case MeasurementUnsupported => [MeasurementSchemaUnsupported]
    case _ => []
  }

  function BaselineReasons(status: BaselineStatus): seq<Reason>
  {
    match status
    case Unavailable => [BaselineUnavailable]
    case Corrupt => [BaselineIsCorrupt]
    case _ => []
  }

  function InputReasons(i: Inputs): seq<Reason>
  {
    AddReasons(AddReasons(AddReasons([], PolicyReasons(PolicyStatusOf(i))),
      MeasurementReasons(LoadStatus(i.measurement))), BaselineReasons(BaselineStatusOf(i)))
  }

  /** The baseline as the evaluation sees it: only a valid one. */
  function BaselineOf(i: Inputs): Option<Summary>
  {
    if i.baselineGiven && LoadStatus(i.baseline) == MeasurementOK then Some(i.baseline.value) else None
  }

  predicate Ready(i: Inputs)
  {
    PolicyStatusOf(i) == PolicyOK && LoadStatus(i.measurement) == MeasurementOK
  }

  datatype Sections = Sections(
    thresholds: Section, regression: Section, reliability: Section, diagnostics: seq<Check>, coverage: Section)

  function SectionsOf(i: Inputs): Sections
    requires Ready(i)
  {
    var p, m := i.policy.value, i.measurement.value;
    Sections(ThresholdSection(p, m), RegressionSection(p, m, BaselineOf(i), BaselineStatusOf(i)),
      ReliabilitySection(p, m), Diagnostics(m.results), CoverageSection(p, m))
  }

  function GradeOf(failed: bool, warn: bool, noGrade: bool, baselineStatus: BaselineStatus, regression: bool): Grade
  {
    if failed then FAIL
    else if noGrade then NO_GRADE
    else if warn then WARN
    else if baselineStatus == AbsentFirstRun && regression then WARN
    else PASS
  }

  function EvaluationStatusOf(checks: seq<Check>, noGrade: bool): EvaluationStatus
  {
    if checks == [] then NotEvaluated
    else if noGrade || exists c :: c in checks && c.status == CheckNoGrade then PartiallyEvaluated
    else Evaluated
  }

  function AllReasons(start: seq<Reason>, s: Sections): seq<Reason>
  {
    AddReasons(AddReasons(AddReasons(AddReasons(start,
      s.thresholds.reasons), s.regression.reasons), s.reliability.reasons), s.coverage.reasons)
  }

  function AllChecks(s: Sections): seq<Check>
  {
    s.thresholds.checks + s.regression.checks + s.reliability.checks + s.diagnostics + s.coverage.checks
  }

  function ReportOf(i: Inputs): Report
  {
    if !Ready(i) then
      Report(NO_GRADE, NotEvaluated, LoadStatus(i.measurement), BaselineStatusOf(i), PolicyStatusOf(i),
        InputReasons(i), [])
    else
      var s := SectionsOf(i);
      var p, m := i.policy.value, i.measurement.value;
      var failed := s.thresholds.failed || s.regression.failed || s.coverage.failed;
      var noGrade := s.thresholds.noGrade || s.regression.noGrade || s.reliability.noGrade;
      var warn := s.regression.warn || s.reliability.warn || s.thresholds.warn || s.coverage.warn;
      var checks := AllChecks(s);
      Report(
        GradeOf(failed, warn, noGrade, BaselineStatusOf(i), p.regression.enabled),
        EvaluationStatusOf(checks, noGrade),
        MeasurementStatusAfter(p, m, MeasurementOK),
        BaselineStatusOf(i), PolicyOK, AllReasons(InputReasons(i), s), checks)
  }

  // ----- building the report -----

  /** The report with what a section adds. */
  function With(r: Report, s: Section): Report
  {
    r.(reasons := AddReasons(r.reasons, s.reasons), checks := r.checks + s.checks)
  }

  function WithChecks(r: Report, checks: seq<Check>): Report
  {
    r.(checks := r.checks + checks)
  }

  function MeasurementStatusAfter(p: Policy, m: Summary, before: MeasurementStatus): MeasurementStatus
  {
    if RunFailed(m) || TooUnreliable(p, m) then MeasurementInsufficient else before
  }

  function WithReliability(r: Report, p: Policy, m: Summary): Report
  {
    With(r.(measurementStatus := MeasurementStatusAfter(p, m, r.measurementStatus)), ReliabilitySection(p, m))
  }

  lemma ReportChain(r: Report, p: Policy, m: Summary, s: Sections)
    requires s.reliability == ReliabilitySection(p, m)
    ensures
      With(WithChecks(WithReliability(With(With(r, s.thresholds), s.regression), p, m), s.diagnostics), s.coverage)
      == r.(measurementStatus := MeasurementStatusAfter(p, m, r.measurementStatus),
            reasons := AllReasons(r.reasons, s), checks := r.checks + AllChecks(s))
  {
    hide AddReasons, ReliabilitySection, MeasurementStatusAfter;
    var t, g, l := s.thresholds.checks, s.regression.checks, s.reliability.checks;
    var d, c := s.diagnostics, s.coverage.checks;
    assert r.checks + t + g + l + d + c == r.checks + (t + g + l + d + c);
  }
}
