/** The reason codes of a report: each one names exactly its cause, and every verdict but PASS has one. */
module GateReasons {
  import opened GoStrings
  import opened Sorting
  import opened Summaries
  import opened Policies
  import opened Evidence
  import opened Gate
  import opened GateProperties

  // ----- the causes -----

  ghost predicate ThresholdCause(p: Policy, m: Summary, c: Reason)
  {
    || (c == ThresholdMiss && SomeMiss(p, m))
    || exists rule :: rule in p.thresholds && SufficiencyOf(Some(m), rule.metric) == Insufficient(c)
  }

  ghost predicate NoEvidence(m: Summary, b: Summary, id: string)
  {
    SufficiencyOf(Some(m), id).Insufficient? || SufficiencyOf(Some(b), id).Insufficient?
  }

  ghost predicate ComparisonCause(p: Policy, m: Summary, b: Summary, c: Reason)
  {
    match c
    case RegressionDetected => SomeRegressed(p, m, b)
    case EvidenceInsufficient => exists rule :: rule in p.thresholds && NoEvidence(m, b, rule.metric)
    case BaselineIncomparable => exists rule ::
      rule in p.thresholds && !NoEvidence(m, b, rule.metric) && !ComparableEvidence(m, b, rule.metric)
    case _ => false
  }

  ghost predicate RegressionCause(p: Policy, m: Summary, b: Option<Summary>, status: BaselineStatus, c: Reason)
  {
    && p.regression.enabled
    && (status == AbsentFirstRun ==> c == BaselineAbsentFirstRun)
    && (status != AbsentFirstRun ==> b.Some?)
    && (status != AbsentFirstRun && TrustCorrect(p, m, b) ==> ComparisonCause(p, m, b.value, c))
    && (status != AbsentFirstRun && !TrustCorrect(p, m, b) ==> c == BaselineIncomparable)
  }

  ghost predicate InputCause(i: Inputs, c: Reason)
  {
    match c
    case PolicyIsMissing => PolicyStatusOf(i) == PolicyMissing
    case PolicyIsInvalid => PolicyStatusOf(i) == PolicyInvalid
    case MeasurementInputMissing => LoadStatus(i.measurement) == MeasurementMissing
    case MeasurementInputCorrupt => LoadStatus(i.measurement) == MeasurementCorrupt
    case MeasurementSchemaUnsupported => LoadStatus(i.measurement) == MeasurementUnsupported
    case BaselineUnavailable => BaselineStatusOf(i) == Unavailable
    case BaselineIsCorrupt => BaselineStatusOf(i) == Corrupt
    case _ => false
  }

  ghost predicate ReliabilityCause(p: Policy, m: Summary, c: Reason)
  {
    || (c == CollectionFailed && RunFailed(m))
    || (c == ReliabilityInsufficient && !RunFailed(m) && TooUnreliable(p, m))
  }

  /** What must be the case for the report to give this reason. */
  ghost predicate Cause(i: Inputs, c: Reason)
  {
    InputCause(i, c) ||
    (Ready(i) &&
     var p, m := i.policy.value, i.measurement.value;
     || ThresholdCause(p, m, c)
     || RegressionCause(p, m, BaselineOf(i), BaselineStatusOf(i), c)
     || ReliabilityCause(p, m, c)
     || (c == CoverageGapFound && p.coverage.required && HasGap(p, m)))
  }

  // ----- lists of reasons -----

  lemma {:induction false} InAddReasons(reasons: seq<Reason>, codes: seq<Reason>, c: Reason)
    ensures c in AddReasons(reasons, codes) <==> c in reasons || c in codes
  {
    if codes != [] {
      var n := |codes| - 1;
      InAddReasons(reasons, codes[..n], c);
      assert codes == codes[..n] + [codes[n]];
    }
  }

  lemma {:induction false} AddReasonsDistinct(reasons: seq<Reason>, codes: seq<Reason>)
    requires Distinct(reasons)
    ensures Distinct(AddReasons(reasons, codes))
  {
    if codes != [] {
      AddReasonsDistinct(reasons, codes[..|codes| - 1]);
    }
  }

  lemma {:induction false} InReasonsOf(outcomes: seq<Outcome>, c: Reason)
    ensures c in ReasonsOf(outcomes) <==> exists o :: o in outcomes && c in o.reasons
  {
    if outcomes != [] {
      var n := |outcomes| - 1;
      InReasonsOf(outcomes[..n], c);
      assert outcomes == outcomes[..n] + [outcomes[n]];
    }
  }

  /** The reasons of a list of outcomes, one per rule. */
  lemma RuleReasons(all: seq<Outcome>, rules: seq<ThresholdRule>, c: Reason, cause: ThresholdRule -> bool)
    requires |all| == |rules| && forall k :: 0 <= k < |all| ==> (c in all[k].reasons <==> cause(rules[k]))
    ensures c in ReasonsOf(all) <==> exists rule :: rule in rules && cause(rule)
  {
    InReasonsOf(all, c);
    forall o | o in all && c in o.reasons ensures exists rule :: rule in rules && cause(rule) {
      var k :| 0 <= k < |all| && all[k] == o;
      assert rules[k] in rules;
    }
    forall rule | rule in rules && cause(rule) ensures exists o :: o in all && c in o.reasons {
      var k :| 0 <= k < |rules| && rules[k] == rule;
      assert all[k] in all;
    }
  }

  // ----- the sections -----

  lemma ThresholdReasons(p: Policy, m: Summary, c: Reason)
    requires ValidPolicy(p)
    ensures c in ThresholdSection(p, m).reasons <==> ThresholdCause(p, m, c)
  {
    var all := ThresholdOutcomes(p, m);
    var cause := (rule: ThresholdRule) =>
      (c == ThresholdMiss && RuleMisses(m, rule)) || SufficiencyOf(Some(m), rule.metric) == Insufficient(c);
    hide SufficiencyOf, Promoted, CompareOp, ValidPolicy, RuleMisses;
    forall k | 0 <= k < |all| ensures c in all[k].reasons <==> cause(p.thresholds[k]) {
      assert p.thresholds[k] in p.thresholds;
      OneThresholdReason(p, m, p.thresholds[k], c);
    }
    RuleReasons(all, p.thresholds, c, cause);
  }

  lemma OneThresholdReason(p: Policy, m: Summary, rule: ThresholdRule, c: Reason)
    requires ValidPolicy(p) && rule in p.thresholds && rule.value.Some?
    ensures c in RuleThreshold(p, m, rule).reasons <==>
      (c == ThresholdMiss && RuleMisses(m, rule)) || SufficiencyOf(Some(m), rule.metric) == Insufficient(c)
  {
    ValidRuleCompares(p, m, rule);
    hide SufficiencyOf, Promoted, CompareOp, ValidPolicy;
  }

  lemma OneComparisonReason(p: Policy, m: Summary, b: Summary, rule: ThresholdRule, c: Reason)
    requires ValidPolicy(p)
    ensures c in RuleRegression(p, m, b, rule).reasons <==>
      match c
      case RegressionDetected => RuleRegressed(p, m, b, rule)
      case EvidenceInsufficient => NoEvidence(m, b, rule.metric)
      case BaselineIncomparable => !NoEvidence(m, b, rule.metric) && !ComparableEvidence(m, b, rule.metric)
      case _ => false
  {
    hide SufficiencyOf, Promoted, Comparable, IdentityOf, LowerIsBetter, HigherIsBetter;
    var cur, base := SufficiencyOf(Some(m), rule.metric), SufficiencyOf(Some(b), rule.metric);
    if cur.Sufficient? && base.Sufficient? && base.value != 0.0 {
      RegressionMeaning(rule.operator, cur.value, base.value, p.regression.tolerancePercent);
    }
  }

  lemma ComparisonReasons(p: Policy, m: Summary, b: Summary, c: Reason)
    requires ValidPolicy(p)
    ensures c in ReasonsOf(RegressionOutcomes(p, m, b)) <==> ComparisonCause(p, m, b, c)
  {
    var all := RegressionOutcomes(p, m, b);
    hide RuleRegression, RuleRegressed, NoEvidence, ComparableEvidence, ValidPolicy;
    var cause := (rule: ThresholdRule) => c in RuleRegression(p, m, b, rule).reasons;
    RuleReasons(all, p.thresholds, c, cause);
    forall rule { OneComparisonReason(p, m, b, rule, c); }
  }

  lemma RegressionReasons(p: Policy, m: Summary, b: Option<Summary>, status: BaselineStatus, c: Reason)
    requires ValidPolicy(p) && (b.Some? <==> status == Present)
    ensures c in RegressionSection(p, m, b, status).reasons <==> RegressionCause(p, m, b, status, c)
  {
    TrustNeedsBaseline(p, m, b);
    if b.Some? && TrustCorrect(p, m, b) {
      ComparisonReasons(p, m, b.value, c);
      SectionReasons(RegressionOutcomes(p, m, b.value));
    }
    hide ComparisonCause, RegressionOutcomes, ReasonsOf, ValidPolicy, FromOutcomes, TrustCorrect, INCOMPARABLE;
    var s := RegressionSection(p, m, b, status);
    if !p.regression.enabled {
      assert s.reasons == [];
    } else if status == Present && TrustCorrect(p, m, b) {
      assert s.reasons == ReasonsOf(RegressionOutcomes(p, m, b.value));
    }
  }

  lemma TrustNeedsBaseline(p: Policy, m: Summary, b: Option<Summary>)
    ensures TrustCorrect(p, m, b) ==> b.Some?
  {
    hide IsTrustCorrect, IsTrustCorrectPolicy;
  }

  lemma SectionReasons(all: seq<Outcome>)
    ensures FromOutcomes(all).reasons == ReasonsOf(all)
  {
    hide ReasonsOf;
  }

  lemma {:induction false} CoverageReasons(p: Policy, m: Summary, results: seq<SLIResult>, c: Reason)
    ensures c in ReasonsOf(CoverageOutcomes(p, m, results)) <==>
      c == CoverageGapFound && exists r :: r in results && CoverageGap(p, m, r)
  {
    hide Promoted, CoverageGap;
    InReasonsOf(CoverageOutcomes(p, m, results), c);
    if results != [] {
      var n := |results| - 1;
      CoverageReasons(p, m, results[..n], c);
      InReasonsOf(CoverageOutcomes(p, m, results[..n]), c);
      assert results == results[..n] + [results[n]];
    }
  }

  lemma InputReasonsExact(i: Inputs, c: Reason)
    ensures c in InputReasons(i) <==> InputCause(i, c)
    ensures Distinct(InputReasons(i))
  {
    LoadStatusRange(i.measurement);
    hide PolicyStatusOf, LoadStatus, BaselineStatusOf;
    var x, y, z := PolicyReasons(PolicyStatusOf(i)), MeasurementReasons(LoadStatus(i.measurement)),
      BaselineReasons(BaselineStatusOf(i));
    AddReasonsDistinct([], x);
    AddReasonsDistinct(AddReasons([], x), y);
    AddReasonsDistinct(AddReasons(AddReasons([], x), y), z);
    InAddReasons([], x, c);
    InAddReasons(AddReasons([], x), y, c);
    InAddReasons(AddReasons(AddReasons([], x), y), z, c);
    hide AddReasons, Distinct;
  }

  lemma InAllReasons(start: seq<Reason>, s: Sections, c: Reason)
    requires Distinct(start)
    ensures c in AllReasons(start, s) <==>
      c in start || c in s.thresholds.reasons || c in s.regression.reasons || c in s.reliability.reasons ||
      c in s.coverage.reasons
    ensures Distinct(AllReasons(start, s))
  {
    var t := AddReasons(start, s.thresholds.reasons);
    var g := AddReasons(t, s.regression.reasons);
    var l := AddReasons(g, s.reliability.reasons);
    InAddReasons(start, s.thresholds.reasons, c);
    InAddReasons(t, s.regression.reasons, c);
    InAddReasons(g, s.reliability.reasons, c);
    InAddReasons(l, s.coverage.reasons, c);
    AddReasonsDistinct(start, s.thresholds.reasons);
    AddReasonsDistinct(t, s.regression.reasons);
    AddReasonsDistinct(g, s.reliability.reasons);
    AddReasonsDistinct(l, s.coverage.reasons);
    hide AddReasons, Distinct;
  }

  lemma ReliabilityReasons(p: Policy, m: Summary, c: Reason)
    ensures c in ReliabilitySection(p, m).reasons <==> ReliabilityCause(p, m, c)
  {
    hide RunFailed, TooUnreliable;
  }

  lemma CoverageSectionReasons(p: Policy, m: Summary, c: Reason)
    ensures c in CoverageSection(p, m).reasons <==> c == CoverageGapFound && p.coverage.required && HasGap(p, m)
  {
    CoverageReasons(p, m, m.results, c);
    hide CoverageGap, CoverageOutcomes, ReasonsOf;
  }

  // ----- the report -----

  /** A reason is given once, and iff its cause holds. */
  lemma ReasonsExact(i: Inputs, c: Reason)
    ensures c in ReportOf(i).reasons <==> Cause(i, c)
    ensures Distinct(ReportOf(i).reasons)
  {
    InputReasonsExact(i, c);
    if Ready(i) {
      var p, m := i.policy.value, i.measurement.value;
      ReadyValid(i);
      ThresholdReasons(p, m, c);
      BaselinePresence(i);
      RegressionReasons(p, m, BaselineOf(i), BaselineStatusOf(i), c);
      ReliabilityReasons(p, m, c);
      CoverageSectionReasons(p, m, c);
      InAllReasons(InputReasons(i), SectionsOf(i), c);
      ReportReasons(i);
      hide Ready, ReportOf, ThresholdSection, RegressionSection, ReliabilitySection, CoverageSection, InputReasons;
      hide AllReasons, ThresholdCause, RegressionCause, ReliabilityCause, InputCause, HasGap, Distinct, BaselineOf;
      hide BaselineStatusOf, Diagnostics, ValidPolicy, ValidSummary;
    } else {
      hide Ready, InputReasons, InputCause, Distinct;
    }
  }

  lemma ReportReasons(i: Inputs)
    requires Ready(i)
    ensures ReportOf(i).reasons == AllReasons(InputReasons(i), SectionsOf(i))
  {
    hide Ready, AllReasons, InputReasons, SectionsOf, GradeOf, EvaluationStatusOf, MeasurementStatusAfter, AllChecks;
  }

  /** A report that cannot be a PASS has a cause to name. */
  lemma Explanation(i: Inputs) returns (c: Reason)
    requires !PassCondition(i)
    ensures Cause(i, c)
  {
    if !Ready(i) {
      c := UnreadyCause(i);
    } else {
      var p, m := i.policy.value, i.measurement.value;
      PassMeaning(i);
      hide PassCondition, Ready, RunFailed, SomeMiss, TooUnreliable, HasGap, RegressionCause, InputCause;
      if RunFailed(m) {
        c := CollectionFailed;
      } else if SomeMiss(p, m) {
        c := ThresholdMiss;
      } else if SomeOpen(p, m) {
        var rule :| rule in p.thresholds && SufficiencyOf(Some(m), rule.metric).Insufficient?;
        c := SufficiencyOf(Some(m), rule.metric).reason;
      } else if TooUnreliable(p, m) {
        c := ReliabilityInsufficient;
      } else if p.coverage.required && HasGap(p, m) {
        c := CoverageGapFound;
      } else {
        c := RegressionExplanation(i);
      }
    }
  }

  lemma UnreadyCause(i: Inputs) returns (c: Reason)
    requires !Ready(i)
    ensures InputCause(i, c)
  {
    LoadStatusRange(i.measurement);
    hide PolicyStatusOf, LoadStatus, BaselineStatusOf;
    c := match PolicyStatusOf(i)
      case PolicyMissing => PolicyIsMissing
      case PolicyInvalid => PolicyIsInvalid
      case PolicyOK =>
        match LoadStatus(i.measurement)
        case MeasurementMissing => MeasurementInputMissing
        case MeasurementCorrupt => MeasurementInputCorrupt
        case _ => MeasurementSchemaUnsupported;
  }

  lemma RegressionExplanation(i: Inputs) returns (c: Reason)
    requires Ready(i) && i.policy.value.regression.enabled
    requires var p, m := i.policy.value, i.measurement.value;
      !(RegressionGradable(i, p, m) &&
        !SomeRegressed(p, m, BaselineOf(i).value) && !SomeIncomparable(p, m, BaselineOf(i).value))
    ensures InputCause(i, c) ||
      RegressionCause(i.policy.value, i.measurement.value, BaselineOf(i), BaselineStatusOf(i), c)
  {
    var p, m := i.policy.value, i.measurement.value;
    BaselinePresence(i);
    hide Ready, BaselineOf, BaselineStatusOf, SomeRegressed, SomeIncomparable, TrustCorrect;
    match BaselineStatusOf(i) {
      case AbsentFirstRun => c := BaselineAbsentFirstRun;
      case Unavailable => c := BaselineUnavailable;
      case Corrupt => c := BaselineIsCorrupt;
      case Present =>
        var b := BaselineOf(i).value;
        if !TrustCorrect(p, m, BaselineOf(i)) {
          c := BaselineIncomparable;
        } else {
          hide ComparisonCause;
          c := ComparisonExplanation(p, m, b);
        }
    }
  }

  lemma ComparisonExplanation(p: Policy, m: Summary, b: Summary) returns (c: Reason)
    requires SomeRegressed(p, m, b) || SomeIncomparable(p, m, b)
    ensures ComparisonCause(p, m, b, c)
  {
    hide SomeRegressed, ComparableEvidence, NoEvidence;
    if SomeRegressed(p, m, b) {
      c := RegressionDetected;
    } else {
      var rule :| rule in p.thresholds && !ComparableEvidence(m, b, rule.metric);
      c := if NoEvidence(m, b, rule.metric) then EvidenceInsufficient else BaselineIncomparable;
    }
  }

  lemma PassHasNoCause(i: Inputs, c: Reason)
    requires PassCondition(i) && Cause(i, c)
    ensures (c == BaselineUnavailable || c == BaselineIsCorrupt) && !i.policy.value.regression.enabled
  {
    var p, m := i.policy.value, i.measurement.value;
    PassMeaning(i);
    PassRegressions(i, c);
    ThresholdCauseOpen(p, m, c);
    hide PassCondition, RunFailed, SomeMiss, TooUnreliable, HasGap, SomeRegressed, BaselineOf, BaselineStatusOf;
    hide PolicyStatusOf, LoadStatus, SufficiencyOf, TrustCorrect, ThresholdCause, SomeOpen, RegressionCause;
    hide SomeIncomparable;
  }

  /** What a PASS leaves of the regression and baseline reasons. */
  lemma PassRegressions(i: Inputs, c: Reason)
    requires PassCondition(i)
    ensures var p, m := i.policy.value, i.measurement.value;
      && !RegressionCause(p, m, BaselineOf(i), BaselineStatusOf(i), c)
      && (p.regression.enabled ==> BaselineStatusOf(i) == Present)
  {
    var p, m := i.policy.value, i.measurement.value;
    PassMeaning(i);
    BaselinePresence(i);
    NoEvidenceIncomparable(p, m, BaselineOf(i), c);
    hide PassCondition, Ready, RunFailed, SomeMiss, SomeOpen, TooUnreliable, HasGap, SomeRegressed, SomeIncomparable;
    hide BaselineOf, BaselineStatusOf, TrustCorrect, ComparisonCause;
  }

  lemma ThresholdCauseOpen(p: Policy, m: Summary, c: Reason)
    ensures ThresholdCause(p, m, c) ==> SomeOpen(p, m) || SomeMiss(p, m)
  {
    hide SufficiencyOf, SomeMiss;
  }

  lemma PassDecoded(i: Inputs)
    requires PassCondition(i)
    ensures i.policy.Decoded?
  {
    hide ValidPolicy, LoadStatus;
  }

  /** Whatever a comparison reports, some rule regressed or has no comparable evidence. */
  lemma NoEvidenceIncomparable(p: Policy, m: Summary, b: Option<Summary>, c: Reason)
    ensures b.Some? && ComparisonCause(p, m, b.value, c) ==>
      SomeRegressed(p, m, b.value) || SomeIncomparable(p, m, b.value)
  {
    hide SufficiencyOf, SomeRegressed;
  }

  /** Every verdict but PASS is explained, and what a PASS may still mention is a baseline that could not be
      read and was not asked for. */
  lemma VerdictExplained(i: Inputs)
    ensures ReportOf(i).gateResult != PASS ==> ReportOf(i).reasons != []
    ensures ReportOf(i).gateResult == PASS ==> i.policy.Decoded?
    ensures ReportOf(i).gateResult == PASS ==> forall c :: c in ReportOf(i).reasons ==>
      (c == BaselineUnavailable || c == BaselineIsCorrupt) && !i.policy.value.regression.enabled
  {
    GradeExact(i);
    hide *;
    if PassCondition(i) {
      PassDecoded(i);
      forall c | c in ReportOf(i).reasons
        ensures (c == BaselineUnavailable || c == BaselineIsCorrupt) && !i.policy.value.regression.enabled
      {
        ReasonsExact(i, c);
        PassHasNoCause(i, c);
      }
    } else {
      var c := Explanation(i);
      ReasonsExact(i, c);
    }
  }
}
