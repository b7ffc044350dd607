/** The gate policy (pkg/gate/policy.go, pkg/gate/types.go): its data, its validity and the promotion set. */
module Policies {
  import opened GoStrings

  datatype ThresholdRule = ThresholdRule(name: string, metric: string, operator: string, value: Option<real>)

  datatype RegressionCfg = RegressionCfg(enabled: bool, tolerancePercent: real)

  datatype ReliabilityCfg = ReliabilityCfg(required: bool, minLevel: string)

  datatype CoverageCfg = CoverageCfg(required: bool, informational: seq<string>)

  datatype Policy = Policy(
    schemaVersion: string, thresholds: seq<ThresholdRule>, regression: RegressionCfg,
    reliability: ReliabilityCfg, coverage: CoverageCfg, failOn: seq<string>, promoteToFail: seq<string>)

  const POLICY_LEGACY := "slint.policy.v1"
  const POLICY_TRUST := "slint.policy.v2"

  const THRESHOLD_MISS := "threshold_miss"
  const REGRESSION_DETECTED := "regression_detected"
  const COVERAGE_GAP := "coverage_gap"

  // ----- operators -----

  predicate LowerIsBetter(operator: string)
  {
    TrimSpace(operator) in ["<=", "<", "=<"]
  }

  predicate HigherIsBetter(operator: string)
  {
    TrimSpace(operator) in [">=", ">", "=>"]
  }

  predicate EqualityOperator(operator: string)
  {
    TrimSpace(operator) in ["==", "="]
  }

  predicate SupportedOperator(operator: string)
  {
    LowerIsBetter(operator) || HigherIsBetter(operator) || EqualityOperator(operator)
  }

  /** `CompareOp`; None is the unsupported operator error. */
  function CompareOp(v: real, operator: string, target: real): Option<bool>
  {
    match TrimSpace(operator)
    case "<=" => Some(v <= target)
    case "=<" => Some(v <= target)
    case ">=" => Some(v >= target)
    case "=>" => Some(v >= target)
    case "<" => Some(v < target)
    case ">" => Some(v > target)
    case "==" => Some(v == target)
    case "=" => Some(v == target)
    case _ => None
  }

  lemma SupportedOperatorCompares(v: real, operator: string, target: real)
    ensures CompareOp(v, operator, target).Some? <==> SupportedOperator(operator)
  {
  }

  // ----- validity -----

  function Normalized(v: string): string
  {
    Lower(TrimSpace(v))
  }

  predicate AllowedPromotion(v: string)
  {
    v == THRESHOLD_MISS || v == REGRESSION_DETECTED || v == COVERAGE_GAP
  }

  predicate ValidPromotions(items: seq<string>)
  {
    forall v :: v in items ==> Normalized(v) == "" || AllowedPromotion(Normalized(v))
  }

  predicate ValidRule(r: ThresholdRule)
  {
    r.value.Some? && TrimSpace(r.metric) != "" && TrimSpace(r.operator) != "" && SupportedOperator(r.operator)
  }

  predicate ValidThresholds(rules: seq<ThresholdRule>)
  {
    && (forall r :: r in rules ==> ValidRule(r))
    && (forall i, j :: 0 <= i < j < |rules| && TrimSpace(rules[i].name) != "" ==>
         TrimSpace(rules[i].name) != TrimSpace(rules[j].name))
  }

  predicate ValidPolicy(p: Policy)
  {
    && TrimSpace(p.schemaVersion) in [POLICY_LEGACY, POLICY_TRUST]
    && ValidPromotions(p.failOn)
    && ValidPromotions(p.promoteToFail)
    && Normalized(p.reliability.minLevel) in ["", "partial", "complete"]
    && ValidThresholds(p.thresholds)
    && p.regression.tolerancePercent >= 0.0
  }

  predicate IsTrustCorrectPolicy(p: Policy)
  {
    TrimSpace(p.schemaVersion) == POLICY_TRUST
  }

  method ValidateThresholds(rules: seq<ThresholdRule>) returns (ok: bool)
    ensures ok <==> ValidThresholds(rules)
  {
    hide TrimSpace, SupportedOperator;
    var seenNames: set<string> := {};
    for i := 0 to |rules|
      invariant forall j :: 0 <= j < i ==> ValidRule(rules[j])
      invariant forall j, k :: 0 <= j < k < i && TrimSpace(rules[j].name) != "" ==>
        TrimSpace(rules[j].name) != TrimSpace(rules[k].name)
      invariant forall x :: x in seenNames <==>
        x != "" && exists j :: 0 <= j < i && TrimSpace(rules[j].name) == x
    {
      var rule := rules[i];
      assert rule in rules;
      if rule.value.None? || TrimSpace(rule.metric) == "" {
        return false;
      }
      if TrimSpace(rule.operator) == "" || !SupportedOperator(rule.operator) {
        return false;
      }
      var name := TrimSpace(rule.name);
      if name == "" {
        continue;
      }
      if name in seenNames {
        var j :| 0 <= j < i && TrimSpace(rules[j].name) == name;
        return false;
      }
      seenNames := seenNames + {name};
    }
    return true;
  }

  method ValidatePromotions(items: seq<string>) returns (ok: bool)
    ensures ok <==> ValidPromotions(items)
  {
    hide Normalized, AllowedPromotion;
    for i := 0 to |items|
      invariant forall j :: 0 <= j < i ==> Normalized(items[j]) == "" || AllowedPromotion(Normalized(items[j]))
    {
      assert items[i] in items;
      var v := Normalized(items[i]);
      if v == "" {
        continue;
      }
      if !AllowedPromotion(v) {
        return false;
      }
    }
    return true;
  }

  method ValidatePolicy(p: Policy) returns (ok: bool)
    ensures ok <==> ValidPolicy(p)
  {
    hide ValidPromotions, ValidThresholds, TrimSpace, Normalized;
    var sv := TrimSpace(p.schemaVersion);
    if sv != POLICY_LEGACY && sv != POLICY_TRUST {
      return false;
    }
    var failOn := ValidatePromotions(p.failOn);
    if !failOn {
      return false;
    }
    var promote := ValidatePromotions(p.promoteToFail);
    if !promote {
      return false;
    }
    var minLevel := Normalized(p.reliability.minLevel);
    if minLevel != "" && minLevel != "partial" && minLevel != "complete" {
      return false;
    }
    var thresholds := ValidateThresholds(p.thresholds);
    if !thresholds {
      return false;
    }
    return p.regression.tolerancePercent >= 0.0;
  }

  // ----- promotion -----

  predicate Listed(p: Policy, v: string)
  {
    v != "" && exists x :: x in p.failOn + p.promoteToFail && Normalized(x) == v
  }

  /** A condition is promoted to FAIL when either list names it, or when both lists name nothing and it is
      one of the three known conditions. */
  predicate Promoted(p: Policy, v: string)
  {
    if exists x :: x in p.failOn + p.promoteToFail && Normalized(x) != ""
    then Listed(p, v) else AllowedPromotion(v)
  }

  method CollectPromotions(items: seq<string>, before: set<string>) returns (result: set<string>)
    ensures forall v :: v in result <==> v in before || (v != "" && exists x :: x in items && Normalized(x) == v)
  {
    hide Normalized;
    result := before;
    for i := 0 to |items|
      invariant forall v :: v in result <==>
        v in before || (v != "" && exists j :: 0 <= j < i && Normalized(items[j]) == v)
    {
      assert items[i] in items;
      var v := Normalized(items[i]);
      if v != "" {
        result := result + {v};
      }
    }
    forall v ensures v in result <==> v in before || (v != "" && exists x :: x in items && Normalized(x) == v) {
      if v != "" && exists x :: x in items && Normalized(x) == v {
        var x :| x in items && Normalized(x) == v;
        var j :| 0 <= j < |items| && items[j] == x;
      }
    }
  }

  method MakePromotionSet(p: Policy) returns (result: set<string>)
    ensures forall v :: v in result <==> Promoted(p, v)
  {
    hide Normalized;
    result := CollectPromotions(p.failOn, {});
    result := CollectPromotions(p.promoteToFail, result);
    ghost var items := p.failOn + p.promoteToFail;
    assert forall v :: v in result <==> Listed(p, v);
    assert forall x :: x in items && Normalized(x) != "" ==> Listed(p, Normalized(x));
    if |result| == 0 {
      result := {THRESHOLD_MISS, REGRESSION_DETECTED, COVERAGE_GAP};
    } else {
      ghost var v :| v in result;
      ghost var x :| x in items && Normalized(x) == v;
    }
  }
}
