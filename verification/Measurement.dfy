/**
 Evaluating one SLI (pkg/slo/engine/engine.go): point modes over a start and an end snapshot, window
 modes over a list of samples.  Additions are performed in the order of the code and are otherwise
 arbitrary.  Reasons keep the fixed part of the code's texts.
 */
module Measurement {
  import opened GoStrings
  import opened Sorting
  import opened PromKey
  import opened Selectors
  import opened Summaries
  import opened Percentile

  const SINGLE := "single"
  const START := "start"
  const END := "end"
  const DELTA := "delta"
  const WINDOW_MIN := "window_min"
  const WINDOW_MAX := "window_max"
  const WINDOW_AVG := "window_avg"
  const WINDOW_P95 := "window_p95"
  const WINDOW_P99 := "window_p99"
  const WINDOW_RATIO := "window_ratio"

  const RESET_FAIL := "fail"
  const RESET_NO_GRADE := "no_grade"
  const RESET_SKIP := "skip"

  datatype Rule = Rule(op: string, target: real, level: string)

  datatype SLISpec = SLISpec(
    id: string, title: string, unit: string, kind: string, description: string,
    inputs: seq<MetricRef>, mode: string, onCounterReset: string, judge: Option<seq<Rule>>)

  predicate PointMode(mode: string)
  {
    mode == SINGLE || mode == START || mode == END || mode == DELTA
  }

  predicate WindowMode(mode: string)
  {
    mode in [WINDOW_MIN, WINDOW_MAX, WINDOW_AVG, WINDOW_P95, WINDOW_P99, WINDOW_RATIO]
  }

  /** `SLISpec.ValidateSelectors`. */
  predicate ValidSelectors(env: Env, s: SLISpec)
  {
    forall r :: r in s.inputs && r.selector.Some? ==>
      && PointMode(s.mode)
      && ValidRef(env, r)
      && (r.selector.value.emptyMatch == EMPTY_ZERO_IF_FAMILY ==> s.mode == DELTA)
  }

  method ValidateSelectors(env: Env, s: SLISpec) returns (ok: bool)
    ensures ok <==> ValidSelectors(env, s)
  {
    hide KeyOf, ValidSelector;
    for i := 0 to |s.inputs|
      invariant forall j :: 0 <= j < i && s.inputs[j].selector.Some? ==>
        PointMode(s.mode) && ValidRef(env, s.inputs[j]) &&
        (s.inputs[j].selector.value.emptyMatch == EMPTY_ZERO_IF_FAMILY ==> s.mode == DELTA)
    {
      var r := s.inputs[i];
      assert r in s.inputs;
      if r.selector.None? {
        continue;
      }
      if !PointMode(s.mode) {
        return false;
      }
      var valid := Selectors.Validate(env, r.selector.value);
      var key := CanonicalKey(r.selector.value);
      if !valid || r.key != key {
        return false;
      }
      if r.selector.value.emptyMatch == EMPTY_ZERO_IF_FAMILY && s.mode != DELTA {
        return false;
      }
    }
    return true;
  }

  function BaseResult(s: SLISpec): SLIResult
  {
    SLIResult(s.id, s.title, s.unit, s.kind, s.description, None, STATUS_PASS, "", [], [], None)
  }

  function InputKeys(inputs: seq<MetricRef>): (r: seq<string>)
    ensures |r| == |inputs| && forall i :: 0 <= i < |r| ==> r[i] == inputs[i].key
  {
    seq(|inputs|, i requires 0 <= i < |inputs| => inputs[i].key)
  }

  // ----- judging -----

  predicate Compare(v: real, op: string, target: real)
  {
    match op
    case "<=" => v <= target
    case ">=" => v >= target
    case "<" => v < target
    case ">" => v > target
    case "==" => v == target
    case _ => false
  }

  predicate FailsRule(v: real, r: Rule)
  {
    Compare(v, r.op, r.target) && r.level == "fail"
  }

  predicate WarnsRule(v: real, r: Rule)
  {
    Compare(v, r.op, r.target) && r.level == "warn"
  }

  /** A matching fail rule wins over every warn rule. */
  function Verdict(v: real, rules: seq<Rule>): (string, string)
  {
    if exists r :: r in rules && FailsRule(v, r) then (STATUS_FAIL, "rule fail")
    else if exists r :: r in rules && WarnsRule(v, r) then (STATUS_WARN, "rule warn")
    else (STATUS_PASS, "")
  }

  method Judge(v: real, rules: seq<Rule>) returns (status: string, reason: string)
    ensures (status, reason) == Verdict(v, rules)
  {
    var warn := "";
    for i := 0 to |rules|
      invariant forall j :: 0 <= j < i ==> !FailsRule(v, rules[j])
      invariant warn != "" <==> exists j :: 0 <= j < i && WarnsRule(v, rules[j])
      invariant warn != "" ==> warn == "rule warn"
    {
      var r := rules[i];
      assert r in rules;
      if !Compare(v, r.op, r.target) {
        continue;
      }
      if r.level == "fail" {
        assert FailsRule(v, r);
        return STATUS_FAIL, "rule fail";
      } else if r.level == "warn" {
        assert WarnsRule(v, rules[i]);
        warn := "rule warn";
      }
    }
    assert forall r :: r in rules ==> !FailsRule(v, r);
    if warn != "" {
      var j :| 0 <= j < |rules| && WarnsRule(v, rules[j]);
      assert rules[j] in rules;
      return STATUS_WARN, warn;
    }
    return STATUS_PASS, "";
  }

  function WithValue(s: SLISpec, r: SLIResult, v: real): SLIResult
  {
    var judged := if s.judge.Some? then Verdict(v, s.judge.value) else (STATUS_PASS, "");
    r.(value := Some(v), status := judged.0, reason := judged.1)
  }

  method FinishValue(s: SLISpec, r: SLIResult, v: real) returns (res: SLIResult)
    requires r.status == STATUS_PASS && r.reason == ""
    ensures res == WithValue(s, r, v)
  {
    res := r.(value := Some(v));
    if s.judge.Some? {
      var status, reason := Judge(v, s.judge.value);
      res := res.(status := status, reason := reason);
    }
  }

  // ----- point modes -----

  datatype InputPair = InputPair(a: real, b: real)

  /** The canonical names of matched keys, sorted; None when one of them does not parse. */
  ghost function CanonicalNames(keys: seq<string>): Option<seq<string>>
  {
    if forall k :: k in keys ==> Canonical(k).Ok?
    then Some(Sort(seq(|keys|, i requires 0 <= i < |keys| => Canonical(keys[i]).value), StrLe))
    else None
  }

  /** The two key sets name the same series, by canonical identity. */
  ghost predicate SameSeries(a: seq<string>, b: seq<string>)
  {
    CanonicalNames(a).Some? && CanonicalNames(a) == CanonicalNames(b)
  }

  method CanonicalKeys(keys: seq<string>) returns (r: Option<seq<string>>)
    ensures r == CanonicalNames(keys)
  {
    hide Canonical;
    var out: seq<string> := [];
    for i := 0 to |keys|
      invariant |out| == i
      invariant forall j :: 0 <= j < i ==> Canonical(keys[j]) == Ok(out[j])
    {
      var c := Canonicalize(keys[i]);
      assert keys[i] in keys;
      if c.Err? {
        return None;
      }
      out := out + [c.value];
    }
    assert out == seq(|keys|, i requires 0 <= i < |keys| => Canonical(keys[i]).value);
    return Some(Sort(out, StrLe));
  }

  predicate NeedsStart(mode: string)
  {
    mode != END
  }

  predicate NeedsEnd(mode: string)
  {
    mode != SINGLE && mode != START
  }

  ghost function ResolveInput(env: Env, sel: Selector, mode: string, start: Snapshot, end: Snapshot): Option<InputPair>
  {
    var a := if NeedsStart(mode) then ResolveOf(env, sel, start) else Ok(Resolution(0.0, []));
    var b := if NeedsEnd(mode) then ResolveOf(env, sel, end) else Ok(Resolution(0.0, []));
    if a.Err? || b.Err? then None
    else if mode == DELTA && sel.aggregate == AGGREGATE_NONE && !SameSeries(a.value.keys, b.value.keys) then None
    else Some(InputPair(a.value.value, b.value.value))
  }

  method ResolveSelectorInput(env: Env, sel: Selector, mode: string, start: Snapshot, end: Snapshot)
    returns (r: Option<InputPair>)
    ensures r == ResolveInput(env, sel, mode, start, end)
  {
    hide ResolveOf, CanonicalNames;
    var a: Result<Resolution, ResolveError> := Ok(Resolution(0.0, []));
    var b: Result<Resolution, ResolveError> := Ok(Resolution(0.0, []));
    if mode != END {
      a := Resolve(env, sel, start);
    }
    if mode != SINGLE && mode != START {
      b := Resolve(env, sel, end);
    }
    if a.Err? || b.Err? {
      return None;
    }
    if mode == DELTA && sel.aggregate == AGGREGATE_NONE {
      var ka := CanonicalKeys(a.value.keys);
      var kb := CanonicalKeys(b.value.keys);
      if ka.None? || kb.None? || ka.value != kb.value {
        return None;
      }
    }
    return Some(InputPair(a.value.value, b.value.value));
  }

  /** The pair of values of one input, None when it is missing. */
  ghost function InputValue(env: Env, mode: string, start: Snapshot, end: Snapshot, r: MetricRef): Option<InputPair>
  {
    if r.selector.Some? then ResolveInput(env, r.selector.value, mode, start, end)
    else if r.key in start && r.key in end then Some(InputPair(start[r.key], end[r.key]))
    else None
  }

  datatype PointSum = PointSum(valStart: real, valEnd: real, missing: seq<string>, selectorFailed: bool)

  ghost function PointStep(env: Env, mode: string, start: Snapshot, end: Snapshot, acc: PointSum, r: MetricRef)
    : PointSum
  {
    match InputValue(env, mode, start, end, r)
    case None =>
      acc.(missing := acc.missing + [r.key], selectorFailed := acc.selectorFailed || r.selector.Some?)
    case Some(v) => acc.(valStart := env.add(acc.valStart, v.a), valEnd := env.add(acc.valEnd, v.b))
  }

  ghost function PointSumOf(env: Env, mode: string, start: Snapshot, end: Snapshot, inputs: seq<MetricRef>): PointSum
  {
    if inputs == [] then PointSum(0.0, 0.0, [], false)
    else PointStep(env, mode, start, end,
      PointSumOf(env, mode, start, end, inputs[..|inputs| - 1]), inputs[|inputs| - 1])
  }

  function Finished(env: Env, s: SLISpec, res: SLIResult, sum: PointSum): SLIResult
  {
    match s.mode
    case "single" => WithValue(s, res, sum.valStart)
    case "start" => WithValue(s, res, sum.valStart)
    case "end" => WithValue(s, res, sum.valEnd)
    case "delta" =>
      var v := env.sub(sum.valEnd, sum.valStart);
      if v < 0.0 then
        match s.onCounterReset
        case "fail" => res.(value := Some(v), status := STATUS_FAIL, reason := "counter reset: delta < 0 (fail policy)")
        case "no_grade" =>
          res.(status := STATUS_SKIP, reason := "counter reset: measurement unreliable (no_grade policy)")
        case "skip" => res.(status := STATUS_SKIP, reason := "counter reset: excluded (skip policy)")
        case _ => res.(value := Some(v), status := STATUS_WARN, reason := "delta < 0 (counter reset suspected)")
      else WithValue(s, res, v)
    case _ => res.(status := STATUS_SKIP, reason := "unknown compute mode")
  }

  ghost function PointResult(env: Env, s: SLISpec, start: Snapshot, end: Snapshot): SLIResult
  {
    var sum := PointSumOf(env, s.mode, start, end, s.inputs);
    var res := BaseResult(s).(inputsUsed := InputKeys(s.inputs), inputsMissing := sum.missing);
    if sum.missing != [] then
      res.(status := STATUS_SKIP,
           reason := if sum.selectorFailed then "unresolved selector input" else "missing input metrics")
    else Finished(env, s, res, sum)
  }

  method SumInputs(env: Env, s: SLISpec, start: Snapshot, end: Snapshot) returns (sum: PointSum)
    ensures sum == PointSumOf(env, s.mode, start, end, s.inputs)
  {
    hide ResolveInput;
    sum := PointSum(0.0, 0.0, [], false);
    for i := 0 to |s.inputs|
      invariant sum == PointSumOf(env, s.mode, start, end, s.inputs[..i])
    {
      var r := s.inputs[i];
      assert s.inputs[..i + 1][..i] == s.inputs[..i];
      if r.selector.Some? {
        var v := ResolveSelectorInput(env, r.selector.value, s.mode, start, end);
        if v.None? {
          sum := sum.(missing := sum.missing + [r.key], selectorFailed := true);
          continue;
        }
        sum := sum.(valStart := env.add(sum.valStart, v.value.a), valEnd := env.add(sum.valEnd, v.value.b));
        continue;
      }
      if r.key !in start || r.key !in end {
        sum := sum.(missing := sum.missing + [r.key]);
        continue;
      }
      sum := sum.(valStart := env.add(sum.valStart, start[r.key]), valEnd := env.add(sum.valEnd, end[r.key]));
    }
    assert s.inputs[..|s.inputs|] == s.inputs;
  }

  method EvalSLI(env: Env, s: SLISpec, start: Snapshot, end: Snapshot) returns (res: SLIResult)
    ensures res == PointResult(env, s, start, end)
  {
    hide PointSumOf;
    var sum := SumInputs(env, s, start, end);
    res := BaseResult(s).(inputsUsed := InputKeys(s.inputs), inputsMissing := sum.missing);
    if |sum.missing| > 0 {
      res := res.(status := STATUS_SKIP, reason := "missing input metrics");
      if sum.selectorFailed {
        res := res.(reason := "unresolved selector input");
      }
      return res;
    }
    var value: real;
    if s.mode == SINGLE || s.mode == START {
      value := sum.valStart;
    } else if s.mode == END {
      value := sum.valEnd;
    } else if s.mode == DELTA {
      value := env.sub(sum.valEnd, sum.valStart);
      if value < 0.0 {
        if s.onCounterReset == RESET_FAIL {
          return res.(value := Some(value), status := STATUS_FAIL, reason := "counter reset: delta < 0 (fail policy)");
        } else if s.onCounterReset == RESET_NO_GRADE {
          return res.(status := STATUS_SKIP, reason := "counter reset: measurement unreliable (no_grade policy)");
        } else if s.onCounterReset == RESET_SKIP {
          return res.(status := STATUS_SKIP, reason := "counter reset: excluded (skip policy)");
        }
        return res.(value := Some(value), status := STATUS_WARN, reason := "delta < 0 (counter reset suspected)");
      }
    } else {
      return res.(status := STATUS_SKIP, reason := "unknown compute mode");
    }
    res := FinishValue(s, res, value);
  }

  // ----- window modes -----

  /** The values of the inputs present in one sample, in input order. */
  function SampleValues(keys: seq<string>, sample: Snapshot): seq<real>
  {
    if keys == [] then [] else
    var n := |keys| - 1;
    SampleValues(keys[..n], sample) + (if keys[n] in sample then [sample[keys[n]]] else [])
  }

  /** All observed values, sample by sample. */
  function Pool(keys: seq<string>, samples: seq<Snapshot>): seq<real>
  {
    if samples == [] then [] else
    Pool(keys, samples[..|samples| - 1]) + SampleValues(keys, samples[|samples| - 1])
  }

  predicate Seen(key: string, samples: seq<Snapshot>)
  {
    exists i :: 0 <= i < |samples| && key in samples[i]
  }

  function MissingOf(keys: seq<string>, samples: seq<Snapshot>): seq<string>
  {
    if keys == [] then [] else
    var n := |keys| - 1;
    MissingOf(keys[..n], samples) + (if Seen(keys[n], samples) then [] else [keys[n]])
  }

  method PoolSample(
    inputs: seq<MetricRef>, sample: Snapshot, values: seq<real>, missingSet: set<string>, seen: set<string>)
    returns (values': seq<real>, missingSet': set<string>, seen': set<string>)
    ensures values' == values + SampleValues(InputKeys(inputs), sample)
    ensures seen' == seen + set k | k in InputKeys(inputs) && k in sample
    ensures missingSet' == missingSet + set k | k in InputKeys(inputs) && k !in sample
  {
    values', missingSet', seen' := values, missingSet, seen;
    ghost var keys := InputKeys(inputs);
    for i := 0 to |inputs|
      invariant values' == values + SampleValues(keys[..i], sample)
      invariant seen' == seen + set k | k in keys[..i] && k in sample
      invariant missingSet' == missingSet + set k | k in keys[..i] && k !in sample
    {
      var k := inputs[i].key;
      assert keys[..i + 1] == keys[..i] + [k] && keys[..i + 1][..i] == keys[..i];
      if k !in sample {
        missingSet' := missingSet' + {k};
        continue;
      }
      seen' := seen' + {k};
      values' := values' + [sample[k]];
    }
    assert keys[..|keys|] == keys;
  }

  method WindowValues(inputs: seq<MetricRef>, samples: seq<Snapshot>) returns (values: seq<real>, missing: seq<string>)
    ensures values == Pool(InputKeys(inputs), samples)
    ensures missing == MissingOf(InputKeys(inputs), samples)
  {
    ghost var keys := InputKeys(inputs);
    values, missing := [], [];
    var missingSet: set<string> := {};
    var seen: set<string> := {};
    for i := 0 to |samples|
      invariant values == Pool(keys, samples[..i])
      invariant forall k :: k in keys ==> (k in seen <==> exists j :: 0 <= j < i && k in samples[j])
      invariant i == 0 ==> missingSet == {}
    {
      assert samples[..i + 1][..i] == samples[..i];
      values, missingSet, seen := PoolSample(inputs, samples[i], values, missingSet, seen);
    }
    assert samples[..|samples|] == samples;
    for i := 0 to |inputs|
      invariant missing == MissingOf(keys[..i], samples)
    {
      var k := inputs[i].key;
      assert keys[i] in keys && keys[..i + 1][..i] == keys[..i];
      if k !in seen {
        missing := missing + [k];
        continue;
      }
      if k in missingSet && |samples| == 0 {
        missing := missing + [k];
      }
    }
    assert keys[..|keys|] == keys;
  }

  function LeastFrom(v: real, values: seq<real>): real
  {
    if values == [] then v else
    var m := LeastFrom(v, values[..|values| - 1]);
    var x := values[|values| - 1];
    if x < m then x else m
  }

  function GreatestFrom(v: real, values: seq<real>): real
  {
    if values == [] then v else
    var m := GreatestFrom(v, values[..|values| - 1]);
    var x := values[|values| - 1];
    if x > m then x else m
  }

  method Least(values: seq<real>) returns (v: real)
    requires values != []
    ensures v == LeastFrom(values[0], values[1..])
    ensures v in values && forall x :: x in values ==> v <= x
  {
    v := values[0];
    var rest := values[1..];
    for i := 0 to |rest|
      invariant v == LeastFrom(values[0], rest[..i])
      invariant v in values && v <= values[0] && forall j :: 0 <= j < i ==> v <= rest[j]
    {
      assert rest[..i + 1][..i] == rest[..i];
      if rest[i] < v {
        v := rest[i];
      }
    }
    assert rest[..|rest|] == rest;
    assert values == [values[0]] + rest;
  }

  method Greatest(values: seq<real>) returns (v: real)
    requires values != []
    ensures v == GreatestFrom(values[0], values[1..])
    ensures v in values && forall x :: x in values ==> v >= x
  {
    v := values[0];
    var rest := values[1..];
    for i := 0 to |rest|
      invariant v == GreatestFrom(values[0], rest[..i])
      invariant v in values && v >= values[0] && forall j :: 0 <= j < i ==> v >= rest[j]
    {
      assert rest[..i + 1][..i] == rest[..i];
      if rest[i] > v {
        v := rest[i];
      }
    }
    assert rest[..|rest|] == rest;
    assert values == [values[0]] + rest;
  }

  function Total(env: Env, values: seq<real>): real
  {
    if values == [] then 0.0 else env.add(Total(env, values[..|values| - 1]), values[|values| - 1])
  }

  method AddUp(env: Env, values: seq<real>) returns (sum: real)
    ensures sum == Total(env, values)
  {
    sum := 0.0;
    for i := 0 to |values|
      invariant sum == Total(env, values[..i])
    {
      assert values[..i + 1][..i] == values[..i];
      sum := env.add(sum, values[i]);
    }
    assert values[..|values|] == values;
  }

  /** The observations of one key, in sample order. */
  function Observed(key: string, samples: seq<Snapshot>): seq<real>
  {
    if samples == [] then [] else
    var n := |samples| - 1;
    Observed(key, samples[..n]) + (if key in samples[n] then [samples[n][key]] else [])
  }

  datatype Ratio = Ratio(value: real) | NoRatio(reason: string)

  function RatioOf(env: Env, keys: seq<string>, samples: seq<Snapshot>): Ratio
  {
    if |keys| < 2 then NoRatio("window_ratio requires numerator and denominator inputs") else
    var num, den := Observed(keys[0], samples), Observed(keys[1], samples);
    if num == [] || den == [] then NoRatio("missing input metrics")
    else if Total(env, den) == 0.0 then NoRatio("window_ratio denominator is zero")
    else Ratio(env.div(Total(env, num), Total(env, den)))
  }

  method WindowRatio(env: Env, inputs: seq<MetricRef>, samples: seq<Snapshot>) returns (r: Ratio)
    ensures r == RatioOf(env, InputKeys(inputs), samples)
  {
    if |inputs| < 2 {
      return NoRatio("window_ratio requires numerator and denominator inputs");
    }
    var numKey, denKey := inputs[0].key, inputs[1].key;
    var numerator, denominator := 0.0, 0.0;
    var seenNum, seenDen := false, false;
    for i := 0 to |samples|
      invariant numerator == Total(env, Observed(numKey, samples[..i]))
      invariant denominator == Total(env, Observed(denKey, samples[..i]))
      invariant seenNum <==> Observed(numKey, samples[..i]) != []
      invariant seenDen <==> Observed(denKey, samples[..i]) != []
    {
      var sample := samples[i];
      ObservedStep(env, numKey, samples, i);
      ObservedStep(env, denKey, samples, i);
      if numKey in sample {
        numerator := env.add(numerator, sample[numKey]);
        seenNum := true;
      }
      if denKey in sample {
        denominator := env.add(denominator, sample[denKey]);
        seenDen := true;
      }
    }
    assert samples[..|samples|] == samples;
    if !seenNum || !seenDen {
      return NoRatio("missing input metrics");
    }
    if denominator == 0.0 {
      return NoRatio("window_ratio denominator is zero");
    }
    return Ratio(env.div(numerator, denominator));
  }

  lemma ObservedStep(env: Env, key: string, samples: seq<Snapshot>, i: nat)
    requires i < |samples|
    ensures var before, after := Observed(key, samples[..i]), Observed(key, samples[..i + 1]);
      if key in samples[i]
      then after != [] && Total(env, after) == env.add(Total(env, before), samples[i][key])
      else after == before
  {
    assert samples[..i + 1][..i] == samples[..i];
    if key in samples[i] {
      var before, after := Observed(key, samples[..i]), Observed(key, samples[..i + 1]);
      assert after == before + [samples[i][key]];
      assert after[..|after| - 1] == before;
    }
  }

  datatype WindowValue = WindowValue(value: real) | NoValue(reason: string)

  /** The aggregated value of a non-empty pool, by compute mode. */
  function Aggregated(env: Env, mode: string, keys: seq<string>, samples: seq<Snapshot>, pool: seq<real>): WindowValue
    requires pool != []
  {
    match mode
    case "window_min" => WindowValue(LeastFrom(pool[0], pool[1..]))
    case "window_max" => WindowValue(GreatestFrom(pool[0], pool[1..]))
    case "window_avg" => WindowValue(env.div(Total(env, pool), |pool| as real))
    case "window_p95" => WindowValue(PercentileOf(95, pool))
    case "window_p99" => WindowValue(PercentileOf(99, pool))
    case "window_ratio" =>
      (match RatioOf(env, keys, samples)
       case Ratio(v) => WindowValue(v)
       case NoRatio(reason) => NoValue(reason))
    case _ => NoValue("unknown window compute mode")
  }

  function WindowResult(env: Env, s: SLISpec, samples: seq<Snapshot>): SLIResult
  {
    var keys := InputKeys(s.inputs);
    var pool, missing := Pool(keys, samples), MissingOf(keys, samples);
    var res := BaseResult(s).(inputsUsed := keys, inputsMissing := missing);
    if missing != [] then res.(status := STATUS_SKIP, reason := "missing input metrics")
    else if pool == [] then res.(status := STATUS_SKIP, reason := "empty window")
    else match Aggregated(env, s.mode, keys, samples, pool)
      case WindowValue(v) => WithValue(s, res, v)
      case NoValue(reason) => res.(status := STATUS_SKIP, reason := reason)
  }

  method AggregateWindow(env: Env, s: SLISpec, samples: seq<Snapshot>, values: seq<real>) returns (r: WindowValue)
    requires values != []
    ensures r == Aggregated(env, s.mode, InputKeys(s.inputs), samples, values)
  {
    hide RatioOf, PercentileOf, LeastFrom, GreatestFrom, Total;
    var v: real;
    if s.mode == WINDOW_MIN {
      v := Least(values);
    } else if s.mode == WINDOW_MAX {
      v := Greatest(values);
    } else if s.mode == WINDOW_AVG {
      var sum := AddUp(env, values);
      v := env.div(sum, |values| as real);
    } else if s.mode == WINDOW_P95 {
      v := Pick(95, values);
    } else if s.mode == WINDOW_P99 {
      v := Pick(99, values);
    } else if s.mode == WINDOW_RATIO {
      var ratio := WindowRatio(env, s.inputs, samples);
      if ratio.NoRatio? {
        return NoValue(ratio.reason);
      }
      v := ratio.value;
    } else {
      return NoValue("unknown window compute mode");
    }
    return WindowValue(v);
  }

  method EvalWindowSLI(env: Env, s: SLISpec, samples: seq<Snapshot>) returns (res: SLIResult)
    ensures res == WindowResult(env, s, samples)
  {
    hide Pool, MissingOf, Aggregated;
    var values, missing := WindowValues(s.inputs, samples);
    res := BaseResult(s).(inputsUsed := InputKeys(s.inputs), inputsMissing := missing);
    if |missing| > 0 {
      return res.(status := STATUS_SKIP, reason := "missing input metrics");
    }
    if |values| == 0 {
      return res.(status := STATUS_SKIP, reason := "empty window");
    }
    var v := AggregateWindow(env, s, samples, values);
    if v.NoValue? {
      return res.(status := STATUS_SKIP, reason := v.reason);
    }
    res := FinishValue(s, res, v.value);
  }
}
