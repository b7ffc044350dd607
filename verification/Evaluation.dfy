/** The result of one SLI for everything a run may have fetched (pkg/slo/engine/engine.go). */
module Evaluation {
  import opened GoStrings
  import opened Selectors
  import opened Summaries
  import opened Measurement

  /** What was fetched: two snapshots for the point modes and, if there is a window fetcher, the samples of
      the window or a failure. */
  datatype Observations = Observations(
    start: Snapshot, end: Snapshot, hasWindow: bool, windowFailed: bool, samples: seq<Snapshot>)

  function SkippedResult(s: SLISpec, reason: string): SLIResult
  {
    BaseResult(s).(status := STATUS_SKIP, reason := reason, inputsUsed := InputKeys(s.inputs))
  }

  ghost function ResultOf(env: Env, s: SLISpec, d: Observations): SLIResult
  {
    if !WindowMode(s.mode) then PointResult(env, s, d.start, d.end)
    else if !d.hasWindow then SkippedResult(s, "window fetcher required")
    else if d.windowFailed then SkippedResult(s, "fetch(window) failed")
    else WindowResult(env, s, d.samples)
  }

  method Evaluate(env: Env, s: SLISpec, d: Observations) returns (r: SLIResult)
    ensures r == ResultOf(env, s, d)
  {
    hide PointResult, WindowResult;
    if WindowMode(s.mode) {
      if !d.hasWindow {
        r := SkippedResult(s, "window fetcher required");
      } else if d.windowFailed {
        r := SkippedResult(s, "fetch(window) failed");
      } else {
        r := EvalWindowSLI(env, s, d.samples);
      }
    } else {
      r := EvalSLI(env, s, d.start, d.end);
    }
  }

  lemma VerdictNeverSkips(v: real, rules: seq<Rule>)
    ensures Verdict(v, rules).0 in [STATUS_PASS, STATUS_WARN, STATUS_FAIL]
  {
  }

  lemma WithValueShape(s: SLISpec, r: SLIResult, v: real)
    ensures var w := WithValue(s, r, v);
      w.value == Some(v) && w.status != STATUS_SKIP && AllowedStatus(w.status) &&
      w.id == r.id && w.inputsMissing == r.inputsMissing && w.comparability == r.comparability
  {
    hide Verdict;
    if s.judge.Some? { VerdictNeverSkips(v, s.judge.value); }
  }

  lemma FinishedShape(env: Env, s: SLISpec, res: SLIResult, sum: PointSum)
    requires res.value.None?
    ensures var r := Finished(env, s, res, sum);
      (r.value.Some? <==> r.status != STATUS_SKIP) && AllowedStatus(r.status) &&
      r.id == res.id && r.inputsMissing == res.inputsMissing && r.comparability == res.comparability
  {
    hide WithValue;
    WithValueShape(s, res, sum.valStart);
    WithValueShape(s, res, sum.valEnd);
    WithValueShape(s, res, env.sub(sum.valEnd, sum.valStart));
  }

  lemma WindowResultShape(env: Env, s: SLISpec, samples: seq<Snapshot>)
    ensures var r := WindowResult(env, s, samples);
      (r.value.Some? <==> r.status != STATUS_SKIP) && AllowedStatus(r.status) &&
      (r.inputsMissing != [] ==> r.value.None?) && r.id == s.id && r.comparability.None?
  {
    hide WithValue, Aggregated, Pool, MissingOf;
    var keys := InputKeys(s.inputs);
    var pool, missing := Pool(keys, samples), MissingOf(keys, samples);
    if missing == [] && pool != [] {
      var res := BaseResult(s).(inputsUsed := keys, inputsMissing := missing);
      var a := Aggregated(env, s.mode, keys, samples, pool);
      if a.WindowValue? { WithValueShape(s, res, a.value); }
    }
  }

  /** A result is skipped exactly when it has no value, and a result with missing inputs has none. */
  lemma SkippedIffNoValue(env: Env, s: SLISpec, d: Observations)
    ensures var r := ResultOf(env, s, d);
      (r.status == STATUS_SKIP <==> r.value.None?) && AllowedStatus(r.status) &&
      (r.inputsMissing != [] ==> r.value.None?) && r.id == s.id && r.comparability.None?
  {
    hide Finished, WindowResult, PointSumOf;
    var sum := PointSumOf(env, s.mode, d.start, d.end, s.inputs);
    var res := BaseResult(s).(inputsUsed := InputKeys(s.inputs), inputsMissing := sum.missing);
    FinishedShape(env, s, res, sum);
    WindowResultShape(env, s, d.samples);
  }
}
