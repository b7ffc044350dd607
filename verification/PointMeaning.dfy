/**
 What a point mode measures, stated on the two snapshots (pkg/slo/engine/engine.go): which inputs are missing, which
 snapshot is summed, what happens to a falling counter, and when the producer's rules fail or warn.
 */
module PointMeaning {
  import opened GoStrings
  import opened Sorting
  import opened PromKey
  import opened PromKeyProperties
  import opened Selectors
  import opened SelectorSpelling
  import opened SelectorMeaning
  import opened Summaries
  import opened Measurement
  import opened Evaluation
  import opened PairingAddition
  import opened IdentityExchange

  // ----- judging -----

  /** The operator is one of the five, and its characters say how the value may stand to the target. */
  predicate StandsTo(v: real, op: string, target: real)
  {
    && op in ["<=", ">=", "<", ">", "=="]
    && (('<' in op && v < target) || ('>' in op && v > target) || ('=' in op && v == target))
  }

  lemma CompareMeaning(v: real, op: string, target: real)
    ensures Compare(v, op, target) <==> StandsTo(v, op, target)
  {
    assert "<="[0] == '<' && "<="[1] == '=' && ">="[0] == '>' && ">="[1] == '=';
    assert "<"[0] == '<' && ">"[0] == '>' && "=="[0] == '=';
  }

  ghost predicate SomeRule(rules: seq<Rule>, level: string, v: real)
  {
    exists r :: r in rules && r.level == level && StandsTo(v, r.op, r.target)
  }

  /** A rule of level fail that holds fails the SLI; otherwise one of level warn warns. */
  ghost predicate Judged(s: SLISpec, v: real, status: string)
  {
    if s.judge.None? then status == "pass"
    else if SomeRule(s.judge.value, "fail", v) then status == "fail"
    else if SomeRule(s.judge.value, "warn", v) then status == "warn"
    else status == "pass"
  }

  lemma JudgeMeaning(s: SLISpec, r: SLIResult, v: real)
    ensures var w := WithValue(s, r, v);
      w.value == Some(v) && Judged(s, v, w.status) && w.inputsMissing == r.inputsMissing
  {
    if s.judge.Some? {
      forall x | x in s.judge.value
        ensures FailsRule(v, x) <==> x.level == "fail" && StandsTo(v, x.op, x.target)
        ensures WarnsRule(v, x) <==> x.level == "warn" && StandsTo(v, x.op, x.target)
      {
        CompareMeaning(v, x.op, x.target);
      }
      hide StandsTo, FailsRule, WarnsRule;
    }
  }

  // ----- reading one input -----

  /** The value of an input in one snapshot. */
  ghost function ReadIn(env: Env, r: MetricRef, d: Snapshot): Option<real>
  {
    match r.selector
    case None => if r.key in d then Some(d[r.key]) else None
    case Some(sel) => match ResolveOf(env, sel, d) case Ok(x) => Some(x.value) case Err(_) => None
  }

  /** The selector asks for one and the same series in both snapshots. */
  ghost predicate SeriesInBoth(env: Env, sel: Selector, start: Snapshot, end: Snapshot)
  {
    exists k, l ::
      k in start && l in end && AskedFor(env, sel, k) && AskedFor(env, sel, l) && Parsed(k) == Parsed(l)
  }

  /** An exact key must be in both snapshots in every mode, a selector only needs those that the mode reads. */
  ghost predicate Available(env: Env, mode: string, start: Snapshot, end: Snapshot, r: MetricRef)
  {
    match r.selector
    case None => r.key in start && r.key in end
    case Some(sel) =>
      && (mode != "end" ==> ReadIn(env, r, start).Some?)
      && (mode == "end" || mode == "delta" ==> ReadIn(env, r, end).Some?)
      && (mode == "delta" && sel.aggregate == "" ==> SeriesInBoth(env, sel, start, end))
  }

  lemma NamesOfOne(k: string)
    requires Parsed(k).Ok?
    ensures CanonicalNames([k]) == Some([Formatted(Parsed(k).value)])
  {
    hide Parsed, Formatted;
    var keys := [k];
    assert forall x :: x in keys ==> x == k;
    assert seq(|keys|, i requires 0 <= i < |keys| => Canonical(keys[i]).value) == [Formatted(Parsed(k).value)];
  }

  /** The one key of the snapshot that is asked for. */
  ghost predicate OnlyKey(env: Env, s: Selector, values: Snapshot, k: string)
  {
    && k in values && AskedFor(env, s, k) && Parsed(k).Ok?
    && forall x :: x in values && AskedFor(env, s, x) ==> x == k
  }

  lemma OneListed(env: Env, s: Selector, values: Snapshot, k: string)
    requires Lists(env, s, values, [k])
    ensures OnlyKey(env, s, values, k)
  {
    assert k in [k];
    hide Parsed;
    forall x | x in values && AskedFor(env, s, x) ensures x == k { assert x in [k]; }
  }

  lemma UnaggregatedKey(env: Env, sel: Selector, values: Snapshot, x: Resolution) returns (k: string)
    requires ValidSelector(env, sel) && sel.aggregate == "" && ResolveOf(env, sel, values) == Ok(x)
    ensures x.keys == [k] && OnlyKey(env, sel, values, k)
  {
    ResolveMeaning(env, sel, values);
    PoliciesOf(env, sel);
    hide ResolveOf, ValidSelector, OnlyKey, Lists, SumsUp, InCanonicalOrder, MetricPresent;
    assert |x.keys| == 1;
    k := x.keys[0];
    assert x.keys == [k];
    OneListed(env, sel, values, k);
  }

  lemma SameNames(k: string, l: string)
    requires Parsed(k).Ok? && Parsed(l).Ok?
    ensures SameSeries([k], [l]) <==> Parsed(k) == Parsed(l)
  {
    ParsedImage(k);
    ParsedImage(l);
    NamesOfOne(k);
    NamesOfOne(l);
    hide Parsed, CanonicalNames;
    var x, y := Formatted(Parsed(k).value), Formatted(Parsed(l).value);
    if x == y {
      FormatInjective(Parsed(k).value, Parsed(l).value);
    } else {
      assert [x][0] != [y][0];
    }
  }

  lemma OnlyKeysInBoth(env: Env, sel: Selector, start: Snapshot, end: Snapshot, k: string, l: string)
    requires OnlyKey(env, sel, start, k) && OnlyKey(env, sel, end, l)
    ensures SeriesInBoth(env, sel, start, end) <==> Parsed(k) == Parsed(l)
  {
    hide Parsed, AskedFor;
  }

  /** Without aggregation there is one matched key at each end, and the two must name one series. */
  lemma SameSeriesMeaning(
    env: Env, sel: Selector, start: Snapshot, end: Snapshot, a: Resolution, b: Resolution)
    requires ValidSelector(env, sel) && sel.aggregate == ""
    requires ResolveOf(env, sel, start) == Ok(a) && ResolveOf(env, sel, end) == Ok(b)
    ensures SameSeries(a.keys, b.keys) <==> SeriesInBoth(env, sel, start, end)
  {
    hide *;
    var k := UnaggregatedKey(env, sel, start, a);
    var l := UnaggregatedKey(env, sel, end, b);
    KeyParsed(env, sel, start, k);
    KeyParsed(env, sel, end, l);
    SameNames(k, l);
    OnlyKeysInBoth(env, sel, start, end, k, l);
  }

  lemma KeyParsed(env: Env, s: Selector, values: Snapshot, k: string)
    requires OnlyKey(env, s, values, k)
    ensures Parsed(k).Ok?
  {
    hide Parsed, AskedFor;
  }

  // ----- one input -----

  /** What an input adds: nothing when it is missing, else its value in every snapshot that the mode reads. */
  lemma InputMeaning(env: Env, mode: string, start: Snapshot, end: Snapshot, r: MetricRef)
    requires PointMode(mode) && ValidRef(env, r)
    ensures var v := InputValue(env, mode, start, end, r);
      && (v.Some? <==> Available(env, mode, start, end, r))
      && (v.Some? && mode != "end" ==> ReadIn(env, r, start) == Some(v.value.a))
      && (v.Some? && (mode == "end" || mode == "delta") ==> ReadIn(env, r, end) == Some(v.value.b))
  {
    hide ResolveOf, SameSeries, SeriesInBoth, KeyOf, ValidSelector;
    if r.selector.Some? {
      var sel := r.selector.value;
      var a, b := ResolveOf(env, sel, start), ResolveOf(env, sel, end);
      if sel.aggregate == "" && a.Ok? && b.Ok? { SameSeriesMeaning(env, sel, start, end, a.value, b.value); }
    }
  }

  // ----- the sums -----

  /** The values of the inputs in one snapshot, in input order. */
  ghost function ValuesIn(env: Env, inputs: seq<MetricRef>, d: Snapshot): (r: seq<real>)
    ensures |r| == |inputs|
    ensures forall i :: 0 <= i < |r| && ReadIn(env, inputs[i], d).Some? ==> r[i] == ReadIn(env, inputs[i], d).value
  {
    seq(|inputs|, i requires 0 <= i < |inputs| =>
      if ReadIn(env, inputs[i], d).Some? then ReadIn(env, inputs[i], d).value else 0.0)
  }

  lemma ValuesNext(env: Env, front: seq<MetricRef>, r: MetricRef, d: Snapshot)
    requires ReadIn(env, r, d).Some?
    ensures ValuesIn(env, front + [r], d) == ValuesIn(env, front, d) + [ReadIn(env, r, d).value]
  {
    hide ReadIn;
  }

  ghost predicate MissingAre(
    env: Env, mode: string, start: Snapshot, end: Snapshot, inputs: seq<MetricRef>, missing: seq<string>)
  {
    forall k :: k in missing <==>
      exists r :: r in inputs && r.key == k && !Available(env, mode, start, end, r)
  }

  /** The sums of the snapshots that the mode reads. */
  ghost predicate SumsAre(
    env: Env, mode: string, start: Snapshot, end: Snapshot, inputs: seq<MetricRef>, sum: PointSum)
  {
    && (mode != "end" ==> sum.valStart == Total(env, ValuesIn(env, inputs, start)))
    && (mode == "end" || mode == "delta" ==> sum.valEnd == Total(env, ValuesIn(env, inputs, end)))
  }

  ghost predicate AllAvailable(env: Env, mode: string, start: Snapshot, end: Snapshot, inputs: seq<MetricRef>)
  {
    forall r :: r in inputs ==> Available(env, mode, start, end, r)
  }

  lemma NoSums(env: Env, mode: string, start: Snapshot, end: Snapshot)
    ensures SumsAre(env, mode, start, end, [], PointSum(0.0, 0.0, [], false))
  {
    assert ValuesIn(env, [], start) == [] && ValuesIn(env, [], end) == [];
  }

  lemma MissingNext(
    env: Env, mode: string, start: Snapshot, end: Snapshot, front: seq<MetricRef>, r: MetricRef, acc: PointSum)
    requires PointMode(mode) && ValidRef(env, r) && MissingAre(env, mode, start, end, front, acc.missing)
    ensures MissingAre(env, mode, start, end, front + [r], PointStep(env, mode, start, end, acc, r).missing)
  {
    InputMeaning(env, mode, start, end, r);
    hide Available, InputValue, ValidRef, ReadIn, PointMode;
  }

  lemma SumsNext(
    env: Env, mode: string, start: Snapshot, end: Snapshot, front: seq<MetricRef>, r: MetricRef, acc: PointSum)
    requires PointMode(mode) && ValidRef(env, r) && Available(env, mode, start, end, r)
    requires SumsAre(env, mode, start, end, front, acc)
    ensures SumsAre(env, mode, start, end, front + [r], PointStep(env, mode, start, end, acc, r))
  {
    InputMeaning(env, mode, start, end, r);
    hide Available, InputValue, ValuesIn, Total, ValidRef, ReadIn, PointMode;
    if mode != "end" {
      ValuesNext(env, front, r, start);
      TotalNext(env, ValuesIn(env, front, start), ReadIn(env, r, start).value);
    }
    if mode == "end" || mode == "delta" {
      ValuesNext(env, front, r, end);
      TotalNext(env, ValuesIn(env, front, end), ReadIn(env, r, end).value);
    }
  }

  lemma {:induction false} PrefixSums(
    env: Env, mode: string, start: Snapshot, end: Snapshot, inputs: seq<MetricRef>)
    requires PointMode(mode) && ValidRefs(env, inputs)
    ensures var sum := PointSumOf(env, mode, start, end, inputs);
      && MissingAre(env, mode, start, end, inputs, sum.missing)
      && (AllAvailable(env, mode, start, end, inputs) ==> SumsAre(env, mode, start, end, inputs, sum))
  {
    hide ValidRef, Available, MissingAre, SumsAre, PointStep, PointSumOf, PointMode;
    if inputs == [] {
      NoSums(env, mode, start, end);
      NoInputs(env, mode, start, end);
      NoneMissing(env, mode, start, end);
    } else {
      var front, last := inputs[..|inputs| - 1], inputs[|inputs| - 1];
      assert inputs == front + [last] && last in inputs;
      var acc := PointSumOf(env, mode, start, end, front);
      PrefixSums(env, mode, start, end, front);
      NextInput(env, mode, start, end, front, last);
      MissingNext(env, mode, start, end, front, last, acc);
      if AllAvailable(env, mode, start, end, inputs) { SumsNext(env, mode, start, end, front, last, acc); }
    }
  }

  lemma NoneMissing(env: Env, mode: string, start: Snapshot, end: Snapshot)
    ensures MissingAre(env, mode, start, end, [], [])
  {
  }

  /** No input is missing iff all are available. */
  lemma MissingIffUnavailable(
    env: Env, mode: string, start: Snapshot, end: Snapshot, inputs: seq<MetricRef>, missing: seq<string>)
    requires MissingAre(env, mode, start, end, inputs, missing)
    ensures missing == [] <==> AllAvailable(env, mode, start, end, inputs)
  {
    hide Available;
    if missing == [] {
      forall r | r in inputs ensures Available(env, mode, start, end, r) { assert r.key !in missing; }
    } else {
      assert missing[0] in missing;
    }
  }

  // ----- the result -----

  /** A falling counter loses its value under these policies. */
  predicate Clears(policy: string)
  {
    policy == "no_grade" || policy == "skip"
  }

  /** The value of a point mode when no input is missing, and the status that goes with it. */
  ghost predicate PointMeasured(env: Env, s: SLISpec, start: Snapshot, end: Snapshot, r: SLIResult)
  {
    var a, b := Total(env, ValuesIn(env, s.inputs, start)), Total(env, ValuesIn(env, s.inputs, end));
    match s.mode
    case "single" => r.value == Some(a) && Judged(s, a, r.status)
    case "start" => r.value == Some(a) && Judged(s, a, r.status)
    case "end" => r.value == Some(b) && Judged(s, b, r.status)
    case "delta" =>
      var v := env.sub(b, a);
      if v >= 0.0 then r.value == Some(v) && Judged(s, v, r.status)
      else if Clears(s.onCounterReset) then r.value.None? && r.status == "skip"
      else r.value == Some(v) && r.status == if s.onCounterReset == "fail" then "fail" else "warn"
    case _ => false
  }

  lemma FinishedMeasured(env: Env, s: SLISpec, start: Snapshot, end: Snapshot, res: SLIResult, sum: PointSum)
    requires PointMode(s.mode) && res.value.None? && SumsAre(env, s.mode, start, end, s.inputs, sum)
    ensures PointMeasured(env, s, start, end, Finished(env, s, res, sum))
  {
    JudgeMeaning(s, res, sum.valStart);
    JudgeMeaning(s, res, sum.valEnd);
    JudgeMeaning(s, res, env.sub(sum.valEnd, sum.valStart));
    hide WithValue, Judged, ValuesIn, Total;
  }

  /** The missing inputs of a result, and its value and status when there are none. */
  ghost predicate PointReported(env: Env, s: SLISpec, start: Snapshot, end: Snapshot, r: SLIResult)
  {
    && MissingAre(env, s.mode, start, end, s.inputs, r.inputsMissing)
    && if AllAvailable(env, s.mode, start, end, s.inputs) then PointMeasured(env, s, start, end, r)
       else r.value.None? && r.status == "skip"
  }

  /** What a point mode reports. */
  lemma PointResultMeaning(env: Env, s: SLISpec, start: Snapshot, end: Snapshot)
    requires PointMode(s.mode) && ValidSelectors(env, s)
    ensures PointReported(env, s, start, end, PointResult(env, s, start, end))
  {
    SelectorsAreValid(env, s);
    PrefixSums(env, s.mode, start, end, s.inputs);
    var sum := PointSumOf(env, s.mode, start, end, s.inputs);
    var res := BaseResult(s).(inputsUsed := InputKeys(s.inputs), inputsMissing := sum.missing);
    FinishedShape(env, s, res, sum);
    MissingIffUnavailable(env, s.mode, start, end, s.inputs, sum.missing);
    if sum.missing == [] { FinishedMeasured(env, s, start, end, res, sum); }
    hide ValidSelectors, ValidRefs, PointMode, PointSumOf, Finished, PointMeasured;
    hide MissingAre, AllAvailable, SumsAre;
  }

  /** An unknown mode measures nothing. */
  lemma UnknownMode(env: Env, s: SLISpec, start: Snapshot, end: Snapshot)
    requires s.mode !in ["single", "start", "end", "delta"]
    ensures var r := PointResult(env, s, start, end); r.value.None? && r.status == "skip"
  {
    hide PointSumOf;
  }
}
