/**
 What two contract identities compare, stated on the specs (pkg/slo/engine/comparability.go): which modes and which
 reset policies are one, which input lists are one, and that the policies that are one measure the same.
 */
module ContractMeaning {
  import opened GoStrings
  import opened Sorting
  import opened Selectors
  import opened Summaries
  import opened Multiplicity
  import opened Measurement
  import opened Evaluation
  import opened Identity
  import opened IdentityProperties
  import opened IdentitySoundness
  import opened PairingAddition
  import opened IdentityExchange
  import opened IdentityCompleteness
  import opened PointMeaning
  import opened EngineMeaning

  // ----- the coordinates -----

  /** The legacy mode single is start. */
  predicate SameMode(m: string, n: string)
  {
    m == n || (m in ["single", "start"] && n in ["single", "start"])
  }

  /** The lists are the same for the mode: as sets for the extremes, in proportion for the percentiles, in the first two
      and as sets for a ratio, and in order for every other mode. */
  ghost predicate SameInputLists(mode: string, a: seq<string>, b: seq<string>)
  {
    match mode
    case "window_min" => Elements(a) == Elements(b)
    case "window_max" => Elements(a) == Elements(b)
    case "window_p95" => Proportional(a, b)
    case "window_p99" => Proportional(a, b)
    case "window_ratio" =>
      a == b || (|a| >= 2 && |b| >= 2 && a[0] == b[0] && a[1] == b[1] && Elements(a) == Elements(b))
    case _ => a == b
  }

  lemma ModeMeaning(m: string, n: string)
    ensures CanonicalMode(m) == CanonicalMode(n) <==> SameMode(m, n)
  {
  }

  lemma ResetMeaning(p: string, q: string)
    ensures ResetEffect(p) == ResetEffect(q) <==> (Clears(p) <==> Clears(q))
  {
    assert |"clear"| == 5 && |"preserve"| == 8;
  }

  lemma RatioListsMeaning(a: seq<string>, b: seq<string>)
    ensures EquivalentKeys(WINDOW_RATIO, a, b) <==> SameInputLists(WINDOW_RATIO, a, b)
  {
    hide Elements;
    RatioIsNeither();
    if |a| >= 2 && |b| >= 2 {
      assert a[..2] == [a[0], a[1]] && b[..2] == [b[0], b[1]];
      assert a[..2] == b[..2] <==> a[..2][0] == b[..2][0] && a[..2][1] == b[..2][1];
    }
  }

  lemma ListsMeaning(mode: string, a: seq<string>, b: seq<string>)
    ensures EquivalentKeys(CanonicalMode(mode), a, b) <==> SameInputLists(mode, a, b)
  {
    hide Elements, Proportional;
    RatioListsMeaning(a, b);
  }

  /** Two specs have one contract identity iff they agree on id, unit, kind, mode, for delta on whether a falling
      counter loses its value, and on the inputs as the mode sees them. */
  lemma ContractCoordinates(digest: Digest, s: SLISpec, t: SLISpec)
    requires NoCollision(digest, Encode(ContractFields(s)), Encode(ContractFields(t)))
    ensures ContractIDOf(digest, s) == ContractIDOf(digest, t) <==>
      && s.id == t.id && s.unit == t.unit && s.kind == t.kind && SameMode(s.mode, t.mode)
      && (s.mode == "delta" ==> (Clears(s.onCounterReset) <==> Clears(t.onCounterReset)))
      && SameInputLists(s.mode, IdentityKeys(s.inputs), IdentityKeys(t.inputs))
  {
    ContractIDExact(digest, s, t);
    ModeMeaning(s.mode, t.mode);
    ResetMeaning(s.onCounterReset, t.onCounterReset);
    CanonicalKeysExact(CanonicalMode(s.mode), IdentityKeys(s.inputs), IdentityKeys(t.inputs));
    ListsMeaning(s.mode, IdentityKeys(s.inputs), IdentityKeys(t.inputs));
    hide CanonicalKeysOf, IdentityKey, SameInputLists, EquivalentKeys, ContractIDOf, CanonicalMode, ResetEffect;
    hide Encode, ContractFields, SameMode, Clears;
  }

  /** Two window identities are one iff the modes are one and the windows equal. */
  lemma WindowCoordinates(digest: Digest, s: SLISpec, v: string, t: SLISpec, w: string)
    requires NoCollision(digest, Encode(WindowFields(s, v)), Encode(WindowFields(t, w)))
    ensures WindowIDOf(digest, s, v) == WindowIDOf(digest, t, w) <==> SameMode(s.mode, t.mode) && v == w
  {
    WindowIDExact(digest, s, v, t, w);
    ModeMeaning(s.mode, t.mode);
    hide WindowIDOf, CanonicalMode, SameMode, Encode, WindowFields;
  }

  // ----- reset policies -----

  /** Every counter falls from 1 to 0. */
  function Falling(keys: set<string>): Observations
  {
    Observations(map k | k in keys :: 1.0, Zeros(keys), false, false, [])
  }

  lemma {:induction false} TotalOfOnes(values: seq<real>)
    requires forall i :: 0 <= i < |values| ==> values[i] == 1.0
    ensures Total(With(Plus), values) == |values| as real
  {
    if values != [] { TotalOfOnes(values[..|values| - 1]); }
  }

  /** The totals of counters that fall. */
  lemma FallingTotals(inputs: seq<MetricRef>)
    requires ExactInputs(inputs)
    ensures var env, d := With(Plus), Falling(Elements(InputKeys(inputs)));
      && Total(env, ValuesIn(env, inputs, d.start)) == |inputs| as real
      && Total(env, ValuesIn(env, inputs, d.end)) == 0.0
      && forall x :: x in inputs ==> x.key in d.start && x.key in d.end
  {
    var env, keys := With(Plus), InputKeys(inputs);
    var d := Falling(Elements(keys));
    PlusIsArithmetic();
    ExactSelectors(inputs);
    InputsHeld(inputs);
    ExactReadings(env, inputs, d.start);
    ExactReadings(env, inputs, d.end);
    TotalOfZeros(env, Elements(keys), keys);
    TotalOfOnes(Summands(d.start, keys));
    hide Total, InputKeys, ValuesIn, Commutative, ExactInputs;
  }

  lemma ExactAllAvailable(env: Env, mode: string, start: Snapshot, end: Snapshot, inputs: seq<MetricRef>)
    requires forall x :: x in inputs ==> x.selector.None? && x.key in start && x.key in end
    ensures AllAvailable(env, mode, start, end, inputs)
  {
  }

  lemma NegativeDelta(env: Env, s: SLISpec, start: Snapshot, end: Snapshot, r: SLIResult)
    requires s.mode == DELTA && PointReported(env, s, start, end, r) && AllAvailable(env, s.mode, start, end, s.inputs)
    requires env.sub(Total(env, ValuesIn(env, s.inputs, end)), Total(env, ValuesIn(env, s.inputs, start))) < 0.0
    ensures r.value.None? <==> Clears(s.onCounterReset)
  {
    hide Total, ValuesIn, Judged, AllAvailable, MissingAre, Clears;
  }

  lemma WithSubtracts(add: Addition, x: real, y: real)
    ensures With(add).sub(x, y) == x - y
  {
  }

  /** A delta of counters that fall loses its value iff the policy clears. */
  lemma FallingDelta(s: SLISpec)
    requires s.mode == DELTA && ExactInputs(s.inputs) && s.inputs != []
    ensures ResultOf(With(Plus), s, Falling(Elements(InputKeys(s.inputs)))).value.None? <==> Clears(s.onCounterReset)
  {
    hide *;
    var env, d := With(Plus), Falling(Elements(InputKeys(s.inputs)));
    ExactIsValid(env, s);
    ExactSelectors(s.inputs);
    DeltaIsPoint(env, s, d);
    PointResultMeaning(env, s, d.start, d.end);
    FallingTotals(s.inputs);
    ExactAllAvailable(env, s.mode, d.start, d.end, s.inputs);
    WithSubtracts(Plus, 0.0, |s.inputs| as real);
    NegativeDelta(env, s, d.start, d.end, PointResult(env, s, d.start, d.end));
  }

  lemma DeltaIsPoint(env: Env, s: SLISpec, d: Observations)
    requires s.mode == DELTA
    ensures ResultOf(env, s, d) == PointResult(env, s, d.start, d.end) && PointMode(s.mode)
  {
    hide PointResult, WindowResult;
  }

  lemma ExactSelectors(inputs: seq<MetricRef>)
    requires ExactInputs(inputs)
    ensures forall x :: x in inputs ==> x.selector.None?
  {
  }

  lemma InputsHeld(inputs: seq<MetricRef>)
    ensures forall x :: x in inputs ==> x.key in Elements(InputKeys(inputs))
  {
    forall x | x in inputs ensures x.key in Elements(InputKeys(inputs)) {
      var i :| 0 <= i < |inputs| && inputs[i] == x;
      assert InputKeys(inputs)[i] == x.key;
    }
  }

  /** A delta of nothing is never negative. */
  lemma EmptyDelta(env: Env, s: SLISpec, d: Observations)
    requires s.mode == DELTA && s.inputs == [] && Arithmetic(env)
    ensures ResultOf(env, s, d).value == Some(0.0) && ResultOf(env, s, d).inputsMissing == []
  {
    ExactIsValid(env, s);
    PointResultMeaning(env, s, d.start, d.end);
    DeltaIsPoint(env, s, d);
    MissingIffUnavailable(env, s.mode, d.start, d.end, s.inputs, ResultOf(env, s, d).inputsMissing);
    assert ValuesIn(env, [], d.start) == [] && ValuesIn(env, [], d.end) == [];
    hide ResultOf, PointResult, Commutative, Judged, ValuesIn, ValidSelectors;
  }

  lemma EmptySame(env: Env, s: SLISpec, t: SLISpec, d: Observations)
    requires s.mode == t.mode == DELTA && s.inputs == t.inputs == [] && Arithmetic(env)
    ensures SameMeasurement(ResultOf(env, s, d), ResultOf(env, t, d))
  {
    EmptyDelta(env, s, d);
    EmptyDelta(env, t, d);
    SkippedIffNoValue(env, s, d);
    SkippedIffNoValue(env, t, d);
    hide ResultOf;
  }

  lemma SameContractIffReset(s: SLISpec, t: SLISpec)
    requires s.mode == DELTA && t == s.(onCounterReset := t.onCounterReset)
    ensures SameContract(s, t) <==> (Clears(s.onCounterReset) <==> Clears(t.onCounterReset))
  {
    ResetMeaning(s.onCounterReset, t.onCounterReset);
    hide CanonicalKeysOf, IdentityKeys, ResetEffect, Clears;
  }

  /** Two deltas of exact inputs that differ in their reset policies only share a contract iff they measure the same on
      all observations; without inputs they always measure the same. */
  lemma ResetExact(s: SLISpec, t: SLISpec)
    requires s.mode == DELTA && t == s.(onCounterReset := t.onCounterReset) && ExactInputs(s.inputs)
    ensures SameContract(s, t) || s.inputs == [] <==>
      forall env, d :: Arithmetic(env) ==> SameMeasurement(ResultOf(env, s, d), ResultOf(env, t, d))
  {
    SameContractIffReset(s, t);
    hide *;
    if SameContract(s, t) || s.inputs == [] {
      forall env: Env, d: Observations | Arithmetic(env)
        ensures SameMeasurement(ResultOf(env, s, d), ResultOf(env, t, d))
      {
        if SameContract(s, t) {
          ExactIsValid(env, s);
          ExactIsValid(env, t);
          ContractSound(env, s, t, d);
        } else {
          EmptySame(env, s, t, d);
        }
      }
    } else {
      FallingDelta(s);
      FallingDelta(t);
      PlusIsArithmetic();
      DifferentValues(ResultOf(With(Plus), s, Falling(Elements(InputKeys(s.inputs)))),
        ResultOf(With(Plus), t, Falling(Elements(InputKeys(t.inputs)))));
    }
  }

  lemma DifferentValues(a: SLIResult, b: SLIResult)
    requires a.value.None? != b.value.None?
    ensures !SameMeasurement(a, b)
  {
  }
}
