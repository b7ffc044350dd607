/** Equal measurement identity means equal measurement, on every snapshot and in every compute mode. */
module IdentitySoundness {
  import opened GoStrings
  import opened Sorting
  import opened Selectors
  import opened SelectorProperties
  import opened Summaries
  import opened Multiplicity
  import opened Percentile
  import opened Measurement
  import opened Evaluation
  import opened Identity
  import opened IdentityProperties

  // ----- point modes -----

  lemma SameInputSameValue(env: Env, m: string, n: string, start: Snapshot, end: Snapshot, r: MetricRef, q: MetricRef)
    requires CanonicalMode(m) == CanonicalMode(n)
    requires ValidRef(env, r) && ValidRef(env, q) && SameInput(r, q)
    ensures InputValue(env, m, start, end, r) == InputValue(env, n, start, end, q)
  {
    hide ResolveOf, SameSeries, KeyOf, ValidSelector;
    if r.selector.Some? {
      var s, t := r.selector.value, q.selector.value;
      KeyDeterminesSelector(env, s, t);
      SameKeySameResolution(env, s, t, start);
      SameKeySameResolution(env, s, t, end);
    }
  }

  ghost predicate SameSum(a: PointSum, b: PointSum)
  {
    a.valStart == b.valStart && a.valEnd == b.valEnd && (a.missing == [] <==> b.missing == [])
  }

  lemma {:induction false} SameInputsSameSum(
    env: Env, m: string, n: string, start: Snapshot, end: Snapshot, a: seq<MetricRef>, b: seq<MetricRef>)
    requires CanonicalMode(m) == CanonicalMode(n) && |a| == |b|
    requires forall i :: 0 <= i < |a| ==> ValidRef(env, a[i]) && ValidRef(env, b[i]) && SameInput(a[i], b[i])
    ensures SameSum(PointSumOf(env, m, start, end, a), PointSumOf(env, n, start, end, b))
    decreases |a|
  {
    hide InputValue, ValidRef, SameInput, CanonicalMode;
    if a != [] {
      var k := |a| - 1;
      SameInputsSameSum(env, m, n, start, end, a[..k], b[..k]);
      SameInputSameValue(env, m, n, start, end, a[k], b[k]);
    }
  }

  /** Same value, and skipped or not alike. */
  predicate SameMeasurement(a: SLIResult, b: SLIResult)
  {
    a.value == b.value && (a.status == STATUS_SKIP <==> b.status == STATUS_SKIP)
    && (a.inputsMissing == [] <==> b.inputsMissing == [])
  }

  lemma SameSumSameFinish(env: Env, s: SLISpec, t: SLISpec, x: SLIResult, y: SLIResult, a: PointSum, b: PointSum)
    requires CanonicalMode(s.mode) == CanonicalMode(t.mode)
    requires s.mode == DELTA ==> ResetEffect(s.onCounterReset) == ResetEffect(t.onCounterReset)
    requires a.valStart == b.valStart && a.valEnd == b.valEnd && x.value == y.value == None
    ensures Finished(env, s, x, a).value == Finished(env, t, y, b).value
  {
    FinishedMeaning(env, s, x, a);
    FinishedMeaning(env, t, y, b);
    hide Finished;
  }

  /** The value of a finished point measurement, from the folded mode and the reset effect alone. */
  function FinishedValue(env: Env, mode: string, effect: string, sum: PointSum): Option<real>
  {
    if mode == START then Some(sum.valStart)
    else if mode == END then Some(sum.valEnd)
    else if mode == DELTA then
      var v := env.sub(sum.valEnd, sum.valStart);
      if v < 0.0 && effect == "clear" then None else Some(v)
    else None
  }

  lemma FinishedMeaning(env: Env, s: SLISpec, res: SLIResult, sum: PointSum)
    requires res.value.None?
    ensures Finished(env, s, res, sum).value ==
      FinishedValue(env, CanonicalMode(s.mode), ResetEffect(s.onCounterReset), sum)
  {
    hide Verdict;
  }

  lemma SamePairs(env: Env, s: SLISpec, t: SLISpec)
    requires ValidSelectors(env, s) && ValidSelectors(env, t)
    requires IdentityKeys(s.inputs) == IdentityKeys(t.inputs)
    ensures |s.inputs| == |t.inputs|
    ensures forall i :: 0 <= i < |s.inputs| ==>
      ValidRef(env, s.inputs[i]) && ValidRef(env, t.inputs[i]) && SameInput(s.inputs[i], t.inputs[i])
  {
    hide IdentityKey, KeyOf, ValidSelector;
    assert |s.inputs| == |IdentityKeys(s.inputs)| == |IdentityKeys(t.inputs)| == |t.inputs|;
    forall i | 0 <= i < |s.inputs|
      ensures ValidRef(env, s.inputs[i]) && ValidRef(env, t.inputs[i]) && SameInput(s.inputs[i], t.inputs[i])
    {
      assert s.inputs[i] in s.inputs && t.inputs[i] in t.inputs;
      assert IdentityKeys(s.inputs)[i] == IdentityKeys(t.inputs)[i];
      IdentityKeyExact(s.inputs[i], t.inputs[i]);
    }
  }

  lemma PointSound(env: Env, s: SLISpec, t: SLISpec, start: Snapshot, end: Snapshot)
    requires ValidSelectors(env, s) && ValidSelectors(env, t)
    requires CanonicalMode(s.mode) == CanonicalMode(t.mode)
    requires s.mode == DELTA ==> ResetEffect(s.onCounterReset) == ResetEffect(t.onCounterReset)
    requires IdentityKeys(s.inputs) == IdentityKeys(t.inputs)
    ensures SameMeasurement(PointResult(env, s, start, end), PointResult(env, t, start, end))
  {
    SamePairs(env, s, t);
    hide PointSumOf, Finished, ValidSelectors, SameInput, ValidRef, CanonicalMode, ResetEffect, IdentityKey;
    SameInputsSameSum(env, s.mode, t.mode, start, end, s.inputs, t.inputs);
    var a := PointSumOf(env, s.mode, start, end, s.inputs);
    var b := PointSumOf(env, t.mode, start, end, t.inputs);
    var x := BaseResult(s).(inputsUsed := InputKeys(s.inputs), inputsMissing := a.missing);
    var y := BaseResult(t).(inputsUsed := InputKeys(t.inputs), inputsMissing := b.missing);
    SameSumSameFinish(env, s, t, x, y, a, b);
    FinishedShape(env, s, x, a);
    FinishedShape(env, t, y, b);
  }

  // ----- pools -----

  /** How often `v` is observed under the keys, a key counting as often as it occurs. */
  ghost function Weight(keys: seq<string>, samples: seq<Snapshot>, v: real): nat
  {
    if keys == [] then 0
    else multiset(Observed(keys[0], samples))[v] + Weight(keys[1..], samples, v)
  }

  lemma {:induction false} WeightAppend(a: seq<string>, b: seq<string>, samples: seq<Snapshot>, v: real)
    ensures Weight(a + b, samples, v) == Weight(a, samples, v) + Weight(b, samples, v)
  {
    if a == [] {
      assert a + b == b;
    } else {
      assert (a + b)[1..] == a[1..] + b && (a + b)[0] == a[0];
      WeightAppend(a[1..], b, samples, v);
    }
  }

  lemma FactorOut(k: nat, w: nat)
    requires k > 0
    ensures w + (k - 1) * w == k * w
  {
  }

  lemma RepNext(k: nat, a: seq<string>)
    ensures Rep(k, a) == if k == 0 then [] else a + Rep(k - 1, a)
  {
  }

  lemma NoWeight(samples: seq<Snapshot>, v: real, w: nat)
    ensures Weight([], samples, v) == 0 == 0 * w
  {
  }

  lemma {:induction false} WeightRep(k: nat, a: seq<string>, samples: seq<Snapshot>, v: real)
    ensures Weight(Rep(k, a), samples, v) == k * Weight(a, samples, v)
  {
    hide *;
    RepNext(k, a);
    if k == 0 {
      NoWeight(samples, v, Weight(a, samples, v));
    } else {
      WeightRep(k - 1, a, samples, v);
      WeightAppend(a, Rep(k - 1, a), samples, v);
      FactorOut(k, Weight(a, samples, v));
    }
  }

  lemma WeightRemove(b: seq<string>, i: nat, samples: seq<Snapshot>, v: real)
    requires i < |b|
    ensures Weight(b, samples, v) ==
      multiset(Observed(b[i], samples))[v] + Weight(b[..i] + b[i + 1..], samples, v)
  {
    var front, back := b[..i], b[i..];
    assert b == front + back && back[1..] == b[i + 1..] && back[0] == b[i];
    WeightAppend(front, back, samples, v);
    WeightAppend(front, b[i + 1..], samples, v);
    assert Weight(back, samples, v) == multiset(Observed(b[i], samples))[v] + Weight(b[i + 1..], samples, v);
    hide Weight, Observed;
  }

  lemma RemoveAt<T>(b: seq<T>, i: nat)
    requires i < |b|
    ensures multiset(b[..i] + b[i + 1..]) == multiset(b) - multiset{b[i]}
  {
    assert b == b[..i] + [b[i]] + b[i + 1..];
  }

  lemma {:induction false} WeightPermutation(a: seq<string>, b: seq<string>, samples: seq<Snapshot>, v: real)
    requires multiset(a) == multiset(b)
    ensures Weight(a, samples, v) == Weight(b, samples, v)
    decreases |a|
  {
    assert |a| == |multiset(a)| == |multiset(b)| == |b|;
    if a != [] {
      assert a[0] in multiset(b);
      var i :| 0 <= i < |b| && b[i] == a[0];
      RemoveAt(b, i);
      TailMultiset(a);
      WeightPermutation(a[1..], b[..i] + b[i + 1..], samples, v);
      WeightRemove(b, i, samples, v);
    }
  }

  lemma CountAppend(a: seq<real>, b: seq<real>, v: real)
    ensures multiset(a + b)[v] == multiset(a)[v] + multiset(b)[v]
  {
  }

  function ValueIn(key: string, sample: Snapshot): seq<real>
  {
    if key in sample then [sample[key]] else []
  }

  lemma SampleValuesNext(keys: seq<string>, key: string, sample: Snapshot)
    ensures SampleValues(keys + [key], sample) == SampleValues(keys, sample) + ValueIn(key, sample)
  {
    assert (keys + [key])[..|keys|] == keys;
  }

  lemma NoSampleWeight(sample: Snapshot, v: real)
    ensures multiset(SampleValues([], sample))[v] == Weight([], [sample], v)
  {
  }

  lemma {:induction false} SampleWeight(keys: seq<string>, sample: Snapshot, v: real)
    ensures multiset(SampleValues(keys, sample))[v] == Weight(keys, [sample], v)
  {
    hide *;
    if keys == [] {
      NoSampleWeight(sample, v);
    } else {
      var front, key := keys[..|keys| - 1], keys[|keys| - 1];
      assert keys == front + [key];
      SampleWeight(front, sample, v);
      SampleValuesNext(front, key, sample);
      CountAppend(SampleValues(front, sample), ValueIn(key, sample), v);
      WeightAppend(front, [key], [sample], v);
      OneWeight(key, [sample], v);
      ObservedOne(key, sample);
    }
  }

  lemma OneWeight(key: string, samples: seq<Snapshot>, v: real)
    ensures Weight([key], samples, v) == multiset(Observed(key, samples))[v]
  {
    hide Observed;
    assert [key][1..] == [];
  }

  lemma ObservedOne(key: string, sample: Snapshot)
    ensures Observed(key, [sample]) == ValueIn(key, sample)
  {
    assert [sample][..0] == [];
    assert Observed(key, [sample][..0]) == [];
  }

  lemma {:induction false} WeightSplit(keys: seq<string>, samples: seq<Snapshot>, v: real)
    requires samples != []
    ensures Weight(keys, samples, v) ==
      Weight(keys, samples[..|samples| - 1], v) + Weight(keys, [samples[|samples| - 1]], v)
  {
    if keys != [] {
      var n := |samples| - 1;
      WeightSplit(keys[1..], samples, v);
      ObservedOne(keys[0], samples[n]);
      CountAppend(Observed(keys[0], samples[..n]), Observed(keys[0], [samples[n]]), v);
    }
  }

  /** The pool as a multiset: every observation of a key, once per occurrence of the key. */
  lemma {:induction false} PoolWeight(keys: seq<string>, samples: seq<Snapshot>, v: real)
    ensures multiset(Pool(keys, samples))[v] == Weight(keys, samples, v)
  {
    if samples == [] {
      NoSamplesNoWeight(keys, v);
    } else {
      var n := |samples| - 1;
      PoolWeight(keys, samples[..n], v);
      SampleWeight(keys, samples[n], v);
      WeightSplit(keys, samples, v);
      CountAppend(Pool(keys, samples[..n]), SampleValues(keys, samples[n]), v);
    }
  }

  lemma {:induction false} NoSamplesNoWeight(keys: seq<string>, v: real)
    ensures Weight(keys, [], v) == 0
  {
    if keys != [] { NoSamplesNoWeight(keys[1..], v); }
  }

  lemma {:induction false} WeightPositive(keys: seq<string>, samples: seq<Snapshot>, v: real)
    ensures Weight(keys, samples, v) > 0 <==> exists k :: k in keys && v in Observed(k, samples)
  {
    if keys != [] {
      WeightPositive(keys[1..], samples, v);
      assert keys == [keys[0]] + keys[1..];
      assert v in Observed(keys[0], samples) <==> multiset(Observed(keys[0], samples))[v] > 0;
    }
  }

  /** Which values are in the pool depends on the set of keys only. */
  lemma PoolElements(keys: seq<string>, samples: seq<Snapshot>, v: real)
    ensures v in Pool(keys, samples) <==> exists k :: k in keys && v in Observed(k, samples)
  {
    PoolWeight(keys, samples, v);
    WeightPositive(keys, samples, v);
    assert v in Pool(keys, samples) <==> v in multiset(Pool(keys, samples));
  }

  lemma SamePoolElements(a: seq<string>, b: seq<string>, samples: seq<Snapshot>)
    requires Elements(a) == Elements(b)
    ensures forall v :: v in Pool(a, samples) <==> v in Pool(b, samples)
    ensures Pool(a, samples) == [] <==> Pool(b, samples) == []
  {
    hide Pool, Observed;
    assert forall k :: k in a <==> k in Elements(a);
    assert forall k :: k in b <==> k in Elements(b);
    forall v ensures v in Pool(a, samples) <==> v in Pool(b, samples) {
      PoolElements(a, samples, v);
      PoolElements(b, samples, v);
    }
    NonEmptyTransfer(Pool(a, samples), Pool(b, samples));
    NonEmptyTransfer(Pool(b, samples), Pool(a, samples));
  }

  lemma NonEmptyTransfer(p: seq<real>, q: seq<real>)
    requires forall v :: v in p ==> v in q
    ensures p != [] ==> q != []
  {
    if p != [] {
      var v := p[0];
      assert v in p;
      assert v in q;
    }
  }

  lemma {:induction false} MissingEmptyIff(keys: seq<string>, samples: seq<Snapshot>)
    ensures MissingOf(keys, samples) == [] <==> forall k :: k in keys ==> Seen(k, samples)
  {
    hide Seen;
    if keys != [] {
      var n := |keys| - 1;
      MissingEmptyIff(keys[..n], samples);
      assert keys == keys[..n] + [keys[n]];
    }
  }

  lemma SameMissing(a: seq<string>, b: seq<string>, samples: seq<Snapshot>)
    requires Elements(a) == Elements(b)
    ensures MissingOf(a, samples) == [] <==> MissingOf(b, samples) == []
  {
    hide Seen, MissingOf;
    MissingEmptyIff(a, samples);
    MissingEmptyIff(b, samples);
    assert forall k :: k in a <==> k in Elements(a);
    assert forall k :: k in b <==> k in Elements(b);
  }

  // ----- window values -----

  lemma {:induction false} LeastIsLeast(v: real, values: seq<real>)
    ensures var m := LeastFrom(v, values);
      (m == v || m in values) && m <= v && forall x :: x in values ==> m <= x
  {
    if values != [] {
      var n := |values| - 1;
      LeastIsLeast(v, values[..n]);
      assert values == values[..n] + [values[n]];
    }
  }

  lemma {:induction false} GreatestIsGreatest(v: real, values: seq<real>)
    ensures var m := GreatestFrom(v, values);
      (m == v || m in values) && m >= v && forall x :: x in values ==> m >= x
  {
    if values != [] {
      var n := |values| - 1;
      GreatestIsGreatest(v, values[..n]);
      assert values == values[..n] + [values[n]];
    }
  }

  lemma SameExtremes(p: seq<real>, q: seq<real>)
    requires p != [] && q != [] && forall v :: v in p <==> v in q
    ensures LeastFrom(p[0], p[1..]) == LeastFrom(q[0], q[1..])
    ensures GreatestFrom(p[0], p[1..]) == GreatestFrom(q[0], q[1..])
  {
    LeastIsLeast(p[0], p[1..]);
    LeastIsLeast(q[0], q[1..]);
    GreatestIsGreatest(p[0], p[1..]);
    GreatestIsGreatest(q[0], q[1..]);
    assert p == [p[0]] + p[1..] && q == [q[0]] + q[1..];
    assert forall v :: v in p <==> v == p[0] || v in p[1..];
    assert forall v :: v in q <==> v == q[0] || v in q[1..];
    assert LeastFrom(p[0], p[1..]) in q && LeastFrom(q[0], q[1..]) in p;
    assert GreatestFrom(p[0], p[1..]) in q && GreatestFrom(q[0], q[1..]) in p;
  }

  /** Proportional key lists pool proportional values, so their percentiles agree. */
  lemma SamePercentile(pct: nat, a: seq<string>, b: seq<string>, samples: seq<Snapshot>)
    requires 1 <= pct <= 100 && Proportional(a, b)
    requires Pool(a, samples) != [] && Pool(b, samples) != []
    ensures PercentileOf(pct, Pool(a, samples)) == PercentileOf(pct, Pool(b, samples))
  {
    hide Pool, Rep, PercentileOf;
    var p: nat, q: nat :| p > 0 && q > 0 && multiset(Rep(p, a)) == multiset(Rep(q, b));
    var x, y := Pool(a, samples), Pool(b, samples);
    var rx, ry := Rep(p, x), Rep(q, y);
    forall v ensures multiset(rx)[v] == multiset(ry)[v] {
      RepCount(p, x, v);
      RepCount(q, y, v);
      PoolWeight(a, samples, v);
      PoolWeight(b, samples, v);
      WeightRep(p, a, samples, v);
      WeightRep(q, b, samples, v);
      WeightPermutation(Rep(p, a), Rep(q, b), samples, v);
    }
    assert multiset(rx) == multiset(ry);
    PercentileReplication(pct, p, x);
    PercentileReplication(pct, q, y);
    PercentilePermutation(pct, rx, ry);
  }

  lemma ProportionalElements(a: seq<string>, b: seq<string>)
    requires Proportional(a, b)
    ensures Elements(a) == Elements(b)
  {
    var p: nat, q: nat :| p > 0 && q > 0 && multiset(Rep(p, a)) == multiset(Rep(q, b));
    forall k ensures k in a <==> k in b {
      RepCount(p, a, k);
      RepCount(q, b, k);
      MulAtLeast(multiset(a)[k], p);
      MulAtLeast(multiset(b)[k], q);
      assert k in a <==> k in multiset(a);
      assert k in b <==> k in multiset(b);
    }
  }

  lemma EquivalentElements(mode: string, a: seq<string>, b: seq<string>)
    requires EquivalentKeys(mode, a, b)
    ensures Elements(a) == Elements(b)
  {
    hide Proportional, Elements;
    if PercentileMode(mode) { ProportionalElements(a, b); }
  }

  lemma SameRatio(env: Env, a: seq<string>, b: seq<string>, samples: seq<Snapshot>)
    requires EquivalentKeys(WINDOW_RATIO, a, b)
    ensures RatioOf(env, a, samples) == RatioOf(env, b, samples)
  {
    hide Observed, Total, Elements;
    if |a| >= 2 && |b| >= 2 {
      assert a[0] == a[..2][0] == b[..2][0] == b[0];
      assert a[1] == a[..2][1] == b[..2][1] == b[1];
    }
  }

  predicate PercentileOfMode(mode: string, p: nat)
  {
    (mode == WINDOW_P95 && p == 95) || (mode == WINDOW_P99 && p == 99)
  }

  lemma PercentileAggregated(
    env: Env, mode: string, p: nat, keys: seq<string>, samples: seq<Snapshot>, pool: seq<real>)
    requires PercentileOfMode(mode, p) && pool != []
    ensures Aggregated(env, mode, keys, samples, pool) == WindowValue(PercentileOf(p, pool))
  {
    hide PercentileOf, RatioOf, Total, LeastFrom, GreatestFrom;
  }

  lemma RatioAggregated(env: Env, mode: string, keys: seq<string>, samples: seq<Snapshot>, pool: seq<real>)
    requires mode == WINDOW_RATIO && pool != []
    ensures Aggregated(env, mode, keys, samples, pool) == match RatioOf(env, keys, samples)
      case Ratio(v) => WindowValue(v)
      case NoRatio(reason) => NoValue(reason)
  {
    hide RatioOf, PercentileOf, Total, LeastFrom, GreatestFrom;
  }

  lemma SameAggregate(env: Env, mode: string, a: seq<string>, b: seq<string>, samples: seq<Snapshot>)
    requires EquivalentKeys(mode, a, b)
    requires Pool(a, samples) != [] && Pool(b, samples) != []
    ensures Aggregated(env, mode, a, samples, Pool(a, samples)) ==
      Aggregated(env, mode, b, samples, Pool(b, samples))
  {
    hide Pool, Elements, Proportional, RatioOf, PercentileOf, Total;
    EquivalentElements(mode, a, b);
    SamePoolElements(a, b, samples);
    if mode == WINDOW_MIN || mode == WINDOW_MAX {
      SameExtremes(Pool(a, samples), Pool(b, samples));
    } else if mode == WINDOW_P95 {
      SamePercentile(95, a, b, samples);
    } else if mode == WINDOW_P99 {
      SamePercentile(99, a, b, samples);
    } else if mode == WINDOW_RATIO {
      SameRatio(env, a, b, samples);
    }
  }

  lemma WindowSound(env: Env, s: SLISpec, t: SLISpec, samples: seq<Snapshot>)
    requires s.mode == t.mode
    requires EquivalentKeys(s.mode, InputKeys(s.inputs), InputKeys(t.inputs))
    ensures SameMeasurement(WindowResult(env, s, samples), WindowResult(env, t, samples))
  {
    var a, b := InputKeys(s.inputs), InputKeys(t.inputs);
    EquivalentElements(s.mode, a, b);
    SamePoolElements(a, b, samples);
    SameMissing(a, b, samples);
    hide Pool, MissingOf, EquivalentKeys, Aggregated, Elements, WithValue;
    var p, q := Pool(a, samples), Pool(b, samples);
    if p != [] {
      SameAggregate(env, s.mode, a, b, samples);
      var v := Aggregated(env, s.mode, a, samples, p);
      if v.WindowValue? {
        WithValueShape(s, BaseResult(s).(inputsUsed := a, inputsMissing := MissingOf(a, samples)), v.value);
        WithValueShape(t, BaseResult(t).(inputsUsed := b, inputsMissing := MissingOf(b, samples)), v.value);
      }
    }
  }

  // ----- every mode -----

  lemma WindowInputsExact(env: Env, s: SLISpec)
    requires ValidSelectors(env, s) && WindowMode(s.mode)
    ensures forall r :: r in s.inputs ==> r.selector.None?
  {
    hide ValidRef;
  }

  lemma UnfoldedModes(m: string, n: string)
    requires CanonicalMode(m) == CanonicalMode(n)
    ensures WindowMode(m) == WindowMode(n) && (WindowMode(m) ==> m == n)
    ensures !WindowMode(m) ==> forall a, b :: EquivalentKeys(CanonicalMode(m), a, b) <==> a == b
  {
    hide Elements, Proportional;
  }

  lemma ContractSound(env: Env, s: SLISpec, t: SLISpec, d: Observations)
    requires ValidSelectors(env, s) && ValidSelectors(env, t)
    requires SameContract(s, t)
    ensures SameMeasurement(ResultOf(env, s, d), ResultOf(env, t, d))
  {
    var ks, kt := IdentityKeys(s.inputs), IdentityKeys(t.inputs);
    CanonicalKeysExact(CanonicalMode(s.mode), ks, kt);
    UnfoldedModes(s.mode, t.mode);
    if WindowMode(s.mode) {
      WindowInputsExact(env, s);
      WindowInputsExact(env, t);
      hide ValidSelectors, CanonicalKeysOf, IdentityKey, EquivalentKeys, WindowResult, PointResult;
      EquivalentInputs(s.mode, s.inputs, t.inputs);
      WindowSound(env, s, t, d.samples);
    } else {
      hide ValidSelectors, CanonicalKeysOf, IdentityKey, EquivalentKeys, WindowResult, PointResult, WindowMode;
      PointSound(env, s, t, d.start, d.end);
    }
  }

  /** Identity soundness: two validated specs with one contract identity have the same value and are
      skipped alike, whatever was fetched, in every compute mode and under any float arithmetic. */
  lemma IdentitySound(env: Env, digest: Digest, s: SLISpec, t: SLISpec, d: Observations)
    requires ValidSelectors(env, s) && ValidSelectors(env, t)
    requires NoCollision(digest, Encode(ContractFields(s)), Encode(ContractFields(t)))
    requires ContractIDOf(digest, s) == ContractIDOf(digest, t)
    ensures SameMeasurement(ResultOf(env, s, d), ResultOf(env, t, d))
  {
    hide ValidSelectors, SameContract, ResultOf, Encode, ContractFields;
    ContractIDExact(digest, s, t);
    ContractSound(env, s, t, d);
  }
}
