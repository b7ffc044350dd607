/**
 Where two contract identities stand for one measurement (pkg/slo/engine/comparability.go): the code keeps the
 order of the inputs of a sum because float addition is not associative, but it is commutative with unit 0, so
 the order of the first two inputs never shows.
 */
module IdentityExchange {
  import opened GoStrings
  import opened Sorting
  import opened Selectors
  import opened SelectorProperties
  import opened Summaries
  import opened Measurement
  import opened Evaluation
  import opened Identity
  import opened IdentityProperties
  import opened IdentitySoundness
  import opened PairingAddition

  /** The inputs are the same but for an exchange of the first two. */
  predicate InputsExchanged(a: seq<MetricRef>, b: seq<MetricRef>)
  {
    && |a| == |b| >= 2 && SameInput(a[0], b[1]) && SameInput(a[1], b[0])
    && forall i :: 2 <= i < |a| ==> SameInput(a[i], b[i])
  }

  ghost predicate ValidRefs(env: Env, inputs: seq<MetricRef>)
  {
    forall r :: r in inputs ==> ValidRef(env, r)
  }

  lemma NoInputs(env: Env, m: string, start: Snapshot, end: Snapshot)
    ensures PointSumOf(env, m, start, end, []) == PointSum(0.0, 0.0, [], false)
  {
  }

  lemma NextInput(env: Env, m: string, start: Snapshot, end: Snapshot, front: seq<MetricRef>, r: MetricRef)
    ensures PointSumOf(env, m, start, end, front + [r]) ==
      PointStep(env, m, start, end, PointSumOf(env, m, start, end, front), r)
  {
    assert (front + [r])[..|front|] == front;
  }

  lemma TwoInputs(env: Env, m: string, start: Snapshot, end: Snapshot, a: seq<MetricRef>)
    requires |a| == 2
    ensures PointSumOf(env, m, start, end, a) ==
      PointStep(env, m, start, end,
        PointStep(env, m, start, end, PointSum(0.0, 0.0, [], false), a[0]), a[1])
  {
    hide *;
    NoInputs(env, m, start, end);
    NextInput(env, m, start, end, [], a[0]);
    NextInput(env, m, start, end, [a[0]], a[1]);
    assert [] + [a[0]] == [a[0]] && [a[0]] + [a[1]] == a;
  }

  lemma TwoSteps(
    env: Env, m: string, n: string, start: Snapshot, end: Snapshot,
    x: MetricRef, y: MetricRef, x': MetricRef, y': MetricRef)
    requires Commutative(env.add)
    requires InputValue(env, m, start, end, x) == InputValue(env, n, start, end, x')
    requires InputValue(env, m, start, end, y) == InputValue(env, n, start, end, y')
    ensures var zero := PointSum(0.0, 0.0, [], false);
      SameSum(PointStep(env, m, start, end, PointStep(env, m, start, end, zero, x), y),
        PointStep(env, n, start, end, PointStep(env, n, start, end, zero, y'), x'))
  {
    hide InputValue;
  }

  /** The sums are the same, and inputs are missing alike. */
  lemma {:induction false} ExchangedSameSum(
    env: Env, m: string, n: string, start: Snapshot, end: Snapshot, a: seq<MetricRef>, b: seq<MetricRef>)
    requires CanonicalMode(m) == CanonicalMode(n) && Commutative(env.add)
    requires ValidRefs(env, a) && ValidRefs(env, b) && InputsExchanged(a, b)
    ensures SameSum(PointSumOf(env, m, start, end, a), PointSumOf(env, n, start, end, b))
    decreases |a|
  {
    hide InputValue, ValidRef, SameInput, CanonicalMode, PointSumOf, Commutative;
    if |a| == 2 {
      assert a[0] in a && a[1] in a && b[0] in b && b[1] in b;
      SameInputSameValue(env, m, n, start, end, a[0], b[1]);
      SameInputSameValue(env, m, n, start, end, a[1], b[0]);
      TwoInputs(env, m, start, end, a);
      TwoInputs(env, n, start, end, b);
      TwoSteps(env, m, n, start, end, a[0], a[1], b[1], b[0]);
    } else {
      var k := |a| - 1;
      assert a[k] in a && b[k] in b && a == a[..k] + [a[k]] && b == b[..k] + [b[k]];
      ExchangedSameSum(env, m, n, start, end, a[..k], b[..k]);
      SameInputSameValue(env, m, n, start, end, a[k], b[k]);
      NextInput(env, m, start, end, a[..k], a[k]);
      NextInput(env, n, start, end, b[..k], b[k]);
    }
  }

  /** The two specs agree on everything that the contract states beside the inputs. */
  predicate SameHeader(s: SLISpec, t: SLISpec)
  {
    && s.id == t.id && s.unit == t.unit && s.kind == t.kind && CanonicalMode(s.mode) == CanonicalMode(t.mode)
    && (s.mode == DELTA ==> ResetEffect(s.onCounterReset) == ResetEffect(t.onCounterReset))
  }

  lemma ExchangedIdentities(a: seq<MetricRef>, b: seq<MetricRef>)
    ensures FirstTwoExchanged(IdentityKeys(a), IdentityKeys(b)) <==> InputsExchanged(a, b)
  {
    var x, y := IdentityKeys(a), IdentityKeys(b);
    hide IdentityKey, SameInput;
    if |a| == |b| >= 2 {
      IdentityKeyExact(a[0], b[1]);
      IdentityKeyExact(a[1], b[0]);
      forall i | 2 <= i < |a| ensures SameInput(a[i], b[i]) <==> x[2..][i - 2] == y[2..][i - 2] {
        IdentityKeyExact(a[i], b[i]);
      }
    }
  }

  /** Exchanging the first two inputs of a point mode, exact keys or selectors, changes no measurement. */
  lemma ExchangeSound(env: Env, s: SLISpec, t: SLISpec, d: Observations)
    requires ValidSelectors(env, s) && ValidSelectors(env, t) && Commutative(env.add)
    requires PointMode(s.mode) && SameHeader(s, t)
    requires FirstTwoExchanged(IdentityKeys(s.inputs), IdentityKeys(t.inputs))
    ensures SameMeasurement(ResultOf(env, s, d), ResultOf(env, t, d))
  {
    ExchangedIdentities(s.inputs, t.inputs);
    SelectorsAreValid(env, s);
    SelectorsAreValid(env, t);
    ExchangedSameSum(env, s.mode, t.mode, d.start, d.end, s.inputs, t.inputs);
    var a := PointSumOf(env, s.mode, d.start, d.end, s.inputs);
    var b := PointSumOf(env, t.mode, d.start, d.end, t.inputs);
    PointsAlike(s.mode, t.mode);
    hide PointSumOf, Finished, ValidSelectors, CanonicalMode, ResetEffect, IdentityKey, WindowMode, Commutative;
    var x := BaseResult(s).(inputsUsed := InputKeys(s.inputs), inputsMissing := a.missing);
    var y := BaseResult(t).(inputsUsed := InputKeys(t.inputs), inputsMissing := b.missing);
    SameSumSameFinish(env, s, t, x, y, a, b);
    FinishedShape(env, s, x, a);
    FinishedShape(env, t, y, b);
  }

  lemma PointsAlike(m: string, n: string)
    requires PointMode(m) && CanonicalMode(m) == CanonicalMode(n)
    ensures !WindowMode(m) && !WindowMode(n)
  {
  }

  lemma SelectorsAreValid(env: Env, s: SLISpec)
    requires ValidSelectors(env, s)
    ensures ValidRefs(env, s.inputs)
  {
    hide ValidSelector, KeyOf;
  }

  // ----- a failing input -----

  /** The sum at the start of the run of two series. */
  function SumOfTwo(k: string, l: string): SLISpec
  {
    var inputs := [MetricRef(k, "", None), MetricRef(l, "", None)];
    SLISpec("sum", "", "", "", "", inputs, START, "", None)
  }

  /** The sum of `k` and `l` and the sum of `l` and `k` measure the same on every observation, and have two
      contract identities. */
  lemma OneSumTwoIdentities(digest: Digest, k: string, l: string)
    requires k != l
    requires NoCollision(digest, Encode(ContractFields(SumOfTwo(k, l))), Encode(ContractFields(SumOfTwo(l, k))))
    ensures ContractIDOf(digest, SumOfTwo(k, l)) != ContractIDOf(digest, SumOfTwo(l, k))
    ensures forall env: Env, d :: Commutative(env.add) ==>
      SameMeasurement(ResultOf(env, SumOfTwo(k, l), d), ResultOf(env, SumOfTwo(l, k), d))
  {
    var s, t := SumOfTwo(k, l), SumOfTwo(l, k);
    ContractIDExact(digest, s, t);
    TwoKeysDiffer(k, l);
    hide *;
    forall env: Env, d: Observations | Commutative(env.add)
      ensures SameMeasurement(ResultOf(env, s, d), ResultOf(env, t, d))
    {
      TwoKeysExchanged(env, k, l);
      ExchangeSound(env, s, t, d);
    }
  }

  lemma TwoKeysDiffer(k: string, l: string)
    requires k != l
    ensures !SameContract(SumOfTwo(k, l), SumOfTwo(l, k))
  {
    var s, t := SumOfTwo(k, l), SumOfTwo(l, k);
    var x, y := IdentityKeys(s.inputs), IdentityKeys(t.inputs);
    IdentityKeyExact(s.inputs[0], t.inputs[0]);
    CanonicalKeysExact(START, x, y);
    hide IdentityKey, CanonicalKeysOf;
    assert x[0] != y[0];
  }

  lemma TwoKeysExchanged(env: Env, k: string, l: string)
    ensures var s, t := SumOfTwo(k, l), SumOfTwo(l, k);
      && ValidSelectors(env, s) && ValidSelectors(env, t) && PointMode(s.mode) && SameHeader(s, t)
      && FirstTwoExchanged(IdentityKeys(s.inputs), IdentityKeys(t.inputs))
  {
    hide ExactKeyIdentity;
  }
}
