/**
 The converse of identity soundness (pkg/slo/engine/comparability.go): specs of exact inputs that agree on
 everything but their inputs and always measure the same have one contract identity, or are sums that differ by
 an exchange of their first two inputs.  In every other case some commutative addition and some observations tell
 the two specs apart; subtraction and division are exact.
 */
module IdentityCompleteness {
  import opened GoStrings
  import opened Sorting
  import opened Selectors
  import opened SelectorProperties
  import opened Summaries
  import opened Multiplicity
  import opened Percentile
  import opened Measurement
  import opened Evaluation
  import opened Identity
  import opened IdentityProperties
  import opened IdentitySoundness
  import opened PairingAddition
  import opened IdentityExchange
  import opened PercentileCompleteness

  ghost predicate ExactInputs(inputs: seq<MetricRef>)
  {
    forall r :: r in inputs ==> r.selector.None?
  }

  // ----- from input keys to identity keys -----

  lemma IdentityOfExact(inputs: seq<MetricRef>, i: nat)
    requires ExactInputs(inputs) && i < |inputs|
    ensures IdentityKeys(inputs)[i] == ExactKeyIdentity(InputKeys(inputs)[i])
  {
    assert inputs[i] in inputs;
  }

  lemma IdentityElements(a: seq<MetricRef>, b: seq<MetricRef>)
    requires ExactInputs(a) && ExactInputs(b) && Elements(InputKeys(a)) <= Elements(InputKeys(b))
    ensures Elements(IdentityKeys(a)) <= Elements(IdentityKeys(b))
  {
    hide IdentityKey, ExactKeyIdentity;
    forall x | x in IdentityKeys(a) ensures x in IdentityKeys(b) {
      var i :| 0 <= i < |a| && IdentityKeys(a)[i] == x;
      IdentityOfExact(a, i);
      assert InputKeys(a)[i] in Elements(InputKeys(b));
      var j :| 0 <= j < |b| && InputKeys(b)[j] == InputKeys(a)[i];
      IdentityOfExact(b, j);
    }
  }

  lemma IdentityCounts(a: seq<MetricRef>, b: seq<MetricRef>, p: nat, q: nat, x: string)
    requires ExactInputs(a) && ExactInputs(b)
    requires forall k :: p * multiset(InputKeys(a))[k] == q * multiset(InputKeys(b))[k]
    ensures p * multiset(IdentityKeys(a))[x] == q * multiset(IdentityKeys(b))[x]
  {
    hide IdentityKey, ExactKeyIdentity;
    if x in IdentityKeys(a) + IdentityKeys(b) {
      var k := KeyBehind(a + b, x);
      ExactIdentityCount(a, k);
      ExactIdentityCount(b, k);
    } else {
      assert x !in multiset(IdentityKeys(a)) && x !in multiset(IdentityKeys(b));
    }
  }

  lemma KeyBehind(inputs: seq<MetricRef>, x: string) returns (k: string)
    requires ExactInputs(inputs) && exists r :: r in inputs && IdentityKey(r) == x
    ensures x == ExactKeyIdentity(k)
  {
    var r :| r in inputs && IdentityKey(r) == x;
    k := r.key;
  }

  lemma ProportionalInputs(a: seq<MetricRef>, b: seq<MetricRef>)
    requires ExactInputs(a) && ExactInputs(b) && Proportional(InputKeys(a), InputKeys(b))
    ensures Proportional(IdentityKeys(a), IdentityKeys(b))
  {
    var p: nat, q: nat :| p > 0 && q > 0 && multiset(Rep(p, InputKeys(a))) == multiset(Rep(q, InputKeys(b)));
    forall k ensures p * multiset(InputKeys(a))[k] == q * multiset(InputKeys(b))[k] {
      RepCount(p, InputKeys(a), k);
      RepCount(q, InputKeys(b), k);
    }
    hide IdentityKeys, InputKeys;
    forall x ensures p * multiset(IdentityKeys(a))[x] == q * multiset(IdentityKeys(b))[x] {
      IdentityCounts(a, b, p, q, x);
    }
    CountsAreProportional(IdentityKeys(a), IdentityKeys(b), p, q);
  }

  lemma SameKeysSameIdentities(a: seq<MetricRef>, b: seq<MetricRef>, n: nat)
    requires ExactInputs(a) && ExactInputs(b) && n <= |a| && n <= |b| && InputKeys(a)[..n] == InputKeys(b)[..n]
    ensures IdentityKeys(a)[..n] == IdentityKeys(b)[..n]
  {
    hide IdentityKey, ExactKeyIdentity;
    forall i | 0 <= i < n ensures IdentityKeys(a)[i] == IdentityKeys(b)[i] {
      assert InputKeys(a)[..n][i] == InputKeys(b)[..n][i];
      IdentityOfExact(a, i);
      IdentityOfExact(b, i);
    }
  }

  /** For exact inputs the identity keys are equivalent iff the input keys are. */
  lemma EquivalentIdentities(mode: string, a: seq<MetricRef>, b: seq<MetricRef>)
    requires ExactInputs(a) && ExactInputs(b)
    ensures EquivalentKeys(mode, IdentityKeys(a), IdentityKeys(b)) <==> EquivalentKeys(mode, InputKeys(a), InputKeys(b))
  {
    if EquivalentKeys(mode, IdentityKeys(a), IdentityKeys(b)) { EquivalentInputs(mode, a, b); }
    if EquivalentKeys(mode, InputKeys(a), InputKeys(b)) {
      hide Proportional, IdentityKey, Elements;
      if Elements(InputKeys(a)) == Elements(InputKeys(b)) {
        IdentityElements(a, b);
        IdentityElements(b, a);
      }
      if PercentileMode(mode) && !ExtremeMode(mode) {
        ProportionalInputs(a, b);
      } else if !ExtremeMode(mode) {
        if mode == WINDOW_RATIO && |a| >= 2 && |b| >= 2 {
          SameKeysSameIdentities(a, b, 2);
        } else {
          assert |a| == |InputKeys(a)| == |InputKeys(b)| == |b|;
          SameKeysSameIdentities(a, b, |a|);
          assert IdentityKeys(a)[..|a|] == IdentityKeys(a) && IdentityKeys(b)[..|a|] == IdentityKeys(b);
        }
      }
    }
  }

  // ----- one snapshot -----

  /** Everything was observed once, with the values of `d`. */
  function Once(d: Snapshot): Observations
  {
    Observations(d, d, true, false, [d])
  }

  /** Differences and quotients are exact, and addition is commutative with unit 0. */
  ghost predicate Arithmetic(env: Env)
  {
    && Commutative(env.add)
    && (forall x, y :: env.sub(x, y) == x - y)
    && (forall x, y :: y != 0.0 ==> env.div(x, y) == x / y)
  }

  function With(add: Addition): Env
  {
    Env(add, (x: real, y: real) => x - y, (x: real, y: real) => if y == 0.0 then 0.0 else x / y,
      (x: string) => true, (x: string, y: string) => true)
  }

  lemma WithIsArithmetic(add: Addition)
    requires Commutative(add)
    ensures Arithmetic(With(add)) && With(add).add == add
  {
  }

  function Plus(x: real, y: real): real
  {
    x + y
  }

  lemma PlusIsArithmetic()
    ensures Arithmetic(With(Plus))
  {
  }

  lemma {:induction false} PointMissing(env: Env, mode: string, d: Snapshot, inputs: seq<MetricRef>)
    requires ExactInputs(inputs)
    ensures PointSumOf(env, mode, d, d, inputs).missing == [] <==> forall r :: r in inputs ==> r.key in d
  {
    hide ResolveInput;
    if inputs != [] {
      var n := |inputs| - 1;
      assert inputs == inputs[..n] + [inputs[n]];
      PointMissing(env, mode, d, inputs[..n]);
    }
  }

  lemma KeysPresent(inputs: seq<MetricRef>, d: Snapshot)
    ensures (forall r :: r in inputs ==> r.key in d) <==> Elements(InputKeys(inputs)) <= d.Keys
  {
    forall r | r in inputs ensures r.key in Elements(InputKeys(inputs)) {
      var i :| 0 <= i < |inputs| && inputs[i] == r;
      assert InputKeys(inputs)[i] == r.key;
    }
    forall k | k in Elements(InputKeys(inputs)) ensures exists r :: r in inputs && r.key == k {
      var i :| 0 <= i < |inputs| && InputKeys(inputs)[i] == k;
      assert inputs[i] in inputs;
    }
  }

  lemma PointMissingResult(env: Env, s: SLISpec, d: Snapshot)
    ensures PointResult(env, s, d, d).inputsMissing == PointSumOf(env, s.mode, d, d, s.inputs).missing
  {
    var sum := PointSumOf(env, s.mode, d, d, s.inputs);
    FinishedShape(env, s, BaseResult(s).(inputsUsed := InputKeys(s.inputs), inputsMissing := sum.missing), sum);
    hide Finished, PointSumOf;
  }

  lemma WindowMissingResult(env: Env, s: SLISpec, samples: seq<Snapshot>)
    ensures WindowResult(env, s, samples).inputsMissing == MissingOf(InputKeys(s.inputs), samples)
  {
    hide Aggregated, Pool, MissingOf, Verdict;
  }

  /** Inputs are missing iff some key was not observed. */
  lemma MissingTells(env: Env, s: SLISpec, d: Snapshot)
    requires ExactInputs(s.inputs)
    ensures ResultOf(env, s, Once(d)).inputsMissing == [] <==> Elements(InputKeys(s.inputs)) <= d.Keys
  {
    KeysPresent(s.inputs, d);
    PointMissing(env, s.mode, d, s.inputs);
    PointMissingResult(env, s, d);
    WindowMissingResult(env, s, [d]);
    MissingEmptyIff(InputKeys(s.inputs), [d]);
    hide PointResult, WindowResult, PointSumOf, MissingOf, InputKeys, WindowMode;
    forall k ensures Seen(k, [d]) <==> k in d {
      if k in d { assert k in [d][0]; }
    }
  }

  /** Different sets of keys: observing one of them leaves inputs of the other missing. */
  lemma KeySetsTell(s: SLISpec, t: SLISpec) returns (env: Env, d: Observations)
    requires ExactInputs(s.inputs) && ExactInputs(t.inputs)
    requires Elements(InputKeys(s.inputs)) != Elements(InputKeys(t.inputs))
    ensures Arithmetic(env) && !SameMeasurement(ResultOf(env, s, d), ResultOf(env, t, d))
  {
    var x, y := Elements(InputKeys(s.inputs)), Elements(InputKeys(t.inputs));
    var seen := if y <= x then y else x;
    var sample: Snapshot := map k | k in seen :: 1.0;
    assert sample.Keys == seen;
    PlusIsArithmetic();
    env := With(Plus);
    MissingTells(env, s, sample);
    MissingTells(env, t, sample);
    hide ResultOf;
    d := Once(sample);
  }

  // ----- sums -----

  /** Different positive values for the keys. */
  function Coded(code: map<string, nat>): Snapshot
  {
    map k | k in code :: code[k] as real
  }

  /** In these values the keys can be read. */
  lemma ReadKeys(code: map<string, nat>, a: seq<string>, b: seq<string>)
    requires Coding(code) && forall k :: k in a || k in b ==> k in code
    ensures Summands(Coded(code), a) == Summands(Coded(code), b) ==> a == b
    ensures FirstTwoExchanged(Summands(Coded(code), a), Summands(Coded(code), b)) ==> FirstTwoExchanged(a, b)
  {
    var x, y := Summands(Coded(code), a), Summands(Coded(code), b);
    forall i, j | 0 <= i < |a| && 0 <= j < |b| && x[i] == y[j] ensures a[i] == b[j] {
      assert a[i] in a && b[j] in b;
    }
    if FirstTwoExchanged(x, y) {
      forall i | 2 <= i < |a| ensures a[i] == b[i] {
        assert x[2..][i - 2] == y[2..][i - 2];
      }
    }
  }

  lemma CodedLeaves(code: map<string, nat>, keys: seq<string>)
    requires Coding(code) && forall k :: k in keys ==> k in code
    ensures Leaves(Summands(Coded(code), keys), Coded(code).Values)
    ensures forall x :: x in Summands(Coded(code), keys) ==> x > 0.0
  {
    forall x | x in Summands(Coded(code), keys) ensures x in Coded(code).Values && x > 0.0 {
      var i :| 0 <= i < |keys| && Summands(Coded(code), keys)[i] == x;
      assert keys[i] in keys && Coded(code)[keys[i]] == x;
    }
  }

  /** An arithmetic from whose sums the keys can be read. */
  ghost predicate Reads(env: Env, lift: real -> nat, base: nat, code: map<string, nat>)
  {
    Arithmetic(env) && env.add == Pairing(lift, base) && Coding(code) && Lifts(lift, base, Coded(code).Values)
  }

  lemma SomeReading(keys: set<string>, atLeast: nat)
    returns (env: Env, lift: real -> nat, base: nat, code: map<string, nat>)
    ensures Reads(env, lift, base, code) && code.Keys == keys && base > atLeast
  {
    var bound: nat;
    code, bound := SomeCoding(keys);
    assert 0.0 !in Coded(code).Values;
    lift, base := SomeLift(Coded(code).Values, atLeast);
    PairingIsCommutative(lift, base);
    WithIsArithmetic(Pairing(lift, base));
    env := With(Pairing(lift, base));
  }

  lemma TotalsTell(
    env: Env, lift: real -> nat, base: nat, code: map<string, nat>, a: seq<string>, b: seq<string>)
    requires Reads(env, lift, base, code) && forall k :: k in a || k in b ==> k in code
    requires Total(env, Summands(Coded(code), a)) == Total(env, Summands(Coded(code), b))
    ensures a == b || FirstTwoExchanged(a, b)
  {
    var d := Coded(code);
    CodedLeaves(code, a);
    CodedLeaves(code, b);
    ReadKeys(code, a, b);
    TotalInjective(env, lift, base, d.Values, Summands(d, a), Summands(d, b));
  }

  lemma TotalPositive(env: Env, lift: real -> nat, base: nat, code: map<string, nat>, keys: seq<string>)
    requires Reads(env, lift, base, code) && forall k :: k in keys ==> k in code
    ensures Total(env, Summands(Coded(code), keys)) >= 0.0
  {
    CodedLeaves(code, keys);
    TotalPairs(env, lift, base, Coded(code).Values, Summands(Coded(code), keys));
    hide Pairing, Lifts, LastPair;
  }

  // ----- the point modes -----

  lemma SummandsNext(d: Snapshot, keys: seq<string>, key: string)
    requires key in d && forall k :: k in keys ==> k in d
    ensures Summands(d, keys + [key]) == Summands(d, keys) + [d[key]]
  {
  }

  lemma ExactStep(env: Env, mode: string, start: Snapshot, end: Snapshot, acc: PointSum, r: MetricRef)
    requires r.selector.None? && r.key in start && r.key in end
    ensures PointStep(env, mode, start, end, acc, r) ==
      acc.(valStart := env.add(acc.valStart, start[r.key]), valEnd := env.add(acc.valEnd, end[r.key]))
  {
  }

  lemma LastInput(inputs: seq<MetricRef>)
    requires inputs != []
    ensures var n := |inputs| - 1;
      inputs == inputs[..n] + [inputs[n]] && InputKeys(inputs) == InputKeys(inputs[..n]) + [inputs[n].key]
  {
  }

  lemma {:induction false} PointTotals(
    env: Env, mode: string, start: Snapshot, end: Snapshot, inputs: seq<MetricRef>)
    requires ExactInputs(inputs) && forall k :: k in InputKeys(inputs) ==> k in start && k in end
    ensures var keys := InputKeys(inputs);
      PointSumOf(env, mode, start, end, inputs) ==
        PointSum(Total(env, Summands(start, keys)), Total(env, Summands(end, keys)), [], false)
  {
    if inputs == [] {
    } else {
      hide PointSumOf, PointStep, Total, Summands, InputKeys;
      var front, last := inputs[..|inputs| - 1], inputs[|inputs| - 1];
      var keys := InputKeys(front);
      LastInput(inputs);
      assert last in inputs && last.key in InputKeys(inputs);
      PointTotals(env, mode, start, end, front);
      NextInput(env, mode, start, end, front, last);
      ExactStep(env, mode, start, end, PointSumOf(env, mode, start, end, front), last);
      SummandsNext(start, keys, last.key);
      SummandsNext(end, keys, last.key);
      TotalNext(env, Summands(start, keys), start[last.key]);
      TotalNext(env, Summands(end, keys), end[last.key]);
    }
  }

  function Zeros(keys: set<string>): Snapshot
  {
    map k | k in keys :: 0.0
  }

  lemma {:induction false} TotalOfZeros(env: Env, all: set<string>, keys: seq<string>)
    requires Commutative(env.add) && forall k :: k in keys ==> k in all
    ensures Total(env, Summands(Zeros(all), keys)) == 0.0
  {
    if keys != [] {
      var n := |keys| - 1;
      TotalOfZeros(env, all, keys[..n]);
      var values := Summands(Zeros(all), keys);
      assert values[..n] == Summands(Zeros(all), keys[..n]);
    }
  }

  /** A counter that rises from 0, or a value that does not change. */
  function Between(mode: string, d: Snapshot): Observations
  {
    Observations(if mode == DELTA then Zeros(d.Keys) else d, d, false, false, [])
  }

  lemma PointValue(
    env: Env, s: SLISpec, lift: real -> nat, base: nat, code: map<string, nat>)
    requires PointMode(s.mode) && ExactInputs(s.inputs) && forall k :: k in InputKeys(s.inputs) ==> k in code
    requires Reads(env, lift, base, code)
    ensures ResultOf(env, s, Between(s.mode, Coded(code))).value ==
      Some(Total(env, Summands(Coded(code), InputKeys(s.inputs))))
  {
    var d := Between(s.mode, Coded(code));
    PointTotals(env, s.mode, d.start, d.end, s.inputs);
    TotalOfZeros(env, code.Keys, InputKeys(s.inputs));
    TotalPositive(env, lift, base, code, InputKeys(s.inputs));
    var sum := PointSumOf(env, s.mode, d.start, d.end, s.inputs);
    FinishedMeaning(env, s, BaseResult(s).(inputsUsed := InputKeys(s.inputs), inputsMissing := sum.missing), sum);
    PointIsNoWindow(s.mode);
    hide Finished, PointSumOf, InputKeys, WindowMode, Commutative, Lifts, Pairing, Total, Summands;
  }

  lemma PointIsNoWindow(mode: string)
    requires PointMode(mode)
    ensures !WindowMode(mode) && (CanonicalMode(mode) == START || mode == END || mode == DELTA)
  {
  }

  /** The point modes: some sum tells any two lists apart that are not exchanged. */
  lemma PointsTell(s: SLISpec, t: SLISpec) returns (env: Env, d: Observations)
    requires ExactInputs(s.inputs) && ExactInputs(t.inputs) && CanonicalMode(s.mode) == CanonicalMode(t.mode)
    requires PointMode(s.mode) && InputKeys(s.inputs) != InputKeys(t.inputs)
    requires !FirstTwoExchanged(InputKeys(s.inputs), InputKeys(t.inputs))
    ensures Arithmetic(env) && !SameMeasurement(ResultOf(env, s, d), ResultOf(env, t, d))
  {
    var a, b := InputKeys(s.inputs), InputKeys(t.inputs);
    hide ResultOf, InputKeys, ExactInputs;
    if Elements(a) != Elements(b) {
      env, d := KeySetsTell(s, t);
    } else {
      var lift, base, code;
      env, lift, base, code := SomeReading(Elements(a), 0);
      SameDelta(s.mode, t.mode);
      d := Between(s.mode, Coded(code));
      PointValue(env, s, lift, base, code);
      PointValue(env, t, lift, base, code);
      if Total(env, Summands(Coded(code), a)) == Total(env, Summands(Coded(code), b)) {
        TotalsTell(env, lift, base, code, a, b);
      }
      hide Total, Pairing, Lifts, Commutative, Summands;
    }
  }

  lemma SameDelta(m: string, n: string)
    requires CanonicalMode(m) == CanonicalMode(n) && PointMode(m)
    ensures PointMode(n) && forall d :: Between(m, d) == Between(n, d)
  {
  }

  lemma NotEmpty(a: seq<MetricRef>, b: seq<MetricRef>)
    requires Elements(InputKeys(a)) == Elements(InputKeys(b)) && InputKeys(a) != InputKeys(b)
    ensures a != [] && b != []
  {
    NoElements(InputKeys(a));
    NoElements(InputKeys(b));
  }

  lemma NoElements<T>(s: seq<T>)
    ensures Elements(s) == {} <==> s == []
  {
    if s != [] { assert s[0] in Elements(s); }
  }

  // ----- the average -----

  function InWindow(samples: seq<Snapshot>): Observations
  {
    Observations(map[], map[], true, false, samples)
  }

  /** The value of a window mode when every key is seen. */
  lemma WindowValueOf(env: Env, s: SLISpec, samples: seq<Snapshot>)
    requires forall k :: k in InputKeys(s.inputs) ==> Seen(k, samples)
    requires Pool(InputKeys(s.inputs), samples) != []
    ensures WindowResult(env, s, samples).value ==
      match Aggregated(env, s.mode, InputKeys(s.inputs), samples, Pool(InputKeys(s.inputs), samples))
      case WindowValue(v) => Some(v)
      case NoValue(_) => None
  {
    MissingEmptyIff(InputKeys(s.inputs), samples);
    hide Aggregated, Pool, MissingOf, Seen, InputKeys, Verdict;
  }

  lemma ResultInWindow(env: Env, s: SLISpec, samples: seq<Snapshot>)
    requires WindowMode(s.mode)
    ensures ResultOf(env, s, InWindow(samples)) == WindowResult(env, s, samples)
  {
    hide WindowResult, PointResult;
  }

  lemma PoolOfNone(keys: seq<string>)
    ensures Pool(keys, []) == []
  {
  }

  lemma PoolNext(keys: seq<string>, samples: seq<Snapshot>, d: Snapshot)
    ensures Pool(keys, samples + [d]) == Pool(keys, samples) + SampleValues(keys, d)
  {
    assert (samples + [d])[..|samples|] == samples;
  }

  /** Observing the keys twice adds their values twice. */
  lemma PoolOfTwo(keys: seq<string>, d: Snapshot)
    requires forall k :: k in keys ==> k in d
    ensures Pool(keys, [d, d]) == Summands(d, keys + keys)
  {
    hide Pool, SampleValues;
    PoolOfNone(keys);
    PoolNext(keys, [], d);
    PoolNext(keys, [d], d);
    assert [] + [d] == [d] && [d] + [d] == [d, d];
    SampleSummands(d, keys);
    assert Summands(d, keys + keys) == Summands(d, keys) + Summands(d, keys);
  }

  lemma AverageValue(env: Env, s: SLISpec, d: Snapshot)
    requires s.mode == WINDOW_AVG && s.inputs != [] && Arithmetic(env)
    requires forall k :: k in InputKeys(s.inputs) ==> k in d
    ensures var keys := InputKeys(s.inputs);
      ResultOf(env, s, InWindow([d, d])).value ==
        Some(Total(env, Summands(d, keys + keys)) / |keys + keys| as real)
  {
    var keys := InputKeys(s.inputs);
    PoolOfTwo(keys, d);
    hide Pool, SampleValues, Total, PercentileOf, RatioOf, LeastFrom, GreatestFrom, Commutative;
    forall k | k in keys ensures Seen(k, [d, d]) { assert k in [d, d][0]; }
    hide Seen;
    WindowValueOf(env, s, [d, d]);
    ResultInWindow(env, s, [d, d]);
    hide WindowResult;
  }

  lemma QuotientsTell(base: nat, p: nat, q: nat, m: nat, n: nat)
    requires m > 0 && n > 0 && base > m + n
    requires Composite(base, p) / m as real == Composite(base, q) / n as real
    ensures Composite(base, p) == Composite(base, q)
  {
    CompositeCode(base, p);
    CompositeCode(base, q);
    hide *;
    CrossMultiply(Code(base, p), Code(base, q), m, n);
    CodeTimes(base, p, n);
    CodeTimes(base, q, m);
    SameRemainder(base, (p + 1) * n, (q + 1) * m, n, m);
    SameQuotient(Code(base, p), Code(base, q), m);
  }

  lemma CompositeCode(base: nat, p: nat)
    ensures Composite(base, p) == Code(base, p) as real
  {
  }

  lemma CodeTimes(base: nat, p: nat, n: nat)
    ensures Code(base, p) * n == base * ((p + 1) * n) + n
  {
  }

  lemma SameQuotient(u: nat, v: nat, n: nat)
    requires n > 0 && u * n == v * n
    ensures u == v
  {
    CancelFactor(n, u, v);
  }

  lemma CrossMultiply(u: nat, v: nat, m: nat, n: nat)
    requires m > 0 && n > 0 && u as real / m as real == v as real / n as real
    ensures u * n == v * m
  {
    var x, y, k, l := u as real, v as real, m as real, n as real;
    assert x == x / k * k && y == y / l * l;
    assert x * l == x / k * k * l && y * k == y / l * l * k;
    assert (u * n) as real == x * l && (v * m) as real == y * k;
  }

  lemma SameRemainder(base: nat, x: nat, y: nat, r: nat, s: nat)
    requires r < base && s < base && base * x + r == base * y + s
    ensures r == s && x == y
  {
    MulLess(base, x, y);
    MulLess(base, y, x);
  }

  lemma DoubledExchange(a: seq<string>, b: seq<string>)
    requires Elements(a) == Elements(b) && a != [] && b != []
    requires a + a == b + b || FirstTwoExchanged(a + a, b + b)
    ensures a == b
  {
    assert |a + a| == |b + b|;
    var n := |a|;
    assert (a + a)[n..] == a && (b + b)[n..] == b;
    if n >= 2 {
      assert (a + a)[n..] == (a + a)[2..][n - 2..] && (b + b)[n..] == (b + b)[2..][n - 2..];
    } else {
      assert a[0] in Elements(b);
    }
  }

  lemma AveragesTell(s: SLISpec, t: SLISpec) returns (env: Env, d: Observations)
    requires ExactInputs(s.inputs) && ExactInputs(t.inputs) && s.mode == t.mode == WINDOW_AVG
    requires InputKeys(s.inputs) != InputKeys(t.inputs)
    ensures Arithmetic(env) && !SameMeasurement(ResultOf(env, s, d), ResultOf(env, t, d))
  {
    var a, b := InputKeys(s.inputs), InputKeys(t.inputs);
    hide ResultOf, InputKeys, ExactInputs;
    if Elements(a) != Elements(b) {
      env, d := KeySetsTell(s, t);
    } else {
      var lift, base, code;
      env, lift, base, code := SomeReading(Elements(a), |a + a| + |b + b|);
      d := InWindow([Coded(code), Coded(code)]);
      NotEmpty(s.inputs, t.inputs);
      AverageValue(env, s, Coded(code));
      AverageValue(env, t, Coded(code));
      AveragesDiffer(env, lift, base, code, a, b);
      hide Total, Pairing, Lifts, Commutative, Summands;
    }
  }

  lemma AveragesDiffer(
    env: Env, lift: real -> nat, base: nat, code: map<string, nat>, a: seq<string>, b: seq<string>)
    requires Reads(env, lift, base, code) && forall k :: k in a || k in b ==> k in code
    requires Elements(a) == Elements(b) && a != [] && b != [] && a != b && base > |a + a| + |b + b|
    ensures Total(env, Summands(Coded(code), a + a)) / |a + a| as real !=
      Total(env, Summands(Coded(code), b + b)) / |b + b| as real
  {
    var d, x, y := Coded(code), a + a, b + b;
    CodedLeaves(code, x);
    CodedLeaves(code, y);
    TotalPairs(env, lift, base, d.Values, Summands(d, x));
    TotalPairs(env, lift, base, d.Values, Summands(d, y));
    var p, q := LastPair(env, lift, Summands(d, x)), LastPair(env, lift, Summands(d, y));
    hide Reads, Total, LastPair, Composite, Summands, Coded, FirstTwoExchanged;
    if Composite(base, p) / |x| as real == Composite(base, q) / |y| as real {
      QuotientsTell(base, p, q, |x|, |y|);
      TotalsTell(env, lift, base, code, x, y);
      DoubledExchange(a, b);
    }
  }

  // ----- the ratio -----

  /** One value for this key and 1 for the others. */
  function Marked(keys: set<string>, key: string, v: real): Snapshot
  {
    map k | k in keys :: if k == key then v else 1.0
  }

  lemma RatioOnce(env: Env, keys: seq<string>, d: Snapshot)
    requires Arithmetic(env) && forall k :: k in keys ==> k in d
    ensures var r := RatioOf(env, keys, [d]);
      if |keys| < 2 || d[keys[1]] == 0.0 then r.NoRatio? else r == Ratio(d[keys[0]] / d[keys[1]])
  {
    if |keys| >= 2 {
      assert keys[0] in keys && keys[1] in keys;
      ObservedOne(keys[0], d);
      ObservedOne(keys[1], d);
      TotalOfOne(env, d[keys[0]]);
      TotalOfOne(env, d[keys[1]]);
      hide Total, Observed, Commutative;
    }
  }

  lemma SeenOnce(k: string, d: Snapshot)
    requires k in d
    ensures Seen(k, [d])
  {
    assert k in [d][0];
  }

  /** When every key is observed once, every key is seen and the pool is not empty. */
  lemma AllSeenOnce(keys: seq<string>, d: Snapshot)
    requires keys != [] && forall k :: k in keys ==> k in d
    ensures Pool(keys, [d]) != [] && forall k :: k in keys ==> Seen(k, [d])
  {
    hide Pool, SampleValues, Seen;
    PoolOfNone(keys);
    PoolNext(keys, [], d);
    SampleSummands(d, keys);
    assert [] + [d] == [d] && |Summands(d, keys)| == |keys|;
    hide Summands;
    forall k | k in keys ensures Seen(k, [d]) { SeenOnce(k, d); }
  }

  lemma RatioValue(env: Env, s: SLISpec, d: Snapshot)
    requires s.mode == WINDOW_RATIO && s.inputs != [] && Arithmetic(env)
    requires forall k :: k in InputKeys(s.inputs) ==> k in d
    ensures var keys := InputKeys(s.inputs);
      ResultOf(env, s, InWindow([d])).value ==
        if |keys| < 2 || d[keys[1]] == 0.0 then None else Some(d[keys[0]] / d[keys[1]])
  {
    var keys := InputKeys(s.inputs);
    hide *;
    assert keys != [];
    AllSeenOnce(keys, d);
    WindowValueOf(env, s, [d]);
    RatioAggregated(env, s.mode, keys, [d], Pool(keys, [d]));
    RatioIsWindow(s.mode);
    ResultInWindow(env, s, [d]);
    RatioOnce(env, keys, d);
  }

  lemma RatioIsWindow(mode: string)
    requires mode == WINDOW_RATIO
    ensures WindowMode(mode)
  {
  }

  /** A denominator that is 0, or a numerator that is 2, tells the first two keys. */
  lemma MarkTells(a: seq<string>, b: seq<string>) returns (d: Snapshot)
    requires a != b && Elements(a) == Elements(b) && (|a| >= 2 && |b| >= 2 ==> a[..2] != b[..2])
    ensures forall k :: k in a || k in b ==> k in d
    ensures (if |a| < 2 || d[a[1]] == 0.0 then None else Some(d[a[0]] / d[a[1]])) !=
      (if |b| < 2 || d[b[1]] == 0.0 then None else Some(d[b[0]] / d[b[1]]))
  {
    ShortLists(a, b);
    var keys := Elements(a);
    assert forall k :: k in a || k in b ==> k in keys by { assert forall k :: k in b ==> k in Elements(b); }
    if |a| < 2 || |b| < 2 {
      d := Marked(keys, "", 1.0);
    } else {
      assert a[0] in a && a[1] in a && b[0] in b && b[1] in b;
      if a[1] != b[1] {
        d := Marked(keys, a[1], 0.0);
      } else {
        assert a[..2] == [a[0], a[1]] && b[..2] == [b[0], b[1]];
        d := Marked(keys, a[0], 2.0);
      }
    }
  }

  lemma ShortLists(a: seq<string>, b: seq<string>)
    requires Elements(a) == Elements(b) && a != b
    ensures |a| >= 2 || |b| >= 2
  {
    NoElements(a);
    NoElements(b);
    if |a| == 1 && |b| == 1 {
      assert a[0] in Elements(b) && b[0] in Elements(a);
    }
  }

  lemma RatiosTell(s: SLISpec, t: SLISpec) returns (env: Env, d: Observations)
    requires ExactInputs(s.inputs) && ExactInputs(t.inputs) && s.mode == t.mode == WINDOW_RATIO
    requires !EquivalentKeys(WINDOW_RATIO, InputKeys(s.inputs), InputKeys(t.inputs))
    ensures Arithmetic(env) && !SameMeasurement(ResultOf(env, s, d), ResultOf(env, t, d))
  {
    var a, b := InputKeys(s.inputs), InputKeys(t.inputs);
    hide ResultOf, InputKeys, ExactInputs, Arithmetic;
    RatioIsNeither();
    if Elements(a) != Elements(b) {
      env, d := KeySetsTell(s, t);
    } else {
      PlusIsArithmetic();
      env := With(Plus);
      var sample := MarkTells(a, b);
      NotEmpty(s.inputs, t.inputs);
      RatioValue(env, s, sample);
      RatioValue(env, t, sample);
      d := InWindow([sample]);
    }
  }

  // ----- percentiles -----

  lemma PercentileValue(env: Env, s: SLISpec, p: nat, samples: seq<Snapshot>)
    requires PercentileOfMode(s.mode, p) && Pool(InputKeys(s.inputs), samples) != []
    requires forall k :: k in InputKeys(s.inputs) ==> Seen(k, samples)
    ensures ResultOf(env, s, InWindow(samples)).value == Some(PercentileOf(p, Pool(InputKeys(s.inputs), samples)))
  {
    hide *;
    WindowValueOf(env, s, samples);
    PercentileAggregated(env, s.mode, p, InputKeys(s.inputs), samples, Pool(InputKeys(s.inputs), samples));
    PercentileIsWindow(s.mode, p);
    ResultInWindow(env, s, samples);
  }

  lemma PercentileIsWindow(mode: string, p: nat)
    requires PercentileOfMode(mode, p)
    ensures WindowMode(mode)
  {
  }

  lemma PercentileModesTell(s: SLISpec, t: SLISpec) returns (env: Env, d: Observations)
    requires ExactInputs(s.inputs) && ExactInputs(t.inputs) && s.mode == t.mode && PercentileMode(s.mode)
    requires !Proportional(InputKeys(s.inputs), InputKeys(t.inputs))
    ensures Arithmetic(env) && !SameMeasurement(ResultOf(env, s, d), ResultOf(env, t, d))
  {
    var a, b := InputKeys(s.inputs), InputKeys(t.inputs);
    hide ResultOf, InputKeys, ExactInputs, Proportional, PercentileOf, Pool, Seen, Arithmetic;
    if Elements(a) != Elements(b) {
      env, d := KeySetsTell(s, t);
    } else {
      PlusIsArithmetic();
      env := With(Plus);
      var p := if s.mode == WINDOW_P95 then 95 else 99;
      var samples := PercentilesTell(p, a, b);
      PercentileValue(env, s, p, samples);
      PercentileValue(env, t, p, samples);
      d := InWindow(samples);
    }
  }

  // ----- every mode -----

  /** The input lists of a sum differ by an exchange of the first two. */
  predicate SumExchanged(s: SLISpec, t: SLISpec)
  {
    PointMode(s.mode) && FirstTwoExchanged(InputKeys(s.inputs), InputKeys(t.inputs))
  }

  /** All other inputs that are not equivalent for the mode are told apart by some observations, under exact
      subtraction and division and some addition that is commutative with unit 0. */
  lemma InputsTell(s: SLISpec, t: SLISpec) returns (env: Env, d: Observations)
    requires ExactInputs(s.inputs) && ExactInputs(t.inputs) && CanonicalMode(s.mode) == CanonicalMode(t.mode)
    requires PointMode(s.mode) || WindowMode(s.mode)
    requires !EquivalentKeys(CanonicalMode(s.mode), InputKeys(s.inputs), InputKeys(t.inputs))
    requires !SumExchanged(s, t)
    ensures Arithmetic(env) && !SameMeasurement(ResultOf(env, s, d), ResultOf(env, t, d))
  {
    ModeKinds(s.mode, t.mode);
    hide ResultOf, InputKeys, ExactInputs, Proportional, Elements, Arithmetic, FirstTwoExchanged;
    if ExtremeMode(s.mode) {
      env, d := KeySetsTell(s, t);
    } else if PercentileMode(s.mode) {
      env, d := PercentileModesTell(s, t);
    } else if s.mode == WINDOW_RATIO {
      env, d := RatiosTell(s, t);
    } else if s.mode == WINDOW_AVG {
      env, d := AveragesTell(s, t);
    } else {
      env, d := PointsTell(s, t);
    }
  }

  lemma ModeKinds(m: string, n: string)
    requires CanonicalMode(m) == CanonicalMode(n) && (PointMode(m) || WindowMode(m))
    ensures PointMode(m) || ExtremeMode(m) || PercentileMode(m) || m == WINDOW_RATIO || m == WINDOW_AVG
    ensures PointMode(m) ==> !ExtremeMode(m) && !PercentileMode(m) && m != WINDOW_RATIO && m != WINDOW_AVG
    ensures PointMode(m) ==> !ExtremeMode(CanonicalMode(m)) && !PercentileMode(CanonicalMode(m))
    ensures PointMode(m) ==> CanonicalMode(m) != WINDOW_RATIO
    ensures !PointMode(m) ==> m == n && CanonicalMode(m) == m
    ensures !(ExtremeMode(m) && PercentileMode(m))
    ensures m == WINDOW_RATIO || m == WINDOW_AVG ==> !ExtremeMode(m) && !PercentileMode(m)
    ensures WINDOW_AVG != WINDOW_RATIO
  {
  }

  lemma ExchangedExact(a: seq<MetricRef>, b: seq<MetricRef>)
    requires ExactInputs(a) && ExactInputs(b) && FirstTwoExchanged(InputKeys(a), InputKeys(b))
    ensures FirstTwoExchanged(IdentityKeys(a), IdentityKeys(b))
  {
    assert |a| == |InputKeys(a)| == |InputKeys(b)| == |b|;
    hide IdentityKey, SameInput;
    forall i, j | 0 <= i < |a| && 0 <= j < |b| && InputKeys(a)[i] == InputKeys(b)[j]
      ensures IdentityKeys(a)[i] == IdentityKeys(b)[j]
    {
      IdentityOfExact(a, i);
      IdentityOfExact(b, j);
    }
    forall i | 2 <= i < |a| ensures IdentityKeys(a)[i] == IdentityKeys(b)[i] {
      assert InputKeys(a)[2..][i - 2] == InputKeys(b)[2..][i - 2];
    }
  }

  /** What holds of equal contracts and of exchanged sums. */
  lemma EqualOrExchanged(env: Env, s: SLISpec, t: SLISpec, d: Observations)
    requires ExactInputs(s.inputs) && ExactInputs(t.inputs) && SameHeader(s, t) && Commutative(env.add)
    requires SameContract(s, t) || SumExchanged(s, t)
    ensures SameMeasurement(ResultOf(env, s, d), ResultOf(env, t, d))
  {
    ExactIsValid(env, s);
    ExactIsValid(env, t);
    hide SameContract, ResultOf, SameMeasurement, ExactInputs, ValidSelectors, SameHeader, Commutative;
    hide FirstTwoExchanged;
    if SameContract(s, t) {
      ContractSound(env, s, t, d);
    } else {
      ExchangedExact(s.inputs, t.inputs);
      ExchangeSound(env, s, t, d);
    }
  }

  /** The contract is exact about inputs but for one family: two specs of exact inputs that agree otherwise measure
      the same on all observations, under every addition that is commutative with unit 0, iff they have one contract
      or are sums whose first two inputs are exchanged.  Exact subtraction and division change nothing. */
  lemma ContractComplete(s: SLISpec, t: SLISpec)
    requires ExactInputs(s.inputs) && ExactInputs(t.inputs) && SameHeader(s, t)
    requires PointMode(s.mode) || WindowMode(s.mode)
    ensures SameContract(s, t) || SumExchanged(s, t) <==>
      forall env: Env, d :: Commutative(env.add) ==> SameMeasurement(ResultOf(env, s, d), ResultOf(env, t, d))
    ensures SameContract(s, t) || SumExchanged(s, t) <==>
      forall env, d :: Arithmetic(env) ==> SameMeasurement(ResultOf(env, s, d), ResultOf(env, t, d))
  {
    var mode := CanonicalMode(s.mode);
    CanonicalKeysExact(mode, IdentityKeys(s.inputs), IdentityKeys(t.inputs));
    EquivalentIdentities(mode, s.inputs, t.inputs);
    ContractIsInputs(s, t);
    ArithmeticCommutes();
    hide *;
    if SameContract(s, t) || SumExchanged(s, t) {
      forall env: Env, d: Observations | Commutative(env.add)
        ensures SameMeasurement(ResultOf(env, s, d), ResultOf(env, t, d))
      {
        EqualOrExchanged(env, s, t, d);
      }
    } else {
      HeaderModes(s, t);
      var env, d := InputsTell(s, t);
    }
  }

  lemma ArithmeticCommutes()
    ensures forall env :: Arithmetic(env) ==> Commutative(env.add)
  {
  }

  lemma HeaderModes(s: SLISpec, t: SLISpec)
    requires SameHeader(s, t)
    ensures CanonicalMode(s.mode) == CanonicalMode(t.mode)
  {
  }

  lemma ContractIsInputs(s: SLISpec, t: SLISpec)
    requires SameHeader(s, t)
    ensures SameContract(s, t) <==>
      CanonicalKeysOf(CanonicalMode(s.mode), IdentityKeys(s.inputs)) ==
      CanonicalKeysOf(CanonicalMode(s.mode), IdentityKeys(t.inputs))
  {
    hide CanonicalKeysOf, IdentityKeys, CanonicalMode, ResetEffect;
  }

  lemma ExactIsValid(env: Env, s: SLISpec)
    requires ExactInputs(s.inputs)
    ensures ValidSelectors(env, s)
  {
  }

  /** Hence they measure the same iff their identities are equal or they are such sums, unless the digest collides
      on the two. */
  lemma IdentityExact(digest: Digest, s: SLISpec, t: SLISpec)
    requires ExactInputs(s.inputs) && ExactInputs(t.inputs) && SameHeader(s, t)
    requires PointMode(s.mode) || WindowMode(s.mode)
    requires NoCollision(digest, Encode(ContractFields(s)), Encode(ContractFields(t)))
    ensures ContractIDOf(digest, s) == ContractIDOf(digest, t) || SumExchanged(s, t) <==>
      forall env: Env, d :: Commutative(env.add) ==> SameMeasurement(ResultOf(env, s, d), ResultOf(env, t, d))
    ensures ContractIDOf(digest, s) == ContractIDOf(digest, t) || SumExchanged(s, t) <==>
      forall env, d :: Arithmetic(env) ==> SameMeasurement(ResultOf(env, s, d), ResultOf(env, t, d))
  {
    hide *;
    ContractIDExact(digest, s, t);
    ContractComplete(s, t);
  }
}
