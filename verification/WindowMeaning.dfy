/**
 What a window mode measures, stated on the inputs and the samples (pkg/slo/engine/engine.go): the least or greatest
 observation, the average of all, the observation at a rank, or the quotient of two totals.
 */
module WindowMeaning {
  import opened GoStrings
  import opened Sorting
  import opened Selectors
  import opened Summaries
  import opened Percentile
  import opened Measurement
  import opened Evaluation
  import opened IdentitySoundness
  import opened PercentileCompleteness
  import opened PointMeaning

  // ----- observations -----

  /** Some input has this value in some sample. */
  ghost predicate Occurs(keys: seq<string>, samples: seq<Snapshot>, v: real)
  {
    exists i: nat, j: nat :: i < |keys| && j < |samples| && keys[i] in samples[j] && samples[j][keys[i]] == v
  }

  /** The observations of one sample, in input order. */
  function Row(keys: seq<string>, sample: Snapshot): seq<real>
  {
    if keys == [] then [] else ValueIn(keys[0], sample) + Row(keys[1..], sample)
  }

  /** All observations, sample after sample. */
  function Rows(keys: seq<string>, samples: seq<Snapshot>): seq<real>
  {
    if samples == [] then [] else Row(keys, samples[0]) + Rows(keys, samples[1..])
  }

  lemma {:induction false} RowIsSample(keys: seq<string>, sample: Snapshot)
    ensures Row(keys, sample) == SampleValues(keys, sample)
  {
    if keys == [] {
    } else {
      var front, last := keys[..|keys| - 1], keys[|keys| - 1];
      assert keys == front + [last];
      RowIsSample(front, sample);
      SampleValuesNext(front, last, sample);
      RowNext(front, last, sample);
    }
  }

  lemma {:induction false} RowNext(front: seq<string>, key: string, sample: Snapshot)
    ensures Row(front + [key], sample) == Row(front, sample) + ValueIn(key, sample)
  {
    hide ValueIn;
    if front == [] {
      assert [key][1..] == [] && front + [key] == [key];
      assert Row([key], sample) == ValueIn(key, sample) + Row([key][1..], sample);
    } else {
      RowNext(front[1..], key, sample);
      assert (front + [key])[1..] == front[1..] + [key] && (front + [key])[0] == front[0];
      Regroup3(ValueIn(front[0], sample), Row(front[1..], sample), ValueIn(key, sample));
    }
  }

  lemma Regroup3<T>(a: seq<T>, b: seq<T>, c: seq<T>)
    ensures a + (b + c) == (a + b) + c
  {
  }

  lemma {:induction false} RowsNext(keys: seq<string>, front: seq<Snapshot>, d: Snapshot)
    ensures Rows(keys, front + [d]) == Rows(keys, front) + Row(keys, d)
  {
    hide Row;
    if front == [] {
      assert [d][1..] == [] && front + [d] == [d];
      assert Rows(keys, [d]) == Row(keys, d) + Rows(keys, [d][1..]);
    } else {
      RowsNext(keys, front[1..], d);
      assert (front + [d])[1..] == front[1..] + [d] && (front + [d])[0] == front[0];
      Regroup3(Row(keys, front[0]), Rows(keys, front[1..]), Row(keys, d));
    }
  }

  lemma {:induction false} RowsArePool(keys: seq<string>, samples: seq<Snapshot>)
    ensures Rows(keys, samples) == Pool(keys, samples)
  {
    if samples == [] {
    } else {
      var front, last := samples[..|samples| - 1], samples[|samples| - 1];
      assert samples == front + [last];
      RowsArePool(keys, front);
      RowIsSample(keys, last);
      RowsNext(keys, front, last);
      hide Rows, Row, SampleValues;
    }
  }

  lemma {:induction false} RowIsObserved(key: string, samples: seq<Snapshot>)
    ensures Rows([key], samples) == Observed(key, samples)
  {
    if samples == [] {
    } else {
      var front, last := samples[..|samples| - 1], samples[|samples| - 1];
      assert samples == front + [last];
      RowIsObserved(key, front);
      RowsNext([key], front, last);
      ObservedNext(key, front, last);
      RowNext([], key, last);
      assert [] + [key] == [key];
      hide Rows, Observed;
    }
  }

  lemma {:induction false} ObservedValues(key: string, samples: seq<Snapshot>, v: real)
    ensures v in Observed(key, samples) <==>
      exists j :: 0 <= j < |samples| && key in samples[j] && samples[j][key] == v
  {
    if samples != [] {
      var front, last := samples[..|samples| - 1], samples[|samples| - 1];
      assert samples == front + [last];
      ObservedValues(key, front, v);
      ObservedNext(key, front, last);
      hide Observed;
      if v in Observed(key, front) {
        var j :| 0 <= j < |front| && key in front[j] && front[j][key] == v;
        assert samples[j] == front[j];
      }
      if key in last && last[key] == v { assert samples[|front|] == last; }
    }
  }

  lemma PoolOccurs(keys: seq<string>, samples: seq<Snapshot>, v: real)
    ensures v in Pool(keys, samples) <==> Occurs(keys, samples, v)
  {
    PoolElements(keys, samples, v);
    hide Pool, Observed;
    forall i | 0 <= i < |keys|
      ensures v in Observed(keys[i], samples) <==>
        exists j :: 0 <= j < |samples| && keys[i] in samples[j] && samples[j][keys[i]] == v
    {
      ObservedValues(keys[i], samples, v);
    }
    if Occurs(keys, samples, v) {
      var i: nat, j: nat :| i < |keys| && j < |samples| && keys[i] in samples[j] && samples[j][keys[i]] == v;
      assert keys[i] in keys;
    }
  }

  // ----- extremes and ranks -----

  ghost predicate IsLeast(keys: seq<string>, samples: seq<Snapshot>, v: real)
  {
    && Occurs(keys, samples, v)
    && forall i, j :: 0 <= i < |keys| && 0 <= j < |samples| && keys[i] in samples[j] ==> v <= samples[j][keys[i]]
  }

  ghost predicate IsGreatest(keys: seq<string>, samples: seq<Snapshot>, v: real)
  {
    && Occurs(keys, samples, v)
    && forall i, j :: 0 <= i < |keys| && 0 <= j < |samples| && keys[i] in samples[j] ==> v >= samples[j][keys[i]]
  }

  lemma ExtremesOfPool(keys: seq<string>, samples: seq<Snapshot>)
    requires Pool(keys, samples) != []
    ensures var p := Pool(keys, samples);
      IsLeast(keys, samples, LeastFrom(p[0], p[1..])) && IsGreatest(keys, samples, GreatestFrom(p[0], p[1..]))
  {
    var p := Pool(keys, samples);
    LeastIsLeast(p[0], p[1..]);
    GreatestIsGreatest(p[0], p[1..]);
    assert p == [p[0]] + p[1..];
    hide Pool, LeastFrom, GreatestFrom;
    PoolOccurs(keys, samples, LeastFrom(p[0], p[1..]));
    PoolOccurs(keys, samples, GreatestFrom(p[0], p[1..]));
    forall i, j | 0 <= i < |keys| && 0 <= j < |samples| && keys[i] in samples[j] ensures samples[j][keys[i]] in p {
      PoolOccurs(keys, samples, samples[j][keys[i]]);
    }
  }

  /** How many of the values are at most v. */
  function AtMost(values: seq<real>, v: real): nat
  {
    if values == [] then 0 else (if values[0] <= v then 1 else 0) + AtMost(values[1..], v)
  }

  /** How many are below v. */
  function Below(values: seq<real>, v: real): nat
  {
    if values == [] then 0 else (if values[0] < v then 1 else 0) + Below(values[1..], v)
  }

  lemma {:induction false} CountsSplit(a: seq<real>, b: seq<real>, v: real)
    ensures AtMost(a + b, v) == AtMost(a, v) + AtMost(b, v) && Below(a + b, v) == Below(a, v) + Below(b, v)
  {
    if a == [] {
      assert a + b == b;
    } else {
      assert (a + b)[1..] == a[1..] + b && (a + b)[0] == a[0];
      CountsSplit(a[1..], b, v);
    }
  }

  lemma CountsWithout(s: seq<real>, i: nat, v: real)
    requires i < |s|
    ensures var rest := s[..i] + s[i + 1..];
      && AtMost(s, v) == AtMost(rest, v) + (if s[i] <= v then 1 else 0)
      && Below(s, v) == Below(rest, v) + (if s[i] < v then 1 else 0)
  {
    var front, back := s[..i], s[i..];
    assert s == front + back && back[0] == s[i] && back[1..] == s[i + 1..];
    CountsSplit(front, back, v);
    CountsSplit(front, s[i + 1..], v);
    assert AtMost(back, v) == (if s[i] <= v then 1 else 0) + AtMost(s[i + 1..], v);
    assert Below(back, v) == (if s[i] < v then 1 else 0) + Below(s[i + 1..], v);
    hide AtMost, Below;
  }

  lemma {:induction false} CountsOfPermutation(a: seq<real>, b: seq<real>, v: real)
    requires multiset(a) == multiset(b)
    ensures AtMost(a, v) == AtMost(b, v) && Below(a, v) == Below(b, v)
    decreases |a|
  {
    assert |a| == |multiset(a)| == |multiset(b)| == |b|;
    if a != [] {
      assert a[0] in multiset(b);
      var i :| 0 <= i < |b| && b[i] == a[0];
      TailMultiset(a);
      RemoveAt(b, i);
      CountsOfPermutation(a[1..], b[..i] + b[i + 1..], v);
      CountsWithout(b, i, v);
    }
  }

  lemma {:induction false} AllAtMost(s: seq<real>, v: real)
    requires forall i :: 0 <= i < |s| ==> s[i] <= v
    ensures AtMost(s, v) == |s|
  {
    if s != [] { AllAtMost(s[1..], v); }
  }

  lemma {:induction false} NoneBelow(s: seq<real>, v: real)
    requires forall i :: 0 <= i < |s| ==> s[i] >= v
    ensures Below(s, v) == 0
  {
    if s != [] { NoneBelow(s[1..], v); }
  }

  lemma {:induction false} BelowAtMostLength(s: seq<real>, v: real)
    ensures Below(s, v) <= |s|
  {
    if s != [] { BelowAtMostLength(s[1..], v); }
  }

  lemma EnoughAtMost(s: seq<real>, i: nat)
    requires Sorted(s, RealLe) && i < |s|
    ensures AtMost(s, s[i]) >= i + 1
  {
    hide AtMost;
    assert s == s[..i + 1] + s[i + 1..];
    CountsSplit(s[..i + 1], s[i + 1..], s[i]);
    assert forall k :: 0 <= k < i ==> RealLe(s[k], s[i]);
    AllAtMost(s[..i + 1], s[i]);
  }

  lemma FewBelow(s: seq<real>, i: nat)
    requires Sorted(s, RealLe) && i < |s|
    ensures Below(s, s[i]) <= i
  {
    hide Below;
    assert s == s[..i] + s[i..];
    CountsSplit(s[..i], s[i..], s[i]);
    assert forall k :: i < k < |s| ==> RealLe(s[i], s[k]);
    NoneBelow(s[i..], s[i]);
    BelowAtMostLength(s[..i], s[i]);
  }

  /** In a sorted list more than i values are at most the i-th, and at most i are below it. */
  lemma SortedCounts(s: seq<real>, i: nat)
    requires Sorted(s, RealLe) && i < |s|
    ensures AtMost(s, s[i]) >= i + 1 && Below(s, s[i]) <= i
  {
    hide *;
    EnoughAtMost(s, i);
    FewBelow(s, i);
  }

  /** The value is one of them, at least p percent of them are at most it, and fewer than p percent are below it. */
  ghost predicate AtPercentile(p: nat, values: seq<real>, v: real)
  {
    v in values && 100 * AtMost(values, v) >= p * |values| && 100 * Below(values, v) < p * |values|
  }

  lemma PercentileMeaning(p: nat, values: seq<real>)
    requires 1 <= p <= 100 && values != []
    ensures AtPercentile(p, values, PercentileOf(p, values))
  {
    var s, n := Sort(values, RealLe), |values|;
    var v := PercentileOf(p, values);
    RealOrder();
    SortSorts(values, RealLe);
    RankInRange(p, n);
    SortedCounts(s, NearestRank(p, n) - 1);
    CountsOfPermutation(s, values, v);
    RankBounds(p, n);
    hide Sort, NearestRank, AtMost, Below, Sorted, TotalOrder;
    assert v in multiset(s);
  }

  lemma RankBounds(p: nat, n: nat)
    requires 1 <= p <= 100 && n > 0
    ensures 100 * (NearestRank(p, n) - 1) < p * n <= 100 * NearestRank(p, n)
  {
    Percent(p, n);
    CeilBounds(p * n);
    ClampFree(p * n, n);
  }

  lemma ClampFree(x: nat, n: nat)
    requires 0 < x <= 100 * n
    ensures ClampedRank(x, n) == (x + 99) / 100
  {
  }

  // ----- the result -----

  ghost predicate AllSeen(keys: seq<string>, samples: seq<Snapshot>)
  {
    forall k :: k in keys ==> exists j :: 0 <= j < |samples| && k in samples[j]
  }

  /** The value of a window mode when there are inputs and none is missing. */
  ghost predicate WindowMeasured(env: Env, mode: string, keys: seq<string>, samples: seq<Snapshot>, r: Option<real>)
  {
    var all := Rows(keys, samples);
    match mode
    case "window_min" => r.Some? && IsLeast(keys, samples, r.value)
    case "window_max" => r.Some? && IsGreatest(keys, samples, r.value)
    case "window_avg" => r == Some(env.div(Total(env, all), |all| as real))
    case "window_p95" => r.Some? && AtPercentile(95, all, r.value)
    case "window_p99" => r.Some? && AtPercentile(99, all, r.value)
    case "window_ratio" =>
      if |keys| < 2 || Total(env, Rows([keys[1]], samples)) == 0.0 then r.None?
      else r == Some(env.div(Total(env, Rows([keys[0]], samples)), Total(env, Rows([keys[1]], samples))))
    case _ => false
  }

  function ValueOf(w: WindowValue): Option<real>
  {
    match w
    case WindowValue(v) => Some(v)
    case NoValue(_) => None
  }

  lemma RatioMeasured(env: Env, keys: seq<string>, samples: seq<Snapshot>)
    requires AllSeen(keys, samples)
    ensures var r := match RatioOf(env, keys, samples) case Ratio(v) => Some(v) case NoRatio(_) => None;
      WindowMeasured(env, WINDOW_RATIO, keys, samples, r)
  {
    if |keys| >= 2 {
      RowIsObserved(keys[0], samples);
      RowIsObserved(keys[1], samples);
      SeenIsObserved(keys, samples, 0);
      SeenIsObserved(keys, samples, 1);
      hide Observed, Total, Rows, AllSeen;
    }
  }

  lemma SeenIsObserved(keys: seq<string>, samples: seq<Snapshot>, i: nat)
    requires AllSeen(keys, samples) && i < |keys|
    ensures Observed(keys[i], samples) != []
  {
    assert keys[i] in keys;
    var j :| 0 <= j < |samples| && keys[i] in samples[j];
    ObservedValues(keys[i], samples, samples[j][keys[i]]);
    hide Observed;
  }

  lemma ExtremeMeaning(env: Env, mode: string, keys: seq<string>, samples: seq<Snapshot>)
    requires (mode == WINDOW_MIN || mode == WINDOW_MAX) && Pool(keys, samples) != []
    ensures WindowMeasured(env, mode, keys, samples,
      ValueOf(Aggregated(env, mode, keys, samples, Pool(keys, samples))))
  {
    ExtremesOfPool(keys, samples);
    hide Pool, LeastFrom, GreatestFrom, IsLeast, IsGreatest, Rows;
  }

  lemma RankMeasured(env: Env, mode: string, p: nat, keys: seq<string>, samples: seq<Snapshot>, v: real)
    requires PercentileOfMode(mode, p) && AtPercentile(p, Rows(keys, samples), v)
    ensures WindowMeasured(env, mode, keys, samples, Some(v))
  {
    hide AtPercentile, Rows, Total, IsLeast, IsGreatest;
  }

  lemma RankMeaning(env: Env, mode: string, p: nat, keys: seq<string>, samples: seq<Snapshot>)
    requires PercentileOfMode(mode, p) && 1 <= p <= 100 && Pool(keys, samples) != []
    ensures WindowMeasured(env, mode, keys, samples,
      ValueOf(Aggregated(env, mode, keys, samples, Pool(keys, samples))))
  {
    hide *;
    var pool := Pool(keys, samples);
    RowsArePool(keys, samples);
    PercentileMeaning(p, pool);
    PercentileAggregated(env, mode, p, keys, samples, pool);
    RankMeasured(env, mode, p, keys, samples, PercentileOf(p, pool));
    ValueOfValue(PercentileOf(p, pool));
  }

  lemma ValueOfValue(v: real)
    ensures ValueOf(WindowValue.WindowValue(v)) == Some(v)
  {
  }

  lemma TotalsMeaning(env: Env, mode: string, keys: seq<string>, samples: seq<Snapshot>)
    requires (mode == WINDOW_AVG || mode == WINDOW_RATIO) && AllSeen(keys, samples) && Pool(keys, samples) != []
    ensures WindowMeasured(env, mode, keys, samples,
      ValueOf(Aggregated(env, mode, keys, samples, Pool(keys, samples))))
  {
    RowsArePool(keys, samples);
    RatioMeasured(env, keys, samples);
    hide Pool, Total, RatioOf, AllSeen, Rows;
  }

  lemma AggregatedMeaning(env: Env, mode: string, keys: seq<string>, samples: seq<Snapshot>)
    requires WindowMode(mode) && AllSeen(keys, samples) && Pool(keys, samples) != []
    ensures WindowMeasured(env, mode, keys, samples,
      ValueOf(Aggregated(env, mode, keys, samples, Pool(keys, samples))))
  {
    hide AllSeen, Pool, Aggregated, WindowMeasured;
    if mode == WINDOW_MIN || mode == WINDOW_MAX {
      ExtremeMeaning(env, mode, keys, samples);
    } else if mode == WINDOW_P95 {
      RankMeaning(env, mode, 95, keys, samples);
    } else if mode == WINDOW_P99 {
      RankMeaning(env, mode, 99, keys, samples);
    } else {
      TotalsMeaning(env, mode, keys, samples);
    }
  }

  /** What a window result says: the inputs that no sample holds are missing; with no inputs, or with a missing one,
      there is no value. */
  ghost predicate WindowReported(env: Env, s: SLISpec, samples: seq<Snapshot>, r: SLIResult)
  {
    var keys := InputKeys(s.inputs);
    && (forall k :: k in r.inputsMissing <==> k in keys && forall j :: 0 <= j < |samples| ==> k !in samples[j])
    && (if keys != [] && AllSeen(keys, samples) then WindowMeasured(env, s.mode, keys, samples, r.value)
        else r.value.None?)
    && (if r.value.Some? then Judged(s, r.value.value, r.status) else r.status == "skip")
  }

  lemma {:induction false} MissingMeaning(keys: seq<string>, samples: seq<Snapshot>)
    ensures forall k :: k in MissingOf(keys, samples) <==> k in keys && !Seen(k, samples)
  {
    hide Seen;
    if keys != [] {
      var n := |keys| - 1;
      MissingMeaning(keys[..n], samples);
      assert keys == keys[..n] + [keys[n]];
    }
  }

  lemma SeenMeaning(keys: seq<string>, samples: seq<Snapshot>)
    ensures AllSeen(keys, samples) <==> forall k :: k in keys ==> Seen(k, samples)
    ensures keys == [] ==> Pool(keys, samples) == []
    ensures keys != [] && AllSeen(keys, samples) ==> Pool(keys, samples) != []
  {
    if keys == [] {
      if Pool(keys, samples) != [] {
        PoolOccurs(keys, samples, Pool(keys, samples)[0]);
      }
    } else if AllSeen(keys, samples) {
      assert keys[0] in keys;
      var j :| 0 <= j < |samples| && keys[0] in samples[j];
      PoolOccurs(keys, samples, samples[j][keys[0]]);
    }
  }

  /** What a window mode reports. */
  lemma WindowResultMeaning(env: Env, s: SLISpec, samples: seq<Snapshot>)
    requires WindowMode(s.mode)
    ensures WindowReported(env, s, samples, WindowResult(env, s, samples))
  {
    var keys := InputKeys(s.inputs);
    MissingMeaning(keys, samples);
    MissingEmptyIff(keys, samples);
    SeenMeaning(keys, samples);
    var res := BaseResult(s).(inputsUsed := keys, inputsMissing := MissingOf(keys, samples));
    hide InputKeys, Pool, MissingOf, Aggregated, WindowMeasured, WithValue, Judged, AllSeen, WindowMode;
    if keys != [] && AllSeen(keys, samples) {
      AggregatedMeaning(env, s.mode, keys, samples);
      var a := Aggregated(env, s.mode, keys, samples, Pool(keys, samples));
      if a.WindowValue? { JudgeMeaning(s, res, a.value); }
    }
  }
}
