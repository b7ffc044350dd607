/**
 Key lists that are not proportional have different percentiles on some samples: the arithmetic behind the
 completeness of the percentile identity (pkg/slo/engine/comparability.go, pkg/slo/engine/engine.go).
 */
module PercentileCompleteness {
  import opened GoStrings
  import opened Sorting
  import opened Selectors
  import opened Multiplicity
  import opened Percentile
  import opened Measurement
  import opened IdentitySoundness

  // ----- two keys in different proportion -----

  lemma Disproportion(a: seq<string>, b: seq<string>) returns (x: string, y: string)
    requires Elements(a) == Elements(b) && !Proportional(a, b)
    ensures multiset(a)[x] > 0 && multiset(a)[y] > 0 && multiset(b)[x] > 0 && multiset(b)[y] > 0
    ensures multiset(a)[x] * multiset(b)[y] != multiset(a)[y] * multiset(b)[x]
  {
    if a == [] {
      forall k ensures 1 * multiset(a)[k] == 1 * multiset(b)[k] { SameSupport(a, b, k); }
      CountsAreProportional(a, b, 1, 1);
      x, y := "", "";
    } else {
      x := a[0];
      SameSupport(a, b, x);
      assert x in multiset(a);
      y := CrossDifference(a, b, x);
      SameSupport(a, b, y);
    }
  }

  lemma SameSupport(a: seq<string>, b: seq<string>, k: string)
    requires Elements(a) == Elements(b)
    ensures multiset(a)[k] > 0 <==> multiset(b)[k] > 0
  {
    assert k in a <==> k in multiset(a);
    assert k in b <==> k in multiset(b);
    assert k in a <==> k in Elements(a);
    assert k in b <==> k in Elements(b);
  }

  lemma CountsAreProportional(a: seq<string>, b: seq<string>, p: nat, q: nat)
    requires p > 0 && q > 0 && forall x :: p * multiset(a)[x] == q * multiset(b)[x]
    ensures Proportional(a, b)
  {
    forall x ensures multiset(Rep(p, a))[x] == multiset(Rep(q, b))[x] {
      RepCount(p, a, x);
      RepCount(q, b, x);
    }
    assert multiset(Rep(p, a)) == multiset(Rep(q, b));
  }

  lemma CrossDifference(a: seq<string>, b: seq<string>, x: string) returns (y: string)
    requires !Proportional(a, b) && multiset(a)[x] > 0 && multiset(b)[x] > 0
    ensures multiset(a)[x] * multiset(b)[y] != multiset(a)[y] * multiset(b)[x]
    ensures multiset(a)[y] > 0 || multiset(b)[y] > 0
  {
    var p, q := multiset(b)[x], multiset(a)[x];
    if forall k :: p * multiset(a)[k] == q * multiset(b)[k] {
      CountsAreProportional(a, b, p, q);
    }
    y :| p * multiset(a)[y] != q * multiset(b)[y];
  }

  // ----- pools of zeros and ones -----

  ghost predicate Binary(s: seq<real>)
  {
    forall i :: 0 <= i < |s| ==> s[i] == 0.0 || s[i] == 1.0
  }

  lemma {:induction false} BinaryLength(s: seq<real>)
    requires Binary(s)
    ensures |s| == multiset(s)[0.0] + multiset(s)[1.0]
  {
    if s != [] {
      CountHead(s, 0.0);
      CountHead(s, 1.0);
      BinaryLength(s[1..]);
    }
  }

  /** In a sorted pool the zeros come first. */
  lemma {:induction false} ZerosFirst(s: seq<real>, i: nat)
    requires Binary(s) && Sorted(s, RealLe) && i < |s|
    ensures s[i] == 0.0 <==> i < multiset(s)[0.0]
  {
    CountHead(s, 0.0);
    if s[0] == 0.0 {
      if i > 0 { ZerosFirst(s[1..], i - 1); }
    } else {
      assert forall j :: 0 <= j < |s| ==> RealLe(s[0], s[j]);
      assert 0.0 !in s;
      assert 0.0 !in multiset(s);
    }
  }

  lemma CeilAtMost(x: nat, z: nat)
    ensures (x + 99) / 100 <= z <==> x <= 100 * z
  {
  }

  /** The percentile is 0 iff the zeros fill the rank. */
  lemma BinaryPercentile(p: nat, pool: seq<real>)
    requires 1 <= p < 100 && pool != [] && Binary(pool)
    ensures PercentileOf(p, pool) == 0.0 <==> p * multiset(pool)[1.0] <= (100 - p) * multiset(pool)[0.0]
    ensures PercentileOf(p, pool) == 0.0 || PercentileOf(p, pool) == 1.0
  {
    var s, n := Sort(pool, RealLe), |pool|;
    var zeros, ones := multiset(pool)[0.0], multiset(pool)[1.0];
    RealOrder();
    SortSorts(pool, RealLe);
    SortedBinary(pool, s);
    BinaryLength(pool);
    RankInRange(p, n);
    var rank := NearestRank(p, n);
    ZerosFirst(s, rank - 1);
    RankAtMost(p, n, zeros);
    Fraction(p, zeros, ones);
    hide Sort, NearestRank, Sorted, TotalOrder, TotalPreorder;
  }

  lemma SortedBinary(pool: seq<real>, s: seq<real>)
    requires multiset(s) == multiset(pool) && Binary(pool)
    ensures Binary(s)
  {
    forall i | 0 <= i < |s| ensures s[i] == 0.0 || s[i] == 1.0 {
      assert s[i] in multiset(pool);
      var j :| 0 <= j < |pool| && pool[j] == s[i];
    }
  }

  lemma RankAtMost(p: nat, n: nat, z: nat)
    requires 1 <= p < 100 && n > 0 && z <= n
    ensures NearestRank(p, n) - 1 < z <==> p * n <= 100 * z
  {
    Percent(p, n);
    CeilAtMost(p * n, z);
    CeilAtMost(p * n, n);
  }

  lemma Fraction(p: nat, zeros: nat, ones: nat)
    requires p <= 100
    ensures p * (zeros + ones) <= 100 * zeros <==> p * ones <= (100 - p) * zeros
  {
    assert p * (zeros + ones) == p * zeros + p * ones;
    assert (100 - p) * zeros == 100 * zeros - p * zeros;
  }

  // ----- the samples -----

  /** `zeros` samples of x with value 0, `ones` samples of y with value 1, and one sample of the other keys. */
  function Trial(others: set<string>, x: string, y: string, zeros: nat, ones: nat): seq<Snapshot>
  {
    Copies(zeros, map[x := 0.0]) + Copies(ones, map[y := 1.0]) + [map k | k in others :: 1.0]
  }

  lemma ObservedNext(key: string, samples: seq<Snapshot>, d: Snapshot)
    ensures Observed(key, samples + [d]) == Observed(key, samples) + ValueIn(key, d)
  {
    assert (samples + [d])[..|samples|] == samples;
  }

  lemma {:induction false} ObservedConcat(key: string, a: seq<Snapshot>, b: seq<Snapshot>)
    ensures Observed(key, a + b) == Observed(key, a) + Observed(key, b)
  {
    if b == [] {
      assert a + b == a;
    } else {
      hide Observed;
      var front, last := b[..|b| - 1], b[|b| - 1];
      ObservedConcat(key, a, front);
      ObservedNext(key, front, last);
      ObservedNext(key, a + front, last);
      assert b == front + [last] && a + b == (a + front) + [last];
    }
  }

  lemma {:induction false} ObservedCopies(key: string, n: nat, x: string, v: real)
    ensures Observed(key, Copies(n, map[x := v])) == if key == x then Copies(n, v) else []
  {
    var s := Copies(n, map[x := v]);
    if n > 0 {
      ObservedCopies(key, n - 1, x, v);
      assert s[..n - 1] == Copies(n - 1, map[x := v]);
      assert Copies(n, v) == Copies(n - 1, v) + [v];
    }
  }

  lemma {:induction false} CountCopies(n: nat, v: real, w: real)
    ensures multiset(Copies(n, v))[w] == if v == w then n else 0
  {
    if n > 0 {
      CountCopies(n - 1, v, w);
      assert Copies(n, v) == Copies(n - 1, v) + [v];
    }
  }

  /** How often one key shows the value v in the trial. */
  function TrialCount(others: set<string>, x: string, y: string, zeros: nat, ones: nat, key: string, v: real): nat
  {
    (if key == x && v == 0.0 then zeros else 0) + (if key == y && v == 1.0 then ones else 0)
    + (if key in others && v == 1.0 then 1 else 0)
  }

  lemma TrialObserved(others: set<string>, x: string, y: string, zeros: nat, ones: nat, key: string, v: real)
    ensures multiset(Observed(key, Trial(others, x, y, zeros, ones)))[v] ==
      TrialCount(others, x, y, zeros, ones, key, v)
  {
    var first, second := Copies(zeros, map[x := 0.0]), Copies(ones, map[y := 1.0]);
    var last: Snapshot := map k | k in others :: 1.0;
    ObservedConcat(key, first, second);
    ObservedConcat(key, first + second, [last]);
    ObservedCopies(key, zeros, x, 0.0);
    ObservedCopies(key, ones, y, 1.0);
    ObservedOne(key, last);
    CountCopies(zeros, 0.0, v);
    CountCopies(ones, 1.0, v);
    hide Copies, Observed;
  }

  lemma WeightStep(
    keys: seq<string>, others: set<string>, x: string, y: string, zeros: nat, ones: nat, v: real)
    requires keys != []
    ensures var samples := Trial(others, x, y, zeros, ones);
      Weight(keys, samples, v) == TrialCount(others, x, y, zeros, ones, keys[0], v) + Weight(keys[1..], samples, v)
  {
    TrialObserved(others, x, y, zeros, ones, keys[0], v);
    hide Trial, Observed, TrialCount;
  }

  /** The keys x and y are different and none of the others, and there are no more keys. */
  predicate TrialKeys(keys: seq<string>, others: set<string>, x: string, y: string)
  {
    x != y && x !in others && y !in others && forall k :: k in keys ==> k == x || k == y || k in others
  }

  lemma {:induction false} ZeroWeight(
    keys: seq<string>, others: set<string>, x: string, y: string, zeros: nat, ones: nat)
    requires TrialKeys(keys, others, x, y)
    ensures Weight(keys, Trial(others, x, y, zeros, ones), 0.0) == multiset(keys)[x] * zeros
    decreases |keys|
  {
    if keys == [] {
      hide Trial;
    } else {
      hide *;
      var samples := Trial(others, x, y, zeros, ones);
      TailKeys(keys, others, x, y);
      ZeroWeight(keys[1..], others, x, y, zeros, ones);
      CountHead(keys, x);
      WeightStep(keys, others, x, y, zeros, ones, 0.0);
      ZeroCount(others, x, y, zeros, ones, keys[0]);
      OneMoreTime(multiset(keys[1..])[x], zeros);
      HitOrNot(keys[0] == x, multiset(keys[1..])[x], zeros, multiset(keys)[x]);
    }
  }

  lemma TailKeys(keys: seq<string>, others: set<string>, x: string, y: string)
    requires keys != [] && TrialKeys(keys, others, x, y)
    ensures TrialKeys(keys[1..], others, x, y)
  {
    assert keys == [keys[0]] + keys[1..];
  }

  lemma ZeroCount(others: set<string>, x: string, y: string, zeros: nat, ones: nat, key: string)
    ensures TrialCount(others, x, y, zeros, ones, key, 0.0) == if key == x then zeros else 0
  {
  }

  lemma HitOrNot(hit: bool, n: nat, k: nat, total: nat)
    requires total == (if hit then 1 else 0) + n && (n + 1) * k == n * k + k
    ensures total * k == (if hit then k else 0) + n * k
  {
  }

  lemma {:induction false} OneWeights(
    keys: seq<string>, others: set<string>, x: string, y: string, zeros: nat, ones: nat)
    requires TrialKeys(keys, others, x, y)
    ensures multiset(keys)[x] + multiset(keys)[y] <= |keys|
    ensures Weight(keys, Trial(others, x, y, zeros, ones), 1.0) ==
      multiset(keys)[y] * ones + (|keys| - multiset(keys)[x] - multiset(keys)[y])
    decreases |keys|
  {
    if keys != [] {
      hide Weight, Trial;
      assert keys == [keys[0]] + keys[1..];
      assert keys[0] in keys;
      OneWeights(keys[1..], others, x, y, zeros, ones);
      CountHead(keys, x);
      CountHead(keys, y);
      WeightStep(keys, others, x, y, zeros, ones, 1.0);
      OneMoreTime(multiset(keys[1..])[y], ones);
    }
  }

  lemma {:induction false} NoOtherWeight(
    keys: seq<string>, others: set<string>, x: string, y: string, zeros: nat, ones: nat, v: real)
    requires v != 0.0 && v != 1.0
    ensures Weight(keys, Trial(others, x, y, zeros, ones), v) == 0
    decreases |keys|
  {
    if keys != [] {
      hide Weight, Trial;
      NoOtherWeight(keys[1..], others, x, y, zeros, ones, v);
      WeightStep(keys, others, x, y, zeros, ones, v);
    } else {
      hide Trial;
    }
  }

  lemma OneMoreTime(n: nat, k: nat)
    ensures (n + 1) * k == n * k + k
  {
  }

  lemma TrialPool(keys: seq<string>, others: set<string>, x: string, y: string, zeros: nat, ones: nat)
    requires TrialKeys(keys, others, x, y)
    ensures var pool := Pool(keys, Trial(others, x, y, zeros, ones));
      && multiset(pool)[0.0] == multiset(keys)[x] * zeros
      && multiset(keys)[x] + multiset(keys)[y] <= |keys|
      && multiset(pool)[1.0] == multiset(keys)[y] * ones + (|keys| - multiset(keys)[x] - multiset(keys)[y])
      && Binary(pool)
  {
    var samples := Trial(others, x, y, zeros, ones);
    hide Trial, Pool, Weight, TrialKeys;
    ZeroWeight(keys, others, x, y, zeros, ones);
    OneWeights(keys, others, x, y, zeros, ones);
    var pool := Pool(keys, samples);
    PoolWeight(keys, samples, 0.0);
    PoolWeight(keys, samples, 1.0);
    forall i | 0 <= i < |pool| ensures pool[i] == 0.0 || pool[i] == 1.0 {
      assert pool[i] in multiset(pool);
      PoolWeight(keys, samples, pool[i]);
      if pool[i] != 0.0 && pool[i] != 1.0 { NoOtherWeight(keys, others, x, y, zeros, ones, pool[i]); }
    }
  }

  // ----- the sizes -----

  lemma ZerosSide(p: nat, q: nat, a: nat, s: nat, n: nat)
    ensures q * (a * (p * s * n)) == (p * q * n * a) * s
  {
  }

  lemma OnesSide(p: nat, q: nat, a: nat, b: nat, c: nat, n: nat)
    ensures p * (c * (2 * q * (a * b) * n)) == 2 * ((p * q * n * a) * (c * b))
    ensures p * (c * (2 * q * (a * b) * n)) == 2 * ((p * q * n * b) * (c * a))
  {
  }

  lemma Positive(a: nat, b: nat)
    requires a > 0 && b > 0
    ensures a * b > 0 && a * b >= a && a * b >= b
  {
    MulAtLeast(a, b);
    MulAtLeast(b, a);
  }

  lemma Gap(c: nat, m: nat, k: nat)
    requires m < k
    ensures 2 * (c * m) + c <= c * (m + k) && c * (m + k) + c <= 2 * (c * k)
  {
    assert c * (m + k) == c * m + c * k;
    assert c * k == c * m + c * (k - m);
    if c > 0 { MulAtLeast(c, k - m); }
  }

  /** p * q * n * a is at least p * n. */
  lemma Factor(p: nat, q: nat, n: nat, a: nat)
    requires p > 0 && q > 0 && n > 0 && a > 0
    ensures p * q * n * a >= p * n > 0
  {
    var u := p * n;
    Positive(p, n);
    Positive(u, q);
    Positive(u * q, a);
    Reorder(p, q, n, a);
  }

  lemma Reorder(p: nat, q: nat, n: nat, a: nat)
    ensures p * q * n * a == p * n * q * a
  {
  }

  /** With enough samples in the right proportion the zeros fill the rank for the first list and fall short for
      the second; `oa` and `ob` count the other keys. */
  lemma Separates(p: nat, ax: nat, ay: nat, bx: nat, by_: nat, oa: nat, ob: nat) returns (zeros: nat, ones: nat)
    requires 1 <= p < 100 && ax > 0 && ay > 0 && bx > 0 && by_ > 0 && ay * bx < ax * by_
    ensures zeros > 0 && ones > 0
    ensures p * (ay * ones + oa) <= (100 - p) * (ax * zeros)
    ensures p * (by_ * ones + ob) > (100 - p) * (bx * zeros)
  {
    var q, m, k, n := 100 - p, ay * bx, ax * by_, oa + 1;
    zeros, ones := ZeroSamples(p, m + k, n), OneSamples(q, ax, bx, n);
    SizesPositive(p, q, ax, bx, m + k, n);
    FirstFills(p, q, ax, ay, bx, m, k, oa);
    SecondFalls(p, q, ax, bx, by_, m, k, n, ob);
    hide ZeroSamples, OneSamples;
  }

  function ZeroSamples(p: nat, s: nat, n: nat): nat
  {
    p * s * n
  }

  function OneSamples(q: nat, a: nat, b: nat, n: nat): nat
  {
    2 * q * (a * b) * n
  }

  lemma SizesPositive(p: nat, q: nat, a: nat, b: nat, s: nat, n: nat)
    requires p > 0 && q > 0 && a > 0 && b > 0 && s > 0 && n > 0
    ensures ZeroSamples(p, s, n) > 0 && OneSamples(q, a, b, n) > 0
  {
    Positive(p, s);
    Positive(p * s, n);
    Positive(a, b);
    Positive(2 * q, a * b);
    Positive(2 * q * (a * b), n);
  }

  lemma FirstFills(p: nat, q: nat, ax: nat, ay: nat, bx: nat, m: nat, k: nat, oa: nat)
    requires p > 0 && q > 0 && ax > 0 && m == ay * bx && m < k
    ensures p * (ay * OneSamples(q, ax, bx, oa + 1) + oa) <= q * (ax * ZeroSamples(p, m + k, oa + 1))
  {
    var n := oa + 1;
    var zeros, ones, c := ZeroSamples(p, m + k, n), OneSamples(q, ax, bx, n), p * q * n * ax;
    ZerosSide(p, q, ax, m + k, n);
    OnesSide(p, q, ax, bx, ay, n);
    Gap(c, m, k);
    Factor(p, q, n, ax);
    Fits(p, ay * ones, oa, q * (ax * zeros), c, m, k);
  }

  lemma Fits(p: nat, ones: nat, others: nat, zeros: nat, c: nat, m: nat, k: nat)
    requires p * ones == 2 * (c * m) && zeros == c * (m + k) && 2 * (c * m) + c <= c * (m + k)
    requires c >= p * (others + 1)
    ensures p * (ones + others) <= zeros
  {
    assert p * (ones + others) == p * ones + p * others;
    assert p * (others + 1) == p * others + p;
  }

  lemma SecondFalls(p: nat, q: nat, ax: nat, bx: nat, by_: nat, m: nat, k: nat, n: nat, ob: nat)
    requires p > 0 && q > 0 && bx > 0 && n > 0 && k == ax * by_ && m < k
    ensures p * (by_ * OneSamples(q, ax, bx, n) + ob) > q * (bx * ZeroSamples(p, m + k, n))
  {
    var zeros, ones, e := ZeroSamples(p, m + k, n), OneSamples(q, ax, bx, n), p * q * n * bx;
    ZerosSide(p, q, bx, m + k, n);
    OnesSide(p, q, ax, bx, by_, n);
    Gap(e, m, k);
    Factor(p, q, n, bx);
    Exceeds(p, by_ * ones, ob, q * (bx * zeros), e, m, k, by_ * ax);
  }

  lemma Exceeds(p: nat, ones: nat, others: nat, zeros: nat, e: nat, m: nat, k: nat, k': nat)
    requires p * ones == 2 * (e * k') && k' == k && zeros == e * (m + k) && e * (m + k) + e <= 2 * (e * k) && e > 0
    ensures p * (ones + others) > zeros
  {
    assert p * (ones + others) == p * ones + p * others;
  }

  /** Key lists with the same keys in different proportion: some samples, in which every key is seen, have a
      different percentile. */
  lemma PercentilesTell(p: nat, a: seq<string>, b: seq<string>) returns (samples: seq<Snapshot>)
    requires 1 <= p < 100 && Elements(a) == Elements(b) && !Proportional(a, b)
    ensures forall k :: k in a || k in b ==> Seen(k, samples)
    ensures Pool(a, samples) != [] && Pool(b, samples) != []
    ensures PercentileOf(p, Pool(a, samples)) != PercentileOf(p, Pool(b, samples))
  {
    var x, y := Disproportion(a, b);
    hide Proportional;
    var ax, ay, bx, by_ := multiset(a)[x], multiset(a)[y], multiset(b)[x], multiset(b)[y];
    if ay * bx < ax * by_ {
      samples := TrialTells(p, a, b, x, y);
    } else {
      samples := TrialTells(p, b, a, x, y);
    }
  }

  lemma TrialTells(p: nat, a: seq<string>, b: seq<string>, x: string, y: string) returns (samples: seq<Snapshot>)
    requires 1 <= p < 100 && Elements(a) == Elements(b)
    requires multiset(a)[x] > 0 && multiset(a)[y] > 0 && multiset(b)[x] > 0 && multiset(b)[y] > 0
    requires multiset(a)[y] * multiset(b)[x] < multiset(a)[x] * multiset(b)[y]
    ensures forall k :: k in a || k in b ==> Seen(k, samples)
    ensures Pool(a, samples) != [] && Pool(b, samples) != []
    ensures PercentileOf(p, Pool(a, samples)) != PercentileOf(p, Pool(b, samples))
  {
    hide *;
    var ax, ay, bx, by_ := multiset(a)[x], multiset(a)[y], multiset(b)[x], multiset(b)[y];
    var others := Elements(a) - {x, y};
    TheOthers(a, b, x, y);
    TrialPool(a, others, x, y, 0, 0);
    TrialPool(b, others, x, y, 0, 0);
    var zeros, ones := Separates(p, ax, ay, bx, by_, |a| - ax - ay, |b| - bx - by_);
    samples := Trial(others, x, y, zeros, ones);
    TrialSees(others, x, y, zeros, ones);
    Positive(ax, zeros);
    Positive(bx, zeros);
    ListTrial(p, a, others, x, y, zeros, ones);
    ListTrial(p, b, others, x, y, zeros, ones);
  }

  lemma TheOthers(a: seq<string>, b: seq<string>, x: string, y: string)
    requires Elements(a) == Elements(b)
    requires multiset(a)[y] * multiset(b)[x] < multiset(a)[x] * multiset(b)[y]
    ensures var others := Elements(a) - {x, y}; TrialKeys(a, others, x, y) && TrialKeys(b, others, x, y)
    ensures forall k :: k in a || k in b ==> k == x || k == y || k in Elements(a) - {x, y}
  {
    assert x != y;
    forall k | k in a || k in b ensures k in Elements(a) { assert k in Elements(a) || k in Elements(b); }
  }

  /** The percentile of one list in the trial. */
  lemma ListTrial(p: nat, keys: seq<string>, others: set<string>, x: string, y: string, zeros: nat, ones: nat)
    requires 1 <= p < 100 && TrialKeys(keys, others, x, y) && multiset(keys)[x] * zeros > 0
    ensures multiset(keys)[x] + multiset(keys)[y] <= |keys|
    ensures var pool := Pool(keys, Trial(others, x, y, zeros, ones));
      && pool != []
      && (PercentileOf(p, pool) == 0.0 <==>
           p * (multiset(keys)[y] * ones + (|keys| - multiset(keys)[x] - multiset(keys)[y]))
             <= (100 - p) * (multiset(keys)[x] * zeros))
  {
    hide *;
    var pool := Pool(keys, Trial(others, x, y, zeros, ones));
    TrialPool(keys, others, x, y, zeros, ones);
    NotEmptyPool(pool);
    BinaryPercentile(p, pool);
  }

  lemma NotEmptyPool(pool: seq<real>)
    requires multiset(pool)[0.0] > 0
    ensures pool != []
  {
    assert 0.0 in multiset(pool);
  }

  lemma TrialSees(others: set<string>, x: string, y: string, zeros: nat, ones: nat)
    requires zeros > 0 && ones > 0
    ensures forall k :: k == x || k == y || k in others ==> Seen(k, Trial(others, x, y, zeros, ones))
  {
    var samples := Trial(others, x, y, zeros, ones);
    assert x in samples[0];
    assert y in samples[zeros];
    assert forall k :: k in others ==> k in samples[zeros + ones];
  }
}
