/**
 The nearest-rank percentile (pkg/slo/engine/engine.go) and why replicating the whole pool does not
 move it.  The rank is taken exactly: ceil(p * n / 100) for p = 95 and p = 99.
 */
module Percentile {
  import opened Sorting
  import opened Multiplicity

  predicate RealLe(a: real, b: real)
  {
    a <= b
  }

  lemma RealOrder()
    ensures TotalOrder(RealLe)
  {
  }

  /** ceil(x / 100), kept within 1..n as the code does. */
  function ClampedRank(x: nat, n: nat): nat
  {
    var rank := (x + 99) / 100;
    if rank < 1 then 1 else if rank > n then n else rank
  }

  function NearestRank(p: nat, n: nat): nat
  {
    ClampedRank(p * n, n)
  }

  lemma RankInRange(p: nat, n: nat)
    requires n > 0
    ensures 1 <= NearestRank(p, n) <= n
  {
  }

  function PercentileOf(p: nat, values: seq<real>): real
    requires values != []
  {
    RankInRange(p, |values|);
    Sort(values, RealLe)[NearestRank(p, |values|) - 1]
  }

  // ----- the rank of a replicated pool -----

  lemma CeilBounds(x: nat)
    ensures var r := (x + 99) / 100; x <= 100 * r && (r > 0 ==> 100 * (r - 1) < x)
  {
  }

  lemma QuotientUnique(x: nat, k: nat, q: nat)
    requires k > 0 && k * q <= x < k * q + k
    ensures x / k == q
  {
    RemainderUnique(x, k, q, x - k * q);
  }

  lemma MoveFactor(p: nat, k: nat, n: nat)
    ensures p * (k * n) == k * (p * n)
  {
  }

  lemma Percent(p: nat, n: nat)
    requires 1 <= p <= 100 && n > 0
    ensures 0 < p * n <= 100 * n
  {
    MulAtLeast(p, n);
    assert (100 - p) * n >= 0;
  }

  lemma RankReplication(p: nat, n: nat, k: nat)
    requires 1 <= p <= 100 && n > 0 && k > 0
    ensures k * n > 0 && (NearestRank(p, k * n) - 1) / k == NearestRank(p, n) - 1
  {
    MulAtLeast(n, k);
    MoveFactor(p, k, n);
    Percent(p, n);
    Percent(p, k * n);
    hide ClampedRank;
    ScaledRank(p * n, n, p * (k * n), k * n, k);
  }

  lemma ScaledRank(x: nat, n: nat, y: nat, m: nat, k: nat)
    requires k > 0 && 0 < x <= 100 * n && y == k * x && 0 < y <= 100 * m
    ensures (ClampedRank(y, m) - 1) / k == ClampedRank(x, n) - 1
  {
    var r, s := (x + 99) / 100, (y + 99) / 100;
    CeilBounds(x);
    CeilBounds(y);
    ScaledCeil(x, k, r, s);
    QuotientUnique(s - 1, k, r - 1);
  }

  lemma ScaledCeil(x: nat, k: nat, r: nat, s: nat)
    requires k > 0 && r > 0 && s > 0
    requires 100 * (r - 1) < x <= 100 * r
    requires 100 * (s - 1) < k * x <= 100 * s
    ensures k * (r - 1) <= s - 1 < k * (r - 1) + k
  {
    MulLess(k, 100 * (r - 1), x);
    assert k * (100 * (r - 1)) == 100 * (k * (r - 1));
    assert k * x <= k * (100 * r) == 100 * (k * r) by { MulLess(k, x, 100 * r); }
    assert k * r == k * (r - 1) + k;
  }

  // ----- the sorted replicated pool -----

  /** Every element `k` times in a row. */
  function Stretch<T>(k: nat, s: seq<T>): seq<T>
  {
    if s == [] then [] else Copies(k, s[0]) + Stretch(k, s[1..])
  }

  lemma {:induction false} StretchLength<T>(k: nat, s: seq<T>)
    ensures |Stretch(k, s)| == k * |s|
  {
    if s != [] {
      StretchLength(k, s[1..]);
      assert k * |s| == k + k * (|s| - 1);
    }
  }

  lemma QuotientShift(i: nat, k: nat)
    requires k > 0 && i >= k
    ensures i / k == (i - k) / k + 1
  {
    var q := (i - k) / k;
    assert i - k == k * q + (i - k) % k;
    OneMore(k, true, q);
    QuotientUnique(i, k, q + 1);
  }

  lemma {:induction false} StretchAt<T>(k: nat, s: seq<T>, i: nat)
    requires k > 0 && i < |Stretch(k, s)|
    ensures i / k < |s| && Stretch(k, s)[i] == s[i / k]
  {
    if i < k {
      assert k * 0 == 0;
      QuotientUnique(i, k, 0);
    } else {
      StretchAt(k, s[1..], i - k);
      QuotientShift(i, k);
    }
  }

  lemma CountHead<T>(s: seq<T>, x: T)
    requires s != []
    ensures multiset(s)[x] == (if s[0] == x then 1 else 0) + multiset(s[1..])[x]
  {
    assert s == [s[0]] + s[1..];
  }

  lemma StretchHead<T>(k: nat, s: seq<T>, x: T)
    requires s != []
    ensures multiset(Stretch(k, s))[x] == (if s[0] == x then k else 0) + multiset(Stretch(k, s[1..]))[x]
  {
    CopiesCount(k, s[0], x);
    var a, b := Copies(k, s[0]), Stretch(k, s[1..]);
    assert Stretch(k, s) == a + b;
    hide Stretch, Copies;
    assert multiset(a + b)[x] == multiset(a)[x] + multiset(b)[x];
  }

  lemma OneMore(k: nat, hit: bool, c: nat)
    ensures k * ((if hit then 1 else 0) + c) == (if hit then k else 0) + k * c
  {
  }

  lemma {:induction false} StretchCount<T>(k: nat, s: seq<T>, x: T)
    ensures multiset(Stretch(k, s))[x] == k * multiset(s)[x]
  {
    if s != [] {
      hide Stretch;
      StretchHead(k, s, x);
      StretchCount(k, s[1..], x);
      CountHead(s, x);
      OneMore(k, s[0] == x, multiset(s[1..])[x]);
    }
  }

  lemma StretchSorted(k: nat, s: seq<real>)
    requires k > 0 && Sorted(s, RealLe)
    ensures Sorted(Stretch(k, s), RealLe)
  {
    var t := Stretch(k, s);
    forall i, j | 0 <= i < j < |t| ensures RealLe(t[i], t[j]) {
      StretchAt(k, s, i);
      StretchAt(k, s, j);
      QuotientMonotone(i, j, k);
    }
  }

  lemma QuotientMonotone(i: nat, j: nat, k: nat)
    requires i <= j && k > 0
    ensures i / k <= j / k
  {
    var q, r := i / k, j / k;
    assert i == k * q + i % k && j == k * r + j % k;
    MulLess(k, r, q);
  }

  lemma SortReplicated(k: nat, values: seq<real>)
    requires k > 0
    ensures Sort(Rep(k, values), RealLe) == Stretch(k, Sort(values, RealLe))
  {
    RealOrder();
    var s := Sort(values, RealLe);
    SortSorts(values, RealLe);
    SortSorts(Rep(k, values), RealLe);
    StretchSorted(k, s);
    forall x ensures multiset(Rep(k, values))[x] == multiset(Stretch(k, s))[x] {
      RepCount(k, values, x);
      StretchCount(k, s, x);
    }
    assert multiset(Rep(k, values)) == multiset(Stretch(k, s));
    SortedUnique(Sort(Rep(k, values), RealLe), Stretch(k, s), RealLe);
  }

  lemma {:induction false} RepLength<T>(k: nat, s: seq<T>)
    ensures |Rep(k, s)| == k * |s|
  {
    if k > 0 {
      RepLength(k - 1, s);
      assert k * |s| == |s| + (k - 1) * |s|;
    }
  }

  /** Replicating a pool as a whole leaves every percentile where it is. */
  lemma PercentileReplication(p: nat, k: nat, values: seq<real>)
    requires 1 <= p <= 100 && k > 0 && values != []
    ensures Rep(k, values) != []
    ensures PercentileOf(p, Rep(k, values)) == PercentileOf(p, values)
  {
    var n := |values|;
    RepLength(k, values);
    RankReplication(p, n, k);
    SortReplicated(k, values);
    var s := Sort(values, RealLe);
    RankInRange(p, k * n);
    StretchLength(k, s);
    StretchAt(k, s, NearestRank(p, k * n) - 1);
  }

  lemma SameLength(a: seq<real>, b: seq<real>)
    requires multiset(a) == multiset(b)
    ensures |a| == |b|
  {
    assert |a| == |multiset(a)| == |multiset(b)| == |b|;
  }

  /** A percentile depends on the multiset of the pool only. */
  lemma PercentilePermutation(p: nat, a: seq<real>, b: seq<real>)
    requires a != [] && multiset(a) == multiset(b)
    ensures b != [] && PercentileOf(p, a) == PercentileOf(p, b)
  {
    hide Sort, NearestRank, TotalOrder;
    SameLength(a, b);
    RealOrder();
    SortPermutation(a, b, RealLe);
  }

  /** The code sorts a copy and picks one position of it. */
  method Pick(p: nat, values: seq<real>) returns (v: real)
    requires values != []
    ensures v == PercentileOf(p, values)
    ensures v in values
  {
    var sorted := Sort(values, RealLe);
    var rank := (p * |values| + 99) / 100;
    if rank < 1 {
      rank := 1;
    }
    if rank > |sorted| {
      rank := |sorted|;
    }
    v := sorted[rank - 1];
    assert v in multiset(sorted);
  }
}
