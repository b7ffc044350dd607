/**
 The normal form of percentile inputs (pkg/slo/engine/comparability.go): every key's multiplicity
 divided by the greatest common divisor of all of them.
 */
module Multiplicity {
  import opened GoStrings
  import opened Sorting

  // ----- products -----

  lemma {:induction false} MulLess(k: nat, u: nat, v: nat)
    ensures u < v ==> k * u + k <= k * v
  {
    if u < v {
      MulLess(k, u, v - 1);
      assert k * v == k * (v - 1) + k;
    }
  }

  lemma MulAtLeast(a: nat, u: nat)
    ensures u == 0 || a == 0 ==> a * u == 0
    ensures u >= 1 ==> a * u >= a
  {
    if u >= 1 { assert a * u == a + a * (u - 1); }
  }

  lemma CancelFactor(k: nat, u: nat, v: nat)
    requires k > 0 && k * u == k * v
    ensures u == v
  {
    MulLess(k, u, v);
    MulLess(k, v, u);
  }

  // ----- greatest common divisors -----

  ghost predicate Divides(d: nat, n: nat)
  {
    exists q: nat :: d * q == n
  }

  function Gcd(a: nat, b: nat): nat
    decreases b
  {
    if b == 0 then a else Gcd(b, a % b)
  }

  method GcdInt(x: nat, y: nat) returns (g: nat)
    ensures g == Gcd(x, y)
  {
    var a, b := x, y;
    while b != 0
      invariant Gcd(a, b) == Gcd(x, y)
      decreases b
    {
      a, b := b, a % b;
    }
    return a;
  }

  lemma DividesSum(d: nat, a: nat, b: nat, q: nat, r: nat)
    requires a == b * q + r
    requires Divides(d, b) && Divides(d, r)
    ensures Divides(d, a)
  {
    var u: nat :| d * u == b;
    var v: nat :| d * v == r;
    assert d * (u * q + v) == d * u * q + d * v == a;
  }

  lemma DividesRemainder(d: nat, a: nat, b: nat, q: nat, r: nat)
    requires a == b * q + r
    requires Divides(d, a) && Divides(d, b)
    ensures Divides(d, r)
  {
    var u: nat :| d * u == a;
    var v: nat :| d * v == b;
    assert b * q == d * (v * q);
    MulLess(d, u, v * q);
    if v * q <= u {
      assert d * (u - v * q) == d * u - d * (v * q) == r;
    } else {
      assert d * 0 == r;
    }
  }

  /** Gcd is the greatest common divisor: it divides both, and every common divisor divides it. */
  lemma {:induction false} GcdIsGreatest(a: nat, b: nat)
    ensures Divides(Gcd(a, b), a) && Divides(Gcd(a, b), b)
    ensures forall d: nat :: Divides(d, a) && Divides(d, b) ==> Divides(d, Gcd(a, b))
    decreases b
  {
    if b == 0 {
      assert a * 1 == a && a * 0 == 0;
    } else {
      GcdIsGreatest(b, a % b);
      DividesSum(Gcd(a, b), a, b, a / b, a % b);
      forall d: nat | Divides(d, a) && Divides(d, b) ensures Divides(d, Gcd(a, b)) {
        DividesRemainder(d, a, b, a / b, a % b);
      }
    }
  }

  lemma ScaleRemainder(k: nat, a: nat, b: nat)
    requires k > 0 && b > 0
    ensures k * b > 0 && (k * a) % (k * b) == k * (a % b)
  {
    var q, r := a / b, a % b;
    assert a == b * q + r;
    assert k * a == (k * b) * q + k * r by {
      assert k * (b * q + r) == k * (b * q) + k * r;
      assert k * (b * q) == (k * b) * q;
    }
    assert 0 <= k * r < k * b;
    RemainderUnique(k * a, k * b, q, k * r);
  }

  lemma RemainderUnique(a: nat, b: nat, q: nat, r: nat)
    requires a == b * q + r && r < b
    ensures a % b == r && a / b == q
  {
    var q', r' := a / b, a % b;
    assert a == b * q' + r';
    MulLess(b, q, q');
    MulLess(b, q', q);
  }

  lemma {:induction false} GcdScale(k: nat, a: nat, b: nat)
    requires k > 0
    ensures Gcd(k * a, k * b) == k * Gcd(a, b)
    decreases b
  {
    if b == 0 {
      assert k * b == 0;
    } else {
      ScaleRemainder(k, a, b);
      GcdScale(k, b, a % b);
    }
  }

  function GcdAll(g: nat, counts: seq<nat>): nat
    decreases |counts|
  {
    if counts == [] then g else GcdAll(Gcd(g, counts[0]), counts[1..])
  }

  ghost predicate CommonDivisor(d: nat, counts: seq<nat>)
  {
    forall i :: 0 <= i < |counts| ==> Divides(d, counts[i])
  }

  lemma {:induction false} GcdAllIsGreatest(g: nat, counts: seq<nat>)
    ensures Divides(GcdAll(g, counts), g) && CommonDivisor(GcdAll(g, counts), counts)
    ensures forall d: nat :: Divides(d, g) && CommonDivisor(d, counts) ==> Divides(d, GcdAll(g, counts))
    decreases |counts|
  {
    if counts == [] {
      assert g * 1 == g;
    } else {
      var h, r := Gcd(g, counts[0]), GcdAll(g, counts);
      GcdIsGreatest(g, counts[0]);
      GcdAllIsGreatest(h, counts[1..]);
      DividesTransitive(r, h, g);
      DividesTransitive(r, h, counts[0]);
      assert counts == [counts[0]] + counts[1..];
      forall d: nat | Divides(d, g) && CommonDivisor(d, counts) ensures Divides(d, r) {
        assert CommonDivisor(d, counts[1..]);
      }
    }
  }

  lemma DividesTransitive(a: nat, b: nat, c: nat)
    requires Divides(a, b) && Divides(b, c)
    ensures Divides(a, c)
  {
    var u: nat :| a * u == b;
    var v: nat :| b * v == c;
    assert a * (u * v) == c;
  }

  lemma DividesAntisymmetric(a: nat, b: nat)
    requires Divides(a, b) && Divides(b, a)
    ensures a == b
  {
    var u: nat :| a * u == b;
    var v: nat :| b * v == a;
    MulAtLeast(a, u);
    MulAtLeast(b, v);
  }

  lemma {:induction false} GcdAllScale(k: nat, g: nat, counts: seq<nat>, scaled: seq<nat>)
    requires k > 0 && |counts| == |scaled|
    requires forall i :: 0 <= i < |counts| ==> scaled[i] == k * counts[i]
    ensures GcdAll(k * g, scaled) == k * GcdAll(g, counts)
    decreases |counts|
  {
    if counts != [] {
      GcdScale(k, g, counts[0]);
      GcdAllScale(k, Gcd(g, counts[0]), counts[1..], scaled[1..]);
    }
  }

  // ----- multiplicities -----

  function CountsOf(ks: seq<string>, m: multiset<string>): (r: seq<nat>)
    ensures |r| == |ks| && forall i :: 0 <= i < |ks| ==> r[i] == m[ks[i]]
  {
    seq(|ks|, i requires 0 <= i < |ks| => m[ks[i]])
  }

  function Copies<T>(n: nat, x: T): (r: seq<T>)
    ensures |r| == n && forall i :: 0 <= i < n ==> r[i] == x
  {
    seq(n, _ => x)
  }

  /** Each key of `ks` as often as its multiplicity divided by `g`. */
  function Expand(ks: seq<string>, m: multiset<string>, g: nat): seq<string>
    requires ks != [] ==> g > 0
  {
    if ks == [] then [] else Copies(m[ks[0]] / g, ks[0]) + Expand(ks[1..], m, g)
  }

  ghost function Distincts(m: multiset<string>): (ks: seq<string>)
    ensures Distinct(ks) && Sorted(ks, StrLe)
    ensures forall k :: k in ks <==> k in m
  {
    var x := set k | k in m;
    var ks := SortedKeys(x);
    assert forall k :: k in ks <==> k in Elements(ks);
    ks
  }

  ghost function CommonFactor(m: multiset<string>): nat
  {
    GcdAll(0, CountsOf(Distincts(m), m))
  }

  lemma CountPositive(ks: seq<string>, m: multiset<string>, g: nat)
    requires ks != [] && forall k :: k in ks ==> k in m
    requires CommonDivisor(g, CountsOf(ks, m))
    ensures g > 0
  {
    assert ks[0] in ks;
    assert Divides(g, CountsOf(ks, m)[0]);
    var q: nat :| g * q == m[ks[0]];
    MulAtLeast(g, q);
  }

  lemma CommonFactorDivides(m: multiset<string>)
    ensures CommonDivisor(CommonFactor(m), CountsOf(Distincts(m), m))
    ensures Distincts(m) != [] ==> CommonFactor(m) > 0
  {
    GcdAllIsGreatest(0, CountsOf(Distincts(m), m));
    if Distincts(m) != [] { CountPositive(Distincts(m), m, CommonFactor(m)); }
  }

  /** The normal form of a list of keys. */
  ghost function Normal(keys: seq<string>): seq<string>
  {
    var m := multiset(keys);
    CommonFactorDivides(m);
    Expand(Distincts(m), m, CommonFactor(m))
  }

  lemma CopiesCount<T>(n: nat, x: T, y: T)
    ensures multiset(Copies(n, x))[y] == if x == y then n else 0
    decreases n
  {
    if n == 0 {
      assert Copies(0, x) == [];
    } else {
      CopiesCount(n - 1, x, y);
      assert Copies(n, x) == Copies(n - 1, x) + [x];
    }
  }

  lemma {:induction false} ExpandCount(ks: seq<string>, m: multiset<string>, g: nat, x: string)
    requires Distinct(ks) && g > 0
    ensures multiset(Expand(ks, m, g))[x] == if x in ks then m[x] / g else 0
  {
    if ks != [] {
      CopiesCount(m[ks[0]] / g, ks[0], x);
      ExpandCount(ks[1..], m, g, x);
      assert ks == [ks[0]] + ks[1..];
    }
  }

  lemma ExactQuotient(g: nat, n: nat)
    requires g > 0 && Divides(g, n)
    ensures g * (n / g) == n
  {
    var q: nat :| g * q == n;
    RemainderUnique(n, g, q, 0);
  }

  lemma HasMember(ks: seq<string>)
    ensures ks != [] ==> ks[0] in ks
    ensures Distinct(ks) && |ks| >= 2 ==> ks[1] in ks && ks[0] != ks[1]
  {
  }

  /** A list is a replication of its normal form, up to order. */
  lemma NormalScales(keys: seq<string>) returns (g: nat)
    ensures g > 0
    ensures forall x :: multiset(keys)[x] == g * multiset(Normal(keys))[x]
    ensures keys != [] ==> g == CommonFactor(multiset(keys))
  {
    var m := multiset(keys);
    var ks := Distincts(m);
    CommonFactorDivides(m);
    if keys == [] {
      HasMember(ks);
      g := 1;
    } else {
      assert keys[0] in m;
      g := CommonFactor(m);
      forall x ensures m[x] == g * multiset(Normal(keys))[x] {
        ExpandCount(ks, m, g, x);
        if x in ks {
          var i :| 0 <= i < |ks| && ks[i] == x;
          assert Divides(g, CountsOf(ks, m)[i]);
          ExactQuotient(g, m[x]);
        } else {
          assert g * 0 == 0;
        }
      }
    }
  }

  /** For lists shorter than two the code returns the list itself, which is its normal form. */
  lemma NormalShort(keys: seq<string>)
    requires |keys| < 2
    ensures Normal(keys) == keys
  {
    var m := multiset(keys);
    var ks := Distincts(m);
    CommonFactorDivides(m);
    if keys == [] {
      HasMember(ks);
    } else {
      assert keys == [keys[0]];
      assert ks == keys by {
        assert keys[0] in m && keys[0] in ks;
        HasMember(ks);
      }
      var g := CommonFactor(m);
      assert Divides(g, CountsOf(ks, m)[0]);
      ExactQuotient(g, 1);
      MulAtLeast(g, 1 / g);
      assert g == 1;
      assert Expand(ks[1..], m, g) == [];
    }
  }

  // ----- replication -----

  function Rep<T>(k: nat, s: seq<T>): seq<T>
  {
    if k == 0 then [] else s + Rep(k - 1, s)
  }

  lemma {:induction false} RepCount<T>(k: nat, s: seq<T>, x: T)
    ensures multiset(Rep(k, s))[x] == k * multiset(s)[x]
  {
    if k > 0 {
      RepCount(k - 1, s, x);
      var c := multiset(s)[x];
      assert multiset(Rep(k, s))[x] == c + (k - 1) * c;
      assert c + (k - 1) * c == k * c;
    }
  }

  /** Some replication of one list is a permutation of some replication of the other. */
  ghost predicate Proportional(a: seq<string>, b: seq<string>)
  {
    exists p: nat, q: nat :: p > 0 && q > 0 && multiset(Rep(p, a)) == multiset(Rep(q, b))
  }

  lemma SwapFactors(p: nat, q: nat, n: nat)
    ensures p * (q * n) == q * (p * n)
  {
    assert p * (q * n) == (p * q) * n == (q * p) * n == q * (p * n);
  }

  lemma SameNormalIsProportional(a: seq<string>, b: seq<string>)
    requires Normal(a) == Normal(b)
    ensures Proportional(a, b)
  {
    hide Normal;
    var ga := NormalScales(a);
    var gb := NormalScales(b);
    var n := multiset(Normal(a));
    var ra, rb := Rep(gb, a), Rep(ga, b);
    forall x ensures multiset(ra)[x] == multiset(rb)[x] {
      RepCount(gb, a, x);
      RepCount(ga, b, x);
      assert multiset(a)[x] == ga * n[x] && multiset(b)[x] == gb * n[x];
      SwapFactors(gb, ga, n[x]);
    }
    assert multiset(ra) == multiset(rb);
  }

  lemma SameDistincts(a: multiset<string>, b: multiset<string>)
    requires forall x :: x in a <==> x in b
    ensures Distincts(a) == Distincts(b)
  {
    StrOrder();
    var ka, kb := Distincts(a), Distincts(b);
    assert Elements(ka) == Elements(kb);
    SortSetUnique(ka, Elements(ka), StrLe);
    SortSetUnique(kb, Elements(ka), StrLe);
  }

  lemma SameSupport(p: nat, a: multiset<string>, q: nat, b: multiset<string>)
    requires p > 0 && q > 0 && forall x :: p * a[x] == q * b[x]
    ensures Distincts(a) == Distincts(b)
  {
    forall x ensures x in a <==> x in b {
      assert p * a[x] == q * b[x];
      MulAtLeast(a[x], p);
      MulAtLeast(b[x], q);
    }
    SameDistincts(a, b);
  }

  lemma SameQuotient(p: nat, ca: nat, ga: nat, q: nat, cb: nat, gb: nat)
    requires p > 0 && ga > 0 && gb > 0
    requires p * ca == q * cb && p * ga == q * gb
    requires Divides(ga, ca) && Divides(gb, cb)
    ensures ca / ga == cb / gb
  {
    var u, v := ca / ga, cb / gb;
    ExactQuotient(ga, ca);
    ExactQuotient(gb, cb);
    assert (p * ga) * u == p * (ga * u) == q * (gb * v) == (q * gb) * v;
    assert (p * ga) * u == (p * ga) * v;
    assert p * ga > 0;
    CancelFactor(p * ga, u, v);
  }

  lemma {:induction false} SameExpand(
    ks: seq<string>, p: nat, a: multiset<string>, ga: nat, q: nat, b: multiset<string>, gb: nat)
    requires p > 0 && ga > 0 && gb > 0 && p * ga == q * gb
    requires forall k :: k in ks ==> p * a[k] == q * b[k] && Divides(ga, a[k]) && Divides(gb, b[k])
    ensures Expand(ks, a, ga) == Expand(ks, b, gb)
  {
    if ks != [] {
      assert ks[0] in ks;
      SameQuotient(p, a[ks[0]], ga, q, b[ks[0]], gb);
      SameExpand(ks[1..], p, a, ga, q, b, gb);
    }
  }

  lemma ProportionalGcds(ks: seq<string>, p: nat, a: multiset<string>, q: nat, b: multiset<string>)
    requires p > 0 && q > 0 && forall x :: p * a[x] == q * b[x]
    ensures p * GcdAll(0, CountsOf(ks, a)) == q * GcdAll(0, CountsOf(ks, b))
  {
    var ca, cb := CountsOf(ks, a), CountsOf(ks, b);
    var scaled := seq(|ks|, i requires 0 <= i < |ks| => p * ca[i]);
    forall i | 0 <= i < |ks| ensures scaled[i] == q * cb[i] {
      assert p * a[ks[i]] == q * b[ks[i]];
    }
    GcdAllScale(p, 0, ca, scaled);
    GcdAllScale(q, 0, cb, scaled);
  }

  lemma ProportionalFactors(p: nat, a: multiset<string>, q: nat, b: multiset<string>)
    requires p > 0 && q > 0 && forall x :: p * a[x] == q * b[x]
    ensures Distincts(a) == Distincts(b)
    ensures p * CommonFactor(a) == q * CommonFactor(b)
  {
    SameSupport(p, a, q, b);
    ProportionalGcds(Distincts(a), p, a, q, b);
  }

  lemma FactorDividesEach(m: multiset<string>, k: string)
    requires k in m
    ensures CommonFactor(m) > 0 && Divides(CommonFactor(m), m[k])
  {
    var ks := Distincts(m);
    CommonFactorDivides(m);
    var i :| 0 <= i < |ks| && ks[i] == k;
    assert Divides(CommonFactor(m), CountsOf(ks, m)[i]);
  }

  lemma ProportionalSameNormal(a: seq<string>, b: seq<string>)
    requires Proportional(a, b)
    ensures Normal(a) == Normal(b)
  {
    var p: nat, q: nat :| p > 0 && q > 0 && multiset(Rep(p, a)) == multiset(Rep(q, b));
    var ma, mb := multiset(a), multiset(b);
    forall x ensures p * ma[x] == q * mb[x] {
      RepCount(p, a, x);
      RepCount(q, b, x);
    }
    ProportionalFactors(p, ma, q, mb);
    var ks := Distincts(ma);
    if ks != [] {
      assert ks[0] in ks && ks[0] in Distincts(mb);
      forall k | k in ks ensures Divides(CommonFactor(ma), ma[k]) && Divides(CommonFactor(mb), mb[k]) {
        assert k in Distincts(mb);
        FactorDividesEach(ma, k);
        FactorDividesEach(mb, k);
      }
      FactorDividesEach(ma, ks[0]);
      FactorDividesEach(mb, ks[0]);
      hide CommonFactor;
      SameExpand(ks, p, ma, CommonFactor(ma), q, mb, CommonFactor(mb));
    }
  }

  /** The normal form is exact: two lists share it iff they are proportional. */
  lemma NormalExact(a: seq<string>, b: seq<string>)
    ensures Normal(a) == Normal(b) <==> Proportional(a, b)
  {
    if Normal(a) == Normal(b) { SameNormalIsProportional(a, b); }
    if Proportional(a, b) { ProportionalSameNormal(a, b); }
  }

  // ----- the algorithm -----

  lemma GcdOfListing(distinct: seq<string>, m: multiset<string>)
    requires Distinct(distinct) && forall k :: k in distinct <==> k in m
    ensures GcdAll(0, CountsOf(distinct, m)) == CommonFactor(m)
  {
    var ks := Distincts(m);
    var c1, c2 := CountsOf(distinct, m), CountsOf(ks, m);
    GcdAllIsGreatest(0, c1);
    GcdAllIsGreatest(0, c2);
    var g1, g2 := GcdAll(0, c1), GcdAll(0, c2);
    assert g1 * 0 == 0 && g2 * 0 == 0;
    assert Divides(g1, 0) && Divides(g2, 0);
    ListingDivisors(distinct, ks, m, g1);
    ListingDivisors(ks, distinct, m, g2);
    DividesAntisymmetric(g1, g2);
  }

  lemma ListingDivisors(a: seq<string>, b: seq<string>, m: multiset<string>, d: nat)
    requires forall k :: k in b ==> k in a
    requires CommonDivisor(d, CountsOf(a, m))
    ensures CommonDivisor(d, CountsOf(b, m))
  {
    forall i | 0 <= i < |b| ensures Divides(d, CountsOf(b, m)[i]) {
      assert b[i] in a;
      var j :| 0 <= j < |a| && a[j] == b[i];
      assert Divides(d, CountsOf(a, m)[j]);
    }
  }

  lemma DistinctsOfListing(distinct: seq<string>, m: multiset<string>)
    requires Distinct(distinct) && forall k :: k in distinct <==> k in m
    ensures Sort(distinct, StrLe) == Distincts(m)
  {
    SortStringsOfSet(distinct);
    assert Elements(distinct) == set k | k in m;
  }

  /** Keys in the order of their first occurrence, and how often each occurs. */
  method CountKeys(keys: seq<string>) returns (counts: map<string, nat>, distinct: seq<string>)
    ensures Distinct(distinct) && forall k :: k in distinct <==> k in multiset(keys)
    ensures forall k :: k in counts <==> k in keys
    ensures forall k :: k in counts ==> counts[k] == multiset(keys)[k]
  {
    counts, distinct := map[], [];
    for i := 0 to |keys|
      invariant Distinct(distinct)
      invariant forall k :: k in distinct <==> k in multiset(keys[..i])
      invariant forall k :: k in counts <==> k in multiset(keys[..i])
      invariant forall k :: k in counts ==> counts[k] == multiset(keys[..i])[k]
    {
      var k := keys[i];
      assert keys[..i + 1] == keys[..i] + [k];
      if k !in counts {
        distinct := distinct + [k];
      }
      counts := counts[k := (if k in counts then counts[k] else 0) + 1];
    }
    assert keys[..|keys|] == keys;
  }

  method CommonCount(distinct: seq<string>, counts: map<string, nat>, ghost m: multiset<string>) returns (g: nat)
    requires Distinct(distinct) && forall k :: k in distinct <==> k in m
    requires forall k :: k in distinct ==> k in counts && counts[k] == m[k]
    ensures g == CommonFactor(m)
  {
    g := 0;
    ghost var all := CountsOf(distinct, m);
    assert all[0..] == all;
    for i := 0 to |distinct|
      invariant GcdAll(0, all) == GcdAll(g, all[i..])
    {
      assert distinct[i] in distinct && all[i..][1..] == all[i + 1..] && all[i..][0] == counts[distinct[i]];
      g := GcdInt(g, counts[distinct[i]]);
    }
    GcdOfListing(distinct, m);
  }

  method ExpandKeys(sorted: seq<string>, counts: map<string, nat>, g: nat, ghost m: multiset<string>)
    returns (out: seq<string>)
    requires sorted != [] ==> g > 0
    requires forall k :: k in sorted ==> k in counts && counts[k] == m[k]
    ensures out == Expand(sorted, m, g)
  {
    hide Expand, Copies;
    out := [];
    assert sorted[0..] == sorted;
    for i := 0 to |sorted|
      invariant Expand(sorted, m, g) == out + Expand(sorted[i..], m, g)
    {
      var k := sorted[i];
      assert k in sorted;
      ExpandNext(sorted, i, m, g);
      ghost var before := out;
      out := AppendCopies(out, counts[k] / g, k);
      Reassociate(before, Copies(m[k] / g, k), Expand(sorted[i + 1..], m, g));
    }
    ExpandNothing(sorted, m, g);
  }

  method AppendCopies(before: seq<string>, n: nat, k: string) returns (out: seq<string>)
    ensures out == before + Copies(n, k)
  {
    out := before;
    for j := 0 to n
      invariant out == before + Copies(j, k)
    {
      out := out + [k];
      assert Copies(j + 1, k) == Copies(j, k) + [k];
    }
  }

  lemma ExpandNext(sorted: seq<string>, i: nat, m: multiset<string>, g: nat)
    requires i < |sorted| && g > 0
    ensures Expand(sorted[i..], m, g) == Copies(m[sorted[i]] / g, sorted[i]) + Expand(sorted[i + 1..], m, g)
  {
    hide Copies;
    assert sorted[i..][1..] == sorted[i + 1..] && sorted[i..][0] == sorted[i];
  }

  lemma ExpandNothing(sorted: seq<string>, m: multiset<string>, g: nat)
    requires sorted != [] ==> g > 0
    ensures Expand(sorted[|sorted|..], m, g) == []
  {
  }

  lemma Reassociate<T>(a: seq<T>, b: seq<T>, c: seq<T>)
    ensures a + (b + c) == (a + b) + c
  {
  }

  method NormalizePercentileMultiplicity(keys: seq<string>) returns (out: seq<string>)
    ensures out == Normal(keys)
  {
    if |keys| < 2 {
      NormalShort(keys);
      return keys;
    }
    ghost var m := multiset(keys);
    var counts, distinct := CountKeys(keys);
    var g := CommonCount(distinct, counts, m);
    DistinctsOfListing(distinct, m);
    CommonFactorDivides(m);
    out := ExpandKeys(Sort(distinct, StrLe), counts, g, m);
  }
}
