/**
 When resolving a selector does not depend on how labels are serialised (pkg/slo/spec/selector.go), for additions
 that are commutative with unit 0, as float addition is.  Values of 0 do not count, and of the first two summands
 the order does not count; apart from that, several matched spellings of one series must carry one value.
 */
module CommutativeSpelling {
  import opened GoStrings
  import opened Sorting
  import opened PromKey
  import opened PromKeyProperties
  import opened Selectors
  import opened Measurement
  import opened PairingAddition
  import opened SelectorSpelling

  /** A matched key whose value is not 0. */
  ghost predicate Counts(env: Env, s: Selector, v: Snapshot, k: string)
  {
    k in v && Selects(env, s, k) && v[k] != 0.0
  }

  /** Two spellings of one series that count carry one value, unless no other key that counts comes before or
      belongs to this series. */
  ghost predicate SharedSettled(env: Env, s: Selector, v: Snapshot)
  {
    forall k, l ::
      (Counts(env, s, v, k) && Counts(env, s, v, l) && FoundFor(k).canonical == FoundFor(l).canonical &&
       v[k] != v[l]) ==> NoOther(env, s, v, FoundFor(k).canonical, k, l)
  }

  ghost predicate NoOther(env: Env, s: Selector, v: Snapshot, name: string, k: string, l: string)
  {
    forall x :: Counts(env, s, v, x) && StrLe(FoundFor(x).canonical, name) ==> x == k || x == l
  }

  // ----- the matched series that count -----

  ghost function Present(v: Snapshot, found: seq<Found>): seq<Found>
  {
    if found == [] then [] else
    var n := |found| - 1;
    Present(v, found[..n]) + (if found[n].raw in v && v[found[n].raw] != 0.0 then [found[n]] else [])
  }

  lemma PresentNext(v: Snapshot, front: seq<Found>, x: Found)
    ensures Present(v, front + [x]) ==
      Present(v, front) + (if x.raw in v && v[x.raw] != 0.0 then [x] else [])
  {
    assert (front + [x])[..|front|] == front;
  }

  lemma {:induction false} PresentElements(v: Snapshot, found: seq<Found>)
    ensures forall x :: x in Present(v, found) <==> x in found && x.raw in v && v[x.raw] != 0.0
  {
    if found != [] {
      var front, last := found[..|found| - 1], found[|found| - 1];
      assert found == front + [last];
      PresentElements(v, front);
      PresentNext(v, front, last);
      hide Present;
    }
  }

  lemma {:induction false} PresentSorted(v: Snapshot, found: seq<Found>)
    requires Sorted(found, FoundLe) && Distinct(found)
    ensures Sorted(Present(v, found), FoundLe) && Distinct(Present(v, found))
  {
    hide FoundLe;
    if found != [] {
      var front, last := found[..|found| - 1], found[|found| - 1];
      assert found == front + [last];
      PresentSorted(v, front);
      PresentElements(v, front);
      PresentNext(v, front, last);
      hide Present;
      var p := Present(v, front);
      forall i | 0 <= i < |p| ensures FoundLe(p[i], last) && p[i] != last {
        assert p[i] in p;
        var j :| 0 <= j < |front| && front[j] == p[i];
        assert found[j] == p[i];
      }
    }
  }

  lemma {:induction false} PresentCount(v: Snapshot, found: seq<Found>, x: Found)
    ensures multiset(Present(v, found))[x] ==
      if x.raw in v && v[x.raw] != 0.0 then multiset(found)[x] else 0
  {
    if found != [] {
      var front, last := found[..|found| - 1], found[|found| - 1];
      assert found == front + [last];
      PresentCount(v, front, x);
      PresentNext(v, front, last);
      hide Present;
    }
  }

  lemma PresentPermutation(v: Snapshot, a: seq<Found>, b: seq<Found>)
    requires multiset(a) == multiset(b)
    ensures multiset(Present(v, a)) == multiset(Present(v, b))
  {
    forall x ensures multiset(Present(v, a))[x] == multiset(Present(v, b))[x] {
      PresentCount(v, a, x);
      PresentCount(v, b, x);
    }
  }

  // ----- their sum -----

  lemma KeysNext(front: seq<Found>, x: Found)
    ensures RawKeys(front + [x]) == RawKeys(front) + [x.raw]
  {
  }

  lemma SummandNext(d: Snapshot, keys: seq<string>, key: string)
    requires key in d && forall k :: k in keys ==> k in d
    ensures Summands(d, keys + [key]) == Summands(d, keys) + [d[key]]
  {
  }

  lemma AddingZero(add: Addition, x: real)
    requires Commutative(add)
    ensures add(x, 0.0) == x
  {
  }

  ghost predicate AreKeys(v: Snapshot, found: seq<Found>)
  {
    forall k :: k in RawKeys(found) ==> k in v
  }

  ghost function TotalOf(env: Env, v: Snapshot, found: seq<Found>): real
    requires AreKeys(v, found)
  {
    Total(env, Summands(v, RawKeys(found)))
  }

  lemma TotalOfNext(env: Env, v: Snapshot, front: seq<Found>, x: Found)
    requires AreKeys(v, front) && x.raw in v
    ensures AreKeys(v, front + [x])
    ensures TotalOf(env, v, front + [x]) == env.add(TotalOf(env, v, front), v[x.raw])
  {
    hide Total, RawKeys, Summands;
    KeysNext(front, x);
    SummandNext(v, RawKeys(front), x.raw);
    TotalNext(env, Summands(v, RawKeys(front)), v[x.raw]);
  }

  lemma FrontKeys(v: Snapshot, front: seq<Found>, x: Found)
    requires AreKeys(v, front + [x])
    ensures AreKeys(v, front) && x.raw in v
  {
    KeysNext(front, x);
    hide RawKeys;
    assert x.raw in RawKeys(front) + [x.raw];
  }

  /** Values of 0 do not change a sum. */
  lemma {:induction false} ZerosUnseen(env: Env, v: Snapshot, found: seq<Found>)
    requires Commutative(env.add) && AreKeys(v, found)
    ensures AreKeys(v, Present(v, found)) && TotalOf(env, v, Present(v, found)) == TotalOf(env, v, found)
  {
    if found != [] {
      var front, last := found[..|found| - 1], found[|found| - 1];
      assert found == front + [last];
      hide Present, TotalOf, AreKeys;
      FrontKeys(v, front, last);
      ZerosUnseen(env, v, front);
      PresentNext(v, front, last);
      TotalOfNext(env, v, front, last);
      if v[last.raw] != 0.0 {
        TotalOfNext(env, v, Present(v, front), last);
      } else {
        AddingZero(env.add, TotalOf(env, v, front));
        assert Present(v, front) + [] == Present(v, front);
      }
    }
  }

  // ----- the order of the summands -----

  /** A series and its value. */
  type Reading = (string, real)

  predicate NameLe(a: Reading, b: Reading)
  {
    StrLe(a.0, b.0)
  }

  predicate ReadingLe(a: Reading, b: Reading)
  {
    if a.0 != b.0 then StrLe(a.0, b.0) else a.1 <= b.1
  }

  lemma ReadingOrder()
    ensures TotalOrder(ReadingLe)
  {
    StrOrder();
    forall a, b, c | ReadingLe(a, b) && ReadingLe(b, c) ensures ReadingLe(a, c) {
      if !(a.0 == b.0 == c.0) { StrLeTransitive(a.0, b.0, c.0); }
    }
  }

  /** Only the first two readings may have one name and two values. */
  ghost predicate Settled(s: seq<Reading>)
  {
    forall i, j :: 0 <= i < j < |s| && s[i].0 == s[j].0 && s[i].1 != s[j].1 ==> i == 0 && j == 1
  }

  function Swap<T>(s: seq<T>): (r: seq<T>)
    requires |s| >= 2
    ensures multiset(r) == multiset(s)
  {
    assert s == [s[0], s[1]] + s[2..];
    [s[1], s[0]] + s[2..]
  }

  lemma SettledForms(s: seq<Reading>)
    requires Sorted(s, NameLe) && Settled(s)
    ensures Sorted(s, ReadingLe) || (|s| >= 2 && Sorted(Swap(s), ReadingLe))
  {
    hide StrLe;
    if |s| >= 2 && !ReadingLe(s[0], s[1]) {
      var r := Swap(s);
      assert NameLe(s[0], s[1]);
      forall i, j | 0 <= i < j < |r| ensures ReadingLe(r[i], r[j]) {
        var k := if i == 0 then 1 else if i == 1 then 0 else i;
        if j >= 2 { assert r[j] == s[j] && r[i] == s[k] && NameLe(s[k], s[j]); }
      }
    } else {
      forall i, j | 0 <= i < j < |s| ensures ReadingLe(s[i], s[j]) {
        assert NameLe(s[i], s[j]);
      }
    }
  }

  lemma SwapParts<T>(a: seq<T>)
    requires |a| >= 2
    ensures |Swap(a)| == |a| && Swap(a)[0] == a[1] && Swap(a)[1] == a[0] && Swap(a)[2..] == a[2..]
    ensures a == [a[0], a[1]] + a[2..]
  {
  }

  lemma SwapTwice<T>(a: seq<T>, b: seq<T>)
    requires |a| >= 2 && |b| >= 2
    ensures Swap(a) == b ==> FirstTwoExchanged(a, b) && FirstTwoExchanged(b, a)
    ensures Swap(a) == Swap(b) ==> a == b
  {
    hide Swap;
    SwapParts(a);
    SwapParts(b);
  }

  /** Settled readings have one order, up to an exchange of the first two. */
  lemma SettledUnique(a: seq<Reading>, b: seq<Reading>)
    requires Sorted(a, NameLe) && Settled(a) && Sorted(b, NameLe) && Settled(b) && multiset(a) == multiset(b)
    ensures a == b || FirstTwoExchanged(a, b)
  {
    ReadingOrder();
    SettledForms(a);
    SettledForms(b);
    assert |a| == |multiset(a)| == |multiset(b)| == |b|;
    hide *;
    if |a| >= 2 {
      SwapTwice(a, b);
      SwapTwice(b, a);
    }
    var x := if Sorted(a, ReadingLe) then a else Swap(a);
    var y := if Sorted(b, ReadingLe) then b else Swap(b);
    SortedUnique(x, y, ReadingLe);
  }

  // ----- where the promise holds -----

  ghost function Counting(env: Env, s: Selector, v: Snapshot): seq<Found>
  {
    Present(v, Ordered(FoundIn(env, s, v)))
  }

  lemma CountingFound(env: Env, s: Selector, v: Snapshot)
    ensures Sorted(Counting(env, s, v), FoundLe) && Distinct(Counting(env, s, v))
    ensures forall x :: x in Counting(env, s, v) ==> Counts(env, s, v, x.raw) && x == FoundFor(x.raw)
    ensures forall k :: Counts(env, s, v, k) ==> FoundFor(k) in Counting(env, s, v)
  {
    var found := Ordered(FoundIn(env, s, v));
    PresentSorted(v, found);
    PresentElements(v, found);
    hide Parsed, Formatted, Matches, FoundLe, Present, FoundIn;
    forall x | x in Counting(env, s, v) ensures Counts(env, s, v, x.raw) && x == FoundFor(x.raw) {
      assert x in Elements(found);
      FoundWitness(env, s, v, x);
    }
    forall k | Counts(env, s, v, k) ensures FoundFor(k) in Counting(env, s, v) {
      SelectedIsFound(env, s, v, k);
      assert FoundFor(k) in Elements(found);
    }
  }

  lemma SelectedIsFound(env: Env, s: Selector, v: Snapshot, k: string)
    requires k in v && Selects(env, s, k)
    ensures FoundFor(k) in FoundIn(env, s, v)
  {
    hide Parsed, Formatted, Matches;
  }

  ghost function ReadingIn(v: Snapshot): Found -> Reading
  {
    (x: Found) => (x.canonical, if x.raw in v then v[x.raw] else 0.0)
  }

  ghost function Readings(v: Snapshot, found: seq<Found>): seq<Reading>
  {
    Each(found, ReadingIn(v))
  }

  /** A settled snapshot has settled readings. */
  lemma SettledReadings(env: Env, s: Selector, v: Snapshot)
    requires SharedSettled(env, s, v)
    ensures var r := Readings(v, Counting(env, s, v)); Sorted(r, NameLe) && Settled(r)
  {
    var n := Counting(env, s, v);
    CountingFound(env, s, v);
    hide Parsed, Formatted, Selects, StrLe, Counting;
    forall i, j | 0 <= i < j < |n| ensures StrLe(n[i].canonical, n[j].canonical) {
      InOrder(n, i, j);
    }
    forall i, j | 0 <= i < j < |n| && n[i].canonical == n[j].canonical && v[n[i].raw] != v[n[j].raw]
      ensures i == 0 && j == 1
    {
      assert n[i] in n && n[j] in n;
      SharedPair(env, s, v, n[i].raw, n[j].raw);
      FirstOfPair(env, s, v, n, i, j, 0);
      if j > 1 { FirstOfPair(env, s, v, n, i, j, 1); }
    }
  }

  lemma SharedPair(env: Env, s: Selector, v: Snapshot, k: string, l: string)
    requires SharedSettled(env, s, v) && Counts(env, s, v, k) && Counts(env, s, v, l)
    requires FoundFor(k).canonical == FoundFor(l).canonical && v[k] != v[l]
    ensures NoOther(env, s, v, FoundFor(k).canonical, k, l)
  {
    hide Parsed, Formatted, Selects, NoOther;
  }

  lemma FirstOfPair(env: Env, s: Selector, v: Snapshot, n: seq<Found>, i: nat, j: nat, t: nat)
    requires Sorted(n, FoundLe) && Distinct(n) && t < j && i < j < |n|
    requires forall x :: x in n ==> Counts(env, s, v, x.raw) && x == FoundFor(x.raw)
    requires NoOther(env, s, v, n[j].canonical, n[i].raw, n[j].raw)
    ensures t == i
  {
    InOrder(n, t, j);
    hide Parsed, Formatted, Selects, StrLe, FoundLe;
    assert n[t] in n && n[i] in n && n[j] in n;
  }

  lemma InOrder(n: seq<Found>, i: nat, j: nat)
    requires Sorted(n, FoundLe) && i < j < |n|
    ensures StrLe(n[i].canonical, n[j].canonical)
  {
    assert FoundLe(n[i], n[j]);
    StrLeReflexive(n[i].canonical);
  }

  lemma CountsBack(env: Env, s: Selector, v: Snapshot, w: Snapshot, f: map<string, string>, y: string)
    returns (x: string)
    requires OneToOne(v, w, f) && Counts(env, s, w, y)
    ensures Counts(env, s, v, x) && x in f && f[x] == y && v[x] == w[y]
    ensures FoundFor(x).canonical == FoundFor(y).canonical
  {
    SelectedIsFound(env, s, w, y);
    var found := MovedFrom(env, s, v, w, f, FoundFor(y));
    FoundWitness(env, s, v, found);
    x := found.raw;
    hide OneToOne, FoundIn, Formatted, Selects, Parsed;
  }

  lemma RespelledPair(
    env: Env, s: Selector, v: Snapshot, w: Snapshot, f: map<string, string>, k: string, l: string)
    requires OneToOne(v, w, f) && SharedSettled(env, s, v)
    requires Counts(env, s, w, k) && Counts(env, s, w, l) && w[k] != w[l]
    requires FoundFor(k).canonical == FoundFor(l).canonical
    ensures NoOther(env, s, w, FoundFor(k).canonical, k, l)
  {
    hide Parsed, Formatted, Matches, OneToOne, SharedSettled;
    var k0 := CountsBack(env, s, v, w, f, k);
    var l0 := CountsBack(env, s, v, w, f, l);
    SharedPair(env, s, v, k0, l0);
    forall x | Counts(env, s, w, x) && StrLe(FoundFor(x).canonical, FoundFor(k).canonical) ensures x == k || x == l {
      var x0 := CountsBack(env, s, v, w, f, x);
    }
  }

  /** A respelling of a settled snapshot is settled. */
  lemma RespelledSettled(env: Env, s: Selector, v: Snapshot, w: Snapshot, f: map<string, string>)
    requires OneToOne(v, w, f) && SharedSettled(env, s, v)
    ensures SharedSettled(env, s, w)
  {
    hide Parsed, Formatted, Matches, OneToOne, NoOther;
    forall k, l | Counts(env, s, w, k) && Counts(env, s, w, l) && w[k] != w[l] &&
        FoundFor(k).canonical == FoundFor(l).canonical
      ensures NoOther(env, s, w, FoundFor(k).canonical, k, l)
    {
      RespelledPair(env, s, v, w, f, k, l);
    }
  }

  lemma ReadingsNext(v: Snapshot, front: seq<Found>, x: Found)
    ensures Readings(v, front + [x]) == Readings(v, front) + [ReadingIn(v)(x)]
  {
    hide ReadingIn;
  }

  /** Found series with equal readings have equal readings that count. */
  lemma {:induction false} PresentReadings(v: Snapshot, a: seq<Found>, w: Snapshot, b: seq<Found>)
    requires |a| == |b| && forall i :: 0 <= i < |a| ==> ReadingIn(v)(a[i]) == ReadingIn(w)(b[i])
    ensures Readings(v, Present(v, a)) == Readings(w, Present(w, b))
    decreases |a|
  {
    if a == [] {
    } else {
      var n := |a| - 1;
      assert a == a[..n] + [a[n]] && b == b[..n] + [b[n]];
      PresentReadings(v, a[..n], w, b[..n]);
      PresentNext(v, a[..n], a[n]);
      PresentNext(w, b[..n], b[n]);
      ReadingsNext(v, Present(v, a[..n]), a[n]);
      ReadingsNext(w, Present(w, b[..n]), b[n]);
      hide Present, Readings;
    }
  }

  lemma MovedReadings(env: Env, s: Selector, v: Snapshot, w: Snapshot, f: map<string, string>, fv: seq<Found>)
    requires OneToOne(v, w, f) && Elements(fv) == FoundIn(env, s, v)
    requires forall x :: x in fv ==> x.raw in f && Parsed(f[x.raw]).Ok?
    ensures forall i :: 0 <= i < |fv| ==> ReadingIn(v)(fv[i]) == ReadingIn(w)(Moved(fv, f)[i])
  {
    hide Parsed, Formatted, FoundIn;
    forall i | 0 <= i < |fv| ensures ReadingIn(v)(fv[i]) == ReadingIn(w)(Moved(fv, f)[i]) {
      assert fv[i] in Elements(fv);
      MovedKey(env, s, v, w, f, fv[i]);
      FoundWitness(env, s, v, fv[i]);
      assert SameReading(v, fv[i].raw, w, f[fv[i].raw]);
    }
  }

  /** One-to-one snapshots have the same readings that count, in some order. */
  lemma SameReadings(env: Env, s: Selector, v: Snapshot, w: Snapshot, f: map<string, string>)
    requires OneToOne(v, w, f)
    ensures multiset(Readings(v, Counting(env, s, v))) == multiset(Readings(w, Counting(env, s, w)))
  {
    var fv, fw := Ordered(FoundIn(env, s, v)), Ordered(FoundIn(env, s, w));
    var nw := Counting(env, s, w);
    assert nw == Present(w, fw) && Counting(env, s, v) == Present(v, fv);
    assert forall n :: Readings(w, n) == Each(n, ReadingIn(w));
    hide *;
    MovedElements(env, s, v, w, f, fv);
    var g := Moved(fv, f);
    DistinctMultiset(g);
    DistinctMultiset(fw);
    PresentPermutation(w, g, fw);
    EachPermutation(Present(w, g), nw, ReadingIn(w));
    MovedReadings(env, s, v, w, f, fv);
    PresentReadings(v, fv, w, g);
  }

  lemma SummandsOfReadings(v: Snapshot, found: seq<Found>, i: nat)
    requires AreKeys(v, found) && i < |found|
    ensures Summands(v, RawKeys(found))[i] == Readings(v, found)[i].1
  {
    assert RawKeys(found)[i] in RawKeys(found);
  }

  lemma SameReadingsSameSum(env: Env, v: Snapshot, w: Snapshot, a: seq<Found>, b: seq<Found>)
    requires Commutative(env.add) && AreKeys(v, a) && AreKeys(w, b)
    requires Readings(v, a) == Readings(w, b) || FirstTwoExchanged(Readings(v, a), Readings(w, b))
    ensures TotalOf(env, v, a) == TotalOf(env, w, b)
  {
    var p, q := Readings(v, a), Readings(w, b);
    var x, y := Summands(v, RawKeys(a)), Summands(w, RawKeys(b));
    assert |a| == |p| == |q| == |b| == |x| == |y|;
    forall i | 0 <= i < |a| ensures x[i] == p[i].1 && y[i] == q[i].1 {
      SummandsOfReadings(v, a, i);
      SummandsOfReadings(w, b, i);
    }
    hide Readings, Summands, RawKeys, Total, Commutative;
    if p == q {
      assert x == y;
    } else {
      SecondsExchanged(p, q, x, y);
      ExchangeUnseen(env, x, y);
    }
  }

  lemma SecondsExchanged(p: seq<Reading>, q: seq<Reading>, x: seq<real>, y: seq<real>)
    requires FirstTwoExchanged(p, q) && |x| == |p| && |y| == |q|
    requires forall i :: 0 <= i < |p| ==> x[i] == p[i].1 && y[i] == q[i].1
    ensures FirstTwoExchanged(x, y)
  {
    forall i | 2 <= i < |x| ensures x[i] == y[i] { assert p[2..][i - 2] == q[2..][i - 2]; }
  }

  lemma SumIsTotal(env: Env, v: Snapshot, found: seq<Found>)
    requires AreKeys(v, found)
    ensures SumFrom(env, v, 0.0, RawKeys(found)) == TotalOf(env, v, found)
  {
    SumFromTotal(env, v, [], RawKeys(found));
    assert [] + Summands(v, RawKeys(found)) == Summands(v, RawKeys(found));
  }

  /** Settled snapshots that match one to one have one sum. */
  lemma SettledSum(
    env: Env, s: Selector, v: Snapshot, w: Snapshot, f: map<string, string>, fv: seq<Found>, fw: seq<Found>)
    requires OneToOne(v, w, f) && SharedSettled(env, s, v) && Commutative(env.add)
    requires fv == Ordered(FoundIn(env, s, v)) && fw == Ordered(FoundIn(env, s, w))
    requires AreKeys(v, fv) && AreKeys(w, fw)
    ensures SumFrom(env, v, 0.0, RawKeys(fv)) == SumFrom(env, w, 0.0, RawKeys(fw))
  {
    var nv, nw := Counting(env, s, v), Counting(env, s, w);
    assert nv == Present(v, fv) && nw == Present(w, fw);
    hide *;
    SumIsTotal(env, v, fv);
    SumIsTotal(env, w, fw);
    ZerosUnseen(env, v, fv);
    ZerosUnseen(env, w, fw);
    RespelledSettled(env, s, v, w, f);
    SettledReadings(env, s, v);
    SettledReadings(env, s, w);
    SameReadings(env, s, v, w, f);
    SettledUnique(Readings(v, nv), Readings(w, nw));
    SameReadingsSameSum(env, v, w, nv, nw);
  }

  /** Resolving a settled snapshot does not depend on how the fetcher spells the series, under any addition that is
      commutative with unit 0. */
  lemma SettledIgnoresSpelling(env: Env, s: Selector, v: Snapshot, w: Snapshot, f: map<string, string>)
    requires OneToOne(v, w, f) && SharedSettled(env, s, v) && Commutative(env.add)
    ensures SameOutcome(ResolveOf(env, s, v), ResolveOf(env, s, w))
  {
    hide *;
    if !ValidSelector(env, s) {
      Refused(env, s, v, w);
    } else if s.aggregate == AGGREGATE_NONE {
      ResolveIgnoresSpelling(env, s, v, w, f);
    } else {
      var fv, fw := Ordered(FoundIn(env, s, v)), Ordered(FoundIn(env, s, w));
      ResolvedAs(env, s, v, fv);
      ResolvedAs(env, s, w, fw);
      KeysOf(v, fv);
      KeysOf(w, fw);
      SameFamily(env, s, v, w, f);
      SameCanonicals(env, s, v, w, f);
      SettledSum(env, s, v, w, f, fv, fw);
      SameSumSameOutcome(env, s, v, w, RawKeys(fv), RawKeys(fw), FamilyPresent(s, v));
    }
  }

  lemma KeysOf(v: Snapshot, found: seq<Found>)
    requires forall k :: k in RawKeys(found) ==> k in v
    ensures AreKeys(v, found)
  {
  }

  lemma SameSumSameOutcome(
    env: Env, s: Selector, v: Snapshot, w: Snapshot, ks: seq<string>, ls: seq<string>, family: bool)
    requires |ks| == |ls| && s.aggregate != AGGREGATE_NONE
    requires forall k :: k in ks ==> k in v
    requires forall l :: l in ls ==> l in w
    requires SumFrom(env, v, 0.0, ks) == SumFrom(env, w, 0.0, ls)
    ensures SameOutcome(Combined(env, s, v, ks, family), Combined(env, s, w, ls, family))
  {
    hide SumFrom;
  }

  // ----- where the spelling shows -----

  lemma PositionOf(env: Env, s: Selector, v: Snapshot, k: string) returns (p: nat)
    requires Counts(env, s, v, k)
    ensures p < |Counting(env, s, v)| && Counting(env, s, v)[p] == FoundFor(k)
  {
    CountingFound(env, s, v);
    hide Parsed, Formatted, Matches, Counting;
    p :| p < |Counting(env, s, v)| && Counting(env, s, v)[p] == FoundFor(k);
  }

  /** The two keys name one series, have different values, and the second one is no sooner than the third key that
      counts. */
  ghost predicate LatePair(env: Env, s: Selector, v: Snapshot, k: string, l: string, p: nat)
  {
    && Counts(env, s, v, k) && Counts(env, s, v, l)
    && FoundFor(k).canonical == FoundFor(l).canonical && v[k] != v[l]
    && 2 <= p < |Counting(env, s, v)| && Counting(env, s, v)[p].raw == l
  }

  lemma NotBefore(n: seq<Found>, i: nat, j: nat)
    requires Sorted(n, FoundLe) && i < |n| && j < |n| && i != j
    requires StrLe(n[i].canonical, n[j].canonical) && n[i].canonical != n[j].canonical
    ensures i < j
  {
    if j < i {
      InOrder(n, j, i);
      StrLeAntisymmetric(n[i].canonical, n[j].canonical);
    }
  }

  lemma SomeLatePair(env: Env, s: Selector, v: Snapshot) returns (k: string, l: string, p: nat)
    requires !SharedSettled(env, s, v)
    ensures LatePair(env, s, v, k, l, p)
  {
    hide Parsed, Formatted, Matches, StrLe, Counting;
    var a, b :| Counts(env, s, v, a) && Counts(env, s, v, b) && FoundFor(a).canonical == FoundFor(b).canonical &&
      v[a] != v[b] && !NoOther(env, s, v, FoundFor(a).canonical, a, b);
    var x :| Counts(env, s, v, x) && StrLe(FoundFor(x).canonical, FoundFor(a).canonical) && x != a && x != b;
    var n := Counting(env, s, v);
    CountingFound(env, s, v);
    var i := PositionOf(env, s, v, a);
    var j := PositionOf(env, s, v, b);
    var t := PositionOf(env, s, v, x);
    hide FoundLe, Sorted;
    if n[t].canonical != n[i].canonical {
      NotBefore(n, t, i);
      NotBefore(n, t, j);
    }
    if t > i && t > j {
      k, l, p := if v[x] != v[a] then a else b, x, t;
    } else if i > j {
      k, l, p := b, a, i;
    } else {
      k, l, p := a, b, j;
    }
  }

  lemma {:induction false} PresentSame(v: Snapshot, w: Snapshot, found: seq<Found>)
    requires v.Keys == w.Keys && forall k :: k in v ==> (v[k] == 0.0 <==> w[k] == 0.0)
    ensures Present(v, found) == Present(w, found)
  {
    if found != [] {
      var front, last := found[..|found| - 1], found[|found| - 1];
      assert found == front + [last];
      PresentSame(v, w, front);
      PresentNext(v, front, last);
      PresentNext(w, front, last);
      hide Present;
    }
  }

  /** The values that are not 0. */
  function NonZero(v: Snapshot): set<real>
  {
    set x | x in v.Values && x != 0.0
  }

  lemma PresentLeaves(v: Snapshot, w: Snapshot, found: seq<Found>)
    requires w.Values <= v.Values && AreKeys(w, Present(w, found))
    ensures Leaves(Summands(w, RawKeys(Present(w, found))), NonZero(v))
  {
    PresentElements(w, found);
    var n := Present(w, found);
    var values := Summands(w, RawKeys(n));
    hide Present;
    forall x | x in values ensures x in NonZero(v) {
      var i :| 0 <= i < |values| && values[i] == x;
      assert n[i] in n;
      assert w[n[i].raw] in w.Values;
    }
  }

  lemma ExchangedNonZero(v: Snapshot, k: string, l: string)
    requires k in v && l in v && k != l && v[k] != 0.0 && v[l] != 0.0
    ensures var w := Exchanged(v, k, l);
      w.Keys == v.Keys && w.Values <= v.Values && w[l] == v[k] &&
      forall x :: x in v ==> (v[x] == 0.0 <==> w[x] == 0.0)
  {
  }

  lemma NotExchanged<T>(x: seq<T>, y: seq<T>, p: nat)
    requires |x| == |y| && 2 <= p < |x| && x[p] != y[p]
    ensures x != y && !FirstTwoExchanged(x, y)
  {
    assert x[2..][p - 2] == x[p] && y[2..][p - 2] == y[p];
  }

  /** A difference after the second summand shows. */
  lemma LateDifference(
    env: Env, lift: real -> nat, base: nat, leaves: set<real>, x: seq<real>, y: seq<real>, p: nat)
    requires env.add == Pairing(lift, base) && Lifts(lift, base, leaves) && Leaves(x, leaves) && Leaves(y, leaves)
    requires |x| == |y| && 2 <= p < |x| && x[p] != y[p]
    ensures Total(env, x) != Total(env, y)
  {
    NotExchanged(x, y, p);
    hide FirstTwoExchanged;
    if Total(env, x) == Total(env, y) { TotalInjective(env, lift, base, leaves, x, y); }
  }

  lemma LateExchange(
    env: Env, lift: real -> nat, base: nat, s: Selector, v: Snapshot, k: string, l: string, p: nat,
    found: seq<Found>)
    requires env.add == Pairing(lift, base) && Lifts(lift, base, NonZero(v)) && LatePair(env, s, v, k, l, p)
    requires found == Ordered(FoundIn(env, s, v)) && AreKeys(v, found) && AreKeys(Exchanged(v, k, l), found)
    ensures SumFrom(env, v, 0.0, RawKeys(found)) != SumFrom(env, Exchanged(v, k, l), 0.0, RawKeys(found))
  {
    var w := Exchanged(v, k, l);
    var n := Counting(env, s, v);
    assert n == Present(v, found);
    PairingIsCommutative(lift, base);
    ExchangedNonZero(v, k, l);
    hide *;
    SumIsTotal(env, v, found);
    SumIsTotal(env, w, found);
    PresentSame(v, w, found);
    ZerosUnseen(env, v, found);
    ZerosUnseen(env, w, found);
    PresentLeaves(v, v, found);
    PresentLeaves(v, w, found);
    LateValues(env, s, v, w, k, l, p, n);
    LateDifference(env, lift, base, NonZero(v), Summands(v, RawKeys(n)), Summands(w, RawKeys(n)), p);
    TotalOfKeys(env, v, n);
    TotalOfKeys(env, w, n);
  }

  lemma TotalOfKeys(env: Env, v: Snapshot, found: seq<Found>)
    requires AreKeys(v, found)
    ensures TotalOf(env, v, found) == Total(env, Summands(v, RawKeys(found)))
  {
  }

  lemma LateValues(
    env: Env, s: Selector, v: Snapshot, w: Snapshot, k: string, l: string, p: nat, n: seq<Found>)
    requires LatePair(env, s, v, k, l, p) && n == Counting(env, s, v) && AreKeys(v, n) && AreKeys(w, n)
    requires l in w && w[l] == v[k]
    ensures 2 <= p < |n| && Summands(v, RawKeys(n))[p] != Summands(w, RawKeys(n))[p]
  {
    hide Parsed, Formatted, Selects, Counting;
  }

  /** In a snapshot that is not settled, exchanging two values of one series changes the result under some addition
      that is commutative with unit 0. */
  lemma SpellingShows(env: Env, s: Selector, v: Snapshot) returns (add: Addition, k: string, l: string)
    requires ValidSelector(env, s) && s.aggregate != AGGREGATE_NONE && !SharedSettled(env, s, v)
    ensures Commutative(add) && k in v && l in v && OneToOne(v, Exchanged(v, k, l), Exchange(v, k, l))
    ensures !SameOutcome(
      ResolveOf(Adding(env, add), s, v), ResolveOf(Adding(env, add), s, Exchanged(v, k, l)))
  {
    hide *;
    var p: nat;
    k, l, p := SomeLatePair(env, s, v);
    LatePairFacts(env, s, v, k, l, p);
    NoZero(v);
    var lift, base := SomeLift(NonZero(v), 0);
    PairingIsCommutative(lift, base);
    add := Pairing(lift, base);
    var e, w := Adding(env, add), Exchanged(v, k, l);
    AddingAdds(env, add);
    ExchangeIsOneToOne(v, k, l);
    ExchangedValues(v, k, l);
    SameFound(env, add, s, v, v);
    SameFound(env, add, s, v, w);
    SameLatePair(env, add, s, v, k, l, p);
    var found := Ordered(FoundIn(env, s, v));
    var ks := RawKeys(found);
    RawKeysDistinct(env, s, v, found);
    assert k in ks;
    KeysOf(v, found);
    KeysOf(w, found);
    ResolvedSum(e, s, v, ks);
    ResolvedSum(e, s, w, ks);
    LateExchange(e, lift, base, s, v, k, l, p, found);
    DifferentValues(SumFrom(e, v, 0.0, ks), SumFrom(e, w, 0.0, ks), ks);
  }

  lemma NoZero(v: Snapshot)
    ensures 0.0 !in NonZero(v)
  {
  }

  lemma LatePairFacts(env: Env, s: Selector, v: Snapshot, k: string, l: string, p: nat)
    requires LatePair(env, s, v, k, l, p)
    ensures k in v && l in v && Selects(env, s, k) && Selects(env, s, l) && k != l
    ensures Parsed(k).Ok? && Parsed(l).Ok? && FoundFor(k).canonical == FoundFor(l).canonical
  {
    hide Parsed, Formatted, Matches;
  }

  lemma SelectsSame(env: Env, add: Addition, s: Selector)
    ensures forall k :: Selects(Adding(env, add), s, k) == Selects(env, s, k)
  {
    hide Parsed;
  }

  lemma SameCounting(env: Env, add: Addition, s: Selector, v: Snapshot)
    ensures Counting(Adding(env, add), s, v) == Counting(env, s, v)
  {
    SameFound(env, add, s, v, v);
    hide FoundIn, Ordered, Present;
  }

  lemma SameLatePair(env: Env, add: Addition, s: Selector, v: Snapshot, k: string, l: string, p: nat)
    requires LatePair(env, s, v, k, l, p)
    ensures LatePair(Adding(env, add), s, v, k, l, p)
  {
    SelectsSame(env, add, s);
    SameCounting(env, add, s, v);
    hide Parsed, Formatted, Matches, Counting;
  }

  lemma SameSettled(env: Env, add: Addition, s: Selector, v: Snapshot)
    ensures SharedSettled(Adding(env, add), s, v) <==> SharedSettled(env, s, v)
  {
    SelectsSame(env, add, s);
    hide Parsed, Formatted, Selects, StrLe;
  }

  /** Exactly when the promise holds: for every one-to-one respelling of the snapshot and every addition that is
      commutative with unit 0 the outcome is the same, iff the selector does not aggregate or the snapshot is
      settled. */
  lemma SpellingExact(env: Env, s: Selector, v: Snapshot)
    requires ValidSelector(env, s)
    ensures (forall add: Addition, w: Snapshot, f: map<string, string> :: Commutative(add) && OneToOne(v, w, f) ==>
        SameOutcome(ResolveOf(Adding(env, add), s, v), ResolveOf(Adding(env, add), s, w)))
      <==> s.aggregate == AGGREGATE_NONE || SharedSettled(env, s, v)
  {
    hide *;
    if s.aggregate == AGGREGATE_NONE || SharedSettled(env, s, v) {
      forall add: Addition, w: Snapshot, f: map<string, string> | Commutative(add) && OneToOne(v, w, f)
        ensures SameOutcome(ResolveOf(Adding(env, add), s, v), ResolveOf(Adding(env, add), s, w))
      {
        AddingAdds(env, add);
        SameSettled(env, add, s, v);
        if SharedSettled(env, s, v) {
          SettledIgnoresSpelling(Adding(env, add), s, v, w, f);
        } else {
          ResolveIgnoresSpelling(Adding(env, add), s, v, w, f);
        }
      }
    } else {
      var add, k, l := SpellingShows(env, s, v);
    }
  }
}
