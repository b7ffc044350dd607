/**
 What a sum from the left shows of its summands when nothing is known of the addition but that it is commutative
 with unit 0, as float addition is: all of them in order, up to an exchange of the first two.
 */
module PairingAddition {
  import opened Multiplicity
  import opened Selectors
  import opened Measurement

  type Addition = (real, real) -> real

  ghost predicate Commutative(add: Addition)
  {
    (forall x, y :: add(x, y) == add(y, x)) && forall x :: add(0.0, x) == x
  }

  predicate FirstTwoExchanged<T(==)>(a: seq<T>, b: seq<T>)
  {
    |a| == |b| >= 2 && a[0] == b[1] && a[1] == b[0] && a[2..] == b[2..]
  }

  lemma TotalOfNone(env: Env)
    ensures Total(env, []) == 0.0
  {
  }

  lemma TotalNext(env: Env, front: seq<real>, last: real)
    ensures Total(env, front + [last]) == env.add(Total(env, front), last)
  {
    assert (front + [last])[..|front|] == front;
  }

  lemma TotalOfTwo(env: Env, x: real, y: real)
    requires Commutative(env.add)
    ensures Total(env, [x, y]) == env.add(x, y)
  {
    TotalOfNone(env);
    TotalNext(env, [], x);
    TotalNext(env, [x], y);
    assert [] + [x] == [x] && [x] + [y] == [x, y];
  }

  /** No such addition shows an exchange of the first two summands. */
  lemma {:induction false} ExchangeUnseen(env: Env, a: seq<real>, b: seq<real>)
    requires Commutative(env.add) && FirstTwoExchanged(a, b)
    ensures Total(env, a) == Total(env, b)
    decreases |a|
  {
    hide Total;
    if |a| == 2 {
      TotalOfTwo(env, a[0], a[1]);
      TotalOfTwo(env, b[0], b[1]);
      assert a == [a[0], a[1]] && b == [b[0], b[1]];
    } else {
      var n := |a| - 1;
      assert a[..n][2..] == a[2..][..n - 2] && b[..n][2..] == b[2..][..n - 2];
      assert a[n] == a[2..][n - 2] && b[n] == b[2..][n - 2];
      ExchangeUnseen(env, a[..n], b[..n]);
      TotalNext(env, a[..n], a[n]);
      TotalNext(env, b[..n], b[n]);
      assert a == a[..n] + [a[n]] && b == b[..n] + [b[n]];
    }
  }

  // ----- sums over keys -----

  function Summands(d: Snapshot, keys: seq<string>): (r: seq<real>)
    requires forall k :: k in keys ==> k in d
    ensures |r| == |keys| && forall i :: 0 <= i < |r| ==> r[i] == d[keys[i]]
  {
    assert forall i :: 0 <= i < |keys| ==> keys[i] in keys;
    seq(|keys|, i requires 0 <= i < |keys| => d[keys[i]])
  }

  lemma {:induction false} SampleSummands(d: Snapshot, keys: seq<string>)
    requires forall k :: k in keys ==> k in d
    ensures SampleValues(keys, d) == Summands(d, keys)
  {
    if keys != [] {
      var n := |keys| - 1;
      SampleSummands(d, keys[..n]);
      assert keys[n] in keys;
      assert Summands(d, keys) == Summands(d, keys[..n]) + [d[keys[n]]];
    }
  }

  lemma {:induction false} SumFromTotal(env: Env, d: Snapshot, done: seq<real>, keys: seq<string>)
    requires forall k :: k in keys ==> k in d
    ensures SumFrom(env, d, Total(env, done), keys) == Total(env, done + Summands(d, keys))
    decreases |keys|
  {
    hide Total;
    if keys == [] {
      assert done + Summands(d, keys) == done;
    } else {
      var next := done + [d[keys[0]]];
      assert keys[0] in keys;
      TotalNext(env, done, d[keys[0]]);
      SumFromTotal(env, d, next, keys[1..]);
      assert next + Summands(d, keys[1..]) == done + Summands(d, keys);
    }
  }

  // ----- unordered pairs as numbers -----

  function PairCode(u: nat, v: nat): nat
  {
    if u <= v then v * v + u else u * u + v
  }

  lemma PairCodeCommutes(u: nat, v: nat)
    ensures PairCode(u, v) == PairCode(v, u)
  {
  }

  lemma SquareSteps(m: nat, n: nat)
    ensures m < n ==> m * m + m < n * n
  {
    if m < n {
      MulLess(m, m, n);
      MulLess(n, m, n);
      assert n * n >= n * m + n && m * n == n * m;
    }
  }

  lemma PairCodeInjective(u: nat, v: nat, x: nat, y: nat)
    requires PairCode(u, v) == PairCode(x, y)
    ensures (u == x && v == y) || (u == y && v == x)
  {
    var m, n := if u <= v then v else u, if x <= y then y else x;
    SquareSteps(m, n);
    SquareSteps(n, m);
  }

  // ----- the addition -----

  /** Every non-zero summand has a code that is a multiple of the base; every sum of two is its own code and
      one above a multiple. */
  ghost predicate Lifts(lift: real -> nat, base: nat, leaves: set<real>)
  {
    && base >= 2
    && (forall x :: x in leaves ==> x != 0.0 && lift(x) > 0 && lift(x) % base == 0)
    && (forall x, y :: x in leaves && y in leaves && lift(x) == lift(y) ==> x == y)
    && (forall q: nat :: lift(Composite(base, q)) == Code(base, q))
  }

  function Code(base: nat, q: nat): nat
  {
    base * (q + 1) + 1
  }

  function Composite(base: nat, q: nat): real
  {
    Code(base, q) as real
  }

  function Pairing(lift: real -> nat, base: nat): Addition
  {
    (x: real, y: real) =>
      if x == 0.0 then y else if y == 0.0 then x else Composite(base, PairCode(lift(x), lift(y)))
  }

  lemma PairingIsCommutative(lift: real -> nat, base: nat)
    ensures Commutative(Pairing(lift, base))
  {
    hide PairCode, Composite;
    forall x, y ensures Pairing(lift, base)(x, y) == Pairing(lift, base)(y, x) {
      PairCodeCommutes(lift(x), lift(y));
    }
  }

  lemma CompositeResidue(base: nat, q: nat)
    requires base >= 2
    ensures Code(base, q) % base == 1 && Composite(base, q) != 0.0
  {
    RemainderUnique(Code(base, q), base, q + 1, 1);
    hide *;
  }

  lemma CompositesDiffer(base: nat, p: nat, q: nat)
    requires base >= 2 && Composite(base, p) == Composite(base, q)
    ensures p == q
  {
    CancelFactor(base, p + 1, q + 1);
  }

  /** The last pair of a sum of at least two summands. */
  function LastPair(env: Env, lift: real -> nat, values: seq<real>): nat
    requires |values| >= 2
  {
    var n := |values| - 1;
    PairCode(lift(Total(env, values[..n])), lift(values[n]))
  }

  ghost predicate Leaves(values: seq<real>, leaves: set<real>)
  {
    forall x :: x in values ==> x in leaves
  }

  lemma TotalOfOne(env: Env, x: real)
    requires Commutative(env.add)
    ensures Total(env, [x]) == x
  {
    assert [x][..0] == [];
  }

  lemma {:induction false} TotalPairs(
    env: Env, lift: real -> nat, base: nat, leaves: set<real>, values: seq<real>)
    requires env.add == Pairing(lift, base) && Lifts(lift, base, leaves) && Leaves(values, leaves)
    ensures |values| == 1 ==> Total(env, values) == values[0] && values[0] in leaves
    ensures |values| >= 2 ==> Total(env, values) == Composite(base, LastPair(env, lift, values))
    ensures values != [] ==> Total(env, values) != 0.0
  {
    hide PairCode, Composite;
    if |values| == 1 {
      PairingIsCommutative(lift, base);
      TotalOfOne(env, values[0]);
      assert values == [values[0]] && values[0] in values;
    } else if |values| >= 2 {
      var n := |values| - 1;
      TotalPairs(env, lift, base, leaves, values[..n]);
      assert values[n] in values;
      CompositeResidue(base, LastPair(env, lift, values));
    }
  }

  /** The code of a total tells a single summand from a sum, and one total from another. */
  lemma TotalCode(env: Env, lift: real -> nat, base: nat, leaves: set<real>, values: seq<real>)
    requires env.add == Pairing(lift, base) && Lifts(lift, base, leaves) && Leaves(values, leaves) && values != []
    ensures lift(Total(env, values)) % base == (if |values| == 1 then 0 else 1)
    ensures |values| >= 2 ==> Total(env, values) == lift(Total(env, values)) as real
  {
    TotalPairs(env, lift, base, leaves, values);
    hide Total, PairCode;
    if |values| >= 2 { CompositeResidue(base, LastPair(env, lift, values)); }
  }

  lemma SameCodeSameTotal(env: Env, lift: real -> nat, base: nat, leaves: set<real>, a: seq<real>, b: seq<real>)
    requires env.add == Pairing(lift, base) && Lifts(lift, base, leaves)
    requires Leaves(a, leaves) && Leaves(b, leaves) && a != [] && b != []
    requires lift(Total(env, a)) == lift(Total(env, b))
    ensures Total(env, a) == Total(env, b)
  {
    TotalCode(env, lift, base, leaves, a);
    TotalCode(env, lift, base, leaves, b);
    TotalPairs(env, lift, base, leaves, a);
    TotalPairs(env, lift, base, leaves, b);
    hide Total, LastPair;
  }

  /** The last pair is the same one, or it is exchanged and there is nothing before it. */
  lemma LastPairTells(env: Env, lift: real -> nat, base: nat, leaves: set<real>, a: seq<real>, b: seq<real>)
    requires env.add == Pairing(lift, base) && Lifts(lift, base, leaves)
    requires Leaves(a, leaves) && Leaves(b, leaves) && |a| >= 2 && |b| >= 2
    requires LastPair(env, lift, a) == LastPair(env, lift, b)
    ensures var m, n := |a| - 1, |b| - 1;
      || (a[m] == b[n] && Total(env, a[..m]) == Total(env, b[..n]))
      || (m == n == 1 && a[0] == b[1] && a[1] == b[0])
  {
    var m, n := |a| - 1, |b| - 1;
    var x, y := Total(env, a[..m]), Total(env, b[..n]);
    PairCodeInjective(lift(x), lift(a[m]), lift(y), lift(b[n]));
    assert a[m] in a && b[n] in b;
    TotalCode(env, lift, base, leaves, a[..m]);
    TotalCode(env, lift, base, leaves, b[..n]);
    TotalPairs(env, lift, base, leaves, a[..m]);
    TotalPairs(env, lift, base, leaves, b[..n]);
    hide Total, LastPair, Pairing, PairCode, Composite;
    if lift(x) == lift(y) && lift(a[m]) == lift(b[n]) {
      SameCodeSameTotal(env, lift, base, leaves, a[..m], b[..n]);
    }
  }

  lemma ExchangedLater<T>(a: seq<T>, b: seq<T>)
    requires a != [] && b != [] && a[|a| - 1] == b[|b| - 1]
    requires a[..|a| - 1] == b[..|b| - 1] || FirstTwoExchanged(a[..|a| - 1], b[..|b| - 1])
    ensures a == b || FirstTwoExchanged(a, b)
  {
    var m, n := |a| - 1, |b| - 1;
    assert a == a[..m] + [a[m]] && b == b[..n] + [b[n]];
    if a[..m] != b[..n] {
      assert m == |a[..m]| == |b[..n]| == n;
      assert a[2..] == a[..m][2..] + [a[m]] && b[2..] == b[..n][2..] + [b[n]];
    }
  }

  /** Equal totals are of nothing, of the same single summand, or of the same last pair. */
  lemma SameTotal(env: Env, lift: real -> nat, base: nat, leaves: set<real>, a: seq<real>, b: seq<real>)
    requires env.add == Pairing(lift, base) && Lifts(lift, base, leaves)
    requires Leaves(a, leaves) && Leaves(b, leaves) && Total(env, a) == Total(env, b)
    ensures |a| < 2 || |b| < 2 ==> a == b
    ensures |a| >= 2 && |b| >= 2 ==> LastPair(env, lift, a) == LastPair(env, lift, b)
  {
    TotalPairs(env, lift, base, leaves, a);
    TotalPairs(env, lift, base, leaves, b);
    TotalOfNone(env);
    BaseIsProper(lift, base, leaves);
    hide *;
    if a != [] && b != [] {
      TotalCode(env, lift, base, leaves, a);
      TotalCode(env, lift, base, leaves, b);
      if |a| == 1 {
        assert a == [a[0]] && b == [b[0]];
      } else {
        CompositesDiffer(base, LastPair(env, lift, a), LastPair(env, lift, b));
      }
    }
  }

  /** This addition shows everything else: equal sums have equal summands in the same order, up to an exchange of
      the first two. */
  lemma {:induction false} TotalInjective(
    env: Env, lift: real -> nat, base: nat, leaves: set<real>, a: seq<real>, b: seq<real>)
    requires env.add == Pairing(lift, base) && Lifts(lift, base, leaves)
    requires Leaves(a, leaves) && Leaves(b, leaves) && Total(env, a) == Total(env, b)
    ensures a == b || FirstTwoExchanged(a, b)
    decreases |a|
  {
    hide *;
    SameTotal(env, lift, base, leaves, a, b);
    if |a| >= 2 && |b| >= 2 {
      var m, n := |a| - 1, |b| - 1;
      LastPairTells(env, lift, base, leaves, a, b);
      if a[m] == b[n] && Total(env, a[..m]) == Total(env, b[..n]) {
        FrontLeaves(a, m, leaves);
        FrontLeaves(b, n, leaves);
        TotalInjective(env, lift, base, leaves, a[..m], b[..n]);
        ExchangedLater(a, b);
      } else {
        TwoExchanged(a, b);
      }
    }
  }

  lemma FrontLeaves(values: seq<real>, n: nat, leaves: set<real>)
    requires Leaves(values, leaves) && n <= |values|
    ensures Leaves(values[..n], leaves)
  {
  }

  lemma BaseIsProper(lift: real -> nat, base: nat, leaves: set<real>)
    requires Lifts(lift, base, leaves)
    ensures base >= 2
  {
  }

  lemma TwoExchanged<T>(a: seq<T>, b: seq<T>)
    requires |a| == |b| == 2 && a[0] == b[1] && a[1] == b[0]
    ensures FirstTwoExchanged(a, b)
  {
  }

  // ----- codes for any values -----

  /** Different numbers from 1 on for the elements. */
  ghost predicate Coding<T(!new)>(code: map<T, nat>)
  {
    && (forall k :: k in code ==> code[k] >= 1)
    && (forall k, l :: k in code && l in code && code[k] == code[l] ==> k == l)
  }

  lemma {:induction false} SomeCoding<T(!new)>(keys: set<T>) returns (code: map<T, nat>, bound: nat)
    ensures Coding(code) && code.Keys == keys && bound >= 1 && forall k :: k in code ==> code[k] < bound
  {
    if keys == {} {
      code, bound := map[], 1;
    } else {
      var e :| e in keys;
      var c, b := SomeCoding(keys - {e});
      code, bound := c[e := b], b + 1;
    }
  }

  lemma {:induction false} SomeBound(values: set<real>) returns (bound: nat)
    ensures forall x :: x in values ==> x < bound as real
  {
    if e: real :| e in values {
      var b := SomeBound(values - {e});
      bound := if e < b as real then b else e.Floor + 1;
      forall x: real | x in values ensures x < bound as real {
        if x != e { assert x in values - {e}; }
      }
    } else {
      bound := 0;
    }
  }

  function Lift(code: map<real, nat>, base: nat): real -> nat
  {
    (x: real) => if x in code then base * code[x] else if x >= 0.0 then x.Floor else 0
  }

  /** Some such addition for the given summands, with a base as large as wanted. */
  lemma SomeLift(leaves: set<real>, atLeast: nat) returns (lift: real -> nat, base: nat)
    requires 0.0 !in leaves
    ensures Lifts(lift, base, leaves) && base > atLeast
  {
    var code, _ := SomeCoding(leaves);
    var bound := SomeBound(leaves);
    base := bound + atLeast + 2;
    lift := Lift(code, base);
    LiftOfLeaves(code, base);
    forall q: nat ensures lift(Composite(base, q)) == Code(base, q) {
      CompositeIsNoLeaf(leaves, bound, base, q);
      LiftOfComposite(code, base, q);
    }
    hide Lift, Composite, Code;
  }

  lemma LiftOfLeaves(code: map<real, nat>, base: nat)
    requires Coding(code) && base >= 2
    ensures forall x :: x in code ==> Lift(code, base)(x) > 0 && Lift(code, base)(x) % base == 0
    ensures forall x, y :: x in code && y in code && Lift(code, base)(x) == Lift(code, base)(y) ==> x == y
  {
    forall x | x in code ensures Lift(code, base)(x) > 0 && Lift(code, base)(x) % base == 0 {
      MulAtLeast(base, code[x]);
      RemainderUnique(base * code[x], base, code[x], 0);
    }
    forall x, y | x in code && y in code && Lift(code, base)(x) == Lift(code, base)(y) ensures x == y {
      CancelFactor(base, code[x], code[y]);
    }
  }

  lemma LiftOfComposite(code: map<real, nat>, base: nat, q: nat)
    requires Composite(base, q) !in code
    ensures Lift(code, base)(Composite(base, q)) == Code(base, q)
  {
    hide Code;
  }

  lemma CompositeIsNoLeaf(leaves: set<real>, bound: nat, base: nat, q: nat)
    requires (forall x :: x in leaves ==> x < bound as real) && base > bound
    ensures Composite(base, q) !in leaves
  {
    MulAtLeast(base, q + 1);
  }
}
