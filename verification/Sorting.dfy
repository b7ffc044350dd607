/**
 Sorting under a total order, as `sort.Strings`, `sort.Float64s` and `sort.Slice` do it, and the fact
 that makes sorted results independent of how they were obtained: a multiset has one sorted list.
 */
module Sorting {
  import opened GoStrings

  ghost predicate TotalPreorder<T(!new)>(le: (T, T) -> bool)
  {
    && (forall a, b :: le(a, b) || le(b, a))
    && (forall a, b, c :: le(a, b) && le(b, c) ==> le(a, c))
  }

  ghost predicate TotalOrder<T(!new)>(le: (T, T) -> bool)
  {
    TotalPreorder(le) && forall a, b :: le(a, b) && le(b, a) ==> a == b
  }

  ghost predicate Sorted<T>(s: seq<T>, le: (T, T) -> bool)
  {
    forall i, j :: 0 <= i < j < |s| ==> le(s[i], s[j])
  }

  function Insert<T>(x: T, s: seq<T>, le: (T, T) -> bool): (r: seq<T>)
    ensures multiset(r) == multiset{x} + multiset(s)
    ensures |r| == |s| + 1
  {
    if s == [] then [x]
    else if le(x, s[0]) then [x] + s
    else
      assert s == [s[0]] + s[1..];
      [s[0]] + Insert(x, s[1..], le)
  }

  function Sort<T>(s: seq<T>, le: (T, T) -> bool): (r: seq<T>)
    ensures multiset(r) == multiset(s)
    ensures |r| == |s|
  {
    if s == [] then [] else
      assert s == [s[0]] + s[1..];
      Insert(s[0], Sort(s[1..], le), le)
  }

  lemma {:induction false} InsertSorted<T(!new)>(x: T, s: seq<T>, le: (T, T) -> bool)
    requires TotalPreorder(le) && Sorted(s, le)
    ensures Sorted(Insert(x, s, le), le)
  {
    if s == [] || le(x, s[0]) {
    } else {
      InsertSorted(x, s[1..], le);
      var rest := Insert(x, s[1..], le);
      forall i | 0 <= i < |rest| ensures le(s[0], rest[i]) {
        assert rest[i] in multiset(rest);
        assert rest[i] == x || rest[i] in s[1..];
      }
    }
  }

  lemma {:induction false} SortSorts<T(!new)>(s: seq<T>, le: (T, T) -> bool)
    requires TotalPreorder(le)
    ensures Sorted(Sort(s, le), le)
  {
    if s != [] {
      SortSorts(s[1..], le);
      InsertSorted(s[0], Sort(s[1..], le), le);
    }
  }

  lemma TailMultiset<T>(s: seq<T>)
    requires s != []
    ensures s == [s[0]] + s[1..]
    ensures multiset(s[1..]) == multiset(s) - multiset{s[0]}
  {
    assert s == [s[0]] + s[1..];
  }

  lemma SameLeast<T(!new)>(a: seq<T>, b: seq<T>, le: (T, T) -> bool)
    requires TotalOrder(le) && Sorted(a, le) && Sorted(b, le)
    requires a != [] && b != [] && multiset(a) == multiset(b)
    ensures a[0] == b[0]
  {
    assert a[0] in multiset(b) && b[0] in multiset(a);
    var i :| 0 <= i < |b| && b[i] == a[0];
    var j :| 0 <= j < |a| && a[j] == b[0];
    assert le(a[0], b[0]) && le(b[0], a[0]);
  }

  lemma {:induction false} SortedUnique<T(!new)>(a: seq<T>, b: seq<T>, le: (T, T) -> bool)
    requires TotalOrder(le) && Sorted(a, le) && Sorted(b, le)
    requires multiset(a) == multiset(b)
    ensures a == b
  {
    assert |a| == |multiset(a)| == |multiset(b)| == |b|;
    if a != [] {
      SameLeast(a, b, le);
      hide TotalOrder;
      TailMultiset(a);
      TailMultiset(b);
      SortedUnique(a[1..], b[1..], le);
    }
  }

  function Each<T, U>(s: seq<T>, f: T -> U): (r: seq<U>)
    ensures |r| == |s| && forall i :: 0 <= i < |r| ==> r[i] == f(s[i])
  {
    seq(|s|, i requires 0 <= i < |s| => f(s[i]))
  }

  lemma EachWithout<T, U>(s: seq<T>, f: T -> U, i: nat)
    requires i < |s|
    ensures multiset(Each(s, f)) == multiset(Each(s[..i] + s[i + 1..], f)) + multiset{f(s[i])}
  {
    var c := Each(s, f);
    assert c == c[..i] + [c[i]] + c[i + 1..];
    assert Each(s[..i] + s[i + 1..], f) == c[..i] + c[i + 1..];
  }

  /** The images of a permutation are a permutation of the images. */
  lemma {:induction false} EachPermutation<T, U>(a: seq<T>, b: seq<T>, f: T -> U)
    requires multiset(a) == multiset(b)
    ensures multiset(Each(a, f)) == multiset(Each(b, f))
  {
    if a == [] {
      assert |b| == |multiset(b)| == 0;
    } else {
      assert a[0] in multiset(b);
      var i :| 0 <= i < |b| && b[i] == a[0];
      var rest := b[..i] + b[i + 1..];
      assert b == b[..i] + [b[i]] + b[i + 1..];
      TailMultiset(a);
      assert multiset(rest) == multiset(b) - multiset{b[i]};
      EachPermutation(a[1..], rest, f);
      EachWithout(a, f, 0);
      EachWithout(b, f, i);
      assert a[..0] + a[1..] == a[1..];
    }
  }

  /** Sorting forgets the order of its input. */
  lemma SortPermutation<T(!new)>(a: seq<T>, b: seq<T>, le: (T, T) -> bool)
    requires TotalOrder(le)
    requires multiset(a) == multiset(b)
    ensures Sort(a, le) == Sort(b, le)
  {
    SortSorts(a, le);
    SortSorts(b, le);
    SortedUnique(Sort(a, le), Sort(b, le), le);
  }

  // ----- sorted lists of sets -----

  ghost predicate Distinct<T>(s: seq<T>)
  {
    forall i, j :: 0 <= i < j < |s| ==> s[i] != s[j]
  }

  ghost function Elements<T>(s: seq<T>): set<T>
  {
    set x | x in s
  }

  lemma {:induction false} DistinctMultiset<T>(s: seq<T>)
    requires Distinct(s)
    ensures multiset(s) == multiset(Elements(s))
  {
    if s != [] {
      var t := s[..|s| - 1];
      var x := s[|s| - 1];
      DistinctMultiset(t);
      assert s == t + [x];
      assert Elements(s) == Elements(t) + {x};
    } else {
      assert Elements(s) == {};
    }
  }

  lemma DuplicateCounted<T>(s: seq<T>, i: nat, j: nat)
    requires i < j < |s|
    ensures s[i] == s[j] ==> multiset(s)[s[i]] >= 2
  {
    assert s == s[..i] + [s[i]] + s[i + 1..j] + [s[j]] + s[j + 1..];
  }

  lemma MultisetDistinct<T>(s: seq<T>, x: set<T>)
    requires multiset(s) == multiset(x)
    ensures Distinct(s) && Elements(s) == x
  {
    forall i, j | 0 <= i < j < |s| ensures s[i] != s[j] {
      DuplicateCounted(s, i, j);
    }
    forall y ensures y in Elements(s) <==> y in x {
      assert y in s <==> y in multiset(s);
      assert y in x <==> y in multiset(x);
    }
  }

  /** The elements of a set in increasing order. */
  ghost function SortSet<T(!new)>(x: set<T>, le: (T, T) -> bool): (r: seq<T>)
    requires TotalOrder(le)
    ensures Sorted(r, le) && Distinct(r) && Elements(r) == x && |r| == |x|
  {
    var s := Listing(x);
    SortSorts(s, le);
    MultisetDistinct(Sort(s, le), x);
    Sort(s, le)
  }

  ghost function Listing<T>(x: set<T>): (r: seq<T>)
    ensures multiset(r) == multiset(x) && |r| == |x|
  {
    if x == {} then [] else
      var e :| e in x;
      assert x == (x - {e}) + {e};
      [e] + Listing(x - {e})
  }

  /** The one characterisation of SortSet that callers need. */
  lemma SortSetUnique<T(!new)>(s: seq<T>, x: set<T>, le: (T, T) -> bool)
    requires TotalOrder(le)
    requires Sorted(s, le) && Distinct(s) && Elements(s) == x
    ensures s == SortSet(x, le)
  {
    DistinctMultiset(s);
    DistinctMultiset(SortSet(x, le));
    SortedUnique(s, SortSet(x, le), le);
  }

  lemma SortDistinct<T(!new)>(s: seq<T>, le: (T, T) -> bool)
    requires TotalOrder(le) && Distinct(s)
    ensures Sort(s, le) == SortSet(Elements(s), le)
  {
    DistinctMultiset(s);
    SortSorts(s, le);
    MultisetDistinct(Sort(s, le), Elements(s));
    SortSetUnique(Sort(s, le), Elements(s), le);
  }

  // ----- strings -----

  lemma StrOrder()
    ensures TotalOrder(StrLe)
  {
    forall a, b ensures StrLe(a, b) || StrLe(b, a) { StrLeTotal(a, b); }
    forall a, b | StrLe(a, b) && StrLe(b, a) ensures a == b { StrLeAntisymmetric(a, b); }
    forall a, b, c | StrLe(a, b) && StrLe(b, c) ensures StrLe(a, c) { StrLeTransitive(a, b, c); }
  }

  /** A set of strings in the order of `sort.Strings`. */
  ghost function SortedKeys(x: set<string>): (r: seq<string>)
    ensures Sorted(r, StrLe) && Distinct(r) && Elements(r) == x && |r| == |x|
  {
    StrOrder();
    SortSet(x, StrLe)
  }

  /** Whatever the order in which a map yields its keys, sorting them gives SortedKeys. */
  lemma SortStringsOfSet(s: seq<string>)
    requires Distinct(s)
    ensures Sort(s, StrLe) == SortedKeys(Elements(s))
  {
    StrOrder();
    SortDistinct(s, StrLe);
  }

  /** The keys of a Go map, in the arbitrary order in which `range` yields them. */
  method RangeKeys(x: set<string>) returns (keys: seq<string>)
    ensures Distinct(keys) && Elements(keys) == x
  {
    keys := [];
    var rest := x;
    while rest != {}
      invariant rest <= x
      invariant Distinct(keys) && Elements(keys) == x - rest
      decreases |rest|
    {
      var k :| k in rest;
      assert k !in Elements(keys);
      assert Elements(keys + [k]) == Elements(keys) + {k};
      keys := keys + [k];
      rest := rest - {k};
    }
  }
}
