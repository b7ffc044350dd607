/**
 Summing the labelled series of a metric under its bare name (pkg/slo/fetch/promtext/aggregate.go).
 Values are exact reals here, so that the order of the additions does not matter.
 */
module Aggregation {
  import opened GoStrings
  import opened Sorting
  import opened PromKey
  import opened PromKeyProperties

  type Readings = map<string, real>

  /** An unlabelled series of this name is present. */
  ghost predicate HasBare(m: Readings, name: string)
  {
    exists k :: k in m && Parsed(k) == Ok(Series(name, map[]))
  }

  /** A labelled series that is not a histogram bucket or a summary quantile. */
  predicate Additive(key: string)
  {
    && Parsed(key).Ok?
    && Parsed(key).value.labels != map[]
    && "le" !in Parsed(key).value.labels
    && "quantile" !in Parsed(key).value.labels
  }

  predicate Contributes(key: string, name: string)
  {
    Additive(key) && Parsed(key).value.name == name
  }

  ghost function Contributors(keys: set<string>, name: string): set<string>
  {
    set k | k in keys && Contributes(k, name)
  }

  ghost function SumOver(m: Readings, keys: set<string>): real
    requires keys <= m.Keys
  {
    if keys == {} then 0.0 else
      var k :| k in keys;
      m[k] + SumOver(m, keys - {k})
  }

  lemma {:induction false} SumOverAdd(m: Readings, keys: set<string>, k: string)
    requires keys <= m.Keys && k in m && k !in keys
    ensures SumOver(m, keys + {k}) == SumOver(m, keys) + m[k]
    decreases |keys|
  {
    var all := keys + {k};
    var p :| p in all && SumOver(m, all) == m[p] + SumOver(m, all - {p});
    if p == k {
      assert all - {k} == keys;
    } else {
      assert all - {p} == (keys - {p}) + {k};
      SumOverAdd(m, keys - {p}, k);
      SumOverAdd(m, keys - {p}, p);
      assert (keys - {p}) + {p} == keys;
    }
  }

  /** Names with an additive series and no bare one. */
  ghost function Names(m: Readings, keys: set<string>): set<string>
  {
    set k | k in keys && Additive(k) && !HasBare(m, Parsed(k).value.name) :: Parsed(k).value.name
  }

  ghost function SumsOf(m: Readings, keys: set<string>): Readings
    requires keys <= m.Keys
  {
    map n | n in Names(m, keys) :: SumOver(m, Contributors(keys, n))
  }

  ghost function AggregateOf(m: Readings): Readings
  {
    m + SumsOf(m, m.Keys)
  }

  lemma ContributorsStep(keys: set<string>, k: string, n: string)
    ensures Contributors(keys + {k}, n) == Contributors(keys, n) + (if Contributes(k, n) then {k} else {})
  {
    hide Contributes;
  }

  lemma SkipStep(m: Readings, done: set<string>, k: string)
    requires done <= m.Keys && k in m && k !in done
    requires !Additive(k) || HasBare(m, Parsed(k).value.name)
    ensures SumsOf(m, done + {k}) == SumsOf(m, done)
  {
    hide Parsed, HasBare;
    assert Names(m, done + {k}) == Names(m, done);
    forall n | n in Names(m, done) ensures Contributors(done + {k}, n) == Contributors(done, n) {
      ContributorsStep(done, k, n);
    }
  }

  lemma NoContributors(m: Readings, done: set<string>, n: string)
    requires !HasBare(m, n) && n !in Names(m, done)
    ensures Contributors(done, n) == {}
  {
    hide Parsed, HasBare;
  }

  lemma SumStep(m: Readings, done: set<string>, k: string)
    requires done <= m.Keys && k in m && k !in done
    requires Additive(k) && !HasBare(m, Parsed(k).value.name)
    ensures var n := Parsed(k).value.name; var sums := SumsOf(m, done);
      SumsOf(m, done + {k}) == sums[n := (if n in sums then sums[n] else 0.0) + m[k]]
  {
    hide Parsed, HasBare;
    var n := Parsed(k).value.name;
    assert Names(m, done + {k}) == Names(m, done) + {n};
    SumOverAdd(m, Contributors(done, n), k);
    ContributorsStep(done, k, n);
    if n !in Names(m, done) { NoContributors(m, done, n); }
    hide SumOver;
    forall x | x in Names(m, done) && x != n
      ensures Contributors(done + {k}, x) == Contributors(done, x)
    {
      ContributorsStep(done, k, x);
    }
  }

  /** The names of the bare series; the map is ranged over in an arbitrary order. */
  method BareNames(m: Readings) returns (hasBare: set<string>)
    ensures forall n :: n in hasBare <==> HasBare(m, n)
  {
    hide Parsed;
    hasBare := {};
    var keys := RangeKeys(m.Keys);
    for i := 0 to |keys|
      invariant forall n :: n in hasBare <==> exists j :: 0 <= j < i && Parsed(keys[j]) == Ok(Series(n, map[]))
    {
      var p := Parse(keys[i]);
      if p.Ok? && p.value.labels == map[] {
        assert Parsed(keys[i]) == Ok(Series(p.value.name, map[]));
        hasBare := hasBare + {p.value.name};
      }
    }
    forall n ensures n in hasBare <==> HasBare(m, n) {
      assert forall k :: k in m.Keys <==> k in Elements(keys);
      if HasBare(m, n) {
        var k :| k in m && Parsed(k) == Ok(Series(n, map[]));
        assert k in keys;
      }
    }
  }

  lemma NextKey(keys: seq<string>, i: nat)
    requires Distinct(keys) && i < |keys|
    ensures keys[i] in Elements(keys) && keys[i] !in Elements(keys[..i])
    ensures Elements(keys[..i + 1]) == Elements(keys[..i]) + {keys[i]}
  {
    assert keys[..i + 1] == keys[..i] + [keys[i]];
  }

  lemma AdditiveIff(k: string)
    ensures Additive(k) == (
      Parsed(k).Ok? && Parsed(k).value.labels != map[] &&
      "le" !in Parsed(k).value.labels && "quantile" !in Parsed(k).value.labels)
  {
  }

  /** One turn of the summing loop. */
  method SumNext(m: Readings, hasBare: set<string>, sums: Readings, ghost done: set<string>, k: string)
    returns (sums': Readings)
    requires forall n :: n in hasBare <==> HasBare(m, n)
    requires done <= m.Keys && k in m && k !in done && sums == SumsOf(m, done)
    ensures sums' == SumsOf(m, done + {k})
  {
    hide Parsed, HasBare, SumsOf, Additive;
    AdditiveIff(k);
    var p := Parse(k);
    if p.Err? || p.value.labels == map[] || p.value.name in hasBare {
      SkipStep(m, done, k);
      return sums;
    }
    if "le" in p.value.labels || "quantile" in p.value.labels {
      SkipStep(m, done, k);
      return sums;
    }
    SumStep(m, done, k);
    var n := p.value.name;
    return sums[n := (if n in sums then sums[n] else 0.0) + m[k]];
  }

  method CopyAndSum(m: Readings, hasBare: set<string>) returns (out: Readings, sums: Readings)
    requires forall n :: n in hasBare <==> HasBare(m, n)
    ensures out == m && sums == SumsOf(m, m.Keys)
  {
    hide HasBare, SumsOf;
    out, sums := map[], map[];
    var keys := RangeKeys(m.Keys);
    ghost var done: set<string> := {};
    NoSums(m);
    for i := 0 to |keys|
      invariant done == Elements(keys[..i]) && done <= m.Keys
      invariant out.Keys == done && forall k :: k in done ==> out[k] == m[k]
      invariant sums == SumsOf(m, done)
    {
      var k := keys[i];
      NextKey(keys, i);
      out := out[k := m[k]];
      sums := SumNext(m, hasBare, sums, done, k);
      done := done + {k};
    }
    assert keys[..|keys|] == keys;
  }

  lemma NoSums(m: Readings)
    ensures SumsOf(m, {}) == map[]
  {
  }

  method WriteSums(m: Readings, sums: Readings) returns (out: Readings)
    ensures out == m + sums
  {
    out := m;
    var names := RangeKeys(sums.Keys);
    ghost var done: set<string> := {};
    for i := 0 to |names|
      invariant done == Elements(names[..i]) && done <= sums.Keys
      invariant out.Keys == m.Keys + done
      invariant forall n :: n in out ==> out[n] == if n in done then sums[n] else m[n]
    {
      NextKey(names, i);
      out := out[names[i] := sums[names[i]]];
      done := done + {names[i]};
    }
    assert names[..|names|] == names;
  }

  method Aggregate(m: Readings) returns (out: Readings)
    ensures out == AggregateOf(m)
  {
    var hasBare := BareNames(m);
    var copy, sums := CopyAndSum(m, hasBare);
    out := WriteSums(copy, sums);
  }

  // ----- what aggregation promises -----

  /** A summed name holds no brace. */
  lemma NamesAreBare(m: Readings, n: string)
    requires n in Names(m, m.Keys)
    ensures '{' !in n && !HasBare(m, n)
  {
    hide Parsed, HasBare;
    var k :| k in m && Additive(k) && Parsed(k).value.name == n;
    ParsedImage(k);
  }

  /** Additive series carry a label block, names never do: no name is an additive key. */
  lemma NamesAreNotAdditive(m: Readings, n: string)
    requires n in Names(m, m.Keys)
    ensures !Additive(n)
  {
    NamesAreBare(m, n);
    BareHasNoLabels(n);
    hide Parsed, Names;
  }

  lemma BareHasNoLabels(n: string)
    requires '{' !in n
    ensures Parsed(n).Ok? ==> Parsed(n).value.labels == map[]
  {
    ParseBare(n);
    hide Parsed;
  }

  /** What aggregation does to every snapshot: a name gains exactly the sum of its additive series iff it has
      one of them and no bare series; every other entry, and every additive series, stays as it is. */
  lemma AggregateAddsSums(m: Readings)
    ensures forall n :: n in Names(m, m.Keys) <==> !HasBare(m, n) && Contributors(m.Keys, n) != {}
    ensures forall n :: n in Names(m, m.Keys) ==>
      n in AggregateOf(m) && AggregateOf(m)[n] == SumOver(m, Contributors(m.Keys, n))
    ensures forall k :: k in AggregateOf(m) && k !in Names(m, m.Keys) ==> k in m && AggregateOf(m)[k] == m[k]
    ensures forall k :: k in m && Additive(k) ==> k in AggregateOf(m) && AggregateOf(m)[k] == m[k]
  {
    hide Parsed, HasBare, SumOver;
    forall k | k in m && Additive(k) ensures k !in Names(m, m.Keys) {
      if k in Names(m, m.Keys) { NamesAreNotAdditive(m, k); }
    }
    forall n ensures n in Names(m, m.Keys) <==> !HasBare(m, n) && Contributors(m.Keys, n) != {} {
      if k :| k in Contributors(m.Keys, n) {
        assert Contributes(k, n);
      }
      if n in Names(m, m.Keys) {
        var k :| k in m && Additive(k) && Parsed(k).value.name == n;
        assert k in Contributors(m.Keys, n);
      }
    }
  }

  /** The key is one of the series that are summed under this name: labelled, and neither a histogram bucket nor a
      summary quantile. */
  predicate SummedInto(k: string, name: string)
  {
    && Parsed(k).Ok? && Parsed(k).value.name == name && Parsed(k).value.labels != map[]
    && "le" !in Parsed(k).value.labels && "quantile" !in Parsed(k).value.labels
  }

  ghost predicate Unlabelled(m: Readings, name: string)
  {
    exists k :: k in m && Parsed(k).Ok? && Parsed(k).value.name == name && Parsed(k).value.labels == map[]
  }

  lemma NamesMeaning(m: Readings, n: string)
    ensures HasBare(m, n) <==> Unlabelled(m, n)
    ensures Contributors(m.Keys, n) == set k | k in m.Keys && SummedInto(k, n)
  {
    hide Parsed;
    if k :| k in m && Parsed(k).Ok? && Parsed(k).value.name == n && Parsed(k).value.labels == map[] {
      assert Parsed(k) == Ok(Series(n, map[]));
    }
  }

  /** What aggregation leaves under every name, on the parsed keys: the sum of the series that are summed into it, if
      there are some and no unlabelled series has the name; else what was there. */
  lemma AggregateMeaning(m: Readings, n: string)
    ensures var parts := set k | k in m.Keys && SummedInto(k, n);
      if parts != {} && !Unlabelled(m, n) then n in AggregateOf(m) && AggregateOf(m)[n] == SumOver(m, parts)
      else (n in AggregateOf(m) <==> n in m) && (n in m ==> AggregateOf(m)[n] == m[n])
  {
    AggregateAddsSums(m);
    KeysKept(m);
    NamesMeaning(m, n);
    hide AggregateOf, Names, HasBare, Unlabelled, SummedInto, Contributes, Additive, SumOver;
  }

  /** A summed name that is a key already is empty or not trimmed: a trimmed one would name a bare series. */
  lemma SummedKeysAreOdd(m: Readings, n: string)
    requires n in Names(m, m.Keys) && n in m
    ensures n == "" || TrimSpace(n) != n
  {
    NamesAreBare(m, n);
    ParseBare(n);
    hide Parsed, TrimSpace, Names;
  }

  /** No entry changes iff no such name is a key of the snapshot with another value.  It is enough that the keys are
      trimmed and not empty. */
  lemma NothingOverwrittenExact(m: Readings)
    ensures (forall k :: k in m ==> AggregateOf(m)[k] == m[k]) <==>
      forall n :: n in Names(m, m.Keys) && n in m ==> m[n] == SumOver(m, Contributors(m.Keys, n))
    ensures (forall k :: k in m ==> k != "" && TrimSpace(k) == k) ==>
      forall k :: k in m ==> AggregateOf(m)[k] == m[k]
  {
    AggregateAddsSums(m);
    hide *;
    assert forall k :: k in m ==> k in AggregateOf(m) by { KeysKept(m); }
    forall n | n in Names(m, m.Keys) && n in m ensures n == "" || TrimSpace(n) != n {
      SummedKeysAreOdd(m, n);
    }
  }

  lemma KeysKept(m: Readings)
    ensures forall k :: k in m ==> k in AggregateOf(m)
  {
    hide SumsOf;
  }

  /** Every labelled series has a name that the exposition syntax allows. */
  ghost predicate ProperNames(m: Readings)
  {
    forall k :: k in m && Additive(k) ==> ValidMetricName(Parsed(k).value.name)
  }

  lemma BareName(n: string)
    requires ValidMetricName(n)
    ensures Parsed(n) == Ok(Series(n, map[]))
  {
    ParseFormat(Series(n, map[]));
  }

  /** With valid names every summed name is a new key, so no entry changes. */
  lemma ProperNamesAreNew(m: Readings)
    requires ProperNames(m)
    ensures forall n :: n in Names(m, m.Keys) ==> n !in m
    ensures forall k :: k in m ==> AggregateOf(m)[k] == m[k]
  {
    hide Parsed, SumOver;
    forall n | n in Names(m, m.Keys) ensures n !in m {
      BareName(n);
      assert n in m ==> HasBare(m, n);
    }
    hide ProperNames;
  }

  /** An odd name can overwrite an entry: the sum for the name `m` plus a blank lands on the key that spells
      the bare series `m` with a blank. */
  lemma OddNameOverwrites(x: real, y: real)
    requires x != y
    ensures var key := "m {" + Pair("a", "b") + "}"; var m := map[key := x, "m " := y];
      AggregateOf(m) == map[key := x, "m " := x]
  {
    var key := "m {" + Pair("a", "b") + "}";
    var m := map[key := x, "m " := y];
    OddKeys();
    hide *;
    assert m.Keys == {key, "m "};
    OddNames(m, key);
    OddSum(m, key);
    AggregateAddsSums(m);
    KeysKept(m);
    OddResult(m, key, x);
  }

  lemma OddKeys()
    ensures var key := "m {" + Pair("a", "b") + "}";
      Parsed(key) == Ok(Series("m ", map["a" := "b"])) && Parsed("m ") == Ok(Series("m", map[])) && key != "m "
  {
    hide *;
    var p := Pair("a", "b");
    OddFront();
    OneLabel("a", "b");
    TrimOneBlank();
    ParseBare("m ");
    ParseLabelled("m ", p);
    assert "m " + "{" + p + "}" == "m {" + p + "}";
    assert |"m {" + p + "}"| > 2;
  }

  lemma OddFront()
    ensures LeadingSpace("m " + "{") == 0 && '{' !in "m " && ValidLabelName("a")
  {
  }

  lemma OddNames(m: Readings, key: string)
    requires m.Keys == {key, "m "}
    requires Parsed(key) == Ok(Series("m ", map["a" := "b"])) && Parsed("m ") == Ok(Series("m", map[]))
    ensures Names(m, m.Keys) == {"m "} && Contributors(m.Keys, "m ") == {key}
  {
    hide Parsed;
    var labels: Labels := map["a" := "b"];
    assert "a" in labels && |"a"| == 1 && |"le"| == 2 && |"quantile"| == 8;
    assert labels != map[] && "le" !in labels && "quantile" !in labels;
    assert Additive(key) && !Additive("m ");
    assert !HasBare(m, "m ");
  }

  lemma OddSum(m: Readings, key: string)
    requires key in m
    ensures SumOver(m, {key}) == m[key]
  {
    SumOverAdd(m, {}, key);
    assert {} + {key} == {key};
  }

  lemma OddResult(m: Readings, key: string, x: real)
    requires m.Keys == {key, "m "} && key != "m " && m[key] == x
    requires forall k :: k in AggregateOf(m) && k != "m " ==> k in m && AggregateOf(m)[k] == m[k]
    requires "m " in AggregateOf(m) && AggregateOf(m)["m "] == x && key in AggregateOf(m)
    ensures AggregateOf(m) == map[key := x, "m " := x]
  {
    hide AggregateOf;
  }

  lemma {:induction false} SameSumOver(m: Readings, a: Readings, keys: set<string>)
    requires keys <= m.Keys && keys <= a.Keys && forall k :: k in keys ==> m[k] == a[k]
    ensures SumOver(m, keys) == SumOver(a, keys)
    decreases |keys|
  {
    if keys != {} {
      var k :| k in keys && SumOver(m, keys) == m[k] + SumOver(m, keys - {k});
      SameSumOver(m, a, keys - {k});
      SumOverAdd(a, keys - {k}, k);
      assert (keys - {k}) + {k} == keys;
    }
  }

  /** Aggregation adds no additive series and changes none. */
  lemma SameContributors(m: Readings, n: string)
    ensures Contributors(AggregateOf(m).Keys, n) == Contributors(m.Keys, n)
    ensures SumOver(AggregateOf(m), Contributors(m.Keys, n)) == SumOver(m, Contributors(m.Keys, n))
  {
    AggregateAddsSums(m);
    hide Parsed, SumOver, HasBare, Names, AggregateOf;
    forall k | k in AggregateOf(m) && Contributes(k, n) ensures k in m {
      if k in Names(m, m.Keys) { NamesAreNotAdditive(m, k); }
    }
    SameSumOver(m, AggregateOf(m), Contributors(m.Keys, n));
  }

  lemma BareStays(m: Readings, n: string)
    requires HasBare(m, n)
    ensures HasBare(AggregateOf(m), n)
  {
    hide SumsOf, Parsed;
  }

  /** Aggregating twice is aggregating once, whatever the snapshot. */
  lemma AggregateIdempotent(m: Readings)
    ensures AggregateOf(AggregateOf(m)) == AggregateOf(m)
  {
    var a := AggregateOf(m);
    AggregateAddsSums(m);
    AggregateAddsSums(a);
    hide *;
    forall n | n in Names(a, a.Keys) ensures n in a && AggregateOf(a)[n] == a[n] {
      SameContributors(m, n);
      if HasBare(m, n) { BareStays(m, n); }
    }
    KeysKept(a);
  }
}
