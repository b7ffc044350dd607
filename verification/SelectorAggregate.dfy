/**
 Selectors on aggregated snapshots (pkg/slo/spec/selector.go, pkg/slo/fetch/promtext/aggregate.go): a sum that
 aggregation adds has no labels, every valid selector asks for one, so selecting does not see the sums.
 */
module SelectorAggregate {
  import opened GoStrings
  import opened Sorting
  import opened PromKey
  import opened PromKeyProperties
  import opened Selectors
  import opened SelectorSpelling
  import opened Aggregation

  lemma UnlabelledNotSelected(env: Env, s: Selector, k: string)
    requires ValidSelector(env, s) && (Parsed(k).Ok? ==> Parsed(k).value.labels == map[])
    ensures !Selects(env, s, k)
  {
    hide Parsed, ValidMatcher, UniqueNames, ValidMetricName;
    assert s.matchers[0] in s.matchers;
  }

  /** Aggregation adds no series that a valid selector selects, and changes none. */
  lemma SumsNotSelected(env: Env, s: Selector, m: Snapshot)
    requires ValidSelector(env, s)
    ensures FoundIn(env, s, AggregateOf(m)) == FoundIn(env, s, m)
    ensures forall k :: k in m && Selects(env, s, k) ==> k in AggregateOf(m) && AggregateOf(m)[k] == m[k]
  {
    AggregateAddsSums(m);
    KeysKept(m);
    forall n | n in Names(m, m.Keys) ensures !Selects(env, s, n) {
      NamesAreBare(m, n);
      BareHasNoLabels(n);
      UnlabelledNotSelected(env, s, n);
    }
    hide AggregateOf, Names, Selects, ValidSelector, Parsed, Formatted, Additive;
  }

  /** A sum under a valid name is in the family of the series it sums. */
  lemma SameFamilies(s: Selector, m: Snapshot)
    requires ProperNames(m)
    ensures FamilyPresent(s, AggregateOf(m)) <==> FamilyPresent(s, m)
  {
    AggregateAddsSums(m);
    KeysKept(m);
    hide AggregateOf, Parsed, HasBare;
    if k :| k in AggregateOf(m) && InFamily(s, k) {
      if k in Names(m, m.Keys) {
        var l :| l in m && Additive(l) && Parsed(l).value.name == k;
        BareName(k);
        assert InFamily(s, l);
      } else {
        assert InFamily(s, k) && k in m;
      }
    }
  }

  lemma {:induction false} SameValuesSameSum(env: Env, v: Snapshot, w: Snapshot, acc: real, ks: seq<string>)
    requires forall k :: k in ks ==> k in v && k in w && v[k] == w[k]
    ensures SumFrom(env, v, acc, ks) == SumFrom(env, w, acc, ks)
    decreases |ks|
  {
    if ks != [] { SameValuesSameSum(env, v, w, env.add(acc, v[ks[0]]), ks[1..]); }
  }

  lemma FoundUnchanged(env: Env, s: Selector, m: Snapshot, a: Snapshot, found: seq<Found>)
    requires Elements(found) == FoundIn(env, s, m)
    requires forall k :: k in m && Selects(env, s, k) ==> k in a && a[k] == m[k]
    ensures forall k :: k in RawKeys(found) ==> k in m && k in a && m[k] == a[k]
  {
    hide Parsed, Formatted, Matches;
    forall k | k in RawKeys(found) ensures k in m && k in a && m[k] == a[k] {
      var i :| 0 <= i < |found| && RawKeys(found)[i] == k;
      assert found[i] in Elements(found);
    }
  }

  lemma SameCombinedSum(
    env: Env, s: Selector, v: Snapshot, w: Snapshot, ks: seq<string>, family: bool, family': bool)
    requires forall k :: k in ks ==> k in v && k in w && v[k] == w[k]
    requires family == family' || s.emptyMatch == EMPTY_SKIP
    ensures Combined(env, s, v, ks, family) == Combined(env, s, w, ks, family')
  {
    SameValuesSameSum(env, v, w, 0.0, ks);
    hide SumFrom;
  }

  lemma RefusedAlike(env: Env, s: Selector, v: Snapshot, w: Snapshot)
    requires !ValidSelector(env, s)
    ensures ResolveOf(env, s, v) == ResolveOf(env, s, w)
  {
    hide ValidSelector, FoundIn, Combined, Ordered;
  }

  /** Resolving a selector on an aggregated snapshot is resolving it on the snapshot itself: the value, the matched
      keys and the error are the same.  The names must be valid only if the selector asks for its family. */
  lemma ResolveIgnoresSums(env: Env, s: Selector, m: Snapshot)
    requires ProperNames(m) || s.emptyMatch == EMPTY_SKIP
    ensures ResolveOf(env, s, AggregateOf(m)) == ResolveOf(env, s, m)
  {
    hide *;
    var a := AggregateOf(m);
    if ValidSelector(env, s) {
      SumsNotSelected(env, s, m);
      if ProperNames(m) { SameFamilies(s, m); }
      var found := Ordered(FoundIn(env, s, m));
      ResolvedAs(env, s, m, found);
      ResolvedAs(env, s, a, found);
      FoundUnchanged(env, s, m, a, found);
      SameCombinedSum(env, s, m, a, RawKeys(found), FamilyPresent(s, m), FamilyPresent(s, a));
    } else {
      RefusedAlike(env, s, m, a);
    }
  }

  /** Under an odd name a sum can start a family: the sum for the name `m` plus a blank is read as the series `m`. */
  lemma OddNameStartsFamily(s: Selector, x: real)
    requires s.metric == "m"
    ensures var m := map["m {" + Pair("a", "b") + "}" := x];
      !FamilyPresent(s, m) && FamilyPresent(s, AggregateOf(m))
  {
    var key := "m {" + Pair("a", "b") + "}";
    var m := map[key := x];
    OddKeys();
    AggregateAddsSums(m);
    hide *;
    OddFamily(s, m, key);
  }

  lemma OddFamily(s: Selector, m: Snapshot, key: string)
    requires s.metric == "m" && m.Keys == {key}
    requires Parsed(key) == Ok(Series("m ", map["a" := "b"])) && Parsed("m ") == Ok(Series("m", map[]))
    requires forall n :: n in Names(m, m.Keys) ==> n in AggregateOf(m)
    ensures !FamilyPresent(s, m) && FamilyPresent(s, AggregateOf(m))
  {
    hide Parsed, AggregateOf;
    var labels: Labels := map["a" := "b"];
    assert "a" in labels && |"a"| == 1 && |"le"| == 2 && |"quantile"| == 8 && |"m"| == 1 && |"m "| == 2;
    assert labels != map[] && "le" !in labels && "quantile" !in labels;
    assert Additive(key) && !HasBare(m, "m ");
    assert "m " in Names(m, m.Keys);
    assert InFamily(s, "m ");
  }
}
