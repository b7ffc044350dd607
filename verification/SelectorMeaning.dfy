/**
 What resolving a selector yields, stated on the parsed series (pkg/slo/spec/selector.go): which keys it returns,
 in which order, which value, and what each error means.
 */
module SelectorMeaning {
  import opened GoStrings
  import opened Sorting
  import opened PromKey
  import opened Selectors
  import opened SelectorSpelling
  import opened Measurement
  import opened PairingAddition

  /** The matcher's label is there, equal to its value or accepted by its expression. */
  predicate Accepts(env: Env, m: Matcher, labels: Labels)
  {
    && m.name in labels
    && (m.op == "=" ==> labels[m.name] == m.value)
    && (m.op == "=~" ==> env.matches(m.value, labels[m.name]))
  }

  /** The key parses to a series of the metric. */
  predicate OfMetric(k: string, metric: string)
  {
    Parsed(k).Ok? && Parsed(k).value.name == metric
  }

  /** The key names a series of the metric that every matcher accepts. */
  predicate AskedFor(env: Env, s: Selector, k: string)
  {
    OfMetric(k, s.metric) && forall m :: m in s.matchers ==> Accepts(env, m, Parsed(k).value.labels)
  }

  lemma SelectsAskedFor(env: Env, s: Selector, k: string)
    requires ValidSelector(env, s)
    ensures Selects(env, s, k) <==> AskedFor(env, s, k)
    ensures InFamily(s, k) <==> OfMetric(k, s.metric)
  {
    hide Parsed, ValidMetricName, ValidLabelName, UniqueNames;
    forall m | m in s.matchers ensures m.op == "=" || m.op == "=~" {
      assert ValidMatcher(env, m);
    }
  }

  /** The keys are in the order of their canonical texts, and of themselves where these agree. */
  ghost predicate InCanonicalOrder(keys: seq<string>)
  {
    forall i, j :: 0 <= i < j < |keys| ==>
      && keys[i] != keys[j] && Parsed(keys[i]).Ok? && Parsed(keys[j]).Ok?
      && var a, b := Formatted(Parsed(keys[i]).value), Formatted(Parsed(keys[j]).value);
         if a != b then StrLe(a, b) else StrLe(keys[i], keys[j])
  }

  lemma OrderOfFound(env: Env, s: Selector, values: Snapshot, found: seq<Found>)
    requires Sorted(found, FoundLe) && Distinct(found) && Elements(found) == FoundIn(env, s, values)
    ensures InCanonicalOrder(RawKeys(found))
  {
    RawKeysDistinct(env, s, values, found);
    hide Parsed, Formatted, Matches, StrLe;
    forall i | 0 <= i < |found| ensures Parsed(found[i].raw).Ok? && found[i] == FoundFor(found[i].raw) {
      assert found[i] in Elements(found);
      FoundWitness(env, s, values, found[i]);
    }
    forall i, j | 0 <= i < j < |found| ensures FoundLe(found[i], found[j]) && found[i].raw != found[j].raw {
      assert RawKeys(found)[i] != RawKeys(found)[j];
    }
  }

  /** The list holds exactly the keys of the snapshot that are asked for. */
  ghost predicate Lists(env: Env, s: Selector, values: Snapshot, keys: seq<string>)
  {
    forall k :: k in keys <==> k in values && AskedFor(env, s, k)
  }

  ghost predicate NoneAsked(env: Env, s: Selector, values: Snapshot)
  {
    forall k :: k in values ==> !AskedFor(env, s, k)
  }

  ghost predicate SeveralAsked(env: Env, s: Selector, values: Snapshot)
  {
    exists k, l :: k != l && k in values && l in values && AskedFor(env, s, k) && AskedFor(env, s, l)
  }

  ghost predicate MetricPresent(s: Selector, values: Snapshot)
  {
    exists k :: k in values && OfMetric(k, s.metric)
  }

  /** The value is the sum of the listed keys from the left. */
  ghost predicate SumsUp(env: Env, values: Snapshot, keys: seq<string>, value: real)
  {
    (forall k :: k in keys ==> k in values) && value == Total(env, Summands(values, keys))
  }

  /** What a result of resolving says about the snapshot. */
  ghost predicate Resolves(env: Env, s: Selector, values: Snapshot, r: Result<Resolution, ResolveError>)
  {
    match r
    case Ok(x) =>
      && Lists(env, s, values, x.keys) && InCanonicalOrder(x.keys) && SumsUp(env, values, x.keys, x.value)
      && (|x.keys| > 1 ==> s.aggregate == "sum")
      && (x.keys == [] ==> s.emptyMatch == "zero_if_family_present" && MetricPresent(s, values))
    case Err(NoMatch) => s.emptyMatch == "" && NoneAsked(env, s, values)
    case Err(FamilyAbsent) =>
      s.emptyMatch == "zero_if_family_present" && NoneAsked(env, s, values) && !MetricPresent(s, values)
    case Err(Ambiguous) => s.aggregate == "" && SeveralAsked(env, s, values)
    case Err(InvalidSelector) => false
  }

  /** The matched keys are those of the series asked for; no error hides one. */
  lemma ResolveMeaning(env: Env, s: Selector, values: Snapshot)
    requires ValidSelector(env, s)
    ensures Resolves(env, s, values, ResolveOf(env, s, values))
  {
    var found := Ordered(FoundIn(env, s, values));
    forall k ensures (Selects(env, s, k) <==> AskedFor(env, s, k)) && (InFamily(s, k) <==> OfMetric(k, s.metric)) {
      SelectsAskedFor(env, s, k);
    }
    PoliciesOf(env, s);
    hide *;
    ResolvedAs(env, s, values, found);
    RawKeysDistinct(env, s, values, found);
    OrderOfFound(env, s, values, found);
    KeysListed(env, s, values, RawKeys(found));
    FamilyIsMetric(s, values);
    CombinedMeaning(env, s, values, RawKeys(found), FamilyPresent(s, values));
  }

  lemma PoliciesOf(env: Env, s: Selector)
    requires ValidSelector(env, s)
    ensures s.aggregate == "" || s.aggregate == "sum"
    ensures s.emptyMatch == "" || (s.emptyMatch == "zero_if_family_present" && s.aggregate == "sum")
  {
    hide ValidMetricName, ValidMatcher, UniqueNames;
  }

  lemma FamilyIsMetric(s: Selector, values: Snapshot)
    requires forall k :: InFamily(s, k) <==> OfMetric(k, s.metric)
    ensures FamilyPresent(s, values) <==> MetricPresent(s, values)
  {
    hide InFamily, OfMetric;
  }

  lemma SumOfKeys(env: Env, values: Snapshot, keys: seq<string>)
    requires forall k :: k in keys ==> k in values
    ensures SumsUp(env, values, keys, SumFrom(env, values, 0.0, keys))
  {
    SumFromTotal(env, values, [], keys);
    TotalOfNone(env);
    assert [] + Summands(values, keys) == Summands(values, keys);
  }

  lemma NothingToSum(env: Env, values: Snapshot)
    ensures SumsUp(env, values, [], 0.0)
  {
    assert Summands(values, []) == [];
  }

  lemma NothingListed(env: Env, s: Selector, values: Snapshot)
    requires Lists(env, s, values, [])
    ensures NoneAsked(env, s, values)
  {
    hide AskedFor;
    forall k | k in values ensures !AskedFor(env, s, k) {
      var none: seq<string> := [];
      assert k !in none;
    }
  }

  lemma SeveralListed(env: Env, s: Selector, values: Snapshot, keys: seq<string>)
    requires Lists(env, s, values, keys) && Distinct(keys) && |keys| > 1
    ensures SeveralAsked(env, s, values)
  {
    hide AskedFor;
    var k, l := keys[0], keys[1];
    assert k in keys && l in keys && k != l;
  }

  lemma KeysListed(env: Env, s: Selector, values: Snapshot, keys: seq<string>)
    requires forall k :: k in keys <==> k in values && Selects(env, s, k)
    requires forall k :: Selects(env, s, k) <==> AskedFor(env, s, k)
    ensures Lists(env, s, values, keys)
  {
    hide Selects, AskedFor;
  }

  lemma CombinedMeaning(env: Env, s: Selector, values: Snapshot, keys: seq<string>, family: bool)
    requires (forall k :: k in keys ==> k in values) && Lists(env, s, values, keys)
    requires Distinct(keys) && InCanonicalOrder(keys) && (family <==> MetricPresent(s, values))
    requires s.aggregate == "" || s.aggregate == "sum"
    requires s.emptyMatch == "" || (s.emptyMatch == "zero_if_family_present" && s.aggregate == "sum")
    ensures Resolves(env, s, values, Combined(env, s, values, keys, family))
  {
    hide Lists, NoneAsked, SeveralAsked, MetricPresent, SumsUp, InCanonicalOrder, SumFrom, Distinct;
    SumOfKeys(env, values, keys);
    NothingToSum(env, values);
    if keys == [] { NothingListed(env, s, values); }
    if |keys| > 1 { SeveralListed(env, s, values, keys); }
  }
}
