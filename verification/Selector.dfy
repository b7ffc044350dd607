/**
 Series selectors (pkg/slo/spec/selector.go).  Compiling and matching regular expressions are
 parameters, and so is the addition of float values: nothing is assumed about any of them.
 */
module Selectors {
  import opened GoStrings
  import opened Sorting
  import opened PromKey

  type Snapshot = map<string, real>

  /** What the environment decides: float arithmetic and the regular expression library. */
  datatype Env = Env(
    add: (real, real) -> real,
    sub: (real, real) -> real,
    div: (real, real) -> real,
    compiles: string -> bool,
    matches: (string, string) -> bool)

  datatype Matcher = Matcher(name: string, op: string, value: string)

  datatype Selector = Selector(metric: string, matchers: seq<Matcher>, aggregate: string, emptyMatch: string)

  const MATCH_EQUAL := "="
  const MATCH_REGEXP := "=~"
  const AGGREGATE_NONE := ""
  const AGGREGATE_SUM := "sum"
  const EMPTY_SKIP := ""
  const EMPTY_ZERO_IF_FAMILY := "zero_if_family_present"
  const SELECTOR_PREFIX := "kube-slint.select/v1 "
  const RESERVED_PREFIX := "kube-slint."
  const EXACT_PREFIX := "kube-slint.exact/v1 "

  // ----- validity -----

  predicate ValidMatcher(env: Env, m: Matcher)
  {
    && ValidLabelName(m.name)
    && (m.op == MATCH_EQUAL || (m.op == MATCH_REGEXP && m.value != "" && env.compiles(m.value)))
  }

  predicate UniqueNames(ms: seq<Matcher>)
  {
    forall i, j :: 0 <= i < j < |ms| ==> ms[i].name != ms[j].name
  }

  predicate ValidSelector(env: Env, s: Selector)
  {
    && ValidMetricName(s.metric)
    && s.matchers != []
    && (s.aggregate == AGGREGATE_NONE || s.aggregate == AGGREGATE_SUM)
    && (s.emptyMatch == EMPTY_SKIP || (s.emptyMatch == EMPTY_ZERO_IF_FAMILY && s.aggregate == AGGREGATE_SUM))
    && (forall m :: m in s.matchers ==> ValidMatcher(env, m))
    && UniqueNames(s.matchers)
  }

  method Validate(env: Env, s: Selector) returns (ok: bool)
    ensures ok <==> ValidSelector(env, s)
  {
    if !ValidMetricName(s.metric) || |s.matchers| == 0 {
      return false;
    }
    if s.aggregate != AGGREGATE_NONE && s.aggregate != AGGREGATE_SUM {
      return false;
    }
    if s.emptyMatch == EMPTY_ZERO_IF_FAMILY {
      if s.aggregate != AGGREGATE_SUM {
        return false;
      }
    } else if s.emptyMatch != EMPTY_SKIP {
      return false;
    }
    var seen: set<string> := {};
    for i := 0 to |s.matchers|
      invariant forall j :: 0 <= j < i ==> ValidMatcher(env, s.matchers[j])
      invariant forall j, k :: 0 <= j < k < i ==> s.matchers[j].name != s.matchers[k].name
      invariant forall x :: x in seen <==> exists j :: 0 <= j < i && s.matchers[j].name == x
    {
      var m := s.matchers[i];
      assert m in s.matchers;
      if !ValidLabelName(m.name) {
        return false;
      }
      if m.name in seen {
        var j :| 0 <= j < i && s.matchers[j].name == m.name;
        return false;
      }
      seen := seen + {m.name};
      if m.op == MATCH_REGEXP {
        if m.value == "" || !env.compiles(m.value) {
          return false;
        }
      } else if m.op != MATCH_EQUAL {
        return false;
      }
    }
    return true;
  }

  // ----- the canonical key -----

  predicate MatcherLe(a: Matcher, b: Matcher)
  {
    if a.name != b.name then StrLe(a.name, b.name)
    else if a.op != b.op then StrLe(a.op, b.op)
    else StrLe(a.value, b.value)
  }

  lemma MatcherOrder()
    ensures TotalOrder(MatcherLe)
  {
    StrOrder();
    forall a, b, c | MatcherLe(a, b) && MatcherLe(b, c) ensures MatcherLe(a, c) {
      if a.name == b.name == c.name {
        if a.op == b.op == c.op { StrLeTransitive(a.value, b.value, c.value); }
        else { StrLeTransitive(a.op, b.op, c.op); }
      } else {
        StrLeTransitive(a.name, b.name, c.name);
      }
    }
  }

  function MatcherText(m: Matcher): string
  {
    m.name + m.op + "\"" + Escaped(m.value) + "\""
  }

  /** The matchers, each preceded by a comma. */
  function MatcherTail(ms: seq<Matcher>): string
  {
    if ms == [] then "" else "," + MatcherText(ms[0]) + MatcherTail(ms[1..])
  }

  function MatcherBlock(ms: seq<Matcher>): string
  {
    if ms == [] then "" else MatcherText(ms[0]) + MatcherTail(ms[1..])
  }

  function AggregateText(s: Selector): string
  {
    if s.aggregate == AGGREGATE_NONE then "one" else s.aggregate
  }

  function EmptyText(s: Selector): string
  {
    if s.emptyMatch == EMPTY_SKIP then "" else " empty=" + s.emptyMatch
  }

  function Head(s: Selector): string
  {
    SELECTOR_PREFIX + (AggregateText(s) + (EmptyText(s) + (" " + s.metric)))
  }

  /** The canonical key with the matchers already in order. */
  function KeyText(s: Selector, ms: seq<Matcher>): string
  {
    Head(s) + ['{'] + (MatcherBlock(ms) + "}")
  }

  function KeyOf(s: Selector): string
  {
    KeyText(s, Sort(s.matchers, MatcherLe))
  }

  lemma UnwrittenMatcher(ms: seq<Matcher>, i: nat)
    requires i < |ms|
    ensures (if i == 0 then MatcherBlock(ms) else MatcherTail(ms[i..])) ==
      (if i > 0 then "," else "") + MatcherText(ms[i]) + MatcherTail(ms[i + 1..])
  {
    assert ms[i..][1..] == ms[i + 1..];
  }

  method WriteMatchers(ms: seq<Matcher>) returns (b: string)
    ensures b == MatcherBlock(ms)
  {
    hide MatcherText;
    b := "";
    for i := 0 to |ms|
      invariant MatcherBlock(ms) == b + (if i == 0 then MatcherBlock(ms) else MatcherTail(ms[i..]))
    {
      UnwrittenMatcher(ms, i);
      Regroup(b, if i > 0 then "," else "", MatcherText(ms[i]), MatcherTail(ms[i + 1..]));
      if i > 0 {
        b := b + ",";
      }
      var text := WriteMatcher(ms[i]);
      b := b + text;
    }
    if ms != [] { assert ms[|ms|..] == []; }
  }

  method WriteMatcher(m: Matcher) returns (b: string)
    ensures b == MatcherText(m)
  {
    var e := EscapeLabelValue(m.value);
    b := m.name + m.op + "\"" + e + "\"";
  }

  method WriteHead(s: Selector) returns (b: string)
    ensures b == Head(s)
  {
    b := SELECTOR_PREFIX;
    if s.aggregate == AGGREGATE_NONE {
      b := b + "one";
    } else {
      b := b + s.aggregate;
    }
    if s.emptyMatch != EMPTY_SKIP {
      b := b + (" empty=" + s.emptyMatch);
    }
    b := b + (" " + s.metric);
  }

  method CanonicalKey(s: Selector) returns (key: string)
    ensures key == KeyOf(s)
  {
    hide Head, MatcherBlock, MatcherLe;
    var head := WriteHead(s);
    var block := WriteMatchers(Sort(s.matchers, MatcherLe));
    key := head + ['{'] + (block + "}");
  }

  // ----- resolving a selector -----

  datatype ResolveError = InvalidSelector | FamilyAbsent | NoMatch | Ambiguous

  /** A matched series: the raw key it is stored under and its canonical identity. */
  datatype Found = Found(raw: string, canonical: string)

  datatype Resolution = Resolution(value: real, keys: seq<string>)

  predicate MatcherHolds(env: Env, m: Matcher, labels: Labels)
  {
    && m.name in labels
    && if m.op == MATCH_EQUAL then labels[m.name] == m.value
       else m.op == MATCH_REGEXP && env.matches(m.value, labels[m.name])
  }

  predicate Matches(env: Env, s: Selector, labels: Labels)
  {
    forall m :: m in s.matchers ==> MatcherHolds(env, m, labels)
  }

  predicate InFamily(s: Selector, key: string)
  {
    Parsed(key).Ok? && Parsed(key).value.name == s.metric
  }

  predicate Selects(env: Env, s: Selector, key: string)
  {
    InFamily(s, key) && Matches(env, s, Parsed(key).value.labels)
  }

  ghost function FoundFor(key: string): Found
    requires Parsed(key).Ok?
  {
    Found(key, Formatted(Parsed(key).value))
  }

  ghost function FoundIn(env: Env, s: Selector, values: Snapshot): set<Found>
  {
    set k | k in values.Keys && Selects(env, s, k) :: FoundFor(k)
  }

  predicate FoundLe(a: Found, b: Found)
  {
    if a.canonical != b.canonical then StrLe(a.canonical, b.canonical) else StrLe(a.raw, b.raw)
  }

  lemma FoundOrder()
    ensures TotalOrder(FoundLe)
  {
    StrOrder();
    forall a, b, c | FoundLe(a, b) && FoundLe(b, c) ensures FoundLe(a, c) {
      if a.canonical == b.canonical == c.canonical { StrLeTransitive(a.raw, b.raw, c.raw); }
      else { StrLeTransitive(a.canonical, b.canonical, c.canonical); }
    }
  }

  ghost function Ordered(found: set<Found>): (r: seq<Found>)
    ensures Sorted(r, FoundLe) && Distinct(r) && Elements(r) == found && |r| == |found|
  {
    FoundOrder();
    SortSet(found, FoundLe)
  }

  function RawKeys(found: seq<Found>): (r: seq<string>)
    ensures |r| == |found| && forall i :: 0 <= i < |r| ==> r[i] == found[i].raw
  {
    seq(|found|, i requires 0 <= i < |found| => found[i].raw)
  }

  /** Adds up the values of `keys` from the left; the order matters, for `add` is arbitrary. */
  function SumFrom(env: Env, values: Snapshot, acc: real, keys: seq<string>): real
    requires forall k :: k in keys ==> k in values
    decreases |keys|
  {
    if keys == [] then acc else SumFrom(env, values, env.add(acc, values[keys[0]]), keys[1..])
  }

  lemma FoundAreKeys(env: Env, s: Selector, values: Snapshot, found: seq<Found>)
    requires Elements(found) <= FoundIn(env, s, values)
    ensures forall k :: k in RawKeys(found) ==> k in values
  {
    forall k | k in RawKeys(found) ensures k in values {
      var i :| 0 <= i < |found| && RawKeys(found)[i] == k;
      assert found[i] in Elements(found);
    }
  }

  /** The outcome for the matched keys in their canonical order. */
  function Combined(env: Env, s: Selector, values: Snapshot, matched: seq<string>, familyPresent: bool)
    : Result<Resolution, ResolveError>
    requires forall k :: k in matched ==> k in values
  {
    if |matched| == 0 && s.emptyMatch == EMPTY_ZERO_IF_FAMILY then
      if familyPresent then Ok(Resolution(0.0, [])) else Err(FamilyAbsent)
    else if |matched| == 0 then Err(NoMatch)
    else if |matched| > 1 && s.aggregate == AGGREGATE_NONE then Err(Ambiguous)
    else Ok(Resolution(SumFrom(env, values, 0.0, matched), matched))
  }

  ghost predicate FamilyPresent(s: Selector, values: Snapshot)
  {
    exists k :: k in values && InFamily(s, k)
  }

  ghost function ResolveOf(env: Env, s: Selector, values: Snapshot): Result<Resolution, ResolveError>
  {
    if !ValidSelector(env, s) then Err(InvalidSelector) else
    var found := Ordered(FoundIn(env, s, values));
    FoundAreKeys(env, s, values, found);
    Combined(env, s, values, RawKeys(found), FamilyPresent(s, values))
  }

  method MatchesLabels(env: Env, s: Selector, labels: Labels) returns (ok: bool)
    ensures ok <==> Matches(env, s, labels)
  {
    for i := 0 to |s.matchers|
      invariant forall j :: 0 <= j < i ==> MatcherHolds(env, s.matchers[j], labels)
    {
      var m := s.matchers[i];
      assert m in s.matchers;
      if m.name !in labels {
        return false;
      }
      var v := labels[m.name];
      if m.op == MATCH_EQUAL {
        if v != m.value {
          return false;
        }
      } else if m.op == MATCH_REGEXP {
        if !env.matches(m.value, v) {
          return false;
        }
      } else {
        return false;
      }
    }
    return true;
  }

  /** Collects the matching series, ranging over the snapshot in an arbitrary order. */
  method CollectSeries(env: Env, s: Selector, values: Snapshot) returns (found: seq<Found>, familyPresent: bool)
    ensures Distinct(found) && Elements(found) == FoundIn(env, s, values)
    ensures familyPresent <==> FamilyPresent(s, values)
  {
    hide Parsed, Formatted, Matches;
    found, familyPresent := [], false;
    var keys := RangeKeys(values.Keys);
    for i := 0 to |keys|
      invariant Distinct(found)
      invariant forall f :: f in found <==>
        exists j :: 0 <= j < i && Selects(env, s, keys[j]) && f == FoundFor(keys[j])
      invariant familyPresent <==> exists j :: 0 <= j < i && InFamily(s, keys[j])
    {
      var p := Parse(keys[i]);
      if p.Err? || p.value.name != s.metric {
        assert !InFamily(s, keys[i]);
        continue;
      }
      assert InFamily(s, keys[i]);
      familyPresent := true;
      var m := MatchesLabels(env, s, p.value.labels);
      if m {
        var canonical := Format(p.value.name, p.value.labels);
        assert Series(p.value.name, p.value.labels) == p.value;
        ghost var f := FoundFor(keys[i]);
        assert forall g :: g in found ==> g.raw != keys[i];
        found := found + [Found(keys[i], canonical)];
      }
    }
    assert forall k :: k in Elements(keys) <==> k in keys;
    forall f ensures f in Elements(found) <==> f in FoundIn(env, s, values) {
      if f in FoundIn(env, s, values) {
        var k :| k in values.Keys && Selects(env, s, k) && f == FoundFor(k);
        assert k in keys;
      }
    }
    if k :| k in values && InFamily(s, k) { assert k in keys; }
  }

  lemma OrderedListing(found: seq<Found>)
    requires Distinct(found)
    ensures Sort(found, FoundLe) == Ordered(Elements(found))
  {
    FoundOrder();
    SortDistinct(found, FoundLe);
  }

  method SumValues(env: Env, values: Snapshot, keys: seq<string>) returns (total: real)
    requires forall k :: k in keys ==> k in values
    ensures total == SumFrom(env, values, 0.0, keys)
  {
    total := 0.0;
    assert keys[0..] == keys;
    for i := 0 to |keys|
      invariant SumFrom(env, values, 0.0, keys) == SumFrom(env, values, total, keys[i..])
    {
      assert keys[i] in keys && keys[i..][1..] == keys[i + 1..];
      total := env.add(total, values[keys[i]]);
    }
  }

  method Resolve(env: Env, s: Selector, values: Snapshot) returns (r: Result<Resolution, ResolveError>)
    ensures r == ResolveOf(env, s, values)
  {
    var valid := Validate(env, s);
    if !valid {
      return Err(InvalidSelector);
    }
    hide ValidSelector, FoundIn, FamilyPresent, SumFrom;
    var found, familyPresent := CollectSeries(env, s, values);
    OrderedListing(found);
    FoundAreKeys(env, s, values, Ordered(FoundIn(env, s, values)));
    var matched := RawKeys(Sort(found, FoundLe));
    if |matched| == 0 && s.emptyMatch == EMPTY_ZERO_IF_FAMILY {
      if !familyPresent {
        return Err(FamilyAbsent);
      }
      return Ok(Resolution(0.0, []));
    }
    if |matched| == 0 {
      return Err(NoMatch);
    }
    if |matched| > 1 && s.aggregate == AGGREGATE_NONE {
      return Err(Ambiguous);
    }
    var total := SumValues(env, values, matched);
    return Ok(Resolution(total, matched));
  }

  // ----- input references -----

  datatype MetricRef = MetricRef(key: string, alias: string, selector: Option<Selector>)

  /** The key under which an input enters the measurement identity. */
  function IdentityKey(m: MetricRef): string
  {
    if m.selector.Some? then KeyOf(m.selector.value)
    else if HasPrefix(m.key, RESERVED_PREFIX) then EXACT_PREFIX + m.key
    else m.key
  }

  predicate ValidRef(env: Env, m: MetricRef)
  {
    m.selector.Some? ==> ValidSelector(env, m.selector.value) && m.key == KeyOf(m.selector.value)
  }
}
