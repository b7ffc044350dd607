/** What the canonical key of a selector identifies, and what the result of resolving it depends on. */
module SelectorProperties {
  import opened GoStrings
  import opened Sorting
  import opened PromKey
  import opened PromKeyProperties
  import opened Selectors

  // ----- the canonical key determines the selector -----

  ghost predicate SameSelector(s: Selector, t: Selector)
  {
    && s.metric == t.metric
    && s.aggregate == t.aggregate
    && s.emptyMatch == t.emptyMatch
    && (forall m :: m in s.matchers <==> m in t.matchers)
  }

  predicate PlainMatcher(m: Matcher)
  {
    '=' !in m.name && (m.op == MATCH_EQUAL || m.op == MATCH_REGEXP)
  }

  lemma ValidMatcherIsPlain(env: Env, m: Matcher)
    requires ValidMatcher(env, m)
    ensures PlainMatcher(m)
  {
  }

  lemma MatcherShape(m: Matcher, rest: string)
    requires m.op == MATCH_EQUAL || m.op == MATCH_REGEXP
    ensures MatcherText(m) + rest ==
      m.name + ['='] + (m.op[1..] + ("\"" + (Escaped(m.value) + "\"" + rest)))
  {
    hide Escaped;
    assert m.op == "=" + m.op[1..];
  }

  lemma MatcherTextPrefix(m: Matcher, r: string, n: Matcher, q: string)
    requires PlainMatcher(m) && PlainMatcher(n)
    requires MatcherText(m) + r == MatcherText(n) + q
    ensures m == n && r == q
  {
    hide Escaped, MatcherText;
    var b1, b2 := Escaped(m.value) + "\"" + r, Escaped(n.value) + "\"" + q;
    MatcherShape(m, r);
    MatcherShape(n, q);
    CutAt(m.name, m.op[1..] + ("\"" + b1), n.name, n.op[1..] + ("\"" + b2), '=');
    OperatorPrefix(m.op, b1, n.op, b2);
    QuotedPrefix(m.value, r, n.value, q);
  }

  lemma OperatorPrefix(o1: string, b1: string, o2: string, b2: string)
    requires o1 == MATCH_EQUAL || o1 == MATCH_REGEXP
    requires o2 == MATCH_EQUAL || o2 == MATCH_REGEXP
    requires o1[1..] + ("\"" + b1) == o2[1..] + ("\"" + b2)
    ensures o1 == o2 && b1 == b2
  {
    var t1, t2 := o1[1..] + ("\"" + b1), o2[1..] + ("\"" + b2);
    assert t1[0] == t2[0];
    assert b1 == t1[|o1|..] && b2 == t2[|o2|..];
  }

  lemma {:induction false} MatcherTailInjective(ms: seq<Matcher>, ns: seq<Matcher>)
    requires forall m :: m in ms || m in ns ==> PlainMatcher(m)
    requires MatcherTail(ms) == MatcherTail(ns)
    ensures ms == ns
    decreases |ms|
  {
    hide MatcherText, PlainMatcher;
    if ms != [] && ns != [] {
      var b1 := MatcherText(ms[0]) + MatcherTail(ms[1..]);
      var b2 := MatcherText(ns[0]) + MatcherTail(ns[1..]);
      assert MatcherTail(ms) == "," + b1 && MatcherTail(ns) == "," + b2;
      assert b1 == MatcherTail(ms)[1..] && b2 == MatcherTail(ns)[1..];
      assert ms[0] in ms && ns[0] in ns;
      MatcherTextPrefix(ms[0], MatcherTail(ms[1..]), ns[0], MatcherTail(ns[1..]));
      MatcherTailInjective(ms[1..], ns[1..]);
      assert ms == [ms[0]] + ms[1..] && ns == [ns[0]] + ns[1..];
    }
  }

  lemma MatcherBlockInjective(ms: seq<Matcher>, ns: seq<Matcher>)
    requires forall m :: m in ms || m in ns ==> PlainMatcher(m)
    requires ms != [] && ns != []
    requires MatcherBlock(ms) == MatcherBlock(ns)
    ensures ms == ns
  {
    hide MatcherText, PlainMatcher;
    assert MatcherTail(ms) == "," + MatcherBlock(ms);
    assert MatcherTail(ns) == "," + MatcherBlock(ns);
    MatcherTailInjective(ms, ns);
  }

  /** The part of the key before the brace. */
  lemma HeadInjective(env: Env, s: Selector, t: Selector)
    requires ValidSelector(env, s) && ValidSelector(env, t)
    requires Head(s) == Head(t)
    ensures s.metric == t.metric && s.aggregate == t.aggregate && s.emptyMatch == t.emptyMatch
  {
    var n := |SELECTOR_PREFIX|;
    var a1, a2 := AggregateText(s), AggregateText(t);
    var e1, e2 := EmptyText(s) + (" " + s.metric), EmptyText(t) + (" " + t.metric);
    assert a1 + e1 == Head(s)[n..] && a2 + e2 == Head(t)[n..];
    assert |a1| == 3 && |a2| == 3;
    assert a1 == (a1 + e1)[..3] && a2 == (a2 + e2)[..3];
    assert e1 == (a1 + e1)[3..] && e2 == (a2 + e2)[3..];
    EmptyPartInjective(EmptyText(s), s.metric, EmptyText(t), t.metric);
  }

  lemma EmptyPartInjective(e1: string, m1: string, e2: string, m2: string)
    requires ValidMetricName(m1) && ValidMetricName(m2)
    requires e1 == "" || e1 == " empty=" + EMPTY_ZERO_IF_FAMILY
    requires e2 == "" || e2 == " empty=" + EMPTY_ZERO_IF_FAMILY
    requires e1 + (" " + m1) == e2 + (" " + m2)
    ensures e1 == e2 && m1 == m2
  {
    var w := e1 + (" " + m1);
    assert '=' !in m1 && '=' !in m2;
    if e1 != "" { assert w[6] == '='; assert '=' in w; } else { assert '=' !in w; }
    if e2 != "" { assert (e2 + (" " + m2))[6] == '='; assert '=' in w; } else { assert '=' !in w; }
    assert m1 == w[|e1| + 1..] && m2 == w[|e2| + 1..];
  }

  lemma NoBraceInHead(env: Env, s: Selector)
    requires ValidSelector(env, s)
    ensures '{' !in Head(s)
  {
    ValidMetricNameFacts(s.metric);
    assert '{' !in AggregateText(s) && '{' !in EmptyText(s) && '{' !in SELECTOR_PREFIX;
  }

  lemma AllPlain(env: Env, s: Selector)
    requires ValidSelector(env, s)
    ensures s.matchers != [] && forall m :: m in s.matchers ==> PlainMatcher(m)
  {
    hide ValidMatcher, PlainMatcher, ValidMetricName, UniqueNames;
    forall m | m in s.matchers ensures PlainMatcher(m) { ValidMatcherIsPlain(env, m); }
  }

  lemma SortedMatchersPlain(env: Env, s: Selector)
    requires ValidSelector(env, s)
    ensures var ms := Sort(s.matchers, MatcherLe);
      ms != [] && (forall m :: m in ms <==> m in s.matchers) && forall m :: m in ms ==> PlainMatcher(m)
  {
    AllPlain(env, s);
    hide *;
    var ms := Sort(s.matchers, MatcherLe);
    assert multiset(ms) == multiset(s.matchers) && |ms| == |s.matchers|;
    forall m ensures m in ms <==> m in s.matchers {
      assert m in ms <==> m in multiset(ms);
      assert m in s.matchers <==> m in multiset(s.matchers);
    }
  }

  lemma KeyDeterminesSelector(env: Env, s: Selector, t: Selector)
    requires ValidSelector(env, s) && ValidSelector(env, t)
    requires KeyOf(s) == KeyOf(t)
    ensures SameSelector(s, t)
  {
    var ms, ns := Sort(s.matchers, MatcherLe), Sort(t.matchers, MatcherLe);
    NoBraceInHead(env, s);
    NoBraceInHead(env, t);
    SortedMatchersPlain(env, s);
    SortedMatchersPlain(env, t);
    hide Head, MatcherBlock, ValidMetricName, PlainMatcher;
    var b1, b2 := MatcherBlock(ms), MatcherBlock(ns);
    CutAt(Head(s), b1 + "}", Head(t), b2 + "}", '{');
    HeadInjective(env, s, t);
    assert b1 == (b1 + "}")[..|b1|] && b2 == (b2 + "}")[..|b2|];
    MatcherBlockInjective(ms, ns);
  }

  lemma SelectorDeterminesKey(env: Env, s: Selector, t: Selector)
    requires ValidSelector(env, s) && ValidSelector(env, t)
    requires SameSelector(s, t)
    ensures KeyOf(s) == KeyOf(t)
  {
    MatcherOrder();
    DistinctMultiset(s.matchers);
    DistinctMultiset(t.matchers);
    assert Elements(s.matchers) == Elements(t.matchers);
    SortPermutation(s.matchers, t.matchers, MatcherLe);
  }

  /** Valid selectors have one canonical key iff they are the same up to the order of their matchers. */
  lemma CanonicalKeyExact(env: Env, s: Selector, t: Selector)
    requires ValidSelector(env, s) && ValidSelector(env, t)
    ensures KeyOf(s) == KeyOf(t) <==> SameSelector(s, t)
  {
    hide KeyOf, ValidSelector;
    if KeyOf(s) == KeyOf(t) { KeyDeterminesSelector(env, s, t); }
    if SameSelector(s, t) { SelectorDeterminesKey(env, s, t); }
  }

  lemma SameSelectorSelects(env: Env, s: Selector, t: Selector)
    requires SameSelector(s, t)
    ensures forall k :: Selects(env, s, k) == Selects(env, t, k) && InFamily(s, k) == InFamily(t, k)
  {
    hide Parsed, MatcherHolds;
  }

  /** Hence equal keys resolve to the same value, or fail in the same way, on every snapshot. */
  lemma SameKeySameResolution(env: Env, s: Selector, t: Selector, values: Snapshot)
    requires ValidSelector(env, s) && ValidSelector(env, t)
    requires KeyOf(s) == KeyOf(t)
    ensures ResolveOf(env, s, values) == ResolveOf(env, t, values)
  {
    KeyDeterminesSelector(env, s, t);
    SameSelectorSelects(env, s, t);
    hide ValidSelector, KeyOf, Selects, InFamily, SumFrom, Ordered;
    assert FoundIn(env, s, values) == FoundIn(env, t, values);
    assert FamilyPresent(s, values) == FamilyPresent(t, values);
    FoundAreKeys(env, s, values, Ordered(FoundIn(env, s, values)));
  }

  // ----- identity keys of inputs -----

  lemma KeyHasPrefix(s: Selector)
    ensures HasPrefix(KeyOf(s), SELECTOR_PREFIX)
  {
  }

  /** The two inputs are the same key, or selectors with one canonical key. */
  predicate SameInput(a: MetricRef, b: MetricRef)
  {
    || (a.selector.None? && b.selector.None? && a.key == b.key)
    || (a.selector.Some? && b.selector.Some? && KeyOf(a.selector.value) == KeyOf(b.selector.value))
  }

  /** Exact keys, exact keys moved out of the reserved name space and selector keys never collide. */
  lemma IdentityKeyExact(a: MetricRef, b: MetricRef)
    ensures IdentityKey(a) == IdentityKey(b) <==> SameInput(a, b)
  {
    hide KeyOf;
    forall r: MetricRef | r.selector.Some? ensures HasPrefix(IdentityKey(r), SELECTOR_PREFIX) {
      KeyHasPrefix(r.selector.value);
    }
    if a.selector.None? { ExactIdentity(a.key); }
    if b.selector.None? { ExactIdentity(b.key); }
    if a.selector.None? && b.selector.None? { ExactIdentityInjective(a, b); }
  }

  function ExactKeyIdentity(key: string): string
  {
    IdentityKey(MetricRef(key, "", None))
  }

  lemma ExactIdentity(key: string)
    ensures !HasPrefix(ExactKeyIdentity(key), SELECTOR_PREFIX)
  {
    var id := ExactKeyIdentity(key);
    assert RESERVED_PREFIX == SELECTOR_PREFIX[..|RESERVED_PREFIX|];
    if HasPrefix(key, RESERVED_PREFIX) {
      assert id[11] == EXACT_PREFIX[11] == 'e' && SELECTOR_PREFIX[11] == 's';
    } else {
      assert HasPrefix(id, SELECTOR_PREFIX) ==> HasPrefix(id, RESERVED_PREFIX);
    }
  }

  lemma ExactIdentityInjective(a: MetricRef, b: MetricRef)
    requires a.selector.None? && b.selector.None?
    ensures IdentityKey(a) == IdentityKey(b) ==> a.key == b.key
  {
    var n := |EXACT_PREFIX|;
    assert EXACT_PREFIX[..|RESERVED_PREFIX|] == RESERVED_PREFIX;
    forall r: MetricRef | r.selector.None? && HasPrefix(r.key, RESERVED_PREFIX)
      ensures HasPrefix(IdentityKey(r), RESERVED_PREFIX) && IdentityKey(r)[n..] == r.key
    {
    }
  }
}
