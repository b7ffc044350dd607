/**
 Resolving a selector does not depend on how the fetcher serialises labels (pkg/slo/spec/selector.go), as long as
 several matched spellings of one series carry one value; and a snapshot on which it does depend.
 */
module SelectorSpelling {
  import opened GoStrings
  import opened Sorting
  import opened PromKey
  import opened PromKeyProperties
  import opened Selectors

  // ----- independence of serialisation -----

  ghost predicate SameReading(v: Snapshot, k: string, w: Snapshot, l: string)
  {
    && k in v && l in w && Parsed(k).Ok? && Parsed(l).Ok?
    && FoundFor(k).canonical == FoundFor(l).canonical
    && v[k] == w[l]
  }

  /** `f` matches the series of the two snapshots one to one, by identity and with equal values. */
  ghost predicate OneToOne(v: Snapshot, w: Snapshot, f: map<string, string>)
  {
    && (forall k :: k in f <==> k in v && Parsed(k).Ok?)
    && (forall k :: k in f ==> SameReading(v, k, w, f[k]))
    && (forall k, l :: k in f && l in f && f[k] == f[l] ==> k == l)
    && (forall l :: l in w && Parsed(l).Ok? ==> exists k :: k in f && f[k] == l)
  }

  /** Where the selector matches several spellings of one series, they carry one value. */
  ghost predicate SharedAgree(env: Env, s: Selector, v: Snapshot)
  {
    forall k, l ::
      (k in v && l in v && Selects(env, s, k) && Selects(env, s, l) &&
       FoundFor(k).canonical == FoundFor(l).canonical) ==> v[k] == v[l]
  }

  lemma SameSeriesSameSelection(env: Env, s: Selector, k: string, l: string)
    requires Parsed(k).Ok? && Parsed(l).Ok? && FoundFor(k).canonical == FoundFor(l).canonical
    ensures Selects(env, s, k) == Selects(env, s, l) && InFamily(s, k) == InFamily(s, l)
  {
    ParsedImage(k);
    ParsedImage(l);
    FormatInjective(Parsed(k).value, Parsed(l).value);
  }

  ghost function Canonicals(found: seq<Found>): (r: seq<string>)
    ensures |r| == |found| && forall i :: 0 <= i < |r| ==> r[i] == found[i].canonical
  {
    seq(|found|, i requires 0 <= i < |found| => found[i].canonical)
  }

  lemma FoundWitness(env: Env, s: Selector, v: Snapshot, f: Found)
    requires f in FoundIn(env, s, v)
    ensures f.raw in v && Selects(env, s, f.raw) && Parsed(f.raw).Ok? && f == FoundFor(f.raw)
  {
    hide Parsed, Formatted, Matches;
  }

  /** The canonical names of the matched series are in order. */
  lemma CanonicalsSorted(found: seq<Found>)
    requires Sorted(found, FoundLe)
    ensures Sorted(Canonicals(found), StrLe)
  {
    hide StrLe;
    forall i, j | 0 <= i < j < |found| ensures StrLe(found[i].canonical, found[j].canonical) {
      assert FoundLe(found[i], found[j]);
      StrLeReflexive(found[i].canonical);
    }
  }

  lemma CanonicalsPermutation(a: seq<Found>, b: seq<Found>)
    requires multiset(a) == multiset(b)
    ensures multiset(Canonicals(a)) == multiset(Canonicals(b))
  {
    EachPermutation(a, b, (x: Found) => x.canonical);
    assert Canonicals(a) == Each(a, (x: Found) => x.canonical);
    assert Canonicals(b) == Each(b, (x: Found) => x.canonical);
  }

  /** The matched series of `v` moved along `f`. */
  ghost function Moved(fv: seq<Found>, f: map<string, string>): (g: seq<Found>)
    requires forall x :: x in fv ==> x.raw in f && Parsed(f[x.raw]).Ok?
    ensures |g| == |fv| && forall i :: 0 <= i < |g| ==> fv[i] in fv && g[i] == FoundFor(f[fv[i].raw])
  {
    assert forall i :: 0 <= i < |fv| ==> fv[i] in fv;
    seq(|fv|, i requires 0 <= i < |fv| => FoundFor(f[fv[i].raw]))
  }

  lemma MovedKey(env: Env, s: Selector, v: Snapshot, w: Snapshot, f: map<string, string>, x: Found)
    requires OneToOne(v, w, f) && x in FoundIn(env, s, v)
    ensures x.raw in f && Parsed(f[x.raw]).Ok? && v[x.raw] == w[f[x.raw]]
    ensures FoundFor(f[x.raw]).canonical == x.canonical && FoundFor(f[x.raw]) in FoundIn(env, s, w)
  {
    FoundWitness(env, s, v, x);
    assert SameReading(v, x.raw, w, f[x.raw]);
    SameSeriesSameSelection(env, s, x.raw, f[x.raw]);
    hide Parsed, Formatted, Selects;
  }

  lemma MovedFrom(env: Env, s: Selector, v: Snapshot, w: Snapshot, f: map<string, string>, y: Found) returns (x: Found)
    requires OneToOne(v, w, f) && y in FoundIn(env, s, w)
    ensures x in FoundIn(env, s, v) && x.raw in f && f[x.raw] == y.raw && x.canonical == y.canonical
    ensures x.raw in v && y.raw in w && v[x.raw] == w[y.raw]
  {
    FoundWitness(env, s, w, y);
    var k :| k in f && f[k] == y.raw;
    assert SameReading(v, k, w, f[k]);
    SameSeriesSameSelection(env, s, k, y.raw);
    hide Parsed, Formatted, Selects;
    x := FoundFor(k);
  }

  lemma MovedElements(env: Env, s: Selector, v: Snapshot, w: Snapshot, f: map<string, string>, fv: seq<Found>)
    requires OneToOne(v, w, f) && Elements(fv) == FoundIn(env, s, v) && Distinct(fv)
    ensures forall x :: x in fv ==> x.raw in f && Parsed(f[x.raw]).Ok?
    ensures var g := Moved(fv, f);
      Distinct(g) && Elements(g) == FoundIn(env, s, w) && Canonicals(g) == Canonicals(fv)
  {
    forall x | x in fv
      ensures x.raw in f && Parsed(f[x.raw]).Ok? && FoundFor(f[x.raw]).canonical == x.canonical
      ensures FoundFor(f[x.raw]) in FoundIn(env, s, w) && x == FoundFor(x.raw)
    {
      assert x in Elements(fv);
      MovedKey(env, s, v, w, f, x);
      FoundWitness(env, s, v, x);
    }
    var g := Moved(fv, f);
    forall y | y in FoundIn(env, s, w) ensures y in g {
      var x := MovedFrom(env, s, v, w, f, y);
      assert x in Elements(fv);
      FoundWitness(env, s, w, y);
      var i :| 0 <= i < |fv| && fv[i] == x;
      assert g[i] == y;
    }
    hide FoundIn, Parsed, Formatted, Selects;
    forall i, j | 0 <= i < j < |g| ensures g[i] != g[j] {
      assert fv[i] in fv && fv[j] in fv && fv[i].raw != fv[j].raw;
    }
    assert Canonicals(g) == Canonicals(fv);
  }

  /** One-to-one snapshots match the same canonical names, in the same order and number. */
  lemma SameCanonicals(env: Env, s: Selector, v: Snapshot, w: Snapshot, f: map<string, string>)
    requires OneToOne(v, w, f)
    ensures Canonicals(Ordered(FoundIn(env, s, v))) == Canonicals(Ordered(FoundIn(env, s, w)))
  {
    var fv, fw := Ordered(FoundIn(env, s, v)), Ordered(FoundIn(env, s, w));
    hide *;
    MovedElements(env, s, v, w, f, fv);
    var g := Moved(fv, f);
    DistinctMultiset(g);
    DistinctMultiset(fw);
    CanonicalsPermutation(g, fw);
    CanonicalsSorted(fv);
    CanonicalsSorted(fw);
    StrOrder();
    SortedUnique(Canonicals(fv), Canonicals(fw), StrLe);
  }

  lemma {:induction false} SameSum(env: Env, v: Snapshot, w: Snapshot, acc: real, ks: seq<string>, ls: seq<string>)
    requires |ks| == |ls|
    requires forall k :: k in ks ==> k in v
    requires forall l :: l in ls ==> l in w
    requires forall i :: 0 <= i < |ks| ==> v[ks[i]] == w[ls[i]]
    ensures SumFrom(env, v, acc, ks) == SumFrom(env, w, acc, ls)
    decreases |ks|
  {
    if ks != [] {
      SameSum(env, v, w, env.add(acc, v[ks[0]]), ks[1..], ls[1..]);
    }
  }

  lemma SameFamily(env: Env, s: Selector, v: Snapshot, w: Snapshot, f: map<string, string>)
    requires OneToOne(v, w, f)
    ensures FamilyPresent(s, v) == FamilyPresent(s, w)
  {
    forall k | k in f ensures InFamily(s, k) == InFamily(s, f[k]) && f[k] in w && k in v {
      assert SameReading(v, k, w, f[k]);
      SameSeriesSameSelection(env, s, k, f[k]);
    }
    hide Formatted, FoundFor, SameReading, Parsed;
  }

  /** The value, or the kind of failure, is the same. */
  predicate SameOutcome(a: Result<Resolution, ResolveError>, b: Result<Resolution, ResolveError>)
  {
    match (a, b)
    case (Ok(x), Ok(y)) => x.value == y.value
    case (Err(e), Err(f)) => e == f
    case _ => false
  }

  lemma SameValues(
    env: Env, s: Selector, v: Snapshot, w: Snapshot, f: map<string, string>, fv: seq<Found>, fw: seq<Found>)
    requires OneToOne(v, w, f) && SharedAgree(env, s, v)
    requires Elements(fv) == FoundIn(env, s, v) && Elements(fw) == FoundIn(env, s, w)
    requires |fv| == |fw| && forall i :: 0 <= i < |fv| ==> fv[i].canonical == fw[i].canonical
    ensures forall i :: 0 <= i < |fv| ==> fv[i].raw in v && fw[i].raw in w && v[fv[i].raw] == w[fw[i].raw]
  {
    hide FoundIn, OneToOne, Parsed, Formatted, Selects;
    forall i | 0 <= i < |fv| ensures fv[i].raw in v && fw[i].raw in w && v[fv[i].raw] == w[fw[i].raw] {
      assert fv[i] in Elements(fv) && fw[i] in Elements(fw);
      var x := MovedFrom(env, s, v, w, f, fw[i]);
      FoundWitness(env, s, v, fv[i]);
      FoundWitness(env, s, v, x);
    }
  }

  lemma SameCombination(
    env: Env, s: Selector, v: Snapshot, w: Snapshot, ks: seq<string>, ls: seq<string>, family: bool)
    requires |ks| == |ls|
    requires forall k :: k in ks ==> k in v
    requires forall l :: l in ls ==> l in w
    requires (s.aggregate == AGGREGATE_NONE && |ks| > 1) || forall i :: 0 <= i < |ks| ==> v[ks[i]] == w[ls[i]]
    ensures SameOutcome(Combined(env, s, v, ks, family), Combined(env, s, w, ls, family))
  {
    if !(s.aggregate == AGGREGATE_NONE && |ks| > 1) {
      SameSum(env, v, w, 0.0, ks, ls);
    }
  }

  /** At most one matched series leaves nothing to agree on. */
  lemma FewAgree(env: Env, s: Selector, v: Snapshot, found: seq<Found>)
    requires Elements(found) == FoundIn(env, s, v) && |found| <= 1
    ensures SharedAgree(env, s, v)
  {
    hide Parsed, Formatted, Matches;
    forall k, l | k in v && l in v && Selects(env, s, k) && Selects(env, s, l) ensures k == l {
      assert FoundFor(k) in FoundIn(env, s, v) && FoundFor(l) in FoundIn(env, s, v);
      assert FoundFor(k) in Elements(found) && FoundFor(l) in Elements(found);
    }
  }

  /** Resolving does not depend on how the fetcher spells the series: snapshots that match one to one give the
      same value or the same failure, though `add` need not be commutative or associative, as long as several
      matched spellings of one series carry one value.  Without aggregation not even that is needed. */
  lemma ResolveIgnoresSpelling(env: Env, s: Selector, v: Snapshot, w: Snapshot, f: map<string, string>)
    requires OneToOne(v, w, f) && (s.aggregate == AGGREGATE_NONE || SharedAgree(env, s, v))
    ensures SameOutcome(ResolveOf(env, s, v), ResolveOf(env, s, w))
  {
    hide *;
    if ValidSelector(env, s) {
      var fv, fw := Ordered(FoundIn(env, s, v)), Ordered(FoundIn(env, s, w));
      SameMatches(env, s, v, w, f, fv, fw);
      SameFamily(env, s, v, w, f);
      ResolvedAs(env, s, v, fv);
      ResolvedAs(env, s, w, fw);
      SameCombination(env, s, v, w, RawKeys(fv), RawKeys(fw), FamilyPresent(s, v));
    } else {
      Refused(env, s, v, w);
    }
  }

  lemma ResolvedAs(env: Env, s: Selector, v: Snapshot, found: seq<Found>)
    requires ValidSelector(env, s) && found == Ordered(FoundIn(env, s, v))
    ensures forall k :: k in RawKeys(found) ==> k in v
    ensures ResolveOf(env, s, v) == Combined(env, s, v, RawKeys(found), FamilyPresent(s, v))
  {
    FoundAreKeys(env, s, v, found);
    hide ValidSelector, FamilyPresent, FoundIn, Combined, Ordered, RawKeys;
  }

  lemma Refused(env: Env, s: Selector, v: Snapshot, w: Snapshot)
    requires !ValidSelector(env, s)
    ensures SameOutcome(ResolveOf(env, s, v), ResolveOf(env, s, w))
  {
    hide ValidSelector, FoundIn, Combined, Ordered;
  }

  lemma SameMatches(
    env: Env, s: Selector, v: Snapshot, w: Snapshot, f: map<string, string>, fv: seq<Found>, fw: seq<Found>)
    requires OneToOne(v, w, f) && (s.aggregate == AGGREGATE_NONE || SharedAgree(env, s, v))
    requires fv == Ordered(FoundIn(env, s, v)) && fw == Ordered(FoundIn(env, s, w))
    ensures |fv| == |fw|
    ensures (s.aggregate == AGGREGATE_NONE && |fv| > 1) ||
      forall i :: 0 <= i < |fv| ==> fv[i].raw in v && fw[i].raw in w && v[fv[i].raw] == w[fw[i].raw]
  {
    hide *;
    SameCanonicals(env, s, v, w, f);
    assert |fv| == |Canonicals(fv)| == |Canonicals(fw)| == |fw|;
    assert forall i :: 0 <= i < |fv| ==> Canonicals(fv)[i] == fv[i].canonical && Canonicals(fw)[i] == fw[i].canonical;
    if |fv| <= 1 { FewAgree(env, s, v, fv); }
    if SharedAgree(env, s, v) { SameValues(env, s, v, w, f, fv, fw); }
  }

  /** No two raw keys of the snapshot name the same series. */
  ghost predicate Unshared(values: Snapshot)
  {
    forall k, l ::
      (k in values && l in values && Parsed(k).Ok? && Parsed(l).Ok? &&
       FoundFor(k).canonical == FoundFor(l).canonical) ==> k == l
  }

  /** Every series of `v` is in `w` with the same value, under whatever spelling. */
  ghost predicate Respelled(v: Snapshot, w: Snapshot)
  {
    forall k :: k in v && Parsed(k).Ok? ==> exists l :: SameReading(v, k, w, l)
  }

  ghost function Counterpart(v: Snapshot, k: string, w: Snapshot): (l: string)
    requires Respelled(v, w) && k in v && Parsed(k).Ok?
    ensures SameReading(v, k, w, l)
  {
    var l :| SameReading(v, k, w, l);
    l
  }

  /** In particular it is enough that no snapshot names a series twice. */
  lemma UnsharedIgnoresSpelling(env: Env, s: Selector, v: Snapshot, w: Snapshot)
    requires Unshared(v) && Unshared(w) && Respelled(v, w) && Respelled(w, v)
    ensures SameOutcome(ResolveOf(env, s, v), ResolveOf(env, s, w))
  {
    hide Parsed, FoundFor;
    var f := map k | k in v && Parsed(k).Ok? :: Counterpart(v, k, w);
    forall k, l | k in f && l in f && f[k] == f[l] ensures k == l {
      assert SameReading(v, k, w, f[k]) && SameReading(v, l, w, f[l]);
    }
    forall l | l in w && Parsed(l).Ok? ensures exists k :: k in f && f[k] == l {
      var k := Counterpart(w, l, v);
      assert SameReading(w, l, v, k) && SameReading(v, k, w, f[k]);
    }
    assert SharedAgree(env, s, v) by { hide Matches; }
    hide Unshared, Respelled, SharedAgree, ResolveOf;
    ResolveIgnoresSpelling(env, s, v, w, f);
  }

  // ----- exchanging two spellings -----

  function Adding(env: Env, add: (real, real) -> real): Env
  {
    env.(add := add)
  }

  function Exchanged(v: Snapshot, k: string, l: string): Snapshot
    requires k in v && l in v
  {
    v[k := v[l]][l := v[k]]
  }

  function Exchange(v: Snapshot, k: string, l: string): map<string, string>
  {
    map x | x in v && Parsed(x).Ok? :: if x == k then l else if x == l then k else x
  }

  lemma ExchangeIsOneToOne(v: Snapshot, k: string, l: string)
    requires k in v && l in v && k != l && Parsed(k).Ok? && Parsed(l).Ok?
    requires FoundFor(k).canonical == FoundFor(l).canonical
    ensures OneToOne(v, Exchanged(v, k, l), Exchange(v, k, l))
  {
    hide *;
    var w, f := Exchanged(v, k, l), Exchange(v, k, l);
    ExchangeDomain(v, k, l);
    forall x | x in f ensures SameReading(v, x, w, f[x]) {
      ExchangeReading(v, k, l, x);
    }
    OneToOneParts(v, w, f);
  }

  lemma ExchangeDomain(v: Snapshot, k: string, l: string)
    requires k in v && l in v && k != l && Parsed(k).Ok? && Parsed(l).Ok?
    ensures var w, f := Exchanged(v, k, l), Exchange(v, k, l);
      && (forall x :: x in f <==> x in v && Parsed(x).Ok?)
      && (forall x, y :: x in f && y in f && f[x] == f[y] ==> x == y)
      && (forall y :: y in w && Parsed(y).Ok? ==> exists x :: x in f && f[x] == y)
  {
    hide Parsed;
    var w, f := Exchanged(v, k, l), Exchange(v, k, l);
    forall y | y in w && Parsed(y).Ok? ensures exists x :: x in f && f[x] == y {
      var x := if y == k then l else if y == l then k else y;
      assert x in f && f[x] == y;
    }
  }

  lemma ExchangeReading(v: Snapshot, k: string, l: string, x: string)
    requires k in v && l in v && k != l && Parsed(k).Ok? && Parsed(l).Ok? && x in Exchange(v, k, l)
    requires FoundFor(k).canonical == FoundFor(l).canonical
    ensures SameReading(v, x, Exchanged(v, k, l), Exchange(v, k, l)[x])
  {
    hide Parsed, FoundFor;
  }

  lemma OneToOneParts(v: Snapshot, w: Snapshot, f: map<string, string>)
    requires forall k :: k in f <==> k in v && Parsed(k).Ok?
    requires forall k :: k in f ==> SameReading(v, k, w, f[k])
    requires forall k, l :: k in f && l in f && f[k] == f[l] ==> k == l
    requires forall l :: l in w && Parsed(l).Ok? ==> exists k :: k in f && f[k] == l
    ensures OneToOne(v, w, f)
  {
    hide Parsed, SameReading;
  }

  /** The matched series do not depend on the values or on the addition. */
  lemma SameFound(env: Env, add: (real, real) -> real, s: Selector, v: Snapshot, w: Snapshot)
    requires v.Keys == w.Keys
    ensures FoundIn(Adding(env, add), s, w) == FoundIn(env, s, v)
    ensures ValidSelector(Adding(env, add), s) <==> ValidSelector(env, s)
  {
    hide Parsed, Formatted, ValidMetricName, ValidLabelName, UniqueNames;
    forall k ensures Selects(Adding(env, add), s, k) == Selects(env, s, k) {}
    assert forall m :: ValidMatcher(Adding(env, add), m) == ValidMatcher(env, m);
  }

  lemma RawKeysDistinct(env: Env, s: Selector, v: Snapshot, found: seq<Found>)
    requires Distinct(found) && Elements(found) == FoundIn(env, s, v)
    ensures Distinct(RawKeys(found))
    ensures forall k :: k in RawKeys(found) <==> k in v && Selects(env, s, k)
  {
    hide Parsed, Formatted, Matches;
    forall i | 0 <= i < |found|
      ensures found[i].raw in v && Selects(env, s, found[i].raw) && found[i] == FoundFor(found[i].raw)
    {
      assert found[i] in Elements(found);
    }
    forall k | k in v && Selects(env, s, k) ensures k in RawKeys(found) {
      assert FoundFor(k) in Elements(found);
      var i :| 0 <= i < |found| && found[i] == FoundFor(k);
      assert RawKeys(found)[i] == k;
    }
  }

  lemma AddingAdds(env: Env, add: (real, real) -> real)
    ensures Adding(env, add).add == add
  {
  }

  lemma ExchangedValues(v: Snapshot, k: string, l: string)
    requires k in v && l in v && k != l
    ensures var w := Exchanged(v, k, l);
      w.Keys == v.Keys && w[k] == v[l] && w[l] == v[k] && forall x :: x in v && x != k && x != l ==> v[x] == w[x]
  {
  }

  lemma DifferentValues(x: real, y: real, ks: seq<string>)
    requires x != y
    ensures !SameOutcome(Ok(Resolution(x, ks)), Ok(Resolution(y, ks)))
  {
  }

  lemma ResolvedSum(env: Env, s: Selector, values: Snapshot, ks: seq<string>)
    requires ValidSelector(env, s) && s.aggregate != AGGREGATE_NONE && ks != []
    requires RawKeys(Ordered(FoundIn(env, s, values))) == ks && forall k :: k in ks ==> k in values
    ensures ResolveOf(env, s, values) == Ok(Resolution(SumFrom(env, values, 0.0, ks), ks))
  {
    hide FoundIn, Ordered, FamilyPresent, ValidSelector, SumFrom, RawKeys;
  }

  // ----- a failing input under float addition -----

  function Commas(n: nat): string
  {
    if n == 0 then "" else "," + Commas(n - 1)
  }

  lemma {:induction false} CommasSkipped(n: nat, acc: Labels)
    ensures ParsedLabels(Commas(n), acc) == Ok(acc)
  {
    if n == 0 {
      NothingParsed(acc);
    } else {
      hide ParsedLabels;
      CommasSkipped(n - 1, acc);
      SkipComma(Commas(n - 1), acc);
    }
  }

  /** The series name{k="v"}, spelled with n trailing commas in its label block. */
  function Spelled(name: string, k: string, v: string, n: nat): string
  {
    name + "{" + (Pair(k, v) + Commas(n)) + "}"
  }

  /** The parser does not see trailing commas, so a series has any number of spellings. */
  lemma Spellings(name: string, k: string, v: string, n: nat)
    requires ValidMetricName(name) && ValidLabelName(k)
    ensures Parsed(Spelled(name, k, v, n)) == Ok(Series(name, map[k := v]))
  {
    hide *;
    NameFront(name);
    OneLabelAndCommas(k, v, n);
    ParseLabelled(name, Pair(k, v) + Commas(n));
    SpelledText(name, k, v, n);
  }

  lemma SpelledText(name: string, k: string, v: string, n: nat)
    ensures Spelled(name, k, v, n) == name + "{" + (Pair(k, v) + Commas(n)) + "}"
  {
  }

  lemma OneLabelAndCommas(k: string, v: string, n: nat)
    requires ValidLabelName(k)
    ensures ParsedLabels(Pair(k, v) + Commas(n), map[]) == Ok(map[k := v])
  {
    ValidLabelNameFacts(k);
    CleanedShorter(k);
    hide *;
    ParsePair(k, v, Commas(n), map[]);
    CommasSkipped(n, map[][k := v]);
    assert map[][k := v] == map[k := v];
  }

  lemma NameFront(name: string)
    requires ValidMetricName(name)
    ensures '{' !in name && LeadingSpace(name + "{") == 0
  {
    ValidMetricNameFacts(name);
  }

  /** More commas sort earlier. */
  lemma SpellingsOrdered(name: string, k: string, v: string, n: nat)
    ensures StrLe(Spelled(name, k, v, n + 1), Spelled(name, k, v, n))
    ensures Spelled(name, k, v, n + 1) != Spelled(name, k, v, n)
  {
    hide StrLe, Pair;
    var front := name + "{" + Pair(k, v);
    assert Spelled(name, k, v, n) == front + (Commas(n) + "}");
    assert Spelled(name, k, v, n + 1) == front + (Commas(n + 1) + "}");
    CommasOrdered(n);
    StrLePrefix(front, Commas(n + 1) + "}", Commas(n) + "}");
    assert |Spelled(name, k, v, n + 1)| == |front| + |Commas(n + 1)| + 1;
  }

  lemma {:induction false} CommasOrdered(n: nat)
    ensures StrLe(Commas(n + 1) + "}", Commas(n) + "}")
  {
    var a, b := Commas(n + 1) + "}", Commas(n) + "}";
    assert a == "," + b;
    if n > 0 {
      CommasOrdered(n - 1);
      assert b == "," + (Commas(n - 1) + "}");
      hide Commas;
      StrLePrefix(",", b, Commas(n - 1) + "}");
    } else {
      assert b == "}";
      hide Commas;
    }
  }

  /** Three matched series, of which the last two are one: the order of the sum follows the spelling. */
  lemma SharedSpellingOrdersSum(
    env: Env, s: Selector, j: string, k: string, l: string, x: real, y: real, z: real)
    requires ValidSelector(env, s) && s.aggregate != AGGREGATE_NONE
    requires j != k && j != l && k != l && Selects(env, s, j) && Selects(env, s, k) && Selects(env, s, l)
    requires Parsed(j).Ok? && Parsed(k).Ok? && Parsed(k) == Parsed(l)
    requires FoundLe(FoundFor(j), FoundFor(k)) && StrLe(k, l)
    ensures ResolveOf(env, s, map[j := x, k := y, l := z]) ==
      Ok(Resolution(env.add(env.add(env.add(0.0, x), y), z), [j, k, l]))
    ensures ResolveOf(env, s, map[j := x, k := z, l := y]) ==
      Ok(Resolution(env.add(env.add(env.add(0.0, x), z), y), [j, k, l]))
  {
    hide *;
    SumOfThree(env, s, j, k, l, x, y, z);
    SumOfThree(env, s, j, k, l, x, z, y);
  }

  lemma SumOfThree(env: Env, s: Selector, j: string, k: string, l: string, x: real, y: real, z: real)
    requires ValidSelector(env, s) && s.aggregate != AGGREGATE_NONE
    requires j != k && j != l && k != l && Selects(env, s, j) && Selects(env, s, k) && Selects(env, s, l)
    requires Parsed(j).Ok? && Parsed(k).Ok? && Parsed(k) == Parsed(l)
    requires FoundLe(FoundFor(j), FoundFor(k)) && StrLe(k, l)
    ensures ResolveOf(env, s, map[j := x, k := y, l := z]) ==
      Ok(Resolution(env.add(env.add(env.add(0.0, x), y), z), [j, k, l]))
  {
    hide *;
    var values: Snapshot := map[j := x, k := y, l := z];
    assert values.Keys == {j, k, l} && values[j] == x && values[k] == y && values[l] == z;
    FoundOfThree(env, s, j, k, l, values);
    ResolvedSum(env, s, values, [j, k, l]);
    SumFromThree(env, values, j, k, l);
  }

  lemma SumFromThree(env: Env, values: Snapshot, j: string, k: string, l: string)
    requires j in values && k in values && l in values
    ensures SumFrom(env, values, 0.0, [j, k, l]) ==
      env.add(env.add(env.add(0.0, values[j]), values[k]), values[l])
  {
    var first := env.add(0.0, values[j]);
    var second := env.add(first, values[k]);
    assert [j, k, l][1..] == [k, l] && [k, l][1..] == [l] && [l][1..] == [];
    assert SumFrom(env, values, second, [l]) == env.add(second, values[l]);
    assert SumFrom(env, values, first, [k, l]) == SumFrom(env, values, second, [l]);
  }

  lemma FoundOfThree(env: Env, s: Selector, j: string, k: string, l: string, values: Snapshot)
    requires values.Keys == {j, k, l} && j != k && j != l && k != l
    requires Selects(env, s, j) && Selects(env, s, k) && Selects(env, s, l)
    requires Parsed(j).Ok? && Parsed(k).Ok? && Parsed(k) == Parsed(l)
    requires FoundLe(FoundFor(j), FoundFor(k)) && StrLe(k, l)
    ensures RawKeys(Ordered(FoundIn(env, s, values))) == [j, k, l]
  {
    hide Parsed, Formatted, StrLe, Matches;
    var found := [FoundFor(j), FoundFor(k), FoundFor(l)];
    assert FoundIn(env, s, values) == {FoundFor(j), FoundFor(k), FoundFor(l)};
    assert Elements(found) == {FoundFor(j), FoundFor(k), FoundFor(l)};
    assert FoundLe(found[1], found[2]);
    hide FoundIn, Ordered, FoundLe;
    OrderedThree(found, FoundIn(env, s, values));
  }

  lemma OrderedThree(found: seq<Found>, all: set<Found>)
    requires |found| == 3 && found[0] != found[1] && found[0] != found[2] && found[1] != found[2]
    requires FoundLe(found[0], found[1]) && FoundLe(found[1], found[2]) && Elements(found) == all
    ensures Ordered(all) == found
  {
    FoundOrder();
    hide FoundLe;
    assert FoundLe(found[0], found[2]);
    SortSetUnique(found, all, FoundLe);
  }

  /** The nearest integer, halves to even. */
  function HalfEven(q: real): int
  {
    var n := q.Floor;
    if q - n as real < 0.5 then n
    else if q - n as real > 0.5 then n + 1
    else if n % 2 == 0 then n else n + 1
  }

  const TWO_TO_THE_53 := 9007199254740992.0

  /** The sum of two 64-bit floats that hold integers, for sums of at most 2^54 in magnitude: up to 2^53 every
      integer is a float, and from there to 2^54 every even one. */
  function FloatAdd(a: real, b: real): real
  {
    if -TWO_TO_THE_53 <= a + b <= TWO_TO_THE_53 then a + b else 2.0 * HalfEven((a + b) / 2.0) as real
  }

  /** Float addition is commutative with unit 0, so a difference in the witness below is not one of these. */
  lemma FloatAddLaws(a: real, b: real)
    ensures FloatAdd(a, b) == FloatAdd(b, a)
    ensures -TWO_TO_THE_53 <= a <= TWO_TO_THE_53 ==> FloatAdd(0.0, a) == a
  {
    assert a + b == b + a;
  }

  lemma FloatSums()
    ensures FloatAdd(FloatAdd(FloatAdd(0.0, 1.0), TWO_TO_THE_53), -TWO_TO_THE_53) == 0.0
    ensures FloatAdd(FloatAdd(FloatAdd(0.0, 1.0), -TWO_TO_THE_53), TWO_TO_THE_53) == 1.0
  {
    var half := 4503599627370496;
    var q := (1.0 + TWO_TO_THE_53) / 2.0;
    assert q == half as real + 0.5;
    assert q.Floor == half;
    assert HalfEven(q) == half;
  }

  const JOB_SUM := Selector("m", [Matcher("job", MATCH_EQUAL, "a")], AGGREGATE_SUM, EMPTY_SKIP)

  lemma JobSumSelects(env: Env, n: nat)
    ensures ValidSelector(env, JOB_SUM) && JOB_SUM.aggregate != AGGREGATE_NONE
    ensures var k := Spelled("m", "job", "a", n);
      Parsed(k) == Ok(Series("m", map["job" := "a"])) && Selects(env, JOB_SUM, k)
  {
    assert ValidMetricName("m") && ValidLabelName("job");
    Spellings("m", "job", "a", n);
    hide Parsed, Spelled, ValidMetricName, ValidLabelName;
  }

  /** Concretely: one series under three spellings.  With the values 1, 2^53 and -2^53 in the order of the keys the
      selector resolves to 0; after exchanging the last two values between their spellings, to 1. */
  lemma SpellingWitness(env: Env)
    requires forall a, b :: env.add(a, b) == FloatAdd(a, b)
    ensures var j, k, l := Spelled("m", "job", "a", 2), Spelled("m", "job", "a", 1), Spelled("m", "job", "a", 0);
      var v, w := map[j := 1.0, k := TWO_TO_THE_53, l := -TWO_TO_THE_53],
        map[j := 1.0, k := -TWO_TO_THE_53, l := TWO_TO_THE_53];
      && OneToOne(v, w, Exchange(v, k, l))
      && ResolveOf(env, JOB_SUM, v) == Ok(Resolution(0.0, [j, k, l]))
      && ResolveOf(env, JOB_SUM, w) == Ok(Resolution(1.0, [j, k, l]))
  {
    hide *;
    var j, k, l := Spelled("m", "job", "a", 2), Spelled("m", "job", "a", 1), Spelled("m", "job", "a", 0);
    JobSumSelects(env, 2);
    JobSumSelects(env, 1);
    JobSumSelects(env, 0);
    SpellingsOrdered("m", "job", "a", 1);
    SpellingsOrdered("m", "job", "a", 0);
    ThreeSpellings(j, k, l);
    FloatSums();
    SharedSpellingOrdersSum(env, JOB_SUM, j, k, l, 1.0, TWO_TO_THE_53, -TWO_TO_THE_53);
    var v: Snapshot := map[j := 1.0, k := TWO_TO_THE_53, l := -TWO_TO_THE_53];
    ExchangeIsOneToOne(v, k, l);
    ExchangeOfThree(j, k, l, 1.0, TWO_TO_THE_53, -TWO_TO_THE_53);
  }

  lemma ThreeSpellings(j: string, k: string, l: string)
    requires StrLe(j, k) && StrLe(k, l) && j != k && k != l
    requires Parsed(j).Ok? && Parsed(j) == Parsed(k) && Parsed(k) == Parsed(l)
    ensures j != l && FoundLe(FoundFor(j), FoundFor(k)) && FoundFor(k).canonical == FoundFor(l).canonical
  {
    if j == l { StrLeAntisymmetric(j, k); }
    hide Parsed, Formatted, StrLe;
  }

  lemma ExchangeOfThree(j: string, k: string, l: string, x: real, y: real, z: real)
    requires j != k && j != l && k != l
    ensures Exchanged(map[j := x, k := y, l := z], k, l) == map[j := x, k := z, l := y]
  {
  }
}
