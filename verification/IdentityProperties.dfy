/** The hashed stream is injective, and the canonical keys identify exactly the inputs they should. */
module IdentityProperties {
  import opened GoStrings
  import opened Sorting
  import opened PromKeyProperties
  import opened Selectors
  import opened SelectorProperties
  import opened Multiplicity
  import opened Percentile
  import opened Measurement
  import opened Identity

  // ----- decoding the stream -----

  lemma FieldPrefix(f: string, r: string, g: string, q: string)
    requires Field(f) + r == Field(g) + q
    ensures f == g && r == q
  {
    assert Field(f) + r == Itoa(|f|) + [':'] + (f + r);
    assert Field(g) + q == Itoa(|g|) + [':'] + (g + q);
    CutAt(Itoa(|f|), f + r, Itoa(|g|), g + q, ':');
    ItoaInjective(|f|, |g|);
    assert f == (f + r)[..|f|] && g == (g + q)[..|f|];
    assert r == (f + r)[|f|..] && q == (g + q)[|f|..];
  }

  lemma FieldNotEmpty(f: string, r: string)
    ensures Field(f) + r != ""
  {
  }

  /** No field content can forge a boundary: equal streams have equal field lists. */
  lemma {:induction false} EncodeInjective(f: seq<string>, g: seq<string>)
    requires Encode(f) == Encode(g)
    ensures f == g
    decreases |f|
  {
    hide Field;
    if f != [] { FieldNotEmpty(f[0], Encode(f[1..])); }
    if g != [] { FieldNotEmpty(g[0], Encode(g[1..])); }
    if f != [] && g != [] {
      FieldPrefix(f[0], Encode(f[1..]), g[0], Encode(g[1..]));
      EncodeInjective(f[1..], g[1..]);
      assert f == [f[0]] + f[1..] && g == [g[0]] + g[1..];
    }
  }

  /** What two specs with one contract identity agree on. */
  ghost predicate SameContract(s: SLISpec, t: SLISpec)
  {
    && s.id == t.id && s.unit == t.unit && s.kind == t.kind
    && CanonicalMode(s.mode) == CanonicalMode(t.mode)
    && (s.mode == DELTA ==> ResetEffect(s.onCounterReset) == ResetEffect(t.onCounterReset))
    && CanonicalKeysOf(CanonicalMode(s.mode), IdentityKeys(s.inputs)) ==
       CanonicalKeysOf(CanonicalMode(t.mode), IdentityKeys(t.inputs))
  }

  lemma SameFieldsSameContract(s: SLISpec, t: SLISpec)
    requires ContractFields(s) == ContractFields(t)
    ensures SameContract(s, t)
  {
    hide CanonicalKeysOf, IdentityKey, ResetEffect;
    var f, g := ContractFields(s), ContractFields(t);
    var ks := CanonicalKeysOf(CanonicalMode(s.mode), IdentityKeys(s.inputs));
    var kt := CanonicalKeysOf(CanonicalMode(t.mode), IdentityKeys(t.inputs));
    assert f[1] == g[1] && f[2] == g[2] && f[3] == g[3] && f[4] == g[4];
    if CanonicalMode(s.mode) == DELTA {
      assert f[5] == g[5];
      assert f[5][6..] == ResetEffect(s.onCounterReset) && g[5][6..] == ResetEffect(t.onCounterReset);
      assert ks == f[7..] && kt == g[7..];
    } else {
      assert ks == f[6..] && kt == g[6..];
    }
  }

  /** The digest keeps these two streams apart. */
  predicate NoCollision(digest: Digest, x: string, y: string)
  {
    digest(x) == digest(y) ==> x == y
  }

  /** Unless the digest collides on the two streams, two specs share the contract identity iff they agree
      on id, unit, kind, folded mode, reset effect (for delta) and canonical input keys. */
  lemma ContractIDExact(digest: Digest, s: SLISpec, t: SLISpec)
    requires NoCollision(digest, Encode(ContractFields(s)), Encode(ContractFields(t)))
    ensures ContractIDOf(digest, s) == ContractIDOf(digest, t) <==> SameContract(s, t)
  {
    hide Encode, ContractFields, SameContract;
    var d, e := digest(Encode(ContractFields(s))), digest(Encode(ContractFields(t)));
    if ContractIDOf(digest, s) == ContractIDOf(digest, t) {
      assert d == ("slic-v1-" + d)[8..] && e == ("slic-v1-" + e)[8..];
      EncodeInjective(ContractFields(s), ContractFields(t));
      SameFieldsSameContract(s, t);
    }
    if SameContract(s, t) { SameContractSameFields(s, t); }
  }

  lemma SameContractSameFields(s: SLISpec, t: SLISpec)
    requires SameContract(s, t)
    ensures ContractFields(s) == ContractFields(t)
  {
    hide CanonicalKeysOf, IdentityKey, ResetEffect;
  }

  /** The window identity is the folded mode together with the caller's window extent. */
  lemma WindowIDExact(digest: Digest, s: SLISpec, w: string, t: SLISpec, x: string)
    requires NoCollision(digest, Encode(WindowFields(s, w)), Encode(WindowFields(t, x)))
    ensures WindowIDOf(digest, s, w) == WindowIDOf(digest, t, x) <==>
      (CanonicalMode(s.mode) == CanonicalMode(t.mode) && w == x)
  {
    hide Encode;
    var f, g := WindowFields(s, w), WindowFields(t, x);
    var d, e := digest(Encode(f)), digest(Encode(g));
    if WindowIDOf(digest, s, w) == WindowIDOf(digest, t, x) {
      assert d == ("win-v1-" + d)[7..] && e == ("win-v1-" + e)[7..];
      EncodeInjective(f, g);
      assert f[1] == g[1] && f[2] == g[2];
    }
  }

  // ----- canonical input keys -----

  /** The two key lists differ only in what cannot change a value of this mode. */
  ghost predicate EquivalentKeys(mode: string, a: seq<string>, b: seq<string>)
  {
    if ExtremeMode(mode) then Elements(a) == Elements(b)
    else if PercentileMode(mode) then Proportional(a, b)
    else if mode == WINDOW_RATIO && |a| >= 2 && |b| >= 2 then a[..2] == b[..2] && Elements(a) == Elements(b)
    else a == b
  }

  lemma ElementsConcat(a: seq<string>, b: seq<string>)
    ensures Elements(a + b) == Elements(a) + Elements(b)
  {
  }

  lemma ElementsPair(a: seq<string>)
    requires |a| >= 2
    ensures a == a[..2] + a[2..] && Elements(a[..2]) == {a[0], a[1]}
    ensures |a| == 2 ==> a[2..] == []
  {
    assert a[..2] == [a[0], a[1]];
  }

  lemma RatioFormShape(a: seq<string>)
    requires |a| >= 2
    ensures |RatioForm(a)| >= 2 && RatioForm(a)[..2] == a[..2]
    ensures Elements(RatioForm(a)) == Elements(a)
    ensures |a| == 2 ==> RatioForm(a) == a
  {
    var rest := Elements(a[2..]) - {a[0], a[1]};
    var t := SortedKeys(rest);
    ElementsPair(a);
    ElementsConcat(a[..2], a[2..]);
    ElementsConcat(a[..2], t);
    if |a| == 2 {
      ElementsOfNone();
      assert rest == {};
      assert t == [];
    }
    hide SortedKeys, Elements;
    assert Elements(RatioForm(a)) == {a[0], a[1]} + rest;
  }

  lemma RatioFormTail(a: seq<string>)
    requires |a| >= 2
    ensures RatioForm(a) == a[..2] + SortedKeys(Elements(a) - {a[0], a[1]})
  {
    ElementsPair(a);
    ElementsConcat(a[..2], a[2..]);
    hide Elements;
    assert Elements(a[2..]) - {a[0], a[1]} == Elements(a) - {a[0], a[1]};
  }

  lemma RatioFormExact(a: seq<string>, b: seq<string>)
    requires |a| >= 2 && |b| >= 2
    ensures RatioForm(a) == RatioForm(b) <==> (a[..2] == b[..2] && Elements(a) == Elements(b))
  {
    RatioFormShape(a);
    RatioFormShape(b);
    RatioFormTail(a);
    RatioFormTail(b);
    hide RatioForm, SortedKeys, Elements;
    if a[..2] == b[..2] {
      assert a[0] == a[..2][0] == b[..2][0] == b[0] && a[1] == a[..2][1] == b[..2][1] == b[1];
    }
  }

  lemma RatioKeysExact(a: seq<string>, b: seq<string>)
    ensures CanonicalKeysOf(WINDOW_RATIO, a) == CanonicalKeysOf(WINDOW_RATIO, b)
      <==> EquivalentKeys(WINDOW_RATIO, a, b)
  {
    if |a| >= 2 { RatioFormShape(a); }
    if |b| >= 2 { RatioFormShape(b); }
    if |a| >= 2 && |b| >= 2 { RatioFormExact(a, b); }
    RatioIsNeither();
    hide RatioForm, Elements, Normal, Proportional, SortedKeys, ExtremeMode, PercentileMode;
  }

  /** For every mode: equal canonical keys iff equivalent key lists. */
  lemma CanonicalKeysExact(mode: string, a: seq<string>, b: seq<string>)
    ensures CanonicalKeysOf(mode, a) == CanonicalKeysOf(mode, b) <==> EquivalentKeys(mode, a, b)
  {
    if ExtremeMode(mode) {
      assert Elements(SortedKeys(Elements(a))) == Elements(a);
      assert Elements(SortedKeys(Elements(b))) == Elements(b);
    } else if PercentileMode(mode) {
      NormalExact(a, b);
    } else if mode == WINDOW_RATIO {
      RatioKeysExact(a, b);
    }
  }

  // ----- from identity keys back to input keys -----

  lemma ExactIdentityOf(r: MetricRef, key: string)
    requires r.selector.None?
    ensures IdentityKey(r) == ExactKeyIdentity(key) <==> r.key == key
  {
    ExactIdentityInjective(r, MetricRef(key, "", None));
  }

  lemma FirstInput(inputs: seq<MetricRef>)
    requires inputs != []
    ensures IdentityKeys(inputs)[0] == IdentityKey(inputs[0]) && IdentityKeys(inputs)[1..] == IdentityKeys(inputs[1..])
    ensures InputKeys(inputs)[0] == inputs[0].key && InputKeys(inputs)[1..] == InputKeys(inputs[1..])
  {
    hide IdentityKey;
  }

  lemma {:induction false} ExactIdentityCount(inputs: seq<MetricRef>, key: string)
    requires forall r :: r in inputs ==> r.selector.None?
    ensures multiset(IdentityKeys(inputs))[ExactKeyIdentity(key)] == multiset(InputKeys(inputs))[key]
    decreases |inputs|
  {
    if inputs != [] {
      var r := inputs[0];
      assert r in inputs;
      ExactIdentityOf(r, key);
      FirstInput(inputs);
      ExactIdentityCount(inputs[1..], key);
      hide IdentityKey, ExactKeyIdentity, IdentityKeys, InputKeys;
      CountHead(IdentityKeys(inputs), ExactKeyIdentity(key));
      CountHead(InputKeys(inputs), key);
    } else {
      assert IdentityKeys(inputs) == [] && InputKeys(inputs) == [];
    }
  }

  lemma SameIdentityElements(a: seq<MetricRef>, b: seq<MetricRef>)
    requires forall r :: r in a || r in b ==> r.selector.None?
    requires Elements(IdentityKeys(a)) == Elements(IdentityKeys(b))
    ensures Elements(InputKeys(a)) == Elements(InputKeys(b))
  {
    forall k ensures k in InputKeys(a) <==> k in InputKeys(b) {
      ExactIdentityCount(a, k);
      ExactIdentityCount(b, k);
      var id := ExactKeyIdentity(k);
      assert id in IdentityKeys(a) <==> id in multiset(IdentityKeys(a));
      assert id in IdentityKeys(b) <==> id in multiset(IdentityKeys(b));
      assert k in InputKeys(a) <==> k in multiset(InputKeys(a));
      assert k in InputKeys(b) <==> k in multiset(InputKeys(b));
      assert id in IdentityKeys(a) <==> id in Elements(IdentityKeys(a));
      assert id in IdentityKeys(b) <==> id in Elements(IdentityKeys(b));
    }
  }

  lemma SameIdentityKeys(a: seq<MetricRef>, b: seq<MetricRef>, n: nat)
    requires forall r :: r in a || r in b ==> r.selector.None?
    requires n <= |a| && n <= |b| && IdentityKeys(a)[..n] == IdentityKeys(b)[..n]
    ensures InputKeys(a)[..n] == InputKeys(b)[..n]
  {
    hide IdentityKey;
    forall i | 0 <= i < n ensures InputKeys(a)[i] == InputKeys(b)[i] {
      assert IdentityKeys(a)[..n][i] == IdentityKeys(b)[..n][i];
      assert a[i] in a && b[i] in b;
      ExactIdentityInjective(a[i], b[i]);
    }
  }

  lemma ProportionalIdentities(a: seq<MetricRef>, b: seq<MetricRef>)
    requires forall r :: r in a || r in b ==> r.selector.None?
    requires Proportional(IdentityKeys(a), IdentityKeys(b))
    ensures Proportional(InputKeys(a), InputKeys(b))
  {
    var p: nat, q: nat :|
      p > 0 && q > 0 && multiset(Rep(p, IdentityKeys(a))) == multiset(Rep(q, IdentityKeys(b)));
    var ra, rb := Rep(p, InputKeys(a)), Rep(q, InputKeys(b));
    forall k ensures multiset(ra)[k] == multiset(rb)[k] {
      var id := ExactKeyIdentity(k);
      ExactIdentityCount(a, k);
      ExactIdentityCount(b, k);
      RepCount(p, IdentityKeys(a), id);
      RepCount(q, IdentityKeys(b), id);
      RepCount(p, InputKeys(a), k);
      RepCount(q, InputKeys(b), k);
    }
    assert multiset(ra) == multiset(rb);
  }

  /** Equivalence of identity keys is equivalence of the exact input keys behind them. */
  lemma EquivalentInputs(mode: string, a: seq<MetricRef>, b: seq<MetricRef>)
    requires forall r :: r in a || r in b ==> r.selector.None?
    requires EquivalentKeys(mode, IdentityKeys(a), IdentityKeys(b))
    ensures EquivalentKeys(mode, InputKeys(a), InputKeys(b))
  {
    hide IdentityKey, Proportional;
    if ExtremeMode(mode) {
      SameIdentityElements(a, b);
    } else if PercentileMode(mode) {
      ProportionalIdentities(a, b);
    } else if mode == WINDOW_RATIO && |a| >= 2 && |b| >= 2 {
      SameIdentityKeys(a, b, 2);
      SameIdentityElements(a, b);
    } else {
      assert |a| == |IdentityKeys(a)| == |IdentityKeys(b)| == |b|;
      assert IdentityKeys(a)[..|a|] == IdentityKeys(b)[..|a|];
      SameIdentityKeys(a, b, |a|);
      assert InputKeys(a)[..|a|] == InputKeys(a) && InputKeys(b)[..|a|] == InputKeys(b);
    }
  }
}
