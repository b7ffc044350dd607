/**
 The comparability identity of an SLI (pkg/slo/engine/comparability.go): canonical input keys, the
 length-prefixed byte stream that is hashed, and the identifiers made from the digest.  The digest, the
 first 32 hexadecimal digits of SHA-256, is a parameter.
 */
module Identity {
  import opened GoStrings
  import opened Sorting
  import opened Selectors
  import opened Multiplicity
  import opened Measurement

  type Digest = string -> string

  // ----- canonical input keys -----

  function CanonicalMode(mode: string): string
  {
    if mode == SINGLE then START else mode
  }

  function ResetEffect(policy: string): string
  {
    if policy == RESET_NO_GRADE || policy == RESET_SKIP then "clear" else "preserve"
  }

  function IdentityKeys(inputs: seq<MetricRef>): (r: seq<string>)
    ensures |r| == |inputs| && forall i :: 0 <= i < |r| ==> r[i] == IdentityKey(inputs[i])
  {
    seq(|inputs|, i requires 0 <= i < |inputs| => IdentityKey(inputs[i]))
  }

  /** Numerator and denominator in place, the other required inputs as a sorted set. */
  ghost function RatioForm(keys: seq<string>): seq<string>
    requires |keys| >= 2
  {
    keys[..2] + SortedKeys(Elements(keys[2..]) - {keys[0], keys[1]})
  }

  /** The modes that pick an extreme of the pool. */
  predicate ExtremeMode(mode: string)
  {
    mode == WINDOW_MIN || mode == WINDOW_MAX
  }

  predicate PercentileMode(mode: string)
  {
    mode == WINDOW_P95 || mode == WINDOW_P99
  }

  lemma RatioIsNeither()
    ensures !ExtremeMode(WINDOW_RATIO) && !PercentileMode(WINDOW_RATIO)
  {
  }

  /** The inputs of a mode up to what cannot change the measured value. */
  ghost function CanonicalKeysOf(mode: string, keys: seq<string>): seq<string>
  {
    if ExtremeMode(mode) then SortedKeys(Elements(keys))
    else if PercentileMode(mode) then Normal(keys)
    else if mode == WINDOW_RATIO && |keys| > 2 then RatioForm(keys)
    else keys
  }

  method DedupSorted(sorted: seq<string>) returns (out: seq<string>)
    requires Sorted(sorted, StrLe)
    ensures out == SortedKeys(Elements(sorted))
  {
    hide StrLe;
    StrOrder();
    if |sorted| < 2 {
      SortStringsOfSorted(sorted);
      return sorted;
    }
    out := sorted[..1];
    for i := 1 to |sorted|
      invariant out != [] && out[|out| - 1] == sorted[i - 1]
      invariant Sorted(out, StrLe) && Distinct(out)
      invariant Elements(out) == Elements(sorted[..i])
    {
      var k := sorted[i];
      assert sorted[..i + 1] == sorted[..i] + [k];
      if k != out[|out| - 1] {
        AppendGreater(out, k);
        assert Elements(out + [k]) == Elements(out) + {k};
        out := out + [k];
      } else {
        assert k in sorted[..i] by { assert sorted[..i][i - 1] == sorted[i - 1]; }
      }
      assert Elements(sorted[..i + 1]) == Elements(sorted[..i]) + {k};
    }
    assert sorted[..|sorted|] == sorted;
    SortStringsOfSorted(out);
  }

  lemma SortStringsOfSorted(s: seq<string>)
    requires Sorted(s, StrLe) && Distinct(s)
    ensures s == SortedKeys(Elements(s))
  {
    StrOrder();
    SortSetUnique(s, Elements(s), StrLe);
  }

  lemma AppendGreater(out: seq<string>, k: string)
    requires out != [] && Sorted(out, StrLe) && Distinct(out)
    requires StrLe(out[|out| - 1], k) && k != out[|out| - 1]
    ensures Sorted(out + [k], StrLe) && Distinct(out + [k])
  {
    var last := out[|out| - 1];
    forall i | 0 <= i < |out| ensures StrLe(out[i], k) && out[i] != k {
      if i < |out| - 1 {
        StrLeTransitive(out[i], last, k);
        if StrLe(k, out[i]) {
          StrLeTransitive(k, out[i], last);
          StrLeAntisymmetric(k, last);
        } else {
          StrLeReflexive(k);
        }
      }
    }
  }

  lemma ElementsOfNone()
    ensures Distinct<string>([]) && Elements<string>([]) == {}
  {
  }

  lemma ElementsNext(s: seq<string>, i: nat)
    requires i < |s|
    ensures Elements(s[..i + 1]) == Elements(s[..i]) + {s[i]}
  {
    assert s[..i + 1] == s[..i] + [s[i]];
  }

  lemma AppendNew(s: seq<string>, k: string)
    requires Distinct(s) && k !in Elements(s)
    ensures Distinct(s + [k]) && Elements(s + [k]) == Elements(s) + {k}
  {
  }

  method RatioKeys(keys: seq<string>) returns (out: seq<string>)
    requires |keys| > 2
    ensures out == RatioForm(keys)
  {
    hide Distinct, Elements, SortedKeys;
    ElementsOfNone();
    var seen := {keys[0], keys[1]};
    var tail: seq<string> := [];
    ghost var rest := keys[2..];
    assert rest[..0] == [];
    for i := 2 to |keys|
      invariant seen == {keys[0], keys[1]} + Elements(rest[..i - 2])
      invariant Distinct(tail) && Elements(tail) == Elements(rest[..i - 2]) - {keys[0], keys[1]}
    {
      var k := keys[i];
      ElementsNext(rest, i - 2);
      if k in seen {
        continue;
      }
      seen := seen + {k};
      AppendNew(tail, k);
      tail := tail + [k];
    }
    assert rest[..|rest|] == rest;
    SortStringsOfSet(tail);
    out := keys[..2] + Sort(tail, StrLe);
  }

  method CanonicalInputKeys(mode: string, inputs: seq<MetricRef>) returns (keys: seq<string>)
    ensures keys == CanonicalKeysOf(mode, IdentityKeys(inputs))
  {
    hide IdentityKey, Normal;
    keys := IdentityKeys(inputs);
    if mode == WINDOW_MIN || mode == WINDOW_MAX {
      ghost var all := keys;
      StrOrder();
      SortSorts(keys, StrLe);
      keys := Sort(keys, StrLe);
      SameElements(keys, all);
      keys := DedupSorted(keys);
    } else if mode == WINDOW_P95 || mode == WINDOW_P99 {
      keys := NormalizePercentileMultiplicity(keys);
    } else if mode == WINDOW_RATIO && |keys| > 2 {
      keys := RatioKeys(keys);
    }
  }

  lemma SameElements(a: seq<string>, b: seq<string>)
    requires multiset(a) == multiset(b)
    ensures Elements(a) == Elements(b)
  {
    forall x ensures x in a <==> x in b {
      assert x in a <==> x in multiset(a);
      assert x in b <==> x in multiset(b);
    }
  }

  // ----- the hashed stream -----

  function Field(s: string): string
  {
    Itoa(|s|) + [':'] + s
  }

  function Encode(fields: seq<string>): string
  {
    if fields == [] then [] else Field(fields[0]) + Encode(fields[1..])
  }

  /** The fields before the input keys. */
  function HeaderFields(s: SLISpec, n: nat): seq<string>
  {
    ["kube-slint.sli.contract.v1", s.id, s.unit, s.kind, CanonicalMode(s.mode)]
    + (if CanonicalMode(s.mode) == DELTA then ["reset=" + ResetEffect(s.onCounterReset)] else [])
    + ["inputs=" + Itoa(n)]
  }

  /** The fields that sliContractID writes. */
  ghost function ContractFields(s: SLISpec): seq<string>
  {
    var keys := CanonicalKeysOf(CanonicalMode(s.mode), IdentityKeys(s.inputs));
    HeaderFields(s, |keys|) + keys
  }

  function WindowFields(s: SLISpec, window: string): seq<string>
  {
    ["kube-slint.sli.window.v1", CanonicalMode(s.mode), window]
  }

  ghost function ContractIDOf(digest: Digest, s: SLISpec): string
  {
    "slic-v1-" + digest(Encode(ContractFields(s)))
  }

  function WindowIDOf(digest: Digest, s: SLISpec, window: string): string
  {
    "win-v1-" + digest(Encode(WindowFields(s, window)))
  }

  lemma {:induction false} EncodeAppend(a: seq<string>, b: seq<string>)
    ensures Encode(a + b) == Encode(a) + Encode(b)
  {
    hide Field;
    if a == [] {
      assert a + b == b;
    } else {
      EncodeAppend(a[1..], b);
      assert (a + b)[1..] == a[1..] + b;
    }
  }

  lemma EncodeOne(a: seq<string>, f: string)
    ensures Encode(a + [f]) == Encode(a) + Field(f)
  {
    EncodeAppend(a, [f]);
    assert [f][1..] == [];
  }

  /** `writeField`: what has been written so far is the stream of some fields. */
  method WriteField(h: string, ghost written: seq<string>, f: string) returns (h': string)
    requires h == Encode(written)
    ensures h' == Encode(written + [f])
  {
    EncodeOne(written, f);
    h' := h + (Itoa(|f|) + [':'] + f);
  }

  method WriteKeys(h0: string, ghost front: seq<string>, keys: seq<string>) returns (h: string)
    requires h0 == Encode(front)
    ensures h == Encode(front + keys)
  {
    hide Encode;
    h := h0;
    assert front + keys[..0] == front;
    for i := 0 to |keys|
      invariant h == Encode(front + keys[..i])
    {
      assert front + keys[..i] + [keys[i]] == front + keys[..i + 1];
      h := WriteField(h, front + keys[..i], keys[i]);
    }
    assert keys[..|keys|] == keys;
  }

  method WriteHeader(s: SLISpec, n: nat) returns (h: string)
    ensures h == Encode(HeaderFields(s, n))
  {
    hide Encode, Itoa, ResetEffect, CanonicalMode;
    EncodeNothing();
    var mode := CanonicalMode(s.mode);
    ghost var f1 := ["kube-slint.sli.contract.v1"];
    h := WriteField("", [], "kube-slint.sli.contract.v1");
    assert [] + f1 == f1;
    h := WriteField(h, f1, s.id);
    h := WriteField(h, f1 + [s.id], s.unit);
    h := WriteField(h, f1 + [s.id] + [s.unit], s.kind);
    h := WriteField(h, f1 + [s.id] + [s.unit] + [s.kind], mode);
    ghost var f2 := f1 + [s.id] + [s.unit] + [s.kind] + [mode];
    if mode == DELTA {
      h := WriteField(h, f2, "reset=" + ResetEffect(s.onCounterReset));
      f2 := f2 + ["reset=" + ResetEffect(s.onCounterReset)];
    }
    h := WriteField(h, f2, "inputs=" + Itoa(n));
    assert f2 + ["inputs=" + Itoa(n)] == HeaderFields(s, n);
  }

  method SliContractID(digest: Digest, s: SLISpec) returns (id: string)
    ensures id == ContractIDOf(digest, s)
  {
    hide Encode, HeaderFields, CanonicalKeysOf;
    var keys := CanonicalInputKeys(CanonicalMode(s.mode), s.inputs);
    var h := WriteHeader(s, |keys|);
    h := WriteKeys(h, HeaderFields(s, |keys|), keys);
    id := "slic-v1-" + digest(h);
  }

  lemma EncodeNothing()
    ensures Encode([]) == ""
  {
  }

  method WindowID(digest: Digest, s: SLISpec, window: string) returns (id: string)
    ensures id == WindowIDOf(digest, s, window)
  {
    hide Encode;
    var mode := CanonicalMode(s.mode);
    EncodeNothing();
    var h := WriteField("", [], "kube-slint.sli.window.v1");
    h := WriteField(h, [] + ["kube-slint.sli.window.v1"], mode);
    h := WriteField(h, [] + ["kube-slint.sli.window.v1"] + [mode], window);
    assert [] + ["kube-slint.sli.window.v1"] + [mode] + [window] == WindowFields(s, window);
    id := "win-v1-" + digest(h);
  }
}
