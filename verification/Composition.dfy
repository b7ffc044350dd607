/**
 From the measurement to the gate: what it means that the gate compares a current value with a baseline
 value (pkg/slo/engine, pkg/gate/regression.go).
 */
module Composition {
  import opened GoStrings
  import opened Selectors
  import opened Summaries
  import opened Policies
  import opened Evidence
  import opened Measurement
  import opened Evaluation
  import opened Identity
  import opened IdentityProperties
  import opened IdentitySoundness
  import opened Engine
  import opened EngineProperties
  import opened Gate
  import opened GateProperties

  /** A run of the engine that emitted a trust-correct summary. */
  datatype Run = Run(req: Request, world: World, summary: Summary)

  ghost predicate TrustedRun(env: Env, digest: Digest, r: Run)
  {
    && RequestError(env, r.req).None?
    && Emitted(env, digest, r.req, r.world, EMPTY_RELIABILITY, r.summary)
    && r.summary.schemaVersion == SCHEMA_TRUST
  }

  /** The digest keeps the identities of the two runs apart. */
  ghost predicate DistinctDigests(digest: Digest, a: Run, b: Run)
  {
    a.req.trust.Some? && b.req.trust.Some? &&
    forall s, t :: s in a.req.specs && t in b.req.specs ==>
      && NoCollision(digest, Encode(ContractFields(s)), Encode(ContractFields(t)))
      && NoCollision(digest, Encode(WindowFields(s, a.req.trust.value.windowID)),
           Encode(WindowFields(t, b.req.trust.value.windowID)))
  }

  /** Under this id both runs measured the same thing: their specs have one contract, their coordinates
      agree, and on equal observations they give equal values. */
  ghost predicate SameMeasuredThing(env: Env, a: Run, b: Run, i: nat, j: nat)
    requires i < |a.req.specs| && j < |b.req.specs|
  {
    var s, t := a.req.specs[i], b.req.specs[j];
    && SameContract(s, t) && a.req.trust == b.req.trust
    && forall d :: SameMeasurement(ResultOf(env, s, d), ResultOf(env, t, d))
  }

  /** The evidence that the gate takes for a trusted run and id is the value that the engine computed for the
      one spec with this id, under the identity of that spec. */
  lemma EvidenceOrigin(env: Env, digest: Digest, r: Run, id: string) returns (i: nat)
    requires TrustedRun(env, digest, r) && SufficiencyOf(Some(r.summary), id).Sufficient?
    ensures i < |r.req.specs| && r.req.specs[i].id == id && r.req.trust.Some?
    ensures IdentityOf(r.summary, id) == Some(IdentityFor(digest, r.req.specs[i], r.req.trust.value))
    ensures ResultOf(env, r.req.specs[i], ObservationsOf(r.req, r.world)).value ==
      Some(SufficiencyOf(Some(r.summary), id).value)
  {
    var req, w, s := r.req, r.world, r.summary;
    VersionExact(env, digest, req, w, s);
    TrustedRequest(env, req);
    IdentityIffTrusted(env, digest, req, w, EMPTY_RELIABILITY, s);
    SufficientHasRecord(s, id);
    LastRecordNone(s.results, id);
    var rec := LastRecord(s.results, id).value;
    i :| 0 <= i < |s.results| && s.results[i] == rec;
    EvidenceAgrees(env, digest, req, w, s, i);
    RecordOf(env, digest, req, w, s, i);
    hide Emitted, RequestError, SufficiencyOf, LastRecord, RunFailed, FetchFailed, ResultOf, ObservationsOf;
    hide IdentityFor;
  }

  lemma SufficientHasRecord(s: Summary, id: string)
    requires SufficiencyOf(Some(s), id).Sufficient?
    ensures !RunFailed(s) && LastRecord(s.results, id).Some?
  {
    hide RunFailed, SkippedIDs, LastRecord;
  }

  /** Equal identities of two specs mean one contract, one source and one window. */
  lemma IdentityMeaning(env: Env, digest: Digest, s: SLISpec, t: SLISpec, x: TrustContract, y: TrustContract)
    requires ValidSelectors(env, s) && ValidSelectors(env, t)
    requires NoCollision(digest, Encode(ContractFields(s)), Encode(ContractFields(t)))
    requires NoCollision(digest, Encode(WindowFields(s, x.windowID)), Encode(WindowFields(t, y.windowID)))
    requires IdentityFor(digest, s, x) == IdentityFor(digest, t, y)
    ensures SameContract(s, t) && x == y
    ensures forall d :: SameMeasurement(ResultOf(env, s, d), ResultOf(env, t, d))
  {
    ContractIDExact(digest, s, t);
    WindowIDExact(digest, s, x.windowID, t, y.windowID);
    hide ValidSelectors, SameContract, ResultOf, Encode, ContractFields, WindowFields, ContractIDOf, WindowIDOf;
    forall d ensures SameMeasurement(ResultOf(env, s, d), ResultOf(env, t, d)) {
      ContractSound(env, s, t, d);
    }
  }

  /** The evidence and the identity that the summary holds under this id are those of the run. */
  ghost predicate ComesFrom(s: Summary, r: Run, id: string)
  {
    SufficiencyOf(Some(s), id) == SufficiencyOf(Some(r.summary), id) && IdentityOf(s, id) == IdentityOf(r.summary, id)
  }

  /** All sufficient evidence of the summary comes from these runs.  A run is made of itself; a merged baseline is
      made of the runs that were merged into it. */
  ghost predicate MadeOf(s: Summary, runs: seq<Run>)
  {
    forall id :: SufficiencyOf(Some(s), id).Sufficient? ==> exists r :: r in runs && ComesFrom(s, r, id)
  }

  ghost predicate AllTrusted(env: Env, digest: Digest, runs: seq<Run>)
  {
    forall r :: r in runs ==> TrustedRun(env, digest, r)
  }

  lemma RunIsMadeOfItself(r: Run)
    ensures MadeOf(r.summary, [r])
  {
    hide SufficiencyOf, IdentityOf;
    assert r in [r];
    assert forall id :: ComesFrom(r.summary, r, id);
  }

  /** Whenever the gate grades a rule against a baseline made of trusted runs, both values were computed by the
      engine, for specs that measure the same thing over the same window of the same subject and source. */
  lemma OnlyTheSameIsCompared(
    env: Env, digest: Digest, p: Policy, cur: Run, baseline: Summary, runs: seq<Run>, rule: ThresholdRule)
    returns (base: Run, i: nat, j: nat)
    requires ValidPolicy(p)
    requires TrustedRun(env, digest, cur) && AllTrusted(env, digest, runs) && MadeOf(baseline, runs)
    requires forall r :: r in runs ==> DistinctDigests(digest, cur, r)
    requires !RuleRegression(p, cur.summary, baseline, rule).noGrade
    ensures base in runs && i < |cur.req.specs| && j < |base.req.specs|
    ensures cur.req.specs[i].id == rule.metric == base.req.specs[j].id
    ensures SameMeasuredThing(env, cur, base, i, j)
    ensures ResultOf(env, cur.req.specs[i], ObservationsOf(cur.req, cur.world)).value ==
      Some(SufficiencyOf(Some(cur.summary), rule.metric).value)
    ensures ResultOf(env, base.req.specs[j], ObservationsOf(base.req, base.world)).value ==
      Some(SufficiencyOf(Some(baseline), rule.metric).value)
  {
    RegressionCheckMeaning(p, cur.summary, baseline, rule);
    hide TrustedRun, RuleRegression, SufficiencyOf, IdentityOf, Comparable, ResultOf, ObservationsOf, ValidPolicy;
    hide SameMeasuredThing, DistinctDigests, IdentityFor;
    base :| base in runs && ComesFrom(baseline, base, rule.metric);
    i := EvidenceOrigin(env, digest, cur, rule.metric);
    j := EvidenceOrigin(env, digest, base, rule.metric);
    SameIdentitySameThing(env, digest, cur, base, rule.metric, i, j);
  }

  lemma SameIdentitySameThing(env: Env, digest: Digest, cur: Run, base: Run, id: string, i: nat, j: nat)
    requires TrustedRun(env, digest, cur) && TrustedRun(env, digest, base) && DistinctDigests(digest, cur, base)
    requires i < |cur.req.specs| && j < |base.req.specs| && cur.req.trust.Some? && base.req.trust.Some?
    requires IdentityOf(cur.summary, id) == Some(IdentityFor(digest, cur.req.specs[i], cur.req.trust.value))
    requires IdentityOf(base.summary, id) == Some(IdentityFor(digest, base.req.specs[j], base.req.trust.value))
    requires Comparable(IdentityOf(cur.summary, id), IdentityOf(base.summary, id))
    ensures SameMeasuredThing(env, cur, base, i, j)
  {
    var s, t := cur.req.specs[i], base.req.specs[j];
    hide *;
    SpecValid(env, digest, cur, i);
    SpecValid(env, digest, base, j);
    NoCollisions(digest, cur, base, i, j);
    ComparableAreEqual(IdentityOf(cur.summary, id), IdentityOf(base.summary, id));
    IdentityMeaning(env, digest, s, t, cur.req.trust.value, base.req.trust.value);
    SameThing(env, cur, base, i, j);
  }

  lemma ComparableAreEqual(a: Option<Comparability>, b: Option<Comparability>)
    requires Comparable(a, b)
    ensures a == b
  {
    hide Complete;
  }

  lemma SameThing(env: Env, cur: Run, base: Run, i: nat, j: nat)
    requires i < |cur.req.specs| && j < |base.req.specs| && cur.req.trust == base.req.trust
    requires SameContract(cur.req.specs[i], base.req.specs[j])
    requires forall d :: SameMeasurement(ResultOf(env, cur.req.specs[i], d), ResultOf(env, base.req.specs[j], d))
    ensures SameMeasuredThing(env, cur, base, i, j)
  {
    hide SameContract, ResultOf, SameMeasurement;
  }

  lemma SpecValid(env: Env, digest: Digest, r: Run, i: nat)
    requires TrustedRun(env, digest, r) && i < |r.req.specs|
    ensures ValidSelectors(env, r.req.specs[i])
  {
    hide Emitted, RequestError, CompleteTrust, UniqueSpecIDs, ValidSelectors;
    TrustedRequest(env, r.req);
    assert r.req.specs[i] in r.req.specs;
  }

  lemma NoCollisions(digest: Digest, cur: Run, base: Run, i: nat, j: nat)
    requires DistinctDigests(digest, cur, base) && i < |cur.req.specs| && j < |base.req.specs|
    ensures var s, t := cur.req.specs[i], base.req.specs[j];
      && NoCollision(digest, Encode(ContractFields(s)), Encode(ContractFields(t)))
      && NoCollision(digest, Encode(WindowFields(s, cur.req.trust.value.windowID)),
           Encode(WindowFields(t, base.req.trust.value.windowID)))
  {
    hide NoCollision, Encode, ContractFields, WindowFields;
    assert cur.req.specs[i] in cur.req.specs && base.req.specs[j] in base.req.specs;
  }
}
