/**
 Where the evidence of a merged baseline comes from: whatever runs are merged, in whatever modes, every piece is
 the evidence of one of them (cmd/slint-gate/baseline_merge.go).
 */
module Provenance {
  import opened GoStrings
  import opened Selectors
  import opened Summaries
  import opened Policies
  import opened Evidence
  import opened Measurement
  import opened Evaluation
  import opened Identity
  import opened Engine
  import opened EngineProperties
  import opened Gate
  import opened BaselineMerging
  import opened BaselineMergeProperties
  import opened Composition

  /** What a merge leaves under an id: the record and the marker of one side. */
  lemma RecordAndMarker(m: Merge, id: string)
    requires DuplicateFree(m)
    ensures var merged := MergedSummary(m);
      || (LastRecord(merged.results, id) == LastRecord(m.base.results, id) &&
          (id in SkippedIDs(merged) <==> id in SkippedIDs(m.base)))
      || (LastRecord(merged.results, id) == LastRecord(m.cur.results, id) &&
          (id in SkippedIDs(merged) <==> id in SkippedIDs(m.cur)))
  {
    if m.mode == ForceReplace {
      ForceReplaceExact(m, id);
      hide SkippedIDs, MergedResults, WithSkips, LastRecord;
    } else {
      MarkerAfter(m, id);
      RecordAfter(m, id);
      RecordIDs(m.base.results, id);
      ReconciledOutsideForce(m, id);
      if id in IDs(m.base.results) { LastRecordNone(m.base.results, id); }
      if Replaces(m, id) { ReplacedHasRecord(m, id); }
      hide SkippedIDs, MergedResults, WithSkips, LastRecord, Replaces, IDs, NumericIDs, Reconciled, UniqueIDs;
    }
  }

  /** Outside force-replace a marker is redecided exactly with its record. */
  lemma ReconciledOutsideForce(m: Merge, id: string)
    requires m.mode != ForceReplace
    ensures id in Reconciled(m) <==>
      if id in IDs(m.base.results) then Replaces(m, id) else id in NumericIDs(m.cur.results)
  {
    NewResultsFresh(m.base.results, m.cur.results);
    hide NewResults, Replaces;
  }

  /** Sufficient evidence of a merged baseline is the evidence of the old baseline or of the merged run, with the
      identity that goes with it. */
  lemma MergedEvidence(m: Merge, id: string)
    requires DuplicateFree(m) && !RunFailed(m.cur)
    requires SufficiencyOf(Some(MergedSummary(m)), id).Sufficient?
    ensures var merged := MergedSummary(m);
      || (SufficiencyOf(Some(merged), id) == SufficiencyOf(Some(m.base), id) &&
          IdentityOf(merged, id) == IdentityOf(m.base, id))
      || (SufficiencyOf(Some(merged), id) == SufficiencyOf(Some(m.cur), id) &&
          IdentityOf(merged, id) == IdentityOf(m.cur, id))
  {
    RecordAndMarker(m, id);
    StatusesKept(m);
    hide RunFailed, SkippedIDs, MergedSummary, LastRecord;
  }

  // ----- chains of merges -----

  /** One merge: a run merged in a mode, with the directions of its policy. */
  datatype Step = Step(mode: Mode, run: Run, directions: map<string, Direction>)

  /** The baseline after approving a first run and merging others into it. */
  ghost function BaselineAfter(first: Run, steps: seq<Step>): Summary
  {
    if steps == [] then first.summary
    else
      var last := steps[|steps| - 1];
      MergedSummary(Merge(last.mode, BaselineAfter(first, steps[..|steps| - 1]), last.run.summary, last.directions))
  }

  function RunsOf(first: Run, steps: seq<Step>): seq<Run>
  {
    if steps == [] then [first] else RunsOf(first, steps[..|steps| - 1]) + [steps[|steps| - 1].run]
  }

  lemma TrustedRunIsSound(env: Env, digest: Digest, r: Run)
    requires TrustedRun(env, digest, r)
    ensures UniqueIDs(r.summary.results) && !RunFailed(r.summary)
  {
    VersionExact(env, digest, r.req, r.world, r.summary);
    FreshStatuses(env, digest, r.req, r.world, r.summary);
    TrustedIsValid(env, digest, r.req, r.world, r.summary);
    hide Emitted, RequestError, RunFailed, FetchFailed, AllowedStatus;
  }

  /** However a baseline was merged together from trusted runs, it is made of them. */
  lemma {:induction false} MergedIsMadeOf(env: Env, digest: Digest, first: Run, steps: seq<Step>)
    requires AllTrusted(env, digest, RunsOf(first, steps))
    ensures UniqueIDs(BaselineAfter(first, steps).results)
    ensures MadeOf(BaselineAfter(first, steps), RunsOf(first, steps))
    decreases |steps|
  {
    hide TrustedRun, UniqueIDs, ComesFrom, MadeOf, MergedSummary;
    if steps == [] {
      assert first in RunsOf(first, steps);
      TrustedRunIsSound(env, digest, first);
      RunIsMadeOfItself(first);
    } else {
      var n := |steps| - 1;
      var before, last := steps[..n], steps[n];
      assert last.run in RunsOf(first, steps);
      assert forall r :: r in RunsOf(first, before) ==> r in RunsOf(first, steps);
      MergedIsMadeOf(env, digest, first, before);
      TrustedRunIsSound(env, digest, last.run);
      var m := Merge(last.mode, BaselineAfter(first, before), last.run.summary, last.directions);
      MergeMadeOf(m, RunsOf(first, before), last.run);
    }
  }

  lemma MergeMadeOf(m: Merge, runs: seq<Run>, run: Run)
    requires UniqueIDs(m.base.results) && UniqueIDs(m.cur.results) && !RunFailed(m.cur)
    requires m.cur == run.summary && MadeOf(m.base, runs)
    ensures UniqueIDs(MergedSummary(m).results) && MadeOf(MergedSummary(m), runs + [run])
  {
    MergedUnique(m);
    hide UniqueIDs, RunFailed, SufficiencyOf, IdentityOf, MergedResults, WithSkips, SkippedIDs, Reconciled;
    forall id | SufficiencyOf(Some(MergedSummary(m)), id).Sufficient?
      ensures exists r :: r in runs + [run] && ComesFrom(MergedSummary(m), r, id)
    {
      MergedEvidence(m, id);
      if ComesFrom(MergedSummary(m), run, id) {
        assert run in runs + [run];
      } else {
        var r :| r in runs && ComesFrom(m.base, r, id);
        assert r in runs + [run];
      }
    }
  }

  /** So after any chain of merges the gate still compares only values that measure the same thing: the baseline
      value was computed by one of the merged runs. */
  lemma MergedBaselineComparesTheSame(
    env: Env, digest: Digest, p: Policy, cur: Run, first: Run, steps: seq<Step>, rule: ThresholdRule)
    returns (base: Run, i: nat, j: nat)
    requires ValidPolicy(p) && TrustedRun(env, digest, cur) && AllTrusted(env, digest, RunsOf(first, steps))
    requires forall r :: r in RunsOf(first, steps) ==> DistinctDigests(digest, cur, r)
    requires !RuleRegression(p, cur.summary, BaselineAfter(first, steps), rule).noGrade
    ensures base in RunsOf(first, steps) && i < |cur.req.specs| && j < |base.req.specs|
    ensures cur.req.specs[i].id == rule.metric == base.req.specs[j].id
    ensures SameMeasuredThing(env, cur, base, i, j)
    ensures ResultOf(env, base.req.specs[j], ObservationsOf(base.req, base.world)).value ==
      Some(SufficiencyOf(Some(BaselineAfter(first, steps)), rule.metric).value)
  {
    hide *;
    MergedIsMadeOf(env, digest, first, steps);
    base, i, j := OnlyTheSameIsCompared(env, digest, p, cur, BaselineAfter(first, steps), RunsOf(first, steps), rule);
  }
}
