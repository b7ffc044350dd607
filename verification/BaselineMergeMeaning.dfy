/**
 What a baseline merge does to each record (cmd/slint-gate/baseline_merge.go), stated on the policy's rules and the
 values: which change is an improvement, which records are taken from the current run, which changes are rejected.
 */
module BaselineMergeMeaning {
  import opened GoStrings
  import opened Sorting
  import opened Summaries
  import opened Policies
  import opened Evidence
  import opened BaselineMerging
  import opened BaselineMergeProperties
  import opened BaselineMergeRun
  import opened Gate
  import opened GateMeaning

  // ----- improvements -----

  /** The operator admits lesser values, or greater ones. */
  predicate HasDirection(operator: string)
  {
    TrimSpace(operator) in ["<=", "=<", "<", ">=", "=>", ">"]
  }

  /** The k-th rule is the last one with a direction for this metric. */
  predicate LastDirected(rules: seq<ThresholdRule>, metric: string, k: nat)
  {
    && k < |rules| && rules[k].metric == metric && HasDirection(rules[k].operator)
    && forall j :: k < j < |rules| && rules[j].metric == metric ==> !HasDirection(rules[j].operator)
  }

  /** The new value lies strictly beyond the old one, in the direction of the operator. */
  predicate Beyond(operator: string, oldVal: real, newVal: real)
  {
    ('<' in TrimSpace(operator) && newVal < oldVal) || ('>' in TrimSpace(operator) && newVal > oldVal)
  }

  /** The new value is better by the last rule that gives the metric a direction. */
  ghost predicate Betters(rules: seq<ThresholdRule>, metric: string, oldVal: real, newVal: real)
  {
    exists k: nat :: LastDirected(rules, metric, k) && Beyond(rules[k].operator, oldVal, newVal)
  }

  lemma DirectionCharacters(operator: string)
    ensures Directed(ThresholdRule("", "", operator, None)) <==> HasDirection(operator)
    ensures LowerIsBetter(operator) <==> HasDirection(operator) && '<' in TrimSpace(operator)
    ensures HigherIsBetter(operator) <==> HasDirection(operator) && '>' in TrimSpace(operator)
    ensures !(LowerIsBetter(operator) && HigherIsBetter(operator))
  {
    OperatorCharacters(operator);
    assert '<' !in "==" && '>' !in "==" && '<' !in "=" && '>' !in "=";
    hide TrimSpace;
  }

  lemma LastDirectedMeaning(rules: seq<ThresholdRule>, metric: string, k: nat)
    ensures LastDirected(rules, metric, k) <==>
      exists d :: DecidedBy(rules, k, metric, d)
    ensures LastDirected(rules, metric, k) ==>
      DecidedBy(rules, k, metric, if '<' in TrimSpace(rules[k].operator) then Lower else Higher)
  {
    forall j | 0 <= j < |rules|
      ensures Directed(rules[j]) <==> HasDirection(rules[j].operator)
      ensures HasDirection(rules[j].operator) ==>
        (LowerIsBetter(rules[j].operator) <==> '<' in TrimSpace(rules[j].operator))
    {
      DirectionCharacters(rules[j].operator);
    }
    hide HasDirection, LowerIsBetter, HigherIsBetter, TrimSpace, Directed;
    if LastDirected(rules, metric, k) {
      assert DecidedBy(rules, k, metric, if '<' in TrimSpace(rules[k].operator) then Lower else Higher);
    }
  }

  lemma OneDecides(rules: seq<ThresholdRule>, metric: string, k: nat, l: nat, d: Direction, e: Direction)
    requires DecidedBy(rules, k, metric, d) && DecidedBy(rules, l, metric, e)
    ensures k == l && d == e
  {
    hide Directed, LowerIsBetter;
  }

  lemma ImprovementMeaning(rules: seq<ThresholdRule>, metric: string, oldVal: real, newVal: real)
    ensures IsImprovement(DirectionFor(DirectionsOf(rules), metric), oldVal, newVal) <==>
      Betters(rules, metric, oldVal, newVal)
  {
    DirectionMeaning(rules, metric);
    forall k: nat ensures LastDirected(rules, metric, k) <==> exists d :: DecidedBy(rules, k, metric, d) {
      LastDirectedMeaning(rules, metric, k);
    }
    hide DirectionsOf, DecidedBy, LastDirected, HasDirection, Beyond, IsImprovement;
    if metric in DirectionsOf(rules) {
      var d := DirectionsOf(rules)[metric];
      var k: nat :| DecidedBy(rules, k, metric, d);
      LastDirectedMeaning(rules, metric, k);
      DecidedBeyond(rules, metric, k, d, oldVal, newVal);
      forall l: nat | LastDirected(rules, metric, l) ensures l == k {
        var e :| DecidedBy(rules, l, metric, e);
        OneDecides(rules, metric, k, l, d, e);
      }
    } else {
      UndirectedNeverImproves(oldVal, newVal);
      if Betters(rules, metric, oldVal, newVal) {
        var l: nat :| LastDirected(rules, metric, l) && Beyond(rules[l].operator, oldVal, newVal);
        LastDirectedRule(rules, metric, l);
      }
    }
  }

  lemma UndirectedNeverImproves(oldVal: real, newVal: real)
    ensures !IsImprovement(None, oldVal, newVal)
  {
  }

  lemma LastDirectedRule(rules: seq<ThresholdRule>, metric: string, k: nat)
    requires LastDirected(rules, metric, k)
    ensures exists rule :: rule in rules && rule.metric == metric && Directed(rule)
  {
    DirectionCharacters(rules[k].operator);
    assert rules[k] in rules;
    hide HasDirection, LowerIsBetter, HigherIsBetter;
  }

  lemma DecidedBeyond(
    rules: seq<ThresholdRule>, metric: string, k: nat, d: Direction, oldVal: real, newVal: real)
    requires DecidedBy(rules, k, metric, d)
    ensures IsImprovement(Some(d), oldVal, newVal) <==> Beyond(rules[k].operator, oldVal, newVal)
  {
    DirectionCharacters(rules[k].operator);
    hide HasDirection, LowerIsBetter, HigherIsBetter, TrimSpace;
  }

  /** A better value satisfies every rule of the same direction that the old value satisfied. */
  lemma BetterKeepsRule(deciding: string, operator: string, target: real, oldVal: real, newVal: real)
    requires HasDirection(deciding) && HasDirection(operator) && Beyond(deciding, oldVal, newVal)
    requires '<' in TrimSpace(deciding) <==> '<' in TrimSpace(operator)
    requires Relates(oldVal, operator, target)
    ensures Relates(newVal, operator, target)
  {
    DirectionCharacters(deciding);
    DirectionCharacters(operator);
    OneCharacter(deciding);
    OneCharacter(operator);
    hide HasDirection, LowerIsBetter, HigherIsBetter, TrimSpace;
  }

  lemma OneCharacter(operator: string)
    requires HasDirection(operator)
    ensures '<' in TrimSpace(operator) <==> '>' !in TrimSpace(operator)
  {
    hide TrimSpace;
    assert "<="[0] == '<' && "=<"[1] == '<' && "<"[0] == '<' && ">="[0] == '>' && "=>"[1] == '>' && ">"[0] == '>';
  }

  // ----- records -----

  /** A merge that looks at directions has them from these rules. */
  predicate Informed(m: Merge, rules: seq<ThresholdRule>)
  {
    m.mode == ReviewExisting ==> m.directions == DirectionsOf(rules)
  }

  /** The current record, which has a value, takes the place of the old one. */
  ghost predicate Takes(mode: Mode, rules: seq<ThresholdRule>, old': SLIResult, new': SLIResult)
    requires new'.value.Some?
  {
    match mode
    case AppendNewOnly => false
    case ReviewExisting => old'.value.Some? && Betters(rules, old'.id, old'.value.value, new'.value.value)
    case ForceReplace => true
  }

  /** A numeric record of the current run under this id. */
  predicate IsCurrent(m: Merge, id: string, r: SLIResult)
  {
    r in m.cur.results && r.id == id && r.value.Some?
  }

  lemma CurrentRecord(m: Merge, id: string, r: SLIResult)
    requires DuplicateFree(m) && IsCurrent(m, id, r)
    ensures LastRecord(m.cur.results, id) == Some(r)
  {
    RecordAt(m.cur.results, r);
  }

  lemma NoCurrentRecord(m: Merge, id: string)
    requires forall r :: !IsCurrent(m, id, r)
    ensures LastRecord(m.cur.results, id).Some? ==> LastRecord(m.cur.results, id).value.value.None?
  {
    LastRecordNone(m.cur.results, id);
    if LastRecord(m.cur.results, id).Some? {
      var r := LastRecord(m.cur.results, id).value;
      assert !IsCurrent(m, id, r);
    }
  }

  lemma TakesMeaning(m: Merge, rules: seq<ThresholdRule>, old': SLIResult, new': SLIResult)
    requires new'.value.Some? && Informed(m, rules)
    ensures RecordReplaced(m.mode, DirectionFor(m.directions, old'.id), Some(old'), Some(new')) <==>
      Takes(m.mode, rules, old', new') && old' != new'
  {
    if old'.value.Some? { ImprovementMeaning(rules, old'.id, old'.value.value, new'.value.value); }
    SameNoBetter(rules, old'.id, new'.value.value);
    hide IsImprovement, Betters, DirectionsOf, DirectionFor;
  }

  lemma SameNoBetter(rules: seq<ThresholdRule>, metric: string, v: real)
    ensures !Betters(rules, metric, v, v)
  {
    hide LastDirected;
  }

  /** What becomes of the i-th record of the baseline: the numeric current record under its id if that is taken, else
      the record itself. */
  lemma MergedRecordMeaning(m: Merge, rules: seq<ThresholdRule>, i: nat)
    requires DuplicateFree(m) && Informed(m, rules) && i < |m.base.results|
    ensures var old' := m.base.results[i];
      && (forall new' :: IsCurrent(m, old'.id, new') ==>
           MergedResults(m)[i] == if Takes(m.mode, rules, old', new') then new' else old')
      && ((forall new' :: !IsCurrent(m, old'.id, new')) ==> MergedResults(m)[i] == old')
  {
    var old' := m.base.results[i];
    LastRecordUnique(m.base.results, i);
    ReplacesMeaning(m, old'.id);
    forall new' | IsCurrent(m, old'.id, new')
      ensures MergedResults(m)[i] == if Takes(m.mode, rules, old', new') then new' else old'
    {
      CurrentRecord(m, old'.id, new');
      TakesMeaning(m, rules, old', new');
      hide Replaces, RecordReplaced, Takes, AppendedOf, LastRecord;
    }
    if forall new' :: !IsCurrent(m, old'.id, new') {
      NoCurrentRecord(m, old'.id);
      hide Replaces, AppendedOf, LastRecord, MergeChangeApplies;
    }
  }

  /** After the records of the baseline come the numeric current records under new ids, in the order of the ids. */
  lemma AppendedMeaning(m: Merge)
    requires DuplicateFree(m)
    ensures |MergedResults(m)| >= |m.base.results|
    ensures var new' := MergedResults(m)[|m.base.results|..];
      && (forall r :: r in new' <==> r in m.cur.results && r.value.Some? && r.id !in IDs(m.base.results))
      && (forall i, j :: 0 <= i < j < |new'| ==> StrLe(new'[i].id, new'[j].id))
  {
    assert MergedResults(m)[|m.base.results|..] == AppendedOf(m);
    AppendedMembers(m);
  }

  lemma AppendedMembers(m: Merge)
    ensures forall r :: r in AppendedOf(m) <==> r in m.cur.results && r.value.Some? && r.id !in IDs(m.base.results)
    ensures forall i, j :: 0 <= i < j < |AppendedOf(m)| ==> StrLe(AppendedOf(m)[i].id, AppendedOf(m)[j].id)
  {
    NewMembers(m.base.results, m.cur.results);
    SortedIDs(m);
    ByIDOrder();
    SortSorts(NewResults(m.base.results, m.cur.results), ByID);
    var all := AppendedOf(m);
    hide NewResults, StrLe, TotalPreorder, AppendedOf;
    forall i, j | 0 <= i < j < |all| ensures StrLe(all[i].id, all[j].id) { assert ByID(all[i], all[j]); }
  }

  lemma {:induction false} NewMembers(base: seq<SLIResult>, cur: seq<SLIResult>)
    ensures forall r :: r in NewResults(base, cur) <==> r in cur && r.value.Some? && r.id !in IDs(base)
  {
    if cur != [] {
      var n := |cur| - 1;
      assert cur == cur[..n] + [cur[n]];
      NewMembers(base, cur[..n]);
      hide IDs;
    }
  }

  // ----- rejected changes and skip markers -----

  /** A different value that is not taken, or under review a value where the baseline has none. */
  ghost predicate Refuses(mode: Mode, rules: seq<ThresholdRule>, old': SLIResult, new': SLIResult)
    requires new'.value.Some?
  {
    if old'.value.Some? then new'.value != old'.value && !Takes(mode, rules, old', new') else mode == ReviewExisting
  }

  lemma OneCurrent(m: Merge, id: string, r: SLIResult, q: SLIResult)
    requires DuplicateFree(m) && IsCurrent(m, id, r) && IsCurrent(m, id, q)
    ensures r == q
  {
    CurrentRecord(m, id, r);
    CurrentRecord(m, id, q);
  }

  /** Which changes are reported as rejected. */
  lemma RejectedMeaning(m: Merge, rules: seq<ThresholdRule>, old': SLIResult)
    requires DuplicateFree(m) && Informed(m, rules) && old' in m.base.results
    ensures Rejects(m, old'.id) <==>
      exists new' :: IsCurrent(m, old'.id, new') && Refuses(m.mode, rules, old', new')
  {
    RecordAt(m.base.results, old');
    ValuesOfUnique(m.base.results, old'.id);
    ValuesOfUnique(m.cur.results, old'.id);
    if new' :| IsCurrent(m, old'.id, new') {
      CurrentRecord(m, old'.id, new');
      forall x | IsCurrent(m, old'.id, x) ensures x == new' { OneCurrent(m, old'.id, x, new'); }
      if old'.value.Some? { ImprovementMeaning(rules, old'.id, old'.value.value, new'.value.value); }
      hide LastRecord, ValuesOf, UniqueIDs, IsImprovement, Betters, DirectionsOf, DirectionFor;
    } else {
      NoCurrentRecord(m, old'.id);
      hide LastRecord, ValuesOf, UniqueIDs, MergeChangeApplies;
    }
  }

  /** A numeric current record was added or taken under this id. */
  ghost predicate FromCurrent(m: Merge, rules: seq<ThresholdRule>, id: string)
  {
    exists new' :: IsCurrent(m, id, new') && Admits(m, rules, id, new')
  }

  ghost predicate Admits(m: Merge, rules: seq<ThresholdRule>, id: string, new': SLIResult)
    requires new'.value.Some?
  {
    forall old' :: old' in m.base.results && old'.id == id ==> Takes(m.mode, rules, old', new')
  }

  lemma NumericIsCurrent(m: Merge, id: string)
    ensures id in NumericIDs(m.cur.results) <==> exists r :: IsCurrent(m, id, r)
    ensures id in IDs(NewResults(m.base.results, m.cur.results)) <==>
      id !in IDs(m.base.results) && exists r :: IsCurrent(m, id, r)
  {
    NewMembers(m.base.results, m.cur.results);
    hide NewResults;
    var new' := NewResults(m.base.results, m.cur.results);
    if id in NumericIDs(m.cur.results) {
      var r :| r in m.cur.results && r.value.Some? && r.id == id;
      assert IsCurrent(m, id, r);
    }
    if id in IDs(new') {
      var r :| r in new' && r.id == id;
      assert IsCurrent(m, id, r);
    }
  }

  lemma NewIsAdmitted(m: Merge, rules: seq<ThresholdRule>, id: string)
    requires id !in IDs(m.base.results)
    ensures FromCurrent(m, rules, id) <==> exists r :: IsCurrent(m, id, r)
  {
    hide Takes;
    if r :| IsCurrent(m, id, r) { assert Admits(m, rules, id, r); }
  }

  lemma TakenIsReplaced(m: Merge, rules: seq<ThresholdRule>, id: string, old': SLIResult)
    requires DuplicateFree(m) && Informed(m, rules) && m.mode != ForceReplace
    requires old' in m.base.results && old'.id == id
    ensures Replaces(m, id) <==> FromCurrent(m, rules, id)
  {
    RecordAt(m.base.results, old');
    ReplacesMeaning(m, id);
    forall x | x in m.base.results && x.id == id ensures x == old' { RecordAt(m.base.results, x); }
    if new' :| IsCurrent(m, id, new') {
      CurrentRecord(m, id, new');
      TakesMeaning(m, rules, old', new');
      forall x | IsCurrent(m, id, x) ensures x == new' { OneCurrent(m, id, x, new'); }
      TakenDiffers(m, rules, old', new');
      hide Replaces, RecordReplaced, Takes, LastRecord, UniqueIDs;
    } else {
      NoCurrentRecord(m, id);
      hide Replaces, MergeChangeApplies, LastRecord, UniqueIDs;
    }
  }

  lemma TakenDiffers(m: Merge, rules: seq<ThresholdRule>, old': SLIResult, new': SLIResult)
    requires new'.value.Some? && m.mode != ForceReplace
    ensures Takes(m.mode, rules, old', new') ==> old' != new'
  {
    SameNoBetter(rules, old'.id, new'.value.value);
    hide Betters;
  }

  lemma ForcedIsAdmitted(m: Merge, rules: seq<ThresholdRule>, id: string)
    requires m.mode == ForceReplace
    ensures FromCurrent(m, rules, id) <==> exists r :: IsCurrent(m, id, r)
  {
    if r :| IsCurrent(m, id, r) { assert Admits(m, rules, id, r); }
  }

  lemma ReconciledMeaning(m: Merge, rules: seq<ThresholdRule>, id: string)
    requires DuplicateFree(m) && Informed(m, rules)
    ensures id in Reconciled(m) <==> FromCurrent(m, rules, id)
  {
    NumericIsCurrent(m, id);
    hide FromCurrent, Replaces, NewResults, NumericIDs, DirectionsOf;
    if m.mode == ForceReplace {
      ForcedIsAdmitted(m, rules, id);
    } else if old' :| old' in m.base.results && old'.id == id {
      TakenIsReplaced(m, rules, id, old');
    } else {
      NewIsAdmitted(m, rules, id);
    }
  }

  /** The skip marker of an id follows the current run iff a numeric current record was added or taken under it, else it
      stays. */
  lemma MarkerMeaning(m: Merge, rules: seq<ThresholdRule>, id: string)
    requires DuplicateFree(m) && Informed(m, rules)
    ensures id in SkippedIDs(MergedSummary(m)) <==>
      if FromCurrent(m, rules, id) then id in SkippedIDs(m.cur) else id in SkippedIDs(m.base)
  {
    hide *;
    MarkerAfter(m, id);
    ReconciledMeaning(m, rules, id);
  }

  // ----- the run -----

  /** The merge goes ahead iff the current run passes its policy without a baseline, both sides have one version, and in
      neither list of records the first id to be repeated is other than blank. */
  lemma MergeableMeaning(i: Inputs, base: Summary, cur: Summary)
    ensures Mergeable(i, base, cur) <==>
      && Passes(i) && base.schemaVersion == cur.schemaVersion
      && (UniqueIDs(base.results) || BlankRepeatedFirst(base.results))
      && (UniqueIDs(cur.results) || BlankRepeatedFirst(cur.results))
  {
    GradeMeaning(i);
    DuplicateGuardExact(base.results);
    DuplicateGuardExact(cur.results);
    hide ReportOf, Passes, UniqueIDs, BlankRepeatedFirst, DuplicateID;
  }

  /** The merge of a run looks at the thresholds of its policy. */
  lemma RunIsInformed(i: Inputs, mode: Mode, base: Summary, cur: Summary)
    requires i.policy.Decoded?
    ensures Informed(Merge(mode, base, cur, Directions(i, mode)), i.policy.value.thresholds)
  {
    hide DirectionsOf;
  }
}
