/**
 `slint-gate baseline merge` (cmd/slint-gate/baseline_merge.go): plan a merge of the current measurement
 into a baseline, then change the baseline in place.
 */
module BaselineMerging {
  import opened GoStrings
  import opened Sorting
  import opened Summaries
  import opened Policies
  import opened Evidence

  datatype Mode = AppendNewOnly | ReviewExisting | ForceReplace

  datatype Direction = Lower | Higher

  /** `oldVal` is None when the replaced record had no numeric value. */
  datatype MergeUpdate = MergeUpdate(id: string, oldVal: Option<real>, newVal: real, cur: SLIResult)

  /** `rejected` holds the ids of the changes that are reported and not applied. */
  datatype Plan = Plan(appended: seq<SLIResult>, updated: seq<MergeUpdate>, rejected: set<string>)

  // ----- directions -----

  function DirectionsOf(rules: seq<ThresholdRule>): map<string, Direction>
  {
    if rules == [] then map[] else
    var last := rules[|rules| - 1];
    var before := DirectionsOf(rules[..|rules| - 1]);
    if LowerIsBetter(last.operator) then before[last.metric := Lower]
    else if HigherIsBetter(last.operator) then before[last.metric := Higher]
    else before
  }

  /** The rule gives its metric a direction. */
  predicate Directed(rule: ThresholdRule)
  {
    LowerIsBetter(rule.operator) || HigherIsBetter(rule.operator)
  }

  /** The i-th rule is the last one that gives this metric a direction, and gives it this one. */
  predicate DecidedBy(rules: seq<ThresholdRule>, i: nat, id: string, direction: Direction)
  {
    && i < |rules| && rules[i].metric == id && Directed(rules[i])
    && (forall j :: i < j < |rules| && rules[j].metric == id ==> !Directed(rules[j]))
    && direction == if LowerIsBetter(rules[i].operator) then Lower else Higher
  }

  /** A metric has a direction iff some rule gives it one, and the last such rule decides which. */
  lemma {:induction false} DirectionMeaning(rules: seq<ThresholdRule>, id: string)
    ensures id in DirectionsOf(rules) <==> exists rule :: rule in rules && rule.metric == id && Directed(rule)
    ensures id in DirectionsOf(rules) ==> exists i: nat :: DecidedBy(rules, i, id, DirectionsOf(rules)[id])
  {
    hide LowerIsBetter, HigherIsBetter;
    if rules != [] {
      var n := |rules| - 1;
      var before, last := rules[..n], rules[n];
      assert rules == before + [last];
      DirectionMeaning(before, id);
      if last.metric == id && Directed(last) {
        assert DecidedBy(rules, n, id, DirectionsOf(rules)[id]);
      } else if id in DirectionsOf(before) {
        var i: nat :| DecidedBy(before, i, id, DirectionsOf(before)[id]);
        assert rules[i] == before[i] && DecidedBy(rules, i, id, DirectionsOf(rules)[id]);
      }
    }
  }

  method LoadMetricDirections(rules: seq<ThresholdRule>) returns (directions: map<string, Direction>)
    ensures directions == DirectionsOf(rules)
  {
    directions := map[];
    for i := 0 to |rules|
      invariant directions == DirectionsOf(rules[..i])
    {
      assert rules[..i + 1][..i] == rules[..i];
      if LowerIsBetter(rules[i].operator) {
        directions := directions[rules[i].metric := Lower];
      } else if HigherIsBetter(rules[i].operator) {
        directions := directions[rules[i].metric := Higher];
      }
    }
    assert rules[..|rules|] == rules;
  }

  predicate IsImprovement(direction: Option<Direction>, oldVal: real, newVal: real)
  {
    match direction
    case Some(Lower) => newVal < oldVal
    case Some(Higher) => newVal > oldVal
    case None => false
  }

  predicate MergeChangeApplies(mode: Mode, direction: Option<Direction>, oldVal: real, newVal: real)
  {
    match mode
    case ForceReplace => true
    case ReviewExisting => IsImprovement(direction, oldVal, newVal)
    case AppendNewOnly => false
  }

  function DirectionFor(directions: map<string, Direction>, id: string): Option<Direction>
  {
    if id in directions then Some(directions[id]) else None
  }

  // ----- what a merge yields -----

  /** Everything that decides a merge. */
  datatype Merge = Merge(mode: Mode, base: Summary, cur: Summary, directions: map<string, Direction>)

  function IDs(results: seq<SLIResult>): set<string>
  {
    set r | r in results :: r.id
  }

  function NumericIDs(results: seq<SLIResult>): set<string>
  {
    set r | r in results && r.value.Some? :: r.id
  }

  /** The current record replaces the records that the baseline holds under this id. */
  predicate Replaces(m: Merge, id: string)
  {
    var olds, news := ValuesOf(m.base.results), ValuesOf(m.cur.results);
    var rec := LastRecord(m.cur.results, id);
    if id in olds then
      id in news &&
      (if news[id] == olds[id] then m.mode == ForceReplace && LastRecord(m.base.results, id) != rec
       else MergeChangeApplies(m.mode, DirectionFor(m.directions, id), olds[id], news[id]))
    else m.mode == ForceReplace && rec.Some? && rec.value.value.Some?
  }

  predicate Rejects(m: Merge, id: string)
  {
    var olds, news := ValuesOf(m.base.results), ValuesOf(m.cur.results);
    var rec := LastRecord(m.cur.results, id);
    if id in olds then
      id in news && news[id] != olds[id] &&
      !MergeChangeApplies(m.mode, DirectionFor(m.directions, id), olds[id], news[id])
    else m.mode == ReviewExisting && rec.Some? && rec.value.value.Some?
  }

  /** The numeric current records under ids that the baseline does not hold, in the order of the run. */
  function NewResults(base: seq<SLIResult>, cur: seq<SLIResult>): seq<SLIResult>
  {
    if cur == [] then [] else
    var n := |cur| - 1;
    NewResults(base, cur[..n]) + (if cur[n].value.Some? && cur[n].id !in IDs(base) then [cur[n]] else [])
  }

  predicate ByID(a: SLIResult, b: SLIResult)
  {
    StrLe(a.id, b.id)
  }

  function AppendedOf(m: Merge): seq<SLIResult>
  {
    Sort(NewResults(m.base.results, m.cur.results), ByID)
  }

  function MergedRecord(m: Merge, r: SLIResult): SLIResult
  {
    if Replaces(m, r.id) && LastRecord(m.cur.results, r.id).Some? then LastRecord(m.cur.results, r.id).value else r
  }

  function MergedResults(m: Merge): seq<SLIResult>
  {
    seq(|m.base.results|, i requires 0 <= i < |m.base.results| => MergedRecord(m, m.base.results[i])) + AppendedOf(m)
  }

  /** The ids whose skip marker is decided anew from the current run. */
  function Reconciled(m: Merge): set<string>
  {
    if m.mode == ForceReplace then NumericIDs(m.cur.results)
    else
      IDs(NewResults(m.base.results, m.cur.results)) + (set id | id in IDs(m.base.results) && Replaces(m, id))
  }

  ghost function WithSkips(rel: Option<Reliability>, reconcile: set<string>, curSkipped: set<string>)
    : Option<Reliability>
  {
    var before := if rel.Some? then rel.value.skippedSLIs else [];
    var add := reconcile * curSkipped;
    if before == [] && add == {} then rel
    else
      var r := if rel.Some? then rel.value else EMPTY_RELIABILITY;
      Some(r.(skippedSLIs := SortedKeys((Elements(before) - reconcile) + add)))
  }

  ghost function MergedSummary(m: Merge): Summary
  {
    m.base.(results := MergedResults(m),
      reliability := WithSkips(m.base.reliability, Reconciled(m), Elements(SkippedIDs(m.cur))))
  }

  // ----- the plan -----

  function UpdateFor(m: Merge, id: string): Option<MergeUpdate>
  {
    var olds, news := ValuesOf(m.base.results), ValuesOf(m.cur.results);
    match LastRecord(m.cur.results, id)
    case None => None
    case Some(rec) =>
      if id in olds then
        if id in news then Some(MergeUpdate(id, Some(olds[id]), news[id], rec)) else None
      else
        if rec.value.Some? then Some(MergeUpdate(id, None, rec.value.value, rec)) else None
  }

  /** The updated and the rejected ids. */
  ghost predicate PlansChanges(m: Merge, plan: Plan)
  {
    && (forall i, j :: 0 <= i < j < |plan.updated| ==> StrLe(plan.updated[i].id, plan.updated[j].id))
    && (forall u :: u in plan.updated <==>
         u.id in IDs(m.base.results) && Replaces(m, u.id) && UpdateFor(m, u.id) == Some(u))
    && (forall id :: id in plan.rejected <==> id in IDs(m.base.results) && Rejects(m, id))
  }

  /** The new records in id order; where ids repeat, their order among themselves is open. */
  ghost predicate PlansAppends(m: Merge, appended: seq<SLIResult>)
  {
    multiset(appended) == multiset(NewResults(m.base.results, m.cur.results)) && Sorted(appended, ByID)
  }

  ghost predicate IsPlan(m: Merge, plan: Plan)
  {
    plan.appended == AppendedOf(m) && PlansChanges(m, plan)
  }

  lemma {:induction false} ValueHasRecord(results: seq<SLIResult>, id: string)
    ensures id in ValuesOf(results) ==> LastRecord(results, id).Some?
    ensures id in ValuesOf(results) ==> id in NumericIDs(results)
  {
    if results != [] {
      var n := |results| - 1;
      ValueHasRecord(results[..n], id);
      assert results == results[..n] + [results[n]];
    }
  }

  lemma RecordIDs(results: seq<SLIResult>, id: string)
    ensures LastRecord(results, id).Some? <==> id in IDs(results)
  {
    LastRecordNone(results, id);
  }

  lemma ReplacedHasRecord(m: Merge, id: string)
    requires Replaces(m, id)
    ensures LastRecord(m.cur.results, id).Some? && UpdateFor(m, id).Some? && id in NumericIDs(m.cur.results)
  {
    hide MergeChangeApplies;
    ValueHasRecord(m.cur.results, id);
    LastRecordNone(m.cur.results, id);
  }

  method IndexByID(results: seq<SLIResult>) returns (byID: map<string, SLIResult>)
    ensures forall id :: id in byID <==> LastRecord(results, id).Some?
    ensures forall id :: id in byID ==> LastRecord(results, id) == Some(byID[id])
  {
    byID := map[];
    for i := 0 to |results|
      invariant forall id :: id in byID <==> LastRecord(results[..i], id).Some?
      invariant forall id :: id in byID ==> LastRecord(results[..i], id) == Some(byID[id])
    {
      assert results[..i + 1][..i] == results[..i];
      byID := byID[results[i].id := results[i]];
    }
    assert results[..|results|] == results;
  }

  method CollectNew(m: Merge, baseByID: map<string, SLIResult>) returns (appended: seq<SLIResult>)
    requires forall id :: id in baseByID <==> LastRecord(m.base.results, id).Some?
    ensures appended == NewResults(m.base.results, m.cur.results)
  {
    var cur := m.cur.results;
    appended := [];
    for i := 0 to |cur|
      invariant appended == NewResults(m.base.results, cur[..i])
    {
      assert cur[..i + 1][..i] == cur[..i];
      RecordIDs(m.base.results, cur[i].id);
      if cur[i].value.Some? && cur[i].id !in baseByID {
        appended := appended + [cur[i]];
      }
    }
    assert cur[..|cur|] == cur;
  }

  /** The loop over the numeric baseline values, in whatever order the map yields them. */
  method PlanNumeric(m: Merge, baseByID: map<string, SLIResult>, curByID: map<string, SLIResult>)
    returns (updated: seq<MergeUpdate>, rejected: set<string>)
    requires forall id :: id in baseByID <==> LastRecord(m.base.results, id).Some?
    requires forall id :: id in baseByID ==> LastRecord(m.base.results, id) == Some(baseByID[id])
    requires forall id :: id in curByID <==> LastRecord(m.cur.results, id).Some?
    requires forall id :: id in curByID ==> LastRecord(m.cur.results, id) == Some(curByID[id])
    ensures forall u :: u in updated <==>
      u.id in ValuesOf(m.base.results) && Replaces(m, u.id) && UpdateFor(m, u.id) == Some(u)
    ensures forall id :: id in rejected <==> id in ValuesOf(m.base.results) && Rejects(m, id)
  {
    hide MergeChangeApplies;
    var baseValues := ValuesOf(m.base.results);
    var curValues := ValuesOf(m.cur.results);
    var keys := RangeKeys(baseValues.Keys);
    updated, rejected := [], {};
    for i := 0 to |keys|
      invariant forall u :: u in updated <==>
        u.id in keys[..i] && Replaces(m, u.id) && UpdateFor(m, u.id) == Some(u)
      invariant forall id :: id in rejected <==> id in keys[..i] && Rejects(m, id)
    {
      var id := keys[i];
      assert keys[..i + 1] == keys[..i] + [id];
      assert id in Elements(keys);
      ValueHasRecord(m.base.results, id);
      ValueHasRecord(m.cur.results, id);
      if id !in curValues {
        continue;
      }
      var baseVal, curVal := baseValues[id], curValues[id];
      if curVal == baseVal {
        if m.mode == ForceReplace && baseByID[id] != curByID[id] {
          updated := updated + [MergeUpdate(id, Some(baseVal), curVal, curByID[id])];
        }
        continue;
      }
      if MergeChangeApplies(m.mode, DirectionFor(m.directions, id), baseVal, curVal) {
        updated := updated + [MergeUpdate(id, Some(baseVal), curVal, curByID[id])];
      } else {
        rejected := rejected + {id};
      }
    }
    assert keys[..|keys|] == keys;
    assert forall id :: id in keys <==> id in Elements(keys);
  }

  /** The loop over the baseline records without a numeric value. */
  method PlanSkipped(m: Merge, curByID: map<string, SLIResult>)
    returns (updated: seq<MergeUpdate>, rejected: set<string>)
    requires forall id :: id in curByID <==> LastRecord(m.cur.results, id).Some?
    requires forall id :: id in curByID ==> LastRecord(m.cur.results, id) == Some(curByID[id])
    ensures forall u :: u in updated <==>
      u.id in IDs(m.base.results) && u.id !in ValuesOf(m.base.results) && Replaces(m, u.id) &&
      UpdateFor(m, u.id) == Some(u)
    ensures forall id :: id in rejected <==>
      id in IDs(m.base.results) && id !in ValuesOf(m.base.results) && Rejects(m, id)
  {
    hide MergeChangeApplies;
    var base, baseValues := m.base.results, ValuesOf(m.base.results);
    updated, rejected := [], {};
    for i := 0 to |base|
      invariant forall u :: u in updated <==>
        u.id in IDs(base[..i]) && u.id !in baseValues && Replaces(m, u.id) && UpdateFor(m, u.id) == Some(u)
      invariant forall id :: id in rejected <==> id in IDs(base[..i]) && id !in baseValues && Rejects(m, id)
    {
      var id := base[i].id;
      assert base[..i + 1] == base[..i] + [base[i]];
      assert IDs(base[..i + 1]) == IDs(base[..i]) + {id};
      if id in baseValues {
        continue;
      }
      if id !in curByID || curByID[id].value.None? {
        continue;
      }
      match m.mode {
        case ForceReplace => updated := updated + [MergeUpdate(id, None, curByID[id].value.value, curByID[id])];
        case ReviewExisting => rejected := rejected + {id};
        case AppendNewOnly =>
      }
    }
    assert base[..|base|] == base;
  }

  // ----- sorting by id -----

  lemma ByIDOrder()
    ensures TotalPreorder(ByID)
  {
    forall a, b ensures ByID(a, b) || ByID(b, a) { StrLeTotal(a.id, b.id); }
    forall a, b, c | ByID(a, b) && ByID(b, c) ensures ByID(a, c) { StrLeTransitive(a.id, b.id, c.id); }
  }

  /** `sort.Slice` on results: some permutation in id order. */
  method SortResults(s: seq<SLIResult>) returns (r: seq<SLIResult>)
    ensures multiset(r) == multiset(s) && Sorted(r, ByID)
  {
    ByIDOrder();
    SortSorts(s, ByID);
    r := Sort(s, ByID);
  }

  /** `sort.Slice` on updates. */
  method SortUpdates(s: seq<MergeUpdate>) returns (r: seq<MergeUpdate>)
    ensures multiset(r) == multiset(s)
    ensures forall i, j :: 0 <= i < j < |r| ==> StrLe(r[i].id, r[j].id)
  {
    var le := (a: MergeUpdate, b: MergeUpdate) => StrLe(a.id, b.id);
    forall a, b ensures le(a, b) || le(b, a) { StrLeTotal(a.id, b.id); }
    forall a, b, c | le(a, b) && le(b, c) ensures le(a, c) { StrLeTransitive(a.id, b.id, c.id); }
    SortSorts(s, le);
    r := Sort(s, le);
  }

  /** With unique ids there is one permutation in id order, whatever the algorithm. */
  lemma {:induction false} IDOrderUnique(a: seq<SLIResult>, b: seq<SLIResult>)
    requires UniqueIDs(a) && multiset(a) == multiset(b)
    requires Sorted(a, ByID) && Sorted(b, ByID)
    ensures a == b
  {
    assert |a| == |multiset(a)| == |multiset(b)| == |b|;
    if a != [] {
      FirstInIDOrder(a, b);
      TailMultiset(a);
      TailMultiset(b);
      hide ByID;
      IDOrderUnique(a[1..], b[1..]);
    }
  }

  lemma FirstInIDOrder(a: seq<SLIResult>, b: seq<SLIResult>)
    requires a != [] && b != [] && UniqueIDs(a) && multiset(a) == multiset(b)
    requires Sorted(a, ByID) && Sorted(b, ByID)
    ensures a[0] == b[0]
  {
    hide StrLe;
    assert a[0] in multiset(b) && b[0] in multiset(a);
    var i :| 0 <= i < |b| && b[i] == a[0];
    var j :| 0 <= j < |a| && a[j] == b[0];
    if i > 0 && j > 0 {
      StrLeAntisymmetric(a[0].id, b[0].id);
    }
  }

  lemma {:induction false} NewResultsUnique(base: seq<SLIResult>, cur: seq<SLIResult>)
    requires UniqueIDs(cur)
    ensures UniqueIDs(NewResults(base, cur))
    ensures forall r :: r in NewResults(base, cur) <==> r in cur && r.value.Some? && r.id !in IDs(base)
  {
    if cur != [] {
      var n := |cur| - 1;
      NewResultsUnique(base, cur[..n]);
      assert cur == cur[..n] + [cur[n]];
      var front := NewResults(base, cur[..n]);
      forall i | 0 <= i < |front| ensures front[i].id != cur[n].id {
        assert front[i] in cur[..n];
      }
    }
  }

  // ----- the whole plan -----

  method ComputeMergePlan(m: Merge) returns (plan: Plan)
    ensures PlansAppends(m, plan.appended) && PlansChanges(m, plan)
    ensures UniqueIDs(m.cur.results) ==> IsPlan(m, plan)
  {
    hide Replaces, Rejects, UpdateFor, NewResults;
    var baseByID := IndexByID(m.base.results);
    var curByID := IndexByID(m.cur.results);
    var found := CollectNew(m, baseByID);
    var updated1, rejected1 := PlanNumeric(m, baseByID, curByID);
    var updated2, rejected2 := PlanSkipped(m, curByID);
    var appended := SortResults(found);
    var updated := SortUpdates(updated1 + updated2);
    if UniqueIDs(m.cur.results) { AppendedUnique(m, appended); }
    plan := Plan(appended, updated, rejected1 + rejected2);
    forall id | id in ValuesOf(m.base.results) ensures id in IDs(m.base.results) {
      ValueHasRecord(m.base.results, id);
    }
    forall u ensures u in updated <==> u in updated1 || u in updated2 {
      assert u in updated <==> u in multiset(updated);
      assert u in updated1 + updated2 <==> u in multiset(updated1 + updated2);
    }
  }

  lemma AppendedUnique(m: Merge, appended: seq<SLIResult>)
    requires UniqueIDs(m.cur.results)
    requires multiset(appended) == multiset(NewResults(m.base.results, m.cur.results)) && Sorted(appended, ByID)
    ensures appended == AppendedOf(m)
  {
    NewResultsUnique(m.base.results, m.cur.results);
    var found := NewResults(m.base.results, m.cur.results);
    hide ByID, NewResults;
    ByIDOrder();
    SortSorts(found, ByID);
    PermutedUnique(found, AppendedOf(m));
    IDOrderUnique(AppendedOf(m), appended);
  }

  lemma PermutedUnique(a: seq<SLIResult>, b: seq<SLIResult>)
    requires UniqueIDs(a) && multiset(a) == multiset(b)
    ensures UniqueIDs(b)
  {
    forall i, j | 0 <= i < j < |b| ensures b[i].id != b[j].id {
      DuplicateCounted(b, i, j);
      assert b[i] in multiset(a) && b[j] in multiset(a);
      var k :| 0 <= k < |a| && a[k] == b[i];
      var l :| 0 <= l < |a| && a[l] == b[j];
      if k == l {
        DistinctMultiset(a);
      }
    }
  }

  // ----- parts of the in-place change -----

  /** The ids of `reconcileFor` that the current run skipped, in the arbitrary order of the map. */
  method Skipped(reconcileFor: set<string>, curSkipped: set<string>) returns (toAdd: seq<string>)
    ensures Distinct(toAdd) && Elements(toAdd) == reconcileFor * curSkipped
  {
    var keys := RangeKeys(reconcileFor);
    toAdd := [];
    for i := 0 to |keys|
      invariant Distinct(toAdd)
      invariant forall x :: x in toAdd <==> x in keys[..i] && x in curSkipped
    {
      assert keys[..i + 1] == keys[..i] + [keys[i]];
      if keys[i] in curSkipped {
        assert keys[i] !in keys[..i];
        toAdd := toAdd + [keys[i]];
      }
    }
    assert keys[..|keys|] == keys;
    assert forall x :: x in keys <==> x in Elements(keys);
  }

  method Kept(before: seq<string>, reconcileFor: set<string>, toAdd: seq<string>) returns (kept: seq<string>)
    ensures Distinct(kept) && Elements(kept) == (Elements(before) - reconcileFor) + Elements(toAdd)
  {
    var seen: set<string> := {};
    kept := [];
    for i := 0 to |before|
      invariant Distinct(kept)
      invariant forall x :: x in kept <==> x in seen
      invariant forall x :: x in seen <==> x in before[..i] && x !in reconcileFor
    {
      assert before[..i + 1] == before[..i] + [before[i]];
      if before[i] !in reconcileFor && before[i] !in seen {
        kept := kept + [before[i]];
        seen := seen + {before[i]};
      }
    }
    assert before[..|before|] == before;
    for i := 0 to |toAdd|
      invariant Distinct(kept)
      invariant forall x :: x in kept <==> x in seen
      invariant forall x :: x in seen <==> (x in before && x !in reconcileFor) || x in toAdd[..i]
    {
      assert toAdd[..i + 1] == toAdd[..i] + [toAdd[i]];
      if toAdd[i] !in seen {
        kept := kept + [toAdd[i]];
        seen := seen + {toAdd[i]};
      }
    }
    assert toAdd[..|toAdd|] == toAdd;
  }

  method SkippedSet(s: Summary) returns (skipped: set<string>)
    ensures skipped == Elements(SkippedIDs(s))
  {
    var ids := SkippedIDs(s);
    skipped := {};
    for i := 0 to |ids|
      invariant forall x :: x in skipped <==> x in ids[..i]
    {
      assert ids[..i + 1] == ids[..i] + [ids[i]];
      skipped := skipped + {ids[i]};
    }
    assert ids[..|ids|] == ids;
  }

  /** The current record of every updated id. */
  method IndexUpdates(ghost m: Merge, plan: Plan) returns (updateByID: map<string, SLIResult>)
    requires IsPlan(m, plan)
    ensures forall id :: id in updateByID <==> id in IDs(m.base.results) && Replaces(m, id)
    ensures forall id :: id in updateByID ==> LastRecord(m.cur.results, id) == Some(updateByID[id])
  {
    hide Replaces, AppendedOf, Rejects, UpdateFor, IsPlan, LastRecord;
    updateByID := map[];
    for i := 0 to |plan.updated|
      invariant forall id :: id in updateByID <==> exists j :: 0 <= j < i && plan.updated[j].id == id
      invariant forall id :: id in updateByID ==> LastRecord(m.cur.results, id) == Some(updateByID[id])
    {
      PlannedRecord(m, plan, i);
      updateByID := updateByID[plan.updated[i].id := plan.updated[i].cur];
    }
    forall id ensures id in updateByID <==> id in IDs(m.base.results) && Replaces(m, id) {
      if id in IDs(m.base.results) && Replaces(m, id) {
        PlannedUpdate(m, plan, id);
      }
      if id in updateByID {
        var j :| 0 <= j < |plan.updated| && plan.updated[j].id == id;
        PlannedRecord(m, plan, j);
      }
    }
  }

  lemma PlannedRecord(m: Merge, plan: Plan, i: nat)
    requires IsPlan(m, plan) && i < |plan.updated|
    ensures var u := plan.updated[i];
      u.id in IDs(m.base.results) && Replaces(m, u.id) && LastRecord(m.cur.results, u.id) == Some(u.cur)
  {
    hide Replaces, AppendedOf, Rejects, LastRecord, ValuesOf;
    var u := plan.updated[i];
    assert u in plan.updated;
  }

  lemma PlannedUpdate(m: Merge, plan: Plan, id: string)
    requires IsPlan(m, plan) && id in IDs(m.base.results) && Replaces(m, id)
    ensures exists j :: 0 <= j < |plan.updated| && plan.updated[j].id == id
  {
    ReplacedHasRecord(m, id);
    var u := UpdateFor(m, id).value;
    assert u.id == id;
    hide Replaces, UpdateFor, AppendedOf, Rejects;
    assert u in plan.updated;
  }

  lemma AppendedAreNew(m: Merge)
    ensures forall r :: r in AppendedOf(m) ==> r.id !in IDs(m.base.results) && r.value.Some? && r in m.cur.results
  {
    NewResultsFresh(m.base.results, m.cur.results);
    var found := NewResults(m.base.results, m.cur.results);
    forall r | r in AppendedOf(m) ensures r in found {
      assert r in multiset(AppendedOf(m));
    }
  }

  lemma {:induction false} NewResultsFresh(base: seq<SLIResult>, cur: seq<SLIResult>)
    ensures forall r :: r in NewResults(base, cur) <==> r in cur && r.value.Some? && r.id !in IDs(base)
  {
    if cur != [] {
      var n := |cur| - 1;
      NewResultsFresh(base, cur[..n]);
      assert cur == cur[..n] + [cur[n]];
    }
  }

  function Updated(r: SLIResult, updateByID: map<string, SLIResult>): SLIResult
  {
    if r.id in updateByID then updateByID[r.id] else r
  }

  lemma UpdatedResults(m: Merge, plan: Plan, updateByID: map<string, SLIResult>, results: seq<SLIResult>)
    requires IsPlan(m, plan)
    requires forall id :: id in updateByID <==> id in IDs(m.base.results) && Replaces(m, id)
    requires forall id :: id in updateByID ==> LastRecord(m.cur.results, id) == Some(updateByID[id])
    requires var all := m.base.results + plan.appended;
      && |results| == |all|
      && forall j :: 0 <= j < |all| ==> results[j] == Updated(all[j], updateByID)
    ensures results == MergedResults(m)
  {
    AppendedAreNew(m);
    hide Replaces, UpdateFor, AppendedOf, Rejects;
    var all, base, merged := m.base.results + plan.appended, m.base.results, MergedResults(m);
    forall j | 0 <= j < |all| ensures results[j] == merged[j] {
      if j < |base| {
        assert all[j] == base[j] && base[j].id in IDs(base);
      } else {
        assert all[j] == plan.appended[j - |base|] && all[j] in plan.appended;
      }
    }
  }

  lemma NothingUpdated(m: Merge, plan: Plan)
    requires IsPlan(m, plan) && plan.updated == []
    ensures m.base.results + plan.appended == MergedResults(m)
  {
    assert plan.appended == AppendedOf(m) by { hide Replaces, UpdateFor, AppendedOf, Rejects; }
    forall r | r in m.base.results ensures MergedRecord(m, r) == r {
      NotPlanned(m, plan, r);
    }
    hide *;
    assert forall i :: 0 <= i < |m.base.results| ==> m.base.results[i] in m.base.results;
    UnchangedResults(m, plan.appended);
  }

  lemma NotPlanned(m: Merge, plan: Plan, r: SLIResult)
    requires IsPlan(m, plan) && plan.updated == [] && r in m.base.results
    ensures MergedRecord(m, r) == r
  {
    hide Replaces, UpdateFor, AppendedOf, Rejects, LastRecord;
    assert r.id in IDs(m.base.results);
    if Replaces(m, r.id) {
      PlannedUpdate(m, plan, r.id);
    }
  }

  lemma UnchangedResults(m: Merge, appended: seq<SLIResult>)
    requires appended == AppendedOf(m)
    requires forall r :: r in m.base.results ==> MergedRecord(m, r) == r
    ensures m.base.results + appended == MergedResults(m)
  {
    hide MergedRecord, AppendedOf;
    assert forall i :: 0 <= i < |m.base.results| ==> MergedResults(m)[i] == MergedRecord(m, m.base.results[i]);
  }

  /** The ids whose skip marker is redecided, as the method collects them. */
  method ReconcileSet(ghost m: Merge, plan: Plan, results: seq<SLIResult>, cur: Summary, mode: Mode)
    returns (reconcileFor: set<string>)
    requires IsPlan(m, plan) && results == MergedResults(m) && cur == m.cur && mode == m.mode
    ensures reconcileFor == Reconciled(m)
  {
    hide Replaces, UpdateFor, Rejects, AppendedOf, NewResults, MergedResults;
    var mergedIDs: set<string> := {};
    for i := 0 to |results|
      invariant mergedIDs == IDs(results[..i])
    {
      assert results[..i + 1] == results[..i] + [results[i]];
      mergedIDs := mergedIDs + {results[i].id};
    }
    assert results[..|results|] == results;
    reconcileFor := {};
    if mode == ForceReplace {
      var rs := cur.results;
      for i := 0 to |rs|
        invariant reconcileFor == NumericIDs(rs[..i]) * mergedIDs
      {
        assert rs[..i + 1] == rs[..i] + [rs[i]];
        if rs[i].value.Some? && rs[i].id in mergedIDs {
          reconcileFor := reconcileFor + {rs[i].id};
        }
      }
      assert rs[..|rs|] == rs;
      NumericMerged(m);
    } else {
      for i := 0 to |plan.appended|
        invariant reconcileFor == IDs(plan.appended[..i])
      {
        assert plan.appended[..i + 1] == plan.appended[..i] + [plan.appended[i]];
        reconcileFor := reconcileFor + {plan.appended[i].id};
      }
      assert plan.appended[..|plan.appended|] == plan.appended;
      for i := 0 to |plan.updated|
        invariant forall x :: x in reconcileFor <==>
          x in IDs(plan.appended) || exists j :: 0 <= j < i && plan.updated[j].id == x
      {
        reconcileFor := reconcileFor + {plan.updated[i].id};
      }
      ReconciledByPlan(m, plan, reconcileFor);
    }
  }

  lemma ReconciledByPlan(m: Merge, plan: Plan, reconcileFor: set<string>)
    requires IsPlan(m, plan) && m.mode != ForceReplace
    requires forall x :: x in reconcileFor <==>
      x in IDs(plan.appended) || exists j :: 0 <= j < |plan.updated| && plan.updated[j].id == x
    ensures reconcileFor == Reconciled(m)
  {
    SortedIDs(m);
    hide Replaces, UpdateFor, Rejects, AppendedOf, NewResults;
    forall x ensures x in reconcileFor <==> x in Reconciled(m) {
      if x in IDs(m.base.results) && Replaces(m, x) {
        PlannedUpdate(m, plan, x);
      }
      if j :| 0 <= j < |plan.updated| && plan.updated[j].id == x {
        assert plan.updated[j] in plan.updated;
      }
    }
  }

  lemma SortedIDs(m: Merge)
    ensures IDs(AppendedOf(m)) == IDs(NewResults(m.base.results, m.cur.results))
    ensures forall r :: r in AppendedOf(m) <==> r in NewResults(m.base.results, m.cur.results)
  {
    hide NewResults;
    var a, b := AppendedOf(m), NewResults(m.base.results, m.cur.results);
    forall r ensures r in a <==> r in b {
      assert r in a <==> r in multiset(a);
      assert r in b <==> r in multiset(b);
    }
  }

  /** Every id with a numeric current value is in the merged results. */
  lemma NumericMerged(m: Merge)
    ensures NumericIDs(m.cur.results) <= IDs(MergedResults(m))
  {
    MergedIDs(m);
    NewResultsFresh(m.base.results, m.cur.results);
    hide MergedResults, NewResults;
  }

  lemma MergedIDs(m: Merge)
    ensures IDs(MergedResults(m)) == IDs(m.base.results) + IDs(NewResults(m.base.results, m.cur.results))
    ensures forall i :: 0 <= i < |m.base.results| ==> MergedResults(m)[i].id == m.base.results[i].id
  {
    SortedIDs(m);
    hide Replaces, AppendedOf, NewResults;
    var base, added := m.base.results, AppendedOf(m);
    var front := seq(|base|, i requires 0 <= i < |base| => MergedRecord(m, base[i]));
    forall i | 0 <= i < |base| ensures front[i].id == base[i].id {
      LastRecordNone(m.cur.results, base[i].id);
    }
    assert MergedResults(m) == front + added;
    assert IDs(front) == IDs(base) by {
      forall x | x in IDs(base) ensures x in IDs(front) {
        var i :| 0 <= i < |base| && base[i].id == x;
        assert front[i] in front;
      }
      forall x | x in IDs(front) ensures x in IDs(base) {
        var i :| 0 <= i < |front| && front[i].id == x;
        assert base[i] in base;
      }
    }
    assert IDs(front + added) == IDs(front) + IDs(added);
  }

  // ----- the baseline changed in place -----

  class Baseline {
    var schemaVersion: string
    var generated: bool
    var reliability: Option<Reliability>
    var results: seq<SLIResult>

    constructor (s: Summary)
      ensures Value() == s
    {
      schemaVersion, generated, reliability, results := s.schemaVersion, s.generated, s.reliability, s.results;
    }

    function Value(): Summary
      reads this
    {
      Summary(schemaVersion, generated, reliability, results)
    }

    /** Redecides, for every id in `reconcileFor`, its membership in the skip markers from the current run. */
    method ReconcileSkippedSLIs(reconcileFor: set<string>, curSkipped: set<string>)
      modifies this`reliability
      ensures reliability == WithSkips(old(reliability), reconcileFor, curSkipped)
    {
      var toAdd := Skipped(reconcileFor, curSkipped);
      assert toAdd == [] <==> Elements(toAdd) == {} by {
        if toAdd != [] { assert toAdd[0] in Elements(toAdd); }
      }
      if (reliability.None? || |reliability.value.skippedSLIs| == 0) && |toAdd| == 0 {
        return;
      }
      if reliability.None? {
        reliability := Some(EMPTY_RELIABILITY);
      }
      var kept := Kept(reliability.value.skippedSLIs, reconcileFor, toAdd);
      SortStringsOfSet(kept);
      reliability := Some(reliability.value.(skippedSLIs := Sort(kept, StrLe)));
    }

    method ReplaceRecords(updateByID: map<string, SLIResult>)
      modifies this`results
      ensures |results| == |old(results)|
      ensures forall j :: 0 <= j < |results| ==> results[j] == Updated(old(results)[j], updateByID)
    {
      for i := 0 to |results|
        invariant |results| == |old(results)|
        invariant forall j :: i <= j < |results| ==> results[j] == old(results)[j]
        invariant forall j :: 0 <= j < i ==> results[j] == Updated(old(results)[j], updateByID)
      {
        if results[i].id in updateByID {
          results := results[i := updateByID[results[i].id]];
        }
      }
    }

    /** Appends the new records, replaces the updated ones and reconciles the skip markers. */
    method ApplyMergePlan(ghost m: Merge, plan: Plan, cur: Summary, mode: Mode)
      requires m.base == Value() && m.cur == cur && m.mode == mode && IsPlan(m, plan)
      modifies this`results, this`reliability
      ensures Value() == MergedSummary(m)
    {
      hide Replaces, UpdateFor, AppendedOf, Rejects, MergedResults, Updated, Reconciled, WithSkips, SkippedIDs, IDs;
      results := results + plan.appended;
      if |plan.updated| > 0 {
        var updateByID := IndexUpdates(m, plan);
        ReplaceRecords(updateByID);
        UpdatedResults(m, plan, updateByID, results);
      } else {
        NothingUpdated(m, plan);
      }
      assert results == MergedResults(m);
      var reconcileFor := ReconcileSet(m, plan, results, cur, mode);
      var skipped := SkippedSet(cur);
      ReconcileSkippedSLIs(reconcileFor, skipped);
    }
  }
}
