/** What a baseline merge keeps, what it changes, and that a second merge of the same run changes nothing. */
module BaselineMergeProperties {
  import opened GoStrings
  import opened Sorting
  import opened Summaries
  import opened Policies
  import opened Evidence
  import opened BaselineMerging

  /** Neither list of records repeats an id. */
  predicate DuplicateFree(m: Merge)
  {
    UniqueIDs(m.base.results) && UniqueIDs(m.cur.results)
  }

  // ----- records -----

  /** The merged list is duplicate-free and starts with the ids of the baseline, in place. */
  lemma MergedUnique(m: Merge)
    requires DuplicateFree(m)
    ensures UniqueIDs(MergedResults(m))
    ensures |MergedResults(m)| >= |m.base.results|
    ensures forall i :: 0 <= i < |m.base.results| ==> MergedResults(m)[i].id == m.base.results[i].id
    ensures IDs(MergedResults(m)) == IDs(m.base.results) + NumericIDs(m.cur.results)
  {
    var base, found := m.base.results, NewResults(m.base.results, m.cur.results);
    MergedIDs(m);
    NewResultsUnique(base, m.cur.results);
    AppendedAreNew(m);
    PermutedUnique(found, AppendedOf(m));
    assert IDs(base) + IDs(found) == IDs(base) + NumericIDs(m.cur.results);
    hide AppendedOf, NewResults, MergedRecord;
    var front := MergedResults(m)[..|base|];
    assert MergedResults(m) == front + AppendedOf(m);
    forall i | 0 <= i < |front| ensures front[i].id in IDs(base) {
      assert base[i] in base;
    }
    UniqueConcat(front, AppendedOf(m));
  }

  lemma UniqueConcat(a: seq<SLIResult>, b: seq<SLIResult>)
    requires UniqueIDs(a) && UniqueIDs(b)
    requires forall i, j :: 0 <= i < |a| && 0 <= j < |b| ==> a[i].id != b[j].id
    ensures UniqueIDs(a + b)
  {
    var s := a + b;
    forall i, j | 0 <= i < j < |s| ensures s[i].id != s[j].id {
      if |a| <= i {
        assert b[i - |a|].id != b[j - |a|].id;
      }
    }
  }

  lemma RecordAt(results: seq<SLIResult>, r: SLIResult)
    requires UniqueIDs(results) && r in results
    ensures LastRecord(results, r.id) == Some(r)
  {
    var i :| 0 <= i < |results| && results[i] == r;
    LastRecordUnique(results, i);
  }

  /** Under every id: the baseline's record or the one that replaces it, else the appended one. */
  lemma RecordAfter(m: Merge, id: string)
    requires DuplicateFree(m)
    ensures id in IDs(m.base.results) ==> LastRecord(m.base.results, id).Some?
    ensures id in IDs(m.base.results) ==>
      LastRecord(MergedResults(m), id) == Some(MergedRecord(m, LastRecord(m.base.results, id).value))
    ensures id !in IDs(m.base.results) && id in NumericIDs(m.cur.results) ==>
      LastRecord(MergedResults(m), id) == LastRecord(m.cur.results, id)
    ensures id !in IDs(m.base.results) && id !in NumericIDs(m.cur.results) ==> LastRecord(MergedResults(m), id) == None
  {
    var base, merged := m.base.results, MergedResults(m);
    MergedUnique(m);
    hide Replaces, AppendedOf;
    if id in IDs(base) {
      var i :| 0 <= i < |base| && base[i].id == id;
      LastRecordUnique(base, i);
      LastRecordUnique(merged, i);
    } else if id in NumericIDs(m.cur.results) {
      var r :| r in m.cur.results && r.id == id && r.value.Some?;
      RecordAt(m.cur.results, r);
      NewResultsFresh(base, m.cur.results);
      SortedIDs(m);
      assert r in AppendedOf(m);
      assert r in merged;
      RecordAt(merged, r);
    } else {
      LastRecordNone(merged, id);
      RecordIDs(merged, id);
    }
  }

  // ----- skip markers -----

  /** A redecided id carries the marker of the current run, every other id keeps its own. */
  lemma MarkerAfter(m: Merge, id: string)
    ensures id in SkippedIDs(MergedSummary(m)) <==>
      if id in Reconciled(m) then id in SkippedIDs(m.cur) else id in SkippedIDs(m.base)
  {
    var add := Reconciled(m) * Elements(SkippedIDs(m.cur));
    hide Reconciled, MergedResults;
    var after := SkippedIDs(MergedSummary(m));
    if SkippedIDs(m.base) == [] && add == {} {
      assert id in Reconciled(m) && id in SkippedIDs(m.cur) ==> id in add;
    } else {
      assert id in after <==> id in Elements(after);
    }
  }

  // ----- the three modes -----

  /** A record is replaced, stated on the records themselves. */
  predicate RecordReplaced(mode: Mode, direction: Option<Direction>, old': Option<SLIResult>, new': Option<SLIResult>)
  {
    && new'.Some? && new'.value.value.Some?
    && (if old'.Some? && old'.value.value.Some? then
          if new'.value.value == old'.value.value then mode == ForceReplace && old' != new'
          else MergeChangeApplies(mode, direction, old'.value.value.value, new'.value.value.value)
        else mode == ForceReplace)
  }

  lemma ReplacesMeaning(m: Merge, id: string)
    requires DuplicateFree(m)
    ensures Replaces(m, id) <==> RecordReplaced(m.mode, DirectionFor(m.directions, id),
        LastRecord(m.base.results, id), LastRecord(m.cur.results, id))
  {
    ValuesOfUnique(m.base.results, id);
    ValuesOfUnique(m.cur.results, id);
    hide MergeChangeApplies, LastRecord, ValuesOf, UniqueIDs, DirectionFor;
  }

  /** append-new-only changes no existing record, marker or evidence. */
  lemma AppendKeepsExisting(m: Merge)
    requires DuplicateFree(m) && m.mode == AppendNewOnly
    ensures forall i :: 0 <= i < |m.base.results| ==> MergedResults(m)[i] == m.base.results[i]
    ensures forall id :: id in IDs(m.base.results) ==>
      (id in SkippedIDs(MergedSummary(m)) <==> id in SkippedIDs(m.base)) &&
      SufficiencyOf(Some(MergedSummary(m)), id) == SufficiencyOf(Some(m.base), id)
  {
    forall id ensures !Replaces(m, id) { ReplacesMeaning(m, id); }
    assert forall i :: 0 <= i < |m.base.results| ==> MergedResults(m)[i] == m.base.results[i];
    hide *;
    forall id | id in IDs(m.base.results)
      ensures (id in SkippedIDs(MergedSummary(m)) <==> id in SkippedIDs(m.base)) &&
        SufficiencyOf(Some(MergedSummary(m)), id) == SufficiencyOf(Some(m.base), id)
    {
      AppendKeepsEvidence(m, id);
    }
  }

  lemma AppendKeepsEvidence(m: Merge, id: string)
    requires DuplicateFree(m) && m.mode == AppendNewOnly && id in IDs(m.base.results)
    ensures id in SkippedIDs(MergedSummary(m)) <==> id in SkippedIDs(m.base)
    ensures SufficiencyOf(Some(MergedSummary(m)), id) == SufficiencyOf(Some(m.base), id)
  {
    MarkerAfter(m, id);
    NewResultsFresh(m.base.results, m.cur.results);
    ReplacesMeaning(m, id);
    assert id !in Reconciled(m);
    RecordAfter(m, id);
    StatusesKept(m);
    hide MergedResults, SkippedIDs, RunFailed, WithSkips, Reconciled, Replaces, NewResults, IDs, LastRecord;
  }

  /** A merge keeps the statuses of the baseline's run. */
  lemma StatusesKept(m: Merge)
    ensures RunFailed(MergedSummary(m)) <==> RunFailed(m.base)
  {
    assert FailedStatus("") == false;
    hide FailedStatus, Reconciled, MergedResults;
  }

  /** review-existing replaces a record exactly when the current value strictly improves on it in the
      direction of its metric, and then by the whole current record. */
  lemma ReviewChangesOnlyImprovements(m: Merge, i: nat)
    requires DuplicateFree(m) && m.mode == ReviewExisting && i < |m.base.results|
    ensures var old' := m.base.results[i];
      var new' := LastRecord(m.cur.results, old'.id);
      var improved := new'.Some? && new'.value.value.Some? && old'.value.Some? &&
        IsImprovement(DirectionFor(m.directions, old'.id), old'.value.value, new'.value.value.value);
      MergedResults(m)[i] == if improved then new'.value else old'
  {
    LastRecordUnique(m.base.results, i);
    ReplacesMeaning(m, m.base.results[i].id);
    hide Replaces;
  }

  /** force-replace gives every SLI with a numeric current value exactly its current record and marker, and
      leaves every other record and marker alone. */
  lemma ForceReplaceExact(m: Merge, id: string)
    requires DuplicateFree(m) && m.mode == ForceReplace
    ensures id in NumericIDs(m.cur.results) ==>
      && LastRecord(MergedResults(m), id) == LastRecord(m.cur.results, id)
      && (id in SkippedIDs(MergedSummary(m)) <==> id in SkippedIDs(m.cur))
    ensures id !in NumericIDs(m.cur.results) ==>
      && LastRecord(MergedResults(m), id) == LastRecord(m.base.results, id)
      && (id in SkippedIDs(MergedSummary(m)) <==> id in SkippedIDs(m.base))
  {
    RecordAfter(m, id);
    MarkerAfter(m, id);
    ReplacesMeaning(m, id);
    NumericRecord(m.cur.results, id);
    NumericRecord(m.base.results, id);
    RecordIDs(m.base.results, id);
    hide Replaces, MergedResults, SkippedIDs, MergedSummary, LastRecord, IDs, NumericIDs, UniqueIDs;
  }

  lemma NumericRecord(results: seq<SLIResult>, id: string)
    requires UniqueIDs(results)
    ensures id in NumericIDs(results) <==>
      LastRecord(results, id).Some? && LastRecord(results, id).value.value.Some?
    ensures LastRecord(results, id).Some? ==> LastRecord(results, id).value.id == id
  {
    LastRecordNone(results, id);
    if id in NumericIDs(results) {
      var r :| r in results && r.id == id && r.value.Some?;
      RecordAt(results, r);
    }
  }

  /** The gate sees, for every replaced SLI, the evidence of the current run. */
  lemma ForceReplaceEvidence(m: Merge, id: string)
    requires DuplicateFree(m) && m.mode == ForceReplace && id in NumericIDs(m.cur.results)
    requires !RunFailed(m.base) && !RunFailed(m.cur)
    ensures SufficiencyOf(Some(MergedSummary(m)), id) == SufficiencyOf(Some(m.cur), id)
  {
    ForceReplaceExact(m, id);
    StatusesKept(m);
    hide RunFailed, MergedResults, SkippedIDs, WithSkips;
  }

  // ----- merging twice -----

  /** The same run merged again into the merged baseline. */
  ghost function Again(m: Merge): Merge
  {
    m.(base := MergedSummary(m))
  }

  lemma NoMembers<T>(s: seq<T>)
    ensures s == [] <==> forall x :: x !in s
  {
    if s != [] { assert s[0] in s; }
  }

  lemma NothingNewTwice(m: Merge)
    requires DuplicateFree(m)
    ensures NewResults(MergedResults(m), m.cur.results) == []
  {
    MergedUnique(m);
    NewResultsFresh(MergedResults(m), m.cur.results);
    var again := NewResults(MergedResults(m), m.cur.results);
    hide MergedResults, NewResults;
    NoMembers(again);
  }

  lemma NothingReplacedTwice(m: Merge, id: string)
    requires DuplicateFree(m) && id in IDs(MergedResults(m))
    ensures DuplicateFree(Again(m)) && !Replaces(Again(m), id)
  {
    MergedUnique(m);
    RecordAfter(m, id);
    ReplacesMeaning(m, id);
    ReplacesMeaning(Again(m), id);
    NumericRecord(m.base.results, id);
    hide Replaces, MergedResults, LastRecord, IDs, NumericIDs, UniqueIDs, WithSkips, RecordReplaced, DirectionFor;
    hide Reconciled, SkippedIDs;
    SettledRecord(m.mode, DirectionFor(m.directions, id), LastRecord(m.cur.results, id));
  }

  lemma SettledRecord(mode: Mode, direction: Option<Direction>, new': Option<SLIResult>)
    ensures !RecordReplaced(mode, direction, new', new')
  {
  }

  lemma ReconciledTwice(m: Merge)
    requires DuplicateFree(m)
    ensures m.mode == ForceReplace ==> Reconciled(Again(m)) == Reconciled(m)
    ensures m.mode != ForceReplace ==> Reconciled(Again(m)) == {}
  {
    NothingNewTwice(m);
    forall id | id in IDs(MergedResults(m)) ensures !Replaces(Again(m), id) { NothingReplacedTwice(m, id); }
    hide Replaces, MergedResults, NewResults;
  }

  lemma SkipsTwice(rel: Option<Reliability>, reconcile: set<string>, curSkipped: set<string>, reconcile': set<string>)
    requires reconcile' == reconcile || reconcile' == {}
    ensures var once := WithSkips(rel, reconcile, curSkipped);
      WithSkips(once, reconcile', curSkipped) == once
  {
    var before := if rel.Some? then rel.value.skippedSLIs else [];
    var add := reconcile * curSkipped;
    if before == [] && add == {} {
      assert reconcile' * curSkipped == {};
    } else {
      var elements := (Elements(before) - reconcile) + add;
      var once := WithSkips(rel, reconcile, curSkipped);
      assert once.Some? && once.value.skippedSLIs == SortedKeys(elements);
      hide WithSkips;
      SkipsSettled(once.value, elements, reconcile', curSkipped);
    }
  }

  /** Sorted markers that agree with the current run on every redecided id stay as they are. */
  lemma SkipsSettled(r: Reliability, elements: set<string>, reconcile: set<string>, curSkipped: set<string>)
    requires r.skippedSLIs == SortedKeys(elements)
    requires reconcile * curSkipped <= elements && elements * reconcile <= curSkipped
    ensures WithSkips(Some(r), reconcile, curSkipped) == Some(r)
  {
    var s := r.skippedSLIs;
    assert Elements(s) == elements;
    assert (elements - reconcile) + (reconcile * curSkipped) == elements;
    hide SortedKeys, Elements;
  }

  /** In every mode a second merge of the same run changes nothing. */
  lemma MergeIdempotent(m: Merge)
    requires DuplicateFree(m)
    ensures MergedSummary(Again(m)) == MergedSummary(m)
  {
    NothingNewTwice(m);
    ReconciledTwice(m);
    SkipsTwice(m.base.reliability, Reconciled(m), Elements(SkippedIDs(m.cur)), Reconciled(Again(m)));
    var once := MergedResults(m);
    forall i | 0 <= i < |once| ensures MergedRecord(Again(m), once[i]) == once[i] {
      assert once[i] in once;
      NothingReplacedTwice(m, once[i].id);
    }
    assert AppendedOf(Again(m)) == [];
    SameFront(Again(m), once);
    hide MergedResults, AppendedOf, NewResults, Reconciled, MergedRecord, WithSkips;
  }

  lemma SameFront(m: Merge, once: seq<SLIResult>)
    requires m.base.results == once && AppendedOf(m) == []
    requires forall i :: 0 <= i < |once| ==> MergedRecord(m, once[i]) == once[i]
    ensures MergedResults(m) == once
  {
    hide MergedRecord, AppendedOf;
  }

  // ----- validity -----

  /** Merging a valid summary into a valid baseline yields a valid baseline. */
  lemma MergeKeepsValid(m: Merge)
    requires ValidSummary(m.base) && ValidSummary(m.cur)
    ensures ValidSummary(MergedSummary(m))
  {
    MergedUnique(m);
    hide AllowedStatus, SupportedSchema;
    var base, merged := m.base.results, MergedResults(m);
    forall r | r in merged ensures r.id != "" && AllowedStatus(r.status) {
      MergedSource(m, r);
    }
    ReliabilityKept(m);
    hide MergedResults, WithSkips, ValidReliability;
  }

  lemma ReliabilityKept(m: Merge)
    requires m.base.reliability.Some? ==> ValidReliability(m.base.reliability.value)
    ensures var rel := MergedSummary(m).reliability; rel.Some? ==> ValidReliability(rel.value)
  {
    hide ReliabilityStatus, Reconciled, MergedResults;
  }

  /** Every merged record is a record of the baseline or of the current run. */
  lemma MergedSource(m: Merge, r: SLIResult)
    requires r in MergedResults(m)
    ensures r in m.base.results || r in m.cur.results
  {
    AppendedAreNew(m);
    hide AppendedOf, Replaces;
    var base, merged := m.base.results, MergedResults(m);
    var i :| 0 <= i < |merged| && merged[i] == r;
    if i < |base| {
      LastRecordNone(m.cur.results, base[i].id);
    } else {
      assert r == AppendedOf(m)[i - |base|];
    }
  }
}
