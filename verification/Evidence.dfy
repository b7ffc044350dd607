/** Which SLIs have sufficient evidence to be graded (pkg/gate/evidence.go). */
module Evidence {
  import opened GoStrings
  import opened Summaries

  /** The reason codes of a gate report. */
  datatype Reason =
    | ThresholdMiss | RegressionDetected | CoverageGapFound
    | BaselineAbsentFirstRun | BaselineUnavailable | BaselineIsCorrupt | BaselineIncomparable
    | MeasurementInputMissing | MeasurementInputCorrupt | MeasurementSchemaUnsupported
    | PolicyIsMissing | PolicyIsInvalid
    | ReliabilityInsufficient | CollectionFailed | EvidenceInsufficient

  datatype EvidenceIndex = EvidenceIndex(byID: map<string, SLIResult>, skipped: set<string>, runUnreliable: bool)

  datatype Sufficiency = Sufficient(value: real) | Insufficient(reason: Reason)

  predicate FailedStatus(s: string)
  {
    EqualFold(TrimSpace(s), "Failed")
  }

  /** The run reports a failed collection or a failed evaluation. */
  predicate RunFailed(s: Summary)
  {
    s.reliability.Some? &&
    (FailedStatus(s.reliability.value.collectionStatus) || FailedStatus(s.reliability.value.evaluationStatus))
  }

  /** The ids that the run itself reports as skipped. */
  function SkippedIDs(s: Summary): seq<string>
  {
    if s.reliability.Some? then s.reliability.value.skippedSLIs else []
  }

  /** What valueSufficient decides, stated on the summary: the run did not fail, the SLI is in the results,
      it is not marked skipped, no input was missing, and it has a value. */
  function SufficiencyOf(s: Option<Summary>, id: string): Sufficiency
  {
    if s.None? then Insufficient(MeasurementInputMissing)
    else if RunFailed(s.value) then Insufficient(EvidenceInsufficient)
    else match LastRecord(s.value.results, id)
      case None => Insufficient(MeasurementInputMissing)
      case Some(r) =>
        if id in SkippedIDs(s.value) || r.inputsMissing != [] || r.value.None? then Insufficient(EvidenceInsufficient)
        else Sufficient(r.value.value)
  }

  /** The index answers every question as the summary does. */
  ghost predicate Indexes(e: EvidenceIndex, s: Option<Summary>)
  {
    && (e.runUnreliable <==> s.Some? && RunFailed(s.value))
    && (forall id :: id in e.skipped <==> s.Some? && id in SkippedIDs(s.value))
    && (forall id :: id in e.byID <==> s.Some? && LastRecord(s.value.results, id).Some?)
    && (forall id :: id in e.byID ==> LastRecord(s.value.results, id) == Some(e.byID[id]))
  }

  method NewEvidenceIndex(s: Option<Summary>) returns (e: EvidenceIndex)
    ensures Indexes(e, s)
  {
    if s.None? {
      return EvidenceIndex(map[], {}, false);
    }
    var results := s.value.results;
    var byID: map<string, SLIResult> := map[];
    for i := 0 to |results|
      invariant forall id :: id in byID <==> LastRecord(results[..i], id).Some?
      invariant forall id :: id in byID ==> LastRecord(results[..i], id) == Some(byID[id])
    {
      assert results[..i + 1][..i] == results[..i];
      byID := byID[results[i].id := results[i]];
    }
    assert results[..|results|] == results;
    var skipped: set<string> := {};
    var ids := SkippedIDs(s.value);
    for i := 0 to |ids|
      invariant forall id :: id in skipped <==> id in ids[..i]
    {
      assert ids[..i + 1] == ids[..i] + [ids[i]];
      skipped := skipped + {ids[i]};
    }
    assert ids[..|ids|] == ids;
    e := EvidenceIndex(byID, skipped, RunFailed(s.value));
  }

  function ValueSufficient(e: EvidenceIndex, id: string): Sufficiency
  {
    if e.runUnreliable then Insufficient(EvidenceInsufficient)
    else if id !in e.byID then Insufficient(MeasurementInputMissing)
    else if id in e.skipped then Insufficient(EvidenceInsufficient)
    else if |e.byID[id].inputsMissing| > 0 then Insufficient(EvidenceInsufficient)
    else if e.byID[id].value.None? then Insufficient(EvidenceInsufficient)
    else Sufficient(e.byID[id].value.value)
  }

  lemma IndexAnswers(e: EvidenceIndex, s: Option<Summary>, id: string)
    requires Indexes(e, s)
    ensures ValueSufficient(e, id) == SufficiencyOf(s, id)
  {
    hide RunFailed, SkippedIDs;
  }
}
