/**
 The measurement summary (pkg/slo/summary/schema.go): what a run reports, when the report is valid and
 when two results are comparable.
 */
module Summaries {
  import opened GoStrings

  const SCHEMA_LEGACY := "slo.v3"
  const SCHEMA_TRUST := "slo.v4"

  const STATUS_PASS := "pass"
  const STATUS_WARN := "warn"
  const STATUS_FAIL := "fail"
  const STATUS_BLOCK := "block"
  const STATUS_SKIP := "skip"

  datatype Comparability = Comparability(
    sliContractID: string, subjectID: string, windowID: string, sourceConfigID: string)

  datatype SLIResult = SLIResult(
    id: string, title: string, unit: string, kind: string, description: string,
    value: Option<real>, status: string, reason: string,
    inputsUsed: seq<string>, inputsMissing: seq<string>,
    comparability: Option<Comparability>)

  datatype Reliability = Reliability(
    collectionStatus: string, evaluationStatus: string, blockedReason: string,
    missingInputs: seq<string>, skippedSLIs: seq<string>)

  /** The record before a run writes to it. */
  const EMPTY_RELIABILITY := Reliability("", "", "", [], [])

  /** `generated` says whether the time stamp is set. */
  datatype Summary = Summary(
    schemaVersion: string, generated: bool, reliability: Option<Reliability>, results: seq<SLIResult>)

  // ----- comparability -----

  predicate NotBlank(s: string)
  {
    TrimSpace(s) != ""
  }

  predicate Complete(c: Option<Comparability>)
  {
    && c.Some?
    && NotBlank(c.value.sliContractID) && NotBlank(c.value.subjectID)
    && NotBlank(c.value.windowID) && NotBlank(c.value.sourceConfigID)
  }

  /** Both identities are complete and agree on every coordinate. */
  predicate Comparable(a: Option<Comparability>, b: Option<Comparability>)
  {
    Complete(a) && Complete(b) && a == b
  }

  method ComparabilityEqual(a: Option<Comparability>, b: Option<Comparability>) returns (r: bool)
    ensures r <==> Comparable(a, b)
  {
    if !Complete(a) || !Complete(b) {
      return false;
    }
    var x, y := a.value, b.value;
    return x.sliContractID == y.sliContractID && x.subjectID == y.subjectID &&
      x.windowID == y.windowID && x.sourceConfigID == y.sourceConfigID;
  }

  predicate IsTrustCorrect(s: Summary)
  {
    s.schemaVersion == SCHEMA_TRUST
  }

  // ----- validity -----

  predicate AllowedStatus(s: string)
  {
    s in [STATUS_PASS, STATUS_WARN, STATUS_FAIL, STATUS_BLOCK, STATUS_SKIP]
  }

  predicate ReliabilityStatus(s: string)
  {
    Lower(TrimSpace(s)) in ["complete", "partial", "failed"]
  }

  predicate SupportedSchema(v: string)
  {
    v == SCHEMA_LEGACY || v == SCHEMA_TRUST
  }

  predicate UniqueIDs(results: seq<SLIResult>)
  {
    forall i, j :: 0 <= i < j < |results| ==> results[i].id != results[j].id
  }

  predicate ValidReliability(r: Reliability)
  {
    && (r.collectionStatus != "" ==> ReliabilityStatus(r.collectionStatus))
    && (r.evaluationStatus != "" ==> ReliabilityStatus(r.evaluationStatus))
  }

  predicate ValidSummary(s: Summary)
  {
    && SupportedSchema(s.schemaVersion)
    && s.generated
    && (forall r :: r in s.results ==> r.id != "" && AllowedStatus(r.status))
    && UniqueIDs(s.results)
    && (s.reliability.Some? ==> ValidReliability(s.reliability.value))
  }

  method Validate(s: Summary) returns (ok: bool)
    ensures ok <==> ValidSummary(s)
  {
    hide ReliabilityStatus, AllowedStatus;
    if !SupportedSchema(s.schemaVersion) || !s.generated {
      return false;
    }
    var seen: set<string> := {};
    for i := 0 to |s.results|
      invariant forall j :: 0 <= j < i ==> s.results[j].id != "" && AllowedStatus(s.results[j].status)
      invariant forall j, k :: 0 <= j < k < i ==> s.results[j].id != s.results[k].id
      invariant forall x :: x in seen <==> exists j :: 0 <= j < i && s.results[j].id == x
    {
      var r := s.results[i];
      assert r in s.results;
      if r.id == "" {
        return false;
      }
      if r.id in seen {
        var j :| 0 <= j < i && s.results[j].id == r.id;
        return false;
      }
      seen := seen + {r.id};
      if !AllowedStatus(r.status) {
        return false;
      }
    }
    if s.reliability.Some? {
      var rel := s.reliability.value;
      if rel.collectionStatus != "" && !ReliabilityStatus(rel.collectionStatus) {
        return false;
      }
      if rel.evaluationStatus != "" && !ReliabilityStatus(rel.evaluationStatus) {
        return false;
      }
    }
    return true;
  }

  // ----- values -----

  /** The last result with this id, as a map filled from the list holds it. */
  function LastRecord(results: seq<SLIResult>, id: string): Option<SLIResult>
  {
    if results == [] then None
    else if results[|results| - 1].id == id then Some(results[|results| - 1])
    else LastRecord(results[..|results| - 1], id)
  }

  /** The ids with a numeric value, with the value of their last numeric record. */
  function ValuesOf(results: seq<SLIResult>): map<string, real>
  {
    if results == [] then map[] else
    var last := results[|results| - 1];
    var m := ValuesOf(results[..|results| - 1]);
    if last.value.Some? then m[last.id := last.value.value] else m
  }

  method ResultValues(s: Summary) returns (m: map<string, real>)
    ensures m == ValuesOf(s.results)
  {
    m := map[];
    for i := 0 to |s.results|
      invariant m == ValuesOf(s.results[..i])
    {
      assert s.results[..i + 1][..i] == s.results[..i];
      if s.results[i].value.Some? {
        m := m[s.results[i].id := s.results[i].value.value];
      }
    }
    assert s.results[..|s.results|] == s.results;
  }

  lemma {:induction false} LastRecordUnique(results: seq<SLIResult>, i: nat)
    requires i < |results| && UniqueIDs(results)
    ensures LastRecord(results, results[i].id) == Some(results[i])
  {
    var n := |results| - 1;
    if i < n {
      assert results[i].id != results[n].id;
      LastRecordUnique(results[..n], i);
    }
  }

  lemma {:induction false} LastRecordNone(results: seq<SLIResult>, id: string)
    ensures LastRecord(results, id).None? <==> forall r :: r in results ==> r.id != id
    ensures LastRecord(results, id).Some? ==>
      LastRecord(results, id).value in results && LastRecord(results, id).value.id == id
  {
    if results != [] {
      var n := |results| - 1;
      LastRecordNone(results[..n], id);
      assert results == results[..n] + [results[n]];
    }
  }

  /** With unique ids the value map is the record's own value. */
  lemma {:induction false} ValuesOfUnique(results: seq<SLIResult>, id: string)
    requires UniqueIDs(results)
    ensures id in ValuesOf(results) <==>
      LastRecord(results, id).Some? && LastRecord(results, id).value.value.Some?
    ensures id in ValuesOf(results) ==>
      ValuesOf(results)[id] == LastRecord(results, id).value.value.value
  {
    if results != [] {
      var n := |results| - 1;
      ValuesOfUnique(results[..n], id);
      if results[n].id == id {
        LastRecordNone(results[..n], id);
        forall r | r in results[..n] ensures r.id != id {
          var j :| 0 <= j < n && results[..n][j] == r;
          assert results[j].id != results[n].id;
        }
      }
    }
  }
}
