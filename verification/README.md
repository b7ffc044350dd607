# kube-slint: identities, keys, baselines, the gate and publication

kube-slint measures service level indicators (SLIs) over a test run, stamps each result with a comparability
identity and grades the run against a policy and a baseline.  This project models the parts where the answer
depends on several components agreeing, and proves that they do.

- **Measurement** (`Measurement`, `Evaluation`, `Percentile`, `PointMeaning`, `WindowMeaning`): what one SLI evaluates
  to, from two snapshots or from the samples of a window, in every compute mode.  A number is an element of a totally
  ordered carrier (`real`); `add`, `sub` and `div` are unknown functions (`Selectors.Env`), so no proof can lean on a
  law of arithmetic that floating point does not have.  A Go string is a sequence of bytes, one character per byte.
- **Identity** (`Multiplicity`, `Identity`, `IdentityProperties`, `IdentitySoundness`, `IdentityExchange`,
  `PercentileCompleteness`, `IdentityCompleteness`, `ContractMeaning`): the contract identity of an SLI, the theorem
  that equal identities mean equal measured values, and exactly when the converse holds for exact inputs.
  `PairingAddition` is the addition that tells sums apart: all that is assumed of it is that it is commutative with
  unit 0.
- **Keys and text** (`PromKey`, `Selectors`, `Exposition`, `Aggregation`, their `…Properties`, `SelectorSpelling`,
  `CommutativeSpelling`, `SelectorAggregate`, `SelectorMeaning`, `PromKeyGrammar`): series keys with escapes,
  selectors, the Prometheus text-based exposition format 0.0.4 (section "Text format details"; the code also escapes
  tab and carriage return), and aggregation.
- **The engine** (`Engine`, `EngineProperties`, `EngineMeaning`): one run from the request to the written summary.
- **The gate** (`Policies`, `Evidence`, `Gate`, `GateRun`, `GateProperties`, `GateReasons`, `GateStatus`,
  `GateInterference`, `GateMeaning`): the decision procedure as it runs, and exactly what each grade, reason and
  status means.
- **Baseline merge** (`BaselineMerging`, `BaselineMergeProperties`, `BaselineMergeMeaning`, `BaselineMergeRun`): plan,
  in-place change, guards.
- **Publication** (`Sessions`, `SessionHistory`): audit files and the alias over any sequence of runs, in a directory
  where looking up, writing and removing may fail.
- **Composition** (`Composition`, `Provenance`): what it means that the gate compares two values, also with a baseline
  that was merged from many runs.

Loops of the program are methods with loops, proved equal to functions; the functions carry the theorems.  Objects
that the program updates in place (the reliability record, the summary under construction, the gate report, the
baseline, the artifacts directory) are classes.  A loop over a Go map takes its keys in an arbitrary order
(`Sorting.RangeKeys`), so each such method is proved to give one result for every order.

The modules named `…Meaning` state what an operation does on its inputs, in terms of their own rather than by the
functions that the loops are proved equal to: a swapped pair or a wrong branch in such a function contradicts them.

Regular expressions (compiling and matching), the digest and `strconv.ParseFloat` are parameters.  A theorem about
identities assumes that the digest does not collide on the two byte streams at hand, and nothing else about it.

`dafny verify --resource-limit 2000000 dfyconfig.toml` checks the whole project (Dafny 4.11).

## Findings

- `Canonicalize` (pkg/slo/common/promkey/promkey.go:73-79) is not idempotent on every token: `m {}` becomes `m` and a
  blank, and that becomes `m`; a tab before a comma makes the label name `a` come back as `,a` and then as `a`.
  `CanonicalIdempotentExact` says for every token whether it is.
- Two specs that measure the same value are promised one contract identity (pkg/slo/engine/comparability.go:117-119).
  The sum of `a` and `b` and the sum of `b` and `a` measure the same on every observation, since float addition is
  commutative with unit 0, and have two identities (`OneSumTwoIdentities`).  `ContractComplete`: for exact inputs and
  over all additions with these two laws, this family is the only one: specs measure the same iff they have one
  contract, or are point-mode specs whose input lists differ by an exchange of the first two.  Apart from the inputs,
  deltas without inputs measure the same under every reset policy and still have two identities (`ResetExact`).
- `Resolve` (pkg/slo/spec/selector.go:221-227) promises not to depend on how the fetcher serialises labels.  Three
  spellings of one series with the values 1, 2^53 and -2^53 sum to 0; with the last two values exchanged between their
  spellings, to 1 (`SpellingWitness`).  `CommutativeSpelling.SpellingExact`: over all additions that are commutative
  with unit 0, the promise holds for a snapshot and a summing selector iff, when values of 0 are dropped, the matched
  spellings of each series carry one value, or the series comes first and has exactly two.
- `Aggregate` (pkg/slo/fetch/promtext/aggregate.go:48-50) overwrites an existing entry when the name of a labelled
  series ends in a blank and that name is itself a key (`OddNameOverwrites`); `NothingOverwrittenExact` says when no
  entry changes, in particular when all keys are trimmed and not empty.  Such a name can also make a selector find its
  family only after aggregation (`OddNameStartsFamily`).
- Against a zero baseline the regression check (pkg/gate/regression.go:115-133) passes any non-zero value if higher is
  better and fails any if lower is better, also when the value is negative and so moved the other way:
  `ZeroBaselineRule` says exactly when it differs from the tolerance rule.
- `firstDuplicateID` (cmd/slint-gate/baseline_merge.go:262-274) reports a repeated blank ID as "no duplicate", and
  `LoadFile` does not validate IDs: `DuplicateGuardExact` says exactly which lists pass the guard.
- `baseline merge` (cmd/slint-gate/baseline_merge.go:103-109) grades the current summary without a baseline and
  requires PASS, so it always refuses under a policy that enables regression checks
  (`MergeNeedsRegressionDisabled`).
- A run can succeed and publish the alias without an audit file, against the comment at pkg/slint/session.go:598: with
  an artifacts directory of white space only (pkg/slint/session.go:307-309, `BlankDirectoryKeepsNoAudit`), and when
  the point fetch fails and the audit file cannot be written, because that write error is dropped
  (pkg/slo/engine/engine.go:189, `FailedFetchKeepsNoAudit`).  These are all cases: `Session.End` states that a reported
  summary has an audit file iff the directory is not blank and the write succeeded.
- The error return of `UnescapeLabelValue` in `parseLabels` (pkg/slo/common/promkey/promkey.go:102-105) and the
  incomplete-identity error in `Execute` (pkg/slo/engine/comparability.go:101-105) are unreachable.

## Model

| member | source | states |
|---|---|---|
| PromKey.EscapeLabelValue | pkg/slo/common/promkey/promkey.go:166-185 | the byte loop yields the escaped text on which the round trips below rest |
| PromKey.UnescapeLabelValue | pkg/slo/common/promkey/promkey.go:188-217 | the byte loop decodes pair by pair and fails exactly on a lone final backslash |
| PromKey.UnescapeEscape | pkg/slo/common/promkey/promkey.go:166-217 | unescaping an escaped value gives the value back, for every value |
| PromKey.EscapeInjective | pkg/slo/common/promkey/promkey.go:166-185 | no two values share an escaped text |
| PromKey.ParseLabels | pkg/slo/common/promkey/promkey.go:81-163 | the index-advancing scanner agrees with the recursive reading of the label block, errors included |
| PromKey.Parse | pkg/slo/common/promkey/promkey.go:17-41 | trimming, brace search, brace check and label scan, with each error case |
| PromKey.Format | pkg/slo/common/promkey/promkey.go:45-70 | one text for every order in which the label map is ranged over |
| PromKey.Canonicalize | pkg/slo/common/promkey/promkey.go:73-79 | parse then format, errors passed on |
| PromKeyGrammar.LabelsExact | pkg/slo/common/promkey/promkey.go:81-163 | a label block parses to these labels iff it is a list of written pairs (delimiters, key text, `=`, blanks, quoted raw text) that gives them, a repeated key keeping its last value |
| PromKeyGrammar.ParsedExact | pkg/slo/common/promkey/promkey.go:17-41 | a token parses to this series iff, trimmed, it is a non-empty text without a brace, or a name and such a block in braces |
| PromKeyProperties.UnescapeErrorUnreachable | pkg/slo/common/promkey/promkey.go:101-106 | no token makes parseLabels see an unescape error |
| PromKeyProperties.ParseFormat | pkg/slo/common/promkey/promkey.go:17-70 | parsing a formatted series gives the series back: all valid names, arbitrary label values |
| PromKeyProperties.ReparseExact | pkg/slo/common/promkey/promkey.go:17-163 | for everything the parser can yield: the round trip holds iff the bare name is trimmed and not empty, or with labels no label name starts with a comma |
| PromKeyProperties.CanonicalIdempotentExact | pkg/slo/common/promkey/promkey.go:73-79 | for every token: canonicalising twice equals once iff that condition holds |
| PromKeyProperties.CanonicalIdempotent | pkg/slo/common/promkey/promkey.go:73-79 | idempotent on every token that names a valid series |
| PromKeyProperties.CanonicalNotIdempotentOnOddNames | pkg/slo/common/promkey/promkey.go:73-79 | a concrete token of each kind on which it is not: a trailing blank, and a label name with a leading comma |
| PromKeyProperties.FormatInjective | pkg/slo/common/promkey/promkey.go:45-70 | two parsed series with one canonical key are equal, so canonical keys can stand for series |
| Exposition.FindLabelBlockEnd | pkg/slo/fetch/promtext/parse.go:95-112 | the quote-flag scan finds the first closing brace outside quotes |
| Exposition.SplitMetricLine | pkg/slo/fetch/promtext/parse.go:75-89 | key token and value text of a line, with and without labels |
| Exposition.ParseTextToMap | pkg/slo/fetch/promtext/parse.go:23-63 | the line loop: skipped lines, errors, over-long lines, later lines overwrite |
| ExpositionProperties.SplitPrinted | pkg/slo/fetch/promtext/parse.go:75-112 | the split finds exactly a printed key, whatever blanks, braces, quotes or backslashes its values hold |
| ExpositionProperties.ReadDocument | pkg/slo/fetch/promtext/parse.go:23-63 | reading a printed document gives the readings of its sample lines, in order |
| ExpositionProperties.ReadExact | pkg/slo/fetch/promtext/parse.go:30-54 | a document of well-formed lines is read iff every value token parses; one that does not makes the whole read fail |
| ExpositionProperties.JunkSkipped | pkg/slo/fetch/promtext/parse.go:36-49 | a line without a key token, with a key that does not parse, or without a value is skipped |
| ExpositionProperties.LongLineFails | pkg/slo/fetch/promtext/parse.go:27-28 | after readable lines, a line of 1048576 bytes or more makes the whole read fail |
| ExpositionProperties.ExpositionRoundTrip | pkg/slo/fetch/promtext/parse.go:23-112 | printing any map of valid series, in any order, with comments and blank lines, and reading it gives back exactly the map |
| Aggregation.Aggregate | pkg/slo/fetch/promtext/aggregate.go:22-52 | the three loops give one map for every iteration order, over exact reals |
| Aggregation.AggregateAddsSums | pkg/slo/fetch/promtext/aggregate.go:22-52 | on every snapshot: a name gains exactly the sum of its additive series iff it has some and no bare series; every other entry and every additive series stays |
| Aggregation.AggregateMeaning | pkg/slo/fetch/promtext/aggregate.go:22-52 | under every name, on the parsed keys: the sum of the labelled series of that name without an `le` or `quantile` label, if there are some and no unlabelled one; else what was there |
| Aggregation.NothingOverwrittenExact | pkg/slo/fetch/promtext/aggregate.go:48-50 | no entry changes iff no summed name is a key with another value; it is enough that the keys are trimmed and not empty |
| Aggregation.SummedKeysAreOdd | pkg/slo/fetch/promtext/aggregate.go:22-52 | a summed name that is a key already is empty or not trimmed |
| Aggregation.ProperNamesAreNew | pkg/slo/fetch/promtext/aggregate.go:22-52 | with valid names every summed name is a new key and no entry changes |
| Aggregation.OddNameOverwrites | pkg/slo/fetch/promtext/aggregate.go:48-50 | a concrete snapshot whose entry is overwritten |
| Aggregation.AggregateIdempotent | pkg/slo/fetch/promtext/aggregate.go:22-52 | aggregating twice equals aggregating once, on every snapshot |
| SelectorAggregate.SumsNotSelected | pkg/slo/spec/selector.go:50-52 | on every snapshot, a valid selector selects exactly the same series with the same values before and after aggregation |
| SelectorAggregate.ResolveIgnoresSums | pkg/slo/spec/selector.go:228-279 | hence resolving on the aggregated snapshot gives the same value, keys or error; valid names are needed only if the selector asks for its family |
| SelectorAggregate.OddNameStartsFamily | pkg/slo/spec/selector.go:243-268 | a concrete odd name with which the family is present only after aggregation |
| Selectors.Validate | pkg/slo/spec/selector.go:178-219 | accepts exactly the valid selectors, unique matcher names included |
| Selectors.CanonicalKey | pkg/slo/spec/selector.go:136-174 | the builder writes the key of the sorted matchers |
| Selectors.Resolve | pkg/slo/spec/selector.go:228-301 | for every map order one outcome, the one that ResolveMeaning states on the parsed series |
| SelectorMeaning.ResolveMeaning | pkg/slo/spec/selector.go:221-301 | on the parsed series: the returned keys are exactly those of the metric whose labels every matcher accepts, `=` by equality and `=~` by the expression, in canonical order, and the value is their sum from the left; what each error says about the snapshot |
| SelectorProperties.CanonicalKeyExact | pkg/slo/spec/selector.go:136-174 | valid selectors share a key iff metric, aggregation, empty policy and matcher set agree |
| SelectorProperties.SameKeySameResolution | pkg/slo/spec/selector.go:136-279 | equal keys resolve alike on every snapshot |
| SelectorProperties.IdentityKeyExact | pkg/slo/spec/selector.go:319-327 | identity keys are injective on exact keys and never meet selector keys |
| SelectorSpelling.ResolveIgnoresSpelling | pkg/slo/spec/selector.go:221-279 | snapshots that match one to one by identity with equal values: same value or same error, with addition uninterpreted, if matched spellings of one series agree or the selector does not aggregate |
| SelectorSpelling.UnsharedIgnoresSpelling | pkg/slo/spec/selector.go:221-279 | in particular whenever no snapshot names a series twice |
| CommutativeSpelling.SettledIgnoresSpelling | pkg/slo/spec/selector.go:221-279 | under commutative addition with unit 0 the outcome is the same also if only the first two non-zero summands are spellings of one series with different values |
| CommutativeSpelling.SpellingShows | pkg/slo/spec/selector.go:221-279 | on every other snapshot some exchange of two values of one series changes the result, under some such addition |
| CommutativeSpelling.SpellingExact | pkg/slo/spec/selector.go:221-279 | per selector and snapshot: every one-to-one respelling has the same outcome under every such addition iff the selector does not aggregate or, among the non-zero values, the spellings of each series agree or are the first two and no more |
| SelectorSpelling.Spellings | pkg/slo/common/promkey/promkey.go:81-116 | a series with one label keeps its meaning under any number of trailing commas |
| SelectorSpelling.SharedSpellingOrdersSum | pkg/slo/spec/selector.go:249-278 | three matched keys of which two name one series: the sum follows the order of the spellings |
| SelectorSpelling.SpellingWitness | pkg/slo/spec/selector.go:221-279 | a concrete snapshot that resolves to 0 and its respelling that resolves to 1, under float addition |
| SelectorSpelling.FloatAddLaws | pkg/slo/spec/selector.go:274-277 | the addition of the witness is commutative with unit 0, so it is associativity that fails |
| Multiplicity.GcdInt | pkg/slo/engine/comparability.go:228-233 | Euclid's loop computes the gcd |
| Multiplicity.GcdIsGreatest | pkg/slo/engine/comparability.go:228-233 | it divides both arguments and every common divisor divides it |
| Multiplicity.GcdScale | pkg/slo/engine/comparability.go:228-233 | gcd(k*a, k*b) = k * gcd(a, b) |
| Multiplicity.NormalizePercentileMultiplicity | pkg/slo/engine/comparability.go:196-225 | counting, dividing and expanding over maps gives one list for every map order |
| Multiplicity.NormalScales | pkg/slo/engine/comparability.go:196-225 | a key list is a replication of its normal form, up to order |
| Multiplicity.NormalExact | pkg/slo/engine/comparability.go:201-233 | two lists normalise alike iff a replication of one is a permutation of a replication of the other |
| Percentile.Pick | pkg/slo/engine/engine.go:629-640 | nearest rank on the sorted pool |
| Percentile.PercentileReplication | pkg/slo/engine/comparability.go:196-200 | the k-fold pool has the same percentiles, for every k >= 1, rank and non-empty pool |
| Percentile.PercentilePermutation | pkg/slo/engine/engine.go:629-640 | a percentile depends on the multiset of the pool only |
| Measurement.ValidateSelectors | pkg/slo/spec/selector.go:348-366 | accepts exactly the specs whose selectors are valid for their mode |
| Measurement.ResolveSelectorInput | pkg/slo/engine/engine.go:442-509 | only the needed snapshots are resolved, and delta needs the same series in both |
| Measurement.EvalSLI | pkg/slo/engine/engine.go:341-438 | the point modes: sums in input order, missing inputs, counter resets, judging |
| PointMeaning.PointResultMeaning | pkg/slo/engine/engine.go:341-509 | on the two snapshots: which inputs are missing; single and start sum the start snapshot, end sums the end snapshot, delta is the end sum less the start sum; what each reset policy makes of a negative delta; the judged status |
| PointMeaning.SameSeriesMeaning | pkg/slo/engine/engine.go:461-497 | a delta without aggregation needs one and the same parsed series in both snapshots |
| PointMeaning.UnknownMode | pkg/slo/engine/engine.go:421-426 | any other mode measures nothing |
| Measurement.WindowValues | pkg/slo/engine/engine.go:601-627 | the pool over all samples and the inputs seen in none |
| Measurement.WindowRatio | pkg/slo/engine/engine.go:642-665 | the quotient of the totals of the first two inputs over the window, and each reason for no ratio |
| Measurement.EvalWindowSLI | pkg/slo/engine/engine.go:511-578 | the window modes and every skip; WindowResultMeaning states the values on the samples |
| WindowMeaning.WindowResultMeaning | pkg/slo/engine/engine.go:511-578 | on the inputs and samples: `window_min` is the least and `window_max` the greatest observation, `window_avg` the sum of all in order over their number, the percentiles as below, `window_ratio` the quotient of the totals of the first two inputs; no value iff an input is in no sample, there is no input, or the ratio is undefined |
| WindowMeaning.PercentileMeaning | pkg/slo/engine/engine.go:629-640 | the percentile is an observation such that at least p percent are at most it and fewer than p percent are below it |
| Measurement.Judge | pkg/slo/engine/engine.go:676-713 | fail rules before warn rules, else pass |
| PointMeaning.JudgeMeaning | pkg/slo/engine/engine.go:676-713 | fail iff a rule of level fail holds, else warn iff one of level warn holds, where an operator holds as its characters say |
| Evaluation.Evaluate | pkg/slo/engine/engine.go:226-239 | one SLI on everything a run may have fetched |
| Evaluation.SkippedIffNoValue | pkg/slo/engine/engine.go:341-578 | a result is skipped iff it has no value; missing inputs leave none; the status is always a valid one |
| Identity.DedupSorted | pkg/slo/engine/comparability.go:237-248 | the sorted list of the distinct keys |
| Identity.CanonicalInputKeys | pkg/slo/engine/comparability.go:165-194 | the canonical key list per mode |
| Identity.WriteField | pkg/slo/engine/comparability.go:294-297 | extends the stream by one length-prefixed field |
| Identity.SliContractID | pkg/slo/engine/comparability.go:121-141 | the digest of exactly the contract fields, the reset field only for delta |
| Identity.WindowID | pkg/slo/engine/comparability.go:284-290 | the digest of the folded mode and the caller's window |
| IdentityProperties.EncodeInjective | pkg/slo/engine/comparability.go:292-297 | equal byte streams have equal field lists |
| IdentityProperties.ContractIDExact | pkg/slo/engine/comparability.go:121-141 | equal identities iff equal id, unit, kind, folded mode, reset effect and canonical keys |
| IdentityProperties.WindowIDExact | pkg/slo/engine/comparability.go:284-290 | equal window identities iff equal folded mode and window |
| ContractMeaning.ContractCoordinates | pkg/slo/engine/comparability.go:110-194 | one contract identity iff id, unit and kind agree, the modes are equal or both single or start, for delta both policies or neither clear the value, and the inputs are one for the mode |
| ContractMeaning.WindowCoordinates | pkg/slo/engine/comparability.go:256-290 | one window identity iff the modes are equal or both single or start, and the windows are equal |
| ContractMeaning.ResetExact | pkg/slo/engine/comparability.go:263-275 | deltas of exact inputs that differ in the reset policy only share a contract iff they measure the same, unless they have no inputs |
| IdentityProperties.CanonicalKeysExact | pkg/slo/engine/comparability.go:143-194 | for every mode: equal canonical keys iff equal as sets (extremes), proportional (percentiles), same head and set (ratio) or equal |
| IdentitySoundness.PointSound | pkg/slo/engine/engine.go:341-438 | point modes: equal contracts give equal values and equal skips on every pair of snapshots |
| IdentitySoundness.PoolWeight | pkg/slo/engine/engine.go:601-627 | the pool as a multiset: every observation of a key once per occurrence of the key |
| IdentitySoundness.SamePercentile | pkg/slo/engine/comparability.go:196-225 | proportional key lists have equal pool percentiles on all samples |
| IdentitySoundness.WindowSound | pkg/slo/engine/engine.go:511-665 | window modes: equivalent key lists give equal values and equal skips on all samples |
| IdentitySoundness.IdentitySound | pkg/slo/engine/comparability.go:110-194 | two validated specs with one contract identity have the same value and are skipped alike, in every mode, whatever was fetched |
| PercentileCompleteness.BinaryPercentile | pkg/slo/engine/engine.go:629-640 | the percentile of a pool of zeros and ones is 0 iff the zeros fill the rank |
| PercentileCompleteness.PercentilesTell | pkg/slo/engine/comparability.go:196-225 | key lists in different proportion have different percentiles on some samples |
| PairingAddition.ExchangeUnseen | pkg/slo/engine/comparability.go:162-164 | a sum from the left does not show an exchange of its first two summands, under any addition that is commutative with unit 0 |
| PairingAddition.TotalInjective | pkg/slo/engine/comparability.go:162-164 | under one such addition equal sums have equal summands in the same order, up to that exchange |
| IdentityExchange.ExchangeSound | pkg/slo/engine/engine.go:341-438 | point-mode specs, of exact keys or selectors, that differ by an exchange of the first two inputs measure the same on all snapshots, under every such addition |
| IdentityExchange.OneSumTwoIdentities | pkg/slo/engine/comparability.go:117-119 | the sum of two keys and the sum of the exchanged keys measure the same on all observations and have two identities |
| IdentityCompleteness.InputsTell | pkg/slo/engine/comparability.go:143-164 | in every mode, exact inputs that are neither equivalent nor exchanged sums measure differently on some observations, under exact subtraction and division and some addition that is commutative with unit 0 |
| IdentityCompleteness.ContractComplete | pkg/slo/engine/comparability.go:117-164 | specs of exact inputs that agree otherwise measure the same on all observations under every such addition iff they have one contract or are exchanged sums |
| IdentityCompleteness.IdentityExact | pkg/slo/engine/comparability.go:117-164 | hence they measure the same iff they have one contract identity or are exchanged sums |
| Summaries.Validate | pkg/slo/summary/schema.go:76-108 | accepts exactly the valid summaries, unique ids included |
| Summaries.ComparabilityEqual | pkg/slo/summary/schema.go:235-251 | true iff both identities are complete and agree in every coordinate |
| Summaries.ResultValues | pkg/slo/summary/schema.go:258-266 | the last numeric value of every id |
| Summaries.ValuesOfUnique | pkg/slo/summary/schema.go:258-266 | with unique ids: the value of the record itself, and no entry without one |
| Engine.ValidateProtectedSpecIDs | pkg/slo/engine/comparability.go:56-68 | accepts exactly the lists with unique and non-blank ids |
| Engine.ValidateRequest | pkg/slo/engine/engine.go:47-68 | the first error of the request, in the order of the checks |
| Engine.ReliabilityRecord.EvaluateSLIs | pkg/slo/engine/engine.go:217-252 | every spec in order; skips recorded in order, missing inputs once each |
| Engine.ReliabilityRecord.EvaluateRun | pkg/slo/engine/engine.go:87-115 | the record after the evaluation, from the record after the fetches |
| Engine.RunSummary.ApplyTrustContract | pkg/slo/engine/comparability.go:79-108 | stamps each result in place with the identity of its spec; fails iff a coordinate is blank or a result has no spec |
| Engine.IdentityComplete | pkg/slo/engine/comparability.go:95-103 | a derived identity is complete whenever the caller's coordinates are |
| Engine.Execute | pkg/slo/engine/engine.go:46-212 | refuses bad requests before anything else; afterwards only an unwritable summary is an error, and not after a failed point fetch; the emitted summary and record are those that RunMeaning and RecordMeaning state on the fetched snapshots and samples |
| EngineProperties.VersionExact | pkg/slo/engine/comparability.go:21-29 | from a fresh record: slo.v4 iff a trust contract was given and collection did not fail |
| EngineProperties.IdentityIffTrusted | pkg/slo/engine/comparability.go:79-108 | every v4 result carries the complete identity of its spec, no v3 result carries any |
| EngineProperties.ValidExact | pkg/slo/summary/schema.go:76-108 | an emitted summary is valid iff the point fetch failed or the spec ids are neither empty nor repeated |
| EngineProperties.TrustedIsValid | pkg/slo/engine/comparability.go:50-68 | every v4 summary is valid |
| EngineProperties.SkippedExact | pkg/slo/engine/engine.go:240-246 | SkippedSLIs are exactly the ids of the results without a value |
| EngineProperties.EvidenceAgrees | pkg/gate/evidence.go:26-75 | in a run that did not fail the gate has sufficient evidence for exactly the SLIs the engine gave a value, and takes that value |
| EngineMeaning.RequestMeaning | pkg/slo/engine/engine.go:46-68 | which requests are refused and with which first reason: unset times, a coordinate of white space, a blank or repeated id, an invalid selector |
| EngineMeaning.RunMeaning | pkg/slo/engine/engine.go:46-252 | on what the fetchers returned: every SLI in order, described by its spec and measured on the start and the end snapshot or on the samples as stated above; no results and a failed collection when a needed snapshot is missing; a failed collection when needed samples are |
| EngineMeaning.ExactPointValue | pkg/slo/engine/engine.go:142-177 | a point mode over exact keys: the total of the start snapshot, of the end snapshot, or the latter less the former; no value if a key is not in both |
| EngineMeaning.RecordMeaning | pkg/slo/engine/engine.go:217-252 | the record of a run: skipped SLIs, missing inputs, collection and evaluation status |
| EngineMeaning.FailedRecordMeaning | pkg/slo/engine/engine.go:184-191 | a failed point fetch changes nothing else of the record |
| EngineMeaning.IdentityCoordinates | pkg/slo/engine/comparability.go:88-106 | every v4 result carries the contract and window of its spec and the caller's subject, source and window extent |
| Policies.ValidatePolicy | pkg/gate/policy.go:83-156 | accepts exactly the valid policies |
| Policies.MakePromotionSet | pkg/gate/policy.go:158-181 | the promoted conditions: those listed, or all three when nothing is listed |
| Evidence.NewEvidenceIndex | pkg/gate/evidence.go:26-42 | an index that answers every question as the summary does |
| Evidence.IndexAnswers | pkg/gate/evidence.go:49-75 | sufficient iff the run did not fail and the last record of the id is unskipped, misses no input and has a value; else the reason |
| GateRun.GateSummary.AddCode | pkg/gate/gate.go:215-222 | appends a reason code unless it is there |
| GateRun.GateSummary.RunThresholds | pkg/gate/threshold.go:8-89 | extends the report by one check per rule and returns the flags; ChecksMeaning states the checks on the values |
| GateRun.GateSummary.RunRegression | pkg/gate/regression.go:11-151 | each early exit, then one comparison per rule |
| GateRun.GateSummary.RunReliability | pkg/gate/reliability.go:18-80 | the reliability check, its reason and the measurement status |
| GateRun.GateSummary.RecordProducerDiagnostics | pkg/gate/gate.go:145-166 | one informational check per result whose status is neither pass nor empty |
| GateRun.GateSummary.RunCoverage | pkg/gate/coverage.go:12-60 | one check per measured SLI with evidence that nothing covers |
| GateRun.GateSummary.Evaluate | pkg/gate/gate.go:24-135 | the report object after the whole evaluation, for all inputs |
| GateProperties.GradeExact | pkg/gate/gate.go:24-56 | FAIL iff a promoted condition is met; else NO_GRADE iff something required cannot be graded; PASS iff inputs are valid and every rule, reliability, coverage and regression condition holds; else WARN |
| GateMeaning.GradeMeaning | pkg/gate/gate.go:24-58 | each of the four grades iff its condition on the policy, the two summaries and their values |
| GateMeaning.CompareOpMeaning | pkg/gate/threshold.go:91-111 | a supported operator admits a value iff the value is less, greater or equal and the operator holds that character |
| GateMeaning.OperatorCharacters | pkg/gate/regression.go:167-195 | lower is better iff the operator admits lesser values, higher is better iff it admits greater ones |
| GateMeaning.EvidenceMeaning | pkg/gate/evidence.go:49-75 | a value is evidence iff neither status is failed, the id is not skipped, and the last record under it has the value and no missing input |
| GateMeaning.ChecksMeaning | pkg/gate/threshold.go:8-89 | the report starts with one check per rule: pass iff satisfied, fail iff missed, no grade iff without evidence, with the measured value |
| GateMeaning.RegressionChecksMeaning | pkg/gate/regression.go:91-165 | one regression check per rule follows: pass iff the value is not worse than the baseline beyond the tolerance, fail iff it is, no grade iff the two cannot be compared |
| GateMeaning.OtherChecksMeaning | pkg/gate/coverage.go:12-60 | every result whose status is neither pass nor empty has an info check, and every gap its coverage check |
| GateMeaning.ReliabilityCheckMeaning | pkg/gate/reliability.go:18-69 | one reliability check: no grade for a failed run, a warning below the minimum level, else pass |
| GateMeaning.StatusesMeaning | pkg/gate/gate.go:84-143 | policy, measurement and baseline status iff their conditions on the inputs |
| GateProperties.ThresholdFlags | pkg/gate/threshold.go:8-111 | the flags: some rule misses, some rule lacks evidence |
| GateProperties.RegressionFlags | pkg/gate/regression.go:11-151 | the flags in terms of baseline presence, contracts, identities and values |
| GateProperties.RegressionMeaning | pkg/gate/regression.go:157-206 | the percentage comparison without the division |
| GateProperties.ZeroBaselineRule | pkg/gate/regression.go:117-139 | exactly when the rule of the code differs from the tolerance rule |
| GateProperties.ZeroBaselineCounterexample | pkg/gate/regression.go:117-139 | concrete values on which it does |
| GateProperties.CoverageFlags | pkg/gate/coverage.go:12-60 | the flags: some measured SLI with evidence is not covered |
| GateReasons.ReasonsExact | pkg/gate/gate.go:215-222 | every reason code is given once, and iff its cause holds |
| GateReasons.VerdictExplained | pkg/gate/gate.go:24-56 | every verdict but PASS has a reason; a PASS mentions at most an unreadable baseline that was not asked for |
| GateStatus.EvaluationStatusExact | pkg/gate/gate.go:170-183 | not evaluated iff inputs are unusable, partial iff something asked for cannot be graded, else evaluated |
| GateInterference.ProducerNonInterference | pkg/gate/gate.go:137-166 | summaries that agree on ids, values, missing inputs, identities and reliability get the same report up to diagnostics |
| BaselineMerging.LoadMetricDirections | cmd/slint-gate/baseline_diff.go:142-160 | the loop builds the map of directions |
| BaselineMerging.DirectionMeaning | cmd/slint-gate/baseline_diff.go:152-158 | a metric has a direction iff some rule gives it one, and the last such rule decides which |
| BaselineMerging.ComputeMergePlan | cmd/slint-gate/baseline_merge.go:164-245 | for every map order: the new numeric records in id order, the updated ids with their current records, the rejected ids; with unique current ids the appended list is determined |
| BaselineMerging.IDOrderUnique | cmd/slint-gate/baseline_merge.go:241-243 | with unique ids there is one permutation in id order, so the unstable sort is determined |
| BaselineMerging.Baseline.ReconcileSkippedSLIs | cmd/slint-gate/baseline_merge.go:343-373 | redecided markers from the current run, the others kept, sorted and without repeats; untouched when there is nothing to do |
| BaselineMerging.Baseline.ApplyMergePlan | cmd/slint-gate/baseline_merge.go:290-336 | the baseline becomes exactly the merged summary |
| BaselineMergeProperties.MergedUnique | cmd/slint-gate/baseline_merge.go:164-336 | the result is duplicate-free, keeps every baseline id in place and adds exactly the new numeric ids |
| BaselineMergeProperties.AppendKeepsExisting | cmd/slint-gate/baseline_merge.go:251-260 | append-new-only changes no existing record, marker or evidence |
| BaselineMergeProperties.ReviewChangesOnlyImprovements | cmd/slint-gate/baseline_merge.go:251-260 | review-existing replaces a record iff the current value strictly improves on it in its direction |
| BaselineMergeMeaning.MergedRecordMeaning | cmd/slint-gate/baseline_merge.go:164-260 | on the rules and the values: what becomes of each record in each mode; under review it is replaced iff the last rule with a direction for its metric admits lesser values and the new value is less, or greater ones and it is greater |
| BaselineMergeMeaning.ImprovementMeaning | cmd/slint-gate/baseline_merge.go:375-388 | an improvement lies strictly beyond the old value in the direction of that rule's operator |
| BaselineMergeMeaning.BetterKeepsRule | cmd/slint-gate/baseline_merge.go:375-388 | a replacement never breaks a rule of that direction that the old value satisfied |
| BaselineMergeMeaning.AppendedMeaning | cmd/slint-gate/baseline_merge.go:164-190 | the appended records are the numeric ones of the current run under new ids, in id order |
| BaselineMergeMeaning.RejectedMeaning | cmd/slint-gate/baseline_merge.go:192-247 | rejected are a different value that is not taken, and under review a value where the baseline has none |
| BaselineMergeMeaning.MarkerMeaning | cmd/slint-gate/baseline_merge.go:290-373 | a skip marker follows the current run iff a numeric current record was added or taken under the id |
| BaselineMergeMeaning.RunIsInformed | cmd/slint-gate/baseline_merge.go:140-144 | a run that reviews takes its directions from the thresholds of its own policy, as the statements above assume |
| BaselineMergeMeaning.MergeableMeaning | cmd/slint-gate/baseline_merge.go:103-150 | the merge goes ahead iff the current run passes, the versions agree and no repeated id is found |
| BaselineMergeProperties.ForceReplaceExact | cmd/slint-gate/baseline_merge.go:164-373 | force-replace: numeric current SLIs get exactly the current record and marker, all others keep theirs |
| BaselineMergeProperties.ForceReplaceEvidence | pkg/gate/evidence.go:26-75 | the gate sees the current evidence on every replaced SLI when neither run failed |
| BaselineMergeProperties.MergeIdempotent | cmd/slint-gate/baseline_merge.go:164-373 | in every mode merging the same run again changes nothing |
| BaselineMergeProperties.MergeKeepsValid | pkg/slo/summary/schema.go:76-108 | merging valid summaries yields a valid baseline |
| BaselineMergeRun.FirstDuplicateID | cmd/slint-gate/baseline_merge.go:265-274 | the id at the first position that repeats an earlier id, or the empty string |
| BaselineMergeRun.DuplicateGuardExact | cmd/slint-gate/baseline_merge.go:262-274 | the guard passes iff ids are unique or a blank id is the first to be repeated |
| BaselineMergeRun.BlankDuplicateAccepted | cmd/slint-gate/baseline_merge.go:262-274 | two records without an id pass the guard |
| BaselineMergeRun.RunMerge | cmd/slint-gate/baseline_merge.go:103-150 | refuses and changes nothing, or makes the merged summary, iff no guard refuses |
| BaselineMergeRun.MergeNeedsRegressionDisabled | cmd/slint-gate/baseline_merge.go:103-109 | the merge can only proceed under a policy without regression checks |
| BaselineMergeRun.ForceReplaceHasNoRegression | pkg/gate/regression.go:91-151 | after a force-replace the same run regresses on no rule it measured with evidence and a complete identity |
| Composition.EvidenceOrigin | pkg/gate/evidence.go:49-75 | the evidence of a trusted run is the value the engine computed for the one spec with that id, under that spec's identity |
| Composition.OnlyTheSameIsCompared | pkg/gate/regression.go:91-151 | when the gate grades a rule against a baseline made of trusted runs, both values come from specs that measure the same thing over the same window of the same subject and source |
| Provenance.MergedEvidence | cmd/slint-gate/baseline_merge.go:290-373 | sufficient evidence of a merged baseline, with its identity, is that of the old baseline or of the merged run |
| Provenance.MergedIsMadeOf | cmd/slint-gate/baseline_merge.go:60-158 | a baseline after any chain of merges in any modes is made of the merged runs |
| Provenance.MergedBaselineComparesTheSame | pkg/gate/regression.go:91-151 | after any chain of merges the gate compares only values that measure the same thing |
| Sessions.SanitizeFilename | pkg/slint/sanitize.go:11-26 | never empty, at most 120 bytes, none of the replaced bytes |
| Sessions.SanitizedBytes | pkg/slint/sanitize.go:11-26 | byte for byte: the first 120 bytes of the trimmed text, each of the ten replaced bytes turned into `_` |
| Sessions.PerRunNames | pkg/slint/session.go:547-552 | no per-run path is the alias, and each lies in the directory itself |
| Sessions.Disk.NextPath | pkg/slint/session.go:311-323 | ends on every finite directory, at the first candidate that does not exist |
| Sessions.Disk.InvalidateStaleAlias | pkg/slint/session.go:480-490 | the alias is gone and the error unchanged, or the error says that it could not be removed |
| Sessions.Session.End | pkg/slint/session.go:493-618 | all files but the alias are kept; the alias is this run's summary, or absent with an error, or stuck with an error; a reported summary has an audit file iff the directory is not blank and its write succeeded; when the run succeeds, and which error it returns otherwise; failure is recorded exactly on errors of started runs |
| Sessions.BlankDirectoryKeepsNoAudit | pkg/slint/session.go:307-309 | a directory of white space only: success, the alias published, no audit file |
| Sessions.FailedFetchKeepsNoAudit | pkg/slo/engine/engine.go:184-191 | a failed point fetch and a failed audit write: success, the alias published, no audit file |
| SessionHistory.AuditHistory | pkg/slint/session.go:522-555 | over any sequence of runs no file but the alias is changed or removed |
| SessionHistory.AuditsComplete | pkg/slint/session.go:522-555 | every audit file written holds its run's summary at the end, and no two runs wrote the same file |
| SessionHistory.NoStaleAlias | pkg/slint/session.go:466-490 | after any sequence the alias, if any, is the last publishing run's summary, unless that run reported that removal failed |

## Left out

- Fetchers, kubectl, HTTP, pods, timers, redaction and the strictness, gating and dangerous-namespace checks: I/O or single branches; fetches, writes and the two caller checks are inputs.
- JSON and YAML decoding, real files, fsync and rename: the model starts from decoded policies and summaries; a failed write may leave anything at its own path, and its temporary files are not modelled.
- SHA-256 and its truncation: the digest is a parameter, assumed only not to collide on the two streams compared.
- Float parsing, rounding, NaN and infinities: numbers are reals with uninterpreted operations in the engine; the gate, the merge and aggregation compare and compute on exact reals.
- Regular expressions: compiling and matching are parameters.
- Letter case outside ASCII in `strings.ToLower` and `strings.EqualFold`: only ASCII letters are folded.
- Texts: messages, expectations and reasons are reduced to their fixed parts; the printed merge review and its formatted rejections are left out, the rejected ids are kept as a set.
- The difference between nil and empty slices in `reflect.DeepEqual`: records are compared as values; an equal record that is refreshed is the same record.
- Summary.Fields, tags, run configuration, warnings, time stamps, skew, latency and the confidence score: they carry no decision.
- Concurrent sessions on one directory: the histories are sequential.
- Profiles, presets, reports, SARIF, the dataplane package and the command line: settled by single branches.
- IdentityCompleteness.ContractComplete: for exact inputs and the known modes, because two different selectors can match the same series on every snapshot, and an unknown mode measures nothing; the additions are those with the two laws, of which float64 addition is one.
- SelectorSpelling.SpellingWitness: float addition is modelled for integers up to 2^54 in magnitude only.
