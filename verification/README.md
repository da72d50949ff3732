# Verified model of the financial product finder

The repository answers Korean questions about bonds, ETFs and funds. A language
model only parses the question and phrases the answer; everything in between is
ordinary code: validation and compilation of the query, ranking, federation,
merging, caching, the answer decision, evidence checks, the serialised context
and the answer guard. Beside it, source files are ingested into a versioned
store. This project models that code in Dafny and proves what each step keeps
and what holds over whole runs.

`dafny verify dfyconfig.toml` checks every file.

| file | component |
|---|---|
| `Text`, `Splitting`, `QuestionText` | strings; joining and cutting apart; the whitespace-normal form of a question |
| `LinearCongruence`, `DeterministicEmbedding` | the embedding generator |
| `Query`, `QueryValidator`, `ValidationCodes`, `LikePattern`, `FilterCompiler`, `FilterMeaning` | the query contract, its validation, compilation, and what compiled filters select |
| `RetrievalModels`, `StableSort`, `Ranking`, `CandidateRanking`, `ProductRepository`, `QueryResults`, `ResultOrder`, `FederatedMerger` | rows, candidates, ranking, top-k, the whole query result and its order, round robin |
| `ResultMerger`, `MergeMeaning`, `CandidateMerger`, `PolicyEngine`, `Orchestrator`, `RunOutcomes` | merging on values and on objects, what a merge keeps, decisions, the orchestrator, what whole runs select |
| `VersionedCache`, `CachedPipeline`, `InterleavedCalls` | the two caches, behind calls in sequence and behind calls that interleave |
| `EvidenceBuilder`, `RowEvidence`, `EvidenceManager`, `EvidencePipeline`, `DecimalText` | evidence bundles, what they show of a row, their validation, the final decision, the texts of stored numbers |
| `ContextSerializer`, `ContextHeader`, `ContextLines`, `ContextBudget`, `Utf8` | the context text, reading it back, its budget in bytes |
| `AnswerGuard`, `TokenPositions`, `Patterns`, `AnswerService` | the guard, its tokens by position and its regular expressions, the whole answer |
| `Scenarios` | two concrete runs through the whole answer path |
| `Readiness` | the double-checked lock |
| `SourceFiles`, `SourceKeys`, `SourceValidator`, `SourceFaults`, `DatasetStore`, `RawIngestion`, `DatasetVersions`, `DatasetHistory` | source keys, source validation and what it reports, batched ingestion, data set versions |

Candidates, the readiness service, the caches and the database session are
classes with the fields that the code updates; loops are methods with
invariants, each proved against a function, and the properties are lemmas about
these functions. `View()` and `Views(...)` are the values of candidate objects
at one moment.

## What is assumed of the outside

- SHA-256 and JSON encoding are injective, so payloads, manifests and specs
  stand for their hashes, and the normal form of a question for its hash.
- Metric values, coordinates and times are exact numbers.
- The language model, the retrievers, the field registry, column resolution,
  `str.upper`, case folding, the database's order and equality of values, the rendering of numbers, the iteration order of
  sets and the failures of database statements are parameters, arbitrary unless
  a lemma says otherwise.
- Strings are sequences of Unicode scalar values.

## Properties that hold only under a condition

The code is modelled as it is. Where a promise fails, a lemma gives the exact
condition, and another one a concrete input:

- A validated query on several families may fail to compile, because
  validation asks for one family that has the field and compilation runs for
  each (`FilterCompiler.ValidatedFiltersCompileExactlyWhen`,
  `FilterCompiler.ValidatedMultiFamilyMayFail`).
- The filter for unusable metrics runs after Pareto selection. A query returns
  the frontier of its usable rows exactly when no usable row is dominated only
  by rows with a flagged zero (`QueryResults.ParetoPostFilterExactlyWhen`); a
  zero-coupon bond and another bond give an empty result
  (`QueryResults.ParetoPostFilterLosesEverything`).
- MISSING_RANK_METRIC counts the unusable candidates exactly when no usable one
  is off the frontier (`QueryResults.ExclusionsAreUnusableExactlyWhen`); of two
  usable bonds the dominated one is counted
  (`QueryResults.DominatedBondIsCountedAsMissing`).
- `sort_candidates` puts candidates without a value of the first sort field last
  exactly under ASC, or when under DESC every present value is positive, or zero
  and ahead by the later fields and the source key
  (`QueryResults.MissingLastExactlyWhen`); a negative return comes behind a
  missing one (`QueryResults.MissingBeforeLoss`). A query drops candidates
  without a sort value afterwards.
- RELATION_INTERSECT backs every merged candidate by an evidence exactly when
  some evidence names a product or there is no candidate
  (`ResultMerger.IntersectionIsBackedExactlyWhen`); a relation between companies
  intersects nothing (`ResultMerger.CompanyRelationIntersectsNothing`).
- PRE_ANSWER reaches the caller exactly for some explained terms and aggregates
  (`AnswerService.PreAnswerEscapesExactlyWhen`); then, and only then, a text
  that fails the guard can be shown (`AnswerService.ShownTextPassesExactlyWhen`).
  A term with one document is such a run (`Scenarios.ExplanationIsShownUnguarded`).
- Escaping the context is undone exactly for strings in which no backslash
  precedes an n (`ContextSerializer.EscapeRoundTripExactlyWhen`,
  `ContextSerializer.BackslashNIsLost`). A header can be
  read back exactly when its table and its uid, which are inserted unescaped,
  hold no bar that separates, and neither they nor the key end in a backslash
  (`ContextHeader.HeaderReadsBackExactlyWhen`,
  `ContextHeader.UidWithBarDoesNotReadBack`). The sections of a bundle, its
  fields and its document references read back exactly when what is written
  unescaped holds no separator of theirs
  (`ContextLines.BundleReadsBackExactlyWhen`,
  `ContextLines.FieldReadsBackExactlyWhen`,
  `ContextLines.RelationDocReadsBackExactlyWhen`); a value with a time of day
  does not (`ContextLines.TimeDoesNotReadBack`).
- The truncation line is not budgeted: the context is larger than its budget
  exactly when something is cut and that line does not fit behind the rest
  (`ContextSerializer.OverBudgetExactlyWhen`), and by no more than one such line
  (`ContextSerializer.ExcessIsBounded`). Eight relations with long links exceed
  the default budget (`ContextBudget.DefaultBudgetIsExceeded`).
- The caches are invisible exactly when the versions in the key determine the
  runs and normal forms the answers, to calls in sequence and in every
  interleaving (`InterleavedCalls.SchedulesAreTransparentExactlyWhen`). The
  external version is the hash of a file, so relations that are loaded into the
  database after a question stay hidden from it
  (`Scenarios.RelationsLoadedLater`).
- Key parts are joined by bars, unescaped. Two rows have the same key exactly
  when the texts between all bars agree, so for parts without a bar exactly when
  the parts agree (`SourceKeys.KeysAgreeExactlyWhen`); two rows of two fields
  each with different parts and one key exist (`SourceKeys.BarsCollide`).
- A version label can be ingested once: the foreign keys keep a superseded
  version from being deleted and the unique label keeps a changed manifest out
  (`DatasetHistory.ActivatesExactlyWhen`,
  `DatasetHistory.KnownLabelIsRefusedExactlyWhen`). One file with a changed hash
  is refused, and one whose version was superseded
  (`DatasetHistory.ChangedManifestIsRefused`,
  `DatasetHistory.SupersededManifestIsRefused`).
- The reload after the commit can fail. A run raises although its version is
  committed and active exactly when that reload is the first statement to fail
  (`DatasetVersions.IngestManifest`, `DatasetHistory.CommittedButRaised`,
  `DatasetHistory.OneBondActivates`).

## Model

| member | source | states |
|---|---|---|
| LinearCongruence.FullPeriod | app/embedding/deterministic.py:20-21 | for a multiplier 1 mod 4 and an odd increment, the values at two positions agree in their k low bits exactly when the positions do |
| DeterministicEmbedding.FullPeriod | app/embedding/deterministic.py:20-21 | with the code's constants and 31-bit mask, no window of up to 31 low bits repeats early |
| DeterministicEmbedding.StateRepeats | app/embedding/deterministic.py:20-21 | a state comes back exactly every 2^31 steps |
| DeterministicEmbedding.StatesDistinct | app/embedding/deterministic.py:20-22 | the 1024 states of one call differ pairwise, even modulo 1024, for every starting seed |
| DeterministicEmbedding.EveryResidueTaken | app/embedding/deterministic.py:20-22 | every residue modulo 1024 is taken by one of the states |
| DeterministicEmbedding.CoordinateSteps | app/embedding/deterministic.py:22 | coordinates go from -1 to 1 in equal steps, from the least state to the largest |
| DeterministicEmbedding.CoordinateNonZero | app/embedding/deterministic.py:22 | a raw coordinate lies in [-1, 1] and is never zero |
| DeterministicEmbedding.RawIsPositive | app/embedding/deterministic.py:23 | the norm is positive, so the division is defined |
| DeterministicEmbedding.SumSquaresAppend | app/embedding/deterministic.py:23 | the squares of all coordinates are summed |
| DeterministicEmbedding.UnitLength | app/embedding/deterministic.py:23-24 | dividing by the norm gives length one |
| DeterministicEmbedding.Embed | app/embedding/deterministic.py:16-24 | for every 64-bit seed the loop yields exactly 1024 non-zero coordinates of a unit vector |
| LikePattern.EscapedPatternMatchesSubstrings | app/retrieval/filter_compiler.py:13-21 | the LIKE matcher accepts a text against % + escape(v) + % exactly when v occurs in it, so every special character is literal |
| LikePattern.EscapingNeededExactlyWhen | app/retrieval/filter_compiler.py:13-21 | without the escape the pattern means containment exactly for texts without %, _ and backslash |
| QueryValidator.ValidateQuerySpec | app/query/validator.py:29-37 | the walkers produce exactly the specified issues, in order |
| QueryValidator.ValidateFamilySupport | app/query/validator.py:150-170 | a known field that no selected family has is reported, except for an unsupported prediction |
| ValidationCodes.ReportedExactlyWhen | app/query/validator.py:46-378 | an issue is reported exactly when the spec gives a reason for its code, and it can be asked about exactly when the code is not a final one |
| ValidationCodes.StopsExactlyWhen | app/agent/policy_engine.py:103-153 | a run abstains early exactly for a prediction or a final fault, asks exactly for another fault or an ambiguous entity, and goes on otherwise |
| ValidationCodes.AbstentionReasons | app/agent/policy_engine.py:60-153 | an early abstention says that a field is not available exactly for unknown or rank-blocked fields, and that validation failed exactly for unfilterable fields and markers |
| ValidationCodes.QuestionReasons | app/agent/policy_engine.py:103-153 | an early question asks for an order, a target or a product scope exactly when that is missing, and for filters exactly for every other fault |
| QueryValidator.NoIssueExactlyWhenAcceptable | app/query/validator.py:46-378 | no issue is reported exactly for specs of an allowed shape whose fields exist and are supported, whose filters are well typed, whose rank fields are free and whose texts hold no marker |
| FilterCompiler.BuildSafePlan | app/retrieval/filter_compiler.py:24-51 | a plan with the spec's clauses in order is built exactly when no preference or sort field is rank blocked; the error names such a field |
| FilterCompiler.CompileFiltersOk | app/retrieval/filter_compiler.py:109-114 | all filters compile exactly when each one does |
| FilterCompiler.ValidatedFiltersCompileExactlyWhen | app/retrieval/filter_compiler.py:54-106 | for a validated spec, compilation for a family raises exactly when a filtered field lacks the family or a column, or a CONTAINS carries no string |
| FilterCompiler.ValidatedSingleFamilyCompiles | app/retrieval/filter_compiler.py:24-114 | a validated executable single-family spec never fails in the plan or the compilation |
| FilterCompiler.ValidatedMultiFamilyMayFail | app/query/validator.py:160 | with two families a spec without issues fails to compile for one of them |
| FilterMeaning.CompiledContains | app/retrieval/filter_compiler.py:99-104 | a compiled CONTAINS selects exactly the cells in which the text occurs, up to case folding |
| FilterMeaning.CompiledClauseSelects | app/retrieval/filter_compiler.py:54-106 | a clause that compiles is a condition on its own column that selects a cell exactly when the clause's operator holds of it, for all nine operators and with NULL cells |
| FilterMeaning.CompiledFiltersSelect | app/retrieval/filter_compiler.py:54-114 | one condition per clause, in order, and a row is kept by all of them exactly when it meets every clause |
| FilterMeaning.ValidatedQuerySelects | app/retrieval/filter_compiler.py:24-114 | a validated query on one family compiles and reads exactly the rows that meet every clause |
| StableSort.SortIgnoresOrder | app/retrieval/ranking.py:57 | with distinct keys the stable sort depends only on the multiset of its input |
| StableSort.SortFilter | app/retrieval/ranking.py:57 | filtering a sorted list is sorting the filtered one |
| StableSort.SortIsStable | app/retrieval/ranking.py:57 | items of the same key keep their order |
| ResultOrder.SortsGoByPriority | app/retrieval/ranking.py:29-34 | the sorts that are applied are a permutation of the plan's, a smaller priority before a larger one and none as 10000, and those of one priority in the plan's order |
| Ranking.KeyOrderMeaning | app/retrieval/ranking.py:43-57 | on complete candidates the sort keys compare as the directed values do, in sort order, then the source keys |
| Ranking.DominanceStrictPartialOrder | app/retrieval/ranking.py:65-83 | dominance is irreflexive, asymmetric and transitive |
| Ranking.FrontierCovers | app/retrieval/ranking.py:86-98 | every complete candidate is on the frontier or dominated by one that is |
| Ranking.FrontierIsExact | app/retrieval/ranking.py:86-102 | the frontier is exactly the undominated complete candidates and is not empty when one is complete |
| CandidateRanking.ComputeDominates | app/retrieval/ranking.py:65-83 | the flag loop decides dominance |
| CandidateRanking.LexicographicSort | app/retrieval/ranking.py:42-62 | the candidates come out in key order, with ranks from one and a reason where there was none, updated in place |
| CandidateRanking.SelectUndominated | app/retrieval/ranking.py:92-98 | the nested loops keep exactly the candidates that no eligible one dominates |
| CandidateRanking.ParetoFrontier | app/retrieval/ranking.py:86-102 | the frontier in source-key order, each with the frontier reason |
| CandidateRanking.ParetoSelect | app/retrieval/ranking.py:105-107 | the frontier, sorted lexicographically |
| CandidateRanking.SortCandidates | app/retrieval/ranking.py:20-39 | the path taken follows from priorities and the Pareto flag, in place; what the paths give is stated by the rows of ResultOrder |
| ProductRepository.BuildCandidate | app/data/repositories.py:62-97 | one fresh candidate per row with the row's identity, its flags, its source key as tie break, and the present metrics of the requested fields in order |
| ProductRepository.MetricsAreFromRow | app/data/repositories.py:73-97 | the metrics are exactly the row's present values of the requested fields, flagged exactly when a zero stands in a flagged row |
| ProductRepository.QueryProducts | app/data/repositories.py:59-133 | the batch holds the first `limit` of the ranked usable candidates, and rows are either kept or counted as excluded |
| ProductRepository.SortThenFilterIsFilterThenSort | app/data/repositories.py:100-117 | on the lexicographic path the unusable candidates do not influence the order of the others |
| ProductRepository.TopOfUsable | app/data/repositories.py:100-119 | the result is the true top-k: exactly the usable candidates, ordered by directed values then source key, cut at the limit |
| ResultOrder.PriorityDecides | app/data/repositories.py:100-119 | on the lexicographic path, of two usable candidates the one comes first that is better in a sort which goes ahead of every sort in which the other one is better |
| ResultOrder.CandidateRanksByItsRow | app/data/repositories.py:62-98 | what ranking compares is the number in the row's own column, and the row's source key |
| ResultOrder.BetterRowComesFirst | app/data/repositories.py:59-119 | the same top-k statement on rows: the usable row that is better in the deciding sort comes first |
| ResultOrder.RowDominatesExactlyWhen | app/retrieval/ranking.py:65-83 | dominance of candidates is that of their rows: a number for every sort, none worse and one better in the sort's direction |
| ResultOrder.RowIsReturnedExactlyWhen | app/data/repositories.py:59-117 | on the Pareto path a row is returned, before the limit, exactly when it has a number for every sort, none of them a flagged zero, and no row dominates it |
| ResultOrder.FrontierComesInOrder | app/retrieval/ranking.py:86-107 | the Pareto path returns its candidates by the directed values in the plan's order of sorts, then by source key |
| ResultOrder.RankedMarks | app/retrieval/ranking.py:57-62 | ranks count from one, in order, and each candidate has exactly one reason, that of the path taken |
| ProductRepository.UsableIsComplete | app/data/repositories.py:107-115 | with numeric metrics a usable candidate has every sort value |
| ProductRepository.RowOrderIrrelevant | app/retrieval/ranking.py:42-62 | with distinct source keys the order of the rows does not matter |
| QueryResults.ResultIsUsablePool | app/data/repositories.py:100-119 | before the limit a query returns, as a multiset, exactly the usable candidates of the frontier or of all rows |
| QueryResults.RowOrderIrrelevantToResult | app/data/repositories.py:100-117 | with distinct source keys the whole result, on both paths, is the same for every order of the rows |
| QueryResults.ExclusionsAreUnusableExactlyWhen | app/data/repositories.py:117-124 | the exclusion count is the number of unusable candidates exactly when no usable one is off the frontier |
| QueryResults.DominatedBondIsCountedAsMissing | app/data/repositories.py:117-124 | two usable bonds, one dominated by the other: one exclusion is counted although no candidate is unusable |
| QueryResults.MissingLastExactlyWhen | app/retrieval/ranking.py:42-57 | for any sort fields, the candidates without a value of the first one come last exactly under ASC or when every present value is positive, or zero and ahead by the later fields and the source key |
| QueryResults.MissingBeforeLoss | app/retrieval/ranking.py:46-50 | under DESC an ETF without a return is ranked before one that lost |
| QueryResults.RowUsableExactlyWhen | app/data/repositories.py:73-116 | a row is usable exactly when it has every sort value and is not a flagged row with a zero sort value |
| QueryResults.ParetoPostFilterExactlyWhen | app/data/repositories.py:59-117 | over all plans and rows: the query returns exactly the frontier of its usable rows if and only if no usable row is dominated by flagged zeros only |
| QueryResults.NoFlaggedZeroIsRight | app/data/repositories.py:100-117 | without a flagged zero the late filter does no harm |
| QueryResults.ParetoPostFilterLosesEverything | app/data/repositories.py:100-117 | two bonds, one of them usable, for which the query returns nothing |
| FederatedMerger.FamiliesInOrder | app/retrieval/federated_merger.py:32-34 | the families take turns in the query's order, each with its last batch, and those without a batch are left out |
| FederatedMerger.TakenByTurns | app/retrieval/federated_merger.py:35-50 | how often each family was taken after any number of turns |
| FederatedMerger.Fair | app/retrieval/federated_merger.py:35-50 | a family taken less often than a later one, or by more than one less often than an earlier one, is exhausted |
| FederatedMerger.TurnsInOrder | app/retrieval/federated_merger.py:38-46 | each family gives a prefix of its batch, in order |
| FederatedMerger.RoundRobin | app/retrieval/federated_merger.py:31-51 | the loop ends with exactly min(limit, total) candidates, those of the fair schedule, each with one more reason |
| FederatedMerger.MergeCrossFamily | app/retrieval/federated_merger.py:17-51 | with a comparable metric the pooled candidates in source-key order, otherwise the round robin |
| FederatedMerger.PooledFromAllBatches | app/retrieval/federated_merger.py:24-27 | what is pooled is every candidate of every batch |
| FederatedMerger.PooledInOrder | app/retrieval/federated_merger.py:28-29 | pooling keeps the first ones, up to the limit, of all of them in the order of their tie-break keys |
| FederatedMerger.CountsAreSums | app/retrieval/federated_merger.py:75-76 | the counts before and after the filter are sums over the batches |
| FederatedMerger.SummedCountsBalance | app/retrieval/federated_merger.py:67-77 | summed over batches, filtered rows are kept or excluded, and candidates do not exceed those kept |
| CandidateMerger.MergeStringLists | app/agent/merger.py:112-119 | the left list followed by the new items of the right one |
| MergeMeaning.MergedStrings | app/agent/merger.py:112-119 | the left list followed by what is new in the right one, each once and in order of first occurrence: exactly the union |
| CandidateMerger.DedupeCandidates | app/agent/merger.py:93-109 | the first object of each uid absorbs the later ones in place |
| ResultMerger.DedupeByUid | app/agent/merger.py:93-109 | uids are distinct afterwards and none is lost |
| MergeMeaning.DedupeUnites | app/agent/merger.py:93-109 | one candidate per uid in order of first occurrence: the first one, with the union of all reasons and of all flags, and the last metrics there are |
| CandidateMerger.EnrichRelated | app/agent/merger.py:42-55 | related candidates in set order, with the reasons of their SQL counterparts first |
| CandidateMerger.MergeRetrievalResults | app/agent/merger.py:8-90 | the merge on objects has the specified value in every mode; what that value is, is stated by the rows of MergeMeaning |
| MergeMeaning.PlainMerge | app/agent/merger.py:17-71 | without an intersection the SQL candidates are kept, or the relation's when there are none, as they are when their uids are distinct |
| MergeMeaning.IntersectionKeepsNamed | app/agent/merger.py:31-56 | when a named product has a relation candidate, exactly the named ones with such a candidate are kept, with its metrics and flags and the union of both candidates' reasons |
| MergeMeaning.IntersectionKeepsSql | app/agent/merger.py:57-62 | otherwise exactly the named SQL candidates, in SQL order and unchanged |
| MergeMeaning.MergedLists | app/agent/merger.py:17-90 | relations, documents and warnings of all results in the order SQL, relation, document, and the SQL aggregate |
| ResultMerger.MergedUidsDistinct | app/agent/merger.py:71-80 | merged uids are pairwise distinct and count_final is their number |
| ResultMerger.IntersectionIsBacked | app/agent/merger.py:31-62 | in RELATION_INTERSECT with a product uid, every merged candidate has a merged relation evidence |
| ResultMerger.SetOrderIrrelevant | app/agent/merger.py:31-46 | the merged candidates are the same for every iteration order of the uid set |
| ResultMerger.IntersectionIsBackedExactlyWhen | app/agent/merger.py:31-64 | in RELATION_INTERSECT every merged candidate has a merged relation evidence exactly when some evidence names a product or there is no candidate |
| ResultMerger.CompanyRelationIntersectsNothing | app/agent/merger.py:39-64 | one SQL candidate and one relation between companies: the candidate stays, unbacked |
| PolicyEngine.PlanRetrievers | app/agent/policy_engine.py:25-57 | which retrievers run for which intent and filters, in which order, and that only the relation retriever of a term explanation is optional |
| PolicyEngine.MergeModeExactly | app/agent/policy_engine.py:60-68 | which specs intersect and which read documents alone |
| PolicyEngine.EarlyDecision | app/agent/policy_engine.py:103-153 | a run goes on exactly without issues, ambiguity or a prediction; otherwise it asks, or abstains exactly when something cannot be asked for |
| PolicyEngine.SplitCandidatesByQuality | app/agent/policy_engine.py:266-300 | the free and the blocked candidates, in order, none lost |
| PolicyEngine.PreliminaryShape | app/agent/policy_engine.py:156-247 | what is selected are the free candidates' uids, and exactly when PRE_ANSWER selects nothing |
| PolicyEngine.PreliminaryReason | app/agent/policy_engine.py:156-247 | a preliminary decision gives one reason: evidence is ready, or what was missing |
| PolicyEngine.AbstainsExactlyWhen | app/agent/policy_engine.py:156-247 | per intent, which merged results lead to an abstention |
| PolicyEngine.SelectedAreCandidates | app/agent/policy_engine.py:237-240 | selected uids are distinct and each is a merged candidate's |
| Orchestrator.Retrieve | app/agent/orchestrator.py:185-220 | the retriever loop, with its trace and its exceptions |
| Orchestrator.RunSpecUncached | app/agent/orchestrator.py:150-259 | a run behind the cache lookup is validation, retrieval, merge and decision in this order |
| Orchestrator.StoppedRunReadsNothing | app/agent/orchestrator.py:165-184 | a run that validation stops keeps the early decision and has read nothing |
| Orchestrator.CompletedRunMergesWhatItRead | app/agent/orchestrator.py:185-258 | every other completed run merges what its planned retrievers found, each as its own, in the spec's mode, decides on the merged result, and traces every stage with its name and count |
| RunOutcomes.ProductSearchSelectsWhatSqlFound | app/agent/orchestrator.py:150-259 | a product search without relations selects exactly the unblocked candidates that the SQL retriever found, in its order, and abstains when there are none |
| RunOutcomes.RelationSearchSelectsNamed | app/agent/orchestrator.py:150-259 | a product search by relations that name a found product selects exactly the products that the relation retriever found, the evidence names and nothing blocks |
| Orchestrator.ResultsReachTheirSlots | app/agent/orchestrator.py:189-208 | each planned retriever's result is merged as its own, and nothing else is |
| Orchestrator.RaisesExactlyWhen | app/agent/orchestrator.py:189-200 | a run raises exactly when it is executed and a required retriever fails |
| Orchestrator.CompletedRunsAreWellFormed | app/agent/orchestrator.py:165-258 | a completed run stopped with ASK or ABSTAIN, or was decided on merged results with distinct uids |
| Orchestrator.OrchestratorIsTransparent | app/agent/orchestrator.py:119-259 | with retrievers that follow the versions and the rule parser's view of a question, every call of every sequence and of every interleaving returns what an uncached orchestrator would |
| Scenarios.RelationsLoadedLater | app/api/answer.py:66-80 | a question asked before the relation data is loaded is answered from the cache afterwards, with the old abstention, while a run would select a product |
| Scenarios.ExplanationIsShownUnguarded | app/evidence/answer_service.py:114-169 | the explanation of one named term, with one document, completes in PRE_ANSWER with the empty context, and after two empty texts the shown one fails the guard |
| CachedPipeline.MemoisedPipeline.RunWithSpec | app/agent/orchestrator.py:136-148 | a hit is moved to the end and returned, a completed run is put, a failure is not |
| CachedPipeline.MemoisedPipeline.RunWithQuestion | app/agent/orchestrator.py:119-134 | the parse is cached under the normal form, then the run |
| CachedPipeline.SpecStepIsTrace | app/agent/orchestrator.py:136-148 | what a call does to the run cache is a lookup of its key, and a put exactly when nothing was found and the run completed |
| CachedPipeline.CachesAreTraces | app/agent/orchestrator.py:119-148 | after any calls each cache is what some trace of lookups and puts leaves, so the trace results below hold of it |
| CachedPipeline.ResponsesKeepVersions | app/agent/orchestrator.py:119-259 | over all call sequences and without assumptions, a value was computed for this spec under these versions, and a failure is this call's own |
| CachedPipeline.TransparentExactlyWhen | app/agent/orchestrator.py:119-259 | for every capacity, caching is invisible over all call sequences exactly when versions determine completed runs and normal forms determine answers |
| InterleavedCalls.EverySchedule | app/agent/orchestrator.py:119-259 | for any number of calls, in every order of their segments, the caches hold only what a started call parsed or computed, and every finished call's answer keeps its versions |
| InterleavedCalls.SequentialIsASchedule | app/agent/orchestrator.py:119-148 | calls that run one after another are one of these schedules, with the same caches and responses |
| InterleavedCalls.SchedulesAreTransparentExactlyWhen | app/agent/orchestrator.py:119-259 | caching is invisible in every schedule exactly when it is invisible to calls in sequence |
| VersionedCache.BoundedVersionedCache.Create | app/core/cache.py:55-60 | a bound below one is refused |
| VersionedCache.BoundedVersionedCache.Get | app/core/cache.py:62-66 | the value if present, then most recent |
| VersionedCache.BoundedVersionedCache.Put | app/core/cache.py:68-72 | the key becomes the most recent and the oldest entries beyond the bound go |
| VersionedCache.BoundedVersionedCache.Replay | app/core/cache.py:52-75 | any sequence of get, put and clear leaves the items over which the trace results below are proved |
| VersionedCache.Inclusion | app/core/cache.py:52-75 | over all traces, the recency list at a smaller capacity is a subsequence of that at a larger one |
| VersionedCache.RunKeysDistinct | app/core/cache.py:68-72 | keys stay distinct and the size never exceeds the bound |
| VersionedCache.HitIsLatestPut | app/core/cache.py:62-72 | a hit returns the value put last for the key |
| VersionedCache.ItemsByLastUse | app/core/cache.py:62-72 | entries are always in order of last use |
| VersionedCache.EvictsLeastRecentlyUsed | app/core/cache.py:68-72 | what a put evicts was used less recently than everything else |
| QuestionText.NormalFormsAgree | app/core/cache.py:12-16 | the split-and-join form equals the rule parser's collapse-and-strip form on every string |
| QuestionText.NormalFormIdempotent | app/core/cache.py:12-16 | normalising twice changes nothing |
| QuestionText.RulesSeeNormalForm | app/query/korean_rule_parser.py:17-19 | the rules are given the normal form that the cache hashes, and nothing is parsed when it is empty |
| QuestionText.SameCacheKeySameParse | app/query/korean_rule_parser.py:17-19 | questions with the same cache key hash input get the same rule-parser result |
| EvidenceBuilder.IndexRelations | app/evidence/builder.py:61-68 | the dictionary holds, per owner, its evidence in order |
| EvidenceBuilder.BuildEvidenceBundles | app/evidence/builder.py:22-58 | one bundle per selected uid that is a candidate |
| EvidenceBuilder.BundlesFollowSelection | app/evidence/builder.py:37-58 | the bundles' uids are the known selected uids in order |
| EvidenceBuilder.BundleContents | app/evidence/builder.py:37-57 | a bundle is that of a selected candidate |
| RowEvidence.CandidateBlockedExactlyWhen | app/agent/policy_engine.py:266-300 | a row's candidate is blocked exactly when the row is contaminated or the query reads a flagged zero from it |
| RowEvidence.BundleShowsRow | app/evidence/builder.py:71-119 | a bundle shows its row's identity and exactly the present values of the requested fields, with unit, source field and flags |
| RowEvidence.ItemsShowRelations | app/evidence/builder.py:61-104 | the relations of a bundle are exactly the evidence about its product, each with its ends, document, publisher, link and date as retrieved |
| EvidenceBuilder.ItemsMembers | app/evidence/builder.py:61-68 | a product's evidence is exactly the relation evidence that names it |
| EvidenceManager.ValidateRelationshipEvidence | app/evidence/manager.py:42-60 | the first item without a frozen document raises |
| EvidenceManager.ValidateBundle | app/evidence/manager.py:114-156 | the checks of a bundle against its row, in order |
| EvidenceManager.Validate | app/evidence/manager.py:62-112 | outcomes, bundles, reasons and warnings of the whole loop, and exactly when an exception escapes it |
| EvidenceManager.AcceptedExactlyWhen | app/evidence/manager.py:114-167 | every bundle is accepted exactly when a row of the version supports its name and every value and every relation has its document |
| EvidenceManager.FailureExactly | app/evidence/manager.py:114-167 | why a bundle is dropped: the first of the checks that fails, and for which field |
| EvidenceManager.CrashesExactlyWhen | app/evidence/manager.py:114-156 | the check raises exactly for a bundle with a field, of a stored row of that name, whose uid names no family before its colon |
| EvidenceManager.ValidationTells | app/evidence/manager.py:74-112 | validation passes exactly with an accepted bundle or none at all, missing external evidence is reported exactly when a bundle that its row supports lacks a document, and quality warnings are those of the accepted bundles |
| EvidenceManager.NoCrashForFamilyUids | app/evidence/manager.py:143 | no exception escapes when uids begin with a family name |
| EvidenceManager.FinalizeDecision | app/agent/orchestrator.py:59-96 | what remains of the selection, with counts and reasons |
| EvidenceManager.FinalReasons | app/agent/orchestrator.py:72-96 | exactly which reasons a final decision carries |
| EvidencePipeline.KeptOrDropped | app/evidence/manager.py:74-112 | every known selected uid is validated or dropped exactly once |
| EvidencePipeline.SelectionIsConserved | app/agent/orchestrator.py:59-96 | the final uids are the validated bundles' uids in order, selected plus removed is the preliminary count, and the state is ANSWER exactly when a bundle survives |
| EvidencePipeline.EveryAnswerIsEvidencedExactlyWhen | app/evidence/builder.py:47-50 | every finally selected uid has a bundle exactly when every selected uid is a candidate |
| EvidencePipeline.DecidedSelectionIsConserved | app/evidence/answer_service.py:85-96 | the same from the merged results on, with distinct uids |
| EvidencePipeline.UnchangedRowIsAccepted | app/evidence/manager.py:137-156 | for any two renderings, the evidence of a candidate built from a row that is still stored is accepted exactly when its values render alike and its relations have documents |
| DecimalText.FormatFDenotes | app/evidence/builder.py:127-128 | the builder's text of a Decimal denotes its value, sign, digits and places |
| DecimalText.StrDenotes | app/evidence/manager.py:170-175 | the manager's text denotes it too, with a power of ten where it has one |
| DecimalText.TextsAgreeExactlyWhen | app/evidence/builder.py:122-129 | the two texts agree exactly for exponents that are not positive and digits that begin at most five zeros behind the point |
| DecimalText.UnchangedRowIsAcceptedExactlyWhen | app/evidence/manager.py:170-175 | with the code's renderings, and columns of at most six decimal places each, unchanged evidence is accepted exactly when its relations have documents |
| ContextSerializer.SerializeBundle | app/evidence/serializer.py:40-88 | the line of a bundle |
| ContextSerializer.SerializeRetrievedContext | app/evidence/serializer.py:6-37 | the context, with its meta line |
| ContextSerializer.BundlesInUidOrder | app/evidence/serializer.py:16 | the bundles are written in the order of their uids, each once |
| ContextSerializer.ContentIsLongestPrefix | app/evidence/serializer.py:16-30 | the included bundles are the longest prefix in uid order that fits, and so are the relations behind them |
| ContextSerializer.ContentIsBundlesThenRelations | app/evidence/serializer.py:16-30 | the content is a prefix of the bundle lines followed by a prefix of the relation lines |
| ContextSerializer.NothingIsCutExactlyWhen | app/evidence/serializer.py:16-30 | all lines are included exactly when all of them together fit the budget |
| ContextSerializer.ContextIsWholeOrCut | app/evidence/serializer.py:6-37 | the whole text: every line when they fit together, else the content and one line with both counts, which counts relations as included but not as original |
| ContextSerializer.OverBudgetExactlyWhen | app/evidence/serializer.py:32-37 | the text exceeds its budget exactly when something is cut and the truncation line does not fit behind the rest |
| ContextSerializer.ExcessIsBounded | app/evidence/serializer.py:32-37 | the text exceeds its budget by at most a newline and a truncation line that counts everything as included |
| Utf8.CharBytesExactly | app/evidence/serializer.py:19 | a character counts as many bytes as the one UTF-8 sequence of RFC 3629 that stands for it |
| Utf8.LengthOfEncoding | app/evidence/serializer.py:19 | a text counts as many bytes as its encoding has |
| Text.DigitsReadBack | app/evidence/serializer.py:33 | a written count is read back as the number, without leading zeros |
| ContextBudget.DefaultBudgetIsExceeded | app/evidence/serializer.py:6-37 | eight relations whose documents have long links give a context of 8049 bytes under the default budget of 8000 |
| ContextSerializer.ContentWithinBudget | app/evidence/serializer.py:16-30 | what precedes the meta line never exceeds the byte budget |
| ContextSerializer.BundleOrderIrrelevant | app/evidence/serializer.py:16 | the context is the same for every order of bundles with distinct uids |
| ContextSerializer.EmptyContextExactlyWhen | app/evidence/serializer.py:32-37 | the empty context is exactly that of no bundle and no relation |
| ContextSerializer.EscapeIsOnePass | app/evidence/serializer.py:113-114 | the three replacements act as one pass |
| ContextSerializer.EscapeRoundTripExactlyWhen | app/evidence/serializer.py:113-114 | unescaping gives the string back exactly when no backslash precedes an n |
| ContextSerializer.BackslashNIsLost | app/evidence/serializer.py:113-114 | a backslash and an n read back as a newline |
| ContextSerializer.EscapedAlikeExactlyWhen | app/evidence/serializer.py:113-114 | two strings look the same exactly when they differ at most in newlines written as backslash n |
| ContextHeader.HeaderReadsBackExactlyWhen | app/evidence/serializer.py:40-44 | for every bundle, its header splits into table, key, uid and name exactly when table and uid hold no separating bar and none of table, key and uid ends in a backslash |
| ContextHeader.UidWithBarDoesNotReadBack | app/evidence/serializer.py:42-43 | a uid whose product number holds a bar does not read back |
| ContextLines.BundleReadsBackExactlyWhen | app/evidence/serializer.py:40-90 | a bundle's text is cut into header, fields, flags, reasons and references exactly when no newline stands in what is written unescaped, and each list is cut into its items exactly when none holds its separator; an empty one is "none" |
| ContextLines.FieldReadsBackExactlyWhen | app/evidence/serializer.py:46-52 | a field is cut into name and column, value and unit, date and flags exactly when none of them holds a colon |
| ContextLines.TimeDoesNotReadBack | app/evidence/serializer.py:46-52 | a value with a time of day does not read back |
| ContextLines.RelationDocReadsBackExactlyWhen | app/evidence/serializer.py:64-76 | a document reference is cut into its six parts exactly when the unescaped ones hold no separating bar and none in front of a bar ends in a backslash |
| ContextLines.DocumentDocReadsBackExactlyWhen | app/evidence/serializer.py:77-89 | the same for a document of its own |
| ContextLines.RelationReadsBackExactlyWhen | app/evidence/serializer.py:93-110 | the same for a standalone relation with its type and its ends |
| AnswerGuard.GuardAnswer | app/evidence/answer_guard.py:20-62 | the guard passes exactly the acceptable texts, and reports exactly the broken rules: each reason code and each offending span |
| AnswerGuard.TokensExistExactlyWhen | app/evidence/answer_guard.py:50 | the regular expression finds a token exactly when a colon stands between a head and a tail character |
| Patterns.FutureAssertionIsFound | app/evidence/answer_guard.py:17-42 | the guard sees a future assertion exactly where the regular expression, given by its own semantics, has a match |
| Patterns.SpansAreMatches | app/evidence/answer_guard.py:50 | the spans that tokens are made of are exactly the matches of the regular expression |
| TokenPositions.TokensAreAllMatches | app/evidence/answer_guard.py:50 | the tokens are the matches in the text, from left to right, apart, each maximal on both sides, and every colon that could carry a match lies in one |
| TokenPositions.AllMatchesAreTokens | app/evidence/answer_guard.py:50 | no other list of spans has these properties |
| TokenPositions.StandaloneRunIsToken | app/evidence/answer_guard.py:50 | a run with nothing of a match in front of it is a token, wherever it stands |
| TokenPositions.UnknownUidIsRefused | app/evidence/answer_guard.py:44-53 | a text with such a run that is no bundle's uid and no end of a relation is refused |
| TokenPositions.TokensAllowedExactlyWhen | app/evidence/answer_guard.py:44-53 | the token rule holds exactly when every matched span is an allowed name |
| AnswerGuard.FallbackPassesExactlyWhen | app/evidence/answer_service.py:235-241 | the fixed text passes exactly in ANSWER, ASK and ABSTAIN, unless it contains a bundled product's name |
| AnswerService.ReachStage | app/evidence/answer_service.py:82-115 | the branches to the final decision, and exactly when an exception leaves them |
| AnswerService.RaisesExactlyWhen | app/evidence/answer_service.py:82-115 | with uids that name a family, an exception leaves the service exactly for a search that rests on relations between companies, all candidates being blocked, of which one has no frozen document |
| AnswerService.PhraseAnswer | app/evidence/answer_service.py:139-169 | the text is the provider's first, its second one made with the first one's reason codes, or the fixed one |
| AnswerService.Finalize | app/evidence/answer_service.py:74-190 | which text a completed run shows (the first if it passes, else the second, written for exactly the rules that the first one breaks, else the fixed one), from which context, guarded unless PRE_ANSWER, with only evidenced uids in it, and with the empty context exactly when it is no ANSWER |
| AnswerService.AnswerRestsOnEvidence | app/evidence/answer_service.py:85-115 | the state is ANSWER exactly when bundles or relations remain |
| AnswerService.NothingSelectedKeepsDecision | app/evidence/answer_service.py:85-115 | a run that selects nothing keeps its decision, except that a search resting on relations becomes an ANSWER with all of them |
| AnswerService.PreAnswerEscapesExactlyWhen | app/evidence/answer_service.py:114-115 | PRE_ANSWER escapes exactly for runs that select nothing and are no company relation, all of them term explanations or aggregates |
| AnswerService.ContextEmptyExactlyWhen | app/evidence/answer_service.py:117-119 | the context is empty exactly when the state is not ANSWER |
| AnswerService.ShownTextPassesExactlyWhen | app/evidence/answer_service.py:147-169 | whatever two texts are generated, the shown one passes unless the state is PRE_ANSWER and both fail |
| AnswerService.ShownTokensAreEvidenced | app/evidence/answer_service.py:82-169 | whatever the provider writes and whatever the state, every matched span of the shown text is the uid of a product whose row is stored in this version and supports its evidence, or an end of a relation with a frozen document |
| Readiness.Handle | app/api/readiness.py:49-57 | each segment of the service, run on its own fields, is the step of the protocol that belongs to it |
| Readiness.Serve | app/api/readiness.py:49-57 | over every run the service's fields are those of the protocol's end state, in which the invariant holds |
| Readiness.RunsKeepInv | app/api/readiness.py:49-57 | the protocol invariant holds over every run with any number of callers, failures and cancellations |
| Readiness.EveryRun | app/api/readiness.py:49-74 | at most one refresh is in flight, refreshes are at least the cache time apart, and every returned snapshot is fresh, or was made by the caller in that moment |
| Readiness.RefreshStartsOnlyWhenStale | app/api/readiness.py:52-55 | a refresh starts exactly when the lock is taken and there is no fresh snapshot |
| Readiness.RefreshRateBound | app/api/readiness.py:70-74 | k further refreshes take at least k cache times |
| Readiness.WaitersShareOneRefresh | app/api/readiness.py:52-57 | after a refresh no waiting or later caller starts another before the cache time has passed |
| SourceFiles.BuildSourceKey | app/data/source_key.py:37-48 | the loop builds the key or fails at a missing or blank part; what the key is, is stated by the rows of SourceKeys |
| SourceKeys.KeyPartExactly | app/data/source_key.py:12-34 | a part is the cell's text without the white space around it, and exists exactly when that is not empty |
| SourceKeys.KeyGrowsByField | app/data/source_key.py:37-48 | the key of one field is its part, each further field adds a bar and its part, and a field without a part leaves no key |
| SourceKeys.KeysAgreeExactlyWhen | app/data/source_key.py:48 | two keys are the same exactly when the texts between all bars are; without bars in the parts, exactly when all parts are |
| SourceKeys.BarsCollide | app/data/source_key.py:48 | two rows with different parts and the same key |
| SourceKeys.RowsStayApartExactlyWhen | app/data/validator.py:100-125 | validation finds no fault with the keys of a file without bars exactly when every key field of every row has a part and any two rows differ in one |
| SourceFiles.KeyPartsExistExactlyWhen | app/data/source_key.py:43-48 | a key exists exactly when every key field holds a value that is not blank |
| SourceValidator.ScanDataRows | app/data/validator.py:100-125 | the errors and the count of the row loop, which stops at a repeated row |
| SourceValidator.ValidateSourceFiles | app/data/validator.py:40-142 | all errors in order, ok exactly when there is none |
| SourceFaults.ScanReportsExactly | app/data/validator.py:100-125 | the row loop reports a row that repeats an earlier one, where it stops, and before that each row without a key and each key that is taken |
| SourceFaults.ReportsExactly | app/data/validator.py:40-142 | for all thirteen kinds of error: it is reported exactly when an entry has the fault it stands for, or the rows seen are not as many as expected |
| SourceValidator.ScanIsCleanExactlyWhen | app/data/validator.py:100-125 | the row loop reports nothing exactly when every row has a key of its own |
| SourceValidator.OkExactlyWhen | app/data/validator.py:40-142 | ok exactly when files, hashes, headers, keys and counts are as the manifest says |
| DatasetStore.InsertInBatches | app/data/ingestion.py:205-210 | inserting with do-nothing on conflict in two batches is inserting at once |
| RawIngestion.IngestRows | app/data/ingestion.py:156-189 | for every batch size the flushed batches leave what one insertion of all rows leaves |
| RawIngestion.IngestDatasetFile | app/data/ingestion.py:145-202 | a file loads, or raises for its first bad row or its count, whichever statement may fail |
| RawIngestion.StreamPassesExactlyWhen | app/data/ingestion.py:160-169 | the row loop raises exactly for a row without a key or two rows that share a key and differ |
| RawIngestion.StreamStopsExactlyWhen | app/data/ingestion.py:160-169 | the error names the first row without a key or in conflict with an earlier one |
| RawIngestion.FileLoadsExactlyWhen | app/data/ingestion.py:145-202 | a file loads exactly when its table is known, it can be read, no row stops the stream, and the version then has as many rows as expected; otherwise the error says which of these failed |
| RawIngestion.SetCountIsUpdate | app/data/ingestion.py:95-109 | the counts are a dictionary by raw table, and their sum follows |
| RawIngestion.LoadedTableIsPlainMap | app/data/ingestion.py:160-210 | a conflict-free file becomes the plain map from its keys to its payloads, with the number of the first row of each key |
| RawIngestion.OtherVersionsKept | app/data/ingestion.py:205-210 | rows of other versions are untouched |
| RawIngestion.ValidatedFileLoads | app/data/ingestion.py:145-202 | a file that passed validation raises nothing and all its rows are stored |
| RawIngestion.ValidatedFilesLoad | app/data/ingestion.py:97-106 | the same for all entries with distinct raw tables, whose counts then add up to the validated total |
| DatasetVersions.Prepare | app/data/ingestion.py:52-86 | the checks before anything is loaded, and what each refusal is |
| DatasetVersions.IngestManifest | app/data/ingestion.py:45-142 | for every schedule of failing statements: the committed state changes exactly when the plan activates and no statement up to the commit fails, and the run then succeeds exactly when the reload does too |
| DatasetHistory.RunInOwnSession | scripts/ingest_excel.py:41-55 | one attempt in its own session is one step of the history |
| DatasetHistory.CommittedButRaised | app/data/ingestion.py:133-142 | when only the reload after the commit fails, the run raises and its version is nevertheless new, complete and ACTIVE |
| DatasetHistory.OneBondActivates | app/data/ingestion.py:45-142 | such a run exists: the first ingestion of one file with one row, under any label and with any hash |
| DatasetHistory.PlanKeepsSound | app/data/ingestion.py:95-133 | an activating run keeps the store sound and leaves its version as the only ACTIVE one |
| DatasetHistory.ActivatesExactlyWhen | app/data/ingestion.py:55-133 | activation succeeds exactly for valid files under a label the store has never seen |
| DatasetHistory.KnownLabelIsRefusedExactlyWhen | app/data/ingestion.py:55-86 | with valid files under a known label the run changes nothing when this manifest is ACTIVE, and is otherwise refused by a database constraint |
| DatasetHistory.ChangedManifestIsRefused | app/data/ingestion.py:66-86 | after a first ingestion the file with another hash is refused under the same label |
| DatasetHistory.SupersededManifestIsRefused | app/data/ingestion.py:66-86 | after another label has been activated the first manifest is refused, unchanged and valid |
| DatasetHistory.ReingestIsNoOp | app/data/ingestion.py:55-64 | ingesting the active manifest again changes nothing |
| DatasetHistory.EveryCommittedStateIsSound | app/data/ingestion.py:45-142 | over every sequence of runs: at most one ACTIVE version, none LOADING, all with actual equal to expected rows, labels distinct |

## Left out

- DeterministicEmbedding.Embed: the rounding of doubles is not modelled; the digest bytes are a parameter and the square root is exact at its one argument.
- CandidateRanking.LexicographicSort: keys are exact numbers, while the code rounds each value to a double; values that differ by less than that rounding would tie.
- CandidateRanking.ComputeDominates: infinities and NaN, which Decimal accepts as text, count as values that are not numeric.
- ProductRepository.QueryProducts: the SELECT that produces the rows, and the KeyError for a registry field without the family's source field.
- FederatedMerger.MergeCrossFamily: the elapsed time and applied clauses of the result are not carried.
- CandidateMerger.MergeRetrievalResults: candidate objects of the SQL and the relation result are taken to be distinct objects, as the retrievers build them; elapsed time, exclusions, batches and the copied counts are not carried.
- QueryValidator.ValidateQuerySpec: messages, JSON paths and details of issues.
- FilterMeaning.CompiledClauseSelects: how the database orders, equates and folds values, which is a parameter; a comparison with NULL selects nothing.
- EvidenceManager.Validate: the evidence hash, and the AttributeError when a uid names another family than its table.
- ContextSerializer.SerializeBundle: a value and its unit are written side by side and read back as one text.
- Orchestrator.RunSpecUncached: query id and elapsed times; the retrieval results are values, not the shared objects.
- InterleavedCalls.EverySchedule: a parse or a run of one call is a function of its question, spec and context, so retries and cancellation at an await are not events.
- AnswerService.Finalize: exceptions of the provider, the execution trace, the audit record and its swallowed exceptions, the manifest hash, the evidence hash.
- Readiness.RunsKeepInv: the order in which the lock wakes its waiters, and the component checks inside a refresh.
- SourceValidator.ValidateSourceFiles: the texts of errors, warnings and the reported row counts.
- SourceFiles.BuildSourceKey: how numbers, dates and booleans are rendered; their text is given and not empty.
- DatasetVersions.IngestManifest: timestamps and log lines; files do not change between validation and loading; sessions run one at a time, because isolation between them is the database's.
- The keyword rules of the Korean parser, the HCX client and its retries, curated mapping, ontology and entity resolution, relation and document retrieval, HTTP endpoints and settings: plumbing, tables or library behaviour.
