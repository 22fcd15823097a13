# Policy decision engine — a Dafny model

This project models the deterministic decision engine of a policy-retrieval
assistant. The engine sits between vector retrieval and answer generation,
and it decides whether a question may be answered from the organisation's
policies.

**Policy level.** Retrieved policy chunks are handled in this order:
1. They are filtered by jurisdiction and by their effective-date window.
2. They are cut down to the highest authority level present.
3. Two or more policies remaining at that level are a CONFLICT.
4. Coverage is checked: there must be a policy, and its similarity score
   must reach 0.75.

**Clause level.** After a SAFE policy-level decision:
1. The clauses of the cited policy are fetched.
2. They are filtered by the requester's role.
3. Clauses that another fetched clause lists in its `overrides` are
   dropped.
4. An allow clause next to a deny clause is a CONFLICT.
5. An empty clause set is INSUFFICIENT_COVERAGE.

SAFE is the only non-terminal status: any refusal ends the request with
an empty clause list.

Files:

- `wrappers.dfy`: `Option`.
- `seqs.dfy`: an order-preserving subsequence relation, a generic
  filter, distinct elements, and their lemmas.
- `policy_model.dfy`: the records and enumerations of the data model.
  Covers `PolicyMetadata`, `PolicyChunk`, `PolicyClause`, `ClauseType`,
  `DecisionStatus`, `ValidationResult`, `RetrievalRequest`,
  `RetrievedPolicy` and `RetrievalResponse`.
- `authority.py` → `authority.dfy`: applicability, authority resolution,
  equal-authority conflict and coverage.
- `retriever.py` → `retriever.dfy`:
  - applicability filtering with chunks and scores kept in lockstep;
  - the score lookup for each resolved chunk;
  - `retrieve_and_validate`;
  - `retrieve_policies` with its excluded count;
  - `build_response`.
- `clause.py` → `clause.dfy`: the role filter, override suppression,
  clause conflict and coverage, and the composed pipeline
  `retrieve_validate_clauses`.
- `scenarios.dfy`: representative end-to-end situations,
  each stated for every input of its shape. They cover:
  - equal-authority policies;
  - a lower-authority chunk of the same policy that lends its score;
  - an allow clause overridden by another allow clause;
  - a role that no clause serves;
  - a lapsed policy;
  - the inclusive date and score bounds.

Modelling choices:

- **Dates** are integer day numbers and **scores** are `real`.
  Scores are only compared against the threshold, never computed.
- **Policy search.** The vector search over policy chunks is an input:
  `hits: seq<(PolicyChunk, real)>`, in search order. The source runs this
  search twice per request:
  - once through `retrieve_policies_with_scores`;
  - once through `retrieve_resolved_chunks`.

  The model assumes that both calls return the same hits and passes the
  one `hits` value to both.
- **Clause search.** The clause search is the function parameter
  `fetchClauses(query, policyIds, topK)`.
  - The pipeline calls it with the ids of the resolved policies and the
    result count 10.
  - Where a property depends on the search honouring its policy-id
    filter, the lemma says so in a `requires` clause:
    `Clause.HonoursPolicyFilter`. It constrains only non-empty id sets,
    as `vector_store.py:236-238` does: an empty set means no filter.
- **Evidence order.** Python builds the clause-conflict evidence as
  `list(set(...))`, so its order is unspecified. The model lists the
  distinct ids in first-occurrence order, and its contract promises only
  the set of ids and that there are no duplicates.

Behaviours of the code that the model reproduces, and that one might not
expect:

- `retrieve_and_validate` runs the equal-authority conflict check
  *before* the coverage check (`retriever.py:122-128`). So two
  equal-authority policies give CONFLICT even when every score is below
  the threshold.
- The clause-conflict evidence is the distinct policy ids of *all* clauses
  that survive overrides, not only those of the clashing allow and deny
  clauses (`clause.py:118-120`).
- Two chunks of the *same* policy at the top authority level are a
  CONFLICT whose evidence holds that id twice. The conflict check counts
  chunks, not distinct policies.
- On SAFE the clause search is limited to the one cited policy. So when the
  search honours that filter, a clause of another policy never reaches
  override suppression, and its `overrides` list has no effect
  (`Clause.SafeClausesCiteAuthoritativePolicy`). Overrides only act
  between clauses of the same policy.
- Scores are matched to resolved chunks by policy id, taking the first
  applicable chunk of that id in search order (`retriever.py:110-113`).
  So when a lower-authority chunk of the same policy comes first, the
  resolved chunk takes the discarded chunk's score. A high score on the
  discarded chunk can make the request SAFE
  (`Scenarios.OutrankedChunkLendsScore`).

## Model

| member | source | states |
|---|---|---|
| Authority.IsApplicable | authority.py:8-18 | true iff the jurisdictions are equal, `effectiveFrom <= asOfDate`, and `effectiveTo` is absent or not before `asOfDate`; both date bounds inclusive |
| Authority.MaxAuthority | authority.py:25-27 | the maximum authority level of a non-empty chunk list: an upper bound of every level that some chunk attains |
| Authority.AtLevel | authority.py:41-44 | the chunks at a given level, as an order-preserving subsequence containing exactly those chunks, every copy of each |
| Authority.ResolveAuthority | authority.py:21-32 | empty in, empty out; non-empty in, non-empty out; an order-preserving subsequence holding exactly the chunks no other chunk outranks, every copy of each; all survivors share one level |
| Authority.ResolveAuthorityIdempotent | authority.py:21-32 | resolving twice gives the same list as resolving once |
| Authority.ResolveAuthorityOfLevelList | authority.py:29-32 | a list whose chunks all share one level is returned unchanged |
| Authority.DetectConflict | authority.py:35-55 | none for at most one policy; CONFLICT iff some later policy shares the first policy's level; evidence is the ids of all policies at that level, in order, at least two of them |
| Authority.ConflictOnResolvedIffMultiple | authority.py:21-55 | on a resolved list the conflict check fires iff that list has two or more chunks, citing all of their ids |
| Authority.MaxScore | authority.py:66 | the maximum of a non-empty score list: an upper bound that is one of the scores |
| Authority.ValidateCoverage | authority.py:58-75 | no policies gives the no-applicable-policy refusal with empty evidence; otherwise a refusal iff every score is below 0.75 (so 0.75 passes), citing every policy id |
| Retriever.ApplicableChunks | retriever.py:32-35 | an order-preserving subsequence of the candidates holding exactly the applicable ones, every copy of each |
| Retriever.ExcludedChunks | retriever.py:45-48 | holds exactly the candidates that are not applicable, every copy of each |
| Retriever.ApplicableExcludedPartition | retriever.py:45-50 | kept and excluded candidates together number exactly the candidates |
| Retriever.RetrieveResolvedChunks | retriever.py:29-37 | an order-preserving subsequence of the candidates holding exactly the applicable chunks that no applicable chunk outranks, every copy of each; non-empty when any candidate applies |
| Retriever.ApplicableWithScores | retriever.py:99-102 | chunk and score lists of equal length; the chunk list is the applicability filter of the hits; entry `k` of both lists are the chunk and the score of the same `k`-th applicable hit |
| Retriever.FirstIndexOfPolicy | retriever.py:110-113 | the index of the first chunk with the given policy id, and none iff no chunk has it |
| Retriever.ResolvedScores | retriever.py:108-113 | at most one score per resolved chunk; when every resolved chunk is among the valid chunks, exactly one each, namely the score of the first valid chunk of that policy |
| Retriever.RetrievePoliciesWithScores | retriever.py:83-115 | the resolved chunks equal the chunk-only resolution of the same hits; the scores match them one for one, each being the first valid score of its policy |
| Retriever.RetrieveAndValidate | retriever.py:119-135 | two or more resolved chunks give CONFLICT whatever the scores; none gives the no-applicable-policy refusal; one chunk scoring below 0.75 gives the low-relevance refusal; SAFE iff exactly one resolved chunk scores at least 0.75, and then it cites that policy alone |
| Retriever.SafeCitesSoleResolvedPolicy | retriever.py:29-37 | a SAFE decision cites exactly the single chunk that the chunk-only search path resolves |
| Retriever.DecimalStringRoundTrip | retriever.py:74 | the decimal rendering of an integer reads back as that integer |
| Retriever.InclusionReasonNamesLevel | retriever.py:74 | the authority level can be read back from an inclusion reason |
| Retriever.BuildResponse | retriever.py:57-81 | one entry per resolved chunk, in order, with the chunk's policy id, text, metadata and an inclusion reason naming its level; the excluded count is passed through |
| Retriever.RetrievePolicies | retriever.py:39-54 | the excluded count plus the number of applicable candidates equals the number of candidates; the response lists the resolved applicable chunks |
| Clause.IsClauseApplicableForRole | clause.py:49-55 | true iff the clause has no role list or lists the role |
| Clause.FilterByRole | clause.py:140-143 | an order-preserving subsequence holding exactly the clauses that apply to the role, every copy of each |
| Clause.OverriddenIds | clause.py:164-167 | an id is superseded iff some clause lists it in its overrides |
| Clause.ApplyOverrides | clause.py:161-172 | an order-preserving subsequence holding exactly the clauses that no input clause supersedes, every copy of each, whatever their type or role |
| Clause.ApplyOverridesIdempotent | clause.py:161-172 | a second pass of override suppression changes nothing |
| Clause.ApplyOverridesShrinksOverridden | clause.py:161-172 | the superseded ids of the survivors are among the superseded ids of the input |
| Clause.DistinctPolicyIds | clause.py:118-120 | each policy id of the clauses once, and no other |
| Clause.DetectClauseConflict | clause.py:111-123 | CONFLICT iff both an allow and a deny clause are present; evidence is the distinct policy ids of all the input clauses |
| Clause.NonAllowDenyNeverConflicts | clause.py:111-123 | require, limit and define clauses never clash, whatever their mix |
| Clause.ValidateClauseCoverage | clause.py:100-108 | a refusal with empty evidence iff there are no clauses |
| Clause.ApprovedPolicyIds | clause.py:89 | the set of ids of the approved policies, and no other |
| Clause.RetrieveRelevantClauses | clause.py:84-97 | the clause search is asked once, for exactly the set of ids of the approved policies, with the given result count (10 by default, as the pipeline uses); one approved policy means a search for its id alone; under a search that honours its filter, every fetched clause belongs to an approved policy |
| Clause.ProcessClauses | clause.py:140-146 | an order-preserving subsequence of the fetched clauses holding exactly the role-applicable clauses that no role-applicable clause supersedes, every copy of each |
| Clause.ClauseStage | clause.py:139-158 | a refusal carries no clauses; an allow/deny mix after overrides gives the clause-conflict result, with its reason and evidence; an empty set gives the no-clause refusal; SAFE iff neither, and then it keeps the policy result and returns a non-empty, role-applicable, unsuperseded subsequence of the fetched clauses |
| Clause.RetrieveValidateClauses | clause.py:126-158 | a non-SAFE policy result is returned with no clauses; on SAFE the clause search is asked for exactly the one cited policy id with result count 10, and the clause stage decides |
| Clause.PipelineOutcome | clause.py:126-158 | every refusal comes with no clauses; SAFE hands on the unchanged policy-level result with a non-empty, role-applicable list that never mixes allow and deny |
| Clause.ClauseStageKeepsPolicy | clause.py:131-146 | when the search for the one cited policy honours its filter, a SAFE clause stage keeps the single citation and hands on clauses of that policy alone |
| Clause.SafeClausesCiteAuthoritativePolicy | clause.py:131-137 | if the clause search honours its policy filter for non-empty id sets, a SAFE answer cites one policy and every clause handed on belongs to it |
| Scenarios.LastEffectiveDayApplies | authority.py:15-16 | a policy applies on its last effective day and not on the day after |
| Scenarios.CoverageThresholdExamples | authority.py:58-75 | no policies is refused; a score of 0.74 is refused citing the policy; a score of exactly 0.75 passes |
| Scenarios.SingleApplicableHit | retriever.py:83-115 | a single applicable hit is the whole resolved set, with its own score |
| Scenarios.SingleGoodHitIsSafe | retriever.py:119-135 | a single applicable hit scoring at least 0.75 is SAFE and cites that policy alone |
| Scenarios.EqualAuthorityPairResolves | authority.py:21-32 | two applicable chunks of equal authority both survive resolution, in order |
| Scenarios.EqualAuthorityPairConflicts | retriever.py:119-124 | two applicable chunks of equal authority give a policy-level CONFLICT citing both, whatever their scores |
| Scenarios.EqualAuthorityPoliciesConflict | clause.py:126-129 | the same conflict is the end-to-end answer with no clauses, whatever the clause search holds |
| Scenarios.LapsedPolicyExcluded | authority.py:15-16 | a lapsed policy is excluded even when it comes first; the decision rests on the policy that still applies |
| Scenarios.SupersededPairKeepsSuperseder | clause.py:161-172 | of two role-applicable clauses where one supersedes the other, only the superseding one survives |
| Scenarios.OutrankedChunkLendsScore | retriever.py:99-113 | two applicable chunks of one policy at different levels resolve to the higher one, which takes the score of whichever comes first; when the discarded lower chunk comes first with a score of at least 0.75, the request is SAFE and cites that policy |
| Scenarios.OverriddenAllowSuppressed | clause.py:140-158 | an allow clause superseded by another allow clause is dropped, and the request is answered SAFE from the superseding clause alone |
| Scenarios.NoClauseForRole | clause.py:140-156 | when no fetched clause serves the role, the request ends with the no-clause refusal and no clauses |
| Scenarios.OverrideCyclesSuppressBoth | clause.py:164-172 | two clauses that supersede each other are both dropped, and so is a clause that supersedes itself |

## Left out

- The vector store (`vector_store.py`): the index, embeddings, upserts and
  metadata conversion are network I/O. Its query results are model inputs:
  the `hits` sequence and the `fetchClauses` function.
- Policy search result count: the source asks for 20 results. The model
  takes the search result as given, whatever its length.
- Repeated policy search: `retrieve_validate_clauses` searches a second time
  through `retrieve_resolved_chunks`. The model assumes that search returns
  the same hits as the first one.
- `extract_clauses`, `embed_clauses` and `build_clause_prompt`
  (`clause.py:10-46`, `clause.py:175-189`): prompt text, JSON parsing and
  embedding calls of the language model, with no decision logic.
- `llm_client.py`, `answer.py`, `app.py`, `audit.py`, `config.py`: answer
  generation, the HTTP surface, timestamps and identifiers, the audit log,
  and environment loading.
- `sample_data.py` and `test_system.py`: seeding and smoke requests. The
  sample overrides (`sample_data.py:114` and `sample_data.py:123`) are
  cross-policy: clauses of one policy supersede clauses of another. On
  SAFE only the cited policy's clauses are fetched when the search honours
  its filter (`Clause.SafeClausesCiteAuthoritativePolicy`). So these
  overrides cannot act in the pipeline, and no scenario models them.
  `Scenarios.OverriddenAllowSuppressed` covers overrides within the fetched
  clauses.
- Embeddings are carried in the records but never read by the engine.
- Floating point: scores are `real`. The source only compares them with
  0.75.
- Date ordering: dates are day numbers. The source does not require
  `effective_to` to be after `effective_from`, and neither does the model.
- Clause.DetectClauseConflict: the evidence order is not stated, because
  the source builds it from a set, whose iteration order is unspecified.
- Authority.ValidateCoverage: requires a non-empty score list whenever
  there are policies. In the source `max` of an empty list raises. The
  pipeline always supplies one score per resolved chunk, so it never
  reaches that case.
