/** The records the decision engine reads and produces: policy metadata,
    chunks and clauses, the decision status, validation results and the
    retrieval request/response shapes. */
module PolicyModel {
  import opened Wrappers

  /** Calendar dates as day numbers; only their order matters. */
  type Date = int

  datatype PolicyMetadata = PolicyMetadata(
    policyId: string,
    authorityLevel: int,   // higher is more authoritative
    jurisdiction: string,
    effectiveFrom: Date,
    effectiveTo: Option<Date>  // None: open-ended
  )

  /** One retrievable unit of policy text. */
  datatype PolicyChunk = PolicyChunk(text: string, metadata: PolicyMetadata, embedding: seq<real>)

  /** The closed set of clause kinds; only Allow and Deny can clash. */
  datatype ClauseType = Allow | Deny | Require | Limit | Define

  /** One atomic rule extracted from a policy. */
  datatype PolicyClause = PolicyClause(
    clauseId: string,
    policyId: string,
    text: string,
    clauseType: ClauseType,
    embedding: Option<seq<real>>,
    overrides: seq<string>,          // ids of the clauses this one supersedes
    exceptionScope: Option<string>,  // informational only
    appliesToRoles: Option<seq<string>>  // None: applies to every role
  )

  /** SAFE is the only status that lets a request continue. */
  datatype DecisionStatus = Safe | Conflict | InsufficientCoverage

  /** The evidence list means "support" on Safe, "ambiguity" on Conflict
      and "candidates considered" on InsufficientCoverage. */
  datatype ValidationResult = ValidationResult(status: DecisionStatus, reason: string, supportingPolicyIds: seq<string>)

  datatype RetrievalRequest = RetrievalRequest(query: string, jurisdiction: string, asOfDate: Date, role: string)

  datatype RetrievedPolicy = RetrievedPolicy(policyId: string, text: string, metadata: PolicyMetadata, inclusionReason: string)

  datatype RetrievalResponse = RetrievalResponse(policies: seq<RetrievedPolicy>, excludedCount: int)

  /** A search hit: a chunk with its similarity score. */
  type ScoredChunk = (PolicyChunk, real)

  function IdOf(c: PolicyChunk): string {
    c.metadata.policyId
  }

  function LevelOf(c: PolicyChunk): int {
    c.metadata.authorityLevel
  }

  /** `[p.metadata.policy_id for p in policies]` */
  function PolicyIds(policies: seq<PolicyChunk>): (ids: seq<string>)
    ensures |ids| == |policies|
    ensures forall k :: 0 <= k < |ids| ==> ids[k] == IdOf(policies[k])
  {
    seq(|policies|, k requires 0 <= k < |policies| => IdOf(policies[k]))
  }

  /** The chunks of a scored search result, scores dropped. */
  function ChunksOf(hits: seq<ScoredChunk>): (chunks: seq<PolicyChunk>)
    ensures |chunks| == |hits|
    ensures forall k :: 0 <= k < |hits| ==> chunks[k] == hits[k].0
  {
    seq(|hits|, k requires 0 <= k < |hits| => hits[k].0)
  }

  /** The scores of a scored search result, chunks dropped. */
  function ScoresOf(hits: seq<ScoredChunk>): (scores: seq<real>)
    ensures |scores| == |hits|
    ensures forall k :: 0 <= k < |hits| ==> scores[k] == hits[k].1
  {
    seq(|hits|, k requires 0 <= k < |hits| => hits[k].1)
  }
}
