/** Policy-level rules: applicability, authority resolution, equal-authority
    conflict detection and coverage (authority.py). */
module Authority {
  import opened Wrappers
  import opened Seqs
  import opened PolicyModel

  /** Fixed confidence threshold on similarity scores. */
  const ConfidenceThreshold: real := 0.75

  const EqualAuthorityReason := "Multiple applicable policies with equal authority detected"
  const NoApplicablePolicyReason := "No applicable policy covers this question"
  const LowRelevanceReason := "Policy relevance below confidence threshold"

  /** A policy applies when its jurisdiction matches exactly and the as-of
      date lies in its effective window, both ends inclusive. */
  function IsApplicable(m: PolicyMetadata, req: RetrievalRequest): (b: bool)
    ensures b <==>
      && m.jurisdiction == req.jurisdiction
      && m.effectiveFrom <= req.asOfDate
      && (m.effectiveTo == None || req.asOfDate <= m.effectiveTo.value)
  {
    if m.jurisdiction != req.jurisdiction then false
    else if m.effectiveFrom > req.asOfDate then false
    else if m.effectiveTo.Some? && m.effectiveTo.value < req.asOfDate then false
    else true
  }

  /** No chunk of `chunks` outranks `c`. */
  ghost predicate AtTopAuthority(c: PolicyChunk, chunks: seq<PolicyChunk>) {
    forall d :: d in chunks ==> LevelOf(d) <= LevelOf(c)
  }

  /** `max(chunk.metadata.authority_level for chunk in chunks)` */
  function MaxAuthority(chunks: seq<PolicyChunk>): (m: int)
    requires |chunks| > 0
    ensures forall c :: c in chunks ==> LevelOf(c) <= m
    ensures exists c :: c in chunks && LevelOf(c) == m
  {
    if |chunks| == 1 then LevelOf(chunks[0])
    else
      var rest := MaxAuthority(chunks[1..]);
      assert forall c :: c in chunks ==> c == chunks[0] || c in chunks[1..];
      if LevelOf(chunks[0]) >= rest then LevelOf(chunks[0]) else rest
  }

  /** The chunks of `chunks` at authority level `level`, in order. */
  function AtLevel(chunks: seq<PolicyChunk>, level: int): (r: seq<PolicyChunk>)
    ensures IsSubsequence(r, chunks)
    ensures forall c :: c in r <==> c in chunks && LevelOf(c) == level
    ensures forall c {:trigger multiset(r)[c]} :: multiset(r)[c] == if LevelOf(c) == level then multiset(chunks)[c] else 0
  {
    Filter((c: PolicyChunk) => LevelOf(c) == level, chunks)
  }

  /** Keeps exactly the chunks at the highest authority level, in input
      order; this surfaces equal-authority ties rather than breaking them. */
  function ResolveAuthority(chunks: seq<PolicyChunk>): (r: seq<PolicyChunk>)
    ensures |chunks| == 0 ==> r == []
    ensures |chunks| > 0 ==> |r| > 0
    ensures IsSubsequence(r, chunks)
    ensures forall c :: c in r <==> c in chunks && AtTopAuthority(c, chunks)
    ensures forall c {:trigger multiset(r)[c]} :: multiset(r)[c] == if AtTopAuthority(c, chunks) then multiset(chunks)[c] else 0
    ensures forall c, d :: c in r && d in r ==> LevelOf(c) == LevelOf(d)
  {
    if |chunks| == 0 then []
    else
      var m := MaxAuthority(chunks);
      var r := AtLevel(chunks, m);
      assert exists c :: c in r;
      r
  }

  /** Resolution is idempotent: the survivors all share one level. */
  lemma ResolveAuthorityIdempotent(chunks: seq<PolicyChunk>)
    ensures ResolveAuthority(ResolveAuthority(chunks)) == ResolveAuthority(chunks)
  {
    var r := ResolveAuthority(chunks);
    if |r| > 0 {
      var m := MaxAuthority(chunks);
      assert r == AtLevel(chunks, m);
      assert MaxAuthority(r) == m by {
        assert r[0] in r;
      }
      FilterKeepsAll((c: PolicyChunk) => LevelOf(c) == m, r);
    }
  }

  /** A list whose chunks share one level resolves to itself. */
  lemma ResolveAuthorityOfLevelList(chunks: seq<PolicyChunk>)
    requires forall c, d :: c in chunks && d in chunks ==> LevelOf(c) == LevelOf(d)
    ensures ResolveAuthority(chunks) == chunks
  {
    if |chunks| > 0 {
      assert chunks[0] in chunks;
      FilterKeepsAll((c: PolicyChunk) => LevelOf(c) == MaxAuthority(chunks), chunks);
    }
  }

  /** Re-checks the resolved set: CONFLICT when some later policy shares the
      first one's authority level; the evidence lists every policy at that
      level, in order. */
  function DetectConflict(policies: seq<PolicyChunk>): (r: Option<ValidationResult>)
    ensures |policies| <= 1 ==> r == None
    ensures r.Some? <==>
      exists j :: 1 <= j < |policies| && LevelOf(policies[j]) == LevelOf(policies[0])
    ensures r.Some? ==>
      && r.value.status == Conflict
      && r.value.reason == EqualAuthorityReason
      && r.value.supportingPolicyIds == PolicyIds(AtLevel(policies, LevelOf(policies[0])))
      && |r.value.supportingPolicyIds| >= 2
  {
    if |policies| <= 1 then None
    else
      var authority := LevelOf(policies[0]);
      var sameAuthority := AtLevel(policies, authority);
      SameLevelAsFirst(policies);
      if |sameAuthority| > 1 then
        Some(ValidationResult(Conflict, EqualAuthorityReason, PolicyIds(sameAuthority)))
      else
        None
  }

  /** The first policy is always at its own level, so the same-level list
      has two members exactly when a later policy matches it. */
  lemma SameLevelAsFirst(policies: seq<PolicyChunk>)
    requires |policies| > 0
    ensures |AtLevel(policies, LevelOf(policies[0]))| > 1 <==>
      exists j :: 1 <= j < |policies| && LevelOf(policies[j]) == LevelOf(policies[0])
  {
    var lvl := LevelOf(policies[0]);
    var p := (c: PolicyChunk) => LevelOf(c) == lvl;
    var tail := Filter(p, policies[1..]);
    assert AtLevel(policies, lvl) == [policies[0]] + tail;
    FilterNonEmpty(p, policies[1..]);
    if exists j :: 1 <= j < |policies| && LevelOf(policies[j]) == lvl {
      var j :| 1 <= j < |policies| && LevelOf(policies[j]) == lvl;
      assert policies[1..][j - 1] == policies[j];
    }
  }

  /** On a resolved set every policy shares one level, so the re-check fires
      exactly when two or more policies survived resolution, and then cites
      all of them. */
  lemma ConflictOnResolvedIffMultiple(chunks: seq<PolicyChunk>)
    ensures var resolved := ResolveAuthority(chunks);
      && (DetectConflict(resolved).Some? <==> |resolved| >= 2)
      && (DetectConflict(resolved).Some? ==> DetectConflict(resolved).value.supportingPolicyIds == PolicyIds(resolved))
  {
    var resolved := ResolveAuthority(chunks);
    if |resolved| >= 2 {
      assert resolved[1] in resolved && resolved[0] in resolved;
      assert LevelOf(resolved[1]) == LevelOf(resolved[0]);
      FilterKeepsAll((c: PolicyChunk) => LevelOf(c) == LevelOf(resolved[0]), resolved);
    }
  }

  /** `max(similarity_scores)` */
  function MaxScore(scores: seq<real>): (m: real)
    requires |scores| > 0
    ensures forall s :: s in scores ==> s <= m
    ensures m in scores
  {
    if |scores| == 1 then scores[0]
    else
      var rest := MaxScore(scores[1..]);
      assert forall s :: s in scores ==> s == scores[0] || s in scores[1..];
      if scores[0] >= rest then scores[0] else rest
  }

  /** Coverage fails when nothing applies (empty evidence) or when every
      score is below the threshold (evidence: all candidate ids); a score of
      exactly 0.75 passes. */
  function ValidateCoverage(policies: seq<PolicyChunk>, scores: seq<real>): (r: Option<ValidationResult>)
    requires |policies| > 0 ==> |scores| > 0
    ensures |policies| == 0 ==> r == Some(ValidationResult(InsufficientCoverage, NoApplicablePolicyReason, []))
    ensures |policies| > 0 ==> (r.Some? <==> forall s :: s in scores ==> s < ConfidenceThreshold)
    ensures |policies| > 0 && r.Some? ==>
      r.value == ValidationResult(InsufficientCoverage, LowRelevanceReason, PolicyIds(policies))
  {
    if |policies| == 0 then
      Some(ValidationResult(InsufficientCoverage, NoApplicablePolicyReason, []))
    else if MaxScore(scores) < ConfidenceThreshold then
      Some(ValidationResult(InsufficientCoverage, LowRelevanceReason, PolicyIds(policies)))
    else
      None
  }
}
