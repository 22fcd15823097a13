/** End-to-end decisions for representative situations: the inclusive
    date and score bounds, equal-authority policies, a lapsed policy, an
    outranked chunk of the same policy, an overridden clause, a role that
    no clause serves, and clauses that supersede each other. Each is
    stated for all inputs of its shape rather than for one sample. */
module Scenarios {
  import opened Wrappers
  import opened Seqs
  import opened PolicyModel
  import opened Authority
  import opened Retriever
  import opened Clause

  /** The effective window is inclusive at its end: a policy still applies on
      its last effective day and no longer on the day after. */
  lemma LastEffectiveDayApplies(m: PolicyMetadata, req: RetrievalRequest)
    requires m.jurisdiction == req.jurisdiction && m.effectiveFrom <= req.asOfDate
    requires m.effectiveTo == Some(req.asOfDate)
    ensures IsApplicable(m, req)
    ensures !IsApplicable(m, req.(asOfDate := req.asOfDate + 1))
  {
  }

  /** The coverage threshold is inclusive. */
  lemma CoverageThresholdExamples(p: PolicyChunk)
    ensures ValidateCoverage([], []) == Some(ValidationResult(InsufficientCoverage, NoApplicablePolicyReason, []))
    ensures ValidateCoverage([p], [0.74]) == Some(ValidationResult(InsufficientCoverage, LowRelevanceReason, [IdOf(p)]))
    ensures ValidateCoverage([p], [0.75]) == None
  {
    assert PolicyIds([p]) == [IdOf(p)];
  }

  /** A single applicable hit is the whole resolved set, with its score. */
  lemma SingleApplicableHit(req: RetrievalRequest, p: PolicyChunk, s: real)
    requires IsApplicable(p.metadata, req)
    ensures RetrievePoliciesWithScores(req, [(p, s)]) == ([p], [s])
  {
    var hits := [(p, s)];
    assert ChunksOf(hits) == [p];
    ApplicableChunksKeepsAll([p], req);
    ResolveAuthorityOfLevelList([p]);
    var valid := ApplicableWithScores(hits, req);
    assert ApplicableHits(hits, req) == hits by {
      ApplicableHitsCons(hits, req);
    }
    assert valid.1 == [s];
    var r := RetrievePoliciesWithScores(req, hits);
    assert r.0 == [p];
    assert IsFirstScore(IdOf(p), [p], [s], r.1[0]);
  }

  /** A single applicable hit scoring at least the threshold is SAFE and
      cites that policy alone. */
  lemma SingleGoodHitIsSafe(req: RetrievalRequest, p: PolicyChunk, s: real)
    requires IsApplicable(p.metadata, req)
    requires s >= ConfidenceThreshold
    ensures RetrieveAndValidate(req, [(p, s)]) == ValidationResult(Safe, SafeReason, [IdOf(p)])
  {
    SingleApplicableHit(req, p, s);
  }

  /** Two applicable policies of equal authority end the request at the
      policy level, citing both, whatever their scores and whatever clauses
      the search holds. This includes two chunks of the same policy, which
      are reported with the same id twice. */
  lemma EqualAuthorityPoliciesConflict(
    req: RetrievalRequest, a: PolicyChunk, b: PolicyChunk, sa: real, sb: real,
    fetchClauses: (string, set<string>, nat) -> seq<PolicyClause>)
    requires IsApplicable(a.metadata, req) && IsApplicable(b.metadata, req)
    requires LevelOf(a) == LevelOf(b)
    ensures RetrieveValidateClauses(req, [(a, sa), (b, sb)], fetchClauses)
      == (ValidationResult(Conflict, EqualAuthorityReason, [IdOf(a), IdOf(b)]), [])
  {
    EqualAuthorityPairConflicts(req, a, b, sa, sb);
  }

  lemma EqualAuthorityPairConflicts(req: RetrievalRequest, a: PolicyChunk, b: PolicyChunk, sa: real, sb: real)
    requires IsApplicable(a.metadata, req) && IsApplicable(b.metadata, req)
    requires LevelOf(a) == LevelOf(b)
    ensures RetrieveAndValidate(req, [(a, sa), (b, sb)])
      == ValidationResult(Conflict, EqualAuthorityReason, [IdOf(a), IdOf(b)])
  {
    EqualAuthorityPairResolves(req, a, b, sa, sb);
    PairIds(a, b);
  }

  lemma PairIds(a: PolicyChunk, b: PolicyChunk)
    ensures PolicyIds([a, b]) == [IdOf(a), IdOf(b)]
  {
    var ids := PolicyIds([a, b]);
    assert |ids| == 2 && ids[0] == IdOf(a) && ids[1] == IdOf(b);
  }

  lemma EqualAuthorityPairResolves(req: RetrievalRequest, a: PolicyChunk, b: PolicyChunk, sa: real, sb: real)
    requires IsApplicable(a.metadata, req) && IsApplicable(b.metadata, req)
    requires LevelOf(a) == LevelOf(b)
    ensures RetrievePoliciesWithScores(req, [(a, sa), (b, sb)]).0 == [a, b]
  {
    assert ChunksOf([(a, sa), (b, sb)]) == [a, b];
    ApplicableChunksKeepsAll([a, b], req);
    ResolveAuthorityOfLevelList([a, b]);
  }

  /** A lapsed policy is excluded even when it outranks and outscores the
      rest: the decision rests on the policy that still applies. */
  lemma LapsedPolicyExcluded(req: RetrievalRequest, lapsed: PolicyChunk, current: PolicyChunk, sl: real, sc: real)
    requires lapsed.metadata.effectiveTo.Some? && lapsed.metadata.effectiveTo.value < req.asOfDate
    requires IsApplicable(current.metadata, req)
    requires sc >= ConfidenceThreshold
    ensures RetrieveAndValidate(req, [(lapsed, sl), (current, sc)]) == ValidationResult(Safe, SafeReason, [IdOf(current)])
  {
    var hits := [(lapsed, sl), (current, sc)];
    assert ApplicableWithScores(hits, req) == ApplicableWithScores([(current, sc)], req) by {
      assert hits[1..] == [(current, sc)];
    }
    SingleApplicableHit(req, current, sc);
    assert RetrievePoliciesWithScores(req, hits) == ([current], [sc]);
  }

  /** Scores are matched to resolved chunks by policy id. So a chunk that
      resolution discards, because another chunk of the same policy outranks
      it, still lends its score when it comes first in search order; a high
      score on the discarded chunk makes the request SAFE. */
  lemma OutrankedChunkLendsScore(req: RetrievalRequest, lo: PolicyChunk, hi: PolicyChunk, sl: real, sh: real)
    requires IsApplicable(lo.metadata, req) && IsApplicable(hi.metadata, req)
    requires IdOf(lo) == IdOf(hi) && LevelOf(lo) < LevelOf(hi)
    ensures RetrievePoliciesWithScores(req, [(lo, sl), (hi, sh)]) == ([hi], [sl])
    ensures sl >= ConfidenceThreshold ==>
      RetrieveAndValidate(req, [(lo, sl), (hi, sh)]) == ValidationResult(Safe, SafeReason, [IdOf(hi)])
  {
    OutrankedPairScores(req, lo, hi, sl, sh);
  }

  lemma OutrankedPairScores(req: RetrievalRequest, lo: PolicyChunk, hi: PolicyChunk, sl: real, sh: real)
    requires IsApplicable(lo.metadata, req) && IsApplicable(hi.metadata, req)
    requires IdOf(lo) == IdOf(hi) && LevelOf(lo) < LevelOf(hi)
    ensures RetrievePoliciesWithScores(req, [(lo, sl), (hi, sh)]) == ([hi], [sl])
  {
    var hits := [(lo, sl), (hi, sh)];
    ApplicablePair(req, lo, hi, sl, sh);
    var valid := ApplicableWithScores(hits, req);
    LoneTopChunk(lo, hi);
    var r := RetrievePoliciesWithScores(req, hits);
    assert r.0 == [hi];
    assert IsFirstScore(IdOf(hi), valid.0, valid.1, r.1[0]);
    assert r.1 == [sl];
  }

  /** Two applicable hits pass the filter together, each with its score. */
  lemma ApplicablePair(req: RetrievalRequest, a: PolicyChunk, b: PolicyChunk, sa: real, sb: real)
    requires IsApplicable(a.metadata, req) && IsApplicable(b.metadata, req)
    ensures ApplicableWithScores([(a, sa), (b, sb)], req) == ([a, b], [sa, sb])
  {
    var hits := [(a, sa), (b, sb)];
    assert ApplicableHits(hits, req) == hits by {
      ApplicableHitsCons(hits, req);
      ApplicableHitsCons(hits[1..], req);
      assert hits[1..][1..] == [];
    }
    assert ChunksOf(hits) == [a, b] && ScoresOf(hits) == [sa, sb];
  }

  /** Of two chunks at different levels, only the higher one survives. */
  lemma LoneTopChunk(lo: PolicyChunk, hi: PolicyChunk)
    requires LevelOf(lo) < LevelOf(hi)
    ensures ResolveAuthority([lo, hi]) == [hi]
  {
    assert MaxAuthority([lo, hi]) == LevelOf(hi) by {
      assert [lo, hi][1..] == [hi];
    }
    var r := AtLevel([lo, hi], LevelOf(hi));
    assert multiset([lo, hi])[hi] == 1 && multiset([lo, hi])[lo] == 1;
    assert multiset(r)[hi] == 1 && multiset(r)[lo] == 0;
    assert forall c :: c in r ==> c == hi;
    assert multiset(r) == multiset{hi};
    assert |r| == 1;
    assert r[0] in r;
  }

  /** An allow clause superseded by another allow clause is suppressed: the
      request is answered from the superseding clause alone. */
  lemma OverriddenAllowSuppressed(
    req: RetrievalRequest, p: PolicyChunk, s: real,
    overridden: PolicyClause, overriding: PolicyClause,
    fetchClauses: (string, set<string>, nat) -> seq<PolicyClause>)
    requires IsApplicable(p.metadata, req) && s >= ConfidenceThreshold
    requires fetchClauses(req.query, {IdOf(p)}, ClauseTopK) == [overridden, overriding]
    requires overridden.clauseType == Allow && overriding.clauseType == Allow
    requires IsClauseApplicableForRole(overridden, req.role) && IsClauseApplicableForRole(overriding, req.role)
    requires overridden.clauseId in overriding.overrides
    requires overriding.clauseId !in overriding.overrides && overriding.clauseId !in overridden.overrides
    ensures RetrieveValidateClauses(req, [(p, s)], fetchClauses)
      == (ValidationResult(Safe, SafeReason, [IdOf(p)]), [overriding])
  {
    SingleGoodHitIsSafe(req, p, s);
    var validation := ValidationResult(Safe, SafeReason, [IdOf(p)]);
    assert ClauseStage(validation, [overridden, overriding], req.role) == (validation, [overriding]) by {
      SupersededPairKeepsSuperseder(overridden, overriding, req.role);
      assert !HasType([overriding], Deny);
    }
  }

  /** Role filtering keeps both clauses and override resolution keeps only
      the superseding one. */
  lemma SupersededPairKeepsSuperseder(overridden: PolicyClause, overriding: PolicyClause, role: string)
    requires IsClauseApplicableForRole(overridden, role) && IsClauseApplicableForRole(overriding, role)
    requires overridden.clauseId in overriding.overrides
    requires overriding.clauseId !in overriding.overrides && overriding.clauseId !in overridden.overrides
    ensures ProcessClauses([overridden, overriding], role) == [overriding]
  {
    var fetched := [overridden, overriding];
    FilterKeepsAll((c: PolicyClause) => IsClauseApplicableForRole(c, role), fetched);
    var ids := OverriddenIds(fetched);
    assert overridden.clauseId in ids && overriding.clauseId !in ids;
    assert fetched[1..] == [overriding];
  }

  /** When no fetched clause serves the requesting role, the request ends
      with insufficient clause coverage. */
  lemma NoClauseForRole(
    req: RetrievalRequest, p: PolicyChunk, s: real,
    fetchClauses: (string, set<string>, nat) -> seq<PolicyClause>)
    requires IsApplicable(p.metadata, req) && s >= ConfidenceThreshold
    requires forall c :: c in fetchClauses(req.query, {IdOf(p)}, ClauseTopK) ==>
      c.appliesToRoles.Some? && req.role !in c.appliesToRoles.value
    ensures RetrieveValidateClauses(req, [(p, s)], fetchClauses)
      == (ValidationResult(InsufficientCoverage, NoClauseReason, []), [])
  {
    SingleGoodHitIsSafe(req, p, s);
    var fetched := fetchClauses(req.query, {IdOf(p)}, ClauseTopK);
    FilterNonEmpty((c: PolicyClause) => IsClauseApplicableForRole(c, req.role), fetched);
    assert forall i :: 0 <= i < |fetched| ==> !IsClauseApplicableForRole(fetched[i], req.role) by {
      forall i | 0 <= i < |fetched|
        ensures !IsClauseApplicableForRole(fetched[i], req.role)
      {
        assert fetched[i] in fetched;
      }
    }
    assert ProcessClauses(fetched, req.role) == [];
  }

  /** A clause that supersedes itself, and two clauses that supersede each
      other, are all dropped: overrides are not checked for cycles. */
  lemma OverrideCyclesSuppressBoth(a: PolicyClause, b: PolicyClause, rest: seq<PolicyClause>)
    requires a.clauseId in b.overrides && b.clauseId in a.overrides
    ensures a !in ApplyOverrides([a, b] + rest) && b !in ApplyOverrides([a, b] + rest)
    ensures a.clauseId in a.overrides ==> a !in ApplyOverrides([a] + rest)
  {
    var all := [a, b] + rest;
    assert a in all && b in all;
    assert IsOverridden(a, all) && IsOverridden(b, all);
    assert a in [a] + rest;
    assert IsOverridden(a, [a] + rest) <== a.clauseId in a.overrides;
  }
}
