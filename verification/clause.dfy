/** Clause-level rules and the end-to-end decision pipeline (clause.py).
    The clause search is outside the model: it is the parameter
    `fetchClauses`, called with the query, the approved policy ids and the
    result count. */
module Clause {
  import opened Wrappers
  import opened Seqs
  import opened PolicyModel
  import opened Retriever

  const NoClauseReason := "No explicit policy clause addresses this question"
  const ClauseConflictReason := "Conflicting allow/deny clauses detected"

  /** Result count asked of the clause search. */
  const ClauseTopK: nat := 10

  /** A clause without a role list applies to every role; otherwise the
      role must be listed. */
  function IsClauseApplicableForRole(c: PolicyClause, role: string): (b: bool)
    ensures b <==> c.appliesToRoles == None || role in c.appliesToRoles.value
  {
    if c.appliesToRoles.None? then true else role in c.appliesToRoles.value
  }

  /** The clauses that apply to `role`, in order. */
  function FilterByRole(clauses: seq<PolicyClause>, role: string): (r: seq<PolicyClause>)
    ensures IsSubsequence(r, clauses)
    ensures forall c :: c in r <==>
      c in clauses && (c.appliesToRoles == None || role in c.appliesToRoles.value)
    ensures forall c {:trigger multiset(r)[c]} ::
      multiset(r)[c] == if IsClauseApplicableForRole(c, role) then multiset(clauses)[c] else 0
  {
    Filter((c: PolicyClause) => IsClauseApplicableForRole(c, role), clauses)
  }

  /** Some clause of `clauses` lists `c` as superseded. */
  ghost predicate IsOverridden(c: PolicyClause, clauses: seq<PolicyClause>) {
    exists d :: d in clauses && c.clauseId in d.overrides
  }

  /** The union of every clause's `overrides` list (no transitive closure). */
  function OverriddenIds(clauses: seq<PolicyClause>): (ids: set<string>)
    ensures forall id :: id in ids <==> exists d :: d in clauses && id in d.overrides
  {
    if |clauses| == 0 then {}
    else
      var rest := OverriddenIds(clauses[1..]);
      assert forall d :: d in clauses <==> d == clauses[0] || d in clauses[1..];
      (set id | id in clauses[0].overrides) + rest
  }

  /** Drops every clause some clause of the input supersedes, whatever its
      type or role; a clause that overrides itself, or two that override
      each other, are dropped too. */
  function ApplyOverrides(clauses: seq<PolicyClause>): (r: seq<PolicyClause>)
    ensures IsSubsequence(r, clauses)
    ensures forall c :: c in r <==> c in clauses && !IsOverridden(c, clauses)
    ensures forall c {:trigger multiset(r)[c]} ::
      multiset(r)[c] == if IsOverridden(c, clauses) then 0 else multiset(clauses)[c]
  {
    var overridden := OverriddenIds(clauses);
    Filter((c: PolicyClause) => c.clauseId !in overridden, clauses)
  }

  /** The survivors supersede nothing among themselves, so a second pass
      changes nothing. */
  lemma ApplyOverridesIdempotent(clauses: seq<PolicyClause>)
    ensures ApplyOverrides(ApplyOverrides(clauses)) == ApplyOverrides(clauses)
  {
    var once := ApplyOverrides(clauses);
    var overridden := OverriddenIds(once);
    assert forall c :: c in once ==> c.clauseId !in overridden by {
      forall c | c in once
        ensures c.clauseId !in overridden
      {
        assert forall d :: d in once ==> d in clauses;
      }
    }
    FilterKeepsAll((c: PolicyClause) => c.clauseId !in overridden, once);
  }

  /** Dropping clauses can only shrink the set of superseded ids. */
  lemma ApplyOverridesShrinksOverridden(clauses: seq<PolicyClause>)
    ensures OverriddenIds(ApplyOverrides(clauses)) <= OverriddenIds(clauses)
  {
    var once := ApplyOverrides(clauses);
    forall id | id in OverriddenIds(once)
      ensures id in OverriddenIds(clauses)
    {
      var d :| d in once && id in d.overrides;
    }
  }

  ghost predicate HasType(clauses: seq<PolicyClause>, t: ClauseType) {
    exists c :: c in clauses && c.clauseType == t
  }

  /** The distinct policy ids of `clauses`, each once. */
  function DistinctPolicyIds(clauses: seq<PolicyClause>): (ids: seq<string>)
    ensures NoDuplicates(ids)
    ensures forall id :: id in ids <==> exists c :: c in clauses && c.policyId == id
  {
    var all := seq(|clauses|, k requires 0 <= k < |clauses| => clauses[k].policyId);
    assert forall c :: c in clauses ==> c.policyId in all by {
      forall c | c in clauses
        ensures c.policyId in all
      {
        var k :| 0 <= k < |clauses| && clauses[k] == c;
        assert all[k] == c.policyId;
      }
    }
    Distinct(all)
  }

  /** CONFLICT exactly when an allow and a deny clause are both present;
      the evidence is the distinct policy ids of all the input clauses, not
      only of the clashing ones. */
  function DetectClauseConflict(clauses: seq<PolicyClause>): (r: Option<ValidationResult>)
    ensures r.Some? <==> HasType(clauses, Allow) && HasType(clauses, Deny)
    ensures r.Some? ==>
      && r.value.status == Conflict
      && r.value.reason == ClauseConflictReason
      && NoDuplicates(r.value.supportingPolicyIds)
      && forall id :: id in r.value.supportingPolicyIds <==> exists c :: c in clauses && c.policyId == id
  {
    var types := set c | c in clauses :: c.clauseType;
    if Allow in types && Deny in types then
      Some(ValidationResult(Conflict, ClauseConflictReason, DistinctPolicyIds(clauses)))
    else
      None
  }

  /** Require, limit and define clauses never clash, whatever their mix. */
  lemma NonAllowDenyNeverConflicts(clauses: seq<PolicyClause>)
    requires forall c :: c in clauses ==> c.clauseType in {Require, Limit, Define}
    ensures DetectClauseConflict(clauses) == None
  {
  }

  /** Clause coverage fails exactly on an empty clause set. */
  function ValidateClauseCoverage(clauses: seq<PolicyClause>): (r: Option<ValidationResult>)
    ensures r.Some? <==> |clauses| == 0
    ensures r.Some? ==> r.value == ValidationResult(InsufficientCoverage, NoClauseReason, [])
  {
    if |clauses| == 0 then
      Some(ValidationResult(InsufficientCoverage, NoClauseReason, []))
    else
      None
  }

  /** The ids of the approved policies, as the set handed to the clause
      search. */
  function ApprovedPolicyIds(approved: seq<PolicyChunk>): (ids: set<string>)
    ensures forall id :: id in ids <==> exists p :: p in approved && IdOf(p) == id
  {
    set p | p in approved :: IdOf(p)
  }

  lemma SingletonApprovedIds(approved: seq<PolicyChunk>)
    requires |approved| == 1
    ensures ApprovedPolicyIds(approved) == {IdOf(approved[0])}
  {
    assert approved[0] in approved;
  }

  /** Asked about a non-empty set of policy ids, the clause search returns
      only clauses of those policies. An empty id set means no filter. */
  ghost predicate HonoursPolicyFilter(fetchClauses: (string, set<string>, nat) -> seq<PolicyClause>) {
    forall q, ids, k, c :: ids != {} && c in fetchClauses(q, ids, k) ==> c.policyId in ids
  }

  /** The clauses fetched for the approved policies: one search, over the
      set of their ids, for `topK` results (`ClauseTopK` by default). A
      single approved policy means a search for its id alone; a search that
      honours its filter returns only clauses of approved policies. */
  function RetrieveRelevantClauses(
    query: string, approved: seq<PolicyChunk>, topK: nat,
    fetchClauses: (string, set<string>, nat) -> seq<PolicyClause>): (r: seq<PolicyClause>)
    ensures r == fetchClauses(query, set p | p in approved :: IdOf(p), topK)
    ensures |approved| == 1 ==> r == fetchClauses(query, {IdOf(approved[0])}, topK)
    ensures HonoursPolicyFilter(fetchClauses) && |approved| > 0 ==>
      forall c :: c in r ==> exists p :: p in approved && IdOf(p) == c.policyId
  {
    var ids := ApprovedPolicyIds(approved);
    assert |approved| == 1 ==> ids == {IdOf(approved[0])} by {
      if |approved| == 1 {
        SingletonApprovedIds(approved);
      }
    }
    assert |approved| > 0 ==> IdOf(approved[0]) in ids;
    fetchClauses(query, ids, topK)
  }

  /** Role filtering, then override suppression: the clauses that apply to
      the role and that no role-applicable clause supersedes, in order. */
  function ProcessClauses(clauses: seq<PolicyClause>, role: string): (r: seq<PolicyClause>)
    ensures IsSubsequence(r, clauses)
    ensures forall c :: c in r <==>
      c in clauses && IsClauseApplicableForRole(c, role) && !IsOverridden(c, FilterByRole(clauses, role))
    ensures forall c {:trigger multiset(r)[c]} ::
      multiset(r)[c] ==
        if IsClauseApplicableForRole(c, role) && !IsOverridden(c, FilterByRole(clauses, role))
        then multiset(clauses)[c] else 0
  {
    var roleApplicable := FilterByRole(clauses, role);
    var r := ApplyOverrides(roleApplicable);
    SubsequenceTransitive(r, roleApplicable, clauses);
    r
  }

  /** Steps after a SAFE policy-level result: role filter, overrides, then
      the clause conflict check before the clause coverage check. A refusal
      replaces the SAFE result and empties the clause list. */
  function ClauseStage(validation: ValidationResult, fetched: seq<PolicyClause>, role: string): (r: (ValidationResult, seq<PolicyClause>))
    requires validation.status == Safe
    ensures r.0.status != Safe ==> r.1 == []
    ensures r.0.status == Safe ==>
      && r.0 == validation
      && |r.1| > 0
      && (forall c :: c in r.1 ==> IsClauseApplicableForRole(c, role))
      && !(HasType(r.1, Allow) && HasType(r.1, Deny))
      && IsSubsequence(r.1, fetched)
      && (forall c :: c in r.1 ==> !IsOverridden(c, FilterByRole(fetched, role)))
      && r.1 == ProcessClauses(fetched, role)
    ensures var processed := ProcessClauses(fetched, role);
      && (HasType(processed, Allow) && HasType(processed, Deny) ==>
            && r.0.status == Conflict
            && r == (DetectClauseConflict(processed).value, []))
      && (|processed| == 0 ==> r.0 == ValidationResult(InsufficientCoverage, NoClauseReason, []))
      && (r.0.status == Safe <==> |processed| > 0 && !(HasType(processed, Allow) && HasType(processed, Deny)))
  {
    var roleApplicable := FilterByRole(fetched, role);
    var clauses := ApplyOverrides(roleApplicable);
    SubsequenceTransitive(clauses, roleApplicable, fetched);
    var conflict := DetectClauseConflict(clauses);
    if conflict.Some? then (conflict.value, [])
    else
      var coverage := ValidateClauseCoverage(clauses);
      if coverage.Some? then (coverage.value, [])
      else (validation, clauses)
  }

  /** The end-to-end decision. A non-SAFE policy-level result is final, with
      no clauses. On SAFE the policy-level result cites one authoritative
      policy, and the clause search is asked for exactly that policy's id. */
  function RetrieveValidateClauses(
    req: RetrievalRequest, hits: seq<ScoredChunk>,
    fetchClauses: (string, set<string>, nat) -> seq<PolicyClause>): (r: (ValidationResult, seq<PolicyClause>))
    ensures var validation := RetrieveAndValidate(req, hits);
      && (validation.status != Safe ==> r == (validation, []))
      && (validation.status == Safe ==>
            && |validation.supportingPolicyIds| == 1
            && r == ClauseStage(validation, fetchClauses(req.query, {validation.supportingPolicyIds[0]}, ClauseTopK), req.role))
  {
    var validation := RetrieveAndValidate(req, hits);
    if validation.status != Safe then (validation, [])
    else
      var policies := RetrieveResolvedChunks(req, ChunksOf(hits));
      SafeCitesSoleResolvedPolicy(req, hits);
      var fetched := RetrieveRelevantClauses(req.query, policies, ClauseTopK, fetchClauses);
      ClauseStage(validation, fetched, req.role)
  }

  /** Every refusal, at either level, comes with an empty clause list; a
      SAFE outcome hands on the unchanged policy-level result with a
      non-empty, role-applicable list that never mixes allow and deny. */
  lemma PipelineOutcome(
    req: RetrievalRequest, hits: seq<ScoredChunk>,
    fetchClauses: (string, set<string>, nat) -> seq<PolicyClause>)
    ensures var r := RetrieveValidateClauses(req, hits, fetchClauses);
      && (r.0.status != Safe ==> r.1 == [])
      && (r.0.status == Safe ==>
            && r.0 == RetrieveAndValidate(req, hits)
            && |r.1| > 0
            && (forall c :: c in r.1 ==> IsClauseApplicableForRole(c, req.role))
            && !(HasType(r.1, Allow) && HasType(r.1, Deny)))
  {
    var validation := RetrieveAndValidate(req, hits);
    if validation.status == Safe {
      var fetched := fetchClauses(req.query, {validation.supportingPolicyIds[0]}, ClauseTopK);
      var r := ClauseStage(validation, fetched, req.role);
      assert r.0.status == Safe ==> r.0 == validation;
    }
  }

  /** A SAFE clause stage keeps only fetched clauses, so when the search
      for the cited policy honours its filter, the stage keeps clauses of
      that policy alone. */
  lemma ClauseStageKeepsPolicy(
    validation: ValidationResult, query: string, role: string,
    fetchClauses: (string, set<string>, nat) -> seq<PolicyClause>)
    requires HonoursPolicyFilter(fetchClauses)
    requires validation.status == Safe
    requires |validation.supportingPolicyIds| == 1
    ensures var id := validation.supportingPolicyIds[0];
      var r := ClauseStage(validation, fetchClauses(query, {id}, ClauseTopK), role);
      r.0.status == Safe ==>
        && r.0.supportingPolicyIds == [r.0.supportingPolicyIds[0]]
        && forall c :: c in r.1 ==> c.policyId == r.0.supportingPolicyIds[0]
  {
    var id := validation.supportingPolicyIds[0];
    var fetched := fetchClauses(query, {id}, ClauseTopK);
    var r := ClauseStage(validation, fetched, role);
    if r.0.status == Safe {
      SubsequenceMembers(r.1, fetched);
      forall c | c in r.1
        ensures c.policyId == id
      {
        assert c.policyId in {id};
      }
    }
  }

  /** When the clause search honours its policy-id filter, every clause
      handed to answer generation belongs to the single authoritative
      policy that the SAFE result cites. */
  lemma SafeClausesCiteAuthoritativePolicy(
    req: RetrievalRequest, hits: seq<ScoredChunk>,
    fetchClauses: (string, set<string>, nat) -> seq<PolicyClause>)
    requires HonoursPolicyFilter(fetchClauses)
    ensures var r := RetrieveValidateClauses(req, hits, fetchClauses);
      r.0.status == Safe ==>
        && r.0.supportingPolicyIds == [r.0.supportingPolicyIds[0]]
        && forall c :: c in r.1 ==> c.policyId == r.0.supportingPolicyIds[0]
  {
    var validation := RetrieveAndValidate(req, hits);
    if validation.status == Safe {
      ClauseStageKeepsPolicy(validation, req.query, req.role, fetchClauses);
    }
  }
}
