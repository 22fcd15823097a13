/** Composition and alignment glue around the policy-level rules
    (retriever.py). The semantic search is outside the model: its result is
    passed in as `hits`, and every search of one request is assumed to return
    the same hits. */
module Retriever {
  import opened Wrappers
  import opened Seqs
  import opened PolicyModel
  import opened Authority

  const SafeReason := "Policies applicable, authoritative, and sufficient"

  /** The candidates that apply to the request, in search order. */
  function ApplicableChunks(candidates: seq<PolicyChunk>, req: RetrievalRequest): (valid: seq<PolicyChunk>)
    ensures IsSubsequence(valid, candidates)
    ensures forall c :: c in valid <==> c in candidates && IsApplicable(c.metadata, req)
    ensures forall c {:trigger multiset(valid)[c]} ::
      multiset(valid)[c] == if IsApplicable(c.metadata, req) then multiset(candidates)[c] else 0
  {
    Filter((c: PolicyChunk) => IsApplicable(c.metadata, req), candidates)
  }

  lemma ApplicableChunksKeepsAll(candidates: seq<PolicyChunk>, req: RetrievalRequest)
    requires forall c :: c in candidates ==> IsApplicable(c.metadata, req)
    ensures ApplicableChunks(candidates, req) == candidates
  {
    FilterKeepsAll((c: PolicyChunk) => IsApplicable(c.metadata, req), candidates);
  }

  /** The candidates the applicability filter rejects. */
  function ExcludedChunks(candidates: seq<PolicyChunk>, req: RetrievalRequest): (excluded: seq<PolicyChunk>)
    ensures forall c :: c in excluded <==> c in candidates && !IsApplicable(c.metadata, req)
    ensures forall c {:trigger multiset(excluded)[c]} ::
      multiset(excluded)[c] == if IsApplicable(c.metadata, req) then 0 else multiset(candidates)[c]
  {
    Filter((c: PolicyChunk) => !IsApplicable(c.metadata, req), candidates)
  }

  /** Every candidate is either kept or excluded, never both. */
  lemma {:induction false} ApplicableExcludedPartition(candidates: seq<PolicyChunk>, req: RetrievalRequest)
    ensures |ApplicableChunks(candidates, req)| + |ExcludedChunks(candidates, req)| == |candidates|
  {
    if |candidates| > 0 {
      ApplicableExcludedPartition(candidates[1..], req);
    }
  }

  /** The authoritative chunks among the applicable candidates: applicable,
      not outranked by another applicable candidate, in search order. */
  function RetrieveResolvedChunks(req: RetrievalRequest, candidates: seq<PolicyChunk>): (resolved: seq<PolicyChunk>)
    ensures IsSubsequence(resolved, candidates)
    ensures forall c :: c in resolved <==>
      c in candidates && IsApplicable(c.metadata, req) && AtTopAuthority(c, ApplicableChunks(candidates, req))
    ensures forall c {:trigger multiset(resolved)[c]} ::
      multiset(resolved)[c] ==
        if IsApplicable(c.metadata, req) && AtTopAuthority(c, ApplicableChunks(candidates, req))
        then multiset(candidates)[c] else 0
    ensures (exists c :: c in candidates && IsApplicable(c.metadata, req)) ==> |resolved| > 0
  {
    var valid := ApplicableChunks(candidates, req);
    var resolved := ResolveAuthority(valid);
    SubsequenceTransitive(resolved, valid, candidates);
    resolved
  }

  /** The scored hits whose chunk is applicable, in search order. */
  function ApplicableHits(hits: seq<ScoredChunk>, req: RetrievalRequest): (kept: seq<ScoredChunk>)
    ensures forall h :: h in kept <==> h in hits && IsApplicable(h.0.metadata, req)
  {
    Filter((h: ScoredChunk) => IsApplicable(h.0.metadata, req), hits)
  }

  lemma ApplicableHitsCons(hits: seq<ScoredChunk>, req: RetrievalRequest)
    requires |hits| > 0
    ensures ApplicableHits(hits, req) ==
      (if IsApplicable(hits[0].0.metadata, req) then [hits[0]] else []) + ApplicableHits(hits[1..], req)
  {
  }

  lemma ChunksScoresCons(h: ScoredChunk, rest: seq<ScoredChunk>)
    ensures ChunksOf([h] + rest) == [h.0] + ChunksOf(rest)
    ensures ScoresOf([h] + rest) == [h.1] + ScoresOf(rest)
  {
    var all := [h] + rest;
    var chunks, scores := ChunksOf(all), ScoresOf(all);
    forall k | 0 <= k < |all|
      ensures chunks[k] == ([h.0] + ChunksOf(rest))[k]
      ensures scores[k] == ([h.1] + ScoresOf(rest))[k]
    {
      if k > 0 {
        assert all[k] == rest[k - 1];
      }
    }
  }

  /** The applicability filter run over scored hits, keeping the chunk list
      and the score list in lockstep: entry `k` of both lists comes from the
      same applicable hit. */
  function ApplicableWithScores(hits: seq<ScoredChunk>, req: RetrievalRequest): (r: (seq<PolicyChunk>, seq<real>))
    ensures |r.0| == |r.1|
    ensures r.0 == ApplicableChunks(ChunksOf(hits), req)
    ensures r.0 == ChunksOf(ApplicableHits(hits, req)) && r.1 == ScoresOf(ApplicableHits(hits, req))
  {
    if |hits| == 0 then ([], [])
    else
      var rest := ApplicableWithScores(hits[1..], req);
      ApplicableHitsCons(hits, req);
      assert ChunksOf(hits)[1..] == ChunksOf(hits[1..]);
      if IsApplicable(hits[0].0.metadata, req) then
        ChunksScoresCons(hits[0], ApplicableHits(hits[1..], req));
        ([hits[0].0] + rest.0, [hits[0].1] + rest.1)
      else
        rest
  }

  /** The index of the first chunk of `chunks` with policy id `id`. */
  function FirstIndexOfPolicy(id: string, chunks: seq<PolicyChunk>): (r: Option<nat>)
    ensures r.Some? ==>
      && r.value < |chunks|
      && IdOf(chunks[r.value]) == id
      && forall j :: 0 <= j < r.value ==> IdOf(chunks[j]) != id
    ensures r.None? <==> forall j :: 0 <= j < |chunks| ==> IdOf(chunks[j]) != id
  {
    if |chunks| == 0 then None
    else if IdOf(chunks[0]) == id then Some(0)
    else
      match FirstIndexOfPolicy(id, chunks[1..])
      case None => None
      case Some(i) => Some(i + 1)
  }

  /** `s` is the score paired with the first chunk of policy `id`. */
  ghost predicate IsFirstScore(id: string, chunks: seq<PolicyChunk>, scores: seq<real>, s: real)
    requires |chunks| == |scores|
  {
    exists i :: 0 <= i < |chunks| && IdOf(chunks[i]) == id && scores[i] == s
      && forall j :: 0 <= j < i ==> IdOf(chunks[j]) != id
  }

  /** One score per resolved chunk, looked up by policy id in the valid
      lists; a chunk whose id is not found gets no score. When every resolved
      chunk is one of the valid chunks the lookup always hits, so the two
      lists stay the same length. */
  function ResolvedScores(resolved: seq<PolicyChunk>, validChunks: seq<PolicyChunk>, validScores: seq<real>): (scores: seq<real>)
    requires |validChunks| == |validScores|
    ensures |scores| <= |resolved|
    ensures (forall c :: c in resolved ==> c in validChunks) ==>
      && |scores| == |resolved|
      && forall k :: 0 <= k < |resolved| ==> IsFirstScore(IdOf(resolved[k]), validChunks, validScores, scores[k])
  {
    if |resolved| == 0 then []
    else
      var rest := ResolvedScores(resolved[1..], validChunks, validScores);
      assert forall c :: c in resolved[1..] ==> c in resolved;
      match FirstIndexOfPolicy(IdOf(resolved[0]), validChunks)
      case Some(i) =>
        var scores := [validScores[i]] + rest;
        assert IsFirstScore(IdOf(resolved[0]), validChunks, validScores, scores[0]);
        scores
      case None =>
        assert resolved[0] in resolved;
        rest
  }

  /** The authoritative chunks of the search result together with their
      scores. */
  function RetrievePoliciesWithScores(req: RetrievalRequest, hits: seq<ScoredChunk>): (r: (seq<PolicyChunk>, seq<real>))
    ensures |r.0| == |r.1|
    ensures r.0 == RetrieveResolvedChunks(req, ChunksOf(hits))
    ensures var valid := ApplicableWithScores(hits, req);
      forall k :: 0 <= k < |r.0| ==> IsFirstScore(IdOf(r.0[k]), valid.0, valid.1, r.1[k])
  {
    var valid := ApplicableWithScores(hits, req);
    var resolved := ResolveAuthority(valid.0);
    (resolved, ResolvedScores(resolved, valid.0, valid.1))
  }

  /** Policy-level decision: an equal-authority conflict is reported before
      coverage is looked at; SAFE needs exactly one authoritative policy whose
      score reaches the threshold, and then cites it alone. */
  function RetrieveAndValidate(req: RetrievalRequest, hits: seq<ScoredChunk>): (v: ValidationResult)
    ensures var resolved := RetrievePoliciesWithScores(req, hits).0;
      |resolved| >= 2 ==> v == ValidationResult(Conflict, EqualAuthorityReason, PolicyIds(resolved))
    ensures var resolved := RetrievePoliciesWithScores(req, hits).0;
      |resolved| == 0 ==> v == ValidationResult(InsufficientCoverage, NoApplicablePolicyReason, [])
    ensures var r := RetrievePoliciesWithScores(req, hits);
      |r.0| == 1 && r.1[0] < ConfidenceThreshold ==>
        v == ValidationResult(InsufficientCoverage, LowRelevanceReason, [IdOf(r.0[0])])
    ensures var r := RetrievePoliciesWithScores(req, hits);
      v.status == Safe <==> |r.0| == 1 && r.1[0] >= ConfidenceThreshold
    ensures var resolved := RetrievePoliciesWithScores(req, hits).0;
      v.status == Safe ==> v == ValidationResult(Safe, SafeReason, [IdOf(resolved[0])])
  {
    var r := RetrievePoliciesWithScores(req, hits);
    var policies := r.0;
    var scores := r.1;
    ConflictOnResolvedIffMultiple(ApplicableWithScores(hits, req).0);
    var conflict := DetectConflict(policies);
    if conflict.Some? then conflict.value
    else
      var coverage := ValidateCoverage(policies, scores);
      if coverage.Some? then coverage.value
      else ValidationResult(Safe, SafeReason, PolicyIds(policies))
  }

  /** A SAFE policy-level result cites the sole authoritative chunk that the
      chunk-only search path resolves. */
  lemma SafeCitesSoleResolvedPolicy(req: RetrievalRequest, hits: seq<ScoredChunk>)
    requires RetrieveAndValidate(req, hits).status == Safe
    ensures var resolved := RetrieveResolvedChunks(req, ChunksOf(hits));
      && |resolved| == 1
      && RetrieveAndValidate(req, hits).supportingPolicyIds == [IdOf(resolved[0])]
  {
  }

  /** Python's `str(n)` for an integer. */
  function DecimalString(n: int): (s: string)
    ensures |s| > 0
  {
    if n < 0 then "-" + NatDigits(-n) else NatDigits(n)
  }

  function DigitChar(d: nat): char
    requires d < 10
  {
    ('0' as int + d) as char
  }

  function DigitValue(c: char): nat {
    if '0' <= c <= '9' then (c as int - '0' as int) as nat else 0
  }

  function NatDigits(n: nat): (s: string)
    ensures |s| > 0
    ensures forall k :: 0 <= k < |s| ==> '0' <= s[k] <= '9'
  {
    if n < 10 then [DigitChar(n)] else NatDigits(n / 10) + [DigitChar(n % 10)]
  }

  function ParseNat(s: string): nat {
    if |s| == 0 then 0 else ParseNat(s[..|s| - 1]) * 10 + DigitValue(s[|s| - 1])
  }

  function ParseDecimal(s: string): int {
    if |s| > 0 && s[0] == '-' then -(ParseNat(s[1..]) as int) else ParseNat(s)
  }

  lemma {:induction false} NatDigitsRoundTrip(n: nat)
    ensures ParseNat(NatDigits(n)) == n
  {
    if n >= 10 {
      NatDigitsRoundTrip(n / 10);
      var s := NatDigits(n);
      assert s[..|s| - 1] == NatDigits(n / 10);
    }
  }

  /** The decimal rendering of an authority level reads back as that level. */
  lemma DecimalStringRoundTrip(n: int)
    ensures ParseDecimal(DecimalString(n)) == n
  {
    if n < 0 {
      var digits := NatDigits(-n);
      NatDigitsRoundTrip(-n);
      assert DecimalString(n) == "-" + digits;
      assert ("-" + digits)[1..] == digits;
    } else {
      var digits := NatDigits(n);
      NatDigitsRoundTrip(n);
      assert digits[0] != '-';
    }
  }

  const InclusionPrefix := "Authority level "
  const InclusionSuffix := ", applicable to jurisdiction"

  /** The inclusion reason of a response entry, naming its authority level. */
  function InclusionReason(level: int): string {
    InclusionPrefix + DecimalString(level) + InclusionSuffix
  }

  /** The level can be read back from an inclusion reason. */
  lemma InclusionReasonNamesLevel(level: int)
    ensures var s := InclusionReason(level);
      && |InclusionPrefix| + |InclusionSuffix| <= |s|
      && ParseDecimal(s[|InclusionPrefix|..|s| - |InclusionSuffix|]) == level
  {
    var s := InclusionReason(level);
    assert s[|InclusionPrefix|..|s| - |InclusionSuffix|] == DecimalString(level);
    DecimalStringRoundTrip(level);
  }

  /** One response entry per resolved chunk, in order, carrying the chunk's
      policy id, text and metadata. */
  function BuildResponse(resolved: seq<PolicyChunk>, excludedCount: int): (resp: RetrievalResponse)
    ensures resp.excludedCount == excludedCount
    ensures |resp.policies| == |resolved|
    ensures forall k :: 0 <= k < |resolved| ==>
      && resp.policies[k].policyId == IdOf(resolved[k])
      && resp.policies[k].text == resolved[k].text
      && resp.policies[k].metadata == resolved[k].metadata
      && resp.policies[k].inclusionReason == InclusionReason(LevelOf(resolved[k]))
  {
    var policies := seq(|resolved|, k requires 0 <= k < |resolved| =>
      RetrievedPolicy(IdOf(resolved[k]), resolved[k].text, resolved[k].metadata, InclusionReason(LevelOf(resolved[k]))));
    RetrievalResponse(policies, excludedCount)
  }

  /** Extending the candidate list by one chunk extends exactly one of the
      kept and the excluded lists by it. */
  lemma ApplicableExcludedSnoc(candidates: seq<PolicyChunk>, chunk: PolicyChunk, req: RetrievalRequest)
    ensures ApplicableChunks(candidates + [chunk], req) ==
      ApplicableChunks(candidates, req) + (if IsApplicable(chunk.metadata, req) then [chunk] else [])
    ensures ExcludedChunks(candidates + [chunk], req) ==
      ExcludedChunks(candidates, req) + (if IsApplicable(chunk.metadata, req) then [] else [chunk])
  {
    FilterAppend((c: PolicyChunk) => IsApplicable(c.metadata, req), candidates, [chunk]);
    FilterAppend((c: PolicyChunk) => !IsApplicable(c.metadata, req), candidates, [chunk]);
  }

  /** One more candidate examined: the applicable list grows by it exactly when it applies. */
  lemma ApplicableExcludedStep(candidates: seq<PolicyChunk>, i: nat, req: RetrievalRequest)
    requires i < |candidates|
    ensures ApplicableChunks(candidates[..i + 1], req) ==
      ApplicableChunks(candidates[..i], req) + (if IsApplicable(candidates[i].metadata, req) then [candidates[i]] else [])
  {
    assert candidates[..i + 1] == candidates[..i] + [candidates[i]];
    ApplicableExcludedSnoc(candidates[..i], candidates[i], req);
  }

  /** The response listing: the applicable candidates are resolved and the
      rejected ones counted. */
  method RetrievePolicies(req: RetrievalRequest, candidates: seq<PolicyChunk>) returns (resp: RetrievalResponse)
    ensures resp.excludedCount + |ApplicableChunks(candidates, req)| == |candidates|
    ensures resp.excludedCount == |ExcludedChunks(candidates, req)|
    ensures resp == BuildResponse(RetrieveResolvedChunks(req, candidates), resp.excludedCount)
  {
    var valid: seq<PolicyChunk> := [];
    var excluded := 0;
    var i := 0;
    while i < |candidates|
      invariant 0 <= i <= |candidates|
      invariant valid == ApplicableChunks(candidates[..i], req)
      invariant excluded + |valid| == i
    {
      var chunk := candidates[i];
      ApplicableExcludedStep(candidates, i, req);
      if !IsApplicable(chunk.metadata, req) {
        excluded := excluded + 1;
        i := i + 1;
        continue;
      }
      valid := valid + [chunk];
      i := i + 1;
    }
    assert candidates[..i] == candidates;
    ApplicableExcludedPartition(candidates, req);
    var resolved := ResolveAuthority(valid);
    resp := BuildResponse(resolved, excluded);
  }
}
