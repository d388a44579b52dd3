/** Which service aggregates a committee can certify, and what two of them have in common. */
module Committee {
  import opened Prelude
  import opened Sequences
  import opened Schedule
  import opened Service
  import opened Containers

  function Threshold(committeeSize: nat): nat {
    if committeeSize == 0 then 0 else committeeSize * 2 / 3 + 1
  }

  /** `is_well_formed`; root stands for the hash of the attestation list. */
  predicate IsWellFormed(root: seq<ServiceAttestation> -> HashBytes, a: ServiceAggregate) {
    && a.attestations != []
    && a.attestationRoot == root(a.attestations)
    && a.counters == SummedCounters(a.attestations)
    && forall s | s in a.attestations :: s.subject == a.subject && s.epoch == a.epoch
  }

  /** Anything less is malformed. */
  lemma WellFormedMeans(root: seq<ServiceAttestation> -> HashBytes, a: ServiceAggregate)
    ensures IsWellFormed(root, a) <==>
            && a.attestations != []
            && a.attestationRoot == root(a.attestations) && a.counters == SummedCounters(a.attestations)
            && forall s :: s in a.attestations ==> s.subject == a.subject && s.epoch == a.epoch
  {
  }

  function Members(attestations: seq<ServiceAttestation>): seq<ValidatorId> {
    seq(|attestations|, i requires 0 <= i < |attestations| => attestations[i].member)
  }

  /** What acceptance means: well-formed, signed by different committee members, and enough of them. */
  ghost predicate Certified(e: ConsensusEngine, root: seq<ServiceAttestation> -> HashBytes, a: ServiceAggregate) {
    var committee := WitnessesFor(e, a.epoch, a.subject);
    && IsWellFormed(root, a)
    && Distinct(Members(a.attestations))
    && (forall s :: s in a.attestations ==> s.member in committee)
    && |a.attestations| >= Threshold(|committee|)
  }

  datatype AggregateError = Malformed | SignerNotInCommittee | DuplicateAttestation | BelowThreshold

  /** The attestations before i come from different committee members. */
  ghost predicate CleanUpTo(committee: seq<ValidatorId>, attestations: seq<ServiceAttestation>, i: nat)
    requires i <= |attestations|
  {
    && Distinct(Members(attestations[..i]))
    && forall j :: 0 <= j < i ==> attestations[j].member in committee
  }

  lemma CleanStep(committee: seq<ValidatorId>, attestations: seq<ServiceAttestation>, i: nat)
    requires i < |attestations| && CleanUpTo(committee, attestations, i)
    ensures Elements(Members(attestations[..i + 1])) == Elements(Members(attestations[..i])) + {attestations[i].member}
    ensures attestations[i].member in committee && attestations[i].member !in Members(attestations[..i]) ==>
              CleanUpTo(committee, attestations, i + 1)
  {
    var before := Members(attestations[..i]);
    assert Members(attestations[..i + 1]) == before + [attestations[i].member];
  }

  lemma CleanIsCertified(e: ConsensusEngine, root: seq<ServiceAttestation> -> HashBytes, a: ServiceAggregate, i: nat)
    requires i <= |a.attestations| && Certified(e, root, a)
    ensures CleanUpTo(WitnessesFor(e, a.epoch, a.subject), a.attestations, i)
    ensures i < |a.attestations| ==>
              && a.attestations[i].member in WitnessesFor(e, a.epoch, a.subject)
              && a.attestations[i].member !in Members(a.attestations[..i])
  {
    var members := Members(a.attestations);
    assert Members(a.attestations[..i]) == members[..i];
    forall j | 0 <= j < |a.attestations|
      ensures a.attestations[j].member in WitnessesFor(e, a.epoch, a.subject) && members[j] == a.attestations[j].member
    {
      assert a.attestations[j] in a.attestations;
    }
  }

  /** `validate_service_aggregate`, with the first reason for a refusal. */
  method ValidateServiceAggregate(e: ConsensusEngine, root: seq<ServiceAttestation> -> HashBytes, a: ServiceAggregate)
    returns (r: Result<(), AggregateError>)
    ensures r.Ok? <==> Certified(e, root, a)
    ensures r == Err(Malformed) <==> !IsWellFormed(root, a)
    ensures var committee := WitnessesFor(e, a.epoch, a.subject);
            && (r == Err(SignerNotInCommittee) ==>
                  exists i :: 0 <= i < |a.attestations| && CleanUpTo(committee, a.attestations, i)
                              && a.attestations[i].member !in committee)
            && (r == Err(DuplicateAttestation) ==>
                  exists i :: 0 <= i < |a.attestations| && CleanUpTo(committee, a.attestations, i)
                              && a.attestations[i].member in Members(a.attestations[..i]))
            && (r == Err(BelowThreshold) ==>
                  CleanUpTo(committee, a.attestations, |a.attestations|) && |a.attestations| < Threshold(|committee|))
  {
    hide IsWellFormed, WitnessesFor, Threshold, CleanUpTo;
    if !IsWellFormed(root, a) {
      return Err(Malformed);
    }
    var committee := WitnessesFor(e, a.epoch, a.subject);
    var threshold := Threshold(|committee|);
    var committeeMembers := set x | x in committee;
    var attested: set<ValidatorId> := {};
    NothingIsClean(committee, a.attestations);
    for i := 0 to |a.attestations|
      invariant CleanUpTo(committee, a.attestations, i)
      invariant attested == Elements(Members(a.attestations[..i]))
      invariant |attested| == i
    {
      var member := a.attestations[i].member;
      if Certified(e, root, a) {
        CleanIsCertified(e, root, a, i);
      }
      if member !in committeeMembers {
        return Err(SignerNotInCommittee);
      }
      if member in attested {
        return Err(DuplicateAttestation);
      }
      CleanStep(committee, a.attestations, i);
      attested := attested + {member};
    }
    AllClean(committee, a.attestations);
    if |attested| < threshold {
      return Err(BelowThreshold);
    }
    return Ok(());
  }

  lemma NothingIsClean(committee: seq<ValidatorId>, attestations: seq<ServiceAttestation>)
    ensures CleanUpTo(committee, attestations, 0)
  {
  }

  lemma AllClean(committee: seq<ValidatorId>, attestations: seq<ServiceAttestation>)
    ensures CleanUpTo(committee, attestations, |attestations|) <==>
            Distinct(Members(attestations)) && forall s :: s in attestations ==> s.member in committee
  {
    assert attestations[..|attestations|] == attestations;
    forall j | 0 <= j < |attestations| ensures attestations[j] in attestations {
    }
  }

  // ---- What an accepted aggregate carries ----

  /** Exactly its attestations' sums and root, all about its subject and epoch; nothing in it is free. */
  lemma AcceptedAggregate(e: ConsensusEngine, root: seq<ServiceAttestation> -> HashBytes, a: ServiceAggregate)
    requires Certified(e, root, a)
    ensures a == ServiceAggregate(a.attestations[0].subject, a.attestations[0].epoch, root(a.attestations),
                                  a.attestations, SummedCounters(a.attestations))
    ensures forall s :: s in a.attestations ==> s.subject == a.subject && s.epoch == a.epoch
  {
    WellFormedMeans(root, a);
    assert a.attestations[0] in a.attestations;
  }

  /** So two accepted aggregates with the same attestations are the same. */
  lemma AcceptedAggregateUnique(
    e: ConsensusEngine, root: seq<ServiceAttestation> -> HashBytes, a: ServiceAggregate, b: ServiceAggregate
  )
    requires Certified(e, root, a) && Certified(e, root, b) && a.attestations == b.attestations
    ensures a == b
  {
    AcceptedAggregate(e, root, a);
    AcceptedAggregate(e, root, b);
  }

  /** And the counters an accepted aggregate claims score at least the mean of what its members attested. */
  lemma AcceptedScoreAtLeastMean(
    e: ConsensusEngine, root: seq<ServiceAttestation> -> HashBytes, a: ServiceAggregate, windows: u64, w: Weights
  )
    requires Certified(e, root, a)
    requires NonNegative(w) && windows > 0 && AllObserverShaped(windows, a.attestations) && SumsFit(a.attestations)
    ensures ScoreSum(a.attestations, w) <= |a.attestations| as real * ServiceScore(a.counters, w)
  {
    hide ServiceScore, SummedCounters, ScoreSum, Certified, AllObserverShaped, SumsFit;
    AcceptedAggregate(e, root, a);
    AggregateAtLeastMean(windows, a.attestations, w);
  }

  // ---- Quorums ----

  lemma UnionSize<T>(a: set<T>, b: set<T>)
    ensures |a| + |b| == |a + b| + |a * b|
  {
    assert a + b == a + (b - a);
    assert b == (b - a) + (a * b);
  }

  lemma CertifiedMembers(e: ConsensusEngine, root: seq<ServiceAttestation> -> HashBytes, a: ServiceAggregate)
    requires Certified(e, root, a)
    ensures Elements(Members(a.attestations)) <= Elements(WitnessesFor(e, a.epoch, a.subject))
    ensures |Elements(Members(a.attestations))| >= Threshold(|WitnessesFor(e, a.epoch, a.subject)|)
  {
    var members := Members(a.attestations);
    DistinctCardinality(members);
    forall m | m in Elements(members) ensures m in WitnessesFor(e, a.epoch, a.subject) {
      var i :| 0 <= i < |members| && members[i] == m;
      assert a.attestations[i] in a.attestations;
    }
  }

  /**
   Two aggregates certified for one subject and epoch share members of its committee:
   at least a third of it, and always at least one.
   */
  lemma QuorumIntersection(
    e: ConsensusEngine, root: seq<ServiceAttestation> -> HashBytes, a: ServiceAggregate, b: ServiceAggregate
  )
    requires Certified(e, root, a) && Certified(e, root, b)
    requires a.subject == b.subject && a.epoch == b.epoch
    ensures var committee := WitnessesFor(e, a.epoch, a.subject);
            var shared := Elements(Members(a.attestations)) * Elements(Members(b.attestations));
            && shared <= Elements(committee)
            && 3 * |shared| >= |committee| + 2
  {
    var committee := WitnessesFor(e, a.epoch, a.subject);
    var x, y := Elements(Members(a.attestations)), Elements(Members(b.attestations));
    assert a.attestations[0] in a.attestations;
    CertifiedMembers(e, root, a);
    CertifiedMembers(e, root, b);
    UnionSize(x, y);
    SubsetCardinality(x + y, Elements(committee));
    ElementsCardinality(committee);
  }

  /** A quorum tolerates exactly the silence of fewer than a third of the committee. */
  lemma ThresholdExact(committeeSize: nat)
    ensures committeeSize == 0 ==> Threshold(committeeSize) == 0
    ensures committeeSize > 0 ==>
              && 3 * Threshold(committeeSize) > 2 * committeeSize >= 3 * (Threshold(committeeSize) - 1)
              && Threshold(committeeSize) == committeeSize - (committeeSize - 1) / 3
  {
  }

  /** Any quorum of different committee members can certify. */
  lemma QuorumCanCertify(
    e: ConsensusEngine, root: seq<ServiceAttestation> -> HashBytes, epoch: Epoch, subject: ValidatorId,
    members: seq<ValidatorId>
  )
    requires Distinct(members) && members != [] && |members| >= Threshold(|WitnessesFor(e, epoch, subject)|)
    requires forall m :: m in members ==> m in WitnessesFor(e, epoch, subject)
    ensures var a := AggregateOf(root, epoch, subject, members);
            Certified(e, root, a) && a.epoch == epoch && a.subject == subject && Members(a.attestations) == members
  {
    hide SummedCounters, WitnessesFor, Threshold;
    assert Members(AggregateOf(root, epoch, subject, members).attestations) == members;
  }

  lemma CommitteeDistinct(e: ConsensusEngine, epoch: Epoch, subject: ValidatorId)
    requires Distinct(e.validatorIds) && WitnessesFor(e, epoch, subject) != []
    ensures Distinct(WitnessesFor(e, epoch, subject))
  {
    hide Assignments, Distinct;
    AssignedIffValidator(e, epoch, subject);
    ExactlyKWitnesses(e, epoch, subject);
  }

  lemma CertifiedNeedsCommittee(e: ConsensusEngine, root: seq<ServiceAttestation> -> HashBytes, a: ServiceAggregate)
    requires Certified(e, root, a)
    ensures WitnessesFor(e, a.epoch, a.subject) != []
  {
    hide SummedCounters, WitnessesFor;
    assert a.attestations[0] in a.attestations;
  }

  /** Certification is possible exactly when the committee is not empty, although the threshold of 0 is 0. */
  lemma CertifiableIffCommittee(
    e: ConsensusEngine, root: seq<ServiceAttestation> -> HashBytes, epoch: Epoch, subject: ValidatorId
  )
    requires Distinct(e.validatorIds)
    ensures (exists a :: Certified(e, root, a) && a.epoch == epoch && a.subject == subject) <==>
            WitnessesFor(e, epoch, subject) != []
  {
    hide Certified, WitnessesFor, Distinct, AggregateOf;
    var committee := WitnessesFor(e, epoch, subject);
    forall a | Certified(e, root, a) && a.epoch == epoch && a.subject == subject
      ensures committee != []
    {
      CertifiedNeedsCommittee(e, root, a);
    }
    if committee != [] {
      CommitteeDistinct(e, epoch, subject);
      ThresholdExact(|committee|);
      QuorumCanCertify(e, root, epoch, subject, committee);
    }
  }

  /** The given members attest, reporting nothing. */
  function AggregateOf(
    root: seq<ServiceAttestation> -> HashBytes, epoch: Epoch, subject: ValidatorId, members: seq<ValidatorId>
  ): ServiceAggregate {
    var attestations := seq(|members|, i requires 0 <= i < |members| =>
      ServiceAttestation(subject, members[i], epoch, NO_COUNTERS, Single(SignatureScheme.DevDeterministic, [])));
    ServiceAggregate(subject, epoch, root(attestations), attestations, SummedCounters(attestations))
  }
}
