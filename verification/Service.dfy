/** Relay receipts, the counters and scores built from them, and service aggregates. */
module Service {
  import opened Prelude
  import opened Sequences
  import opened Containers
  import opened Schedule

  datatype MessageClass = Heartbeat | TransactionMessage | BlockMessage

  datatype RelayReceipt = RelayReceipt(
    epoch: Epoch,
    slot: u64,
    source: ValidatorId,
    destination: ValidatorId,
    observer: ValidatorId,
    messageClass: MessageClass,
    transcriptDigest: HashBytes,
    latencyBucketMs: u64,
    byteCountBucket: u64,
    sequenceNumber: u64,
    signature: TypedSignature
  )

  datatype ServiceCounters = ServiceCounters(
    uptimeWindows: u64,
    totalWindows: u64,
    timelyDeliveries: u64,
    expectedDeliveries: u64,
    distinctPeers: u64,
    expectedPeers: u64,
    failedSessions: u64,
    invalidReceipts: u64
  )

  const NO_COUNTERS := ServiceCounters(0, 0, 0, 0, 0, 0, 0, 0)

  // ---- Receipt validation ----

  datatype ReceiptError = EpochMismatch | WitnessNotAssigned | DestinationNotAssigned

  function EpochForSlot(e: ConsensusEngine, slot: u64): Epoch {
    if e.genesis.slotsPerEpoch == 0 then 0 else slot / e.genesis.slotsPerEpoch
  }

  function ValidateReceiptAssignment(e: ConsensusEngine, r: RelayReceipt): Result<(), ReceiptError> {
    if EpochForSlot(e, r.slot) != r.epoch then Err(EpochMismatch)
    else if r.observer !in WitnessesFor(e, r.epoch, r.source) then Err(WitnessNotAssigned)
    else if r.destination !in RelayTargetsFor(e, r.epoch, r.source) then Err(DestinationNotAssigned)
    else Ok(())
  }

  ghost predicate AllValid(e: ConsensusEngine, validator: ValidatorId, epoch: Epoch, receipts: seq<RelayReceipt>) {
    forall r :: r in receipts ==>
      r.source == validator && r.epoch == epoch && ValidateReceiptAssignment(e, r).Ok?
  }

  /** Steps around the ring from one position to another. */
  function RingDistance(n: nat, from: nat, to: nat): int {
    if to > from then to - from else to - from + n
  }

  /** The slot is one of the slotsPerEpoch slots of the receipt's epoch; without slots, the epoch is 0. */
  predicate SlotInEpochOf(e: ConsensusEngine, r: RelayReceipt) {
    var n: nat := e.genesis.slotsPerEpoch;
    if n == 0 then r.epoch == 0 else r.epoch * n <= r.slot < r.epoch * n + n
  }

  lemma EpochOfSlot(e: ConsensusEngine, r: RelayReceipt)
    ensures EpochForSlot(e, r.slot) == r.epoch <==> SlotInEpochOf(e, r)
  {
    var n: nat := e.genesis.slotsPerEpoch;
    if n > 0 {
      if r.epoch * n <= r.slot < r.epoch * n + n {
        QuotientUnique(r.slot, n, r.epoch);
      } else if r.slot / n == r.epoch {
        SlotInEpoch(r.slot, r.epoch, n);
      }
    }
  }

  lemma QuotientUnique(x: nat, n: nat, q: nat)
    requires n > 0 && q * n <= x < q * n + n
    ensures x / n == q
  {
    ModUnique(x, n, q, x - q * n);
    var d := x / n - q;
    assert d * n == 0;
    NoSmallMultiple(d, n);
  }

  /** Why a receipt is refused: the first of three checks that it fails. */
  lemma ReceiptErrors(e: ConsensusEngine, r: RelayReceipt)
    ensures var verdict := ValidateReceiptAssignment(e, r);
            var observed := r.observer in WitnessesFor(e, r.epoch, r.source);
            && (verdict == Err(EpochMismatch) <==> !SlotInEpochOf(e, r))
            && (verdict == Err(WitnessNotAssigned) <==> SlotInEpochOf(e, r) && !observed)
            && (verdict == Err(DestinationNotAssigned) <==>
                SlotInEpochOf(e, r) && observed && r.destination !in RelayTargetsFor(e, r.epoch, r.source))
  {
    hide WitnessesFor, RelayTargetsFor, SlotInEpochOf, EpochForSlot;
    EpochOfSlot(e, r);
  }

  /** Positions of a receipt's three parties on the ring, the two others within k steps after the source. */
  ghost predicate FollowSource(e: ConsensusEngine, r: RelayReceipt, source: nat, observer: nat, destination: nat) {
    var ids := e.validatorIds;
    && source < |ids| && observer < |ids| && destination < |ids|
    && ids[source] == r.source && ids[observer] == r.observer && ids[destination] == r.destination
    && 1 <= RingDistance(|ids|, source, observer) <= MaxRelations(e)
    && 1 <= RingDistance(|ids|, source, destination) <= MaxRelations(e)
  }

  /**
   A receipt is valid exactly when its slot lies in its epoch, all its parties are validators, and
   observer and destination follow the source within k steps.
   */
  lemma ReceiptValidIff(e: ConsensusEngine, r: RelayReceipt)
    requires Distinct(e.validatorIds)
    ensures ValidateReceiptAssignment(e, r).Ok? <==>
            && SlotInEpochOf(e, r)
            && exists source, observer, destination :: FollowSource(e, r, source, observer, destination)
  {
    hide Window, MaxRelations, Distinct, Assignments, EpochForSlot, SlotInEpochOf;
    EpochOfSlot(e, r);
    if ValidateReceiptAssignment(e, r).Ok? {
      var source := PositionOf(e, r.epoch, r.source);
      ExactlyKWitnesses(e, r.epoch, r.source);
      WitnessesEpochIndependent(e, r.epoch, r.epoch, r.source);
      var observer :| 0 <= observer < |e.validatorIds| && e.validatorIds[observer] == r.observer;
      var destination :| 0 <= destination < |e.validatorIds| && e.validatorIds[destination] == r.destination;
      WithinWindow(e, r.epoch, source, observer);
      WithinWindow(e, r.epoch, source, destination);
      assert FollowSource(e, r, source, observer, destination);
    } else if exists source, observer, destination :: FollowSource(e, r, source, observer, destination) {
      var source, observer, destination :| FollowSource(e, r, source, observer, destination);
      WitnessesEpochIndependent(e, r.epoch, r.epoch, r.source);
      WithinWindow(e, r.epoch, source, observer);
      WithinWindow(e, r.epoch, source, destination);
    }
  }

  /** Only validators have witnesses. */
  lemma PositionOf(e: ConsensusEngine, epoch: Epoch, validator: ValidatorId) returns (j: nat)
    requires WitnessesFor(e, epoch, validator) != []
    ensures j < |e.validatorIds| && e.validatorIds[j] == validator
  {
    hide Assignments;
    AssignedIffValidator(e, epoch, validator);
    j :| 0 <= j < |e.validatorIds| && e.validatorIds[j] == validator;
  }

  lemma WithinWindow(e: ConsensusEngine, epoch: Epoch, i: nat, j: nat)
    requires Distinct(e.validatorIds) && i < |e.validatorIds| && j < |e.validatorIds|
    ensures e.validatorIds[j] in WitnessesFor(e, epoch, e.validatorIds[i]) <==>
            1 <= RingDistance(|e.validatorIds|, i, j) <= MaxRelations(e)
  {
    hide Window, MaxRelations, Assignments, Distinct;
    RelationsFit(e, i);
    AssignmentClosedForm(e, epoch, i);
    WindowMember(e.validatorIds, i, j, MaxRelations(e));
  }

  // ---- Counters ----

  ghost function HeartbeatSlots(receipts: seq<RelayReceipt>): set<u64> {
    set r | r in receipts && r.messageClass.Heartbeat? :: r.slot
  }

  ghost function Destinations(receipts: seq<RelayReceipt>): set<ValidatorId> {
    set r | r in receipts :: r.destination
  }

  function Timely(e: ConsensusEngine): RelayReceipt -> int {
    (r: RelayReceipt) => if r.latencyBucketMs <= e.genesis.slotDurationMillis then 1 else 0
  }

  function Windows(e: ConsensusEngine): u64 {
    Max(e.genesis.slotsPerEpoch, 1)
  }

  /** A receipt list is a slice in memory, so its length and the counts over it fit 64 bits. */
  ghost predicate FitsMemory(receipts: seq<RelayReceipt>) {
    |receipts| <= U64_MAX
  }

  lemma {:induction false} TimelyBounds(e: ConsensusEngine, receipts: seq<RelayReceipt>)
    ensures 0 <= SumBy(Timely(e), receipts) <= |receipts|
  {
    if receipts != [] {
      TimelyBounds(e, receipts[1..]);
    }
  }

  lemma {:induction false} SlotAndPeerBounds(receipts: seq<RelayReceipt>)
    ensures |HeartbeatSlots(receipts)| <= |receipts|
    ensures |Destinations(receipts)| <= |receipts|
  {
    if receipts != [] {
      SlotAndPeerBounds(receipts[1..]);
      assert receipts == [receipts[0]] + receipts[1..];
      SubsetCardinality(HeartbeatSlots(receipts), HeartbeatSlots(receipts[1..]) + {receipts[0].slot});
      SubsetCardinality(Destinations(receipts), Destinations(receipts[1..]) + {receipts[0].destination});
    }
  }

  lemma ReceiptSnoc(e: ConsensusEngine, s: seq<RelayReceipt>, r: RelayReceipt)
    ensures HeartbeatSlots(s + [r]) == HeartbeatSlots(s) + if r.messageClass.Heartbeat? then {r.slot} else {}
    ensures Destinations(s + [r]) == Destinations(s) + {r.destination}
    ensures SumBy(Timely(e), s + [r]) == SumBy(Timely(e), s) + Timely(e)(r)
  {
    assert forall x :: x in s + [r] <==> x in s || x == r;
    SumSnoc(Timely(e), s, r);
  }

  lemma CountsFit(e: ConsensusEngine, receipts: seq<RelayReceipt>)
    requires FitsMemory(receipts)
    ensures |HeartbeatSlots(receipts)| <= U64_MAX && |Destinations(receipts)| <= U64_MAX
    ensures 0 <= SumBy(Timely(e), receipts) <= U64_MAX
  {
    TimelyBounds(e, receipts);
    SlotAndPeerBounds(receipts);
  }

  /** What a receipt list shows: distinct heartbeat slots, timely receipts and distinct destinations. */
  ghost function ReceiptCounters(
    e: ConsensusEngine, validator: ValidatorId, epoch: Epoch, receipts: seq<RelayReceipt>,
    failedSessions: u64, invalidReceipts: u64
  ): ServiceCounters
    requires FitsMemory(receipts)
  {
    CountsFit(e, receipts);
    ServiceCounters(
      |HeartbeatSlots(receipts)|, Windows(e), SumBy(Timely(e), receipts), Windows(e), |Destinations(receipts)|,
      Wrap(Max(|RelayTargetsFor(e, epoch, validator)|, 1)), failedSessions, invalidReceipts)
  }

  /** Where the receipts stand that arrived within a slot's duration. */
  ghost function InTime(e: ConsensusEngine, receipts: seq<RelayReceipt>): set<int> {
    set i | 0 <= i < |receipts| && receipts[i].latencyBucketMs <= e.genesis.slotDurationMillis
  }

  lemma TimelyCounts(e: ConsensusEngine, receipts: seq<RelayReceipt>)
    ensures SumBy(Timely(e), receipts) == |InTime(e, receipts)|
  {
    IndicatorSum(Timely(e), receipts);
    assert Positions(Timely(e), receipts) == InTime(e, receipts);
  }

  /** Field by field: different heartbeat slots, receipts in time, different destinations, and what was expected. */
  lemma ReceiptCountersExact(
    e: ConsensusEngine, validator: ValidatorId, epoch: Epoch, receipts: seq<RelayReceipt>,
    failedSessions: u64, invalidReceipts: u64
  )
    requires FitsMemory(receipts) && Distinct(e.validatorIds)
    ensures var c := ReceiptCounters(e, validator, epoch, receipts, failedSessions, invalidReceipts);
            var expected :=
              if validator in e.validatorIds then Min(e.genesis.witnessCount, |e.validatorIds| - 1) else 0;
            && c.uptimeWindows == |HeartbeatSlots(receipts)|
            && c.totalWindows == c.expectedDeliveries == Max(e.genesis.slotsPerEpoch, 1)
            && c.timelyDeliveries == |InTime(e, receipts)|
            && c.distinctPeers == |Destinations(receipts)|
            && c.expectedPeers == Wrap(Max(expected, 1))
            && c.failedSessions == failedSessions && c.invalidReceipts == invalidReceipts
    ensures forall s :: s in HeartbeatSlots(receipts) <==>
              exists r :: r in receipts && r.messageClass == Heartbeat && r.slot == s
    ensures forall d :: d in Destinations(receipts) <==> exists r :: r in receipts && r.destination == d
  {
    hide RelayTargetsFor, WitnessesFor, Wrap, Distinct;
    CountsFit(e, receipts);
    TimelyCounts(e, receipts);
    WitnessesEpochIndependent(e, epoch, epoch, validator);
    if validator in e.validatorIds {
      ExactlyKWitnesses(e, epoch, validator);
    } else {
      NoWitnesses(e, epoch, validator);
    }
  }

  lemma NoWitnesses(e: ConsensusEngine, epoch: Epoch, validator: ValidatorId)
    requires validator !in e.validatorIds
    ensures WitnessesFor(e, epoch, validator) == []
  {
    hide Assignments;
    AssignedIffValidator(e, epoch, validator);
  }

  /** `counters_from_receipts`: one pass that collects slots and peers in sets. */
  method CountersFromReceipts(
    e: ConsensusEngine, validator: ValidatorId, epoch: Epoch, receipts: seq<RelayReceipt>,
    failedSessions: u64, invalidReceipts: u64
  ) returns (c: ServiceCounters)
    requires FitsMemory(receipts)
    ensures c == ReceiptCounters(e, validator, epoch, receipts, failedSessions, invalidReceipts)
  {
    var heartbeatSlots: set<u64>, peers: set<ValidatorId> := {}, {};
    var timely: nat := 0;
    for i := 0 to |receipts|
      invariant heartbeatSlots == HeartbeatSlots(receipts[..i])
      invariant peers == Destinations(receipts[..i])
      invariant timely == SumBy(Timely(e), receipts[..i])
    {
      assert receipts[..i + 1] == receipts[..i] + [receipts[i]];
      ReceiptSnoc(e, receipts[..i], receipts[i]);
      if receipts[i].messageClass.Heartbeat? {
        heartbeatSlots := heartbeatSlots + {receipts[i].slot};
      }
      if receipts[i].latencyBucketMs <= e.genesis.slotDurationMillis {
        timely := timely + 1;
      }
      peers := peers + {receipts[i].destination};
    }
    assert receipts[..|receipts|] == receipts;
    CountsFit(e, receipts);
    c := ServiceCounters(
      |heartbeatSlots|, Windows(e), timely, Windows(e), |peers|,
      Wrap(Max(|RelayTargetsFor(e, epoch, validator)|, 1)), failedSessions, invalidReceipts);
  }

  /** The receipts one observer contributes about one validator. */
  predicate ObservedBy(validator: ValidatorId, observer: ValidatorId, epoch: Epoch, r: RelayReceipt) {
    r.source == validator && r.epoch == epoch && r.observer == observer
  }

  function Observed(
    validator: ValidatorId, observer: ValidatorId, epoch: Epoch, receipts: seq<RelayReceipt>
  ): (seen: seq<RelayReceipt>)
    ensures |seen| <= |receipts|
  {
    if receipts == [] then []
    else (if ObservedBy(validator, observer, epoch, receipts[0]) then [receipts[0]] else [])
         + Observed(validator, observer, epoch, receipts[1..])
  }

  /** `counters_for_validator_from_observer`. */
  method CountersFromObserver(
    e: ConsensusEngine, validator: ValidatorId, observer: ValidatorId, epoch: Epoch, receipts: seq<RelayReceipt>
  ) returns (c: ServiceCounters)
    requires FitsMemory(receipts)
    ensures c == ObserverCounters(e, validator, observer, epoch, receipts)
    ensures ObserverShaped(Windows(e), c)
  {
    hide WitnessesFor, Observed;
    if observer !in WitnessesFor(e, epoch, validator) {
      return NO_COUNTERS;
    }
    var seen := Observed(validator, observer, epoch, receipts);
    var heartbeatSlots: set<u64> := {};
    var timely: nat := 0;
    for i := 0 to |seen|
      invariant heartbeatSlots == HeartbeatSlots(seen[..i])
      invariant timely == SumBy(Timely(e), seen[..i])
    {
      assert seen[..i + 1] == seen[..i] + [seen[i]];
      ReceiptSnoc(e, seen[..i], seen[i]);
      if seen[i].messageClass.Heartbeat? {
        heartbeatSlots := heartbeatSlots + {seen[i].slot};
      }
      if seen[i].latencyBucketMs <= e.genesis.slotDurationMillis {
        timely := timely + 1;
      }
    }
    assert seen[..|seen|] == seen;
    CountsFit(e, seen);
    c := ServiceCounters(
      |heartbeatSlots|, Windows(e), timely, Windows(e), if seen == [] then 0 else 1, 1, 0, 0);
  }

  /** What an observer can report: distinct heartbeat slots, timely receipts, and contact or none. */
  ghost function ObserverCounters(
    e: ConsensusEngine, validator: ValidatorId, observer: ValidatorId, epoch: Epoch, receipts: seq<RelayReceipt>
  ): ServiceCounters
    requires FitsMemory(receipts)
  {
    var seen := Observed(validator, observer, epoch, receipts);
    CountsFit(e, seen);
    if observer !in WitnessesFor(e, epoch, validator) then NO_COUNTERS
    else ServiceCounters(|HeartbeatSlots(seen)|, Windows(e), SumBy(Timely(e), seen), Windows(e),
                         if seen == [] then 0 else 1, 1, 0, 0)
  }

  /** Observed receipts are those of the list about this validator, epoch and observer, as often as there. */
  lemma {:induction false} ObservedExact(
    validator: ValidatorId, observer: ValidatorId, epoch: Epoch, receipts: seq<RelayReceipt>, r: RelayReceipt
  )
    ensures multiset(Observed(validator, observer, epoch, receipts))[r] ==
            if r.source == validator && r.epoch == epoch && r.observer == observer then multiset(receipts)[r] else 0
  {
    if receipts != [] {
      ObservedExact(validator, observer, epoch, receipts[1..], r);
      HeadAndTail(receipts);
    }
  }

  /** What an observer reports, field by field: of its own receipts only, and nothing when it is not assigned. */
  lemma ObserverCountersExact(
    e: ConsensusEngine, validator: ValidatorId, observer: ValidatorId, epoch: Epoch, receipts: seq<RelayReceipt>
  )
    requires FitsMemory(receipts)
    ensures var c, seen := ObserverCounters(e, validator, observer, epoch, receipts),
                           Observed(validator, observer, epoch, receipts);
            if observer !in WitnessesFor(e, epoch, validator) then c == ServiceCounters(0, 0, 0, 0, 0, 0, 0, 0)
            else
              && c.uptimeWindows == |HeartbeatSlots(seen)|
              && c.totalWindows == c.expectedDeliveries == Max(e.genesis.slotsPerEpoch, 1)
              && c.timelyDeliveries == |InTime(e, seen)|
              && c.distinctPeers == (if seen == [] then 0 else 1) && c.expectedPeers == 1
              && c.failedSessions == c.invalidReceipts == 0
  {
    hide WitnessesFor, Observed, HeartbeatSlots, Destinations, InTime, Timely;
    var seen := Observed(validator, observer, epoch, receipts);
    CountsFit(e, seen);
    TimelyCounts(e, seen);
  }

  lemma SlotInEpoch(slot: nat, epoch: nat, n: nat)
    requires n > 0 && slot / n == epoch
    ensures epoch * n <= slot < epoch * n + n
  {
    assert slot == slot / n * n + slot % n;
  }

  lemma HeartbeatSlotsInEpoch(
    e: ConsensusEngine, validator: ValidatorId, epoch: Epoch, receipts: seq<RelayReceipt>, s: u64
  )
    requires AllValid(e, validator, epoch, receipts) && e.genesis.slotsPerEpoch > 0
    requires s in HeartbeatSlots(receipts)
    ensures epoch * e.genesis.slotsPerEpoch <= s < epoch * e.genesis.slotsPerEpoch + e.genesis.slotsPerEpoch
  {
    var r :| r in receipts && r.slot == s;
    SlotInEpoch(s, epoch, e.genesis.slotsPerEpoch);
  }

  /** Validated receipts never show more heartbeat windows or peers than the epoch offers. */
  lemma ValidatedCountersBounded(e: ConsensusEngine, validator: ValidatorId, epoch: Epoch, receipts: seq<RelayReceipt>)
    requires AllValid(e, validator, epoch, receipts)
    ensures |Destinations(receipts)| <= Max(|RelayTargetsFor(e, epoch, validator)|, 1)
    ensures e.genesis.slotsPerEpoch > 0 ==> |HeartbeatSlots(receipts)| <= Windows(e)
  {
    DestinationsAreTargets(e, validator, epoch, receipts);
    if e.genesis.slotsPerEpoch > 0 {
      var low: int := epoch * e.genesis.slotsPerEpoch;
      var slots: set<int> := set s: int | s in HeartbeatSlots(receipts);
      forall s: int | s in slots ensures low <= s < low + e.genesis.slotsPerEpoch {
        HeartbeatSlotsInEpoch(e, validator, epoch, receipts, s);
      }
      RangeCardinality(slots, low, low + e.genesis.slotsPerEpoch);
      SameCardinality(HeartbeatSlots(receipts), slots);
    }
  }

  lemma DestinationsAreTargets(e: ConsensusEngine, validator: ValidatorId, epoch: Epoch, receipts: seq<RelayReceipt>)
    requires AllValid(e, validator, epoch, receipts)
    ensures |Destinations(receipts)| <= |RelayTargetsFor(e, epoch, validator)|
  {
    hide RelayTargetsFor, WitnessesFor, EpochForSlot;
    var targets := RelayTargetsFor(e, epoch, validator);
    forall d | d in Destinations(receipts) ensures d in Elements(targets) {
      var r :| r in receipts && r.destination == d;
      assert ValidateReceiptAssignment(e, r).Ok?;
    }
    SubsetCardinality(Destinations(receipts), Elements(targets));
    ElementsCardinality(targets);
  }

  lemma {:induction false} SameCardinality(narrow: set<u64>, wide: set<int>)
    requires forall x: int :: x in wide <==> x in narrow
    ensures |narrow| == |wide|
    decreases narrow
  {
    if narrow == {} {
      assert forall x :: x !in wide;
    } else {
      var x :| x in narrow;
      assert (x as int) in wide;
      SameCardinality(narrow - {x}, wide - {x});
    }
  }

  /**
   With zero slots per epoch every slot belongs to epoch 0 and the bound on heartbeat windows fails:
   it holds for all validated receipts exactly when the genesis has slots, or the validator has no
   relay target, or the epoch is not 0.
   */
  lemma UptimeBoundExact(e: ConsensusEngine, validator: ValidatorId, epoch: Epoch)
    requires Distinct(e.validatorIds)
    ensures (forall receipts ::
              AllValid(e, validator, epoch, receipts) ==> |HeartbeatSlots(receipts)| <= Windows(e)) <==>
            e.genesis.slotsPerEpoch > 0 || epoch != 0 || RelayTargetsFor(e, epoch, validator) == []
  {
    var targets := RelayTargetsFor(e, epoch, validator);
    if e.genesis.slotsPerEpoch > 0 || epoch != 0 || targets == [] {
      forall receipts | AllValid(e, validator, epoch, receipts)
        ensures |HeartbeatSlots(receipts)| <= Windows(e)
      {
        ValidatedCountersBounded(e, validator, epoch, receipts);
        if e.genesis.slotsPerEpoch == 0 {
          assert receipts == [] by {
            if receipts != [] {
              assert receipts[0] in receipts;
              WitnessesEpochIndependent(e, epoch, epoch, validator);
            }
          }
        }
      }
    } else {
      WitnessesEpochIndependent(e, epoch, epoch, validator);
      var zero := RelayReceipt(0, 0, validator, targets[0], targets[0], Heartbeat, seq(32, _ => 0), 0, 0, 0,
                               Single(SignatureScheme.DevDeterministic, []));
      var receipts := [zero, zero.(slot := 1)];
      assert AllValid(e, validator, epoch, receipts);
      assert receipts[0] in receipts && receipts[1] in receipts;
      SubsetCardinality({0, 1}, HeartbeatSlots(receipts));
    }
  }

  // ---- Scores ----

  datatype Weights = Weights(uptime: real, delivery: real, diversity: real, penalty: real)

  const DEFAULT_WEIGHTS := Weights(0.25, 0.50, 0.25, 1.0)

  predicate NonNegative(w: Weights) {
    w.uptime >= 0.0 && w.delivery >= 0.0 && w.diversity >= 0.0 && w.penalty >= 0.0
  }

  function Clamp(x: real): real {
    if x < 0.0 then 0.0 else if x > 1.0 then 1.0 else x
  }

  function Ratio(numerator: nat, denominator: nat): real {
    if denominator == 0 then 0.0 else Clamp(numerator as real / denominator as real)
  }

  function CappedRatio(numerator: nat, denominator: nat): real {
    Ratio(Min(numerator, denominator), denominator)
  }

  /** The penalty numerator; the sum is a u64 addition. */
  function PenaltyUnits(c: ServiceCounters): nat {
    Min(Wrap(c.failedSessions + c.invalidReceipts), Max(c.totalWindows, 1))
  }

  function UptimeRatio(c: ServiceCounters): real { CappedRatio(c.uptimeWindows, c.totalWindows) }

  function DeliveryRatio(c: ServiceCounters): real { CappedRatio(c.timelyDeliveries, c.expectedDeliveries) }

  function DiversityRatio(c: ServiceCounters): real { CappedRatio(c.distinctPeers, c.expectedPeers) }

  function PenaltyRatio(c: ServiceCounters): real { Ratio(PenaltyUnits(c), Max(c.totalWindows, 1)) }

  function Scale(weight: real, ratio: real): real {
    weight * ratio
  }

  function Weighted(w: Weights, uptime: real, delivery: real, diversity: real, penalty: real): real {
    Scale(w.uptime, uptime) + Scale(w.delivery, delivery) + Scale(w.diversity, diversity) - Scale(w.penalty, penalty)
  }

  function RawScore(c: ServiceCounters, w: Weights): real {
    Weighted(w, UptimeRatio(c), DeliveryRatio(c), DiversityRatio(c), PenaltyRatio(c))
  }

  function ServiceScore(c: ServiceCounters, w: Weights): (score: real)
    ensures 0.0 <= score <= 1.0
  {
    Clamp(RawScore(c, w))
  }

  lemma DivideMonotone(a: real, b: real, d: real)
    requires a <= b && d > 0.0
    ensures a / d <= b / d
  {
  }

  lemma RatioMonotone(a: nat, b: nat, d: nat)
    requires a <= b
    ensures Ratio(a, d) <= Ratio(b, d)
  {
    if d > 0 {
      DivideMonotone(a as real, b as real, d as real);
    }
  }

  lemma ScaleMonotone(w: real, a: real, b: real)
    requires w >= 0.0 && a <= b
    ensures Scale(w, a) <= Scale(w, b)
  {
  }

  /** A share of an expectation, at most 1, and 0 when nothing is expected. */
  ghost predicate IsShare(x: real, amount: nat, expected: nat) {
    if expected == 0 then x == 0.0 else x * expected as real == Min(amount, expected) as real
  }

  /**
   What a score is: the weighted shares of windows, deliveries and peers, less the weighted share of the
   windows that penalties take up, cut to the unit interval.
   */
  lemma ScoreExact(c: ServiceCounters, w: Weights, uptime: real, delivery: real, diversity: real, penalty: real)
    requires IsShare(uptime, c.uptimeWindows, c.totalWindows)
    requires IsShare(delivery, c.timelyDeliveries, c.expectedDeliveries)
    requires IsShare(diversity, c.distinctPeers, c.expectedPeers)
    requires IsShare(penalty, (c.failedSessions + c.invalidReceipts) % U64_MODULUS, Max(c.totalWindows, 1))
    ensures var raw := w.uptime * uptime + w.delivery * delivery + w.diversity * diversity - w.penalty * penalty;
            ServiceScore(c, w) == if raw < 0.0 then 0.0 else if raw > 1.0 then 1.0 else raw
  {
    hide CappedRatio, PenaltyRatio, IsShare;
    ShareIsRatio(uptime, c.uptimeWindows, c.totalWindows);
    ShareIsRatio(delivery, c.timelyDeliveries, c.expectedDeliveries);
    ShareIsRatio(diversity, c.distinctPeers, c.expectedPeers);
    PenaltyIsShare(c, penalty);
  }

  lemma PenaltyIsShare(c: ServiceCounters, penalty: real)
    requires IsShare(penalty, (c.failedSessions + c.invalidReceipts) % U64_MODULUS, Max(c.totalWindows, 1))
    ensures PenaltyRatio(c) == penalty
  {
    hide IsShare, Ratio;
    ShareIsRatio(penalty, (c.failedSessions + c.invalidReceipts) % U64_MODULUS, Max(c.totalWindows, 1));
  }

  lemma ShareIsRatio(x: real, amount: nat, expected: nat)
    requires IsShare(x, amount, expected)
    ensures CappedRatio(amount, expected) == x
    ensures expected > 0 ==> Ratio(Min(amount, expected), expected) == x
  {
    if expected > 0 {
      var top, bottom := Min(amount, expected) as real, expected as real;
      QuotientIs(x, top, bottom);
      QuotientRange(top, bottom);
    }
  }

  lemma QuotientIs(x: real, top: real, bottom: real)
    requires bottom > 0.0 && x * bottom == top
    ensures top / bottom == x
  {
    var q := top / bottom;
    assert q * bottom == top;
    SameFactor(x, q, bottom);
  }

  lemma SameFactor(x: real, y: real, z: real)
    requires z > 0.0 && x * z == y * z
    ensures x == y
  {
    assert (x - y) * z == 0.0;
  }

  ghost predicate SameExpectations(c: ServiceCounters, d: ServiceCounters) {
    && c.totalWindows == d.totalWindows
    && c.expectedDeliveries == d.expectedDeliveries
    && c.expectedPeers == d.expectedPeers
  }

  lemma WeightedMonotone(
    w: Weights, u: real, t: real, p: real, x: real, u': real, t': real, p': real, x': real
  )
    requires NonNegative(w) && u <= u' && t <= t' && p <= p' && x' <= x
    ensures Weighted(w, u, t, p, x) <= Weighted(w, u', t', p', x')
  {
    hide Scale;
    ScaleMonotone(w.uptime, u, u');
    ScaleMonotone(w.delivery, t, t');
    ScaleMonotone(w.diversity, p, p');
    ScaleMonotone(w.penalty, x', x);
  }

  /**
   More credit and a smaller penalty never lower the score; and fewer failed sessions and invalid
   receipts make a smaller penalty while their sum fits 64 bits.
   */
  lemma ScoreMonotone(c: ServiceCounters, d: ServiceCounters, w: Weights)
    requires NonNegative(w) && SameExpectations(c, d)
    requires c.uptimeWindows <= d.uptimeWindows
    requires c.timelyDeliveries <= d.timelyDeliveries
    requires c.distinctPeers <= d.distinctPeers
    ensures PenaltyUnits(d) <= PenaltyUnits(c) ==> ServiceScore(c, w) <= ServiceScore(d, w)
    ensures (&& d.failedSessions <= c.failedSessions && d.invalidReceipts <= c.invalidReceipts
             && c.failedSessions + c.invalidReceipts <= U64_MAX) ==> ServiceScore(c, w) <= ServiceScore(d, w)
  {
    hide Ratio, Weighted, Wrap, NonNegative;
    RatioMonotone(Min(c.uptimeWindows, c.totalWindows), Min(d.uptimeWindows, d.totalWindows), c.totalWindows);
    RatioMonotone(Min(c.timelyDeliveries, c.expectedDeliveries), Min(d.timelyDeliveries, d.expectedDeliveries),
                  c.expectedDeliveries);
    RatioMonotone(Min(c.distinctPeers, c.expectedPeers), Min(d.distinctPeers, d.expectedPeers), c.expectedPeers);
    if d.failedSessions <= c.failedSessions && d.invalidReceipts <= c.invalidReceipts &&
       c.failedSessions + c.invalidReceipts <= U64_MAX
    {
      PenaltyUnitsMonotone(d, c);
    }
    if PenaltyUnits(d) <= PenaltyUnits(c) {
      RatioMonotone(PenaltyUnits(d), PenaltyUnits(c), Max(c.totalWindows, 1));
      WeightedMonotone(w, UptimeRatio(c), DeliveryRatio(c), DiversityRatio(c), PenaltyRatio(c),
                       UptimeRatio(d), DeliveryRatio(d), DiversityRatio(d), PenaltyRatio(d));
    }
  }

  lemma PenaltyUnitsMonotone(c: ServiceCounters, d: ServiceCounters)
    requires c.totalWindows == d.totalWindows
    requires c.failedSessions <= d.failedSessions && c.invalidReceipts <= d.invalidReceipts
    requires d.failedSessions + d.invalidReceipts <= U64_MAX
    ensures PenaltyUnits(c) <= PenaltyUnits(d)
  {
  }

  predicate FullCredit(amount: nat, expected: nat) {
    0 < expected <= amount
  }

  lemma QuotientRange(top: real, bottom: real)
    requires 0.0 <= top <= bottom && bottom > 0.0
    ensures 0.0 <= top / bottom <= 1.0
    ensures top / bottom == 1.0 <==> top == bottom
    ensures top / bottom == 0.0 <==> top == 0.0
  {
    var x := top / bottom;
    assert x * bottom == top;
    DivideMonotone(top, bottom, bottom);
    DivideMonotone(0.0, top, bottom);
  }

  lemma RatioRange(amount: nat, expected: nat)
    ensures 0.0 <= CappedRatio(amount, expected) <= 1.0
    ensures CappedRatio(amount, expected) == 1.0 <==> FullCredit(amount, expected)
  {
    if expected > 0 {
      QuotientRange(Min(amount, expected) as real, expected as real);
    }
  }

  lemma PenaltyRange(c: ServiceCounters)
    ensures 0.0 <= PenaltyRatio(c) <= 1.0
    ensures PenaltyRatio(c) == 0.0 <==> PenaltyUnits(c) == 0
    ensures PenaltyRatio(c) == 1.0 <==> PenaltyUnits(c) == Max(c.totalWindows, 1)
  {
    hide Wrap;
    QuotientRange(PenaltyUnits(c) as real, Max(c.totalWindows, 1) as real);
  }

  /** With the default weights: 1 exactly on full credit without penalty, 0 once penalties fill the windows. */
  lemma DefaultScoreExtremes(c: ServiceCounters)
    ensures ServiceScore(c, DEFAULT_WEIGHTS) == 1.0 <==>
            && FullCredit(c.uptimeWindows, c.totalWindows)
            && FullCredit(c.timelyDeliveries, c.expectedDeliveries)
            && FullCredit(c.distinctPeers, c.expectedPeers)
            && PenaltyUnits(c) == 0
    ensures PenaltyUnits(c) == Max(c.totalWindows, 1) ==> ServiceScore(c, DEFAULT_WEIGHTS) == 0.0
  {
    hide CappedRatio, PenaltyRatio, PenaltyUnits, FullCredit;
    RatioRange(c.uptimeWindows, c.totalWindows);
    RatioRange(c.timelyDeliveries, c.expectedDeliveries);
    RatioRange(c.distinctPeers, c.expectedPeers);
    PenaltyRange(c);
  }

  // ---- When penalties can be counted on ----

  /** The score before penalties, with the default weights. */
  function Credit(c: ServiceCounters): real {
    0.25 * UptimeRatio(c) + 0.50 * DeliveryRatio(c) + 0.25 * DiversityRatio(c)
  }

  /** With the default weights the score is the credit less the penalty, cut off at 0. */
  lemma DefaultScore(c: ServiceCounters)
    ensures 0.0 <= Credit(c) <= 1.0
    ensures ServiceScore(c, DEFAULT_WEIGHTS) == if Credit(c) < PenaltyRatio(c) then 0.0 else Credit(c) - PenaltyRatio(c)
  {
    hide CappedRatio, PenaltyRatio;
    RatioRange(c.uptimeWindows, c.totalWindows);
    RatioRange(c.timelyDeliveries, c.expectedDeliveries);
    RatioRange(c.distinctPeers, c.expectedPeers);
    PenaltyRange(c);
  }

  /** The counters with other penalty counts. */
  function WithPenalties(c: ServiceCounters, failed: u64, invalid: u64): ServiceCounters {
    c.(failedSessions := failed, invalidReceipts := invalid)
  }

  /** Filling the sum of the two penalty counts to 2^64 - 1 gives score 0; one more gives the full credit back. */
  lemma PenaltyWraps(c: ServiceCounters, failed: u64, invalid: u64)
    ensures failed + invalid == U64_MAX ==> ServiceScore(WithPenalties(c, failed, invalid), DEFAULT_WEIGHTS) == 0.0
    ensures failed + invalid == U64_MODULUS ==>
              ServiceScore(WithPenalties(c, failed, invalid), DEFAULT_WEIGHTS) == Credit(c)
  {
    hide CappedRatio, PenaltyRatio;
    var d := WithPenalties(c, failed, invalid);
    DefaultScore(d);
    PenaltyRange(d);
    if failed + invalid == U64_MAX {
      assert PenaltyUnits(d) == Max(d.totalWindows, 1);
    } else if failed + invalid == U64_MODULUS {
      assert PenaltyUnits(d) == 0;
    }
  }

  /** A penalty added to a sum that still fits never raises the score. */
  lemma PenaltyLowers(c: ServiceCounters, f: u64, i: u64, g: u64, j: u64)
    requires f <= g && i <= j && g + j <= U64_MAX
    ensures ServiceScore(WithPenalties(c, g, j), DEFAULT_WEIGHTS) <=
            ServiceScore(WithPenalties(c, f, i), DEFAULT_WEIGHTS)
  {
    hide ServiceScore, PenaltyUnits;
    ScoreMonotone(WithPenalties(c, g, j), WithPenalties(c, f, i), DEFAULT_WEIGHTS);
  }

  lemma NoCreditNoScore(c: ServiceCounters, failed: u64, invalid: u64)
    requires Credit(c) == 0.0
    ensures ServiceScore(WithPenalties(c, failed, invalid), DEFAULT_WEIGHTS) == 0.0
  {
    hide CappedRatio, PenaltyRatio, ServiceScore;
    DefaultScore(WithPenalties(c, failed, invalid));
    PenaltyRange(WithPenalties(c, failed, invalid));
  }

  /**
   More failed sessions can be counted on not to raise the score exactly when no invalid receipt is on
   record or there is no credit to win back: otherwise the u64 sum wraps to 0 for some number of them.
   */
  lemma PenaltyMonotoneExact(c: ServiceCounters)
    ensures (forall f: u64, g: u64 :: f <= g ==>
              ServiceScore(WithPenalties(c, g, c.invalidReceipts), DEFAULT_WEIGHTS) <=
              ServiceScore(WithPenalties(c, f, c.invalidReceipts), DEFAULT_WEIGHTS)) <==>
            c.invalidReceipts == 0 || Credit(c) == 0.0
  {
    hide ServiceScore, Credit;
    if c.invalidReceipts > 0 && Credit(c) != 0.0 {
      DefaultScore(c);
      var f: u64 := U64_MAX - c.invalidReceipts;
      var g: u64 := f + 1;
      PenaltyWraps(c, f, c.invalidReceipts);
      PenaltyWraps(c, g, c.invalidReceipts);
    } else {
      forall f: u64, g: u64 | f <= g
        ensures ServiceScore(WithPenalties(c, g, c.invalidReceipts), DEFAULT_WEIGHTS) <=
                ServiceScore(WithPenalties(c, f, c.invalidReceipts), DEFAULT_WEIGHTS)
      {
        if c.invalidReceipts == 0 {
          PenaltyLowers(c, f, 0, g, 0);
        } else {
          NoCreditNoScore(c, f, c.invalidReceipts);
          NoCreditNoScore(c, g, c.invalidReceipts);
        }
      }
    }
  }

  /** The same for invalid receipts, with the roles of the two counts exchanged. */
  lemma InvalidReceiptsLowerScoreIff(c: ServiceCounters)
    ensures (forall i: u64, j: u64 :: i <= j ==>
              ServiceScore(WithPenalties(c, c.failedSessions, j), DEFAULT_WEIGHTS) <=
              ServiceScore(WithPenalties(c, c.failedSessions, i), DEFAULT_WEIGHTS)) <==>
            c.failedSessions == 0 || Credit(c) == 0.0
  {
    hide ServiceScore, Credit;
    var swapped := WithPenalties(c, c.invalidReceipts, c.failedSessions);
    forall x: u64
      ensures ServiceScore(WithPenalties(c, c.failedSessions, x), DEFAULT_WEIGHTS) ==
              ServiceScore(WithPenalties(swapped, x, swapped.invalidReceipts), DEFAULT_WEIGHTS)
    {
      PenaltiesCommute(c, c.failedSessions, x);
    }
    CreditIgnoresPenalties(c, c.invalidReceipts, c.failedSessions);
    PenaltyMonotoneExact(swapped);
  }

  lemma CreditIgnoresPenalties(c: ServiceCounters, failed: u64, invalid: u64)
    ensures Credit(WithPenalties(c, failed, invalid)) == Credit(c)
  {
    hide CappedRatio;
  }

  lemma PenaltiesCommute(c: ServiceCounters, failed: u64, invalid: u64)
    ensures ServiceScore(WithPenalties(c, failed, invalid), DEFAULT_WEIGHTS) ==
            ServiceScore(WithPenalties(c, invalid, failed), DEFAULT_WEIGHTS)
  {
    hide CappedRatio, Ratio, Weighted, Clamp;
    assert PenaltyUnits(WithPenalties(c, failed, invalid)) == PenaltyUnits(WithPenalties(c, invalid, failed));
  }

  /** The failing case: full credit, one invalid receipt, and one more failure lifts the score from 0 to 1. */
  lemma FailureRaisesScore()
    ensures ServiceScore(ServiceCounters(1, 1, 1, 1, 1, 1, U64_MAX - 1, 1), DEFAULT_WEIGHTS) == 0.0
    ensures ServiceScore(ServiceCounters(1, 1, 1, 1, 1, 1, U64_MAX, 1), DEFAULT_WEIGHTS) == 1.0
  {
    hide ServiceScore;
    var c := ServiceCounters(1, 1, 1, 1, 1, 1, U64_MAX - 1, 1);
    PenaltyWraps(c, U64_MAX - 1, 1);
    PenaltyWraps(c, U64_MAX, 1);
    assert Credit(c) == 1.0;
  }

  // ---- Aggregates ----

  datatype ServiceAttestation = ServiceAttestation(
    subject: ValidatorId,
    member: ValidatorId,
    epoch: Epoch,
    counters: ServiceCounters,
    signature: TypedSignature
  )

  datatype ServiceAggregate = ServiceAggregate(
    subject: ValidatorId,
    epoch: Epoch,
    attestationRoot: HashBytes,
    attestations: seq<ServiceAttestation>,
    counters: ServiceCounters
  )

  function AddCounters(c: ServiceCounters, d: ServiceCounters): ServiceCounters {
    ServiceCounters(
      Wrap(c.uptimeWindows + d.uptimeWindows),
      Wrap(c.totalWindows + d.totalWindows),
      Wrap(c.timelyDeliveries + d.timelyDeliveries),
      Wrap(c.expectedDeliveries + d.expectedDeliveries),
      Wrap(c.distinctPeers + d.distinctPeers),
      Wrap(c.expectedPeers + d.expectedPeers),
      Wrap(c.failedSessions + d.failedSessions),
      Wrap(c.invalidReceipts + d.invalidReceipts))
  }

  function UptimeOf(): ServiceAttestation -> int { (a: ServiceAttestation) => a.counters.uptimeWindows }
  function TotalOf(): ServiceAttestation -> int { (a: ServiceAttestation) => a.counters.totalWindows }
  function TimelyOf(): ServiceAttestation -> int { (a: ServiceAttestation) => a.counters.timelyDeliveries }
  function ExpectedOf(): ServiceAttestation -> int { (a: ServiceAttestation) => a.counters.expectedDeliveries }
  function PeersOf(): ServiceAttestation -> int { (a: ServiceAttestation) => a.counters.distinctPeers }
  function ExpectedPeersOf(): ServiceAttestation -> int { (a: ServiceAttestation) => a.counters.expectedPeers }
  function FailedOf(): ServiceAttestation -> int { (a: ServiceAttestation) => a.counters.failedSessions }
  function InvalidOf(): ServiceAttestation -> int { (a: ServiceAttestation) => a.counters.invalidReceipts }

  /** Field by field, the attested sums reduced to 64 bits. */
  function SummedCounters(attestations: seq<ServiceAttestation>): ServiceCounters {
    ServiceCounters(
      Wrap(SumBy(UptimeOf(), attestations)), Wrap(SumBy(TotalOf(), attestations)),
      Wrap(SumBy(TimelyOf(), attestations)), Wrap(SumBy(ExpectedOf(), attestations)),
      Wrap(SumBy(PeersOf(), attestations)), Wrap(SumBy(ExpectedPeersOf(), attestations)),
      Wrap(SumBy(FailedOf(), attestations)), Wrap(SumBy(InvalidOf(), attestations)))
  }

  lemma WrapSnoc(f: ServiceAttestation -> int, s: seq<ServiceAttestation>, a: ServiceAttestation, partial: u64)
    requires partial == Wrap(SumBy(f, s))
    ensures Wrap(partial + f(a)) == Wrap(SumBy(f, s + [a]))
  {
    SumSnoc(f, s, a);
  }

  lemma AddIsSummed(s: seq<ServiceAttestation>, a: ServiceAttestation)
    ensures AddCounters(SummedCounters(s), a.counters) == SummedCounters(s + [a])
  {
    hide Wrap;
    var c := SummedCounters(s);
    WrapSnoc(UptimeOf(), s, a, c.uptimeWindows);
    WrapSnoc(TotalOf(), s, a, c.totalWindows);
    WrapSnoc(TimelyOf(), s, a, c.timelyDeliveries);
    WrapSnoc(ExpectedOf(), s, a, c.expectedDeliveries);
    WrapSnoc(PeersOf(), s, a, c.distinctPeers);
    WrapSnoc(ExpectedPeersOf(), s, a, c.expectedPeers);
    WrapSnoc(FailedOf(), s, a, c.failedSessions);
    WrapSnoc(InvalidOf(), s, a, c.invalidReceipts);
  }

  /** `aggregate_service_counters`: accumulate every field in place. */
  method AggregateServiceCounters(attestations: seq<ServiceAttestation>) returns (c: ServiceCounters)
    ensures c == SummedCounters(attestations)
  {
    c := NO_COUNTERS;
    for i := 0 to |attestations|
      invariant c == SummedCounters(attestations[..i])
    {
      AddIsSummed(attestations[..i], attestations[i]);
      assert attestations[..i + 1] == attestations[..i] + [attestations[i]];
      c := AddCounters(c, attestations[i].counters);
    }
    assert attestations[..|attestations|] == attestations;
  }

  /** One attestation's aggregate is what it attests. */
  lemma AggregateOfOne(a: ServiceAttestation)
    ensures SummedCounters([a]) == a.counters
  {
    hide Wrap;
    NothingSummed();
    AddIsSummed([], a);
    assert [] + [a] == [a];
    SelfAdded(a);
  }

  lemma NothingSummed()
    ensures SummedCounters([]) == NO_COUNTERS
  {
  }

  lemma SelfAdded(a: ServiceAttestation)
    ensures AddCounters(NO_COUNTERS, a.counters) == a.counters
  {
  }

  lemma AggregatePermutation(a: seq<ServiceAttestation>, b: seq<ServiceAttestation>, w: Weights)
    requires multiset(a) == multiset(b)
    ensures SummedCounters(a) == SummedCounters(b)
    ensures ServiceScore(SummedCounters(a), w) == ServiceScore(SummedCounters(b), w)
  {
    SumPermutation(UptimeOf(), a, b);
    SumPermutation(TotalOf(), a, b);
    SumPermutation(TimelyOf(), a, b);
    SumPermutation(ExpectedOf(), a, b);
    SumPermutation(PeersOf(), a, b);
    SumPermutation(ExpectedPeersOf(), a, b);
    SumPermutation(FailedOf(), a, b);
    SumPermutation(InvalidOf(), a, b);
  }

  // ---- Summing before capping ----

  /** The counters an observer reports: nothing, or one epoch's windows without penalties. */
  predicate ObserverShaped(windows: u64, c: ServiceCounters) {
    || c == NO_COUNTERS
    || (&& windows > 0
        && c.totalWindows == c.expectedDeliveries == windows
        && c.expectedPeers == 1 && c.distinctPeers <= 1
        && c.failedSessions == c.invalidReceipts == 0)
  }

  ghost predicate AllObserverShaped(windows: u64, attestations: seq<ServiceAttestation>) {
    forall a :: a in attestations ==> ObserverShaped(windows, a.counters)
  }

  ghost predicate SumsFit(attestations: seq<ServiceAttestation>) {
    && SumBy(UptimeOf(), attestations) <= U64_MAX
    && SumBy(TimelyOf(), attestations) <= U64_MAX
    && SumBy(TotalOf(), attestations) <= U64_MAX
    && SumBy(ExpectedPeersOf(), attestations) <= U64_MAX
  }

  function ScoreSum(attestations: seq<ServiceAttestation>, w: Weights): real {
    if attestations == [] then 0.0
    else ServiceScore(attestations[0].counters, w) + ScoreSum(attestations[1..], w)
  }

  function Reporting(): ServiceAttestation -> int {
    (a: ServiceAttestation) => if a.counters == NO_COUNTERS then 0 else 1
  }

  function Capped(f: ServiceAttestation -> int, cap: nat): ServiceAttestation -> int {
    (a: ServiceAttestation) => Min(f(a), cap)
  }

  /** Expected totals of observer-shaped reports are the number that reported, times one epoch. */
  lemma {:induction false} ReportedTotals(windows: u64, attestations: seq<ServiceAttestation>)
    requires AllObserverShaped(windows, attestations)
    ensures var m := SumBy(Reporting(), attestations);
            && 0 <= m <= |attestations|
            && SumBy(TotalOf(), attestations) == SumBy(ExpectedOf(), attestations) == m * windows
            && SumBy(ExpectedPeersOf(), attestations) == m
            && SumBy(FailedOf(), attestations) == SumBy(InvalidOf(), attestations) == 0
  {
    if attestations != [] {
      var m := SumBy(Reporting(), attestations[1..]);
      assert attestations[0] in attestations;
      ReportedTotals(windows, attestations[1..]);
      assert (m + 1) * windows == m * windows + windows;
    }
  }

  /** Capping each report first loses credit, capping the sum does not. */
  lemma {:induction false} CappedSum(f: ServiceAttestation -> int, cap: nat, attestations: seq<ServiceAttestation>)
    requires forall a :: a in attestations ==> f(a) >= 0 && (a.counters == NO_COUNTERS ==> f(a) == 0)
    ensures 0 <= SumBy(Capped(f, cap), attestations)
    ensures SumBy(Capped(f, cap), attestations) <=
            Min(SumBy(f, attestations), SumBy(Reporting(), attestations) * cap)
  {
    if attestations != [] {
      var m := SumBy(Reporting(), attestations[1..]);
      assert attestations[0] in attestations;
      CappedSum(f, cap, attestations[1..]);
      assert (m + 1) * cap == m * cap + cap;
    }
  }

  function Share(amount: int, cap: int): real
    requires cap > 0
  {
    amount as real / cap as real
  }

  lemma ShareAdds(a: int, b: int, cap: int)
    requires cap > 0
    ensures Share(a, cap) + Share(b, cap) == Share(a + b, cap)
  {
  }

  /** One m-th of a share in a cap m times larger. */
  lemma ShareScales(a: int, b: int, cap: int, m: int, all: int)
    requires cap > 0 && m > 0 && all > 0 && all == m * cap && a <= b
    ensures Share(a, cap) <= m as real * Share(b, all)
  {
    var x := Share(b, all);
    assert all as real == m as real * cap as real;
    assert x * (m as real * cap as real) == b as real;
    assert m as real * x * cap as real == b as real;
    DivideMonotone(a as real, b as real, cap as real);
    assert b as real / cap as real == m as real * x;
  }

  lemma CappedRatioIsShare(amount: nat, cap: nat)
    requires cap > 0
    ensures CappedRatio(amount, cap) == Share(Min(amount, cap), cap)
    ensures 0.0 <= CappedRatio(amount, cap)
  {
    DivideMonotone(Min(amount, cap) as real, cap as real, cap as real);
    DivideMonotone(0.0, Min(amount, cap) as real, cap as real);
  }

  lemma PenaltyFree(c: ServiceCounters)
    requires c.failedSessions == c.invalidReceipts == 0
    ensures PenaltyRatio(c) == 0.0
  {
  }

  lemma WeightedAdds(w: Weights, u: real, t: real, p: real, u': real, t': real, p': real)
    ensures Weighted(w, u, t, p, 0.0) + Weighted(w, u', t', p', 0.0) == Weighted(w, u + u', t + t', p + p', 0.0)
  {
  }

  lemma WeightedScales(w: Weights, m: real, u: real, t: real, p: real)
    ensures Weighted(w, m * u, m * t, m * p, 0.0) == m * Weighted(w, u, t, p, 0.0)
  {
    assert w.uptime * (m * u) == m * (w.uptime * u);
    assert w.delivery * (m * t) == m * (w.delivery * t);
    assert w.diversity * (m * p) == m * (w.diversity * p);
  }

  /** The raw score of penalty-free counters, as weighted shares. */
  lemma RawScoreShares(c: ServiceCounters, w: Weights)
    requires NonNegative(w)
    requires c.totalWindows == c.expectedDeliveries > 0 && c.expectedPeers > 0
    requires c.failedSessions == c.invalidReceipts == 0
    ensures RawScore(c, w) == Weighted(w, Share(Min(c.uptimeWindows, c.totalWindows), c.totalWindows),
                                       Share(Min(c.timelyDeliveries, c.totalWindows), c.totalWindows),
                                       Share(Min(c.distinctPeers, c.expectedPeers), c.expectedPeers), 0.0)
    ensures RawScore(c, w) >= 0.0
  {
    CappedRatioIsShare(c.uptimeWindows, c.totalWindows);
    CappedRatioIsShare(c.timelyDeliveries, c.totalWindows);
    CappedRatioIsShare(c.distinctPeers, c.expectedPeers);
    PenaltyFree(c);
    WeightedMonotone(w, 0.0, 0.0, 0.0, 0.0, UptimeRatio(c), DeliveryRatio(c), DiversityRatio(c), 0.0);
  }

  lemma SilentScore(w: Weights)
    ensures ServiceScore(NO_COUNTERS, w) == 0.0
  {
    PenaltyFree(NO_COUNTERS);
    assert UptimeRatio(NO_COUNTERS) == DeliveryRatio(NO_COUNTERS) == DiversityRatio(NO_COUNTERS) == 0.0;
  }

  lemma OneReport(windows: u64, c: ServiceCounters, w: Weights)
    requires NonNegative(w) && windows > 0 && ObserverShaped(windows, c)
    ensures ServiceScore(c, w) <= Weighted(w, Share(Min(c.uptimeWindows, windows), windows),
                                           Share(Min(c.timelyDeliveries, windows), windows),
                                           Share(Min(c.distinctPeers, 1), 1), 0.0)
    ensures ServiceScore(c, w) <= if c == NO_COUNTERS then 0.0 else 1.0
  {
    if c == NO_COUNTERS {
      SilentScore(w);
      assert Share(0, windows) == 0.0 && Share(0, 1) == 0.0;
      WeightedScales(w, 0.0, 0.0, 0.0, 0.0);
    } else {
      RawScoreShares(c, w);
    }
  }

  lemma NothingShared(w: Weights, windows: u64)
    requires windows > 0
    ensures Weighted(w, Share(0, windows), Share(0, windows), Share(0, 1), 0.0) == 0.0
  {
    assert Share(0, windows) == 0.0 && Share(0, 1) == 0.0;
    WeightedScales(w, 0.0, 0.0, 0.0, 0.0);
  }

  /** Scores add up to at most the weighted shares of the individually capped counters. */
  lemma {:induction false} ScoreSumShares(windows: u64, attestations: seq<ServiceAttestation>, w: Weights)
    requires NonNegative(w) && windows > 0 && AllObserverShaped(windows, attestations)
    ensures ScoreSum(attestations, w) <=
            Weighted(w, Share(SumBy(Capped(UptimeOf(), windows), attestations), windows),
                     Share(SumBy(Capped(TimelyOf(), windows), attestations), windows),
                     Share(SumBy(Capped(PeersOf(), 1), attestations), 1), 0.0)
    ensures ScoreSum(attestations, w) <= SumBy(Reporting(), attestations) as real
  {
    hide Weighted, Share, ServiceScore;
    if attestations == [] {
      NothingShared(w, windows);
    } else {
      var c, rest := attestations[0].counters, attestations[1..];
      assert attestations[0] in attestations;
      OneReport(windows, c, w);
      ScoreSumShares(windows, rest, w);
      var u, t := SumBy(Capped(UptimeOf(), windows), rest), SumBy(Capped(TimelyOf(), windows), rest);
      var p := SumBy(Capped(PeersOf(), 1), rest);
      ShareAdds(Min(c.uptimeWindows, windows), u, windows);
      ShareAdds(Min(c.timelyDeliveries, windows), t, windows);
      ShareAdds(Min(c.distinctPeers, 1), p, 1);
      WeightedAdds(w, Share(Min(c.uptimeWindows, windows), windows), Share(Min(c.timelyDeliveries, windows), windows),
                   Share(Min(c.distinctPeers, 1), 1), Share(u, windows), Share(t, windows), Share(p, 1));
    }
  }

  lemma WrapFits(x: int)
    requires 0 <= x <= U64_MAX
    ensures Wrap(x) == x
  {
  }

  lemma SummedExactly(windows: u64, attestations: seq<ServiceAttestation>, m: nat, all: nat)
    requires AllObserverShaped(windows, attestations) && SumsFit(attestations)
    requires m == SumBy(Reporting(), attestations) && all == m * windows
    ensures var total := SummedCounters(attestations);
            && total.totalWindows == total.expectedDeliveries == all && total.expectedPeers == m
            && total.failedSessions == total.invalidReceipts == 0
            && total.uptimeWindows == SumBy(UptimeOf(), attestations)
            && total.timelyDeliveries == SumBy(TimelyOf(), attestations)
            && total.distinctPeers == SumBy(PeersOf(), attestations)
  {
    hide Wrap;
    ReportedTotals(windows, attestations);
    SumNonNegative(UptimeOf(), attestations);
    SumNonNegative(TimelyOf(), attestations);
    SumNonNegative(PeersOf(), attestations);
    SumMonotone(PeersOf(), ExpectedPeersOf(), attestations);
    WrapFits(SumBy(UptimeOf(), attestations));
    WrapFits(SumBy(TimelyOf(), attestations));
    WrapFits(SumBy(PeersOf(), attestations));
    WrapFits(all);
    WrapFits(m);
    WrapFits(0);
  }

  lemma FieldDominated(f: ServiceAttestation -> int, cap: nat, attestations: seq<ServiceAttestation>, m: nat, all: nat)
    requires forall a :: a in attestations ==> f(a) >= 0 && (a.counters == NO_COUNTERS ==> f(a) == 0)
    requires m == SumBy(Reporting(), attestations) && m > 0 && cap > 0 && all == m * cap && all > 0
    ensures Share(SumBy(Capped(f, cap), attestations), cap) <= m as real * Share(Min(SumBy(f, attestations), all), all)
  {
    hide Share, Min, Capped, Reporting, SumBy;
    CappedSum(f, cap, attestations);
    ShareScales(SumBy(Capped(f, cap), attestations), Min(SumBy(f, attestations), all), cap, m, all);
  }

  /** The raw score of the aggregate of m reports, as weighted shares. */
  lemma AggregateShares(windows: u64, attestations: seq<ServiceAttestation>, w: Weights, m: nat, all: nat)
    requires NonNegative(w) && AllObserverShaped(windows, attestations) && SumsFit(attestations)
    requires m == SumBy(Reporting(), attestations) && m > 0 && all == m * windows && all > 0
    ensures RawScore(SummedCounters(attestations), w) ==
            Weighted(w, Share(Min(SumBy(UptimeOf(), attestations), all), all),
                     Share(Min(SumBy(TimelyOf(), attestations), all), all),
                     Share(Min(SumBy(PeersOf(), attestations), m), m), 0.0)
    ensures RawScore(SummedCounters(attestations), w) >= 0.0
  {
    hide Weighted, Share, RawScore, SummedCounters;
    SummedExactly(windows, attestations, m, all);
    RawScoreShares(SummedCounters(attestations), w);
  }

  lemma WeightedDominated(w: Weights, m: real, x: real, y: real, z: real, u: real, t: real, p: real)
    requires NonNegative(w) && x <= m * u && y <= m * t && z <= m * p
    ensures Weighted(w, x, y, z, 0.0) <= m * Weighted(w, u, t, p, 0.0)
  {
    WeightedScales(w, m, u, t, p);
    WeightedMonotone(w, x, y, z, 0.0, m * u, m * t, m * p, 0.0);
  }

  lemma FieldsDominated(windows: u64, attestations: seq<ServiceAttestation>, m: nat, all: nat)
    requires windows > 0 && AllObserverShaped(windows, attestations)
    requires m == SumBy(Reporting(), attestations) && m > 0 && all == m * windows && all > 0
    ensures Share(SumBy(Capped(UptimeOf(), windows), attestations), windows) <=
            m as real * Share(Min(SumBy(UptimeOf(), attestations), all), all)
    ensures Share(SumBy(Capped(TimelyOf(), windows), attestations), windows) <=
            m as real * Share(Min(SumBy(TimelyOf(), attestations), all), all)
    ensures Share(SumBy(Capped(PeersOf(), 1), attestations), 1) <=
            m as real * Share(Min(SumBy(PeersOf(), attestations), m), m)
  {
    hide Share, Min;
    FieldDominated(UptimeOf(), windows, attestations, m, all);
    FieldDominated(TimelyOf(), windows, attestations, m, all);
    FieldDominated(PeersOf(), 1, attestations, m, m);
  }

  /** The shares of the individually capped sums are at most m times the raw score of the aggregate. */
  lemma SharesDominated(windows: u64, attestations: seq<ServiceAttestation>, w: Weights, m: nat, all: nat)
    requires NonNegative(w) && windows > 0 && AllObserverShaped(windows, attestations) && SumsFit(attestations)
    requires m == SumBy(Reporting(), attestations) && m > 0 && all == m * windows && all > 0
    ensures Weighted(w, Share(SumBy(Capped(UptimeOf(), windows), attestations), windows),
                     Share(SumBy(Capped(TimelyOf(), windows), attestations), windows),
                     Share(SumBy(Capped(PeersOf(), 1), attestations), 1), 0.0)
            <= m as real * RawScore(SummedCounters(attestations), w)
    ensures RawScore(SummedCounters(attestations), w) >= 0.0
  {
    hide Weighted, Share, RawScore, SummedCounters, Min, SumsFit, AllObserverShaped, NonNegative;
    AggregateShares(windows, attestations, w, m, all);
    FieldsDominated(windows, attestations, m, all);
    WeightedDominated(w, m as real, Share(SumBy(Capped(UptimeOf(), windows), attestations), windows),
                      Share(SumBy(Capped(TimelyOf(), windows), attestations), windows),
                      Share(SumBy(Capped(PeersOf(), 1), attestations), 1),
                      Share(Min(SumBy(UptimeOf(), attestations), all), all),
                      Share(Min(SumBy(TimelyOf(), attestations), all), all),
                      Share(Min(SumBy(PeersOf(), attestations), m), m));
  }

  /** From raw scores to clamped ones. */
  lemma ClampMean(sum: real, raw: real, m: real, n: real)
    requires 0.0 <= m <= n && raw >= 0.0 && sum <= m * raw && sum <= m
    ensures sum <= n * Clamp(raw)
  {
    ScaleMonotone(Clamp(raw), m, n);
  }

  lemma ReportersAtLeastMean(windows: u64, attestations: seq<ServiceAttestation>, w: Weights, m: nat, all: nat)
    requires NonNegative(w) && windows > 0 && AllObserverShaped(windows, attestations) && SumsFit(attestations)
    requires m == SumBy(Reporting(), attestations) && 0 < m <= |attestations| && all == m * windows && all > 0
    ensures ScoreSum(attestations, w) <= |attestations| as real * ServiceScore(SummedCounters(attestations), w)
  {
    hide Weighted, Share, RawScore, SummedCounters, Min, SumsFit, AllObserverShaped, NonNegative, ScoreSum, Clamp;
    ScoreSumShares(windows, attestations, w);
    SharesDominated(windows, attestations, w, m, all);
    ClampMean(ScoreSum(attestations, w), RawScore(SummedCounters(attestations), w), m as real, |attestations| as real);
  }

  lemma PositiveProduct(a: nat, b: nat)
    requires a > 0 && b > 0
    ensures a * b > 0
  {
  }

  /**
   Capping after summation never loses credit: the aggregate of observer reports scores at least
   the mean of the individual scores, for any non-negative weights.
   */
  lemma AggregateAtLeastMean(windows: u64, attestations: seq<ServiceAttestation>, w: Weights)
    requires NonNegative(w) && windows > 0 && AllObserverShaped(windows, attestations) && SumsFit(attestations)
    ensures ScoreSum(attestations, w) <= |attestations| as real * ServiceScore(SummedCounters(attestations), w)
  {
    hide Weighted, RawScore, SummedCounters, SumsFit, AllObserverShaped, NonNegative, ScoreSum, Clamp, Share;
    var m := SumBy(Reporting(), attestations);
    ReportedTotals(windows, attestations);
    if m == 0 {
      ScoreSumShares(windows, attestations, w);
      ScaleMonotone(|attestations| as real, 0.0, ServiceScore(SummedCounters(attestations), w));
    } else {
      PositiveProduct(m, windows);
      ReportersAtLeastMean(windows, attestations, w, m, m * windows);
    }
  }

  // ---- Sums beyond 64 bits ----

  /** An observer report with full credit over the epoch's windows. */
  function FullReport(windows: u64): ServiceCounters {
    ServiceCounters(windows, windows, windows, windows, 1, 1, 0, 0)
  }

  ghost predicate AllFull(windows: u64, attestations: seq<ServiceAttestation>) {
    forall a :: a in attestations ==> a.counters == FullReport(windows)
  }

  lemma {:induction false} ConstantSum(f: ServiceAttestation -> int, c: int, attestations: seq<ServiceAttestation>)
    requires forall a :: a in attestations ==> f(a) == c
    ensures SumBy(f, attestations) == |attestations| * c
  {
    if attestations != [] {
      var n := |attestations| - 1;
      assert attestations[0] in attestations;
      ConstantSum(f, c, attestations[1..]);
      assert (n + 1) * c == n * c + c;
    }
  }

  lemma FullSums(windows: u64, attestations: seq<ServiceAttestation>)
    requires AllFull(windows, attestations)
    ensures var sum, n := Wrap(|attestations| * windows), Wrap(|attestations|);
            SummedCounters(attestations) == ServiceCounters(sum, sum, sum, sum, n, n, 0, 0)
  {
    hide Wrap;
    ConstantSum(UptimeOf(), windows, attestations);
    ConstantSum(TotalOf(), windows, attestations);
    ConstantSum(TimelyOf(), windows, attestations);
    ConstantSum(ExpectedOf(), windows, attestations);
    ConstantSum(PeersOf(), 1, attestations);
    ConstantSum(ExpectedPeersOf(), 1, attestations);
    ConstantSum(FailedOf(), 0, attestations);
    ConstantSum(InvalidOf(), 0, attestations);
    WrapFits(0);
  }

  lemma FullScore(windows: u64)
    requires windows > 0
    ensures ServiceScore(FullReport(windows), DEFAULT_WEIGHTS) == 1.0
  {
    hide ServiceScore;
    DefaultScoreExtremes(FullReport(windows));
  }

  lemma {:induction false} FullScoreSum(windows: u64, attestations: seq<ServiceAttestation>)
    requires windows > 0 && AllFull(windows, attestations)
    ensures ScoreSum(attestations, DEFAULT_WEIGHTS) == |attestations| as real
  {
    hide ServiceScore;
    if attestations != [] {
      assert attestations[0] in attestations;
      FullScore(windows);
      FullScoreSum(windows, attestations[1..]);
    }
  }

  lemma NothingOfMultiple(n: nat, windows: nat)
    ensures Wrap(n) == 0 ==> Wrap(n * windows) == 0
  {
    if Wrap(n) == 0 {
      var q := n / U64_MODULUS;
      assert n == q * U64_MODULUS;
      assert n * windows == (q * windows) * U64_MODULUS;
    }
  }

  /** What an aggregate of full reports scores: everything, unless its windows wrap to 0. */
  lemma FullAggregateScore(sum: u64, n: u64)
    ensures n == 0 ==> ServiceScore(ServiceCounters(0, 0, 0, 0, n, n, 0, 0), DEFAULT_WEIGHTS) == 0.0
    ensures n > 0 ==> ServiceScore(ServiceCounters(0, 0, 0, 0, n, n, 0, 0), DEFAULT_WEIGHTS) == 0.25
    ensures sum > 0 && n > 0 ==> ServiceScore(ServiceCounters(sum, sum, sum, sum, n, n, 0, 0), DEFAULT_WEIGHTS) == 1.0
  {
    hide ServiceScore, PenaltyRatio;
    if n > 0 {
      RatioRange(n, n);
    }
    DefaultScore(ServiceCounters(0, 0, 0, 0, n, n, 0, 0));
    PenaltyFree(ServiceCounters(0, 0, 0, 0, n, n, 0, 0));
    DefaultScoreExtremes(ServiceCounters(sum, sum, sum, sum, n, n, 0, 0));
  }

  /**
   For reports of full credit over one window size the claim is settled for any number of them: with the
   default weights the aggregate scores at least their mean exactly when there is none, or their windows
   do not add up to a multiple of 2^64; and where it fails it scores at most a quarter.
   */
  lemma FullReportsAtLeastMeanIff(windows: u64, attestations: seq<ServiceAttestation>)
    requires windows > 0 && AllFull(windows, attestations)
    ensures var n, score := |attestations|, ServiceScore(SummedCounters(attestations), DEFAULT_WEIGHTS);
            && AllObserverShaped(windows, attestations)
            && (ScoreSum(attestations, DEFAULT_WEIGHTS) <= n as real * score <==> n == 0 || Wrap(n * windows) != 0)
            && (n > 0 && Wrap(n * windows) == 0 ==>
                  ScoreSum(attestations, DEFAULT_WEIGHTS) == n as real && score <= 0.25)
  {
    hide ServiceScore, Wrap, SummedCounters, ScoreSum;
    var n := |attestations|;
    FullSums(windows, attestations);
    FullScoreSum(windows, attestations);
    NothingOfMultiple(n, windows);
    FullAggregateScore(Wrap(n * windows), Wrap(n));
  }

  /** The failing case: two reports of full credit over 2^63 windows average 1, and their aggregate scores a quarter. */
  lemma WrappedAggregateLosesCredit(a: ServiceAttestation)
    requires a.counters == FullReport(0x8000_0000_0000_0000)
    ensures ScoreSum([a, a], DEFAULT_WEIGHTS) == 2.0
    ensures ServiceScore(SummedCounters([a, a]), DEFAULT_WEIGHTS) == 0.25
  {
    hide ServiceScore, SummedCounters, ScoreSum;
    FullSums(0x8000_0000_0000_0000, [a, a]);
    FullScoreSum(0x8000_0000_0000_0000, [a, a]);
    FullAggregateScore(0, 2);
  }
}
