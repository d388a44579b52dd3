/** Topology commitments: a summary of a receipt list that forgets its order. */
module Commitments {
  import opened Prelude
  import opened Bytes
  import opened Sequences
  import opened Schedule
  import opened Service

  datatype Hashing = Hashing(receiptHash: RelayReceipt -> HashBytes, listHash: seq<HashBytes> -> HashBytes)

  datatype CommitmentSummary = CommitmentSummary(
    byMessageClass: map<MessageClass, nat>,
    distinctPeers: nat,
    relayScore: real
  )

  datatype TopologyCommitment = TopologyCommitment(
    epoch: Epoch,
    validatorId: ValidatorId,
    receiptRoot: HashBytes,
    receiptCount: nat,
    summary: CommitmentSummary
  )

  // ---- Receipt root ----

  function HashKey(): HashBytes -> int {
    (h: HashBytes) => BeValue(h)
  }

  function Hashes(h: Hashing, receipts: seq<RelayReceipt>): seq<HashBytes> {
    if receipts == [] then [] else [h.receiptHash(receipts[0])] + Hashes(h, receipts[1..])
  }

  /** `compute_receipt_root`: hash each receipt, sort the hashes bytewise, hash the list. */
  function ReceiptRoot(h: Hashing, receipts: seq<RelayReceipt>): HashBytes {
    h.listHash(SortBy(HashKey(), Hashes(h, receipts)))
  }

  lemma HashKeyInjective()
    ensures Injective(HashKey())
  {
    forall a: HashBytes, b: HashBytes | HashKey()(a) == HashKey()(b) ensures a == b {
      BeValueInjective(a, b);
    }
  }

  function HashCount(h: Hashing, x: HashBytes): RelayReceipt -> int {
    (r: RelayReceipt) => if h.receiptHash(r) == x then 1 else 0
  }

  lemma {:induction false} HashMultiplicity(h: Hashing, receipts: seq<RelayReceipt>, x: HashBytes)
    ensures multiset(Hashes(h, receipts))[x] == SumBy(HashCount(h, x), receipts)
  {
    if receipts != [] {
      HashMultiplicity(h, receipts[1..], x);
    }
  }

  /** No two different receipts among these share a hash. */
  ghost predicate CollisionFree(h: Hashing, receipts: seq<RelayReceipt>) {
    forall r, s :: r in receipts && s in receipts && h.receiptHash(r) == h.receiptHash(s) ==> r == s
  }

  /** The two sorted hash lists behind these roots do not collide. */
  ghost predicate RootsTell(h: Hashing, a: seq<RelayReceipt>, b: seq<RelayReceipt>) {
    var x, y := SortBy(HashKey(), Hashes(h, a)), SortBy(HashKey(), Hashes(h, b));
    h.listHash(x) == h.listHash(y) ==> x == y
  }

  lemma {:induction false} ReceiptMultiplicity(h: Hashing, receipts: seq<RelayReceipt>, r: RelayReceipt)
    requires forall s :: s in receipts && h.receiptHash(s) == h.receiptHash(r) ==> s == r
    ensures multiset(receipts)[r] == SumBy(HashCount(h, h.receiptHash(r)), receipts)
  {
    if receipts != [] {
      assert receipts[0] in receipts;
      ReceiptMultiplicity(h, receipts[1..], r);
      assert receipts == [receipts[0]] + receipts[1..];
    }
  }

  lemma RootOfPermutation(h: Hashing, a: seq<RelayReceipt>, b: seq<RelayReceipt>)
    requires multiset(a) == multiset(b)
    ensures ReceiptRoot(h, a) == ReceiptRoot(h, b)
  {
    forall x: HashBytes ensures multiset(Hashes(h, a))[x] == multiset(Hashes(h, b))[x] {
      HashMultiplicity(h, a, x);
      HashMultiplicity(h, b, x);
      SumPermutation(HashCount(h, x), a, b);
    }
    HashKeyInjective();
    SortCanonical(HashKey(), Hashes(h, a), Hashes(h, b));
  }

  lemma SameHashesSameReceipts(h: Hashing, a: seq<RelayReceipt>, b: seq<RelayReceipt>, r: RelayReceipt)
    requires CollisionFree(h, a + b) && multiset(Hashes(h, a)) == multiset(Hashes(h, b))
    ensures multiset(a)[r] == multiset(b)[r]
  {
    if r in a + b {
      assert forall s :: s in a || s in b ==> s in a + b;
      ReceiptMultiplicity(h, a, r);
      ReceiptMultiplicity(h, b, r);
      HashMultiplicity(h, a, h.receiptHash(r));
      HashMultiplicity(h, b, h.receiptHash(r));
    }
  }

  /** Where the hashes involved do not collide, equal roots mean equal receipts, counted but unordered. */
  lemma RootIffMultiset(h: Hashing, a: seq<RelayReceipt>, b: seq<RelayReceipt>)
    requires CollisionFree(h, a + b) && RootsTell(h, a, b)
    ensures ReceiptRoot(h, a) == ReceiptRoot(h, b) <==> multiset(a) == multiset(b)
  {
    if multiset(a) == multiset(b) {
      RootOfPermutation(h, a, b);
    }
    if ReceiptRoot(h, a) == ReceiptRoot(h, b) {
      HashKeyInjective();
      SortCanonical(HashKey(), Hashes(h, a), Hashes(h, b));
      forall r ensures multiset(a)[r] == multiset(b)[r] {
        SameHashesSameReceipts(h, a, b, r);
      }
    }
  }

  ghost function WithHash(h: Hashing, receipts: seq<RelayReceipt>, x: HashBytes): set<int> {
    set i | 0 <= i < |receipts| && h.receiptHash(receipts[i]) == x
  }

  /** The receipts' hashes in ascending bytewise order. */
  ghost predicate SortedHashes(h: Hashing, receipts: seq<RelayReceipt>, sorted: seq<HashBytes>) {
    && |sorted| == |receipts|
    && (forall i, j :: 0 <= i < j < |sorted| ==> sorted[i] == sorted[j] || LexBelow(sorted[i], sorted[j]))
    && forall x: HashBytes ::
         multiset(sorted)[x] == |WithHash(h, receipts, x)|
  }

  /** The root is the hash of exactly that list. */
  lemma RootIsSortedHash(h: Hashing, receipts: seq<RelayReceipt>, sorted: seq<HashBytes>)
    requires SortedHashes(h, receipts, sorted)
    ensures ReceiptRoot(h, receipts) == h.listHash(sorted)
  {
    hide LexBelow, BeValue;
    forall x: HashBytes ensures multiset(sorted)[x] == multiset(Hashes(h, receipts))[x] {
      HashMultiplicity(h, receipts, x);
      IndicatorSum(HashCount(h, x), receipts);
      assert Positions(HashCount(h, x), receipts) == WithHash(h, receipts, x);
    }
    forall i, j | 0 <= i < j < |sorted| ensures HashKey()(sorted[i]) <= HashKey()(sorted[j]) {
      if sorted[i] != sorted[j] {
        BeValueOrders(sorted[i], sorted[j]);
      }
    }
    HashKeyInjective();
    SortSorts(HashKey(), Hashes(h, receipts));
    SortedUnique(HashKey(), sorted, SortBy(HashKey(), Hashes(h, receipts)));
  }

  // ---- Commitment ----

  function InClass(c: MessageClass): RelayReceipt -> int {
    (r: RelayReceipt) => if r.messageClass == c then 1 else 0
  }

  ghost function Classes(receipts: seq<RelayReceipt>): set<MessageClass> {
    set r | r in receipts :: r.messageClass
  }

  ghost function ClassCount(receipts: seq<RelayReceipt>, c: MessageClass): nat {
    SumNonNegative(InClass(c), receipts);
    SumBy(InClass(c), receipts)
  }

  ghost function ClassCounts(receipts: seq<RelayReceipt>): map<MessageClass, nat> {
    map c | c in Classes(receipts) :: ClassCount(receipts, c)
  }

  lemma ClassSnoc(s: seq<RelayReceipt>, r: RelayReceipt)
    ensures Classes(s + [r]) == Classes(s) + {r.messageClass}
  {
    assert forall x :: x in s + [r] <==> x in s || x == r;
  }

  lemma CountSnoc(s: seq<RelayReceipt>, r: RelayReceipt)
    ensures var before := ClassCounts(s);
            ClassCounts(s + [r]) ==
            before[r.messageClass := (if r.messageClass in before then before[r.messageClass] else 0) + 1]
  {
    hide Classes;
    ClassSnoc(s, r);
    forall c: MessageClass ensures SumBy(InClass(c), s + [r]) == SumBy(InClass(c), s) + InClass(c)(r) {
      SumSnoc(InClass(c), s, r);
    }
    if r.messageClass !in Classes(s) {
      AbsentClass(s, r.messageClass);
    }
  }

  lemma {:induction false} AbsentClass(s: seq<RelayReceipt>, c: MessageClass)
    requires c !in Classes(s)
    ensures SumBy(InClass(c), s) == 0
  {
    if s != [] {
      assert s[0] in s;
      assert forall x :: x in s[1..] ==> x in s;
      AbsentClass(s[1..], c);
    }
  }

  lemma NothingCounted()
    ensures ClassCounts([]) == map[] && Destinations([]) == {}
  {
  }

  /** What a commitment says about a receipt list, field by field. */
  ghost function CommitmentOf(
    e: ConsensusEngine, h: Hashing, validator: ValidatorId, epoch: Epoch, receipts: seq<RelayReceipt>,
    failedSessions: u64, invalidReceipts: u64, w: Weights
  ): TopologyCommitment
    requires FitsMemory(receipts)
  {
    var counters := ReceiptCounters(e, validator, epoch, receipts, failedSessions, invalidReceipts);
    TopologyCommitment(
      epoch, validator, ReceiptRoot(h, receipts), |receipts|,
      CommitmentSummary(ClassCounts(receipts), |Destinations(receipts)|, ServiceScore(counters, w)))
  }

  /** Where the receipts of one class stand. */
  ghost function OfClass(receipts: seq<RelayReceipt>, kind: MessageClass): set<int> {
    set i | 0 <= i < |receipts| && receipts[i].messageClass == kind
  }

  lemma CommitmentFields(
    e: ConsensusEngine, h: Hashing, validator: ValidatorId, epoch: Epoch, receipts: seq<RelayReceipt>,
    failedSessions: u64, invalidReceipts: u64, w: Weights
  )
    requires FitsMemory(receipts)
    ensures var c := CommitmentOf(e, h, validator, epoch, receipts, failedSessions, invalidReceipts, w);
            && c.epoch == epoch && c.validatorId == validator && c.receiptCount == |receipts|
            && c.receiptRoot == ReceiptRoot(h, receipts)
            && c.summary.distinctPeers == |Destinations(receipts)|
            && (forall kind :: CountIn(c.summary.byMessageClass, kind) ==
                               |OfClass(receipts, kind)|)
            && c.summary.relayScore ==
               ServiceScore(ReceiptCounters(e, validator, epoch, receipts, failedSessions, invalidReceipts), w)
  {
    hide ReceiptRoot, ServiceScore, ReceiptCounters, RelayTargetsFor, ClassCounts, CountIn;
    forall kind: MessageClass
      ensures CountIn(ClassCounts(receipts), kind) == |OfClass(receipts, kind)|
    {
      CountInClass(receipts, kind);
      IndicatorSum(InClass(kind), receipts);
      assert Positions(InClass(kind), receipts) == OfClass(receipts, kind);
    }
  }

  /** `commitment_from_receipts_with_weights`. */
  method CommitmentFromReceipts(
    e: ConsensusEngine, h: Hashing, validator: ValidatorId, epoch: Epoch, receipts: seq<RelayReceipt>,
    failedSessions: u64, invalidReceipts: u64, w: Weights
  ) returns (c: TopologyCommitment)
    requires FitsMemory(receipts)
    ensures c == CommitmentOf(e, h, validator, epoch, receipts, failedSessions, invalidReceipts, w)
    ensures c.epoch == epoch && c.validatorId == validator && c.receiptCount == |receipts|
    ensures c.receiptRoot == ReceiptRoot(h, receipts)
    ensures c.summary.distinctPeers == |Destinations(receipts)|
    ensures forall kind :: CountIn(c.summary.byMessageClass, kind) ==
                           |OfClass(receipts, kind)|
    ensures c.summary.relayScore ==
            ServiceScore(ReceiptCounters(e, validator, epoch, receipts, failedSessions, invalidReceipts), w)
  {
    hide ReceiptRoot, ServiceScore, ReceiptCounters, RelayTargetsFor, ClassCounts, Classes, Destinations, CountIn;
    NothingCounted();
    CommitmentFields(e, h, validator, epoch, receipts, failedSessions, invalidReceipts, w);
    var counters := CountersFromReceipts(e, validator, epoch, receipts, failedSessions, invalidReceipts);
    var byClass: map<MessageClass, nat> := map[];
    var peers: set<ValidatorId> := {};
    for i := 0 to |receipts|
      invariant byClass == ClassCounts(receipts[..i])
      invariant peers == Destinations(receipts[..i])
    {
      var kind := receipts[i].messageClass;
      CountSnoc(receipts[..i], receipts[i]);
      ReceiptSnoc(e, receipts[..i], receipts[i]);
      assert receipts[..i + 1] == receipts[..i] + [receipts[i]];
      byClass := byClass[kind := (if kind in byClass then byClass[kind] else 0) + 1];
      peers := peers + {receipts[i].destination};
    }
    assert receipts[..|receipts|] == receipts;
    c := TopologyCommitment(
      epoch, validator, ReceiptRoot(h, receipts), |receipts|,
      CommitmentSummary(byClass, |peers|, ServiceScore(counters, w)));
  }

  /** Permuting the receipts yields the identical commitment. */
  lemma CommitmentPermutation(
    e: ConsensusEngine, h: Hashing, validator: ValidatorId, epoch: Epoch, a: seq<RelayReceipt>, b: seq<RelayReceipt>,
    failedSessions: u64, invalidReceipts: u64, w: Weights
  )
    requires multiset(a) == multiset(b) && FitsMemory(a) && FitsMemory(b)
    ensures CommitmentOf(e, h, validator, epoch, a, failedSessions, invalidReceipts, w)
            == CommitmentOf(e, h, validator, epoch, b, failedSessions, invalidReceipts, w)
  {
    SameReceipts(a, b);
    assert |multiset(a)| == |multiset(b)|;
    RootOfPermutation(h, a, b);
    SumPermutation(Timely(e), a, b);
    forall k | k in Classes(a) ensures SumBy(InClass(k), a) == SumBy(InClass(k), b) {
      SumPermutation(InClass(k), a, b);
    }
    assert ClassCounts(a) == ClassCounts(b);
  }

  lemma SameReceipts(a: seq<RelayReceipt>, b: seq<RelayReceipt>)
    requires multiset(a) == multiset(b)
    ensures Classes(a) == Classes(b) && Destinations(a) == Destinations(b) && HeartbeatSlots(a) == HeartbeatSlots(b)
  {
    forall r ensures r in a <==> r in b {
      assert r in a <==> r in multiset(a);
      assert r in b <==> r in multiset(b);
    }
  }

  function CountIn(m: map<MessageClass, nat>, c: MessageClass): nat {
    if c in m then m[c] else 0
  }

  lemma {:induction false} ClassesPartition(receipts: seq<RelayReceipt>)
    ensures SumBy(InClass(Heartbeat), receipts) + SumBy(InClass(TransactionMessage), receipts)
            + SumBy(InClass(BlockMessage), receipts) == |receipts|
  {
    if receipts != [] {
      ClassesPartition(receipts[1..]);
    }
  }

  lemma CountInClass(receipts: seq<RelayReceipt>, c: MessageClass)
    ensures CountIn(ClassCounts(receipts), c) == SumBy(InClass(c), receipts)
  {
    if c !in Classes(receipts) {
      AbsentClass(receipts, c);
    }
  }

  /** The per-class counts of a commitment add up to its receipt count. */
  lemma ClassCountsSum(
    e: ConsensusEngine, h: Hashing, validator: ValidatorId, epoch: Epoch, receipts: seq<RelayReceipt>,
    failedSessions: u64, invalidReceipts: u64, w: Weights
  )
    requires FitsMemory(receipts)
    ensures var c := CommitmentOf(e, h, validator, epoch, receipts, failedSessions, invalidReceipts, w);
            var counts := c.summary.byMessageClass;
            CountIn(counts, Heartbeat) + CountIn(counts, TransactionMessage) + CountIn(counts, BlockMessage)
            == c.receiptCount
  {
    CountInClass(receipts, Heartbeat);
    CountInClass(receipts, TransactionMessage);
    CountInClass(receipts, BlockMessage);
    ClassesPartition(receipts);
  }
}
