/** Epoch assignments: who witnesses whom, and the relay graph those assignments span. */
module Schedule {
  import opened Prelude
  import opened Bytes
  import opened Sequences

  type Epoch = u64

  /** The genesis fields the engine reads. */
  datatype Genesis = Genesis(
    epochSeed: HashBytes,
    slotDurationMillis: u64,
    slotsPerEpoch: u64,
    witnessCount: nat,
    validators: seq<ValidatorId>
  )

  datatype ConsensusEngine = ConsensusEngine(
    genesis: Genesis,
    validatorIds: seq<ValidatorId>,
    hashMany: seq<seq<byte>> -> HashBytes
  )

  datatype EpochAssignment = EpochAssignment(
    epoch: Epoch,
    validatorId: ValidatorId,
    witnesses: seq<ValidatorId>,
    relayTargets: seq<ValidatorId>
  )

  function IdKey(): ValidatorId -> int {
    (id: ValidatorId) => id
  }

  function New(genesis: Genesis, hashMany: seq<seq<byte>> -> HashBytes): ConsensusEngine {
    ConsensusEngine(genesis, SortBy(IdKey(), genesis.validators), hashMany)
  }

  /** The engine of a genesis without repeated ids lists the same ids, once each, ascending. */
  lemma NewEngine(genesis: Genesis, hashMany: seq<seq<byte>> -> HashBytes)
    ensures var ids := New(genesis, hashMany).validatorIds;
            && multiset(ids) == multiset(genesis.validators)
            && SortedBy(IdKey(), ids)
            && (Distinct(genesis.validators) ==> Distinct(ids))
  {
    SortSorts(IdKey(), genesis.validators);
    if Distinct(genesis.validators) {
      DistinctPermutation(genesis.validators, New(genesis, hashMany).validatorIds);
    }
  }

  // ---- Assignments ----

  function EpochSeed(e: ConsensusEngine, epoch: Epoch): HashBytes {
    e.hashMany([e.genesis.epochSeed, LeBytes(epoch, 8)])
  }

  function Rotation(e: ConsensusEngine, epoch: Epoch): (r: nat)
    ensures r < Max(|e.validatorIds|, 1)
  {
    LeValue(EpochSeed(e, epoch)[..8]) % Max(|e.validatorIds|, 1)
  }

  function RotateLeft<T>(s: seq<T>, shift: nat): seq<T>
    requires shift <= |s|
  {
    s[shift..] + s[..shift]
  }

  function MaxRelations(e: ConsensusEngine): nat {
    Min(e.genesis.witnessCount, Max(|e.validatorIds| - 1, 0))
  }

  /** The next `count` validators after `position`, skipping repeats of the validator itself. */
  function Targets(rotated: seq<ValidatorId>, position: nat, count: nat): seq<ValidatorId>
    requires position < |rotated|
  {
    if count == 0 then []
    else
      var target := rotated[(position + count) % |rotated|];
      Targets(rotated, position, count - 1) + if target != rotated[position] then [target] else []
  }

  function AssignmentAt(epoch: Epoch, rotated: seq<ValidatorId>, position: nat, count: nat): EpochAssignment
    requires position < |rotated|
  {
    var targets := Targets(rotated, position, count);
    EpochAssignment(epoch, rotated[position], targets, targets)
  }

  function AssignmentsUpTo(epoch: Epoch, rotated: seq<ValidatorId>, count: nat, end: nat):
    map<ValidatorId, EpochAssignment>
    requires end <= |rotated|
  {
    if end == 0 then map[]
    else
      var last := AssignmentAt(epoch, rotated, end - 1, count);
      AssignmentsUpTo(epoch, rotated, count, end - 1)[rotated[end - 1] := last]
  }

  function Assignments(e: ConsensusEngine, epoch: Epoch): map<ValidatorId, EpochAssignment> {
    var rotated := RotateLeft(e.validatorIds, Rotation(e, epoch));
    AssignmentsUpTo(epoch, rotated, MaxRelations(e), |rotated|)
  }

  /** `assignments_for_epoch`: rotate, then give each position the window that follows it. */
  method AssignmentsForEpoch(e: ConsensusEngine, epoch: Epoch) returns (assignments: map<ValidatorId, EpochAssignment>)
    ensures assignments == Assignments(e, epoch)
    ensures Distinct(e.validatorIds) ==>
              forall j :: 0 <= j < |e.validatorIds| ==>
                && e.validatorIds[j] in assignments
                && assignments[e.validatorIds[j]].witnesses == Window(e.validatorIds, j, MaxRelations(e))
  {
    var rotated := RotateLeft(e.validatorIds, Rotation(e, epoch));
    assignments := map[];
    for position := 0 to |rotated|
      invariant assignments == AssignmentsUpTo(epoch, rotated, MaxRelations(e), position)
    {
      var witnesses, relayTargets: seq<ValidatorId> := [], [];
      for offset := 1 to MaxRelations(e) + 1
        invariant witnesses == relayTargets == Targets(rotated, position, offset - 1)
      {
        var target := rotated[(position + offset) % |rotated|];
        if target != rotated[position] {
          relayTargets := relayTargets + [target];
          witnesses := witnesses + [target];
        }
      }
      var assignment := EpochAssignment(epoch, rotated[position], witnesses, relayTargets);
      assignments := assignments[rotated[position] := assignment];
    }
    if Distinct(e.validatorIds) {
      forall j | 0 <= j < |e.validatorIds|
        ensures e.validatorIds[j] in assignments
        ensures assignments[e.validatorIds[j]].witnesses == Window(e.validatorIds, j, MaxRelations(e))
      {
        AssignmentClosedForm(e, epoch, j);
      }
    }
  }

  function AssignmentFor(e: ConsensusEngine, epoch: Epoch, validator: ValidatorId): Option<EpochAssignment> {
    var assignments := Assignments(e, epoch);
    if validator in assignments then Some(assignments[validator]) else None
  }

  function WitnessesFor(e: ConsensusEngine, epoch: Epoch, validator: ValidatorId): seq<ValidatorId> {
    match AssignmentFor(e, epoch, validator)
    case Some(assignment) => assignment.witnesses
    case None => []
  }

  function RelayTargetsFor(e: ConsensusEngine, epoch: Epoch, validator: ValidatorId): seq<ValidatorId> {
    match AssignmentFor(e, epoch, validator)
    case Some(assignment) => assignment.relayTargets
    case None => []
  }

  // ---- Closed form ----

  /** The k ids that follow position j in ring order. */
  function Window(ids: seq<ValidatorId>, j: nat, k: nat): seq<ValidatorId>
    requires j < |ids| && k < |ids|
  {
    seq(k, o requires 0 <= o < k => ids[(j + o + 1) % |ids|])
  }

  lemma MulMonotone(a: int, b: int, k: nat)
    requires a <= b
    ensures a * k <= b * k
  {
  }

  lemma NoSmallMultiple(d: int, n: nat)
    requires d * n < n && d * n + n > 0
    ensures d == 0
  {
    if d >= 1 {
      MulMonotone(1, d, n);
    } else if d <= -1 {
      MulMonotone(d, -1, n);
    }
  }

  lemma ModUnique(x: int, n: nat, q: int, r: nat)
    requires r < n && x == q * n + r
    ensures x % n == r
  {
    var d := x / n - q;
    assert d * n == r - x % n;
    NoSmallMultiple(d, n);
  }

  /** A position less than two turns along the ring, as an index. */
  function Fold(v: nat, n: nat): nat {
    if v < n then v else v - n
  }

  lemma ModWrap(x: nat, n: nat)
    requires n > 0 && x < 2 * n
    ensures x % n == Fold(x, n)
  {
    if x < n {
      ModUnique(x, n, 0, x);
    } else {
      ModUnique(x, n, 1, x - n);
    }
  }

  lemma ModTwice(x: nat, y: nat, sum: nat, n: nat)
    requires n > 0 && sum == x + y
    ensures (x % n + y) % n == sum % n
  {
    var q, r := (x % n + y) / n, (x % n + y) % n;
    assert (x / n + q) * n == x / n * n + q * n;
    ModUnique(sum, n, x / n + q, r);
  }

  lemma RotatedAt(ids: seq<ValidatorId>, shift: nat, p: nat)
    requires shift < |ids| && p < |ids|
    ensures |RotateLeft(ids, shift)| == |ids|
    ensures RotateLeft(ids, shift)[p] == ids[(p + shift) % |ids|]
  {
    ModWrap(p + shift, |ids|);
  }

  lemma RotationPermutes(ids: seq<ValidatorId>, shift: nat)
    requires shift <= |ids|
    ensures multiset(RotateLeft(ids, shift)) == multiset(ids)
  {
    SplitSlices(ids, shift);
  }

  /** Where the k-th validator after rotated position p sits in the unrotated ring. */
  lemma RotatedSuccessor(ids: seq<ValidatorId>, shift: nat, p: nat, j: nat, k: nat)
    requires shift < |ids| && p < |ids| && k < |ids| && j == (p + shift) % |ids|
    ensures RotateLeft(ids, shift)[(p + k) % |ids|] == ids[(j + k) % |ids|]
    ensures RotateLeft(ids, shift)[p] == ids[j]
  {
    var next := (p + k) % |ids|;
    ModCommutes(p, shift, k, |ids|);
    RotatedAt(ids, shift, p);
    RotatedAt(ids, shift, next);
  }

  lemma FoldCommutes(x: nat, y: nat, z: nat, n: nat)
    requires x < n && y < n && z < n
    ensures Fold(Fold(x + z, n) + y, n) == Fold(Fold(x + y, n) + z, n)
  {
  }

  lemma ModCommutes(x: nat, y: nat, z: nat, n: nat)
    requires x < n && y < n && z < n
    ensures ((x + z) % n + y) % n == ((x + y) % n + z) % n
  {
    FoldCommutes(x, y, z, n);
    ModWrap(x + z, n);
    ModWrap(x + y, n);
    ModWrap(Fold(x + z, n) + y, n);
    ModWrap(Fold(x + y, n) + z, n);
  }

  lemma {:induction false} TargetsAreWindow(ids: seq<ValidatorId>, shift: nat, p: nat, j: nat, k: nat)
    requires shift < |ids| && p < |ids| && k < |ids| && j == (p + shift) % |ids|
    requires Distinct(ids)
    ensures |RotateLeft(ids, shift)| == |ids|
    ensures Targets(RotateLeft(ids, shift), p, k) == Window(ids, j, k)
  {
    if k > 0 {
      TargetsAreWindow(ids, shift, p, j, k - 1);
      RotatedSuccessor(ids, shift, p, j, k);
      ModWrap(j + k, |ids|);
      assert Window(ids, j, k) == Window(ids, j, k - 1) + [ids[(j + k) % |ids|]];
    }
  }

  lemma {:induction false} AssignmentsUpToAt(epoch: Epoch, rotated: seq<ValidatorId>, count: nat, end: nat, p: nat)
    requires p < end <= |rotated| && Distinct(rotated)
    ensures rotated[p] in AssignmentsUpTo(epoch, rotated, count, end)
    ensures AssignmentsUpTo(epoch, rotated, count, end)[rotated[p]] == AssignmentAt(epoch, rotated, p, count)
  {
    if p < end - 1 {
      AssignmentsUpToAt(epoch, rotated, count, end - 1, p);
    }
  }

  lemma {:induction false} AssignmentsUpToKeys(epoch: Epoch, rotated: seq<ValidatorId>, count: nat, end: nat)
    requires end <= |rotated|
    ensures AssignmentsUpTo(epoch, rotated, count, end).Keys == Elements(rotated[..end])
  {
    if end > 0 {
      AssignmentsUpToKeys(epoch, rotated, count, end - 1);
      assert rotated[..end] == rotated[..end - 1] + [rotated[end - 1]];
    }
  }

  /** The rotation cancels: the j-th id is witnessed by the k ids after it, in every epoch. */
  lemma AssignmentClosedForm(e: ConsensusEngine, epoch: Epoch, j: nat)
    requires Distinct(e.validatorIds) && j < |e.validatorIds|
    ensures var ids := e.validatorIds;
            var window := Window(ids, j, MaxRelations(e));
            AssignmentFor(e, epoch, ids[j]) == Some(EpochAssignment(epoch, ids[j], window, window))
  {
    hide Rotation, RotateLeft, Targets, Window, MaxRelations, Distinct;
    var ids, n := e.validatorIds, |e.validatorIds|;
    RelationsFit(e, j);
    var shift := Rotation(e, epoch);
    var rotated := RotateLeft(ids, shift);
    var p := if j >= shift then j - shift else j - shift + n;
    ModWrap(p + shift, n);
    RotatedAt(ids, shift, p);
    RotationPermutes(ids, shift);
    DistinctPermutation(ids, rotated);
    AssignmentsUpToAt(epoch, rotated, MaxRelations(e), n, p);
    TargetsAreWindow(ids, shift, p, j, MaxRelations(e));
  }

  /** The targets at a rotated position: the next ids in the ring, without the validator's own. */
  function NextOthers(ring: seq<ValidatorId>, position: nat, count: nat): seq<ValidatorId>
    requires position < |ring|
  {
    if count == 0 then []
    else
      var next := ring[(position + count) % |ring|];
      NextOthers(ring, position, count - 1) + if next == ring[position] then [] else [next]
  }

  lemma {:induction false} TargetsAreNextOthers(ring: seq<ValidatorId>, position: nat, count: nat)
    requires position < |ring|
    ensures Targets(ring, position, count) == NextOthers(ring, position, count)
  {
    if count > 0 {
      TargetsAreNextOthers(ring, position, count - 1);
    }
  }

  lemma {:induction false} LastPositionWins(epoch: Epoch, rotated: seq<ValidatorId>, count: nat, end: nat, p: nat)
    requires p < end <= |rotated| && forall q :: p < q < end ==> rotated[q] != rotated[p]
    ensures rotated[p] in AssignmentsUpTo(epoch, rotated, count, end)
    ensures AssignmentsUpTo(epoch, rotated, count, end)[rotated[p]] == AssignmentAt(epoch, rotated, p, count)
  {
    if p < end - 1 {
      LastPositionWins(epoch, rotated, count, end - 1, p);
    }
  }

  /** The ring of an epoch: the ids from a start that the epoch seed picks, little-endian, and round to it. */
  function EpochRing(e: ConsensusEngine, epoch: Epoch): seq<ValidatorId>
    requires e.validatorIds != []
  {
    var seed := e.hashMany([e.genesis.epochSeed, LeBytes(epoch, 8)]);
    var start := LeValue(seed[..8]) % |e.validatorIds|;
    e.validatorIds[start..] + e.validatorIds[..start]
  }

  /** No later position of the ring holds this one's id. */
  ghost predicate LastOfItsId(ring: seq<ValidatorId>, p: nat) {
    p < |ring| && forall q :: p < q < |ring| ==> ring[q] != ring[p]
  }

  lemma RotatedIsEpochRing(e: ConsensusEngine, epoch: Epoch)
    requires e.validatorIds != []
    ensures RotateLeft(e.validatorIds, Rotation(e, epoch)) == EpochRing(e, epoch)
    ensures |EpochRing(e, epoch)| == |e.validatorIds|
  {
    hide LeValue, LeBytes;
  }

  /** Without assuming distinct ids: an id has the targets of its last position on the epoch's ring. */
  lemma AssignmentOnRing(e: ConsensusEngine, epoch: Epoch, p: nat)
    requires e.validatorIds != [] && LastOfItsId(EpochRing(e, epoch), p)
    ensures var ring := EpochRing(e, epoch);
            var others := NextOthers(ring, p, Min(e.genesis.witnessCount, |ring| - 1));
            AssignmentFor(e, epoch, ring[p]) == Some(EpochAssignment(epoch, ring[p], others, others))
  {
    hide Rotation, RotateLeft, EpochRing, Targets, NextOthers;
    RotatedIsEpochRing(e, epoch);
    RelationsFit(e, 0);
    var ring := EpochRing(e, epoch);
    LastPositionWins(epoch, ring, MaxRelations(e), |ring|, p);
    TargetsAreNextOthers(ring, p, MaxRelations(e));
  }

  lemma AssignedIffValidator(e: ConsensusEngine, epoch: Epoch, validator: ValidatorId)
    ensures AssignmentFor(e, epoch, validator).Some? <==> validator in e.validatorIds
  {
    var rotated := RotateLeft(e.validatorIds, Rotation(e, epoch));
    AssignmentsUpToKeys(epoch, rotated, MaxRelations(e), |rotated|);
    assert rotated[..|rotated|] == rotated;
    assert e.validatorIds == e.validatorIds[..Rotation(e, epoch)] + e.validatorIds[Rotation(e, epoch)..];
    assert validator in Elements(rotated) <==> validator in rotated;
  }

  /** A validator's witnesses never change from one epoch to another. */
  lemma WitnessesEpochIndependent(e: ConsensusEngine, epoch: Epoch, other: Epoch, validator: ValidatorId)
    requires Distinct(e.validatorIds)
    ensures WitnessesFor(e, epoch, validator) == WitnessesFor(e, other, validator)
    ensures RelayTargetsFor(e, epoch, validator) == WitnessesFor(e, epoch, validator)
  {
    AssignedIffValidator(e, epoch, validator);
    AssignedIffValidator(e, other, validator);
    if validator in e.validatorIds {
      var j :| 0 <= j < |e.validatorIds| && e.validatorIds[j] == validator;
      AssignmentClosedForm(e, epoch, j);
      AssignmentClosedForm(e, other, j);
    }
  }

  // ---- Regularity ----

  lemma WindowMember(ids: seq<ValidatorId>, i: nat, j: nat, k: nat)
    requires Distinct(ids) && i < |ids| && j < |ids| && k < |ids|
    ensures ids[j] in Window(ids, i, k) <==> 1 <= (if j > i then j - i else j - i + |ids|) <= k
  {
    var n, w := |ids|, Window(ids, i, k);
    forall o | 0 <= o < k
      ensures w[o] == ids[if i + o + 1 < n then i + o + 1 else i + o + 1 - n]
    {
      ModWrap(i + o + 1, n);
    }
    var d := if j > i then j - i else j - i + n;
    if d <= k {
      assert w[d - 1] == ids[j];
    }
  }

  lemma WindowShape(ids: seq<ValidatorId>, j: nat, k: nat)
    requires Distinct(ids) && j < |ids| && k < |ids|
    ensures var w := Window(ids, j, k);
            |w| == k && Distinct(w) && ids[j] !in w && forall x :: x in w ==> x in ids
  {
    var w := Window(ids, j, k);
    forall o | 0 <= o < k
      ensures w[o] == ids[if j + o + 1 < |ids| then j + o + 1 else j + o + 1 - |ids|]
    {
      ModWrap(j + o + 1, |ids|);
    }
  }

  /** Every validator has exactly k different witnesses, never itself. */
  lemma ExactlyKWitnesses(e: ConsensusEngine, epoch: Epoch, validator: ValidatorId)
    requires Distinct(e.validatorIds) && validator in e.validatorIds
    ensures var witnesses := WitnessesFor(e, epoch, validator);
            && |witnesses| == Min(e.genesis.witnessCount, |e.validatorIds| - 1)
            && Distinct(witnesses)
            && validator !in witnesses
            && (forall w :: w in witnesses ==> w in e.validatorIds)
  {
    hide Window, Distinct, MaxRelations;
    var j :| 0 <= j < |e.validatorIds| && e.validatorIds[j] == validator;
    AssignmentClosedForm(e, epoch, j);
    RelationsFit(e, j);
    WindowShape(e.validatorIds, j, MaxRelations(e));
  }

  lemma RelationsFit(e: ConsensusEngine, j: nat)
    requires j < |e.validatorIds|
    ensures MaxRelations(e) < |e.validatorIds|
    ensures MaxRelations(e) == Min(e.genesis.witnessCount, |e.validatorIds| - 1)
  {
  }

  /** The k ids that precede position j in ring order. */
  function Predecessors(ids: seq<ValidatorId>, j: nat, k: nat): seq<ValidatorId>
    requires j < |ids| && k < |ids|
  {
    seq(k, o requires 0 <= o < k => ids[if j > o then j - o - 1 else j - o - 1 + |ids|])
  }

  lemma PredecessorMember(ids: seq<ValidatorId>, i: nat, j: nat, k: nat)
    requires Distinct(ids) && i < |ids| && j < |ids| && k < |ids|
    ensures ids[i] in Predecessors(ids, j, k) <==> 1 <= (if j > i then j - i else j - i + |ids|) <= k
  {
    var before := Predecessors(ids, j, k);
    var d := if j > i then j - i else j - i + |ids|;
    if d <= k {
      assert before[d - 1] == ids[i];
    }
  }

  lemma PredecessorsShape(ids: seq<ValidatorId>, j: nat, k: nat)
    requires Distinct(ids) && j < |ids| && k < |ids|
    ensures var before := Predecessors(ids, j, k);
            |before| == k && Distinct(before) && forall x :: x in before ==> x in ids
  {
  }

  lemma SubjectIffPredecessor(e: ConsensusEngine, epoch: Epoch, j: nat, subject: ValidatorId)
    requires Distinct(e.validatorIds) && j < |e.validatorIds| && subject in e.validatorIds
    ensures e.validatorIds[j] in WitnessesFor(e, epoch, subject) <==>
            subject in Predecessors(e.validatorIds, j, MaxRelations(e))
  {
    hide Predecessors, Window;
    var i :| 0 <= i < |e.validatorIds| && e.validatorIds[i] == subject;
    AssignmentClosedForm(e, epoch, i);
    WindowMember(e.validatorIds, i, j, MaxRelations(e));
    PredecessorMember(e.validatorIds, i, j, MaxRelations(e));
  }

  /** Every validator witnesses exactly k subjects. */
  lemma ExactlyKSubjects(e: ConsensusEngine, epoch: Epoch, observer: ValidatorId)
    requires Distinct(e.validatorIds) && observer in e.validatorIds
    ensures |set s | s in e.validatorIds && observer in WitnessesFor(e, epoch, s)| ==
            Min(e.genesis.witnessCount, |e.validatorIds| - 1)
  {
    hide WitnessesFor, Predecessors, MaxRelations, Distinct;
    var ids, k := e.validatorIds, MaxRelations(e);
    var j :| 0 <= j < |ids| && ids[j] == observer;
    RelationsFit(e, j);
    var before := Predecessors(ids, j, k);
    PredecessorsShape(ids, j, k);
    DistinctCardinality(before);
    var subjects := set s | s in ids && observer in WitnessesFor(e, epoch, s);
    forall s ensures s in subjects <==> s in Elements(before) {
      if s in ids {
        SubjectIffPredecessor(e, epoch, j, s);
      }
    }
    assert subjects == Elements(before);
  }

  // ---- Relay distance ----

  /** Consecutive validators of a relay path; each hop may happen in an epoch of its own. */
  ghost predicate RelayPath(e: ConsensusEngine, epochs: seq<Epoch>, path: seq<ValidatorId>) {
    && |path| == |epochs| + 1
    && path[0] in e.validatorIds
    && forall i :: 0 <= i < |epochs| ==> path[i + 1] in RelayTargetsFor(e, epochs[i], path[i])
  }

  function CeilDiv(d: nat, k: nat): nat
    requires k > 0
  {
    (d + k - 1) / k
  }

  lemma HopOffset(e: ConsensusEngine, epoch: Epoch, j: nat, target: ValidatorId) returns (o: nat)
    requires Distinct(e.validatorIds) && j < |e.validatorIds|
    requires target in RelayTargetsFor(e, epoch, e.validatorIds[j])
    ensures 1 <= o <= MaxRelations(e)
    ensures target == e.validatorIds[(j + o) % |e.validatorIds|]
  {
    hide RelayTargetsFor, MaxRelations, Distinct;
    TargetsAreNext(e, epoch, j);
    var w := Window(e.validatorIds, j, MaxRelations(e));
    var i :| 0 <= i < |w| && w[i] == target;
    o := i + 1;
  }

  lemma TargetsAreNext(e: ConsensusEngine, epoch: Epoch, j: nat)
    requires Distinct(e.validatorIds) && j < |e.validatorIds|
    ensures MaxRelations(e) < |e.validatorIds|
    ensures RelayTargetsFor(e, epoch, e.validatorIds[j]) == Window(e.validatorIds, j, MaxRelations(e))
  {
    hide Assignments, Window, Distinct, MaxRelations;
    RelationsFit(e, j);
    AssignmentClosedForm(e, epoch, j);
  }

  /** A path of h hops advances at most h*k positions around the ring. */
  lemma {:induction false} PathAdvance(
    e: ConsensusEngine, epochs: seq<Epoch>, path: seq<ValidatorId>, j: nat
  ) returns (advance: nat)
    requires Distinct(e.validatorIds) && j < |e.validatorIds|
    requires RelayPath(e, epochs, path) && path[0] == e.validatorIds[j]
    ensures advance <= |epochs| * MaxRelations(e)
    ensures path[|epochs|] == e.validatorIds[(j + advance) % |e.validatorIds|]
    decreases |epochs|
  {
    hide RelayTargetsFor, Distinct, MaxRelations;
    var n, k := |e.validatorIds|, MaxRelations(e);
    if epochs == [] {
      advance := 0;
      ModWrap(j, n);
    } else {
      var h := |epochs| - 1;
      var front := epochs[..h];
      assert RelayPath(e, front, path[..h + 1]);
      var before := PathAdvance(e, front, path[..h + 1], j);
      var middle := (j + before) % n;
      var o := HopOffset(e, epochs[h], middle, path[h + 1]);
      advance := before + o;
      ModTwice(j + before, o, j + advance, n);
      OneMoreHop(h, k);
    }
  }

  lemma OneMoreHop(h: nat, k: nat)
    ensures (h + 1) * k == h * k + k
  {
  }

  /** The path that takes full strides of k and a last partial one. */
  function StridePosition(j: nat, d: nat, k: nat, i: nat): nat {
    j + Min(i * k, d)
  }

  lemma CeilDivBounds(d: nat, k: nat)
    requires k > 0
    ensures (CeilDiv(d, k) as int - 1) * k < d || d == 0
    ensures d <= CeilDiv(d, k) * k
    ensures d == 0 ==> CeilDiv(d, k) == 0
  {
    var h := (d + k - 1) / k;
    assert d + k - 1 == k * h + (d + k - 1) % k;
    assert (h - 1) * k == h * k - k;
    if d == 0 {
      NoSmallMultiple(h, k);
    }
  }

  lemma StridePath(e: ConsensusEngine, epochs: seq<Epoch>, j: nat, d: nat)
    requires Distinct(e.validatorIds) && j < |e.validatorIds| && d < |e.validatorIds|
    requires MaxRelations(e) > 0 && |epochs| == CeilDiv(d, MaxRelations(e))
    ensures var n, k := |e.validatorIds|, MaxRelations(e);
            RelayPath(e, epochs, seq(|epochs| + 1, i requires 0 <= i => e.validatorIds[StridePosition(j, d, k, i) % n]))
    ensures StridePosition(j, d, MaxRelations(e), |epochs|) == j + d
    ensures StridePosition(j, d, MaxRelations(e), 0) == j
  {
    hide RelayTargetsFor, MaxRelations, Distinct;
    var ids, n, k := e.validatorIds, |e.validatorIds|, MaxRelations(e);
    var path := seq(|epochs| + 1, i requires 0 <= i => ids[StridePosition(j, d, k, i) % n]);
    CeilDivBounds(d, k);
    forall i | 0 <= i < |epochs|
      ensures path[i + 1] in RelayTargetsFor(e, epochs[i], path[i])
    {
      MulMonotone(i, |epochs| - 1, k);
      Stride(e, epochs[i], j, d, i);
    }
    ModWrap(j, n);
  }

  /** One stride of the path is one hop. */
  lemma Stride(e: ConsensusEngine, epoch: Epoch, j: nat, d: nat, i: nat)
    requires Distinct(e.validatorIds) && |e.validatorIds| > 0 && i * MaxRelations(e) < d
    requires MaxRelations(e) > 0
    ensures var ids, n, k := e.validatorIds, |e.validatorIds|, MaxRelations(e);
            ids[StridePosition(j, d, k, i + 1) % n] in
            RelayTargetsFor(e, epoch, ids[StridePosition(j, d, k, i) % n])
  {
    hide Assignments, Distinct, MaxRelations;
    var ids, n, k := e.validatorIds, |e.validatorIds|, MaxRelations(e);
    var here, there := StridePosition(j, d, k, i), StridePosition(j, d, k, i + 1);
    OneMoreHop(i, k);
    RelationsFit(e, 0);
    var o := there - here;
    var at := here % n;
    ModTwice(here, o, there, n);
    AssignmentClosedForm(e, epoch, at);
    assert Window(ids, at, k)[o - 1] == ids[(at + o) % n];
  }

  /** The shortest relay path between ids d positions apart has exactly ceil(d / k) hops. */
  lemma ShortestRelayPath(e: ConsensusEngine, j: nat, d: nat, epochs: seq<Epoch>, path: seq<ValidatorId>)
    requires Distinct(e.validatorIds) && j < |e.validatorIds| && d < |e.validatorIds|
    requires MaxRelations(e) > 0
    ensures var n, hops := |e.validatorIds|, CeilDiv(d, MaxRelations(e));
            var source, goal := e.validatorIds[j], e.validatorIds[(j + d) % n];
            && (RelayPath(e, epochs, path) && path[0] == source && path[|epochs|] == goal ==> |epochs| >= hops)
            && (|epochs| == hops ==> exists p :: RelayPath(e, epochs, p) && p[0] == source && p[|epochs|] == goal)
  {
    var ids, n, k := e.validatorIds, |e.validatorIds|, MaxRelations(e);
    var hops := CeilDiv(d, k);
    ModWrap(j, n);
    if RelayPath(e, epochs, path) && path[0] == ids[j] && path[|epochs|] == ids[(j + d) % n] {
      var advance := PathAdvance(e, epochs, path, j);
      assert (j + advance) % n == (j + d) % n;
      AdvanceCoversDistance(j, advance, d, n);
      CeilDivLeast(d, k, |epochs|);
    }
    if |epochs| == hops {
      StridePath(e, epochs, j, d);
      var p := seq(|epochs| + 1, i requires 0 <= i => ids[StridePosition(j, d, k, i) % n]);
      assert RelayPath(e, epochs, p);
    }
  }

  /** Residues agree only if the advance is d plus whole turns. */
  lemma AdvanceCoversDistance(j: nat, advance: nat, d: nat, n: nat)
    requires d < n && (j + advance) % n == (j + d) % n
    ensures d <= advance
  {
    var turns := (j + d) / n - (j + advance) / n;
    assert turns * n == d - advance;
    if turns >= 1 {
      MulMonotone(1, turns, n);
    } else {
      MulMonotone(turns, 0, n);
    }
  }

  lemma CeilDivLeast(d: nat, k: nat, h: nat)
    requires k > 0 && d <= h * k
    ensures CeilDiv(d, k) <= h
  {
    CeilDivBounds(d, k);
    if CeilDiv(d, k) >= h + 1 {
      MulMonotone(h, CeilDiv(d, k) - 1, k);
    }
  }
}
