# Entangrid protocol proofs

A Dafny 4.11 model of the parts of Entangrid on which the rest of the node relies, with proofs about whole
runs, whole chains and both ends of a connection:

- **Ledger** (`Ledger.dfy`): balances, nonces, block application and chain replay. `LedgerState` is the mutable
  object; each method is proved against a pure specification, and the theorems are about that specification.
- **Scheduling** (`Schedule.dfy`): epoch assignments by rotation, their closed form, the relay graph and its distances.
- **Service evidence** (`Service.dfy`, `Committee.dfy`, `Commitments.dfy`): receipts, counters, scores, aggregates,
  committee quorums and topology commitments.
- **Transport** (`Framing.dfy`, `Lane.dfy`, `Inbound.dfy`): length-prefixed frames on a stream that may be cut
  anywhere, the outbound lane with expiry, reconnects and one retry, and the receiving loop.
- **Identity and handshake** (`Containers.dfy`, `Signing.dfy`, `Backend.dfy`, `Handshake.dfy`, `Authentication.dfy`):
  typed and hybrid signatures and identities, backend start-up checks, hybrid verification, session agreement, what the
  hellos' signatures cover and whom they authenticate.
- **End to end** (`EndToEnd.dfy`): delivery between two built nodes over the lane that their handshake opened.

`Prelude.dfy`, `Bytes.dfy` and `Sequences.dfy` hold integer widths, byte encodings, and order-free sums and sorting.
Check everything with `dafny verify dfyconfig.toml`.

## How the code is read

- `u64` is a bounded type. `+` on it wraps (`Wrap`), as in a release build; a debug build stops where an addition
  would wrap. Where a theorem shows that no addition wraps (`Ledger.NoOverflow`), both builds agree. Saturating
  operations and the truncating cast of a frame length to `u32` are written out.
- `f64` scores and weights are `real`. Rounding is not modelled.
- Hashes, bincode, ML-DSA, ML-KEM and ChaCha20-Poly1305 are function-valued parameters. A lemma that needs a law of
  theirs names it as a hypothesis: decode-after-encode (`Containers.SelfDelimiting`), signing messages that determine
  their serialized fields (`Authentication.EncodesFields`), correctness of the AEAD (`Lane.Correct`, section 2.8 of
  RFC 8439), key pairs (`Backend.SigningPair`, FIPS 204; `Handshake.KemPair`, section 7 of FIPS 203), and absence of
  collisions and forgeries among the values at hand (`Commitments.CollisionFree`, `Inbound.OpensOnce`,
  `Inbound.Unforged`, `Backend.KeysTell`, `Authentication.Genuine`, and `Handshake.SecretsTell`, which is about the two
  secrets of one exchange). `Inbound.TaggingAead` is a cipher that meets the AEAD hypotheses, and
  `Authentication.TaggedEncoding` an encoding that meets `EncodesFields`.
- What a send meets on its two passes (connections, clock readings, writes) is a value, `Lane.Network`, as is the clock
  of the receive loop (`Inbound.Setup`); between calls the lane's environment is nondeterministic. Each theorem holds
  for every outcome and every reading.
- `sort_unstable` is a library call and is modelled as the pure function `SortBy`; the sorts used have injective keys.
- All cargo features (`pq-ml-dsa`, `pq-ml-kem`) are on.

## Where the code differs from its documentation or from what one would expect

- The ledger README says that a transfer lowers the sender's balance and raises the receiver's. `apply_transaction`
  reads both balances before writing either, so a transfer to oneself raises the balance by its amount:
  `Ledger.SelfTransferDoubles` is a chain that replays and doubles the supply, and
  `Ledger.ConservationIffNoSelfTransfer` gives the exact condition.
- The consensus README says validators are rotated for each epoch. The rotation cancels: witnesses are the same in
  every epoch (`Schedule.WitnessesEpochIndependent`).
- With `slots_per_epoch == 0` heartbeat windows can exceed the total windows (`Service.UptimeBoundExact`).
- `failed_sessions + invalid_receipts` is a `u64` addition; one more failure can lift the score from 0 to 1
  (`Service.FailureRaisesScore`). With the default weights failures never raise the score exactly when no invalid
  receipt is on record or there is no credit to win back (`Service.PenaltyMonotoneExact`), and the other way round.
- Attested sums are reduced to 64 bits; beyond that an aggregate can score below the mean
  (`Service.WrappedAggregateLosesCredit`); for reports of full credit `Service.FullReportsAtLeastMeanIff` says exactly
  when.
- `write_frame` writes frames the reader refuses; a stream reads back exactly when every frame is within the limit
  (`Framing.StreamRoundTripIff`). A frame of 2^32 bytes or more carries a truncated length and may be read as a shorter
  one; every cut reads as a prefix exactly when the first oversized frame is not (`Framing.PrefixReadingIff`), and on a
  plaintext session peers accept only prefixes exactly then (`Inbound.PlaintextPrefixIff`).
- A write that fails after its last byte is retried, and the request can then be accepted twice; in `write_frame` only
  the final `flush` can fail there. From any state of the lane it can be accepted twice, and never more often, exactly
  when it was sealed on two streams and everything sealed on each reached the wire (`Inbound.AcceptedTwiceIff`;
  `Inbound.AcceptedTwiceHappens` is such a run).
- Binary decoding of `TypedSignature` and `PublicIdentity` skips the checks of `try_hybrid`: what is decoded is
  well-formed exactly when the constructor would have accepted it (`Containers.DecodedWellFormedIff`,
  `Containers.EncodedWellFormedIff`), and repeated schemes are decoded (`Containers.DecodedMayRepeatSchemes`).
  `SessionPublicIdentity` keeps the checks.
- Start-up accepts a hybrid signer whose identity has a third component, and that identity then refuses its signatures
  (`Backend.ThreePartIdentityRefused`, `Backend.OwnSignatureVerifiesIff`).
- Start-up looks a validator up from the front of genesis, while the key ring keeps the last entry with an id; no
  check here forbids repeated ids, and then a node's own signatures can be refused (`Backend.RepeatedIdRefused`).
- Start-up does not check that the halves of an ML-KEM key file form a pair. Two hybrid ends always agree exactly when
  they do (`Handshake.HybridAgreementIff`, `Handshake.HonestAgreementIff`); otherwise both can complete on different
  material (`Handshake.UnpairedKeysDisagree`).

## Model

| member | source | states |
|---|---|---|
| Ledger.LedgerState.FromGenesis | crates/entangrid-ledger/src/lib.rs:13-22 | the fresh ledger holds the genesis balances, no nonces and the empty tip |
| Ledger.LedgerState.ValidateTx | crates/entangrid-ledger/src/lib.rs:32-77 | returns the first failing check in source order, and changes nothing |
| Ledger.FirstFailingCheck | crates/entangrid-ledger/src/lib.rs:32-77 | each error exactly when its check is the first to fail, and none exactly when hash, source, signature, funds and nonce are right |
| Ledger.SucceedsIff | crates/entangrid-ledger/src/lib.rs:117-121 | execution succeeds exactly when every transaction has its own hash, its signer's account, a verified signature, its sender's next nonce and the funds at its position |
| Ledger.ReplaySucceedsIff | crates/entangrid-ledger/src/lib.rs:133-143 | a chain replays exactly when all its transactions are acceptable in order and every header holds the state hash after its block |
| Ledger.FirstFailingBlock | crates/entangrid-ledger/src/lib.rs:133-143 | replay returns the error of the first block that fails |
| Ledger.LedgerState.ApplyTransaction | crates/entangrid-ledger/src/lib.rs:79-115 | the whole new account state, or the untouched ledger when funds are short |
| Ledger.LedgerState.ApplyBlock | crates/entangrid-ledger/src/lib.rs:117-131 | the whole new ledger on success and on every failure; a failure never moves tip, height or slot |
| Ledger.LedgerState.ReplayBlocks | crates/entangrid-ledger/src/lib.rs:133-143 | a new ledger equal to the replay of the chain, or the error of the first failing block |
| Ledger.ExecuteConcat | crates/entangrid-ledger/src/lib.rs:117-121 | executing two lists in a row is executing their concatenation |
| Ledger.LongestValidPrefix | crates/entangrid-ledger/src/lib.rs:117-121 | execution stops after the longest prefix that validates, with the state and the error at that point |
| Ledger.FailedBlockKeepsTip | crates/entangrid-ledger/src/lib.rs:117-131 | a failing block leaves the fold of its longest valid prefix in the accounts and nothing else |
| Ledger.ReplayConcat | crates/entangrid-ledger/src/lib.rs:133-143 | replay of a + b continues from replay of a; success is prefix-closed |
| Ledger.ReplayIsExecution | crates/entangrid-ledger/src/lib.rs:133-143 | a successful replay is one execution of all transactions; block boundaries leave no trace in the accounts |
| Ledger.ReplayedHeaders | crates/entangrid-ledger/src/lib.rs:122-130 | every replayed header's state root is the root of the accounts after that block, and the tip is that block's |
| Ledger.ReplayedAreAuthorized | crates/entangrid-ledger/src/lib.rs:32-64 | every transaction of a replayed chain has its own hash, its signer's account, a verified signature and the funds |
| Ledger.ClosedForm | crates/entangrid-ledger/src/lib.rs:79-113 | final balance is initial plus credits minus debits, final nonce is initial plus transactions sent, modulo 2^64 |
| Ledger.RecordedAccounts | crates/entangrid-ledger/src/lib.rs:92-113 | the accounts on record are the initial ones and those a transaction touched or sent from |
| Ledger.OrderIndependence | crates/entangrid-ledger/src/lib.rs:79-113 | two successful executions of the same multiset of transactions end in identical accounts |
| Ledger.ScheduleIndependence | crates/entangrid-ledger/src/lib.rs:133-147 | two replayed chains with the same multiset of transactions, in any order and blocks, have equal accounts and state root |
| Ledger.NonceAtPosition | crates/entangrid-ledger/src/lib.rs:66-74 | the transaction at a position carries its sender's start nonce plus the number it sent before |
| Ledger.NonceContiguity | crates/entangrid-ledger/src/lib.rs:105-113 | over a replayed chain an account's nonces are 0, 1, 2, ... and the stored nonce is their number |
| Ledger.NoNonceReuse | crates/entangrid-ledger/src/lib.rs:66-74 | no (sender, nonce) pair is accepted twice in up to 2^64 transactions |
| Ledger.ExactSupply | crates/entangrid-ledger/src/lib.rs:92-103 | supply changes by exactly the self-transfers, less 2^64 for each overflowing addition |
| Ledger.NoOverflow | crates/entangrid-ledger/src/lib.rs:100-103 | with supply plus self-transfers at most 2^64 - 1 no balance addition of the run overflows |
| Ledger.ConservationIffNoSelfTransfer | crates/entangrid-ledger/src/lib.rs:79-103 | a chain conserves supply exactly when its self-transfers equal what overflowed; with supply plus self-transfers at most 2^64 - 1, exactly when it holds no self-transfer of a positive amount |
| Ledger.SelfTransferDoubles | crates/entangrid-ledger/src/lib.rs:79-143 | the failing chain: a block whose one transaction moves an account's balance to itself replays and doubles the supply |
| Schedule.NewEngine | crates/entangrid-consensus/src/lib.rs:16-23 | the engine's ids are the genesis ids sorted, and distinct if those were |
| Schedule.AssignmentsForEpoch | crates/entangrid-consensus/src/lib.rs:60-98 | the rotating loops compute the specified map, which for distinct ids is the unrotated window of each id |
| Schedule.AssignmentClosedForm | crates/entangrid-consensus/src/lib.rs:60-98 | the j-th sorted id is witnessed by the k ids after it, in every epoch, k = min(witness_count, n - 1) |
| Schedule.AssignmentOnRing | crates/entangrid-consensus/src/lib.rs:60-98 | for any ids, repeated ones included: an id has the next others after its last position on the ring that the epoch seed starts |
| Schedule.AssignedIffValidator | crates/entangrid-consensus/src/lib.rs:100-106 | an id has an assignment exactly when it is a validator |
| Schedule.WitnessesEpochIndependent | crates/entangrid-consensus/src/lib.rs:60-98 | witnesses and relay targets coincide and do not depend on the epoch |
| Schedule.ExactlyKWitnesses | crates/entangrid-consensus/src/lib.rs:69-86 | every validator has exactly min(witness_count, n - 1) different witnesses, all validators, never itself |
| Schedule.ExactlyKSubjects | crates/entangrid-consensus/src/lib.rs:69-86 | every validator witnesses exactly min(witness_count, n - 1) subjects |
| Schedule.PathAdvance | crates/entangrid-consensus/src/lib.rs:69-86 | a relay path of h hops, each in any epoch, advances at most h*k positions around the ring |
| Schedule.ShortestRelayPath | crates/entangrid-consensus/src/lib.rs:69-86 | ids d positions apart are joined by a relay path of ceil(d/k) hops and by none shorter |
| Service.ReceiptValidIff | crates/entangrid-consensus/src/lib.rs:130-149 | a receipt is valid exactly when its slot is in its epoch, its three parties are validators, and observer and destination follow the source within k ring steps |
| Service.ReceiptErrors | crates/entangrid-consensus/src/lib.rs:130-149 | a refused receipt gets the error of the first of the three checks it fails |
| Service.CountersFromReceipts | crates/entangrid-consensus/src/lib.rs:353-394 | counts distinct heartbeat slots, timely receipts and distinct destinations of the list |
| Service.ReceiptCountersExact | crates/entangrid-consensus/src/lib.rs:353-394 | every counter, as a number of slots, positions or validators |
| Service.CountersFromObserver | crates/entangrid-consensus/src/lib.rs:302-351 | an observer reports on its own receipts only, nothing when not assigned, and never a penalty |
| Service.ObserverCountersExact | crates/entangrid-consensus/src/lib.rs:302-351 | every counter of an observer's report, over the receipts it observed |
| Service.ObservedExact | crates/entangrid-consensus/src/lib.rs:302-351 | those are the receipts about the validator and epoch that name this observer, as often as they occur |
| Service.ValidatedCountersBounded | crates/entangrid-consensus/src/lib.rs:353-394 | validated receipts show at most the epoch's windows and at most the relay targets, by pigeonhole |
| Service.UptimeBoundExact | crates/entangrid-consensus/src/lib.rs:38-43 | the window bound holds for all validated receipts exactly when slots_per_epoch > 0, or no targets, or epoch not 0 |
| Service.ServiceScore | crates/entangrid-consensus/src/lib.rs:174-192 | a score lies between 0 and 1 for any weights and counters |
| Service.ScoreExact | crates/entangrid-consensus/src/lib.rs:174-192 | the score is the weighted shares less the weighted penalty share, cut to the unit interval |
| Service.ScoreMonotone | crates/entangrid-consensus/src/lib.rs:174-192 | more credit and a smaller penalty never lower the score; fewer failures and invalid receipts make a smaller penalty while their sum fits 64 bits |
| Service.PenaltyMonotoneExact | crates/entangrid-consensus/src/lib.rs:174-192 | with default weights more failed sessions never raise the score exactly when no invalid receipt is on record or the credit is 0 |
| Service.InvalidReceiptsLowerScoreIff | crates/entangrid-consensus/src/lib.rs:174-192 | more invalid receipts never raise it exactly when no failed session is on record or the credit is 0 |
| Service.FailureRaisesScore | crates/entangrid-consensus/src/lib.rs:182-186 | the failing counters: one more failed session lifts the score from 0 to 1 |
| Service.DefaultScoreExtremes | crates/entangrid-consensus/src/lib.rs:170-192 | with default weights 1 means full credit and no penalty, and penalties filling the windows give 0 |
| Service.AggregateServiceCounters | crates/entangrid-types/src/lib.rs:1417-1430 | the in-place accumulation is the field-wise sum of all attestations, modulo 2^64 |
| Service.AggregateOfOne | crates/entangrid-types/src/lib.rs:1417-1430 | one attestation's aggregate is what it attests, field by field |
| Service.AggregatePermutation | crates/entangrid-types/src/lib.rs:1417-1430 | aggregate and score do not depend on attestation order |
| Service.AggregateAtLeastMean | crates/entangrid-consensus/src/lib.rs:512-521 | while the attested sums fit 64 bits, the aggregate of observer reports scores at least the mean of their scores, for all non-negative weights |
| Service.FullReportsAtLeastMeanIff | crates/entangrid-consensus/src/lib.rs:512-521 | for any number of full-credit reports over one window size, default weights: exact, failing only where their windows add up to a multiple of 2^64 |
| Service.WrappedAggregateLosesCredit | crates/entangrid-types/src/lib.rs:1417-1430 | the failing reports beyond 64 bits: a mean of 1, an aggregate of a quarter |
| Committee.ValidateServiceAggregate | crates/entangrid-consensus/src/lib.rs:225-245 | accepts exactly the certified aggregates, and each refusal names the first fault |
| Committee.WellFormedMeans | crates/entangrid-types/src/lib.rs:1149-1157 | well-formed means: some attestation, all of this subject and epoch, with exactly their root and their sums |
| Committee.AcceptedAggregate | crates/entangrid-consensus/src/lib.rs:225-245 | nothing in an accepted aggregate is free: all but the attestations follows from them |
| Committee.AcceptedAggregateUnique | crates/entangrid-consensus/src/lib.rs:225-245 | two accepted aggregates with the same attestations are equal |
| Committee.AcceptedScoreAtLeastMean | crates/entangrid-consensus/src/lib.rs:512-521 | the counters an accepted aggregate claims score at least the mean of what its members attested |
| Committee.QuorumIntersection | crates/entangrid-consensus/src/lib.rs:225-245 | two accepted aggregates for one subject and epoch share committee members I with 3 * I >= c + 2 |
| Committee.ThresholdExact | crates/entangrid-consensus/src/lib.rs:523-528 | the threshold is the least count above two thirds, so (c - 1) / 3 members may stay silent; 0 for an empty committee |
| Committee.QuorumCanCertify | crates/entangrid-consensus/src/lib.rs:225-245 | any threshold-sized set of different committee members can form an accepted aggregate |
| Committee.CertifiableIffCommittee | crates/entangrid-consensus/src/lib.rs:523-528 | some aggregate is acceptable exactly when the committee is not empty, although its threshold would be 0 |
| Commitments.CommitmentFromReceipts | crates/entangrid-consensus/src/lib.rs:452-488 | every field of the commitment: epoch, validator, root, counts by position, different destinations and score |
| Commitments.RootIsSortedHash | crates/entangrid-consensus/src/lib.rs:164-168 | the root is the hash of the receipts' hashes in ascending bytewise order |
| Commitments.CommitmentPermutation | crates/entangrid-consensus/src/lib.rs:452-488 | permuting the receipts gives the identical commitment |
| Commitments.ClassCountsSum | crates/entangrid-consensus/src/lib.rs:469-476 | the per-class counts add up to the receipt count |
| Commitments.RootOfPermutation | crates/entangrid-consensus/src/lib.rs:164-168 | the receipt root is the same for every order of the receipts |
| Commitments.RootIffMultiset | crates/entangrid-consensus/src/lib.rs:164-168 | where the hashes involved do not collide, equal roots hold exactly for equal multisets of receipts |
| Framing.ByteStream.ReadFrameBytes | crates/entangrid-network/src/lib.rs:273-288 | returns the next frame and consumes exactly it, or closed, oversized or truncated |
| Framing.FrameBytesLength | crates/entangrid-network/src/lib.rs:744-748 | a written frame is four header bytes holding its length modulo 2^32, then the frame |
| Framing.CutStream | crates/entangrid-network/src/lib.rs:273-288 | reading any cut of a written stream yields the recovered prefix of its frames, unless a header holds a truncated length within the limit |
| Framing.PrefixReadingIff | crates/entangrid-network/src/lib.rs:273-288 | every cut reads as a prefix of the frames exactly when the first oversized frame, if any, has a header over the limit |
| Framing.RecoveredExact | crates/entangrid-network/src/lib.rs:273-288 | within the size limit that prefix is exactly the frames that arrived whole |
| Framing.CutEnd | crates/entangrid-network/src/lib.rs:273-288 | a cut stream ends quietly when fewer than four bytes are left over, else as truncated |
| Framing.OversizedEnds | crates/entangrid-network/src/lib.rs:279-284 | a stream ends as oversized at the first frame whose header is over the limit |
| Framing.StreamRoundTripIff | crates/entangrid-network/src/lib.rs:279-284 | a whole stream reads back as written exactly when no frame exceeds MAX_FRAME_SIZE_BYTES |
| Lane.BuildFrameNonce | crates/entangrid-crypto/src/lib.rs:213-218 | the array filled in place is direction byte, three zeros, big-endian counter |
| Lane.BuildFrameAssociatedData | crates/entangrid-crypto/src/lib.rs:228-238 | the array filled in place is direction byte, big-endian counter, session id |
| Lane.FrameNonceInjective | crates/entangrid-crypto/src/lib.rs:213-218 | equal nonces mean equal direction and counter |
| Lane.AssociatedDataBinds | crates/entangrid-crypto/src/lib.rs:228-238 | equal associated data means equal direction, counter and session id |
| Lane.NoncesDistinctIff | crates/entangrid-network/src/lib.rs:308-313 | the counters of a session give pairwise different nonces exactly up to 2^64 frames, where the counter saturates |
| Lane.ReachableNoncesDistinctIff | crates/entangrid-network/src/lib.rs:302-320 | in every reachable state, the nonces the frames of an encrypted session were sealed under are pairwise different exactly up to 2^64 frames |
| Lane.FramesAreSealed | crates/entangrid-crypto/src/lib.rs:240-295 | a frame byte for byte: the key, nonce and associated data it is sealed and opened under, or the payload itself |
| Lane.OpenInvertsBuild | crates/entangrid-crypto/src/lib.rs:240-295 | a frame opens to a payload exactly when that payload was sealed into it under the same counter |
| Lane.OutboundLane.WriteApplicationFrame | crates/entangrid-network/src/lib.rs:302-320 | seals and writes: which outcome follows from which write, the whole session after a completed one; a failed write may leave any part of the frame on the wire and consumes its counter |
| Lane.OutboundLane.EnsureStream | crates/entangrid-network/src/lib.rs:464-513 | keeps a stream in time, lets an expired one go, connects when none is held, and is ready exactly then |
| Lane.OutboundLane.SendMessage | crates/entangrid-network/src/lib.rs:463-545 | succeeds exactly when the first pass does, or its write fails retryably and the one retry on a new stream succeeds; only a held stream in time is written again, new ones have the configured limit; every call is a run of the lane |
| Lane.SendSucceedsIff | crates/entangrid-network/src/lib.rs:463-545 | that condition in terms of connections, clock readings, sealing and writes |
| Lane.ExpiryExact | crates/entangrid-network/src/lib.rs:359-383 | a stream is out of time exactly once its age reaches the configured limit or 600 seconds; never in plaintext, never with limit 0 |
| Lane.StepPreserves | crates/entangrid-network/src/lib.rs:463-545 | every step keeps counters, frames and wires of all sessions consistent |
| Lane.RunInvariant | crates/entangrid-network/src/lib.rs:463-545 | so does every run |
| Lane.ReleasedForever | crates/entangrid-network/src/lib.rs:463-545 | a stream the lane let go of is never held or written again |
| Lane.FailedStreamAbandoned | crates/entangrid-network/src/lib.rs:530-543 | a stream whose write failed is never reused in any continuation |
| Lane.RetryOnAnotherStream | crates/entangrid-network/src/lib.rs:530-536 | an attempt after a failed write is made on another stream |
| Lane.SendSeals | crates/entangrid-network/src/lib.rs:463-545 | one send seals its request at most once per stream and on at most two; of two, the first is broken |
| Inbound.HandleInbound | crates/entangrid-network/src/lib.rs:594-672 | accepts frame by frame as specified; receive_counter is the number accepted on encrypted sessions |
| Inbound.ReceiveExact | crates/entangrid-network/src/lib.rs:594-672 | what is accepted and why the loop stops: frames in time, opened under their counters, valid envelopes but for the last |
| Inbound.ReceivesUnique | crates/entangrid-network/src/lib.rs:594-672 | that description fixes the reception |
| Inbound.AcceptedAreOpened | crates/entangrid-network/src/lib.rs:322-357 | the i-th accepted payload is the opening of the i-th frame under the i-th counter |
| Inbound.AcceptsSealedPrefix | crates/entangrid-network/src/lib.rs:594-619 | over a stream cut anywhere, for every clock and envelope check, the accepted payloads are a prefix of the sealed ones, unless a header holds a truncated length within the limit |
| Inbound.PlaintextPrefixIff | crates/entangrid-network/src/lib.rs:594-619 | on a plaintext stream whose writes completed this holds exactly with that exception; encrypted sessions need none |
| Inbound.EncryptedAcceptsSealedPrefix | crates/entangrid-network/src/lib.rs:341-350 | on encrypted sessions whose frames open under one counter each, this holds over any network that drops, repeats, reorders or alters frames |
| Inbound.TaggingAeadOpensOnce | crates/entangrid-network/src/lib.rs:341-350 | the hypotheses can be met: a cipher with a 16-byte tag under which every session's frames open under one counter each |
| Inbound.DeliversAll | crates/entangrid-network/src/lib.rs:594-672 | an undisturbed unexpired stream of valid envelopes delivers everything sealed |
| Inbound.LaneDelivery | crates/entangrid-network/src/lib.rs:594-619 | prefix safety always, full delivery once all that was written arrived, for every session of every state of every run of the lane |
| Inbound.AcceptedOncePerStream | crates/entangrid-network/src/lib.rs:463-545 | a send makes the peer of one stream accept its request at most once, and only if its whole frame reached the wire |
| Inbound.AcceptedTwiceIff | crates/entangrid-network/src/lib.rs:463-545 | from any state: a stream the request was sealed on can make a peer accept it exactly when all sealed there reached the wire; it can be accepted twice exactly when both of two streams satisfy this, the first one broken |
| Inbound.AcceptedTwiceHappens | crates/entangrid-network/src/lib.rs:530-536 | a run in which both peers accept the one request |
| EndToEnd.HandshakeDelivery | crates/entangrid-network/src/lib.rs:463-672 | the same between two built nodes over the session their handshake opened, full delivery for frames read in time |
| EndToEnd.HandshakeSecures | crates/entangrid-network/src/lib.rs:322-357 | between hybrid nodes the prefix also holds over any network |
| EndToEnd.ConnectOverWire | crates/entangrid-network/src/lib.rs:385-420 | both hellos of a connection between built nodes decode to themselves when genesis holds well-formed session identities |
| Containers.TryHybrid | crates/entangrid-types/src/lib.rs:112-131 | accepts exactly the non-empty lists without nested or repeated schemes, in one pass, and keeps the components |
| Containers.HybridOfExact | crates/entangrid-types/src/lib.rs:808-833 | the scan's verdict is that declarative condition |
| Containers.HybridOfErrors | crates/entangrid-types/src/lib.rs:808-833 | a refusal names the first bad component's fault, or that there is no component |
| Containers.BuildSessionExact | crates/entangrid-types/src/lib.rs:345-365 | a session identity is built exactly from valid components, or from bytes without any |
| Containers.FindComponentExact | crates/entangrid-types/src/lib.rs:851-860 | lookup fails exactly when no component has the scheme |
| Containers.SingleBytesExact | crates/entangrid-types/src/lib.rs:140-147 | a hybrid has no single byte string, anything else has its own |
| Containers.ComponentBytesUnique | crates/entangrid-types/src/lib.rs:149-158 | in a well-formed bundle lookup returns the one byte string the scheme names |
| Containers.RoundTrip | crates/entangrid-types/src/lib.rs:307-328 | decode after encode is the identity exactly when the half the encoding drops was empty |
| Containers.SessionRoundTrip | crates/entangrid-types/src/lib.rs:774-790 | session identities round-trip exactly when well-formed |
| Containers.TrailingBytesRejected | crates/entangrid-types/src/lib.rs:308-316 | a hybrid payload with trailing bytes is an error |
| Containers.DecodeFails | crates/entangrid-types/src/lib.rs:307-328 | decoding fails exactly where the component codec fails or leaves bytes over |
| Containers.DecodedSessionWellFormed | crates/entangrid-types/src/lib.rs:345-365 | every decoded session identity satisfies the constructor's invariants, and no more is refused than that |
| Containers.DecodedWellFormedIff | crates/entangrid-types/src/lib.rs:307-321 | whatever bytes are decoded as signature or public identity, the value is well-formed exactly when it is single or the constructor accepts its components |
| Containers.EncodedWellFormedIff | crates/entangrid-types/src/lib.rs:307-328 | every encoded component list is decoded, and is well-formed exactly when the constructor accepts it |
| Containers.DecodedMayRepeatSchemes | crates/entangrid-types/src/lib.rs:307-321 | the failing case: a repeated scheme, refused by try_hybrid, is decoded |
| Signing.BuildVerifyingKeyMap | crates/entangrid-crypto/src/lib.rs:503-522 | fails exactly when some ML-DSA key in genesis does not decode |
| Signing.RingHoldsLast | crates/entangrid-crypto/src/lib.rs:474-522 | every map holds the last genesis entry of each id, repeated or not |
| Signing.UnrepeatedUnambiguous | crates/entangrid-crypto/src/lib.rs:305-313 | with unrepeated ids the entry looked up at start-up is that last one |
| Signing.VerifyHybrid | crates/entangrid-crypto/src/lib.rs:1229-1255 | the component loop computes the specified verdict, exact for identities with distinct schemes |
| Signing.VerifyComponentExact | crates/entangrid-crypto/src/lib.rs:1146-1187 | a part verifies exactly when it is the hash of the secret and the message, or passes ML-DSA under the ring's key |
| Signing.PlainIdentityExact | crates/entangrid-crypto/src/lib.rs:1189-1228 | for a deterministic, ML-DSA or Ed25519 identity: exactly which signatures verify |
| Signing.VerifyAnswersIff | crates/entangrid-crypto/src/lib.rs:1136-1160 | with a complete key ring verification answers for exactly the validators it knows |
| Signing.SignExact | crates/entangrid-crypto/src/lib.rs:1087-1133 | what each backend signs, byte for byte, and for whom it refuses |
| Signing.HybridVerificationExact | crates/entangrid-crypto/src/lib.rs:1189-1280 | a hybrid signature is accepted exactly when its schemes are the identity's, none repeated, each verifying |
| Signing.SingleVerificationExact | crates/entangrid-crypto/src/lib.rs:1189-1280 | a single signature is accepted exactly when the identity carries its scheme and it verifies |
| Backend.StartupIff | crates/entangrid-crypto/src/lib.rs:608-683 | a node starts exactly when genesis lists it, its signing and session set-ups fit that entry, and all ML-DSA keys of genesis decode |
| Backend.SignerBuiltIff | crates/entangrid-crypto/src/lib.rs:442-470 | which identities and key files each signing backend takes |
| Backend.SessionBuiltIff | crates/entangrid-crypto/src/lib.rs:527-582 | which session identities and key files the hybrid session takes |
| Backend.BuiltNodeAnswers | crates/entangrid-crypto/src/lib.rs:1136-1160 | a built node's verification answers for exactly the validators of genesis |
| Backend.BuiltBackend | crates/entangrid-crypto/src/lib.rs:608-683 | start-up checked the first genesis entry of the node's id, and its maps hold the last |
| Backend.OwnSignatureVerifiesIff | crates/entangrid-crypto/src/lib.rs:1087-1133 | a built backend's signatures verify against its own identity exactly when that identity covers the signer; for an id that names one genesis entry, exactly unless it signs hybrid for other than two components |
| Backend.ThreePartIdentityRefused | crates/entangrid-crypto/src/lib.rs:608-683 | the failing case: start-up accepts a hybrid signer for a three-component identity, which refuses its signatures |
| Backend.RepeatedIdRefused | crates/entangrid-crypto/src/lib.rs:608-683 | the failing case of a repeated id: a node builds, and its own signatures are refused |
| Backend.HybridSignatureParts | crates/entangrid-crypto/src/lib.rs:1106-1131 | hybrid signing always yields the deterministic and the ML-DSA component |
| Handshake.BothEnds | crates/entangrid-crypto/src/lib.rs:1310-1424 | what two completed ends hold, and from which inputs each derived it |
| Handshake.AcceptIff | crates/entangrid-crypto/src/lib.rs:1310-1424 | a responder completes exactly on: addressee, signature, session checks, own signature and both secrets; and the reply it then gives |
| Handshake.FinalizeIff | crates/entangrid-crypto/src/lib.rs:1426-1504 | an initiator completes exactly on: one transcript, signature, session checks and both secrets |
| Handshake.AcceptErrors | crates/entangrid-crypto/src/lib.rs:1310-1424 | which refusal a responder gives first: addressee, then session before signature on a plain node, signature before session on a configured one |
| Handshake.FinalizeErrors | crates/entangrid-crypto/src/lib.rs:1426-1504 | the same for an initiator |
| Handshake.HelloErrors | crates/entangrid-crypto/src/lib.rs:1329-1376 | why the session part of a hello is refused, check by check |
| Handshake.PeerIsListed | crates/entangrid-crypto/src/lib.rs:1070-1084 | between built nodes, a hybrid end completes only with the session identity genesis lists for its peer |
| Handshake.HelloBuilt | crates/entangrid-crypto/src/lib.rs:1282-1308 | the hello an initiator builds, field by field, and its signature |
| Handshake.PlainVerifyExact | crates/entangrid-crypto/src/lib.rs:835-847 | a plain party verifies its own computation of the signature and nothing else |
| Handshake.AcceptedMaterial | crates/entangrid-crypto/src/lib.rs:753-773 | the responder's session material, hash by hash |
| Handshake.FinalizedMaterial | crates/entangrid-crypto/src/lib.rs:753-773 | the initiator's session material, hash by hash |
| Handshake.SessionKeyBinds | crates/entangrid-crypto/src/lib.rs:978-1019 | equal session keys come from the same validators, dev secrets, nonce, KEM secret and transcript, where the three hashes at hand do not collide |
| Authentication.InitiatorAuthenticates | crates/entangrid-crypto/src/lib.rs:1426-1504 | an initiator that completes knows: its honest responder signed this reply, in an act on its record that answered a hello with these serialized fields by a reply with these |
| Authentication.ResponderAuthenticates | crates/entangrid-crypto/src/lib.rs:1310-1424 | a responder that completes knows: its honest initiator signed this hello, in an act on its record that offered these serialized fields to it under its own key |
| Authentication.FieldsDetermineHello | crates/entangrid-crypto/src/lib.rs:692-705 | serialized fields determine a hello with a well-formed session identity, up to its signature |
| Authentication.TaggedEncodingEncodesFields | crates/entangrid-crypto/src/lib.rs:692-725 | the law assumed of signing messages can be met by a tagged encoding of the serialized fields |
| Authentication.HelloOnWire | crates/entangrid-types/src/lib.rs:774-790 | the hello a party sends decodes to itself exactly when its session identity is well-formed |
| Authentication.ReplyOnWire | crates/entangrid-types/src/lib.rs:774-790 | so does the reply it gives |
| Handshake.ComponentSymmetric | crates/entangrid-crypto/src/lib.rs:978-1019 | both ends derive the same deterministic component |
| Handshake.BuiltSessionIsLoaded | crates/entangrid-crypto/src/lib.rs:545-582 | loading guarantees non-empty ML-KEM bytes that the session identity advertises |
| Handshake.MixedNeverComplete | crates/entangrid-crypto/src/lib.rs:1331-1397 | a deterministic and a hybrid end never both complete, whatever hello starts the exchange |
| Handshake.HandshakeAgreement | crates/entangrid-crypto/src/lib.rs:1426-1504 | for every pairing of backends of one genesis: two ends that complete on one transcript hold equal session material, encrypt_frames included; a hybrid initiator must have sent its own hello and hold a paired key file |
| Handshake.HybridAgreementIff | crates/entangrid-crypto/src/lib.rs:1474-1489 | two hybrid ends that complete on every randomness always agree exactly when the initiator's key file holds a pair, the key derivation not colliding on one failing exchange |
| Handshake.HonestAgreementIff | crates/entangrid-crypto/src/lib.rs:545-582 | two built hybrid nodes whose keys decode always agree exactly when the key file holds a pair |
| Handshake.UnpairedKeysDisagree | crates/entangrid-crypto/src/lib.rs:545-582 | the failing nodes: both start up and complete, on different material |
| Handshake.HonestHandshakeCompletes | crates/entangrid-crypto/src/lib.rs:1282-1504 | two nodes built from one genesis with the same session kind and decodable keys always complete |
| Handshake.HonestHandshakeAgrees | crates/entangrid-crypto/src/lib.rs:1282-1504 | with a paired key file, or without ML-KEM, they hold equal material |

## Left out

- Node runtime: votes, quorum certificates, certified sync and the start-up barrier; its source is not part of this
  model.
- `crates/entangrid-sim`: process launching, files, command line and reports.
- Slot clock, proposer selection, `validate_block_basic`, eligibility gating and the aggregator list: one-branch facts.
- Fault injection, connect back-off, metrics and network events: the lane's outcomes are arbitrary instead.
- Internals of blake3, bincode, ML-DSA, ML-KEM and ChaCha20-Poly1305, and failures of encapsulation or
  decapsulation on decoded keys.
- Human-readable (TOML and JSON) forms, key-file parsing, snapshot loading and measurement reports.
- Header fields, receipts and signatures of a block that the ledger does not read.
- Framing.CutStream: leaves out frames of 2^32 bytes or more whose truncated length is within the limit, because the
  claim fails for them; `Framing.PrefixReadingIff` is exact for every length.
- Inbound.LaneDelivery: makes the same exception (`HeadersTell`), which plaintext sessions need
  (`Inbound.PlaintextPrefixIff`) and encrypted ones do not (`Inbound.EncryptedAcceptsSealedPrefix`).
- Inbound.AcceptsSealedPrefix: makes the same exception.
- Ledger.NoNonceReuse: stops at 2^64 transactions, where the u64 nonce wraps; `NonceContiguity` states the wrapped value
  for all.
- Service.ScoreMonotone: compares penalty counts only while their sum fits 64 bits, since beyond that the claim fails;
  `Service.PenaltyMonotoneExact` says exactly when.
- Service.AggregateAtLeastMean: assumes that the attested sums fit 64 bits, since a wrapped sum has no relation to its
  terms; `Service.FullReportsAtLeastMeanIff` is exact for reports of full credit, and
  `Service.WrappedAggregateLosesCredit` a failing input.
- Service.CountersFromReceipts: assumes at most 2^64 - 1 receipts, as any slice in memory has.
- Backend.OwnSignatureVerifiesIff: for a repeated id assumes that no other key of genesis verifies the signature.
- Authentication.InitiatorAuthenticates: replays are not excluded; an old hello answered again authenticates again.
