/** One peer's outbound lane: sealed frames, session turnover, retries, and what the peer accepts. */
module Lane {
  import opened Prelude
  import opened Bytes
  import opened Framing
  import opened Sequences

  const DEFAULT_HYBRID_SESSION_TTL_MILLIS: u64 := 600_000
  const FRAME_TAG_SIZE_BYTES: nat := 16

  datatype SessionMaterial = SessionMaterial(sessionKey: HashBytes, transcriptHash: HashBytes, encryptFrames: bool)

  datatype FrameDirection = Outbound | Inbound

  // ---- Frame protection ----

  function DirectionByte(d: FrameDirection): byte {
    if d.Outbound? then 0 else 1
  }

  function FrameNonce(d: FrameDirection, counter: u64): seq<byte> {
    [DirectionByte(d), 0, 0, 0] + BeBytes(counter, 8)
  }

  function FrameAssociatedData(m: SessionMaterial, d: FrameDirection, counter: u64): seq<byte> {
    [DirectionByte(d)] + BeBytes(counter, 8) + m.transcriptHash[..16]
  }

  /** `frame_nonce` fills a zeroed array in place. */
  method BuildFrameNonce(d: FrameDirection, counter: u64) returns (nonce: array<byte>)
    ensures nonce.Length == 12 && nonce[..] == FrameNonce(d, counter)
    ensures nonce[..] == [if d.Outbound? then 0 else 1, 0, 0, 0] + BeBytes(counter, 8)
  {
    nonce := new byte[12](_ => 0);
    nonce[0] := DirectionByte(d);
    var tail := BeBytes(counter, 8);
    BeBytesLength(counter, 8);
    forall i | 0 <= i < 8 {
      nonce[4 + i] := tail[i];
    }
    assert nonce[4..] == tail;
  }

  /** `frame_associated_data` fills a zeroed array in place. */
  method BuildFrameAssociatedData(m: SessionMaterial, d: FrameDirection, counter: u64) returns (ad: array<byte>)
    ensures ad.Length == 25 && ad[..] == FrameAssociatedData(m, d, counter)
    ensures ad[..] == [if d.Outbound? then 0 else 1] + BeBytes(counter, 8) + m.transcriptHash[..16]
  {
    ad := new byte[25](_ => 0);
    ad[0] := DirectionByte(d);
    var middle := BeBytes(counter, 8);
    BeBytesLength(counter, 8);
    forall i | 0 <= i < 8 {
      ad[1 + i] := middle[i];
    }
    forall i | 0 <= i < 16 {
      ad[9 + i] := m.transcriptHash[i];
    }
    assert ad[1..9] == middle && ad[9..] == m.transcriptHash[..16];
    assert ad[..] == ad[..1] + ad[1..9] + ad[9..];
  }

  /** Associated data pins the direction, the counter and the session id. */
  lemma AssociatedDataBinds(
    m: SessionMaterial, c: FrameDirection, x: u64, n: SessionMaterial, d: FrameDirection, y: u64
  )
    requires FrameAssociatedData(m, c, x) == FrameAssociatedData(n, d, y)
    ensures c == d && x == y && m.transcriptHash[..16] == n.transcriptHash[..16]
  {
    BeBytesLength(x, 8);
    BeBytesLength(y, 8);
    var a, b := FrameAssociatedData(m, c, x), FrameAssociatedData(n, d, y);
    assert a[0] == b[0];
    assert a[1..9] == BeBytes(x, 8) && b[1..9] == BeBytes(y, 8);
    assert a[9..] == m.transcriptHash[..16] && b[9..] == n.transcriptHash[..16];
    Pow256Values();
    BeBytesInjective(x, y, 8);
  }

  lemma FrameNonceInjective(c: FrameDirection, x: u64, d: FrameDirection, y: u64)
    requires FrameNonce(c, x) == FrameNonce(d, y)
    ensures c == d && x == y
  {
    assert FrameNonce(c, x)[0] == FrameNonce(d, y)[0];
    assert FrameNonce(c, x)[4..] == BeBytes(x, 8) && FrameNonce(d, y)[4..] == BeBytes(y, 8);
    Pow256Values();
    BeBytesInjective(x, y, 8);
  }

  /** ChaCha20-Poly1305; sealing fails only on plaintexts beyond its length limit. */
  datatype Aead = Aead(
    seal: (HashBytes, seq<byte>, seq<byte>, seq<byte>) -> Option<seq<byte>>,
    open: (HashBytes, seq<byte>, seq<byte>, seq<byte>) -> Option<seq<byte>>
  )

  /** Section 2.8 of RFC 8439: opening inverts sealing under the same key, nonce and associated data. */
  ghost predicate Correct(aead: Aead) {
    && (forall k, n, ad, text, sealed ::
          aead.open(k, n, ad, sealed) == Some(text) <==> aead.seal(k, n, ad, text) == Some(sealed))
    && (forall k, n, ad, text ::
          aead.seal(k, n, ad, text).Some? ==> |aead.seal(k, n, ad, text).value| == |text| + FRAME_TAG_SIZE_BYTES)
  }

  function BuildFrame(aead: Aead, m: SessionMaterial, counter: u64, plaintext: seq<byte>): Option<Frame> {
    if !m.encryptFrames then Some(plaintext)
    else aead.seal(m.sessionKey, FrameNonce(Outbound, counter), FrameAssociatedData(m, Outbound, counter), plaintext)
  }

  function OpenFrame(aead: Aead, m: SessionMaterial, counter: u64, frame: Frame): Option<seq<byte>> {
    if !m.encryptFrames then Some(frame)
    else if |frame| < FRAME_TAG_SIZE_BYTES then None
    else aead.open(m.sessionKey, FrameNonce(Outbound, counter), FrameAssociatedData(m, Outbound, counter), frame)
  }

  /**
   What a frame is, byte for byte: the payload itself, or the payload sealed under the session key, the
   outbound nonce and associated data of the counter. Frames shorter than a tag are not opened.
   */
  lemma FramesAreSealed(aead: Aead, m: SessionMaterial, counter: u64, payload: seq<byte>, frame: Frame)
    ensures var number := BeBytes(counter, 8);
            var nonce, ad := [0, 0, 0, 0] + number, [0] + number + m.transcriptHash[..16];
            && BuildFrame(aead, m, counter, payload) ==
               (if m.encryptFrames then aead.seal(m.sessionKey, nonce, ad, payload) else Some(payload))
            && OpenFrame(aead, m, counter, frame) ==
               (if !m.encryptFrames then Some(frame)
                else if |frame| < 16 then None
                else aead.open(m.sessionKey, nonce, ad, frame))
  {
  }

  /** Sender and receiver agree on frames exactly when they agree on the counter's sealing. */
  lemma OpenInvertsBuild(aead: Aead, m: SessionMaterial, counter: u64, plaintext: seq<byte>, frame: Frame)
    requires Correct(aead)
    ensures OpenFrame(aead, m, counter, frame) == Some(plaintext) <==>
            BuildFrame(aead, m, counter, plaintext) == Some(frame)
  {
    if m.encryptFrames {
      var nonce, ad := FrameNonce(Outbound, counter), FrameAssociatedData(m, Outbound, counter);
      assert aead.open(m.sessionKey, nonce, ad, frame) == Some(plaintext) <==>
             aead.seal(m.sessionKey, nonce, ad, plaintext) == Some(frame);
    }
  }

  function NextCounter(m: SessionMaterial, counter: u64): u64 {
    if m.encryptFrames then SaturatingSucc(counter) else counter
  }

  /** The counter after k frames: it saturates, and plaintext sessions never move it. */
  function CounterAt(m: SessionMaterial, k: nat): u64 {
    if m.encryptFrames then Min(k, U64_MAX) else 0
  }

  /** The frames of one session use pairwise different nonces exactly up to 2^64 frames. */
  lemma NoncesDistinctIff(m: SessionMaterial, count: nat)
    requires m.encryptFrames
    ensures (forall i: nat, j: nat :: i < j < count ==>
              FrameNonce(Outbound, CounterAt(m, i)) != FrameNonce(Outbound, CounterAt(m, j))) <==>
            count <= U64_MODULUS
  {
    if count <= U64_MODULUS {
      forall i: nat, j: nat | i < j < count
        ensures FrameNonce(Outbound, CounterAt(m, i)) != FrameNonce(Outbound, CounterAt(m, j))
      {
        if FrameNonce(Outbound, CounterAt(m, i)) == FrameNonce(Outbound, CounterAt(m, j)) {
          FrameNonceInjective(Outbound, CounterAt(m, i), Outbound, CounterAt(m, j));
        }
      }
    } else {
      var last: nat := U64_MAX;
      assert CounterAt(m, last) == CounterAt(m, last + 1);
    }
  }

  /** The nonces under which frames were sealed repeat none. */
  ghost predicate NoncesDistinct(counters: seq<u64>) {
    forall i: nat, j: nat :: i < j < |counters| ==>
      FrameNonce(Outbound, counters[i]) != FrameNonce(Outbound, counters[j])
  }

  // ---- Session lifetime ----

  function EffectiveTtl(configured: Option<u64>, m: SessionMaterial): Option<u64> {
    if !m.encryptFrames then None
    else match configured
      case Some(ttl) => if ttl == 0 then None else Some(ttl)
      case None => Some(DEFAULT_HYBRID_SESSION_TTL_MILLIS)
  }

  predicate IsExpired(establishedAt: u64, ttl: Option<u64>, now: u64) {
    ttl.Some? && SaturatingSub(now, establishedAt) >= ttl.value
  }

  /** A session expires once its age reaches the limit; never in plaintext, never with a limit of 0. */
  lemma ExpiryExact(configured: Option<u64>, m: SessionMaterial, establishedAt: u64, now: u64)
    ensures IsExpired(establishedAt, EffectiveTtl(configured, m), now) <==>
            && m.encryptFrames && configured != Some(0)
            && now >= establishedAt + (if configured.Some? then configured.value else 600_000)
  {
  }

  // ---- The lane as a state machine ----

  /** One TCP stream and its session; the fields after `sendCounter` are its history. */
  datatype Session = Session(
    material: SessionMaterial,
    ttl: Option<u64>,
    establishedAt: u64,
    sendCounter: u64,
    sealed: seq<seq<byte>>,
    counters: seq<u64>,
    frames: seq<Frame>,
    wire: seq<byte>,
    broken: bool
  )

  /** Every stream the lane ever opened, and which one it holds now. */
  datatype LaneState = LaneState(sessions: seq<Session>, current: Option<nat>)

  datatype LaneEvent =
    | Connected(material: SessionMaterial, ttl: Option<u64>, now: u64)
    | Expired(now: u64)
    | Wrote(payload: seq<byte>)
    | WriteFailed(payload: seq<byte>, reached: nat)
    | SealFailed(payload: seq<byte>)

  /** The session after a frame was built and `reached` of its bytes got onto the wire. */
  function AfterWrite(s: Session, payload: seq<byte>, frame: Frame, reached: nat, broken: bool): Session
    requires reached <= |FrameBytes(frame)|
  {
    s.(sendCounter := NextCounter(s.material, s.sendCounter),
       sealed := s.sealed + [payload],
       counters := s.counters + [s.sendCounter],
       frames := s.frames + [frame],
       wire := s.wire + FrameBytes(frame)[..reached],
       broken := broken)
  }

  ghost predicate HoldsStream(lane: LaneState) {
    lane.current.Some? && lane.current.value < |lane.sessions|
  }

  ghost predicate Step(aead: Aead, s: LaneState, event: LaneEvent, t: LaneState) {
    match event
    case Connected(material, ttl, now) =>
      && s.current.None?
      && t == LaneState(s.sessions + [Session(material, ttl, now, 0, [], [], [], [], false)], Some(|s.sessions|))
    case Expired(now) =>
      && HoldsStream(s)
      && IsExpired(s.sessions[s.current.value].establishedAt, s.sessions[s.current.value].ttl, now)
      && t == s.(current := None)
    case Wrote(payload) =>
      && HoldsStream(s)
      && var held := s.sessions[s.current.value];
         var frame := BuildFrame(aead, held.material, held.sendCounter, payload);
         && frame.Some?
         && var after := AfterWrite(held, payload, frame.value, |FrameBytes(frame.value)|, held.broken);
            t == s.(sessions := s.sessions[s.current.value := after])
    case WriteFailed(payload, reached) =>
      && HoldsStream(s)
      && var held := s.sessions[s.current.value];
         var frame := BuildFrame(aead, held.material, held.sendCounter, payload);
         && frame.Some? && reached <= |FrameBytes(frame.value)|
         && t == LaneState(s.sessions[s.current.value := AfterWrite(held, payload, frame.value, reached, true)], None)
    case SealFailed(payload) =>
      && HoldsStream(s)
      && var held := s.sessions[s.current.value];
         && BuildFrame(aead, held.material, held.sendCounter, payload).None?
         && t == s.(current := None)
  }

  ghost predicate Run(aead: Aead, states: seq<LaneState>, events: seq<LaneEvent>) {
    && |states| == |events| + 1
    && forall i :: 0 <= i < |events| ==> Step(aead, states[i], events[i], states[i + 1])
  }

  const EMPTY_LANE := LaneState([], None)

  // ---- Invariant ----

  /** What a session's history says about its counter and its wire. */
  ghost predicate SessionInv(aead: Aead, s: Session) {
    && |s.frames| == |s.sealed| == |s.counters|
    && (forall k :: 0 <= k < |s.counters| ==> s.counters[k] == CounterAt(s.material, k))
    && (forall k :: 0 <= k < |s.sealed| ==>
          BuildFrame(aead, s.material, CounterAt(s.material, k), s.sealed[k]) == Some(s.frames[k]))
    && s.sendCounter == CounterAt(s.material, |s.sealed|)
    && s.wire <= EncodeFrames(s.frames)
    && (!s.broken ==> s.wire == EncodeFrames(s.frames))
  }

  ghost predicate LaneInv(aead: Aead, s: LaneState) {
    && (forall i :: 0 <= i < |s.sessions| ==> SessionInv(aead, s.sessions[i]))
    && (s.current.Some? ==> s.current.value == |s.sessions| - 1 && !s.sessions[s.current.value].broken)
  }

  lemma WritePreserves(aead: Aead, s: Session, payload: seq<byte>, frame: Frame, reached: nat, broken: bool)
    requires SessionInv(aead, s) && !s.broken && reached <= |FrameBytes(frame)|
    requires BuildFrame(aead, s.material, s.sendCounter, payload) == Some(frame)
    requires broken || reached == |FrameBytes(frame)|
    ensures SessionInv(aead, AfterWrite(s, payload, frame, reached, broken))
  {
    hide BuildFrame, FrameBytes;
    var t := AfterWrite(s, payload, frame, reached, broken);
    EncodeConcat(s.frames, [frame]);
    assert EncodeFrames([frame]) == FrameBytes(frame) + EncodeFrames([]);
    assert EncodeFrames(t.frames) == EncodeFrames(s.frames) + FrameBytes(frame);
  }

  lemma StepPreserves(aead: Aead, s: LaneState, event: LaneEvent, t: LaneState)
    requires LaneInv(aead, s) && Step(aead, s, event, t)
    ensures LaneInv(aead, t)
  {
    if event.Wrote? || event.WriteFailed? {
      var held := s.sessions[s.current.value];
      var frame := BuildFrame(aead, held.material, held.sendCounter, event.payload).value;
      var reached := if event.Wrote? then |FrameBytes(frame)| else event.reached;
      WritePreserves(aead, held, event.payload, frame, reached, event.WriteFailed?);
    }
  }

  /** Every reachable state keeps the invariant. */
  lemma {:induction false} RunInvariant(aead: Aead, states: seq<LaneState>, events: seq<LaneEvent>, i: nat)
    requires Run(aead, states, events) && LaneInv(aead, states[0]) && i <= |events|
    ensures LaneInv(aead, states[i])
  {
    if i > 0 {
      RunInvariant(aead, states, events, i - 1);
      StepPreserves(aead, states[i - 1], events[i - 1], states[i]);
    }
  }

  /**
   In every reachable state the frames of an encrypted session were each sealed under the nonce of its
   recorded counter, and those nonces are pairwise different exactly up to 2^64 frames.
   */
  lemma ReachableNoncesDistinctIff(
    aead: Aead, states: seq<LaneState>, events: seq<LaneEvent>, i: nat, k: nat
  )
    requires Run(aead, states, events) && states[0] == EMPTY_LANE && i <= |events|
    requires k < |states[i].sessions| && states[i].sessions[k].material.encryptFrames
    ensures var s := states[i].sessions[k];
            && |s.counters| == |s.frames| == |s.sealed|
            && (forall j :: 0 <= j < |s.frames| ==>
                  BuildFrame(aead, s.material, s.counters[j], s.sealed[j]) == Some(s.frames[j]))
            && (NoncesDistinct(s.counters) <==> |s.frames| <= U64_MODULUS)
  {
    hide BuildFrame, FrameNonce, CounterAt;
    RunInvariant(aead, states, events, i);
    var s := states[i].sessions[k];
    NoncesDistinctIff(s.material, |s.counters|);
  }

  /** A stream the lane let go of, for whatever reason, is never held or written again. */
  lemma {:induction false} ReleasedForever(
    aead: Aead, states: seq<LaneState>, events: seq<LaneEvent>, i: nat, j: nat, k: nat
  )
    requires Run(aead, states, events) && LaneInv(aead, states[0]) && i <= j <= |events|
    requires k < |states[i].sessions| && states[i].current != Some(k)
    ensures k < |states[j].sessions| && states[j].current != Some(k)
    ensures states[j].sessions[k] == states[i].sessions[k]
    decreases j
  {
    if i < j {
      ReleasedForever(aead, states, events, i, j - 1, k);
      RunInvariant(aead, states, events, j - 1);
      assert Step(aead, states[j - 1], events[j - 1], states[j]);
    }
  }

  /** A failed write breaks its stream, and the lane never touches that stream again. */
  lemma FailedStreamAbandoned(aead: Aead, states: seq<LaneState>, events: seq<LaneEvent>, i: nat, j: nat)
    requires Run(aead, states, events) && LaneInv(aead, states[0]) && i < j <= |events|
    requires events[i].WriteFailed?
    ensures var k := |states[i].sessions| - 1;
            && k >= 0 && k < |states[j].sessions|
            && states[j].current != Some(k)
            && states[j].sessions[k] == states[i + 1].sessions[k]
            && states[j].sessions[k].broken
  {
    RunInvariant(aead, states, events, i);
    assert Step(aead, states[i], events[i], states[i + 1]);
    ReleasedForever(aead, states, events, i + 1, j, |states[i].sessions| - 1);
  }

  /** After a failed write every later attempt is on another stream. */
  lemma RetryOnAnotherStream(aead: Aead, states: seq<LaneState>, events: seq<LaneEvent>, i: nat, j: nat)
    requires Run(aead, states, events) && LaneInv(aead, states[0]) && i < j < |events|
    requires events[i].WriteFailed? && IsAttempt(events[j])
    ensures states[i].current.Some? && states[j].current.Some? && states[i].current != states[j].current
  {
    RunInvariant(aead, states, events, i);
    assert Step(aead, states[i], events[i], states[i + 1]);
    assert Step(aead, states[j], events[j], states[j + 1]);
    FailedStreamAbandoned(aead, states, events, i, j);
  }

  // ---- The mutable lane ----

  datatype WriteOutcome = Written | RetryableError | FatalError

  /** How a write ends: completely, or in an I/O error after some bytes. */
  datatype WriteResult = Done | Failed(retryable: bool, reached: nat)

  /** What a send meets on its first pass (0) and on its retry (1): connection attempts, clock readings, writes. */
  datatype Network = Network(
    connect: nat -> Option<SessionMaterial>,
    checkedAt: nat -> u64,
    establishedAt: nat -> u64,
    write: nat -> WriteResult
  )

  // ---- What a send does, as a function of what it meets ----

  function NewSession(net: Network, configuredTtl: Option<u64>, m: SessionMaterial, pass: nat): Session {
    Session(m, EffectiveTtl(configuredTtl, m), net.establishedAt(pass), 0, [], [], [], [], false)
  }

  /** The held stream is used again: there is one, and its age is below its limit when checked. */
  predicate Keeps(lane: LaneState, net: Network) {
    && lane.current.Some? && lane.current.value < |lane.sessions|
    && var held := lane.sessions[lane.current.value];
       !IsExpired(held.establishedAt, held.ttl, net.checkedAt(0))
  }

  /** The session's age, when this was read, is below its limit. */
  predicate InTime(s: Session, now: u64) {
    s.ttl.Some? ==> now < s.establishedAt + s.ttl.value
  }

  lemma YoungIsInTime(s: Session, now: u64)
    ensures !IsExpired(s.establishedAt, s.ttl, now) ==> InTime(s, now)
  {
  }

  /** A stream opened on this pass: its session, when it was established, and the limit that is configured. */
  predicate Opened(s: Session, net: Network, configuredTtl: Option<u64>, pass: nat) {
    && net.connect(pass) == Some(s.material)
    && s.establishedAt == net.establishedAt(pass)
    && s.ttl == EffectiveTtl(configuredTtl, s.material)
  }

  /** The streams that did not exist before were opened on one of the two passes. */
  ghost predicate NewStreamsOpened(before: LaneState, after: LaneState, net: Network, configuredTtl: Option<u64>) {
    forall k :: |before.sessions| <= k < |after.sessions| ==>
      Opened(after.sessions[k], net, configuredTtl, 0) || Opened(after.sessions[k], net, configuredTtl, 1)
  }

  /** Of the streams that existed before, only the held one is written, and only before it expires. */
  ghost predicate OldStreamsInTime(before: LaneState, after: LaneState, net: Network) {
    && |before.sessions| <= |after.sessions|
    && forall k :: 0 <= k < |before.sessions| && after.sessions[k] != before.sessions[k] ==>
         before.current == Some(k) && InTime(before.sessions[k], net.checkedAt(0))
  }

  /** What the head of a pass does to the streams: none changes, one may be opened, a kept one is in time. */
  ghost predicate Readied(
    before: LaneState, after: LaneState, net: Network, configuredTtl: Option<u64>, pass: nat
  ) {
    && |before.sessions| <= |after.sessions| && after.sessions[..|before.sessions|] == before.sessions
    && (forall k :: |before.sessions| <= k < |after.sessions| ==>
          Opened(after.sessions[k], net, configuredTtl, pass))
    && (after.current.Some? && after.current.value < |before.sessions| ==>
          before.current == after.current && InTime(before.sessions[after.current.value], net.checkedAt(pass)))
  }

  /** A write changes the held stream only, and not what it was opened with. */
  ghost predicate WroteHeld(before: LaneState, after: LaneState) {
    && |after.sessions| == |before.sessions|
    && forall k :: 0 <= k < |after.sessions| ==>
         && (Some(k) != before.current ==> after.sessions[k] == before.sessions[k])
         && after.sessions[k].material == before.sessions[k].material
         && after.sessions[k].ttl == before.sessions[k].ttl
         && after.sessions[k].establishedAt == before.sessions[k].establishedAt
  }

  /** One pass, from the start or with no stream held, keeps both promises about streams. */
  lemma PassKeepsStreams(
    start: LaneState, here: LaneState, ready: LaneState, after: LaneState, net: Network, configuredTtl: Option<u64>,
    pass: nat
  )
    requires OldStreamsInTime(start, here, net) && NewStreamsOpened(start, here, net, configuredTtl)
    requires (here == start && pass == 0) || (here.current.None? && pass == 1)
    requires Readied(here, ready, net, configuredTtl, pass) && WroteHeld(ready, after)
    ensures OldStreamsInTime(start, after, net) && NewStreamsOpened(start, after, net, configuredTtl)
  {
    hide InTime, EffectiveTtl;
    forall k | |start.sessions| <= k < |after.sessions|
      ensures Opened(after.sessions[k], net, configuredTtl, 0) || Opened(after.sessions[k], net, configuredTtl, 1)
    {
      if k < |here.sessions| {
        assert ready.sessions[k] == here.sessions[k];
      }
    }
    forall k | 0 <= k < |start.sessions| && after.sessions[k] != start.sessions[k]
      ensures start.current == Some(k) && InTime(start.sessions[k], net.checkedAt(0))
    {
      assert ready.sessions[k] == here.sessions[k];
    }
  }

  lemma ForgetHeld(start: LaneState, s: LaneState, net: Network, configuredTtl: Option<u64>)
    requires OldStreamsInTime(start, s, net) && NewStreamsOpened(start, s, net, configuredTtl)
    ensures OldStreamsInTime(start, s.(current := None), net)
    ensures NewStreamsOpened(start, s.(current := None), net, configuredTtl)
  {
  }

  lemma NoWrite(s: LaneState)
    ensures WroteHeld(s, s)
  {
  }

  lemma NothingChanged(s: LaneState, net: Network, configuredTtl: Option<u64>)
    ensures OldStreamsInTime(s, s, net) && NewStreamsOpened(s, s, net, configuredTtl)
  {
  }

  /** The session that the first pass writes on, if it gets that far. */
  function FirstSession(lane: LaneState, net: Network, configuredTtl: Option<u64>): Option<Session> {
    if Keeps(lane, net) then Some(lane.sessions[lane.current.value])
    else if net.connect(0).None? then None
    else Some(NewSession(net, configuredTtl, net.connect(0).value, 0))
  }

  /** The session that the retry writes on: always a new one. */
  function SecondSession(net: Network, configuredTtl: Option<u64>): Option<Session> {
    if net.connect(1).None? then None else Some(NewSession(net, configuredTtl, net.connect(1).value, 1))
  }

  /** There is a session, and it can seal the payload. */
  predicate CanSeal(aead: Aead, s: Option<Session>, payload: seq<byte>) {
    s.Some? && BuildFrame(aead, s.value.material, s.value.sendCounter, payload).Some?
  }

  /** The first pass gets its payload onto a stream and the write completes. */
  predicate SendsAtOnce(
    aead: Aead, lane: LaneState, net: Network, configuredTtl: Option<u64>, payload: seq<byte>
  ) {
    CanSeal(aead, FirstSession(lane, net, configuredTtl), payload) && net.write(0).Done?
  }

  /** The first write fails with a retryable error; the second connection and its write succeed. */
  predicate SendsOnRetry(
    aead: Aead, lane: LaneState, net: Network, configuredTtl: Option<u64>, payload: seq<byte>
  ) {
    && CanSeal(aead, FirstSession(lane, net, configuredTtl), payload)
    && net.write(0).Failed? && net.write(0).retryable
    && CanSeal(aead, SecondSession(net, configuredTtl), payload) && net.write(1).Done?
  }

  /** When a send succeeds, spelled out: reuse or connect, seal, write, and once more after a retryable failure. */
  lemma SendSucceedsIff(
    aead: Aead, lane: LaneState, net: Network, configuredTtl: Option<u64>, payload: seq<byte>
  )
    requires LaneInv(aead, lane)
    ensures SendsAtOnce(aead, lane, net, configuredTtl, payload) ||
            SendsOnRetry(aead, lane, net, configuredTtl, payload) <==>
            var held := if lane.current.Some? then Some(lane.sessions[lane.current.value]) else None;
            var reused := held.Some? && !IsExpired(held.value.establishedAt, held.value.ttl, net.checkedAt(0));
            && (reused || net.connect(0).Some?)
            && (if reused then BuildFrame(aead, held.value.material, held.value.sendCounter, payload).Some?
                else BuildFrame(aead, net.connect(0).value, 0, payload).Some?)
            && (|| net.write(0).Done?
                || (&& net.write(0).retryable
                    && net.connect(1).Some? && BuildFrame(aead, net.connect(1).value, 0, payload).Some?
                    && net.write(1).Done?))
  {
    hide BuildFrame, IsExpired, SessionInv;
  }

  /** A session after a complete write of the payload. */
  function Carried(aead: Aead, s: Session, payload: seq<byte>): Session
    requires CanSeal(aead, Some(s), payload)
  {
    var frame := BuildFrame(aead, s.material, s.sendCounter, payload).value;
    AfterWrite(s, payload, frame, |FrameBytes(frame)|, s.broken)
  }

  ghost predicate IsAttempt(event: LaneEvent) {
    event.Wrote? || event.WriteFailed? || event.SealFailed?
  }

  /** The attempts of a send, oldest first. */
  ghost function Attempts(events: seq<LaneEvent>): seq<LaneEvent> {
    if events == [] then []
    else Attempts(events[..|events| - 1]) + if IsAttempt(events[|events| - 1]) then [events[|events| - 1]] else []
  }

  class OutboundLane {
    var sessions: seq<Session>
    var current: Option<nat>

    ghost function View(): LaneState
      reads this
    {
      LaneState(sessions, current)
    }

    constructor ()
      ensures View() == EMPTY_LANE
    {
      sessions := [];
      current := None;
    }

    /** `write_application_frame`: seal, advance the counter, write. */
    method WriteApplicationFrame(aead: Aead, net: Network, pass: nat, payload: seq<byte>)
      returns (outcome: WriteOutcome, ghost event: LaneEvent)
      requires LaneInv(aead, View()) && current.Some?
      modifies this`sessions
      ensures WroteHeld(old(View()), View())
      ensures outcome == Written <==>
              CanSeal(aead, Some(old(sessions[current.value])), payload) && net.write(pass).Done?
      ensures outcome == RetryableError <==>
              && CanSeal(aead, Some(old(sessions[current.value])), payload)
              && net.write(pass).Failed? && net.write(pass).retryable
      ensures outcome == Written ==>
                && current.value < |sessions|
                && CanSeal(aead, Some(old(sessions[current.value])), payload)
                && sessions[current.value] == Carried(aead, old(sessions[current.value]), payload)
      ensures outcome == Written <==> event == Wrote(payload)
      ensures outcome == Written ==> Step(aead, old(View()), event, View())
      ensures outcome != Written ==> Step(aead, old(View()), event, View().(current := None))
      ensures outcome != Written ==> event == SealFailed(payload) || (event.WriteFailed? && event.payload == payload)
      ensures outcome == RetryableError ==> event.WriteFailed?
    {
      var held := sessions[current.value];
      var frame := BuildFrame(aead, held.material, held.sendCounter, payload);
      if frame.None? {
        return FatalError, SealFailed(payload);
      }
      var bytes := FrameBytes(frame.value);
      match net.write(pass)
      case Done =>
        outcome, event := Written, Wrote(payload);
        sessions := sessions[current.value := AfterWrite(held, payload, frame.value, |bytes|, held.broken)];
      case Failed(retryable, reached) =>
        var onWire: nat := Min(reached, |bytes|);
        outcome, event := if retryable then RetryableError else FatalError, WriteFailed(payload, onWire);
        sessions := sessions[current.value := AfterWrite(held, payload, frame.value, onWire, true)];
    }

    /** The head of the send loop: let an expired stream go, then connect if none is held. */
    method EnsureStream(
      aead: Aead, net: Network, pass: nat, configuredTtl: Option<u64>, payload: seq<byte>,
      ghost start: LaneState, ghost past: seq<LaneState>, ghost earlier: seq<LaneEvent>
    ) returns (ready: bool, ghost states: seq<LaneState>, ghost events: seq<LaneEvent>)
      requires LaneInv(aead, View()) && SendRun(aead, start, View(), past, earlier, payload)
      modifies this
      ensures LaneInv(aead, View()) && SendRun(aead, start, View(), states, events, payload)
      ensures ready <==> current.Some?
      ensures Readied(old(View()), View(), net, configuredTtl, pass)
      ensures pass == 0 ==>
                && (ready <==> FirstSession(old(View()), net, configuredTtl).Some?)
                && (ready ==> current.value < |sessions| &&
                              Some(sessions[current.value]) == FirstSession(old(View()), net, configuredTtl))
      ensures pass == 1 && old(current).None? ==>
                && (ready <==> SecondSession(net, configuredTtl).Some?)
                && (ready ==> current.value < |sessions| &&
                              Some(sessions[current.value]) == SecondSession(net, configuredTtl))
      ensures Attempts(events) == Attempts(earlier) && (Wrote(payload) in events ==> Wrote(payload) in earlier)
    {
      hide Run, LaneInv, SendRun, Attempts, BuildFrame, AfterWrite, EffectiveTtl, IsExpired;
      states, events := past, earlier;
      if current.Some? {
        HeldStream(aead, View());
        var now := net.checkedAt(pass);
        YoungIsInTime(sessions[current.value], now);
        if IsExpired(sessions[current.value].establishedAt, sessions[current.value].ttl, now) {
          ExtendRun(aead, start, View(), states, events, payload, Expired(now), View().(current := None));
          current := None;
          states, events := states + [View()], events + [Expired(now)];
        }
      }
      if current.None? {
        var established := net.connect(pass);
        if !established.Some? {
          return false, states, events;
        }
        var newest := Session(established.value, EffectiveTtl(configuredTtl, established.value),
                              net.establishedAt(pass), 0, [], [], [], [], false);
        ghost var event := Connected(established.value, newest.ttl, newest.establishedAt);
        ghost var next := LaneState(sessions + [newest], Some(|sessions|));
        ExtendRun(aead, start, View(), states, events, payload, event, next);
        sessions, current := sessions + [newest], Some(|sessions|);
        states, events := states + [View()], events + [event];
      }
      return true, states, events;
    }

    /**
     `send_message` from the signed envelope on. It succeeds exactly when the first pass does, or when the
     first write fails with a retryable error and the one retry, on a new stream, succeeds.
     */
    method SendMessage(aead: Aead, net: Network, configuredTtl: Option<u64>, payload: seq<byte>)
      returns (sent: bool, ghost states: seq<LaneState>, ghost events: seq<LaneEvent>)
      requires LaneInv(aead, View())
      modifies this
      ensures LaneInv(aead, View())
      ensures sent <==>
              || SendsAtOnce(aead, old(View()), net, configuredTtl, payload)
              || SendsOnRetry(aead, old(View()), net, configuredTtl, payload)
      ensures sent ==> current.Some? && current.value < |sessions|
      ensures sent ==>
                sessions[current.value] ==
                (if SendsAtOnce(aead, old(View()), net, configuredTtl, payload)
                 then Carried(aead, FirstSession(old(View()), net, configuredTtl).value, payload)
                 else Carried(aead, SecondSession(net, configuredTtl).value, payload))
      ensures OldStreamsInTime(old(View()), View(), net)
      ensures NewStreamsOpened(old(View()), View(), net, configuredTtl)
      ensures SendRun(aead, old(View()), View(), states, events, payload)
      ensures SendShape(events, payload) && (|Attempts(events)| == 2 ==> Attempts(events)[0].WriteFailed?)
      ensures sent ==> events != [] && events[|events| - 1] == Wrote(payload)
      ensures !sent ==> current.None? && Wrote(payload) !in events
    {
      hide Run, LaneInv, SendRun, Attempts, Step, BuildFrame, AfterWrite, FirstSession, SecondSession, Carried, InTime,
           EffectiveTtl, Readied, WroteHeld, OldStreamsInTime, NewStreamsOpened;
      states, events := [View()], [];
      var retried := false;
      NothingSent(aead, View(), payload);
      NothingChanged(View(), net, configuredTtl);
      while true
        invariant LaneInv(aead, View()) && SendRun(aead, old(View()), View(), states, events, payload)
        invariant Wrote(payload) !in events
        invariant |Attempts(events)| == if retried then 1 else 0
        invariant retried ==> Attempts(events)[0].WriteFailed?
        invariant !retried ==> View() == old(View())
        invariant OldStreamsInTime(old(View()), View(), net)
        invariant NewStreamsOpened(old(View()), View(), net, configuredTtl)
        invariant retried ==>
                    && current.None? && net.write(0).Failed? && net.write(0).retryable
                    && CanSeal(aead, FirstSession(old(View()), net, configuredTtl), payload)
        decreases !retried
      {
        var pass := if retried then 1 else 0;
        ghost var here := View();
        var ready;
        ready, states, events := EnsureStream(aead, net, pass, configuredTtl, payload, old(View()), states, events);
        ghost var before := View();
        if !ready {
          NoWrite(before);
          PassKeepsStreams(old(View()), here, before, before, net, configuredTtl, pass);
          return false, states, events;
        }
        var outcome, event := WriteApplicationFrame(aead, net, pass, payload);
        PassKeepsStreams(old(View()), here, before, View(), net, configuredTtl, pass);
        if outcome != Written {
          ForgetHeld(old(View()), View(), net, configuredTtl);
          current := None;
        }
        ExtendRun(aead, old(View()), before, states, events, payload, event, View());
        states, events := states + [View()], events + [event];
        if outcome == Written {
          return true, states, events;
        }
        if retried || outcome == FatalError {
          return false, states, events;
        }
        retried := true;
      }
    }
  }

  /** At most two attempts, and nothing after a completed write. */
  ghost predicate SendShape(events: seq<LaneEvent>, payload: seq<byte>) {
    |Attempts(events)| <= 2 && (events != [] ==> Wrote(payload) !in events[..|events| - 1])
  }

  /** A run between two lane states whose attempts all carry the payload. */
  ghost predicate SendRun(
    aead: Aead, start: LaneState, end: LaneState, states: seq<LaneState>, events: seq<LaneEvent>, payload: seq<byte>
  ) {
    && Run(aead, states, events) && states[0] == start && states[|events|] == end
    && forall e :: e in events && IsAttempt(e) ==> e.payload == payload
  }

  lemma NothingSent(aead: Aead, s: LaneState, payload: seq<byte>)
    ensures SendRun(aead, s, s, [s], [], payload) && Attempts([]) == []
  {
  }

  lemma HeldStream(aead: Aead, s: LaneState)
    requires LaneInv(aead, s) && s.current.Some?
    ensures HoldsStream(s) && s.current.value == |s.sessions| - 1
  {
  }

  lemma ExtendRun(
    aead: Aead, start: LaneState, here: LaneState, states: seq<LaneState>, events: seq<LaneEvent>, payload: seq<byte>,
    event: LaneEvent, next: LaneState
  )
    requires SendRun(aead, start, here, states, events, payload) && LaneInv(aead, here)
    requires Step(aead, here, event, next) && (IsAttempt(event) ==> event.payload == payload)
    ensures SendRun(aead, start, next, states + [next], events + [event], payload)
    ensures LaneInv(aead, next)
    ensures Attempts(events + [event]) == Attempts(events) + if IsAttempt(event) then [event] else []
  {
    hide SessionInv, LaneInv, Attempts;
    StepPreserves(aead, here, event, next);
    AttemptsSnoc(events, event);
  }

  lemma AttemptsSnoc(events: seq<LaneEvent>, event: LaneEvent)
    ensures Attempts(events + [event]) == Attempts(events) + if IsAttempt(event) then [event] else []
  {
    assert (events + [event])[..|events|] == events;
  }

  // ---- How often one request is sealed ----

  predicate Seals(event: LaneEvent) {
    event.Wrote? || event.WriteFailed?
  }

  /** The streams onto which a run sealed a frame, oldest first. */
  ghost function Sealings(states: seq<LaneState>, events: seq<LaneEvent>): seq<nat>
    requires |states| == |events| + 1
  {
    if events == [] then []
    else
      var n := |events| - 1;
      Sealings(states[..n + 1], events[..n]) +
      if Seals(events[n]) && states[n].current.Some? then [states[n].current.value] else []
  }

  /** What a stream, opened or not, has carried so far. */
  ghost function SealedOn(s: LaneState, k: nat): seq<seq<byte>> {
    if k < |s.sessions| then s.sessions[k].sealed else []
  }

  ghost function Times(streams: seq<nat>, k: nat): nat {
    multiset(streams)[k]
  }

  ghost function Copies(payload: seq<byte>, count: nat): seq<seq<byte>> {
    if count == 0 then [] else Copies(payload, count - 1) + [payload]
  }

  /** What a run of failed writes leaves: every sealing on a stream of its own, broken and let go. */
  ghost predicate Spread(s: LaneState, streams: seq<nat>) {
    && Distinct(streams)
    && forall k :: k in streams ==> k < |s.sessions| && s.sessions[k].broken && s.current != Some(k)
  }

  lemma {:induction false} FailuresSpread(
    aead: Aead, states: seq<LaneState>, events: seq<LaneEvent>, payload: seq<byte>
  )
    requires Run(aead, states, events) && LaneInv(aead, states[0])
    requires forall e :: e in events && IsAttempt(e) ==> e.payload == payload
    requires Wrote(payload) !in events
    ensures Spread(states[|events|], Sealings(states, events))
    decreases |events|
  {
    if events != [] {
      hide SessionInv, AfterWrite, BuildFrame;
      var n := |events| - 1;
      assert forall e :: e in events[..n] ==> e in events;
      assert events[n] in events;
      FailuresSpread(aead, states[..n + 1], events[..n], payload);
      RunInvariant(aead, states, events, n);
      SpreadStep(aead, states[n], events[n], states[n + 1], Sealings(states[..n + 1], events[..n]));
    }
  }

  lemma SpreadStep(aead: Aead, s: LaneState, event: LaneEvent, t: LaneState, streams: seq<nat>)
    requires Spread(s, streams) && LaneInv(aead, s) && Step(aead, s, event, t) && !event.Wrote?
    ensures Spread(t, streams + if Seals(event) && s.current.Some? then [s.current.value] else [])
  {
    hide SessionInv, BuildFrame, IsExpired;
    assert streams + [] == streams;
  }

  /** A run, its attempts and its sealings, without its last step. */
  lemma RunFront(aead: Aead, states: seq<LaneState>, events: seq<LaneEvent>)
    requires Run(aead, states, events) && events != []
    ensures var n := |events| - 1;
            && Run(aead, states[..n + 1], events[..n]) && Step(aead, states[n], events[n], states[n + 1])
            && Attempts(events) == Attempts(events[..n]) + (if IsAttempt(events[n]) then [events[n]] else [])
            && Sealings(states, events) == Sealings(states[..n + 1], events[..n]) +
                 (if Seals(events[n]) && states[n].current.Some? then [states[n].current.value] else [])
  {
    hide Step;
  }

  /** Each sealing adds one payload to its stream, and nothing else does. */
  lemma {:induction false} SealingsCounted(
    aead: Aead, states: seq<LaneState>, events: seq<LaneEvent>, payload: seq<byte>, k: nat
  )
    requires Run(aead, states, events) && LaneInv(aead, states[0])
    requires forall e :: e in events && IsAttempt(e) ==> e.payload == payload
    ensures SealedOn(states[|events|], k) ==
            SealedOn(states[0], k) + Copies(payload, Times(Sealings(states, events), k))
    ensures |Sealings(states, events)| <= |Attempts(events)|
    decreases |events|
  {
    if events == [] {
      assert SealedOn(states[0], k) + [] == SealedOn(states[0], k);
    } else {
      var n := |events| - 1;
      RunFront(aead, states, events);
      RunInvariant(aead, states, events, n);
      var before := Sealings(states[..n + 1], events[..n]);
      var added := if Seals(events[n]) && states[n].current.Some? then [states[n].current.value] else [];
      assert events[n] in events && forall e :: e in events[..n] ==> e in events;
      assert Seals(events[n]) ==> events[n].payload == payload;
      SealingsCounted(aead, states[..n + 1], events[..n], payload, k);
      SealedStep(aead, states[n], events[n], states[n + 1], k);
      hide *;
      SealedSum(SealedOn(states[0], k), SealedOn(states[n], k), SealedOn(states[n + 1], k), payload, before, added, k);
    }
  }

  lemma SealedSum(
    first: seq<seq<byte>>, here: seq<seq<byte>>, next: seq<seq<byte>>, payload: seq<byte>,
    streams: seq<nat>, added: seq<nat>, k: nat
  )
    requires here == first + Copies(payload, Times(streams, k))
    requires next == here + if added == [k] then [payload] else []
    requires |added| <= 1
    ensures next == first + Copies(payload, Times(streams + added, k))
  {
    if added == [k] {
      assert Times(streams + added, k) == Times(streams, k) + 1;
    } else {
      assert added == if added == [] then [] else [added[0]];
      assert Times(streams + added, k) == Times(streams, k);
    }
  }

  lemma SealedStep(aead: Aead, s: LaneState, event: LaneEvent, t: LaneState, k: nat)
    requires LaneInv(aead, s) && Step(aead, s, event, t)
    ensures SealedOn(t, k) ==
            SealedOn(s, k) + if Seals(event) && s.current == Some(k) then [event.payload] else []
  {
    hide SessionInv, BuildFrame, IsExpired;
    assert SealedOn(s, k) + [] == SealedOn(s, k);
  }

  /**
   One call of `send_message` seals its request at most once per stream and on at most two streams; of
   two, the first is broken.
   */
  lemma SendSeals(
    aead: Aead, start: LaneState, end: LaneState, states: seq<LaneState>, events: seq<LaneEvent>, payload: seq<byte>
  )
    requires SendRun(aead, start, end, states, events, payload) && LaneInv(aead, start) && SendShape(events, payload)
    ensures LaneInv(aead, end)
    ensures var streams := Sealings(states, events);
            && |streams| <= 2 && Distinct(streams)
            && (|streams| == 2 ==> streams[0] < |end.sessions| && end.sessions[streams[0]].broken)
            && forall k: nat ::
                 SealedOn(end, k) == SealedOn(start, k) + if k in streams then [payload] else []
  {
    hide SessionInv, Step, LaneInv, Attempts;
    RunInvariant(aead, states, events, |events|);
    var streams := Sealings(states, events);
    SealingsCounted(aead, states, events, payload, 0);
    SendSpread(aead, states, events, payload);
    forall k: nat ensures SealedOn(end, k) == SealedOn(start, k) + if k in streams then [payload] else [] {
      SealingsCounted(aead, states, events, payload, k);
      DistinctTimes(streams, k);
      assert Copies(payload, 1) == Copies(payload, 0) + [payload] == [payload];
    }
  }

  lemma {:induction false} DistinctTimes(s: seq<nat>, x: nat)
    requires Distinct(s)
    ensures Times(s, x) == if x in s then 1 else 0
  {
    if s != [] {
      DistinctTimes(s[1..], x);
      assert s == [s[0]] + s[1..];
    }
  }

  lemma SendSpread(aead: Aead, states: seq<LaneState>, events: seq<LaneEvent>, payload: seq<byte>)
    requires Run(aead, states, events) && LaneInv(aead, states[0]) && SendShape(events, payload)
    requires forall e :: e in events && IsAttempt(e) ==> e.payload == payload
    ensures var streams := Sealings(states, events);
            && Distinct(streams)
            && (|streams| >= 2 ==>
                  streams[0] < |states[|events|].sessions| && states[|events|].sessions[streams[0]].broken)
  {
    if events != [] {
      var n := |events| - 1;
      RunFront(aead, states, events);
      RunInvariant(aead, states, events, n);
      assert forall e :: e in events[..n] ==> e in events;
      FailuresSpread(aead, states[..n + 1], events[..n], payload);
      hide Run, Sealings, Attempts;
      SpreadLast(aead, states[n], events[n], states[n + 1], Sealings(states[..n + 1], events[..n]));
    }
  }

  /** One more step, of any kind, keeps the streams apart and the earlier ones broken. */
  lemma SpreadLast(aead: Aead, s: LaneState, event: LaneEvent, t: LaneState, streams: seq<nat>)
    requires Spread(s, streams) && LaneInv(aead, s) && Step(aead, s, event, t)
    ensures var all := streams + if Seals(event) && s.current.Some? then [s.current.value] else [];
            && Distinct(all)
            && (|all| >= 2 ==> all[0] < |t.sessions| && t.sessions[all[0]].broken)
  {
    hide SessionInv, BuildFrame, IsExpired;
    assert streams + [] == streams;
    if |streams| >= 1 {
      assert streams[0] in streams;
    }
  }
}
