/** The receiving end of a stream, and what it can accept of what the lane sealed. */
module Inbound {
  import opened Prelude
  import opened Bytes
  import opened Framing
  import opened Lane
  import opened Sequences

  datatype InboundEnd = Closed | SessionExpired | FrameError | AuthenticationFailed | EnvelopeRejected

  /** What one inbound session is set up with; clock(i) is the time read after the i-th frame arrived. */
  datatype Setup = Setup(
    aead: Aead,
    material: SessionMaterial,
    ttl: Option<u64>,
    establishedAt: u64,
    clock: nat -> u64,
    envelopeValid: seq<byte> -> bool
  )

  datatype Reception = Reception(accepted: seq<seq<byte>>, end: InboundEnd)

  /** Frame by frame from position i: clock, authentication, then the envelope checks. */
  function Receive(c: Setup, t: Transcript, i: nat): Reception
    requires i <= |t.frames|
    decreases |t.frames| - i
  {
    if i == |t.frames| then Reception([], if t.end.StreamClosed? then Closed else FrameError)
    else if IsExpired(c.establishedAt, c.ttl, c.clock(i)) then Reception([], SessionExpired)
    else match OpenFrame(c.aead, c.material, CounterAt(c.material, i), t.frames[i])
      case None => Reception([], AuthenticationFailed)
      case Some(payload) =>
        if !c.envelopeValid(payload) then Reception([payload], EnvelopeRejected)
        else
          var rest := Receive(c, t, i + 1);
          Reception([payload] + rest.accepted, rest.end)
  }

  /** `handle_inbound` after the handshake: one counter, advanced by every authenticated frame. */
  method HandleInbound(stream: ByteStream, c: Setup) returns (r: Reception, receiveCounter: u64)
    modifies stream
    ensures r == Receive(c, ReadAll(old(stream.unread)), 0)
    ensures receiveCounter == CounterAt(c.material, |r.accepted|)
  {
    hide *;
    ghost var t := ReadAll(stream.unread);
    LoopStart(c, t);
    var accepted: seq<seq<byte>> := [];
    receiveCounter := 0;
    while true
      invariant |accepted| <= |t.frames|
      invariant ReadAll(stream.unread) == Transcript(t.frames[|accepted|..], t.end)
      invariant receiveCounter == CounterAt(c.material, |accepted|)
      invariant Receive(c, t, 0) == Prepend(accepted, Receive(c, t, |accepted|))
      decreases |stream.unread|
    {
      var k := |accepted|;
      CounterStep(c.material, k);
      ReceiveStep(c, t, k, accepted);
      ReadStep(stream.unread, t, k);
      var read := stream.ReadFrameBytes();
      if !read.Complete? {
        return Reception(accepted, if read.StreamClosed? then Closed else FrameError), receiveCounter;
      }
      if IsExpired(c.establishedAt, c.ttl, c.clock(k)) {
        return Reception(accepted, SessionExpired), receiveCounter;
      }
      var plaintext := OpenFrame(c.aead, c.material, receiveCounter, read.frame);
      if plaintext.None? {
        return Reception(accepted, AuthenticationFailed), receiveCounter;
      }
      accepted := accepted + [plaintext.value];
      receiveCounter := NextCounter(c.material, receiveCounter);
      if !c.envelopeValid(plaintext.value) {
        return Reception(accepted, EnvelopeRejected), receiveCounter;
      }
    }
  }

  lemma LoopStart(c: Setup, t: Transcript)
    ensures CounterAt(c.material, 0) == 0
    ensures Transcript(t.frames[0..], t.end) == t
    ensures Receive(c, t, 0) == Prepend([], Receive(c, t, 0))
  {
  }

  function Prepend(accepted: seq<seq<byte>>, r: Reception): Reception {
    Reception(accepted + r.accepted, r.end)
  }

  lemma ReadStep(input: seq<byte>, t: Transcript, k: nat)
    requires k <= |t.frames| && ReadAll(input) == Transcript(t.frames[k..], t.end)
    ensures var r := ReadFrame(input);
            if r.Complete? then
              && k < |t.frames| && r.frame == t.frames[k]
              && ReadAll(input[4 + |r.frame|..]) == Transcript(t.frames[k + 1..], t.end)
            else k == |t.frames| && t.end == r
  {
    hide ReadFrame;
    if ReadFrame(input).Complete? {
      assert t.frames[k..][0] == t.frames[k];
      assert t.frames[k..][1..] == t.frames[k + 1..];
    }
  }

  /** One turn of the receive loop, with what was accepted before it. */
  lemma ReceiveStep(c: Setup, t: Transcript, k: nat, before: seq<seq<byte>>)
    requires k <= |t.frames|
    ensures var all := Prepend(before, Receive(c, t, k));
            if k == |t.frames| then all == Reception(before, if t.end.StreamClosed? then Closed else FrameError)
            else if IsExpired(c.establishedAt, c.ttl, c.clock(k)) then all == Reception(before, SessionExpired)
            else match OpenFrame(c.aead, c.material, CounterAt(c.material, k), t.frames[k])
              case None => all == Reception(before, AuthenticationFailed)
              case Some(payload) =>
                if !c.envelopeValid(payload) then all == Reception(before + [payload], EnvelopeRejected)
                else all == Prepend(before + [payload], Receive(c, t, k + 1))
  {
    hide OpenFrame, CounterAt, IsExpired;
    assert before + [] == before;
    if k < |t.frames| {
      var opening := OpenFrame(c.aead, c.material, CounterAt(c.material, k), t.frames[k]);
      if opening.Some? {
        var rest := Receive(c, t, k + 1).accepted;
        assert before + ([opening.value] + rest) == (before + [opening.value]) + rest;
      }
    }
  }

  lemma CounterStep(m: SessionMaterial, k: nat)
    ensures CounterAt(m, 0) == 0 && NextCounter(m, CounterAt(m, k)) == CounterAt(m, k + 1)
  {
  }

  // ---- What acceptance proves ----

  ghost predicate AgreeAt<T>(a: seq<T>, b: seq<T>, k: nat) {
    k < |a| && k < |b| && a[k] == b[k]
  }

  lemma PrefixByIndex<T>(a: seq<T>, b: seq<T>)
    requires forall k: nat :: k < |a| ==> AgreeAt(a, b, k)
    ensures a <= b
  {
    if a != [] {
      assert AgreeAt(a, b, |a| - 1);
    }
    forall k: nat | k < |a| ensures a[k] == b[k] {
      assert AgreeAt(a, b, k);
    }
  }

  /** The i-th accepted payload is the opening of the i-th frame under the i-th counter. */
  lemma {:induction false} AcceptedAreOpened(c: Setup, t: Transcript, i: nat, k: nat)
    requires i <= |t.frames| && k < |Receive(c, t, i).accepted|
    ensures i + k < |t.frames|
    ensures OpenFrame(c.aead, c.material, CounterAt(c.material, i + k), t.frames[i + k]) ==
            Some(Receive(c, t, i).accepted[k])
    decreases |t.frames| - i
  {
    if k > 0 {
      AcceptedAreOpened(c, t, i + 1, k - 1);
    }
  }

  /** Frame k arrived, was read in time, and opened to this payload under its counter. */
  ghost predicate Took(c: Setup, t: Transcript, k: nat, payload: seq<byte>) {
    && k < |t.frames| && !IsExpired(c.establishedAt, c.ttl, c.clock(k))
    && OpenFrame(c.aead, c.material, CounterAt(c.material, k), t.frames[k]) == Some(payload)
  }

  /** Why the loop stops before, or at, frame k. */
  ghost predicate StopsAt(c: Setup, t: Transcript, k: nat, end: InboundEnd) {
    match end
    case Closed => k == |t.frames| && t.end.StreamClosed?
    case FrameError => k == |t.frames| && !t.end.StreamClosed?
    case SessionExpired => k < |t.frames| && IsExpired(c.establishedAt, c.ttl, c.clock(k))
    case AuthenticationFailed =>
      && k < |t.frames| && !IsExpired(c.establishedAt, c.ttl, c.clock(k))
      && OpenFrame(c.aead, c.material, CounterAt(c.material, k), t.frames[k]).None?
    case EnvelopeRejected => k > 0
  }

  /**
   What the receive loop accepts from position i on, and why it stops. With n payloads accepted: each came
   from its own frame, in time, and opened under its counter; all but the last passed the envelope checks;
   and the loop stopped at the last payload's envelope, or at the next frame, or at the end of the stream.
   */
  ghost predicate Receives(c: Setup, t: Transcript, i: nat, r: Reception) {
    var n := |r.accepted|;
    && (forall k: nat :: k < n ==> Took(c, t, i + k, r.accepted[k]))
    && (forall k: nat :: k + 1 < n ==> c.envelopeValid(r.accepted[k]))
    && (r.end.EnvelopeRejected? <==> n > 0 && !c.envelopeValid(r.accepted[n - 1]))
    && StopsAt(c, t, i + n, r.end)
  }

  lemma {:induction false} ReceiveExact(c: Setup, t: Transcript, i: nat)
    requires i <= |t.frames|
    ensures Receives(c, t, i, Receive(c, t, i))
    decreases |t.frames| - i
  {
    hide IsExpired, OpenFrame, CounterAt;
    if i < |t.frames| && !IsExpired(c.establishedAt, c.ttl, c.clock(i)) {
      var opening := OpenFrame(c.aead, c.material, CounterAt(c.material, i), t.frames[i]);
      if opening.Some? && c.envelopeValid(opening.value) {
        ReceiveExact(c, t, i + 1);
        OneMoreReceived(c, t, i, opening.value, Receive(c, t, i + 1));
      }
    }
  }

  lemma OneMoreReceived(c: Setup, t: Transcript, i: nat, payload: seq<byte>, rest: Reception)
    requires Took(c, t, i, payload) && c.envelopeValid(payload) && Receives(c, t, i + 1, rest)
    ensures Receives(c, t, i, Reception([payload] + rest.accepted, rest.end))
  {
    hide Took, IsExpired, OpenFrame;
    var all := [payload] + rest.accepted;
    assert i + |all| == i + 1 + |rest.accepted|;
    forall k: nat | k < |all| ensures Took(c, t, i + k, all[k]) {
      if k > 0 {
        assert Took(c, t, i + 1 + (k - 1), rest.accepted[k - 1]);
      }
    }
  }

  /** And nothing else fits this description. */
  lemma {:induction false} ReceivesUnique(c: Setup, t: Transcript, i: nat, r: Reception)
    requires i <= |t.frames| && Receives(c, t, i, r)
    ensures r == Receive(c, t, i)
    decreases |t.frames| - i
  {
    hide IsExpired, OpenFrame, CounterAt;
    var n := |r.accepted|;
    assert n > 0 ==> Took(c, t, i + 0, r.accepted[0]);
    if n > 1 {
      AllButFirst(c, t, i, r);
      ReceivesUnique(c, t, i + 1, Reception(r.accepted[1..], r.end));
      HeadAndTail(r.accepted);
    } else if n == 1 {
      assert r.accepted == [r.accepted[0]];
      if c.envelopeValid(r.accepted[0]) {
        AllButFirst(c, t, i, r);
        ReceivesUnique(c, t, i + 1, Reception(r.accepted[1..], r.end));
      }
    }
  }

  lemma AllButFirst(c: Setup, t: Transcript, i: nat, r: Reception)
    requires Receives(c, t, i, r) && r.accepted != [] && c.envelopeValid(r.accepted[0])
    ensures i < |t.frames| && Receives(c, t, i + 1, Reception(r.accepted[1..], r.end))
  {
    hide IsExpired, OpenFrame, CounterAt;
    assert Took(c, t, i + 0, r.accepted[0]);
    var rest := r.accepted[1..];
    assert i + 1 + |rest| == i + |r.accepted|;
    forall k: nat | k < |rest| ensures Took(c, t, i + 1 + k, rest[k]) {
      assert Took(c, t, i + (k + 1), r.accepted[k + 1]);
    }
  }

  /** The session at both ends of a stream. */
  ghost predicate SameSession(c: Setup, s: Session) {
    c.material == s.material
  }

  /** Opening the sender's k-th frame under the k-th counter gives the k-th payload back. */
  lemma FrameGivesPayload(aead: Aead, s: Session, k: nat)
    requires Correct(aead) && SessionInv(aead, s) && k < |s.sealed|
    ensures OpenFrame(aead, s.material, CounterAt(s.material, k), s.frames[k]) == Some(s.sealed[k])
  {
    OpenInvertsBuild(aead, s.material, CounterAt(s.material, k), s.sealed[k], s.frames[k]);
  }

  lemma NoMoreThanFrames(c: Setup, t: Transcript)
    ensures |Receive(c, t, 0).accepted| <= |t.frames|
  {
    var n := |Receive(c, t, 0).accepted|;
    if n > 0 {
      AcceptedAreOpened(c, t, 0, n - 1);
    }
  }

  lemma AcceptedFromFrames(c: Setup, s: Session, t: Transcript)
    requires Correct(c.aead) && SessionInv(c.aead, s) && SameSession(c, s)
    requires t.frames <= s.frames
    ensures Receive(c, t, 0).accepted <= s.sealed
  {
    hide Correct, BuildFrame, OpenFrame, Receive, EncodeFrames;
    var accepted := Receive(c, t, 0).accepted;
    forall k: nat | k < |accepted| ensures AgreeAt(accepted, s.sealed, k) {
      AcceptedAreOpened(c, t, 0, k);
      FrameGivesPayload(c.aead, s, k);
    }
    PrefixByIndex(accepted, s.sealed);
  }

  /**
   Over an ordered stream, cut anywhere, with any clock and any envelope checks, a peer accepts a
   prefix of the payloads sealed on that session, unless a header holds a truncated length.
   */
  lemma AcceptsSealedPrefix(c: Setup, s: Session, cut: nat)
    requires Correct(c.aead) && SessionInv(c.aead, s) && SameSession(c, s)
    requires HeadersTell(s.frames) && cut <= |s.wire|
    ensures Receive(c, ReadAll(s.wire[..cut]), 0).accepted <= s.sealed
  {
    assert s.wire[..cut] == EncodeFrames(s.frames)[..cut];
    CutStream(s.frames, cut);
    AcceptedFromFrames(c, s, ReadAll(s.wire[..cut]));
  }

  /** A peer that checks no clock and no envelope. */
  function OpenPeer(aead: Aead, m: SessionMaterial): Setup {
    Setup(aead, m, None, 0, _ => 0, _ => true)
  }

  lemma {:induction false} OpenPeerAcceptsAll(aead: Aead, m: SessionMaterial, t: Transcript, i: nat)
    requires !m.encryptFrames && i <= |t.frames|
    ensures Receive(OpenPeer(aead, m), t, i).accepted == t.frames[i..]
    decreases |t.frames| - i
  {
    if i < |t.frames| {
      OpenPeerAcceptsAll(aead, m, t, i + 1);
      assert t.frames[i..] == [t.frames[i]] + t.frames[i + 1..];
    }
  }

  lemma PlaintextFrames(aead: Aead, s: Session)
    requires SessionInv(aead, s) && !s.material.encryptFrames
    ensures s.frames == s.sealed
    ensures !s.broken ==> s.wire == EncodeFrames(s.frames)
  {
    hide EncodeFrames;
    forall k | 0 <= k < |s.sealed| ensures s.frames[k] == s.sealed[k] {
      assert BuildFrame(aead, s.material, CounterAt(s.material, k), s.sealed[k]) == Some(s.frames[k]);
    }
  }

  /** On a plaintext stream whose writes completed, peers accept only prefixes exactly when the headers tell. */
  lemma PlaintextPrefixIff(aead: Aead, s: Session)
    requires Correct(aead) && SessionInv(aead, s) && !s.material.encryptFrames && !s.broken
    ensures (forall c: Setup, cut: nat :: c.aead == aead && SameSession(c, s) && cut <= |s.wire| ==>
              Receive(c, ReadAll(s.wire[..cut]), 0).accepted <= s.sealed) <==> HeadersTell(s.frames)
  {
    hide Correct, SessionInv, Receive, ReadAll, HeadersTell, EncodeFrames;
    PlaintextFrames(aead, s);
    PrefixReadingIff(s.frames);
    if HeadersTell(s.frames) {
      forall c: Setup, cut: nat | c.aead == aead && SameSession(c, s) && cut <= |s.wire|
        ensures Receive(c, ReadAll(s.wire[..cut]), 0).accepted <= s.sealed
      {
        AcceptsSealedPrefix(c, s, cut);
      }
    } else {
      var cut: nat :| cut <= |s.wire| && !(ReadAll(s.wire[..cut]).frames <= s.frames);
      var t, c := ReadAll(s.wire[..cut]), OpenPeer(aead, s.material);
      OpenPeerAcceptsAll(aead, s.material, t, 0);
      assert t.frames[0..] == t.frames;
      assert SameSession(c, s) && !(Receive(c, t, 0).accepted <= s.sealed);
    }
  }

  /** Every frame of the stream that opens under some counter was built by the sender on this session. */
  ghost predicate Unforged(c: Setup, s: Session, t: Transcript) {
    forall i: nat, counter: u64 ::
      i < |t.frames| && OpenFrame(c.aead, c.material, counter, t.frames[i]).Some? ==> t.frames[i] in s.frames
  }

  /** Under this session's key each of its frames opens under one counter only. */
  ghost predicate OpensOnce(aead: Aead, s: Session) {
    forall j: nat, counter: u64 ::
      j < |s.frames| && OpenFrame(aead, s.material, counter, s.frames[j]).Some? ==> counter == CounterAt(s.material, j)
  }

  /**
   On an encrypted session the same holds over any network at all: dropped, repeated, reordered or
   altered frames never make the peer accept anything but a prefix of what was sealed, up to the
   2^64 frames whose counters are distinct.
   */
  lemma EncryptedAcceptsSealedPrefix(c: Setup, s: Session, input: seq<byte>)
    requires Correct(c.aead) && OpensOnce(c.aead, s) && SessionInv(c.aead, s) && SameSession(c, s)
    requires s.material.encryptFrames && |s.sealed| <= U64_MODULUS
    requires Unforged(c, s, ReadAll(input)) && |ReadAll(input).frames| <= U64_MODULUS
    ensures Receive(c, ReadAll(input), 0).accepted <= s.sealed
  {
    hide Correct, BuildFrame, OpenFrame, Receive, EncodeFrames, ReadAll;
    var t := ReadAll(input);
    var accepted := Receive(c, t, 0).accepted;
    forall k: nat | k < |accepted| ensures AgreeAt(accepted, s.sealed, k) {
      AcceptedAreOpened(c, t, 0, k);
      assert t.frames[k] in s.frames;
      var j :| 0 <= j < |s.frames| && s.frames[j] == t.frames[k];
      assert CounterAt(c.material, k) == CounterAt(c.material, j);
      FrameGivesPayload(c.aead, s, j);
    }
    PrefixByIndex(accepted, s.sealed);
  }

  /** A cipher whose 16-byte tag is the padded nonce: it meets the laws assumed above on every session. */
  function TaggingAead(): Aead {
    Aead(
      (k: HashBytes, n: seq<byte>, ad: seq<byte>, text: seq<byte>) =>
        if |n| == 12 then Some(text + n + [0, 0, 0, 0]) else None,
      (k: HashBytes, n: seq<byte>, ad: seq<byte>, sealed: seq<byte>) =>
        if |n| == 12 && |sealed| >= FRAME_TAG_SIZE_BYTES && sealed[|sealed| - 16..] == n + [0, 0, 0, 0]
        then Some(sealed[..|sealed| - 16]) else None)
  }

  lemma TaggingAeadCorrect()
    ensures Correct(TaggingAead())
  {
    var aead := TaggingAead();
    forall k, n, ad, text, sealed
      ensures aead.open(k, n, ad, sealed) == Some(text) <==> aead.seal(k, n, ad, text) == Some(sealed)
    {
      if aead.open(k, n, ad, sealed) == Some(text) {
        assert sealed == sealed[..|sealed| - 16] + sealed[|sealed| - 16..];
        assert text + n + [0, 0, 0, 0] == text + (n + [0, 0, 0, 0]);
      }
      if aead.seal(k, n, ad, text) == Some(sealed) {
        assert sealed == text + (n + [0, 0, 0, 0]);
        assert sealed[|sealed| - 16..] == n + [0, 0, 0, 0] && sealed[..|sealed| - 16] == text;
      }
    }
  }

  /** What its frames end in: written under a counter, and opened under one. */
  lemma TaggedFrame(m: SessionMaterial, counter: u64, payload: seq<byte>, frame: Frame)
    requires m.encryptFrames
    ensures BuildFrame(TaggingAead(), m, counter, payload) == Some(frame) ==>
              |frame| >= 16 && frame[|frame| - 16..] == FrameNonce(Outbound, counter) + [0, 0, 0, 0]
    ensures OpenFrame(TaggingAead(), m, counter, frame).Some? ==>
              |frame| >= 16 && frame[|frame| - 16..] == FrameNonce(Outbound, counter) + [0, 0, 0, 0]
  {
    hide FrameNonce, FrameAssociatedData;
    var nonce := FrameNonce(Outbound, counter);
    if BuildFrame(TaggingAead(), m, counter, payload) == Some(frame) {
      NonceLength(counter);
      assert frame == payload + (nonce + [0, 0, 0, 0]);
    }
  }

  lemma NonceLength(counter: u64)
    ensures |FrameNonce(Outbound, counter)| == 12
  {
    BeBytesLength(counter, 8);
  }

  lemma PaddingKept(a: seq<byte>, b: seq<byte>, padding: seq<byte>)
    requires a + padding == b + padding
    ensures a == b
  {
    assert |a| == |b|;
    assert a == (a + padding)[..|a|] && b == (b + padding)[..|a|];
  }

  /** So the hypotheses of `EncryptedAcceptsSealedPrefix` can be met, whatever was sealed. */
  lemma TaggingAeadOpensOnce(s: Session)
    requires SessionInv(TaggingAead(), s) && s.material.encryptFrames
    ensures Correct(TaggingAead()) && OpensOnce(TaggingAead(), s)
  {
    hide Correct, TaggingAead, FrameNonce, OpenFrame, BuildFrame, EncodeFrames, CounterAt;
    TaggingAeadCorrect();
    forall j: nat, counter: u64 | j < |s.frames| && OpenFrame(TaggingAead(), s.material, counter, s.frames[j]).Some?
      ensures counter == CounterAt(s.material, j)
    {
      var own := CounterAt(s.material, j);
      TaggedFrame(s.material, own, s.sealed[j], s.frames[j]);
      TaggedFrame(s.material, counter, s.sealed[j], s.frames[j]);
      PaddingKept(FrameNonce(Outbound, own), FrameNonce(Outbound, counter), [0, 0, 0, 0]);
      FrameNonceInjective(Outbound, counter, Outbound, own);
    }
  }

  lemma SameLengths(aead: Aead, s: Session)
    requires SessionInv(aead, s)
    ensures |s.frames| == |s.sealed|
  {
  }

  /** No frame finds its session expired, and every payload passes the envelope checks. */
  ghost predicate Undisturbed(c: Setup, s: Session) {
    forall j: nat :: j < |s.sealed| ==>
      !IsExpired(c.establishedAt, c.ttl, c.clock(j)) && c.envelopeValid(s.sealed[j])
  }

  /** Nothing is lost either: an undisturbed, unexpired stream delivers everything that was sealed. */
  lemma {:induction false} DeliversAll(c: Setup, s: Session, i: nat)
    requires Correct(c.aead) && SessionInv(c.aead, s) && SameSession(c, s)
    requires i <= |s.sealed| && Undisturbed(c, s)
    ensures Receive(c, Transcript(s.frames, StreamClosed), i) == Reception(s.sealed[i..], Closed)
    decreases |s.sealed| - i
  {
    hide Correct, SessionInv, BuildFrame, OpenFrame, CounterAt, IsExpired, EncodeFrames;
    SameLengths(c.aead, s);
    if i < |s.sealed| {
      FrameGivesPayload(c.aead, s, i);
      DeliversAll(c, s, i + 1);
      assert s.sealed[i..] == [s.sealed[i]] + s.sealed[i + 1..];
    }
  }

  lemma WholeWireDelivers(c: Setup, s: Session, cut: nat)
    requires Correct(c.aead) && SessionInv(c.aead, s) && SameSession(c, s) && cut <= |s.wire|
    requires s.wire[..cut] == EncodeFrames(s.frames) && WithinLimit(s.frames) && Undisturbed(c, s)
    ensures Receive(c, ReadAll(s.wire[..cut]), 0) == Reception(s.sealed, Closed)
  {
    hide Correct, IsExpired, BuildFrame, OpenFrame, Receive, ReadAll;
    StreamRoundTripIff(s.frames);
    DeliversAll(c, s, 0);
    assert s.sealed[0..] == s.sealed;
  }

  /**
   End to end, over whole runs of the lane: prefix safety always, and full delivery once everything
   written arrived, as it does on a stream whose writes all completed.
   */
  lemma LaneDelivery(c: Setup, states: seq<LaneState>, events: seq<LaneEvent>, i: nat, k: nat, cut: nat)
    requires Correct(c.aead) && Run(c.aead, states, events) && states[0] == EMPTY_LANE && i <= |events|
    requires k < |states[i].sessions| && c.material == states[i].sessions[k].material
    requires HeadersTell(states[i].sessions[k].frames) && cut <= |states[i].sessions[k].wire|
    ensures var s := states[i].sessions[k];
            && Receive(c, ReadAll(s.wire[..cut]), 0).accepted <= s.sealed
            && (!s.broken && cut == |s.wire| ==> s.wire[..cut] == EncodeFrames(s.frames))
            && (s.wire[..cut] == EncodeFrames(s.frames) && WithinLimit(s.frames) && Undisturbed(c, s) ==>
                  Receive(c, ReadAll(s.wire[..cut]), 0) == Reception(s.sealed, Closed))
  {
    hide Correct, BuildFrame, OpenFrame, Receive, ReadAll, Undisturbed, WithinLimit;
    RunInvariant(c.aead, states, events, i);
    var s := states[i].sessions[k];
    AcceptsSealedPrefix(c, s, cut);
    if s.wire[..cut] == EncodeFrames(s.frames) && WithinLimit(s.frames) && Undisturbed(c, s) {
      WholeWireDelivers(c, s, cut);
    }
  }

  // ---- How often one request is accepted ----

  /** A peer that reads this cut of the stream accepts everything sealed on it: then all of it arrived. */
  lemma AllAcceptedArrived(c: Setup, s: Session, cut: nat)
    requires Correct(c.aead) && SessionInv(c.aead, s) && SameSession(c, s)
    requires HeadersTell(s.frames) && cut <= |s.wire|
    requires |Receive(c, ReadAll(s.wire[..cut]), 0).accepted| >= |s.sealed|
    ensures s.wire == EncodeFrames(s.frames) && WithinLimit(s.frames)
    ensures Receive(c, ReadAll(s.wire[..cut]), 0).accepted == s.sealed
  {
    hide Correct, BuildFrame, OpenFrame, Receive, ReadAll;
    AcceptsSealedPrefix(c, s, cut);
    assert s.wire[..cut] == EncodeFrames(s.frames)[..cut];
    CutStream(s.frames, cut);
    NoMoreThanFrames(c, ReadAll(s.wire[..cut]));
    RecoveredWhole(s.frames, cut);
  }

  /** A peer on stream k, whose headers tell, accepts more than had been sealed there before. */
  ghost predicate AcceptsNew(c: Setup, start: LaneState, end: LaneState, k: nat, cut: nat) {
    && k < |end.sessions| && SameSession(c, end.sessions[k]) && HeadersTell(end.sessions[k].frames)
    && cut <= |end.sessions[k].wire|
    && |Receive(c, ReadAll(end.sessions[k].wire[..cut]), 0).accepted| > |SealedOn(start, k)|
  }

  /** What one call of `send_message` can make the peer of one stream accept: its request, once. */
  lemma AcceptedOncePerStream(
    c: Setup, start: LaneState, end: LaneState, states: seq<LaneState>, events: seq<LaneEvent>, payload: seq<byte>,
    k: nat, cut: nat
  )
    requires Correct(c.aead) && LaneInv(c.aead, start)
    requires SendRun(c.aead, start, end, states, events, payload) && SendShape(events, payload)
    requires AcceptsNew(c, start, end, k, cut)
    ensures k in Sealings(states, events)
    ensures Receive(c, ReadAll(end.sessions[k].wire[..cut]), 0).accepted == SealedOn(start, k) + [payload]
    ensures end.sessions[k].wire == EncodeFrames(end.sessions[k].frames)
  {
    hide Correct, SessionInv, Receive, ReadAll, SendRun, SendShape, HeadersTell, Sealings;
    SendSeals(c.aead, start, end, states, events, payload);
    AcceptsSealedPrefix(c, end.sessions[k], cut);
    AllAcceptedArrived(c, end.sessions[k], cut);
  }

  lemma RunLength(
    aead: Aead, start: LaneState, end: LaneState, states: seq<LaneState>, events: seq<LaneEvent>, payload: seq<byte>
  )
    requires SendRun(aead, start, end, states, events, payload)
    ensures |states| == |events| + 1
  {
  }

  lemma TwoOfTwo(streams: seq<nat>, k: nat, l: nat)
    requires |streams| <= 2 && k != l && k in streams && l in streams
    ensures |streams| == 2 && multiset(streams) == multiset{k, l}
    ensures streams[0] in streams
  {
    assert streams == if |streams| == 2 then [streams[0], streams[1]] else streams;
  }

  /** Some peer, at some point of reading stream k, accepts more than had been sealed there before. */
  ghost predicate CanAcceptNew(aead: Aead, start: LaneState, end: LaneState, k: nat) {
    exists c: Setup, cut: nat :: c.aead == aead && AcceptsNew(c, start, end, k, cut)
  }

  /** All that was sealed on the stream reached the wire, in frames the reader takes. */
  ghost predicate Arrived(s: Session) {
    s.wire == EncodeFrames(s.frames) && WithinLimit(s.frames)
  }

  lemma ArrivedIsAccepted(
    aead: Aead, start: LaneState, end: LaneState, states: seq<LaneState>, events: seq<LaneEvent>, payload: seq<byte>,
    k: nat
  )
    requires Correct(aead) && LaneInv(aead, start)
    requires SendRun(aead, start, end, states, events, payload) && SendShape(events, payload)
    requires k in Sealings(states, events) && k < |end.sessions| && Arrived(end.sessions[k])
    ensures CanAcceptNew(aead, start, end, k)
  {
    hide Correct, Receive, ReadAll, SendRun, SendShape, Sealings, IsExpired, BuildFrame;
    SendSeals(aead, start, end, states, events, payload);
    var s := end.sessions[k];
    var c := OpenPeer(aead, s.material);
    assert s.wire[..|s.wire|] == s.wire;
    ReadsUnlimited(c, s);
    WholeWireDelivers(c, s, |s.wire|);
    LimitedHeadersTell(s.frames);
    assert AcceptsNew(c, start, end, k, |s.wire|);
  }

  lemma ReadsUnlimited(c: Setup, s: Session)
    requires c == OpenPeer(c.aead, s.material)
    ensures Undisturbed(c, s)
  {
  }

  lemma LimitedHeadersTell(frames: seq<Frame>)
    requires WithinLimit(frames)
    ensures HeadersTell(frames)
  {
    FittingHeadersTell(frames);
  }

  lemma AcceptedHasArrived(
    aead: Aead, start: LaneState, end: LaneState, states: seq<LaneState>, events: seq<LaneEvent>, payload: seq<byte>,
    k: nat
  )
    requires Correct(aead) && LaneInv(aead, start)
    requires SendRun(aead, start, end, states, events, payload) && SendShape(events, payload)
    requires CanAcceptNew(aead, start, end, k)
    ensures k in Sealings(states, events) && k < |end.sessions| && Arrived(end.sessions[k])
  {
    hide Correct, SessionInv, Receive, ReadAll, SendRun, SendShape, Sealings, HeadersTell;
    var c: Setup, cut: nat :| c.aead == aead && AcceptsNew(c, start, end, k, cut);
    AcceptedOncePerStream(c, start, end, states, events, payload, k, cut);
    SendSeals(aead, start, end, states, events, payload);
    AllAcceptedArrived(c, end.sessions[k], cut);
  }

  /**
   From any state of the lane: what one send makes a peer accept. A stream can deliver the request exactly
   when it was sealed there and its whole frame, and all before it, reached the wire. So it is accepted on at
   most two streams, and on two exactly when it was sealed on two and both satisfy this; the write to the
   first of the two has then failed.
   */
  lemma AcceptedTwiceIff(
    aead: Aead, start: LaneState, end: LaneState, states: seq<LaneState>, events: seq<LaneEvent>, payload: seq<byte>
  )
    requires Correct(aead) && LaneInv(aead, start)
    requires SendRun(aead, start, end, states, events, payload) && SendShape(events, payload)
    ensures LaneInv(aead, end)
    ensures var streams := Sealings(states, events);
            && (forall k: nat :: CanAcceptNew(aead, start, end, k) <==>
                  k in streams && k < |end.sessions| && Arrived(end.sessions[k]))
            && ((exists k: nat, l: nat ::
                   k != l && CanAcceptNew(aead, start, end, k) && CanAcceptNew(aead, start, end, l)) <==>
                && |streams| == 2 && streams[0] < |end.sessions| && streams[1] < |end.sessions|
                && Arrived(end.sessions[streams[0]]) && Arrived(end.sessions[streams[1]]))
            && |streams| <= 2 && Distinct(streams)
            && (|streams| == 2 ==> streams[0] < |end.sessions| && end.sessions[streams[0]].broken)
  {
    hide Correct, LaneInv, SendRun, SendShape, CanAcceptNew, Arrived, Sealings;
    RunLength(aead, start, end, states, events, payload);
    SendSeals(aead, start, end, states, events, payload);
    var streams := Sealings(states, events);
    forall k: nat
      ensures CanAcceptNew(aead, start, end, k) <==>
              k in streams && k < |end.sessions| && Arrived(end.sessions[k])
    {
      if CanAcceptNew(aead, start, end, k) {
        AcceptedHasArrived(aead, start, end, states, events, payload, k);
      }
      if k in streams && k < |end.sessions| && Arrived(end.sessions[k]) {
        ArrivedIsAccepted(aead, start, end, states, events, payload, k);
      }
    }
    if |streams| == 2 && streams[1] < |end.sessions| &&
       Arrived(end.sessions[streams[0]]) && Arrived(end.sessions[streams[1]])
    {
      assert streams[0] in streams && streams[1] in streams && streams[0] != streams[1];
      assert CanAcceptNew(aead, start, end, streams[0]) && CanAcceptNew(aead, start, end, streams[1]);
    }
    if k: nat, l: nat :| k != l && CanAcceptNew(aead, start, end, k) && CanAcceptNew(aead, start, end, l) {
      TwoOfTwo(streams, k, l);
      assert forall x: nat :: x in multiset(streams) ==> x == k || x == l;
      assert streams[0] in multiset(streams) && streams[1] in multiset(streams);
    }
  }

  function FreshSession(m: SessionMaterial): Session {
    Session(m, None, 0, 0, [], [], [], [], false)
  }

  /** Twice does happen: a write that fails after its last byte, then a retry, and both peers accept the request. */
  lemma AcceptedTwiceHappens(
    c: Setup, payload: seq<byte>, frame: Frame
  ) returns (states: seq<LaneState>, events: seq<LaneEvent>)
    requires Correct(c.aead) && BuildFrame(c.aead, c.material, 0, payload) == Some(frame)
    requires |frame| <= MAX_FRAME_SIZE_BYTES && c.ttl.None? && c.envelopeValid(payload)
    ensures |states| == |events| + 1 && states[0] == EMPTY_LANE
    ensures SendRun(c.aead, EMPTY_LANE, states[|events|], states, events, payload) && SendShape(events, payload)
    ensures var end := states[|events|];
            && |end.sessions| == 2
            && (forall k :: 0 <= k < 2 ==>
                  Receive(c, ReadAll(end.sessions[k].wire), 0) == Reception([payload], Closed))
  {
    hide Correct, BuildFrame, OpenFrame, FrameBytes, Receive, ReadAll, IsExpired;
    var m, size := c.material, |FrameBytes(frame)|;
    var failed := AfterWrite(FreshSession(m), payload, frame, size, true);
    var written := AfterWrite(FreshSession(m), payload, frame, size, false);
    events := [Connected(m, None, 0), WriteFailed(payload, size), Connected(m, None, 0), Wrote(payload)];
    states := [EMPTY_LANE, LaneState([FreshSession(m)], Some(0)), LaneState([failed], None),
               LaneState([failed, FreshSession(m)], Some(1)), LaneState([failed, written], Some(1))];
    SendUnfolds(events);
    SentDelivers(c, failed, payload, frame);
    SentDelivers(c, written, payload, frame);
  }

  lemma SendUnfolds(events: seq<LaneEvent>)
    requires |events| == 4
    requires !IsAttempt(events[0]) && IsAttempt(events[1]) && !IsAttempt(events[2]) && IsAttempt(events[3])
    ensures Attempts(events) == [events[1], events[3]]
  {
    assert events[..3][..2] == events[..2] && events[..2][..1] == events[..1] && events[..1][..0] == [];
    assert Attempts(events[..1]) == [];
    assert Attempts(events[..2]) == [events[1]];
    assert Attempts(events[..3]) == [events[1]];
  }

  /** A session that sealed one frame, all of which reached the wire. */
  lemma SentDelivers(c: Setup, s: Session, payload: seq<byte>, frame: Frame)
    requires Correct(c.aead) && BuildFrame(c.aead, c.material, 0, payload) == Some(frame)
    requires |frame| <= MAX_FRAME_SIZE_BYTES && c.ttl.None? && c.envelopeValid(payload)
    requires s.material == c.material && s.sealed == [payload] && s.counters == [0] && s.frames == [frame]
    requires s.sendCounter == NextCounter(s.material, 0) && s.wire == FrameBytes(frame)
    ensures Receive(c, ReadAll(s.wire), 0) == Reception([payload], Closed)
  {
    hide Correct, BuildFrame, OpenFrame, FrameBytes, Receive, ReadAll;
    assert EncodeFrames([frame]) == FrameBytes(frame) + EncodeFrames([]);
    assert s.wire == EncodeFrames(s.frames) && s.wire[..|s.wire|] == s.wire;
    WholeWireDelivers(c, s, |s.wire|);
  }
}
