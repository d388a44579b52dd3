/** From start-up to delivery: two built nodes, the handshake that opened their lane, and what arrives. */
module EndToEnd {
  import opened Prelude
  import opened Containers
  import opened Framing
  import opened Lane
  import opened Inbound
  import opened Signing
  import opened Backend
  import opened Handshake
  import opened Authentication

  /** Two nodes of one genesis completed a handshake; the hello is the one the first node built. */
  ghost predicate Connect(
    w: World, genesis: seq<Validator>, a: NodeConfig, b: NodeConfig, nonce: HashBytes, random: seq<byte>
  ) {
    && BuildCryptoBackend(w.p, genesis, a).Ok? && BuildCryptoBackend(w.p, genesis, b).Ok?
    && var hello := BuildClientHello(w, Node(w, genesis, a), a.validatorId, b.validatorId, nonce);
       hello.Ok? && Completes(w, Node(w, genesis, a), Node(w, genesis, b), hello.value, random)
  }

  function SenderMaterial(
    w: World, genesis: seq<Validator>, a: NodeConfig, b: NodeConfig, nonce: HashBytes, random: seq<byte>
  ): SessionMaterial
    requires Connect(w, genesis, a, b, nonce, random)
  {
    var ch := BuildClientHello(w, Node(w, genesis, a), a.validatorId, b.validatorId, nonce).value;
    var sh := Accept(w, Node(w, genesis, b), ch.responder, ch, random).value.0;
    Finalize(w, Node(w, genesis, a), ch.initiator, ch, sh).value
  }

  function ReceiverMaterial(
    w: World, genesis: seq<Validator>, a: NodeConfig, b: NodeConfig, nonce: HashBytes, random: seq<byte>
  ): SessionMaterial
    requires Connect(w, genesis, a, b, nonce, random)
  {
    var ch := BuildClientHello(w, Node(w, genesis, a), a.validatorId, b.validatorId, nonce).value;
    Accept(w, Node(w, genesis, b), ch.responder, ch, random).value.1
  }

  /** The laws the key exchange needs: well-formed ciphertexts, and a pair in the initiator's key file. */
  ghost predicate KemLaws(w: World, a: NodeConfig) {
    && WellFormedCiphertexts(w.kem)
    && (a.sessionKind.HybridDeterministicMlKemExperimental? && a.sessionKeyFile.Some? ==>
          KemPair(w.kem, a.sessionKeyFile.value))
  }

  lemma BuiltSessionKeys(p: Primitives, genesis: seq<Validator>, config: NodeConfig)
    requires BuildCryptoBackend(p, genesis, config).Ok?
    ensures var session := BuildCryptoBackend(p, genesis, config).value.session;
            && (session.HybridSession? <==> config.sessionKind.HybridDeterministicMlKemExperimental?)
            && (session.HybridSession? ==> config.sessionKeyFile == Some(session.keys))
  {
    hide BuildSigner, VerifyingKeys;
    var first, last := BuiltBackend(p, genesis, config);
  }

  /** The material the two nodes hold is the same, for every kind of node. */
  lemma SameMaterial(
    w: World, genesis: seq<Validator>, a: NodeConfig, b: NodeConfig, nonce: HashBytes, random: seq<byte>
  )
    requires Connect(w, genesis, a, b, nonce, random) && KemLaws(w, a)
    ensures SenderMaterial(w, genesis, a, b, nonce, random) == ReceiverMaterial(w, genesis, a, b, nonce, random)
  {
    hide Accept, Finalize, BuildClientHello, BuildCryptoBackend, KemPair, WellFormedCiphertexts;
    var client := Node(w, genesis, a);
    BuiltSessionIsLoaded(w.p, genesis, a);
    BuiltSessionIsLoaded(w.p, genesis, b);
    BuiltSessionKeys(w.p, genesis, a);
    SharedRing(w.p, genesis, a, b);
    BuiltHelloIsOwn(w, client, a.validatorId, b.validatorId, nonce);
    var ch := BuildClientHello(w, client, a.validatorId, b.validatorId, nonce).value;
    HandshakeAgreement(w, client, Node(w, genesis, b), ch, random);
  }

  // ---- The hellos on their way ----

  /** Every session identity of genesis is as the checked constructors build them. */
  ghost predicate GenesisWellFormed(genesis: seq<Validator>) {
    forall v :: v in genesis && v.sessionIdentity.Some? ==>
      WellFormed(SessionKeyScheme.Hybrid, v.sessionIdentity.value)
  }

  lemma NodeIdentityWellFormed(w: World, genesis: seq<Validator>, config: NodeConfig)
    requires BuildCryptoBackend(w.p, genesis, config).Ok? && GenesisWellFormed(genesis)
    ensures WellFormed(SessionKeyScheme.Hybrid, LocalSessionIdentity(Node(w, genesis, config), config.validatorId))
  {
    hide BuildSigner, VerifyingKeys, Decimal, Ascii, AdvertisedMlKem, ValidComponents;
    var first, last := BuiltBackend(w.p, genesis, config);
    var i := FoundInGenesis(genesis, config.validatorId);
    assert first in genesis;
  }

  /** Both hellos of a connection decode to themselves, so the two ends really work on the same values. */
  lemma ConnectOverWire(
    w: World, codecs: Codecs, genesis: seq<Validator>, a: NodeConfig, b: NodeConfig, nonce: HashBytes, random: seq<byte>
  )
    requires Connect(w, genesis, a, b, nonce, random) && BothDelimit(codecs) && GenesisWellFormed(genesis)
    ensures var ch := BuildClientHello(w, Node(w, genesis, a), a.validatorId, b.validatorId, nonce).value;
            var sh := Accept(w, Node(w, genesis, b), b.validatorId, ch, random).value.0;
            && DecodeHello(codecs, EncodeHello(codecs, ch)) == Ok(ch)
            && DecodeReply(codecs, EncodeReply(codecs, sh)) == Ok(sh)
  {
    hide BuildCryptoBackend, PartySign, LocalSessionIdentity, Accept, Finalize, WellFormed, BothDelimit,
         DecodeHello, DecodeReply, EncodeHello, EncodeReply, GenesisWellFormed;
    NodeIdentityWellFormed(w, genesis, a);
    NodeIdentityWellFormed(w, genesis, b);
    HelloOnWire(w, codecs, Node(w, genesis, a), a.validatorId, b.validatorId, nonce);
    var ch := BuildClientHello(w, Node(w, genesis, a), a.validatorId, b.validatorId, nonce).value;
    ReplyOnWire(w, codecs, Node(w, genesis, b), b.validatorId, ch, random);
  }

  // ---- Delivery ----

  /** The receiving end of a connection: the responder's material, and the limit its configuration sets. */
  ghost predicate ReceivesFor(
    c: Setup, w: World, genesis: seq<Validator>, a: NodeConfig, b: NodeConfig, nonce: HashBytes, random: seq<byte>,
    configured: Option<u64>
  )
    requires Connect(w, genesis, a, b, nonce, random)
  {
    c.material == ReceiverMaterial(w, genesis, a, b, nonce, random) && c.ttl == EffectiveTtl(configured, c.material)
  }

  /** Every frame is read before the session's age reaches its limit, where it has one. */
  ghost predicate ReadInTime(c: Setup, configured: Option<u64>, count: nat) {
    var limit := if configured.Some? then configured.value else DEFAULT_HYBRID_SESSION_TTL_MILLIS;
    c.material.encryptFrames && configured != Some(0) ==>
      forall j: nat :: j < count ==> c.clock(j) < c.establishedAt + limit
  }

  lemma InTimeIsUndisturbed(c: Setup, s: Session, configured: Option<u64>)
    requires c.ttl == EffectiveTtl(configured, c.material) && ReadInTime(c, configured, |s.sealed|)
    requires forall j: nat :: j < |s.sealed| ==> c.envelopeValid(s.sealed[j])
    ensures Undisturbed(c, s)
  {
    hide IsExpired, EffectiveTtl;
    forall j: nat | j < |s.sealed| ensures !IsExpired(c.establishedAt, c.ttl, c.clock(j)) {
      ExpiryExact(configured, c.material, c.establishedAt, c.clock(j));
    }
  }

  /**
   Two nodes built from one genesis, of any kinds, that completed a handshake: on the lane session it
   opened, in every reachable state of the lane, the responder accepts a prefix of what the initiator
   sealed, and all of it once everything arrived in time.
   */
  lemma HandshakeDelivery(
    w: World, genesis: seq<Validator>, a: NodeConfig, b: NodeConfig, nonce: HashBytes, random: seq<byte>,
    c: Setup, configured: Option<u64>, states: seq<LaneState>, events: seq<LaneEvent>, i: nat, k: nat, cut: nat
  )
    requires Connect(w, genesis, a, b, nonce, random) && KemLaws(w, a)
    requires ReceivesFor(c, w, genesis, a, b, nonce, random, configured)
    requires Correct(c.aead) && Run(c.aead, states, events) && states[0] == EMPTY_LANE && i <= |events|
    requires k < |states[i].sessions|
    requires states[i].sessions[k].material == SenderMaterial(w, genesis, a, b, nonce, random)
    requires HeadersTell(states[i].sessions[k].frames) && cut <= |states[i].sessions[k].wire|
    ensures var s := states[i].sessions[k];
            && Receive(c, ReadAll(s.wire[..cut]), 0).accepted <= s.sealed
            && (&& s.wire[..cut] == EncodeFrames(s.frames) && WithinLimit(s.frames)
                && ReadInTime(c, configured, |s.sealed|)
                && (forall j: nat :: j < |s.sealed| ==> c.envelopeValid(s.sealed[j]))
                ==> Receive(c, ReadAll(s.wire[..cut]), 0) == Reception(s.sealed, Closed))
  {
    hide Correct, Connect, SenderMaterial, ReceiverMaterial, Receive, KemLaws, HeadersTell, EncodeFrames, WithinLimit;
    SameMaterial(w, genesis, a, b, nonce, random);
    DeliveryOfSession(c, configured, states, events, i, k, cut);
  }

  lemma DeliveryOfSession(
    c: Setup, configured: Option<u64>, states: seq<LaneState>, events: seq<LaneEvent>, i: nat, k: nat, cut: nat
  )
    requires Correct(c.aead) && Run(c.aead, states, events) && states[0] == EMPTY_LANE && i <= |events|
    requires k < |states[i].sessions| && c.material == states[i].sessions[k].material
    requires c.ttl == EffectiveTtl(configured, c.material)
    requires HeadersTell(states[i].sessions[k].frames) && cut <= |states[i].sessions[k].wire|
    ensures var s := states[i].sessions[k];
            && Receive(c, ReadAll(s.wire[..cut]), 0).accepted <= s.sealed
            && (&& s.wire[..cut] == EncodeFrames(s.frames) && WithinLimit(s.frames)
                && ReadInTime(c, configured, |s.sealed|)
                && (forall j: nat :: j < |s.sealed| ==> c.envelopeValid(s.sealed[j]))
                ==> Receive(c, ReadAll(s.wire[..cut]), 0) == Reception(s.sealed, Closed))
  {
    hide Correct, Receive, ReadAll, Step, HeadersTell, EncodeFrames, WithinLimit, EffectiveTtl, Undisturbed, ReadInTime;
    var s := states[i].sessions[k];
    LaneDelivery(c, states, events, i, k, cut);
    if ReadInTime(c, configured, |s.sealed|) && forall j: nat :: j < |s.sealed| ==> c.envelopeValid(s.sealed[j]) {
      InTimeIsUndisturbed(c, s, configured);
    }
  }

  /** Between two hybrid nodes the prefix also holds over a network that drops, repeats, reorders or alters frames. */
  lemma HandshakeSecures(
    w: World, genesis: seq<Validator>, a: NodeConfig, b: NodeConfig, nonce: HashBytes, random: seq<byte>,
    c: Setup, configured: Option<u64>, states: seq<LaneState>, events: seq<LaneEvent>, i: nat, k: nat, input: seq<byte>
  )
    requires Connect(w, genesis, a, b, nonce, random) && KemLaws(w, a)
    requires a.sessionKind.HybridDeterministicMlKemExperimental?
    requires ReceivesFor(c, w, genesis, a, b, nonce, random, configured)
    requires Correct(c.aead) && Run(c.aead, states, events) && states[0] == EMPTY_LANE && i <= |events|
    requires k < |states[i].sessions|
    requires states[i].sessions[k].material == SenderMaterial(w, genesis, a, b, nonce, random)
    requires OpensOnce(c.aead, states[i].sessions[k]) && |states[i].sessions[k].sealed| <= U64_MODULUS
    requires Unforged(c, states[i].sessions[k], ReadAll(input)) && |ReadAll(input).frames| <= U64_MODULUS
    ensures Receive(c, ReadAll(input), 0).accepted <= states[i].sessions[k].sealed
  {
    hide Correct, OpensOnce, Unforged, Connect, SenderMaterial, ReceiverMaterial, SessionInv, Receive, KemLaws;
    SameMaterial(w, genesis, a, b, nonce, random);
    HybridEncrypts(w, genesis, a, b, nonce, random);
    RunInvariant(c.aead, states, events, i);
    EncryptedAcceptsSealedPrefix(c, states[i].sessions[k], input);
  }

  lemma HybridEncrypts(
    w: World, genesis: seq<Validator>, a: NodeConfig, b: NodeConfig, nonce: HashBytes, random: seq<byte>
  )
    requires Connect(w, genesis, a, b, nonce, random) && a.sessionKind.HybridDeterministicMlKemExperimental?
    ensures SenderMaterial(w, genesis, a, b, nonce, random).encryptFrames
  {
    hide Accept, Finalize, Derive, DeterministicComponent, BuildClientHello, BuildCryptoBackend, AnswerKem, OpenKem;
    BuiltSessionKeys(w.p, genesis, a);
    var client, server := Node(w, genesis, a), Node(w, genesis, b);
    var ch := BuildClientHello(w, client, a.validatorId, b.validatorId, nonce).value;
    var sh := Accept(w, server, ch.responder, ch, random).value.0;
    BothEnds(w, client, server, ch, random);
    DeriveEncrypts(w, DeterministicComponent(w, client.Ring(), ch.initiator, ch.responder, ch.nonce).value,
                   OpenKem(w, client, sh).value, ch, sh, client.Hybrid());
  }
}
