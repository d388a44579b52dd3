/** The session handshake: hellos, the two ends' checks, and the key material they derive. */
module Handshake {
  import opened Prelude
  import opened Bytes
  import opened Sequences
  import opened Containers
  import opened Signing
  import opened Backend
  import opened Lane

  datatype ClientHello = ClientHello(
    initiator: ValidatorId,
    responder: ValidatorId,
    nonce: HashBytes,
    sessionIdentity: SessionPublicIdentity,
    kemMaterial: seq<byte>,
    signature: TypedSignature
  )

  datatype ServerHello = ServerHello(
    responder: ValidatorId,
    initiator: ValidatorId,
    nonce: HashBytes,
    sessionIdentity: SessionPublicIdentity,
    kemCiphertext: seq<byte>,
    signature: TypedSignature
  )

  /** bincode of the hellos; the signing forms leave the signature out. */
  datatype Encoding = Encoding(
    clientFields: (ValidatorId, ValidatorId, HashBytes, SessionPublicIdentity, seq<byte>) -> seq<byte>,
    serverFields: (seq<byte>, ValidatorId, ValidatorId, HashBytes, SessionPublicIdentity, seq<byte>) -> seq<byte>,
    clientHello: ClientHello -> seq<byte>,
    serverHello: ServerHello -> seq<byte>
  )

  /** ML-KEM-768; encapsulation draws its randomness from the last argument. */
  datatype Kem = Kem(
    encapsulationKeyDecodes: seq<byte> -> bool,
    decapsulationKeyDecodes: seq<byte> -> bool,
    ciphertextDecodes: seq<byte> -> bool,
    encapsulate: (seq<byte>, seq<byte>) -> (seq<byte>, seq<byte>),
    decapsulate: (seq<byte>, seq<byte>) -> seq<byte>
  )

  /** Ciphertexts have one fixed, positive length, and encapsulation makes well-formed ones. */
  ghost predicate WellFormedCiphertexts(kem: Kem) {
    && (forall c :: kem.ciphertextDecodes(c) ==> c != [])
    && (forall key, random ::
          kem.encapsulationKeyDecodes(key) ==> kem.ciphertextDecodes(kem.encapsulate(key, random).0))
  }

  /** Section 7 of FIPS 203: a key pair decapsulates what was encapsulated to it. */
  ghost predicate KemPair(kem: Kem, keys: MlKemKeyFile) {
    forall random :: Recovers(kem, keys, random)
  }

  predicate Recovers(kem: Kem, keys: MlKemKeyFile, random: seq<byte>) {
    var (ciphertext, secret) := kem.encapsulate(keys.encapsulationKey, random);
    kem.decapsulate(keys.decapsulationKey, ciphertext) == secret
  }

  datatype World = World(p: Primitives, enc: Encoding, kem: Kem)

  datatype HandshakeError =
    | NotForUs
    | UnexpectedSessionIdentity
    | SignatureRejected
    | UnexpectedKemMaterial
    | MissingKemMaterial
    | KemMaterialMismatch
    | TranscriptMismatch
    | UndecodableKemMaterial
    | Crypto(error: CryptoError)

  /** A node runs either the plain deterministic backend or a configured one. */
  datatype Party =
    | Plain(ring: KeyRing)
    | Configured(backend: ConfiguredBackend)
  {
    function Ring(): KeyRing {
      if Plain? then ring else backend.ring
    }

    predicate Hybrid() {
      Configured? && backend.session.HybridSession?
    }
  }

  function DeterministicSessionIdentity(id: ValidatorId): SessionPublicIdentity {
    Single(SessionKeyScheme.DevDeterministic, Ascii("session-validator-") + Decimal(id))
  }

  function PartySign(w: World, party: Party, id: ValidatorId, message: Message): Result<TypedSignature, CryptoError> {
    match party
    case Plain(ring) => DeterministicSign(w.p, ring, id, message)
    case Configured(b) => Sign(w.p, b.ring, b.signer, b.localId, id, message)
  }

  function PartyVerify(
    w: World, party: Party, id: ValidatorId, message: Message, signature: TypedSignature
  ): Result<bool, CryptoError> {
    match party
    case Configured(b) => Verify(w.p, b.ring, id, message, signature)
    case Plain(ring) =>
      if !signature.scheme.DevDeterministic? then Ok(false)
      else match DeterministicSign(w.p, ring, id, message)
        case Err(e) => Err(e)
        case Ok(expected) => Ok(expected == signature)
  }

  // ---- Session material ----

  /** `open_session`: the pair of ids and secrets in ascending id order, so both ends agree. */
  function DeterministicComponent(w: World, ring: KeyRing, local: ValidatorId, peer: ValidatorId, nonce: HashBytes):
    Result<HashBytes, HandshakeError>
  {
    if local !in ring.secrets || peer !in ring.secrets then Err(Crypto(UnknownValidator))
    else
      var (first, second) := if local <= peer then (local, peer) else (peer, local);
      var transcript := w.p.hashMany([Ascii("entangrid-session"), LeBytes(first, 8), ring.secrets[first],
                                      LeBytes(second, 8), ring.secrets[second], nonce]);
      Ok(w.p.hashMany([Ascii("session-key"), transcript]))
  }

  function TranscriptHash(w: World, ch: ClientHello, sh: ServerHello): HashBytes {
    w.p.hashMany([Ascii("entangrid-session-transcript"), w.enc.clientHello(ch), w.enc.serverHello(sh)])
  }

  function Derive(
    w: World, deterministic: HashBytes, kem: seq<byte>, ch: ClientHello, sh: ServerHello, encrypt: bool
  ): SessionMaterial {
    var transcript := TranscriptHash(w, ch, sh);
    var key := w.p.hashMany([Ascii("entangrid-session-key-v2"), deterministic, kem, transcript]);
    SessionMaterial(key, transcript, encrypt)
  }

  lemma DeriveEncrypts(
    w: World, deterministic: HashBytes, kem: seq<byte>, ch: ClientHello, sh: ServerHello, encrypt: bool
  )
    ensures Derive(w, deterministic, kem, ch, sh, encrypt).encryptFrames == encrypt
  {
  }

  // ---- Client hello ----

  function ClientSigningMessage(w: World, ch: ClientHello): Message {
    w.enc.clientFields(ch.initiator, ch.responder, ch.nonce, ch.sessionIdentity, ch.kemMaterial)
  }

  function ServerSigningMessage(w: World, ch: ClientHello, sh: ServerHello): Message {
    w.enc.serverFields(
      ClientSigningMessage(w, ch), sh.responder, sh.initiator, sh.nonce, sh.sessionIdentity, sh.kemCiphertext)
  }

  const UNSIGNED: TypedSignature := Single(SignatureScheme.DevDeterministic, [])

  function LocalSessionIdentity(party: Party, id: ValidatorId): SessionPublicIdentity {
    if party.Hybrid() then party.backend.session.identity else DeterministicSessionIdentity(id)
  }

  function UnsignedClientHello(party: Party, local: ValidatorId, peer: ValidatorId, nonce: HashBytes): ClientHello {
    ClientHello(local, peer, nonce, LocalSessionIdentity(party, local),
                if party.Hybrid() then party.backend.session.keys.encapsulationKey else [], UNSIGNED)
  }

  function BuildClientHello(
    w: World, party: Party, local: ValidatorId, peer: ValidatorId, nonce: HashBytes
  ): Result<ClientHello, HandshakeError> {
    var unsigned := UnsignedClientHello(party, local, peer, nonce);
    match PartySign(w, party, local, ClientSigningMessage(w, unsigned))
    case Err(e) => Err(Crypto(e))
    case Ok(signature) => Ok(unsigned.(signature := signature))
  }

  // ---- Responder ----

  function SignatureCheck(r: Result<bool, CryptoError>): Option<HandshakeError> {
    match r
    case Err(e) => Some(Crypto(e))
    case Ok(verified) => if verified then None else Some(SignatureRejected)
  }

  /** `verify_expected_session_identity`: genesis decides, when it names a session identity at all. */
  function GenesisIdentityCheck(
    b: ConfiguredBackend, id: ValidatorId, advertised: SessionPublicIdentity
  ): Option<HandshakeError> {
    if id !in b.sessionIdentities then Some(Crypto(UnknownValidator))
    else
      var expected := b.sessionIdentities[id];
      if expected.Some? && expected.value != advertised then Some(UnexpectedSessionIdentity) else None
  }

  datatype KemAnswer = KemAnswer(secret: seq<byte>, ciphertext: seq<byte>)

  /** The responder's session-backend checks on a client hello, and its half of the key exchange. */
  function AnswerKem(w: World, party: Party, ch: ClientHello, random: seq<byte>): Result<KemAnswer, HandshakeError> {
    if !party.Hybrid() then
      if party.Configured? && ch.kemMaterial != [] then Err(UnexpectedKemMaterial)
      else if ch.sessionIdentity != DeterministicSessionIdentity(ch.initiator) then Err(UnexpectedSessionIdentity)
      else Ok(KemAnswer([], []))
    else
      match GenesisIdentityCheck(party.backend, ch.initiator, ch.sessionIdentity)
      case Some(e) => Err(e)
      case None =>
        match AdvertisedMlKem(ch.sessionIdentity)
        case None => Err(MissingKemMaterial)
        case Some(expected) =>
          if ch.kemMaterial != expected then Err(KemMaterialMismatch)
          else if !w.kem.encapsulationKeyDecodes(ch.kemMaterial) then Err(UndecodableKemMaterial)
          else var (ciphertext, secret) := w.kem.encapsulate(ch.kemMaterial, random); Ok(KemAnswer(secret, ciphertext))
  }

  function FinishAccept(w: World, party: Party, local: ValidatorId, ch: ClientHello, answer: KemAnswer):
    Result<(ServerHello, SessionMaterial), HandshakeError>
  {
    var identity := LocalSessionIdentity(party, local);
    var unsigned := ServerHello(local, ch.initiator, ch.nonce, identity, answer.ciphertext, UNSIGNED);
    match PartySign(w, party, local, ServerSigningMessage(w, ch, unsigned))
    case Err(e) => Err(Crypto(e))
    case Ok(signature) =>
      var sh := unsigned.(signature := signature);
      match DeterministicComponent(w, party.Ring(), local, ch.initiator, ch.nonce)
      case Err(e) => Err(e)
      case Ok(deterministic) => Ok((sh, Derive(w, deterministic, answer.secret, ch, sh, party.Hybrid())))
  }

  /** `accept_client_hello`; the plain backend checks the session identity before the signature. */
  function Accept(w: World, party: Party, local: ValidatorId, ch: ClientHello, random: seq<byte>):
    Result<(ServerHello, SessionMaterial), HandshakeError>
  {
    if ch.responder != local then Err(NotForUs)
    else
      var signature := SignatureCheck(PartyVerify(w, party, ch.initiator, ClientSigningMessage(w, ch), ch.signature));
      var answer := AnswerKem(w, party, ch, random);
      if party.Plain? then
        if answer.Err? then Err(answer.error)
        else if signature.Some? then Err(signature.value)
        else FinishAccept(w, party, local, ch, answer.value)
      else
        if signature.Some? then Err(signature.value)
        else if answer.Err? then Err(answer.error)
        else FinishAccept(w, party, local, ch, answer.value)
  }

  // ---- Initiator ----

  /** The initiator's session-backend checks on a server hello, and its half of the key exchange. */
  function OpenKem(w: World, party: Party, sh: ServerHello): Result<seq<byte>, HandshakeError> {
    if !party.Hybrid() then
      if party.Configured? && sh.kemCiphertext != [] then Err(UnexpectedKemMaterial)
      else if sh.sessionIdentity != DeterministicSessionIdentity(sh.responder) then Err(UnexpectedSessionIdentity)
      else Ok([])
    else
      match GenesisIdentityCheck(party.backend, sh.responder, sh.sessionIdentity)
      case Some(e) => Err(e)
      case None =>
        var keys := party.backend.session.keys;
        if !w.kem.decapsulationKeyDecodes(keys.decapsulationKey) || !w.kem.ciphertextDecodes(sh.kemCiphertext)
        then Err(UndecodableKemMaterial)
        else Ok(w.kem.decapsulate(keys.decapsulationKey, sh.kemCiphertext))
  }

  function FinishFinalize(
    w: World, party: Party, local: ValidatorId, ch: ClientHello, sh: ServerHello, secret: seq<byte>
  ): Result<SessionMaterial, HandshakeError> {
    match DeterministicComponent(w, party.Ring(), local, sh.responder, ch.nonce)
    case Err(e) => Err(e)
    case Ok(deterministic) => Ok(Derive(w, deterministic, secret, ch, sh, party.Hybrid()))
  }

  /** `finalize_client_session`. */
  function Finalize(
    w: World, party: Party, local: ValidatorId, ch: ClientHello, sh: ServerHello
  ): Result<SessionMaterial, HandshakeError> {
    if ch.initiator != local then Err(NotForUs)
    else if sh.initiator != local || sh.responder != ch.responder || sh.nonce != ch.nonce then Err(TranscriptMismatch)
    else
      var message := ServerSigningMessage(w, ch, sh);
      var signature := SignatureCheck(PartyVerify(w, party, sh.responder, message, sh.signature));
      var secret := OpenKem(w, party, sh);
      if party.Plain? then
        if secret.Err? then Err(secret.error)
        else if signature.Some? then Err(signature.value)
        else FinishFinalize(w, party, local, ch, sh, secret.value)
      else
        if signature.Some? then Err(signature.value)
        else if secret.Err? then Err(secret.error)
        else FinishFinalize(w, party, local, ch, sh, secret.value)
  }

  // ---- Agreement ----

  /** What acceptance and finalization on one transcript leave behind. */
  lemma BothEnds(w: World, client: Party, server: Party, ch: ClientHello, random: seq<byte>)
    requires Accept(w, server, ch.responder, ch, random).Ok?
    ensures var (sh, material) := Accept(w, server, ch.responder, ch, random).value;
            && AnswerKem(w, server, ch, random).Ok?
            && sh.responder == ch.responder && sh.initiator == ch.initiator && sh.nonce == ch.nonce
            && sh.kemCiphertext == AnswerKem(w, server, ch, random).value.ciphertext
            && sh.sessionIdentity == LocalSessionIdentity(server, ch.responder)
            && DeterministicComponent(w, server.Ring(), ch.responder, ch.initiator, ch.nonce).Ok?
            && material ==
               Derive(w, DeterministicComponent(w, server.Ring(), ch.responder, ch.initiator, ch.nonce).value,
                      AnswerKem(w, server, ch, random).value.secret, ch, sh, server.Hybrid())
            && (Finalize(w, client, ch.initiator, ch, sh).Ok? ==>
                  && OpenKem(w, client, sh).Ok?
                  && DeterministicComponent(w, client.Ring(), ch.initiator, ch.responder, ch.nonce).Ok?
                  && Finalize(w, client, ch.initiator, ch, sh).value ==
                     Derive(w, DeterministicComponent(w, client.Ring(), ch.initiator, ch.responder, ch.nonce).value,
                            OpenKem(w, client, sh).value, ch, sh, client.Hybrid()))
  {
    hide Derive, DeterministicComponent, AnswerKem, OpenKem, PartySign, PartyVerify, LocalSessionIdentity;
  }

  /** Completing means having checked: addressee, transcript, peer signature, and the genesis session identity. */
  lemma CompletionChecks(
    w: World, client: Party, server: Party, ch: ClientHello, sh: ServerHello, local: ValidatorId, random: seq<byte>
  )
    ensures Accept(w, server, local, ch, random).Ok? ==>
              && local == ch.responder
              && PartyVerify(w, server, ch.initiator, ClientSigningMessage(w, ch), ch.signature) == Ok(true)
              && (server.Hybrid() ==> GenesisIdentityCheck(server.backend, ch.initiator, ch.sessionIdentity).None?
                                      && AdvertisedMlKem(ch.sessionIdentity) == Some(ch.kemMaterial))
              && (!server.Hybrid() ==> ch.sessionIdentity == DeterministicSessionIdentity(ch.initiator))
    ensures Finalize(w, client, local, ch, sh).Ok? ==>
              && local == ch.initiator == sh.initiator && sh.responder == ch.responder && sh.nonce == ch.nonce
              && PartyVerify(w, client, ch.responder, ServerSigningMessage(w, ch, sh), sh.signature) == Ok(true)
              && (client.Hybrid() ==> GenesisIdentityCheck(client.backend, ch.responder, sh.sessionIdentity).None?)
              && (!client.Hybrid() ==> sh.sessionIdentity == DeterministicSessionIdentity(ch.responder))
  {
    hide PartyVerify, PartySign, Derive, DeterministicComponent, DeterministicSessionIdentity, AdvertisedMlKem;
  }

  // ---- When each end completes ----

  /** What a session identity must be for a peer without ML-KEM. */
  predicate NamedSession(identity: SessionPublicIdentity, id: ValidatorId) {
    identity == Bundle(SessionKeyScheme.DevDeterministic, Ascii("session-validator-") + Decimal(id), [])
  }

  /** What genesis lists for this validator, where it lists a session identity at all. */
  predicate ListedSession(b: ConfiguredBackend, id: ValidatorId, identity: SessionPublicIdentity) {
    && id in b.sessionIdentities
    && (b.sessionIdentities[id] == None || b.sessionIdentities[id] == Some(identity))
  }

  /** The responder's session checks on a client hello. */
  predicate HelloFits(w: World, server: Party, ch: ClientHello) {
    if server.Hybrid() then
      && ListedSession(server.backend, ch.initiator, ch.sessionIdentity)
      && ShowsKemKey(ch.sessionIdentity, ch.kemMaterial)
      && w.kem.encapsulationKeyDecodes(ch.kemMaterial)
    else NamedSession(ch.sessionIdentity, ch.initiator) && (server.Configured? ==> ch.kemMaterial == [])
  }

  /** The initiator's session checks on a server hello. */
  predicate ReplyFits(w: World, client: Party, sh: ServerHello) {
    if client.Hybrid() then
      && ListedSession(client.backend, sh.responder, sh.sessionIdentity)
      && w.kem.decapsulationKeyDecodes(client.backend.session.keys.decapsulationKey)
      && w.kem.ciphertextDecodes(sh.kemCiphertext)
    else NamedSession(sh.sessionIdentity, sh.responder) && (client.Configured? ==> sh.kemCiphertext == [])
  }

  lemma AnswersIff(w: World, server: Party, ch: ClientHello, random: seq<byte>)
    ensures AnswerKem(w, server, ch, random).Ok? <==> HelloFits(w, server, ch)
    ensures AnswerKem(w, server, ch, random).Ok? ==>
              var answer := AnswerKem(w, server, ch, random).value;
              if server.Hybrid() then (answer.ciphertext, answer.secret) == w.kem.encapsulate(ch.kemMaterial, random)
              else answer.ciphertext == [] && answer.secret == []
  {
    hide Ascii, Decimal, FindComponent;
  }

  lemma OpensIff(w: World, client: Party, sh: ServerHello)
    ensures OpenKem(w, client, sh).Ok? <==> ReplyFits(w, client, sh)
    ensures OpenKem(w, client, sh).Ok? ==>
              OpenKem(w, client, sh).value ==
              if client.Hybrid()
              then w.kem.decapsulate(client.backend.session.keys.decapsulationKey, sh.kemCiphertext) else []
  {
    hide Ascii, Decimal;
  }

  lemma ComponentIff(w: World, ring: KeyRing, local: ValidatorId, peer: ValidatorId, nonce: HashBytes)
    ensures DeterministicComponent(w, ring, local, peer, nonce).Ok? <==>
            local in ring.secrets && peer in ring.secrets
  {
  }

  /** The reply a responder signs: its own id, the initiator's id and nonce, its identity, the ciphertext. */
  function ReplyTo(w: World, server: Party, local: ValidatorId, ch: ClientHello, random: seq<byte>): ServerHello {
    ServerHello(
      local, ch.initiator, ch.nonce,
      if server.Hybrid() then server.backend.session.identity
      else Bundle(SessionKeyScheme.DevDeterministic, Ascii("session-validator-") + Decimal(local), []),
      if server.Hybrid() then w.kem.encapsulate(ch.kemMaterial, random).0 else [],
      UNSIGNED)
  }

  /**
   A responder completes exactly when the hello is for it, bears the initiator's signature over its fields,
   and passes the session checks, and it can sign its reply and knows both secrets.
   */
  lemma AcceptIff(w: World, server: Party, local: ValidatorId, ch: ClientHello, random: seq<byte>)
    ensures var reply := ReplyTo(w, server, local, ch, random);
            var signature := PartySign(w, server, local, ServerSigningMessage(w, ch, reply));
            && (Accept(w, server, local, ch, random).Ok? <==>
                && ch.responder == local
                && PartyVerify(w, server, ch.initiator, ClientSigningMessage(w, ch), ch.signature) == Ok(true)
                && HelloFits(w, server, ch)
                && signature.Ok?
                && local in server.Ring().secrets && ch.initiator in server.Ring().secrets)
            && (Accept(w, server, local, ch, random).Ok? ==>
                  Accept(w, server, local, ch, random).value.0 == reply.(signature := signature.value))
  {
    hide AnswerKem, PartySign, PartyVerify, DeterministicComponent, Derive, HelloFits, Ascii, Decimal;
    AnswersIff(w, server, ch, random);
    ComponentIff(w, server.Ring(), local, ch.initiator, ch.nonce);
  }

  /**
   An initiator completes exactly when hello and reply belong to it and to one transcript, the reply bears
   the responder's signature and passes the session checks, and it knows both secrets.
   */
  lemma FinalizeIff(w: World, client: Party, local: ValidatorId, ch: ClientHello, sh: ServerHello)
    ensures Finalize(w, client, local, ch, sh).Ok? <==>
            && ch.initiator == local == sh.initiator && sh.responder == ch.responder && sh.nonce == ch.nonce
            && PartyVerify(w, client, sh.responder, ServerSigningMessage(w, ch, sh), sh.signature) == Ok(true)
            && ReplyFits(w, client, sh)
            && local in client.Ring().secrets && sh.responder in client.Ring().secrets
  {
    hide OpenKem, PartyVerify, DeterministicComponent, Derive, ReplyFits;
    OpensIff(w, client, sh);
    ComponentIff(w, client.Ring(), local, sh.responder, ch.nonce);
  }

  /** Why a hello's session part is refused, in the order of the checks. */
  lemma HelloErrors(w: World, server: Party, ch: ClientHello, random: seq<byte>)
    ensures var r := AnswerKem(w, server, ch, random);
            if server.Hybrid() then
              var listed := server.backend.sessionIdentities;
              && (r == Err(Crypto(UnknownValidator)) <==> ch.initiator !in listed)
              && (r == Err(UnexpectedSessionIdentity) <==>
                  ch.initiator in listed && !ListedSession(server.backend, ch.initiator, ch.sessionIdentity))
              && (ListedSession(server.backend, ch.initiator, ch.sessionIdentity) ==>
                    && (r == Err(MissingKemMaterial) <==> forall key :: !ShowsKemKey(ch.sessionIdentity, key))
                    && (r == Err(UndecodableKemMaterial) <==>
                        && ShowsKemKey(ch.sessionIdentity, ch.kemMaterial)
                        && !w.kem.encapsulationKeyDecodes(ch.kemMaterial)))
            else
              && (r == Err(UnexpectedKemMaterial) <==> server.Configured? && ch.kemMaterial != [])
              && (r == Err(UnexpectedSessionIdentity) <==>
                  (server.Configured? ==> ch.kemMaterial == []) && !NamedSession(ch.sessionIdentity, ch.initiator))
  {
    hide Ascii, Decimal, FindComponent;
    var shown := AdvertisedMlKem(ch.sessionIdentity);
    assert forall key :: ShowsKemKey(ch.sessionIdentity, key) <==> shown == Some(key);
  }

  /**
   Which refusal a responder gives first: a hello for someone else; then, on a plain node, the session part
   before the signature, and on a configured one the signature before the session part.
   */
  lemma AcceptErrors(w: World, server: Party, local: ValidatorId, ch: ClientHello, random: seq<byte>)
    ensures var r := Accept(w, server, local, ch, random);
            var verified := PartyVerify(w, server, ch.initiator, ClientSigningMessage(w, ch), ch.signature);
            && (ch.responder != local ==> r == Err(NotForUs))
            && (ch.responder == local && !HelloFits(w, server, ch) && (server.Plain? || verified == Ok(true)) ==>
                  r == Err(AnswerKem(w, server, ch, random).error))
            && (ch.responder == local && (server.Configured? || HelloFits(w, server, ch)) ==>
                  && (verified == Ok(false) ==> r == Err(SignatureRejected))
                  && forall e :: verified == Err(e) ==> r == Err(Crypto(e)))
  {
    hide AnswerKem, PartySign, PartyVerify, DeterministicComponent, Derive, HelloFits, Ascii, Decimal;
    AnswersIff(w, server, ch, random);
  }

  /** And an initiator: a hello that is not its own, a reply of another transcript, then as above. */
  lemma FinalizeErrors(w: World, client: Party, local: ValidatorId, ch: ClientHello, sh: ServerHello)
    ensures var r := Finalize(w, client, local, ch, sh);
            var verified := PartyVerify(w, client, sh.responder, ServerSigningMessage(w, ch, sh), sh.signature);
            var matches := sh.initiator == local && sh.responder == ch.responder && sh.nonce == ch.nonce;
            && (ch.initiator != local ==> r == Err(NotForUs))
            && (ch.initiator == local && !matches ==> r == Err(TranscriptMismatch))
            && (ch.initiator == local && matches && !ReplyFits(w, client, sh) ==>
                  client.Plain? || verified == Ok(true) ==> r == Err(OpenKem(w, client, sh).error))
            && (ch.initiator == local && matches && (client.Configured? || ReplyFits(w, client, sh)) ==>
                  && (verified == Ok(false) ==> r == Err(SignatureRejected))
                  && forall e :: verified == Err(e) ==> r == Err(Crypto(e)))
  {
    hide OpenKem, PartyVerify, DeterministicComponent, Derive, ReplyFits;
    OpensIff(w, client, sh);
  }

  /** The hello an initiator builds: addressed, fresh, under its own identity and key, and signed over its fields. */
  lemma HelloBuilt(w: World, client: Party, local: ValidatorId, peer: ValidatorId, nonce: HashBytes)
    requires BuildClientHello(w, client, local, peer, nonce).Ok?
    ensures var ch := BuildClientHello(w, client, local, peer, nonce).value;
            && ch.initiator == local && ch.responder == peer && ch.nonce == nonce
            && (client.Hybrid() ==>
                  && ch.sessionIdentity == client.backend.session.identity
                  && ch.kemMaterial == client.backend.session.keys.encapsulationKey)
            && (!client.Hybrid() ==> NamedSession(ch.sessionIdentity, local) && ch.kemMaterial == [])
            && PartySign(w, client, local, ClientSigningMessage(w, ch)) == Ok(ch.signature)
  {
    hide PartySign, Ascii, Decimal;
  }

  /** A plain party verifies one signature only: its own computation of it. */
  lemma PlainVerifyExact(w: World, ring: KeyRing, id: ValidatorId, message: Message, signature: TypedSignature)
    ensures var r := PartyVerify(w, Plain(ring), id, message, signature);
            && (r == Ok(true) <==>
                && id in ring.secrets
                && signature == Bundle(SignatureScheme.DevDeterministic, w.p.hashMany([ring.secrets[id], message]), []))
            && (r.Err? <==> signature.scheme.DevDeterministic? && id !in ring.secrets)
  {
  }

  /**
   Between built nodes, what a completed hybrid end has of its peer is what genesis lists: the session
   identity of the peer's last entry, where that has one, and the ML-KEM key it shows.
   */
  lemma PeerIsListed(
    w: World, genesis: seq<Validator>, config: NodeConfig, ch: ClientHello, sh: ServerHello, random: seq<byte>
  )
    requires BuildCryptoBackend(w.p, genesis, config).Ok? && Node(w, genesis, config).Hybrid()
    ensures Accept(w, Node(w, genesis, config), config.validatorId, ch, random).Ok? ==>
              var peer := LastValidator(genesis, ch.initiator);
              && peer.Some?
              && (peer.value.sessionIdentity.Some? ==> peer.value.sessionIdentity == Some(ch.sessionIdentity))
              && ShowsKemKey(ch.sessionIdentity, ch.kemMaterial)
    ensures Finalize(w, Node(w, genesis, config), config.validatorId, ch, sh).Ok? ==>
              var peer := LastValidator(genesis, sh.responder);
              && peer.Some?
              && (peer.value.sessionIdentity.Some? ==> peer.value.sessionIdentity == Some(sh.sessionIdentity))
  {
    hide Accept, Finalize, BuildSigner, BuildSession, PartyVerify, PartySign, ShowsKemKey;
    var node := Node(w, genesis, config);
    AcceptIff(w, node, config.validatorId, ch, random);
    FinalizeIff(w, node, config.validatorId, ch, sh);
    RingHoldsLast(w.p, genesis, ch.initiator);
    RingHoldsLast(w.p, genesis, sh.responder);
  }

  // ---- What the session key covers ----

  /** Both ends of a pair hash these parts: the two ids and secrets in ascending id order, and the nonce. */
  function PairParts(ring: KeyRing, a: ValidatorId, b: ValidatorId, nonce: HashBytes): seq<seq<byte>>
    requires a <= b && a in ring.secrets && b in ring.secrets
  {
    [Ascii("entangrid-session"), LeBytes(a, 8), ring.secrets[a], LeBytes(b, 8), ring.secrets[b], nonce]
  }

  /** The material a responder keeps, hash by hash. */
  lemma AcceptedMaterial(w: World, server: Party, local: ValidatorId, ch: ClientHello, random: seq<byte>)
    requires Accept(w, server, local, ch, random).Ok?
    ensures var (sh, m) := Accept(w, server, local, ch, random).value;
            var low, high := Min(local, ch.initiator), Max(local, ch.initiator);
            && low in server.Ring().secrets && high in server.Ring().secrets
            && m.encryptFrames == server.Hybrid()
            && m.transcriptHash ==
               w.p.hashMany([Ascii("entangrid-session-transcript"), w.enc.clientHello(ch), w.enc.serverHello(sh)])
            && m.sessionKey ==
               w.p.hashMany([
                 Ascii("entangrid-session-key-v2"),
                 w.p.hashMany([Ascii("session-key"), w.p.hashMany(PairParts(server.Ring(), low, high, ch.nonce))]),
                 if server.Hybrid() then w.kem.encapsulate(ch.kemMaterial, random).1 else [],
                 m.transcriptHash])
  {
    hide AnswerKem, PartySign, PartyVerify, Ascii, LeBytes;
    AnswersIff(w, server, ch, random);
  }

  /** The material an initiator keeps, hash by hash. */
  lemma FinalizedMaterial(w: World, client: Party, local: ValidatorId, ch: ClientHello, sh: ServerHello)
    requires Finalize(w, client, local, ch, sh).Ok?
    ensures var m := Finalize(w, client, local, ch, sh).value;
            var low, high := Min(local, sh.responder), Max(local, sh.responder);
            && low in client.Ring().secrets && high in client.Ring().secrets
            && m.encryptFrames == client.Hybrid()
            && m.transcriptHash ==
               w.p.hashMany([Ascii("entangrid-session-transcript"), w.enc.clientHello(ch), w.enc.serverHello(sh)])
            && m.sessionKey ==
               w.p.hashMany([
                 Ascii("entangrid-session-key-v2"),
                 w.p.hashMany([Ascii("session-key"), w.p.hashMany(PairParts(client.Ring(), low, high, ch.nonce))]),
                 if client.Hybrid()
                 then w.kem.decapsulate(client.backend.session.keys.decapsulationKey, sh.kemCiphertext) else [],
                 m.transcriptHash])
  {
    hide OpenKem, PartyVerify, Ascii, LeBytes;
    OpensIff(w, client, sh);
  }

  /** These two part lists do not collide. */
  predicate PartsTell(w: World, a: seq<seq<byte>>, b: seq<seq<byte>>) {
    w.p.hashMany(a) == w.p.hashMany(b) ==> a == b
  }

  /** What a session key is the hash of. */
  function KeyParts(
    w: World, ring: KeyRing, a: ValidatorId, b: ValidatorId, nonce: HashBytes, secret: seq<byte>, transcript: HashBytes
  ): seq<seq<byte>>
    requires a <= b && a in ring.secrets && b in ring.secrets
  {
    [Ascii("entangrid-session-key-v2"),
     w.p.hashMany([Ascii("session-key"), w.p.hashMany(PairParts(ring, a, b, nonce))]), secret, transcript]
  }

  /**
   Equal session keys come from one session: where the three hashes at hand do not collide, the same two
   validators and dev secrets, nonce, KEM secret and transcript went into both.
   */
  lemma SessionKeyBinds(
    w: World, r: KeyRing, a: ValidatorId, b: ValidatorId, n: HashBytes, secret: seq<byte>, transcript: HashBytes,
    r': KeyRing, a': ValidatorId, b': ValidatorId, n': HashBytes, secret': seq<byte>, transcript': HashBytes
  )
    requires a <= b && a in r.secrets && b in r.secrets && a' <= b' && a' in r'.secrets && b' in r'.secrets
    requires w.p.hashMany(KeyParts(w, r, a, b, n, secret, transcript)) ==
             w.p.hashMany(KeyParts(w, r', a', b', n', secret', transcript'))
    requires PartsTell(w, KeyParts(w, r, a, b, n, secret, transcript),
                       KeyParts(w, r', a', b', n', secret', transcript'))
    requires PartsTell(w, PairParts(r, a, b, n), PairParts(r', a', b', n'))
    requires PartsTell(w, [Ascii("session-key"), w.p.hashMany(PairParts(r, a, b, n))],
                       [Ascii("session-key"), w.p.hashMany(PairParts(r', a', b', n'))])
    ensures a == a' && b == b' && r.secrets[a] == r'.secrets[a'] && r.secrets[b] == r'.secrets[b']
    ensures n == n' && secret == secret' && transcript == transcript'
  {
    hide Ascii, LeBytes;
    var key, key' := KeyParts(w, r, a, b, n, secret, transcript), KeyParts(w, r', a', b', n', secret', transcript');
    assert key[1] == key'[1] && key[2] == key'[2] && key[3] == key'[3];
    var inner := [Ascii("session-key"), w.p.hashMany(PairParts(r, a, b, n))];
    var inner' := [Ascii("session-key"), w.p.hashMany(PairParts(r', a', b', n'))];
    assert inner[1] == inner'[1];
    var pair, pair' := PairParts(r, a, b, n), PairParts(r', a', b', n');
    assert pair[1] == pair'[1] && pair[2] == pair'[2] && pair[3] == pair'[3] && pair[4] == pair'[4];
    assert pair[5] == pair'[5];
    LeBytesInjective(a, a');
    LeBytesInjective(b, b');
  }

  lemma ComponentSymmetric(w: World, ring: KeyRing, a: ValidatorId, b: ValidatorId, nonce: HashBytes)
    ensures DeterministicComponent(w, ring, a, b, nonce) == DeterministicComponent(w, ring, b, a, nonce)
  {
  }

  /** A hybrid session identity always advertises ML-KEM bytes; loading the keys made sure. */
  ghost predicate LoadedSession(party: Party) {
    party.Hybrid() ==>
      && AdvertisedMlKem(party.backend.session.identity) == Some(party.backend.session.keys.encapsulationKey)
      && party.backend.session.keys.encapsulationKey != []
  }

  lemma BuiltSessionIsLoaded(p: Primitives, genesis: seq<Validator>, config: NodeConfig)
    requires BuildCryptoBackend(p, genesis, config).Ok?
    ensures LoadedSession(Configured(BuildCryptoBackend(p, genesis, config).value))
  {
  }

  /** A deterministic end and a hybrid end never both complete, whatever hello starts the exchange. */
  lemma MixedNeverComplete(w: World, client: Party, server: Party, ch: ClientHello, random: seq<byte>)
    requires WellFormedCiphertexts(w.kem) && LoadedSession(client) && LoadedSession(server)
    requires client.Hybrid() != server.Hybrid()
    requires Accept(w, server, ch.responder, ch, random).Ok?
    ensures Finalize(w, client, ch.initiator, ch, Accept(w, server, ch.responder, ch, random).value.0).Err?
  {
    hide Accept, Finalize, Derive, DeterministicComponent, PartySign, PartyVerify, GenesisIdentityCheck, Ascii, Decimal;
    BothEnds(w, client, server, ch, random);
    var answer := AnswerKem(w, server, ch, random).value;
    if server.Hybrid() {
      assert w.kem.ciphertextDecodes(answer.ciphertext);
      assert AdvertisedMlKem(DeterministicSessionIdentity(ch.responder)).None?;
    } else {
      assert !w.kem.ciphertextDecodes([]);
    }
  }

  /** The hybrid hello carries the initiator's own encapsulation key. */
  ghost predicate OwnHello(client: Party, ch: ClientHello) {
    client.Hybrid() ==> ch.kemMaterial == client.backend.session.keys.encapsulationKey
  }

  lemma BuiltHelloIsOwn(w: World, client: Party, local: ValidatorId, peer: ValidatorId, nonce: HashBytes)
    requires BuildClientHello(w, client, local, peer, nonce).Ok?
    ensures OwnHello(client, BuildClientHello(w, client, local, peer, nonce).value)
  {
  }

  /** The two KEM halves match when the initiator's key file holds a pair. */
  lemma SharedSecret(w: World, client: Party, server: Party, ch: ClientHello, sh: ServerHello, random: seq<byte>)
    requires AnswerKem(w, server, ch, random).Ok? && OpenKem(w, client, sh).Ok?
    requires sh.kemCiphertext == AnswerKem(w, server, ch, random).value.ciphertext
    requires client.Hybrid() == server.Hybrid()
    requires client.Hybrid() ==> KemPair(w.kem, client.backend.session.keys) && OwnHello(client, ch)
    ensures OpenKem(w, client, sh).value == AnswerKem(w, server, ch, random).value.secret
  {
    assert client.Hybrid() ==> Recovers(w.kem, client.backend.session.keys, random);
  }

  /**
   Whenever both ends complete on one transcript they hold the same session material, frame
   encryption included, for every pairing of plain, configured and hybrid backends of one genesis.
   */
  lemma HandshakeAgreement(w: World, client: Party, server: Party, ch: ClientHello, random: seq<byte>)
    requires WellFormedCiphertexts(w.kem) && LoadedSession(client) && LoadedSession(server)
    requires client.Ring().secrets == server.Ring().secrets
    requires client.Hybrid() ==> KemPair(w.kem, client.backend.session.keys) && OwnHello(client, ch)
    requires Accept(w, server, ch.responder, ch, random).Ok?
    requires Finalize(w, client, ch.initiator, ch, Accept(w, server, ch.responder, ch, random).value.0).Ok?
    ensures var (sh, material) := Accept(w, server, ch.responder, ch, random).value;
            && Finalize(w, client, ch.initiator, ch, sh) == Ok(material)
            && material.encryptFrames == client.Hybrid() == server.Hybrid()
  {
    var (sh, material) := Accept(w, server, ch.responder, ch, random).value;
    BothEnds(w, client, server, ch, random);
    if client.Hybrid() != server.Hybrid() {
      MixedNeverComplete(w, client, server, ch, random);
    }
    SharedSecret(w, client, server, ch, sh, random);
    SecretsDecideComponent(w, client.Ring(), server.Ring(), ch.initiator, ch.responder, ch.nonce);
    ComponentSymmetric(w, server.Ring(), ch.initiator, ch.responder, ch.nonce);
  }

  lemma SecretsDecideComponent(
    w: World, a: KeyRing, b: KeyRing, local: ValidatorId, peer: ValidatorId, nonce: HashBytes
  )
    requires a.secrets == b.secrets
    ensures DeterministicComponent(w, a, local, peer, nonce) == DeterministicComponent(w, b, local, peer, nonce)
  {
  }

  /** Both ends complete the exchange this hello starts, when the responder draws this randomness. */
  ghost predicate Completes(w: World, client: Party, server: Party, ch: ClientHello, random: seq<byte>) {
    && Accept(w, server, ch.responder, ch, random).Ok?
    && Finalize(w, client, ch.initiator, ch, Accept(w, server, ch.responder, ch, random).value.0).Ok?
  }

  /** And they hold the same session material. */
  ghost predicate Agree(w: World, client: Party, server: Party, ch: ClientHello, random: seq<byte>) {
    && Completes(w, client, server, ch, random)
    && var (sh, material) := Accept(w, server, ch.responder, ch, random).value;
       Finalize(w, client, ch.initiator, ch, sh) == Ok(material)
  }

  /** In this one exchange the key derivation tells the encapsulated secret from the decapsulated one. */
  ghost predicate SecretsTell(w: World, client: Party, server: Party, ch: ClientHello, random: seq<byte>)
    requires client.Hybrid() && Completes(w, client, server, ch, random)
  {
    var keys := client.backend.session.keys;
    var (ciphertext, secret) := w.kem.encapsulate(keys.encapsulationKey, random);
    var other := w.kem.decapsulate(keys.decapsulationKey, ciphertext);
    var sh := Accept(w, server, ch.responder, ch, random).value.0;
    var deterministic := DeterministicComponent(w, server.Ring(), ch.responder, ch.initiator, ch.nonce);
    (&& deterministic.Ok?
     && Derive(w, deterministic.value, secret, ch, sh, true).sessionKey ==
        Derive(w, deterministic.value, other, ch, sh, true).sessionKey) ==> secret == other
  }

  /** One exchange between two hybrid ends: they agree when decapsulation returns the encapsulated secret. */
  lemma DecapsulationDecides(w: World, client: Party, server: Party, ch: ClientHello, random: seq<byte>)
    requires client.Hybrid() && server.Hybrid() && OwnHello(client, ch)
    requires client.Ring().secrets == server.Ring().secrets
    requires Completes(w, client, server, ch, random)
    ensures Recovers(w.kem, client.backend.session.keys, random) ==> Agree(w, client, server, ch, random)
    ensures SecretsTell(w, client, server, ch, random) && Agree(w, client, server, ch, random) ==>
              Recovers(w.kem, client.backend.session.keys, random)
  {
    hide PartySign, PartyVerify, DeterministicComponent, AdvertisedMlKem;
    BothEnds(w, client, server, ch, random);
    SecretsDecideComponent(w, client.Ring(), server.Ring(), ch.initiator, ch.responder, ch.nonce);
    ComponentSymmetric(w, server.Ring(), ch.initiator, ch.responder, ch.nonce);
  }

  /**
   Nothing at start-up checks that the two halves of an ML-KEM key file are a pair. Two hybrid ends that
   complete whatever randomness the responder draws always agree exactly when the file holds a pair. The
   key derivation must not collide on one exchange: `sample`, one that the file fails, if it fails any.
   */
  lemma HybridAgreementIff(w: World, client: Party, server: Party, ch: ClientHello, sample: seq<byte>)
    requires client.Hybrid() && server.Hybrid() && OwnHello(client, ch)
    requires client.Ring().secrets == server.Ring().secrets
    requires forall random :: Completes(w, client, server, ch, random)
    requires Recovers(w.kem, client.backend.session.keys, sample) ==> KemPair(w.kem, client.backend.session.keys)
    requires SecretsTell(w, client, server, ch, sample)
    ensures (forall random :: Agree(w, client, server, ch, random)) <==> KemPair(w.kem, client.backend.session.keys)
  {
    hide Completes, Agree, SecretsTell, OwnHello, Recovers;
    DecapsulationDecides(w, client, server, ch, sample);
    if KemPair(w.kem, client.backend.session.keys) {
      forall random ensures Agree(w, client, server, ch, random) {
        assert Recovers(w.kem, client.backend.session.keys, random);
        DecapsulationDecides(w, client, server, ch, random);
      }
    }
  }

  // ---- Completion ----

  /** Two nodes of one genesis, set up the same way, with usable keys. */
  ghost predicate Compatible(w: World, genesis: seq<Validator>, a: NodeConfig, b: NodeConfig) {
    && Unambiguous(genesis, a.validatorId) && Unambiguous(genesis, b.validatorId)
    && BuildCryptoBackend(w.p, genesis, a).Ok? && BuildCryptoBackend(w.p, genesis, b).Ok?
    && SigningPair(w.p, a.signingKeyFile) && SigningPair(w.p, b.signingKeyFile)
    && SignerCoversIdentity(BuildCryptoBackend(w.p, genesis, a).value)
    && SignerCoversIdentity(BuildCryptoBackend(w.p, genesis, b).value)
    && a.sessionKind == b.sessionKind
    && WellFormedCiphertexts(w.kem)
    && (a.sessionKind.HybridDeterministicMlKemExperimental? ==> KeysDecode(w.kem, a.sessionKeyFile.value))
  }

  predicate KeysDecode(kem: Kem, keys: MlKemKeyFile) {
    kem.encapsulationKeyDecodes(keys.encapsulationKey) && kem.decapsulationKeyDecodes(keys.decapsulationKey)
  }

  lemma SignsForPeers(w: World, genesis: seq<Validator>, signer: NodeConfig, verifier: NodeConfig, message: Message)
    requires Unambiguous(genesis, signer.validatorId) && SigningPair(w.p, signer.signingKeyFile)
    requires BuildCryptoBackend(w.p, genesis, signer).Ok? && BuildCryptoBackend(w.p, genesis, verifier).Ok?
    requires SignerCoversIdentity(BuildCryptoBackend(w.p, genesis, signer).value)
    ensures var signature := PartySign(w, Node(w, genesis, signer), signer.validatorId, message);
            && signature.Ok?
            && PartyVerify(w, Node(w, genesis, verifier), signer.validatorId, message, signature.value) == Ok(true)
  {
    OwnSignatureVerifiesIff(w.p, genesis, signer, message);
    SharedRing(w.p, genesis, signer, verifier);
  }

  /** The hello a compatible node builds passes the peer's session checks. */
  lemma HelloAnswered(
    w: World, genesis: seq<Validator>, a: NodeConfig, b: NodeConfig, nonce: HashBytes, random: seq<byte>
  )
    requires Compatible(w, genesis, a, b)
    ensures var client, server := Node(w, genesis, a), Node(w, genesis, b);
            var ch := UnsignedClientHello(client, a.validatorId, b.validatorId, nonce);
            forall signature :: AnswerKem(w, server, ch.(signature := signature), random).Ok?
  {
    hide Decimal, Ascii;
    var v, ownA := BuiltBackend(w.p, genesis, a);
    var u, ownB := BuiltBackend(w.p, genesis, b);
    SharedRing(w.p, genesis, a, b);
  }

  lemma ServerHelloOpened(w: World, genesis: seq<Validator>, a: NodeConfig, b: NodeConfig, sh: ServerHello)
    requires Compatible(w, genesis, a, b) && sh.responder == b.validatorId
    requires sh.sessionIdentity == LocalSessionIdentity(Node(w, genesis, b), b.validatorId)
    requires if a.sessionKind.HybridDeterministicMlKemExperimental? then w.kem.ciphertextDecodes(sh.kemCiphertext)
             else sh.kemCiphertext == []
    ensures OpenKem(w, Node(w, genesis, a), sh).Ok?
  {
    hide Decimal, Ascii;
    var v, ownA := BuiltBackend(w.p, genesis, a);
    var u, ownB := BuiltBackend(w.p, genesis, b);
    SharedRing(w.p, genesis, a, b);
  }

  function Node(w: World, genesis: seq<Validator>, config: NodeConfig): Party
    requires BuildCryptoBackend(w.p, genesis, config).Ok?
  {
    Configured(BuildCryptoBackend(w.p, genesis, config).value)
  }

  lemma KnownValidators(w: World, genesis: seq<Validator>, a: NodeConfig, b: NodeConfig, nonce: HashBytes)
    requires Compatible(w, genesis, a, b)
    ensures var client, server := Node(w, genesis, a), Node(w, genesis, b);
            && client.Ring().secrets == server.Ring().secrets
            && client.Hybrid() == server.Hybrid() == a.sessionKind.HybridDeterministicMlKemExperimental?
            && (client.Hybrid() ==> client.backend.session.keys == a.sessionKeyFile.value)
            && DeterministicComponent(w, client.Ring(), a.validatorId, b.validatorId, nonce).Ok?
            && DeterministicComponent(w, server.Ring(), b.validatorId, a.validatorId, nonce).Ok?
  {
    hide BuildSigner, VerifyingKeys, Decimal, Ascii;
    var v, ownA := BuiltBackend(w.p, genesis, a);
    var u, ownB := BuiltBackend(w.p, genesis, b);
    SharedRing(w.p, genesis, a, b);
  }

  lemma HonestAccept(
    w: World, genesis: seq<Validator>, a: NodeConfig, b: NodeConfig, nonce: HashBytes, random: seq<byte>
  )
    requires Compatible(w, genesis, a, b)
    ensures var hello := BuildClientHello(w, Node(w, genesis, a), a.validatorId, b.validatorId, nonce);
            && hello.Ok?
            && hello.value.initiator == a.validatorId && hello.value.responder == b.validatorId
            && Accept(w, Node(w, genesis, b), b.validatorId, hello.value, random).Ok?
            && var sh := Accept(w, Node(w, genesis, b), b.validatorId, hello.value, random).value.0;
               var message := ServerSigningMessage(w, hello.value, sh);
               PartySign(w, Node(w, genesis, b), b.validatorId, message) == Ok(sh.signature)
  {
    hide PartySign, PartyVerify, AnswerKem, DeterministicComponent, Derive, LocalSessionIdentity;
    var client, server := Node(w, genesis, a), Node(w, genesis, b);
    var unsigned := UnsignedClientHello(client, a.validatorId, b.validatorId, nonce);
    SignsForPeers(w, genesis, a, b, ClientSigningMessage(w, unsigned));
    HelloAnswered(w, genesis, a, b, nonce, random);
    KnownValidators(w, genesis, a, b, nonce);
    var ch := BuildClientHello(w, client, a.validatorId, b.validatorId, nonce).value;
    var answer := AnswerKem(w, server, ch, random).value;
    var identity := LocalSessionIdentity(server, b.validatorId);
    var reply := ServerHello(b.validatorId, ch.initiator, ch.nonce, identity, answer.ciphertext, UNSIGNED);
    SignsForPeers(w, genesis, b, a, ServerSigningMessage(w, ch, reply));
  }

  lemma AnswerCiphertext(
    w: World, genesis: seq<Validator>, a: NodeConfig, b: NodeConfig, ch: ClientHello, random: seq<byte>
  )
    requires Compatible(w, genesis, a, b) && AnswerKem(w, Node(w, genesis, b), ch, random).Ok?
    ensures var ciphertext := AnswerKem(w, Node(w, genesis, b), ch, random).value.ciphertext;
            if a.sessionKind.HybridDeterministicMlKemExperimental? then w.kem.ciphertextDecodes(ciphertext)
            else ciphertext == []
  {
    hide BuildCryptoBackend, GenesisIdentityCheck, AdvertisedMlKem, DeterministicComponent, SignerCoversIdentity;
    KnownValidators(w, genesis, a, b, ch.nonce);
  }

  lemma HonestFinalize(
    w: World, genesis: seq<Validator>, a: NodeConfig, b: NodeConfig, ch: ClientHello, sh: ServerHello
  )
    requires Compatible(w, genesis, a, b)
    requires ch.initiator == sh.initiator == a.validatorId && ch.responder == sh.responder == b.validatorId
    requires sh.nonce == ch.nonce
    requires PartySign(w, Node(w, genesis, b), b.validatorId, ServerSigningMessage(w, ch, sh)) == Ok(sh.signature)
    requires OpenKem(w, Node(w, genesis, a), sh).Ok?
    ensures Finalize(w, Node(w, genesis, a), a.validatorId, ch, sh).Ok?
  {
    hide PartySign, PartyVerify, OpenKem, DeterministicComponent, Derive;
    SignsForPeers(w, genesis, b, a, ServerSigningMessage(w, ch, sh));
    KnownValidators(w, genesis, a, b, ch.nonce);
  }

  /** Compatible nodes always complete the handshake. */
  lemma HonestHandshakeCompletes(
    w: World, genesis: seq<Validator>, a: NodeConfig, b: NodeConfig, nonce: HashBytes, random: seq<byte>
  )
    requires Compatible(w, genesis, a, b)
    ensures var client, server := Node(w, genesis, a), Node(w, genesis, b);
            var hello := BuildClientHello(w, client, a.validatorId, b.validatorId, nonce);
            && hello.Ok? && hello.value.initiator == a.validatorId && hello.value.responder == b.validatorId
            && OwnHello(client, hello.value)
            && Completes(w, client, server, hello.value, random)
  {
    hide Accept, Finalize, BuildClientHello, AnswerKem, OpenKem, PartySign, Derive, DeterministicComponent,
         BuildCryptoBackend, LocalSessionIdentity, ServerSigningMessage;
    var client, server := Node(w, genesis, a), Node(w, genesis, b);
    HonestAccept(w, genesis, a, b, nonce, random);
    var ch := BuildClientHello(w, client, a.validatorId, b.validatorId, nonce).value;
    var sh := Accept(w, server, b.validatorId, ch, random).value.0;
    BothEnds(w, client, server, ch, random);
    AnswerCiphertext(w, genesis, a, b, ch, random);
    ServerHelloOpened(w, genesis, a, b, sh);
    HonestFinalize(w, genesis, a, b, ch, sh);
    BuiltHelloIsOwn(w, client, a.validatorId, b.validatorId, nonce);
  }

  /** Without ML-KEM, or with a key file that holds a pair, they also hold the same session material. */
  lemma HonestHandshakeAgrees(
    w: World, genesis: seq<Validator>, a: NodeConfig, b: NodeConfig, nonce: HashBytes, random: seq<byte>
  )
    requires Compatible(w, genesis, a, b)
    requires a.sessionKind.HybridDeterministicMlKemExperimental? ==> KemPair(w.kem, a.sessionKeyFile.value)
    ensures var client, server := Node(w, genesis, a), Node(w, genesis, b);
            var hello := BuildClientHello(w, client, a.validatorId, b.validatorId, nonce);
            hello.Ok? && Agree(w, client, server, hello.value, random)
  {
    hide Accept, Finalize, BuildClientHello, BuildCryptoBackend;
    var client, server := Node(w, genesis, a), Node(w, genesis, b);
    HonestHandshakeCompletes(w, genesis, a, b, nonce, random);
    BuiltSessionIsLoaded(w.p, genesis, a);
    BuiltSessionIsLoaded(w.p, genesis, b);
    KnownValidators(w, genesis, a, b, nonce);
    var ch := BuildClientHello(w, client, a.validatorId, b.validatorId, nonce).value;
    HandshakeAgreement(w, client, server, ch, random);
  }

  /** For hybrid nodes the pair is also needed: they agree on every randomness exactly when the file holds one. */
  lemma HonestAgreementIff(
    w: World, genesis: seq<Validator>, a: NodeConfig, b: NodeConfig, nonce: HashBytes, sample: seq<byte>
  )
    requires Compatible(w, genesis, a, b) && a.sessionKind.HybridDeterministicMlKemExperimental?
    requires Recovers(w.kem, a.sessionKeyFile.value, sample) ==> KemPair(w.kem, a.sessionKeyFile.value)
    requires var client, server := Node(w, genesis, a), Node(w, genesis, b);
             var hello := BuildClientHello(w, client, a.validatorId, b.validatorId, nonce);
             client.Hybrid() && hello.Ok? && Completes(w, client, server, hello.value, sample) ==>
               SecretsTell(w, client, server, hello.value, sample)
    ensures var client, server := Node(w, genesis, a), Node(w, genesis, b);
            var hello := BuildClientHello(w, client, a.validatorId, b.validatorId, nonce);
            && hello.Ok?
            && ((forall random :: Agree(w, client, server, hello.value, random)) <==>
                KemPair(w.kem, a.sessionKeyFile.value))
  {
    hide Accept, Finalize, BuildClientHello, BuildCryptoBackend, SecretsTell, Agree, Completes, KemPair, Recovers;
    var client, server := Node(w, genesis, a), Node(w, genesis, b);
    HonestHandshakeCompletes(w, genesis, a, b, nonce, sample);
    KnownValidators(w, genesis, a, b, nonce);
    var ch := BuildClientHello(w, client, a.validatorId, b.validatorId, nonce).value;
    forall random ensures Completes(w, client, server, ch, random) {
      HonestHandshakeCompletes(w, genesis, a, b, nonce, random);
    }
    HybridAgreementIff(w, client, server, ch, sample);
  }

  // ---- The failing case ----

  const ZEROS: HashBytes := seq(32, _ => 0)
  const ONES: HashBytes := seq(32, _ => 1)

  /** A world whose decapsulation key does not belong to the encapsulation key. */
  function UnpairedWorld(): World {
    World(
      Primitives(
        (parts: seq<seq<byte>>) => if |parts| == 4 && parts[2] == [1] then ONES else ZEROS,
        (key: seq<byte>, m: Message) => [], (key: seq<byte>, m: Message, s: seq<byte>) => false,
        (key: seq<byte>) => true, (key: seq<byte>) => true),
      Encoding(
        (i: ValidatorId, r: ValidatorId, n: HashBytes, s: SessionPublicIdentity, k: seq<byte>) => [],
        (m: seq<byte>, r: ValidatorId, i: ValidatorId, n: HashBytes, s: SessionPublicIdentity, k: seq<byte>) => [],
        (ch: ClientHello) => [], (sh: ServerHello) => []),
      Kem(
        (key: seq<byte>) => true, (key: seq<byte>) => true, (c: seq<byte>) => c != [],
        (key: seq<byte>, random: seq<byte>) => ([0], [1]), (key: seq<byte>, c: seq<byte>) => [2]))
  }

  function HybridValidator(id: ValidatorId): Validator {
    Validator(id, [], DEFAULT_IDENTITY, Some(Single(SessionKeyScheme.MlKem, [9])))
  }

  function HybridConfig(id: ValidatorId): NodeConfig {
    NodeConfig(id, SigningKind.DevDeterministic, None, HybridDeterministicMlKemExperimental,
               Some(MlKemKeyFile([8], [9])))
  }

  lemma UnpairedNodesBuilt(id: ValidatorId)
    requires id == 1 || id == 2
    ensures BuildCryptoBackend(UnpairedWorld().p, [HybridValidator(1), HybridValidator(2)], HybridConfig(id)).Ok?
    ensures Unambiguous([HybridValidator(1), HybridValidator(2)], id)
  {
    hide Decimal, Ascii;
    var p, genesis := UnpairedWorld().p, [HybridValidator(1), HybridValidator(2)];
    assert genesis[1..] == [HybridValidator(2)] && genesis[..1] == [HybridValidator(1)];
    assert genesis[..1][..0] == [];
    assert VerifyingKeys(p, genesis[..1]) == Ok(map[]);
    assert FindValidator(genesis, id) == Some(HybridValidator(id)) == LastValidator(genesis, id);
  }

  /** Two nodes that start up, complete the handshake, and hold different session material, whatever is drawn. */
  lemma UnpairedKeysDisagree(nonce: HashBytes, random: seq<byte>)
    ensures var w, genesis := UnpairedWorld(), [HybridValidator(1), HybridValidator(2)];
            && BuildCryptoBackend(w.p, genesis, HybridConfig(1)).Ok?
            && BuildCryptoBackend(w.p, genesis, HybridConfig(2)).Ok?
            && var client, server := Node(w, genesis, HybridConfig(1)), Node(w, genesis, HybridConfig(2));
               var hello := BuildClientHello(w, client, 1, 2, nonce);
               && hello.Ok?
               && Completes(w, client, server, hello.value, random)
               && !Agree(w, client, server, hello.value, random)
  {
    hide Accept, Finalize, BuildClientHello, Agree, Completes, Decimal, Ascii;
    var w, genesis, a, b := UnpairedWorld(), [HybridValidator(1), HybridValidator(2)], HybridConfig(1), HybridConfig(2);
    UnpairedNodesBuilt(1);
    UnpairedNodesBuilt(2);
    UnpairedNodesCompatible();
    HonestHandshakeCompletes(w, genesis, a, b, nonce, random);
    KnownValidators(w, genesis, a, b, nonce);
    var client, server := Node(w, genesis, a), Node(w, genesis, b);
    var ch := BuildClientHello(w, client, 1, 2, nonce).value;
    UnpairedSecretsTell(client, server, ch, random);
    DecapsulationDecides(w, client, server, ch, random);
  }

  lemma UnpairedNodesCompatible()
    ensures Compatible(UnpairedWorld(), [HybridValidator(1), HybridValidator(2)], HybridConfig(1), HybridConfig(2))
  {
    hide BuildCryptoBackend;
    var w, genesis := UnpairedWorld(), [HybridValidator(1), HybridValidator(2)];
    UnpairedNodesBuilt(1);
    UnpairedNodesBuilt(2);
    var v, ownA := BuiltBackend(w.p, genesis, HybridConfig(1));
    var u, ownB := BuiltBackend(w.p, genesis, HybridConfig(2));
  }

  lemma UnpairedSecretsTell(client: Party, server: Party, ch: ClientHello, random: seq<byte>)
    requires client.Hybrid() && Completes(UnpairedWorld(), client, server, ch, random)
    ensures SecretsTell(UnpairedWorld(), client, server, ch, random)
    ensures !Recovers(UnpairedWorld().kem, client.backend.session.keys, random)
  {
    hide Accept, Finalize, DeterministicComponent;
    assert ONES[0] != ZEROS[0];
  }
}
