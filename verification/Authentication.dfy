/** Hellos as bytes: what their signatures cover, whom a completed handshake authenticates, and the wire form. */
module Authentication {
  import opened Prelude
  import opened Bytes
  import opened Sequences
  import opened Containers
  import opened Signing
  import opened Backend
  import opened Handshake

  // ---- What a signing message covers ----

  /** The signed fields of a client hello, the session identity in its binary form. */
  datatype ClientFields = ClientFields(
    initiator: ValidatorId, responder: ValidatorId, nonce: HashBytes, identity: Raw<SessionKeyScheme>, kem: seq<byte>)

  datatype ServerFields = ServerFields(
    responder: ValidatorId, initiator: ValidatorId, nonce: HashBytes, identity: Raw<SessionKeyScheme>, kem: seq<byte>)

  function FieldsOfHello(codec: Codec<SessionKeyScheme>, ch: ClientHello): ClientFields {
    ClientFields(ch.initiator, ch.responder, ch.nonce,
                 Serialize(SessionKeyScheme.Hybrid, codec, ch.sessionIdentity), ch.kemMaterial)
  }

  function FieldsOfReply(codec: Codec<SessionKeyScheme>, sh: ServerHello): ServerFields {
    ServerFields(sh.responder, sh.initiator, sh.nonce,
                 Serialize(SessionKeyScheme.Hybrid, codec, sh.sessionIdentity), sh.kemCiphertext)
  }

  /** bincode of tagged tuples: a signing message determines its kind and the serialized fields, and no more. */
  ghost predicate EncodesFields(w: World, codec: Codec<SessionKeyScheme>) {
    && (forall ch, other ::
          ClientSigningMessage(w, ch) == ClientSigningMessage(w, other) <==>
          FieldsOfHello(codec, ch) == FieldsOfHello(codec, other))
    && (forall ch, sh, other, reply ::
          ServerSigningMessage(w, ch, sh) == ServerSigningMessage(w, other, reply) <==>
          FieldsOfHello(codec, ch) == FieldsOfHello(codec, other) &&
          FieldsOfReply(codec, sh) == FieldsOfReply(codec, reply))
    && (forall ch, other, sh :: ClientSigningMessage(w, ch) != ServerSigningMessage(w, other, sh))
  }

  /** Between well-formed session identities, as the constructors build and decoding returns them, no more is needed. */
  lemma FieldsDetermineHello(codec: Codec<SessionKeyScheme>, ch: ClientHello, other: ClientHello)
    requires SelfDelimiting(codec) && FieldsOfHello(codec, ch) == FieldsOfHello(codec, other)
    requires WellFormed(SessionKeyScheme.Hybrid, ch.sessionIdentity)
    requires WellFormed(SessionKeyScheme.Hybrid, other.sessionIdentity)
    ensures ch == other.(signature := ch.signature)
  {
    hide SelfDelimiting, WellFormed, Serialize, DeserializeSession;
    SessionRoundTrip(codec, ch.sessionIdentity);
    SessionRoundTrip(codec, other.sessionIdentity);
  }

  // ---- Authentication ----

  /** What a party does in handshakes that makes it sign. */
  datatype HandshakeAct =
    | Offer(peer: ValidatorId, nonce: HashBytes)
    | Answer(hello: ClientHello, random: seq<byte>)

  /** The message an act signs, when it gets that far. */
  function ActMessage(w: World, party: Party, id: ValidatorId, act: HandshakeAct): Option<Message> {
    match act
    case Offer(peer, nonce) =>
      (match BuildClientHello(w, party, id, peer, nonce)
       case Err(_) => None
       case Ok(ch) => Some(ClientSigningMessage(w, ch)))
    case Answer(hello, random) =>
      match Accept(w, party, id, hello, random)
      case Err(_) => None
      case Ok((sh, _)) => Some(ServerSigningMessage(w, hello, sh))
  }

  /** The party signed this message in an act on record. */
  ghost predicate Signed(w: World, party: Party, id: ValidatorId, history: iset<HandshakeAct>, message: Message) {
    exists act :: act in history && ActMessage(w, party, id, act) == Some(message)
  }

  /** No forgery: a verified signature of an honest validator over this message was made in one of its acts. */
  ghost predicate Genuine(
    w: World, verifier: Party, message: Message, signature: TypedSignature,
    signer: Party, id: ValidatorId, history: iset<HandshakeAct>
  ) {
    PartyVerify(w, verifier, id, message, signature) == Ok(true) ==> Signed(w, signer, id, history, message)
  }

  /** The party answered a hello with these fields by a reply with these fields. */
  ghost predicate Answers(
    w: World, codec: Codec<SessionKeyScheme>, party: Party, id: ValidatorId, hello: ClientHello, random: seq<byte>,
    ch: ClientHello, sh: ServerHello
  ) {
    && Accept(w, party, id, hello, random).Ok?
    && FieldsOfHello(codec, hello) == FieldsOfHello(codec, ch)
    && FieldsOfReply(codec, Accept(w, party, id, hello, random).value.0) == FieldsOfReply(codec, sh)
  }

  /** The party built a hello with these fields. */
  ghost predicate Offers(
    w: World, codec: Codec<SessionKeyScheme>, party: Party, id: ValidatorId, ch: ClientHello
  ) {
    && BuildClientHello(w, party, id, ch.responder, ch.nonce).Ok?
    && FieldsOfHello(codec, BuildClientHello(w, party, id, ch.responder, ch.nonce).value) == FieldsOfHello(codec, ch)
  }

  lemma SignedReplyAnswers(
    w: World, codec: Codec<SessionKeyScheme>, party: Party, id: ValidatorId, history: iset<HandshakeAct>,
    ch: ClientHello, sh: ServerHello
  )
    requires EncodesFields(w, codec) && Signed(w, party, id, history, ServerSigningMessage(w, ch, sh))
    ensures exists hello, random ::
              Answer(hello, random) in history && Answers(w, codec, party, id, hello, random, ch, sh)
  {
    hide Accept, BuildClientHello, ClientSigningMessage, ServerSigningMessage, FieldsOfHello, FieldsOfReply;
    var act :| act in history && ActMessage(w, party, id, act) == Some(ServerSigningMessage(w, ch, sh));
    match act
    case Offer(peer, nonce) =>
      assert false;
    case Answer(hello, random) =>
      var reply := Accept(w, party, id, hello, random).value.0;
      assert ServerSigningMessage(w, hello, reply) == ServerSigningMessage(w, ch, sh);
      assert Answers(w, codec, party, id, hello, random, ch, sh);
  }

  lemma SignedHelloOffered(
    w: World, codec: Codec<SessionKeyScheme>, party: Party, id: ValidatorId, history: iset<HandshakeAct>,
    ch: ClientHello
  )
    requires EncodesFields(w, codec) && Signed(w, party, id, history, ClientSigningMessage(w, ch))
    ensures Offer(ch.responder, ch.nonce) in history && Offers(w, codec, party, id, ch)
  {
    hide Accept, ClientSigningMessage, ServerSigningMessage, Serialize, PartySign, LocalSessionIdentity;
    var act :| act in history && ActMessage(w, party, id, act) == Some(ClientSigningMessage(w, ch));
    match act
    case Offer(peer, nonce) =>
      var own := BuildClientHello(w, party, id, peer, nonce).value;
      assert FieldsOfHello(codec, own) == FieldsOfHello(codec, ch);
    case Answer(hello, random) =>
      assert false;
  }

  /**
   An initiator that completes has authenticated its responder: that one, in an act on its record,
   answered a hello with these very fields by a reply with these very fields, and signed it.
   */
  lemma InitiatorAuthenticates(
    w: World, codec: Codec<SessionKeyScheme>, client: Party, server: Party, local: ValidatorId,
    ch: ClientHello, sh: ServerHello, history: iset<HandshakeAct>
  )
    requires EncodesFields(w, codec)
    requires Genuine(w, client, ServerSigningMessage(w, ch, sh), sh.signature, server, ch.responder, history)
    requires Finalize(w, client, local, ch, sh).Ok?
    ensures local == ch.initiator && Signed(w, server, ch.responder, history, ServerSigningMessage(w, ch, sh))
    ensures exists hello, random ::
              Answer(hello, random) in history && Answers(w, codec, server, ch.responder, hello, random, ch, sh)
  {
    hide EncodesFields, Finalize, PartyVerify, Signed, ServerSigningMessage, Answers;
    CompletionChecks(w, client, server, ch, sh, local, []);
    SignedReplyAnswers(w, codec, server, ch.responder, history, ch, sh);
  }

  /**
   A responder that completes has authenticated its initiator: that one, in an act on its record, built
   a hello with these very fields for this responder, under its own encapsulation key, and signed it.
   */
  lemma ResponderAuthenticates(
    w: World, codec: Codec<SessionKeyScheme>, client: Party, server: Party, local: ValidatorId,
    ch: ClientHello, random: seq<byte>, history: iset<HandshakeAct>
  )
    requires EncodesFields(w, codec)
    requires Genuine(w, server, ClientSigningMessage(w, ch), ch.signature, client, ch.initiator, history)
    requires Accept(w, server, local, ch, random).Ok?
    ensures local == ch.responder && Signed(w, client, ch.initiator, history, ClientSigningMessage(w, ch))
    ensures Offer(ch.responder, ch.nonce) in history && Offers(w, codec, client, ch.initiator, ch)
    ensures OwnHello(client, ch)
  {
    hide EncodesFields, Accept, PartyVerify, Signed, ClientSigningMessage, Offers;
    CompletionChecks(w, client, server, ch, Accept(w, server, local, ch, random).value.0, local, random);
    SignedHelloOffered(w, codec, client, ch.initiator, history, ch);
    OfferedIsOwn(w, codec, client, ch.initiator, ch);
  }

  lemma OfferedIsOwn(w: World, codec: Codec<SessionKeyScheme>, client: Party, id: ValidatorId, ch: ClientHello)
    requires Offers(w, codec, client, id, ch)
    ensures OwnHello(client, ch)
  {
    hide Serialize, PartySign;
    BuiltHelloIsOwn(w, client, id, ch.responder, ch.nonce);
  }

  // ---- An encoding that meets the law ----

  /** Every byte announced by a 1, the end by a 0. */
  function Delimit(bytes: seq<byte>): seq<byte> {
    if bytes == [] then [0] else [1, bytes[0]] + Delimit(bytes[1..])
  }

  lemma {:induction false} DelimitInjective(a: seq<byte>, x: seq<byte>, b: seq<byte>, y: seq<byte>)
    requires Delimit(a) + x == Delimit(b) + y
    ensures a == b && x == y
    decreases |a|
  {
    var s, t := Delimit(a) + x, Delimit(b) + y;
    assert s[0] == t[0];
    if a == [] {
      assert s[1..] == x && t[1..] == y;
    } else {
      assert s[1] == a[0] && t[1] == b[0];
      assert s[2..] == Delimit(a[1..]) + x && t[2..] == Delimit(b[1..]) + y;
      DelimitInjective(a[1..], x, b[1..], y);
      HeadAndTail(a);
      HeadAndTail(b);
    }
  }

  function SchemeByte(scheme: SessionKeyScheme): byte {
    match scheme
    case DevDeterministic => 0
    case MlKem => 1
    case Hybrid => 2
  }

  function Pack(x: ValidatorId, y: ValidatorId, nonce: HashBytes, identity: Raw<SessionKeyScheme>, kem: seq<byte>):
    seq<byte>
  {
    BeBytes(x, 8) + (BeBytes(y, 8) + (nonce + ([SchemeByte(identity.scheme)] + (Delimit(identity.payload) + kem))))
  }

  lemma SplitPrefix(a: seq<byte>, x: seq<byte>, b: seq<byte>, y: seq<byte>)
    requires |a| == |b| && a + x == b + y
    ensures a == b && x == y
  {
    assert a == (a + x)[..|a|] && b == (b + y)[..|a|];
    assert x == (a + x)[|a|..] && y == (b + y)[|a|..];
  }

  lemma PackInjective(
    x: ValidatorId, y: ValidatorId, nonce: HashBytes, identity: Raw<SessionKeyScheme>, kem: seq<byte>,
    x': ValidatorId, y': ValidatorId, nonce': HashBytes, identity': Raw<SessionKeyScheme>, kem': seq<byte>
  )
    requires Pack(x, y, nonce, identity, kem) == Pack(x', y', nonce', identity', kem')
    ensures x == x' && y == y' && nonce == nonce' && identity == identity' && kem == kem'
  {
    hide BeBytes, Delimit;
    var d, d' := Delimit(identity.payload) + kem, Delimit(identity'.payload) + kem';
    var c, c' := [SchemeByte(identity.scheme)] + d, [SchemeByte(identity'.scheme)] + d';
    PrefixNumber(x, BeBytes(y, 8) + (nonce + c), x', BeBytes(y', 8) + (nonce' + c'));
    PrefixNumber(y, nonce + c, y', nonce' + c');
    SplitPrefix(nonce, c, nonce', c');
    SplitPrefix([SchemeByte(identity.scheme)], d, [SchemeByte(identity'.scheme)], d');
    DelimitInjective(identity.payload, kem, identity'.payload, kem');
  }

  lemma PrefixNumber(m: u64, x: seq<byte>, n: u64, y: seq<byte>)
    requires BeBytes(m, 8) + x == BeBytes(n, 8) + y
    ensures m == n && x == y
  {
    BeBytesLength(m, 8);
    BeBytesLength(n, 8);
    SplitPrefix(BeBytes(m, 8), x, BeBytes(n, 8), y);
    Pow256Values();
    BeBytesInjective(m, n, 8);
  }

  /** A tagged encoding of the serialized fields, in the order the hellos list them. */
  function TaggedEncoding(codec: Codec<SessionKeyScheme>): Encoding {
    Encoding(
      (i: ValidatorId, r: ValidatorId, n: HashBytes, s: SessionPublicIdentity, k: seq<byte>) =>
        [1] + Pack(i, r, n, Serialize(SessionKeyScheme.Hybrid, codec, s), k),
      (m: seq<byte>, r: ValidatorId, i: ValidatorId, n: HashBytes, s: SessionPublicIdentity, k: seq<byte>) =>
        [2] + (Delimit(m) + Pack(r, i, n, Serialize(SessionKeyScheme.Hybrid, codec, s), k)),
      (ch: ClientHello) => [], (sh: ServerHello) => [])
  }

  /** So the law that the authentication results assume can be met, for every codec of component lists. */
  lemma TaggedEncodingEncodesFields(w: World, codec: Codec<SessionKeyScheme>)
    requires w.enc == TaggedEncoding(codec)
    ensures EncodesFields(w, codec)
  {
    hide ClientSigningMessage, ServerSigningMessage, FieldsOfHello, FieldsOfReply, TaggedEncoding;
    forall ch, other
      ensures ClientSigningMessage(w, ch) == ClientSigningMessage(w, other) <==>
              FieldsOfHello(codec, ch) == FieldsOfHello(codec, other)
    {
      TaggedHello(w, codec, ch, other);
    }
    forall ch, sh, other, reply
      ensures ServerSigningMessage(w, ch, sh) == ServerSigningMessage(w, other, reply) <==>
              FieldsOfHello(codec, ch) == FieldsOfHello(codec, other) &&
              FieldsOfReply(codec, sh) == FieldsOfReply(codec, reply)
    {
      TaggedReply(w, codec, ch, sh, other, reply);
    }
    forall ch, other, sh ensures ClientSigningMessage(w, ch) != ServerSigningMessage(w, other, sh) {
      TagsApart(w, codec, ch, other, sh);
    }
  }

  lemma TagsApart(w: World, codec: Codec<SessionKeyScheme>, ch: ClientHello, other: ClientHello, sh: ServerHello)
    requires w.enc == TaggedEncoding(codec)
    ensures ClientSigningMessage(w, ch) != ServerSigningMessage(w, other, sh)
  {
    hide Pack, Delimit, Serialize;
    assert ClientSigningMessage(w, ch)[0] != ServerSigningMessage(w, other, sh)[0];
  }

  lemma TaggedHello(w: World, codec: Codec<SessionKeyScheme>, ch: ClientHello, other: ClientHello)
    requires w.enc == TaggedEncoding(codec)
    ensures ClientSigningMessage(w, ch) == ClientSigningMessage(w, other) <==>
            FieldsOfHello(codec, ch) == FieldsOfHello(codec, other)
  {
    hide Pack, Serialize;
    if ClientSigningMessage(w, ch) == ClientSigningMessage(w, other) {
      var f, g := FieldsOfHello(codec, ch), FieldsOfHello(codec, other);
      SplitPrefix([1], Pack(f.initiator, f.responder, f.nonce, f.identity, f.kem),
                  [1], Pack(g.initiator, g.responder, g.nonce, g.identity, g.kem));
      PackInjective(f.initiator, f.responder, f.nonce, f.identity, f.kem,
                    g.initiator, g.responder, g.nonce, g.identity, g.kem);
    }
  }

  lemma TaggedReply(
    w: World, codec: Codec<SessionKeyScheme>, ch: ClientHello, sh: ServerHello, other: ClientHello, reply: ServerHello
  )
    requires w.enc == TaggedEncoding(codec)
    ensures ServerSigningMessage(w, ch, sh) == ServerSigningMessage(w, other, reply) <==>
            FieldsOfHello(codec, ch) == FieldsOfHello(codec, other) &&
            FieldsOfReply(codec, sh) == FieldsOfReply(codec, reply)
  {
    hide Pack, Serialize, Delimit, ClientSigningMessage;
    TaggedHello(w, codec, ch, other);
    if ServerSigningMessage(w, ch, sh) == ServerSigningMessage(w, other, reply) {
      var f, g := FieldsOfReply(codec, sh), FieldsOfReply(codec, reply);
      var x := Pack(f.responder, f.initiator, f.nonce, f.identity, f.kem);
      var y := Pack(g.responder, g.initiator, g.nonce, g.identity, g.kem);
      var m, n := ClientSigningMessage(w, ch), ClientSigningMessage(w, other);
      SplitPrefix([2], Delimit(m) + x, [2], Delimit(n) + y);
      DelimitInjective(m, x, n, y);
      PackInjective(f.responder, f.initiator, f.nonce, f.identity, f.kem,
                    g.responder, g.initiator, g.nonce, g.identity, g.kem);
    }
  }

  // ---- Hellos on the wire ----

  datatype Codecs = Codecs(session: Codec<SessionKeyScheme>, signature: Codec<SignatureScheme>)

  ghost predicate BothDelimit(codecs: Codecs) {
    SelfDelimiting(codecs.session) && SelfDelimiting(codecs.signature)
  }

  /** A hello in its binary form: the fields as they are, the two containers serialized. */
  datatype WireHello = WireHello(fields: ClientFields, signature: Raw<SignatureScheme>)

  datatype WireReply = WireReply(fields: ServerFields, signature: Raw<SignatureScheme>)

  function EncodeHello(codecs: Codecs, ch: ClientHello): WireHello {
    WireHello(FieldsOfHello(codecs.session, ch), Serialize(SignatureScheme.Hybrid, codecs.signature, ch.signature))
  }

  function DecodeHello(codecs: Codecs, wire: WireHello): Result<ClientHello, BundleError> {
    var f := wire.fields;
    match DeserializeSession(codecs.session, f.identity)
    case Err(e) => Err(e)
    case Ok(identity) =>
      match Deserialize(SignatureScheme.Hybrid, codecs.signature, wire.signature)
      case Err(e) => Err(e)
      case Ok(signature) => Ok(ClientHello(f.initiator, f.responder, f.nonce, identity, f.kem, signature))
  }

  function EncodeReply(codecs: Codecs, sh: ServerHello): WireReply {
    WireReply(FieldsOfReply(codecs.session, sh), Serialize(SignatureScheme.Hybrid, codecs.signature, sh.signature))
  }

  function DecodeReply(codecs: Codecs, wire: WireReply): Result<ServerHello, BundleError> {
    var f := wire.fields;
    match DeserializeSession(codecs.session, f.identity)
    case Err(e) => Err(e)
    case Ok(identity) =>
      match Deserialize(SignatureScheme.Hybrid, codecs.signature, wire.signature)
      case Err(e) => Err(e)
      case Ok(signature) => Ok(ServerHello(f.responder, f.initiator, f.nonce, identity, f.kem, signature))
  }

  /** A signature the node makes keeps nothing in the half that its binary form drops. */
  lemma OwnSignatureRoundTrips(
    w: World, codec: Codec<SignatureScheme>, party: Party, id: ValidatorId, message: Message
  )
    requires SelfDelimiting(codec) && PartySign(w, party, id, message).Ok?
    ensures var signature := PartySign(w, party, id, message).value;
            Deserialize(SignatureScheme.Hybrid, codec, Serialize(SignatureScheme.Hybrid, codec, signature))
            == Ok(signature)
  {
    hide SelfDelimiting, Serialize, Deserialize, FirstFault;
    RoundTrip(SignatureScheme.Hybrid, codec, PartySign(w, party, id, message).value);
  }

  /** The hello a party sends decodes to itself exactly when its session identity is well-formed. */
  lemma HelloOnWire(
    w: World, codecs: Codecs, party: Party, local: ValidatorId, peer: ValidatorId, nonce: HashBytes
  )
    requires BothDelimit(codecs) && BuildClientHello(w, party, local, peer, nonce).Ok?
    ensures var ch := BuildClientHello(w, party, local, peer, nonce).value;
            DecodeHello(codecs, EncodeHello(codecs, ch)) == Ok(ch) <==>
            WellFormed(SessionKeyScheme.Hybrid, LocalSessionIdentity(party, local))
  {
    hide PartySign, LocalSessionIdentity, WellFormed, Serialize, Deserialize, DeserializeSession, SelfDelimiting,
         ClientSigningMessage;
    var unsigned := UnsignedClientHello(party, local, peer, nonce);
    OwnSignatureRoundTrips(w, codecs.signature, party, local, ClientSigningMessage(w, unsigned));
    SessionRoundTrip(codecs.session, unsigned.sessionIdentity);
  }

  /** And so does the reply it gives. */
  lemma ReplyOnWire(
    w: World, codecs: Codecs, party: Party, local: ValidatorId, ch: ClientHello, random: seq<byte>
  )
    requires BothDelimit(codecs) && Accept(w, party, local, ch, random).Ok?
    ensures var sh := Accept(w, party, local, ch, random).value.0;
            DecodeReply(codecs, EncodeReply(codecs, sh)) == Ok(sh) <==>
            WellFormed(SessionKeyScheme.Hybrid, LocalSessionIdentity(party, local))
  {
    hide PartySign, PartyVerify, LocalSessionIdentity, WellFormed, Serialize, Deserialize, DeserializeSession,
         SelfDelimiting, ServerSigningMessage, AnswerKem, DeterministicComponent, Derive;
    var answer, identity := AnswerKem(w, party, ch, random).value, LocalSessionIdentity(party, local);
    var unsigned := ServerHello(local, ch.initiator, ch.nonce, identity, answer.ciphertext, UNSIGNED);
    OwnSignatureRoundTrips(w, codecs.signature, party, local, ServerSigningMessage(w, ch, unsigned));
    SessionRoundTrip(codecs.session, identity);
  }
}
