/** Building a node's crypto backend from genesis and its configuration, and what the checks buy. */
module Backend {
  import opened Prelude
  import opened Sequences
  import opened Containers
  import opened Signing

  datatype SigningKind = DevDeterministic | MlDsa65Experimental | HybridDeterministicMlDsaExperimental
  datatype SessionKind = DevDeterministicSession | HybridDeterministicMlKemExperimental

  datatype MlDsaKeyFile = MlDsaKeyFile(signingKey: seq<byte>, verifyingKey: seq<byte>)
  datatype MlKemKeyFile = MlKemKeyFile(decapsulationKey: seq<byte>, encapsulationKey: seq<byte>)

  /** Key files are None when the path is missing or the file cannot be read or parsed. */
  datatype NodeConfig = NodeConfig(
    validatorId: ValidatorId,
    signingKind: SigningKind,
    signingKeyFile: Option<MlDsaKeyFile>,
    sessionKind: SessionKind,
    sessionKeyFile: Option<MlKemKeyFile>
  )

  datatype SessionBackend =
    | DeterministicSession
    | HybridSession(keys: MlKemKeyFile, identity: SessionPublicIdentity)

  datatype ConfiguredBackend = ConfiguredBackend(
    localId: ValidatorId,
    signer: SigningBackend,
    session: SessionBackend,
    ring: KeyRing,
    sessionIdentities: map<ValidatorId, Option<SessionPublicIdentity>>
  )

  // ---- Loading ----

  function ValidateDeterministicIdentity(v: Validator): Result<(), CryptoError> {
    if v.publicIdentity == DEFAULT_IDENTITY then Ok(())
    else
      var expected := Some(DeterministicIdentityBytes(v.id));
      match v.publicIdentity.scheme
      case DevDeterministic =>
        if AsSingleBytes(PublicKeyScheme.Hybrid, v.publicIdentity) != expected then Err(IdentityMismatch) else Ok(())
      case Hybrid =>
        if ComponentBytes(PublicKeyScheme.Hybrid, v.publicIdentity, PublicKeyScheme.DevDeterministic) != expected
        then Err(IdentityMismatch) else Ok(())
      case _ => Err(IdentityMismatch)
  }

  function LoadMlDsaKey(p: Primitives, v: Validator, file: Option<MlDsaKeyFile>): Result<seq<byte>, CryptoError> {
    if file.None? || !p.signingKeyDecodes(file.value.signingKey) || !p.verifyingKeyDecodes(file.value.verifyingKey)
    then Err(KeyFileUnusable)
    else if EncodedMlDsaKey(v.publicIdentity) != Some(file.value.verifyingKey) then Err(IdentityMismatch)
    else Ok(file.value.signingKey)
  }

  /** The ML-KEM bytes a session identity advertises. */
  function AdvertisedMlKem(identity: SessionPublicIdentity): Option<seq<byte>> {
    match identity.scheme
    case MlKem => AsSingleBytes(SessionKeyScheme.Hybrid, identity)
    case Hybrid => ComponentBytes(SessionKeyScheme.Hybrid, identity, SessionKeyScheme.MlKem)
    case DevDeterministic => None
  }

  function LoadMlKemSession(v: Validator, file: Option<MlKemKeyFile>): Result<SessionBackend, CryptoError> {
    if file.None? then Err(KeyFileUnusable)
    else if v.sessionIdentity.None? then Err(IdentityMismatch)
    else if file.value.decapsulationKey == [] || file.value.encapsulationKey == [] then Err(KeyFileUnusable)
    else if AdvertisedMlKem(v.sessionIdentity.value) != Some(file.value.encapsulationKey) then Err(IdentityMismatch)
    else Ok(HybridSession(file.value, v.sessionIdentity.value))
  }

  function BuildSession(v: Validator, config: NodeConfig): Result<SessionBackend, CryptoError> {
    match config.sessionKind
    case DevDeterministicSession => Ok(DeterministicSession)
    case HybridDeterministicMlKemExperimental => LoadMlKemSession(v, config.sessionKeyFile)
  }

  function BuildSigner(p: Primitives, v: Validator, config: NodeConfig): Result<SigningBackend, CryptoError> {
    match config.signingKind
    case DevDeterministic =>
      (match ValidateDeterministicIdentity(v)
       case Err(e) => Err(e)
       case Ok(_) => Ok(Deterministic))
    case MlDsa65Experimental =>
      (match LoadMlDsaKey(p, v, config.signingKeyFile)
       case Err(e) => Err(e)
       case Ok(key) => Ok(MlDsa65(key)))
    case HybridDeterministicMlDsaExperimental =>
      (match ValidateDeterministicIdentity(v)
       case Err(e) => Err(e)
       case Ok(_) =>
         match LoadMlDsaKey(p, v, config.signingKeyFile)
         case Err(e) => Err(e)
         case Ok(key) => Ok(HybridDeterministicMlDsa65(key)))
  }

  /** `build_crypto_backend`. */
  function BuildCryptoBackend(
    p: Primitives, genesis: seq<Validator>, config: NodeConfig
  ): Result<ConfiguredBackend, CryptoError> {
    match FindValidator(genesis, config.validatorId)
    case None => Err(UnknownValidator)
    case Some(v) =>
      match BuildSession(v, config)
      case Err(e) => Err(e)
      case Ok(session) =>
        match BuildSigner(p, v, config)
        case Err(e) => Err(e)
        case Ok(signer) =>
          match VerifyingKeys(p, genesis)
          case Err(e) => Err(e)
          case Ok(verifyingKeys) =>
            Ok(ConfiguredBackend(config.validatorId, signer, session,
                                 KeyRing(Secrets(genesis), Identities(genesis), verifyingKeys),
                                 SessionIdentities(genesis)))
  }

  function SignWith(p: Primitives, b: ConfiguredBackend, message: Message): Result<TypedSignature, CryptoError> {
    Sign(p, b.ring, b.signer, b.localId, b.localId, message)
  }

  // ---- What a built backend knows about itself ----

  /**
   What a built backend knows about its own validator: start-up checked the first genesis entry with its
   id, and the maps hold the last one.
   */
  lemma BuiltBackend(p: Primitives, genesis: seq<Validator>, config: NodeConfig)
    returns (first: Validator, last: Validator)
    requires BuildCryptoBackend(p, genesis, config).Ok?
    ensures FindValidator(genesis, config.validatorId) == Some(first)
    ensures LastValidator(genesis, config.validatorId) == Some(last)
    ensures var b := BuildCryptoBackend(p, genesis, config).value;
            && first.id == b.localId == config.validatorId
            && BuildSession(first, config) == Ok(b.session) && BuildSigner(p, first, config) == Ok(b.signer)
            && HoldsEntry(b, last)
  {
    hide BuildSession, BuildSigner, EncodedMlDsaKey;
    first := FindValidator(genesis, config.validatorId).value;
    var i := FoundInGenesis(genesis, config.validatorId);
    FoundIffHeld(genesis, config.validatorId);
    LastIffHeld(genesis, config.validatorId);
    last := LastValidator(genesis, config.validatorId).value;
    RingHoldsLast(p, genesis, config.validatorId);
  }

  /** The maps a node verifies with hold this entry for the node itself. */
  ghost predicate HoldsEntry(b: ConfiguredBackend, v: Validator) {
    && v.id == b.localId && b.localId in b.ring.secrets && b.ring.secrets[b.localId] == v.devSecret
    && b.localId in b.ring.identities && b.ring.identities[b.localId] == v.publicIdentity
    && b.localId in b.sessionIdentities && b.sessionIdentities[b.localId] == v.sessionIdentity
    && (EncodedMlDsaKey(v.publicIdentity).Some? ==>
          && b.localId in b.ring.verifyingKeys
          && b.ring.verifyingKeys[b.localId] == EncodedMlDsaKey(v.publicIdentity).value)
  }

  /** All nodes of one genesis verify with one and the same key ring. */
  lemma SharedRing(p: Primitives, genesis: seq<Validator>, a: NodeConfig, b: NodeConfig)
    requires BuildCryptoBackend(p, genesis, a).Ok? && BuildCryptoBackend(p, genesis, b).Ok?
    ensures BuildCryptoBackend(p, genesis, a).value.ring == BuildCryptoBackend(p, genesis, b).value.ring
    ensures BuildCryptoBackend(p, genesis, a).value.sessionIdentities ==
            BuildCryptoBackend(p, genesis, b).value.sessionIdentities
  {
  }

  /** FIPS 204: the two halves of the configured key file belong together. */
  ghost predicate SigningPair(p: Primitives, file: Option<MlDsaKeyFile>) {
    file.Some? ==>
      forall message ::
        p.mlDsaVerify(file.value.verifyingKey, message, p.mlDsaSign(file.value.signingKey, message))
  }

  /** Among the keys of genesis, only the file's own verifies this signature. */
  ghost predicate KeysTell(p: Primitives, genesis: seq<Validator>, file: Option<MlDsaKeyFile>, message: Message) {
    forall v :: v in genesis ==> KeyTells(p, v.publicIdentity, file, message)
  }

  ghost predicate KeyTells(p: Primitives, identity: PublicIdentity, file: Option<MlDsaKeyFile>, message: Message) {
    file.Some? && EncodedMlDsaKey(identity).Some? ==>
      var key := EncodedMlDsaKey(identity).value;
      p.mlDsaVerify(key, message, p.mlDsaSign(file.value.signingKey, message)) ==> key == file.value.verifyingKey
  }

  /** What an identity must look like for this signer's signatures; `key` is the verifying half of its file. */
  ghost predicate Covers(identity: PublicIdentity, signer: SigningBackend, file: Option<MlDsaKeyFile>) {
    match signer
    case Deterministic => CarriesScheme(identity, PublicKeyScheme.DevDeterministic)
    case MlDsa65(_) => file.Some? && EncodedMlDsaKey(identity) == Some(file.value.verifyingKey)
    case HybridDeterministicMlDsa65(_) =>
      && identity.scheme.Hybrid? && |identity.components| == 2
      && (forall c :: c in identity.components ==> c.scheme.DevDeterministic? || c.scheme.MlDsa?)
      && (file.Some? && EncodedMlDsaKey(identity).Some? ==>
            EncodedMlDsaKey(identity).value == file.value.verifyingKey)
  }

  /** A hybrid signer signs with two components, which a longer hybrid identity does not accept. */
  predicate SignerCoversIdentity(b: ConfiguredBackend) {
    b.localId in b.ring.identities &&
    (b.signer.HybridDeterministicMlDsa65? ==> |b.ring.identities[b.localId].components| == 2)
  }

  /**
   A backend that passed the start-up checks signs messages that its own identity in the key ring accepts,
   exactly when that identity covers its signer. Where its id names one genesis entry, that is: unless it
   signs hybrid for an identity with other than two components.
   */
  lemma OwnSignatureVerifiesIff(p: Primitives, genesis: seq<Validator>, config: NodeConfig, message: Message)
    requires BuildCryptoBackend(p, genesis, config).Ok? && SigningPair(p, config.signingKeyFile)
    requires Unambiguous(genesis, config.validatorId) || KeysTell(p, genesis, config.signingKeyFile, message)
    ensures var b := BuildCryptoBackend(p, genesis, config).value;
            && SignWith(p, b, message).Ok? && b.localId in b.ring.identities
            && var accepted := Verify(p, b.ring, b.localId, message, SignWith(p, b, message).value) == Ok(true);
               && (accepted <==> Covers(b.ring.identities[b.localId], b.signer, config.signingKeyFile))
               && (Unambiguous(genesis, config.validatorId) ==> (accepted <==> SignerCoversIdentity(b)))
  {
    hide EncodedMlDsaKey, BuildSession, Verify, Covers, VerifyingKeys, CarriesScheme, ComponentBytes;
    var b := BuildCryptoBackend(p, genesis, config).value;
    var first, last := BuiltBackend(p, genesis, config);
    var i := LastInGenesis(genesis, config.validatorId);
    assert last in genesis;
    if first == last {
      CheckedIdentityCovers(p, first, config, b);
    }
    match b.signer
    case Deterministic => DeterministicVerifiesIff(p, last, b, config.signingKeyFile, message);
    case MlDsa65(key) => MlDsaVerifiesIff(p, last, b, config.signingKeyFile, message);
    case HybridDeterministicMlDsa65(key) => HybridVerifiesIff(p, last, b, config.signingKeyFile, message);
  }

  /** The identity start-up compared always fits the signer, up to the number of components. */
  lemma CheckedIdentityCovers(p: Primitives, v: Validator, config: NodeConfig, b: ConfiguredBackend)
    requires BuildSigner(p, v, config) == Ok(b.signer) && HoldsEntry(b, v)
    ensures Covers(v.publicIdentity, b.signer, config.signingKeyFile) <==> SignerCoversIdentity(b)
    ensures !b.signer.Deterministic? ==>
              && config.signingKeyFile.Some?
              && EncodedMlDsaKey(v.publicIdentity) == Some(config.signingKeyFile.value.verifyingKey)
  {
    var identity := v.publicIdentity;
    if b.signer.Deterministic? {
      FindComponentExact(identity.components, PublicKeyScheme.DevDeterministic);
    }
    if b.signer.HybridDeterministicMlDsa65? && |identity.components| == 2 {
      TwoComponents(v);
    }
  }

  lemma CarriesIffEncoded(identity: PublicIdentity)
    ensures CarriesScheme(identity, PublicKeyScheme.MlDsa) <==> EncodedMlDsaKey(identity).Some?
  {
    FindComponentExact(identity.components, PublicKeyScheme.MlDsa);
  }

  lemma DeterministicVerifiesIff(
    p: Primitives, v: Validator, b: ConfiguredBackend, file: Option<MlDsaKeyFile>, message: Message
  )
    requires HoldsEntry(b, v) && b.signer.Deterministic?
    ensures SignWith(p, b, message).Ok?
    ensures Verify(p, b.ring, b.localId, message, SignWith(p, b, message).value) == Ok(true) <==>
            Covers(v.publicIdentity, b.signer, file)
  {
    hide CarriesScheme, EncodedMlDsaKey, VerifyAgainstIdentity;
    SingleVerificationExact(p, b.ring, b.localId, v.publicIdentity, message, SignWith(p, b, message).value);
  }

  lemma MlDsaVerifiesIff(
    p: Primitives, v: Validator, b: ConfiguredBackend, file: Option<MlDsaKeyFile>, message: Message
  )
    requires HoldsEntry(b, v) && file.Some? && b.signer == MlDsa65(file.value.signingKey)
    requires SigningPair(p, file) && KeyTells(p, v.publicIdentity, file, message)
    ensures SignWith(p, b, message).Ok?
    ensures Verify(p, b.ring, b.localId, message, SignWith(p, b, message).value) == Ok(true) <==>
            Covers(v.publicIdentity, b.signer, file)
  {
    hide CarriesScheme, EncodedMlDsaKey, VerifyAgainstIdentity;
    CarriesIffEncoded(v.publicIdentity);
    SingleVerificationExact(p, b.ring, b.localId, v.publicIdentity, message, SignWith(p, b, message).value);
  }

  lemma HybridSignatureParts(p: Primitives, b: ConfiguredBackend, key: seq<byte>, message: Message)
    requires b.localId in b.ring.secrets && b.signer == HybridDeterministicMlDsa65(key)
    ensures SignWith(p, b, message) == Ok(Bundle(SignatureScheme.Hybrid, [],
              HybridParts(p.hashMany([b.ring.secrets[b.localId], message]), p.mlDsaSign(key, message))))
  {
    var parts := HybridParts(p.hashMany([b.ring.secrets[b.localId], message]), p.mlDsaSign(key, message));
    var schemes := Schemes(parts);
    assert schemes == [SignatureScheme.DevDeterministic, SignatureScheme.MlDsa];
    HybridOfExact(SignatureScheme.Hybrid, parts);
    assert ValidComponents(SignatureScheme.Hybrid, parts);
    assert HybridOf(SignatureScheme.Hybrid, parts).Ok?;
  }

  lemma HybridVerifiesIff(
    p: Primitives, v: Validator, b: ConfiguredBackend, file: Option<MlDsaKeyFile>, message: Message
  )
    requires HoldsEntry(b, v) && file.Some? && b.signer == HybridDeterministicMlDsa65(file.value.signingKey)
    requires SigningPair(p, file) && KeyTells(p, v.publicIdentity, file, message)
    ensures SignWith(p, b, message).Ok?
    ensures Verify(p, b.ring, b.localId, message, SignWith(p, b, message).value) == Ok(true) <==>
            Covers(v.publicIdentity, b.signer, file)
  {
    var identity := v.publicIdentity;
    HybridSignatureParts(p, b, file.value.signingKey, message);
    var signature := SignWith(p, b, message).value;
    if identity.scheme.Hybrid? && |identity.components| == 2 {
      forall c | c in identity.components
        ensures Satisfied(p, b.ring, b.localId, message, c.scheme, signature.components) <==>
                PartAccepted(identity, c.scheme, file)
      {
        PartSatisfiedIff(p, v, b, file, message, c, signature.components);
      }
      hide Satisfied, EncodedMlDsaKey;
      LoopAccepts(p, b.ring, b.localId, message, identity.components, signature);
      CarriesIffEncoded(identity);
      MlDsaComponentGiven(identity);
    }
  }

  /** Which component schemes of an identity a two-part hybrid signature answers to. */
  ghost predicate PartAccepted(identity: PublicIdentity, scheme: PublicKeyScheme, file: Option<MlDsaKeyFile>)
    requires file.Some?
  {
    || scheme.DevDeterministic?
    || (scheme.MlDsa? && EncodedMlDsaKey(identity) == Some(file.value.verifyingKey))
  }

  lemma MlDsaComponentGiven(identity: PublicIdentity)
    requires identity.scheme.Hybrid?
    ensures EncodedMlDsaKey(identity).Some? <==> exists c :: c in identity.components && c.scheme.MlDsa?
  {
    FindComponentExact(identity.components, PublicKeyScheme.MlDsa);
    var schemes := Schemes(identity.components);
    assert forall i :: 0 <= i < |schemes| ==> schemes[i] == identity.components[i].scheme;
    if c :| c in identity.components && c.scheme.MlDsa? {
      var i :| 0 <= i < |identity.components| && identity.components[i] == c;
      assert schemes[i].MlDsa?;
    }
  }

  lemma PartSatisfiedIff(
    p: Primitives, v: Validator, b: ConfiguredBackend, file: Option<MlDsaKeyFile>, message: Message,
    c: Component<PublicKeyScheme>, parts: seq<Component<SignatureScheme>>
  )
    requires HoldsEntry(b, v) && file.Some? && v.publicIdentity.scheme.Hybrid? && c in v.publicIdentity.components
    requires SigningPair(p, file) && KeyTells(p, v.publicIdentity, file, message)
    requires parts == HybridParts(p.hashMany([b.ring.secrets[b.localId], message]),
                                  p.mlDsaSign(file.value.signingKey, message))
    ensures Satisfied(p, b.ring, b.localId, message, c.scheme, parts) <==>
            PartAccepted(v.publicIdentity, c.scheme, file)
  {
    hide EncodedMlDsaKey;
    assert FindComponent(parts, SignatureScheme.DevDeterministic) == Some(parts[0].bytes);
    assert FindComponent(parts[1..], SignatureScheme.MlDsa) == Some(parts[1].bytes);
    assert FindComponent(parts, SignatureScheme.MlDsa) == Some(parts[1].bytes);
    MlDsaComponentGiven(v.publicIdentity);
  }

  lemma TwoComponents(v: Validator)
    requires v.publicIdentity.scheme.Hybrid? && |v.publicIdentity.components| == 2
    requires ComponentBytes(PublicKeyScheme.Hybrid, v.publicIdentity, PublicKeyScheme.DevDeterministic).Some?
    requires ComponentBytes(PublicKeyScheme.Hybrid, v.publicIdentity, PublicKeyScheme.MlDsa).Some?
    ensures forall c :: c in v.publicIdentity.components ==> c.scheme.DevDeterministic? || c.scheme.MlDsa?
  {
    var components := v.publicIdentity.components;
    FindComponentExact(components, PublicKeyScheme.DevDeterministic);
    FindComponentExact(components, PublicKeyScheme.MlDsa);
    assert components == [components[0], components[1]];
  }

  // ---- When start-up succeeds ----

  /** The deterministic identity of a validator: the default one, or the bytes of its name. */
  predicate NamedIdentity(v: Validator) {
    var name, identity := Ascii("validator-") + Decimal(v.id), v.publicIdentity;
    || identity == Single(PublicKeyScheme.DevDeterministic, [])
    || (identity.scheme.DevDeterministic? && identity.bytes == name)
    || (identity.scheme.Hybrid? && FindComponent(identity.components, PublicKeyScheme.DevDeterministic) == Some(name))
  }

  /** The identity shows this ML-DSA key. */
  predicate ShowsKey(identity: PublicIdentity, key: seq<byte>) {
    || (identity.scheme.MlDsa? && identity.bytes == key)
    || (identity.scheme.Hybrid? && FindComponent(identity.components, PublicKeyScheme.MlDsa) == Some(key))
  }

  /** The session identity shows this encapsulation key. */
  predicate ShowsKemKey(identity: SessionPublicIdentity, key: seq<byte>) {
    || (identity.scheme.MlKem? && identity.bytes == key)
    || (identity.scheme.Hybrid? && FindComponent(identity.components, SessionKeyScheme.MlKem) == Some(key))
  }

  predicate SigningKeyUsable(p: Primitives, v: Validator, file: Option<MlDsaKeyFile>) {
    && file.Some?
    && p.signingKeyDecodes(file.value.signingKey) && p.verifyingKeyDecodes(file.value.verifyingKey)
    && ShowsKey(v.publicIdentity, file.value.verifyingKey)
  }

  predicate SessionKeyUsable(v: Validator, file: Option<MlKemKeyFile>) {
    && file.Some? && v.sessionIdentity.Some?
    && file.value.decapsulationKey != [] && file.value.encapsulationKey != []
    && ShowsKemKey(v.sessionIdentity.value, file.value.encapsulationKey)
  }

  lemma SignerBuiltIff(p: Primitives, v: Validator, config: NodeConfig)
    ensures var r, file := BuildSigner(p, v, config), config.signingKeyFile;
            match config.signingKind
            case DevDeterministic =>
              (r.Ok? <==> NamedIdentity(v)) && (r.Ok? ==> r.value == Deterministic)
            case MlDsa65Experimental =>
              && (r.Ok? <==> SigningKeyUsable(p, v, file))
              && (r.Ok? ==> r.value == MlDsa65(file.value.signingKey))
            case HybridDeterministicMlDsaExperimental =>
              && (r.Ok? <==> NamedIdentity(v) && SigningKeyUsable(p, v, file))
              && (r.Ok? ==> r.value == HybridDeterministicMlDsa65(file.value.signingKey))
  {
    hide Decimal, Ascii, FindComponent;
  }

  lemma SessionBuiltIff(v: Validator, config: NodeConfig)
    ensures var r, file := BuildSession(v, config), config.sessionKeyFile;
            match config.sessionKind
            case DevDeterministicSession => r == Ok(DeterministicSession)
            case HybridDeterministicMlKemExperimental =>
              && (r.Ok? <==> SessionKeyUsable(v, file))
              && (r.Ok? ==> r.value == HybridSession(file.value, v.sessionIdentity.value))
  {
    hide FindComponent;
  }

  lemma {:induction false} VerifyingKeysIff(p: Primitives, genesis: seq<Validator>)
    ensures VerifyingKeys(p, genesis).Ok? <==>
            forall v, key :: v in genesis && ShowsKey(v.publicIdentity, key) ==> p.verifyingKeyDecodes(key)
    decreases |genesis|
  {
    hide FindComponent;
    if genesis != [] {
      var n := |genesis| - 1;
      VerifyingKeysIff(p, genesis[..n]);
      assert forall v :: v in genesis <==> v in genesis[..n] || v == genesis[n];
      var key := EncodedMlDsaKey(genesis[n].publicIdentity);
      assert forall k :: ShowsKey(genesis[n].publicIdentity, k) <==> key == Some(k);
    }
  }

  /**
   A node starts exactly when genesis lists it, its signing set-up and its session set-up fit that entry,
   and every ML-DSA key of genesis decodes.
   */
  lemma StartupIff(p: Primitives, genesis: seq<Validator>, config: NodeConfig)
    ensures var r, found := BuildCryptoBackend(p, genesis, config), FindValidator(genesis, config.validatorId);
            && (found.None? ==> r == Err(UnknownValidator))
            && (r.Ok? <==>
                && found.Some?
                && (config.sessionKind.HybridDeterministicMlKemExperimental? ==>
                      SessionKeyUsable(found.value, config.sessionKeyFile))
                && (!config.signingKind.MlDsa65Experimental? ==> NamedIdentity(found.value))
                && (!config.signingKind.DevDeterministic? ==>
                      SigningKeyUsable(p, found.value, config.signingKeyFile))
                && forall v, key :: v in genesis && ShowsKey(v.publicIdentity, key) ==> p.verifyingKeyDecodes(key))
  {
    hide BuildSigner, BuildSession, NamedIdentity, ShowsKey, VerifyingKeys;
    VerifyingKeysIff(p, genesis);
    if FindValidator(genesis, config.validatorId).Some? {
      SignerBuiltIff(p, FindValidator(genesis, config.validatorId).value, config);
      SessionBuiltIff(FindValidator(genesis, config.validatorId).value, config);
    }
  }

  /** The key ring of a built node answers for exactly the validators of genesis. */
  lemma BuiltNodeAnswers(
    p: Primitives, genesis: seq<Validator>, config: NodeConfig, id: ValidatorId, message: Message,
    signature: TypedSignature
  )
    requires BuildCryptoBackend(p, genesis, config).Ok?
    ensures Verify(p, BuildCryptoBackend(p, genesis, config).value.ring, id, message, signature).Ok? <==>
            id in Ids(genesis)
  {
    hide Verify, BuildSigner, BuildSession;
    var ring := BuildCryptoBackend(p, genesis, config).value.ring;
    forall x | x in ring.identities
      ensures x in ring.secrets
      ensures CarriesScheme(ring.identities[x], PublicKeyScheme.MlDsa) ==> x in ring.verifyingKeys
    {
      RingHoldsLast(p, genesis, x);
      CarriesIffEncoded(ring.identities[x]);
    }
    RingHoldsLast(p, genesis, id);
    LastIffHeld(genesis, id);
    VerifyAnswersIff(p, ring, id, message, signature);
  }

  // ---- The failing cases ----

  /** A genesis entry whose identity has a third component, and a hybrid signer configured for it. */
  const THREE_PART_VALIDATOR := Validator(1, [], Bundle(PublicKeyScheme.Hybrid, [], THREE_PARTS), None)

  const THREE_PARTS := [
    Component(PublicKeyScheme.DevDeterministic, DeterministicIdentityBytes(1)),
    Component(PublicKeyScheme.MlDsa, [9]),
    Component(PublicKeyScheme.Ed25519, [])
  ]

  const HYBRID_SIGNER_CONFIG :=
    NodeConfig(1, HybridDeterministicMlDsaExperimental, Some(MlDsaKeyFile([7], [9])), DevDeterministicSession, None)

  lemma ThreePartSchemes()
    ensures Schemes(THREE_PARTS) ==
            [PublicKeyScheme.DevDeterministic, PublicKeyScheme.MlDsa, PublicKeyScheme.Ed25519]
    ensures WellFormed(PublicKeyScheme.Hybrid, THREE_PART_VALIDATOR.publicIdentity)
    ensures EncodedMlDsaKey(THREE_PART_VALIDATOR.publicIdentity) == Some([9])
  {
    hide DeterministicIdentityBytes;
    var schemes := Schemes(THREE_PARTS);
    assert schemes == [PublicKeyScheme.DevDeterministic, PublicKeyScheme.MlDsa, PublicKeyScheme.Ed25519];
    assert FindComponent(THREE_PARTS[1..], PublicKeyScheme.MlDsa) == Some([9]);
  }

  lemma ThreePartBuilt(p: Primitives)
    requires p.signingKeyDecodes([7]) && p.verifyingKeyDecodes([9])
    ensures var built := BuildCryptoBackend(p, [THREE_PART_VALIDATOR], HYBRID_SIGNER_CONFIG);
            && built.Ok? && !SignerCoversIdentity(built.value) && built.value.localId == 1
    ensures Unambiguous([THREE_PART_VALIDATOR], 1)
  {
    hide DeterministicIdentityBytes, EncodedMlDsaKey;
    var genesis, v := [THREE_PART_VALIDATOR], THREE_PART_VALIDATOR;
    ThreePartSchemes();
    assert genesis[..0] == [];
    assert VerifyingKeys(p, genesis) == Ok(map[1 := [9]]);
    assert Identities(genesis) == map[1 := v.publicIdentity];
    assert LastValidator(genesis, 1) == Some(v) == FindValidator(genesis, 1);
    assert BuildSigner(p, v, HYBRID_SIGNER_CONFIG).Ok?;
  }

  /** Start-up accepts a hybrid signer for a well-formed identity of three components, which refuses its signatures. */
  lemma ThreePartIdentityRefused(p: Primitives, message: Message)
    requires p.signingKeyDecodes([7]) && p.verifyingKeyDecodes([9])
    requires SigningPair(p, HYBRID_SIGNER_CONFIG.signingKeyFile)
    ensures WellFormed(PublicKeyScheme.Hybrid, THREE_PART_VALIDATOR.publicIdentity)
    ensures var built := BuildCryptoBackend(p, [THREE_PART_VALIDATOR], HYBRID_SIGNER_CONFIG);
            && built.Ok? && !SignerCoversIdentity(built.value)
            && SignWith(p, built.value, message).Ok?
            && Verify(p, built.value.ring, 1, message, SignWith(p, built.value, message).value) != Ok(true)
  {
    hide BuildCryptoBackend, SignWith, Verify, SigningPair, SignerCoversIdentity;
    ThreePartSchemes();
    ThreePartBuilt(p);
    OwnSignatureVerifiesIff(p, [THREE_PART_VALIDATOR], HYBRID_SIGNER_CONFIG, message);
  }

  const REPEATED_ID := [
    Validator(1, [], DEFAULT_IDENTITY, None),
    Validator(1, [], Single(PublicKeyScheme.MlDsa, [9]), None)
  ]

  const DETERMINISTIC_CONFIG := NodeConfig(1, SigningKind.DevDeterministic, None, DevDeterministicSession, None)

  /** Start-up checks the first entry of a repeated id, the key ring verifies with the last: they need not fit. */
  lemma RepeatedIdRefused(p: Primitives, message: Message)
    requires p.verifyingKeyDecodes([9])
    ensures !Unambiguous(REPEATED_ID, 1)
    ensures var built := BuildCryptoBackend(p, REPEATED_ID, DETERMINISTIC_CONFIG);
            && built.Ok? && SignWith(p, built.value, message).Ok?
            && Verify(p, built.value.ring, 1, message, SignWith(p, built.value, message).value) == Ok(false)
  {
    var front := REPEATED_ID[..1];
    assert front == [REPEATED_ID[0]] && front[..0] == [];
    assert Secrets(front) == map[1 := []];
    assert VerifyingKeys(p, front) == Ok(map[]);
    assert FindValidator(REPEATED_ID, 1) == Some(REPEATED_ID[0]);
  }
}
