/** Signing backends, the key ring every node derives from genesis, and signature verification. */
module Signing {
  import opened Prelude
  import opened Sequences
  import opened Containers

  type Message = seq<byte>

  /** blake3 over the parts and ML-DSA-65 (FIPS 204), byte level. */
  datatype Primitives = Primitives(
    hashMany: seq<seq<byte>> -> HashBytes,
    mlDsaSign: (seq<byte>, Message) -> seq<byte>,
    mlDsaVerify: (seq<byte>, Message, seq<byte>) -> bool,
    signingKeyDecodes: seq<byte> -> bool,
    verifyingKeyDecodes: seq<byte> -> bool
  )

  datatype Validator = Validator(
    id: ValidatorId,
    devSecret: seq<byte>,
    publicIdentity: PublicIdentity,
    sessionIdentity: Option<SessionPublicIdentity>
  )

  datatype CryptoError =
    | UnknownValidator
    | NotLocalSigner
    | MissingVerifyingKey
    | IdentityMismatch
    | KeyFileUnusable
    | InvalidHybrid(reason: BundleError)

  function Ascii(s: string): seq<byte> {
    seq(|s|, i requires 0 <= i < |s| => s[i] as int % 256)
  }

  function Decimal(n: nat): seq<byte> {
    if n < 10 then [48 + n] else Decimal(n / 10) + [48 + n % 10]
  }

  function DeterministicIdentityBytes(id: ValidatorId): seq<byte> {
    Ascii("validator-") + Decimal(id)
  }

  lemma {:induction false} DecimalInjective(m: nat, n: nat)
    requires Decimal(m) == Decimal(n)
    ensures m == n
    decreases m
  {
    var s, t := Decimal(m), Decimal(n);
    assert s[|s| - 1] == t[|t| - 1];
    DecimalNotEmpty(m / 10);
    DecimalNotEmpty(n / 10);
    if m >= 10 && n >= 10 {
      assert s[..|s| - 1] == Decimal(m / 10) && t[..|t| - 1] == Decimal(n / 10);
      DecimalInjective(m / 10, n / 10);
    }
  }

  lemma DecimalNotEmpty(n: nat)
    ensures |Decimal(n)| >= 1
  {
  }

  /** No two validators share a deterministic identity. */
  lemma NamesDiffer(prefix: seq<byte>, a: ValidatorId, b: ValidatorId)
    requires prefix + Decimal(a) == prefix + Decimal(b)
    ensures a == b
  {
    assert (prefix + Decimal(a))[|prefix|..] == Decimal(a) && (prefix + Decimal(b))[|prefix|..] == Decimal(b);
    DecimalInjective(a, b);
  }

  const DEFAULT_IDENTITY: PublicIdentity := Single(PublicKeyScheme.DevDeterministic, [])

  // ---- Key ring ----

  /** What verification consults; secrets stand in for keys in the deterministic scheme. */
  datatype KeyRing = KeyRing(
    secrets: map<ValidatorId, seq<byte>>,
    identities: map<ValidatorId, PublicIdentity>,
    verifyingKeys: map<ValidatorId, seq<byte>>
  )

  function FindValidator(genesis: seq<Validator>, id: ValidatorId): Option<Validator> {
    if genesis == [] then None
    else if genesis[0].id == id then Some(genesis[0])
    else FindValidator(genesis[1..], id)
  }

  function Secrets(genesis: seq<Validator>): map<ValidatorId, seq<byte>> {
    if genesis == [] then map[]
    else
      var last := genesis[|genesis| - 1];
      Secrets(genesis[..|genesis| - 1])[last.id := last.devSecret]
  }

  function Identities(genesis: seq<Validator>): map<ValidatorId, PublicIdentity> {
    if genesis == [] then map[]
    else
      var last := genesis[|genesis| - 1];
      Identities(genesis[..|genesis| - 1])[last.id := last.publicIdentity]
  }

  function SessionIdentities(genesis: seq<Validator>): map<ValidatorId, Option<SessionPublicIdentity>> {
    if genesis == [] then map[]
    else
      var last := genesis[|genesis| - 1];
      SessionIdentities(genesis[..|genesis| - 1])[last.id := last.sessionIdentity]
  }

  function EncodedMlDsaKey(identity: PublicIdentity): Option<seq<byte>> {
    match identity.scheme
    case MlDsa => AsSingleBytes(PublicKeyScheme.Hybrid, identity)
    case Hybrid => ComponentBytes(PublicKeyScheme.Hybrid, identity, PublicKeyScheme.MlDsa)
    case _ => None
  }

  function VerifyingKeys(p: Primitives, genesis: seq<Validator>): Result<map<ValidatorId, seq<byte>>, CryptoError> {
    if genesis == [] then Ok(map[])
    else
      var last := genesis[|genesis| - 1];
      match VerifyingKeys(p, genesis[..|genesis| - 1])
      case Err(e) => Err(e)
      case Ok(keys) =>
        match EncodedMlDsaKey(last.publicIdentity)
        case None => Ok(keys)
        case Some(key) => if p.verifyingKeyDecodes(key) then Ok(keys[last.id := key]) else Err(KeyFileUnusable)
  }

  /** `build_ml_dsa_verifying_key_map`: every ML-DSA key in genesis must decode. */
  method BuildVerifyingKeyMap(p: Primitives, genesis: seq<Validator>)
    returns (r: Result<map<ValidatorId, seq<byte>>, CryptoError>)
    ensures r.Ok? ==> r == VerifyingKeys(p, genesis)
    ensures r.Err? ==> VerifyingKeys(p, genesis).Err?
    ensures r.Err? <==> exists v :: v in genesis && EncodedMlDsaKey(v.publicIdentity).Some? &&
                                    !p.verifyingKeyDecodes(EncodedMlDsaKey(v.publicIdentity).value)
  {
    var keys: map<ValidatorId, seq<byte>> := map[];
    for i := 0 to |genesis|
      invariant VerifyingKeys(p, genesis[..i]) == Ok(keys)
      invariant forall v :: v in genesis[..i] && EncodedMlDsaKey(v.publicIdentity).Some? ==>
                  p.verifyingKeyDecodes(EncodedMlDsaKey(v.publicIdentity).value)
    {
      assert genesis[..i + 1][..i] == genesis[..i];
      var key := EncodedMlDsaKey(genesis[i].publicIdentity);
      if key.Some? {
        if !p.verifyingKeyDecodes(key.value) {
          assert genesis[i] in genesis;
          BadKeyFails(p, genesis, i);
          return Err(KeyFileUnusable);
        }
        keys := keys[genesis[i].id := key.value];
      }
    }
    assert genesis[..|genesis|] == genesis;
    return Ok(keys);
  }

  lemma {:induction false} BadKeyFails(p: Primitives, genesis: seq<Validator>, i: nat)
    requires i < |genesis| && EncodedMlDsaKey(genesis[i].publicIdentity).Some?
    requires !p.verifyingKeyDecodes(EncodedMlDsaKey(genesis[i].publicIdentity).value)
    ensures VerifyingKeys(p, genesis).Err?
    decreases |genesis|
  {
    if i < |genesis| - 1 {
      BadKeyFails(p, genesis[..|genesis| - 1], i);
    }
  }

  function Ids(genesis: seq<Validator>): seq<ValidatorId> {
    seq(|genesis|, i requires 0 <= i < |genesis| => genesis[i].id)
  }

  function LastValidator(genesis: seq<Validator>, id: ValidatorId): Option<Validator> {
    if genesis == [] then None
    else if genesis[|genesis| - 1].id == id then Some(genesis[|genesis| - 1])
    else LastValidator(genesis[..|genesis| - 1], id)
  }

  /** The maps hold, for each id of genesis, the last entry with that id. */
  lemma {:induction false} RingHoldsLast(p: Primitives, genesis: seq<Validator>, id: ValidatorId)
    ensures var last := LastValidator(genesis, id);
            && (id in Secrets(genesis) <==> last.Some?)
            && (id in Identities(genesis) <==> last.Some?)
            && (id in SessionIdentities(genesis) <==> last.Some?)
            && (last.Some? ==>
                  && last.value.id == id
                  && Secrets(genesis)[id] == last.value.devSecret
                  && Identities(genesis)[id] == last.value.publicIdentity
                  && SessionIdentities(genesis)[id] == last.value.sessionIdentity
                  && (VerifyingKeys(p, genesis).Ok? && EncodedMlDsaKey(last.value.publicIdentity).Some? ==>
                        && id in VerifyingKeys(p, genesis).value
                        && VerifyingKeys(p, genesis).value[id] == EncodedMlDsaKey(last.value.publicIdentity).value))
    decreases |genesis|
  {
    hide EncodedMlDsaKey;
    if genesis != [] {
      RingHoldsLast(p, genesis[..|genesis| - 1], id);
    }
  }

  /** Start-up looks the validator up from the front, the maps keep the last entry: the same, for this id. */
  predicate Unambiguous(genesis: seq<Validator>, id: ValidatorId) {
    FindValidator(genesis, id) == LastValidator(genesis, id)
  }

  lemma {:induction false} LastInGenesis(genesis: seq<Validator>, id: ValidatorId) returns (i: nat)
    requires LastValidator(genesis, id).Some?
    ensures i < |genesis| && genesis[i] == LastValidator(genesis, id).value && genesis[i].id == id
    decreases |genesis|
  {
    i := |genesis| - 1;
    if genesis[i].id != id {
      i := LastInGenesis(genesis[..i], id);
    }
  }

  lemma {:induction false} FoundIffHeld(genesis: seq<Validator>, id: ValidatorId)
    ensures FindValidator(genesis, id).Some? <==> id in Ids(genesis)
    decreases |genesis|
  {
    var ids := Ids(genesis);
    if genesis != [] {
      FoundIffHeld(genesis[1..], id);
      assert ids == [genesis[0].id] + Ids(genesis[1..]);
    }
  }

  /** Unrepeated ids leave no ambiguity. */
  lemma UnrepeatedUnambiguous(genesis: seq<Validator>, id: ValidatorId)
    requires Distinct(Ids(genesis))
    ensures Unambiguous(genesis, id)
  {
    var ids := Ids(genesis);
    FoundIffHeld(genesis, id);
    LastIffHeld(genesis, id);
    if id in ids {
      var i := FoundInGenesis(genesis, id);
      var j := LastInGenesis(genesis, id);
      assert ids[i] == id && ids[j] == id;
    }
  }

  lemma {:induction false} LastIffHeld(genesis: seq<Validator>, id: ValidatorId)
    ensures LastValidator(genesis, id).Some? <==> id in Ids(genesis)
    decreases |genesis|
  {
    if genesis != [] {
      var front := genesis[..|genesis| - 1];
      LastIffHeld(front, id);
      assert Ids(genesis) == Ids(front) + [genesis[|genesis| - 1].id];
    }
  }

  lemma {:induction false} FoundInGenesis(genesis: seq<Validator>, id: ValidatorId) returns (i: nat)
    requires FindValidator(genesis, id).Some?
    ensures i < |genesis| && genesis[i] == FindValidator(genesis, id).value && genesis[i].id == id
  {
    if genesis[0].id == id {
      i := 0;
    } else {
      var j := FoundInGenesis(genesis[1..], id);
      i := j + 1;
    }
  }

  // ---- Signing ----

  datatype SigningBackend =
    | Deterministic
    | MlDsa65(signingKey: seq<byte>)
    | HybridDeterministicMlDsa65(signingKey: seq<byte>)

  function DeterministicSign(
    p: Primitives, ring: KeyRing, id: ValidatorId, message: Message
  ): Result<TypedSignature, CryptoError> {
    if id !in ring.secrets then Err(UnknownValidator)
    else Ok(Single(SignatureScheme.DevDeterministic, p.hashMany([ring.secrets[id], message])))
  }

  function Sign(
    p: Primitives, ring: KeyRing, signer: SigningBackend, localId: ValidatorId, id: ValidatorId, message: Message
  ): Result<TypedSignature, CryptoError> {
    match signer
    case Deterministic => DeterministicSign(p, ring, id, message)
    case MlDsa65(key) =>
      if id != localId then Err(NotLocalSigner)
      else Ok(Single(SignatureScheme.MlDsa, p.mlDsaSign(key, message)))
    case HybridDeterministicMlDsa65(key) =>
      if id != localId then Err(NotLocalSigner)
      else match DeterministicSign(p, ring, id, message)
        case Err(e) => Err(e)
        case Ok(deterministic) =>
          match HybridOf(SignatureScheme.Hybrid, HybridParts(deterministic.bytes, p.mlDsaSign(key, message)))
          case Err(reason) => Err(InvalidHybrid(reason))
          case Ok(signature) => Ok(signature)
  }

  function HybridParts(deterministic: seq<byte>, mlDsa: seq<byte>): seq<Component<SignatureScheme>> {
    [Component(SignatureScheme.DevDeterministic, deterministic), Component(SignatureScheme.MlDsa, mlDsa)]
  }

  // ---- Verification ----

  function VerifyComponent(
    p: Primitives, ring: KeyRing, id: ValidatorId, message: Message, scheme: SignatureScheme, bytes: seq<byte>
  ): Result<bool, CryptoError> {
    match scheme
    case DevDeterministic =>
      (match DeterministicSign(p, ring, id, message)
       case Err(e) => Err(e)
       case Ok(expected) => Ok(expected == Single(SignatureScheme.DevDeterministic, bytes)))
    case MlDsa =>
      if id !in ring.verifyingKeys then Err(MissingVerifyingKey)
      else Ok(p.mlDsaVerify(ring.verifyingKeys[id], message, bytes))
    case _ => Ok(false)
  }

  function SignatureSchemeOf(scheme: PublicKeyScheme): Option<SignatureScheme> {
    match scheme
    case DevDeterministic => Some(SignatureScheme.DevDeterministic)
    case MlDsa => Some(SignatureScheme.MlDsa)
    case _ => None
  }

  /** Each identity component must find its scheme in the signature and verify there. */
  function VerifyComponents(
    p: Primitives, ring: KeyRing, id: ValidatorId, message: Message,
    components: seq<Component<PublicKeyScheme>>, signature: TypedSignature
  ): Result<bool, CryptoError> {
    if components == [] then Ok(true)
    else match SignatureSchemeOf(components[0].scheme)
      case None => Ok(false)
      case Some(scheme) =>
        match ComponentBytes(SignatureScheme.Hybrid, signature, scheme)
        case None => Ok(false)
        case Some(bytes) =>
          match VerifyComponent(p, ring, id, message, scheme, bytes)
          case Err(e) => Err(e)
          case Ok(verified) =>
            if !verified then Ok(false)
            else VerifyComponents(p, ring, id, message, components[1..], signature)
  }

  function VerifySingle(
    p: Primitives, ring: KeyRing, id: ValidatorId, message: Message, scheme: SignatureScheme, signature: TypedSignature
  ): Result<bool, CryptoError> {
    if signature.scheme != scheme then Ok(false)
    else match AsSingleBytes(SignatureScheme.Hybrid, signature)
      case None => Ok(false)
      case Some(bytes) => VerifyComponent(p, ring, id, message, scheme, bytes)
  }

  /** The component schemes a single-scheme signature may satisfy in a hybrid identity. */
  function PublicKeySchemeOf(scheme: SignatureScheme): Option<PublicKeyScheme> {
    match scheme
    case DevDeterministic => Some(PublicKeyScheme.DevDeterministic)
    case MlDsa => Some(PublicKeyScheme.MlDsa)
    case _ => None
  }

  function VerifyAgainstIdentity(
    p: Primitives, ring: KeyRing, id: ValidatorId, identity: PublicIdentity, message: Message, signature: TypedSignature
  ): Result<bool, CryptoError> {
    match identity.scheme
    case DevDeterministic => VerifySingle(p, ring, id, message, SignatureScheme.DevDeterministic, signature)
    case MlDsa => VerifySingle(p, ring, id, message, SignatureScheme.MlDsa, signature)
    case Hybrid =>
      if signature.scheme.Hybrid? then
        if |signature.components| != |identity.components| then Ok(false)
        else VerifyComponents(p, ring, id, message, identity.components, signature)
      else (match PublicKeySchemeOf(signature.scheme)
        case None => Ok(false)
        case Some(scheme) =>
          if ComponentBytes(PublicKeyScheme.Hybrid, identity, scheme).None? then Ok(false)
          else VerifySingle(p, ring, id, message, signature.scheme, signature))
    case _ => Ok(false)
  }

  function Verify(
    p: Primitives, ring: KeyRing, id: ValidatorId, message: Message, signature: TypedSignature
  ): Result<bool, CryptoError> {
    if id !in ring.identities then Err(UnknownValidator)
    else VerifyAgainstIdentity(p, ring, id, ring.identities[id], message, signature)
  }

  /** The component loop of `verify_signature_against_identity`. */
  method VerifyHybrid(
    p: Primitives, ring: KeyRing, id: ValidatorId, identity: PublicIdentity, message: Message, signature: TypedSignature
  ) returns (r: Result<bool, CryptoError>)
    requires identity.scheme.Hybrid? && signature.scheme.Hybrid?
    ensures r == VerifyAgainstIdentity(p, ring, id, identity, message, signature)
    ensures Distinct(Schemes(identity.components)) ==>
              (r == Ok(true) <==> ExactComponents(p, ring, id, identity, message, signature))
  {
    if Distinct(Schemes(identity.components)) {
      HybridVerificationExact(p, ring, id, identity, message, signature);
    }
    if |signature.components| != |identity.components| {
      return Ok(false);
    }
    var components := identity.components;
    for i := 0 to |components|
      invariant VerifyComponents(p, ring, id, message, components, signature) ==
                VerifyComponents(p, ring, id, message, components[i..], signature)
    {
      hide VerifyComponent, ComponentBytes, ExactComponents;
      assert components[i..][0] == components[i] && components[i..][1..] == components[i + 1..];
      var scheme := SignatureSchemeOf(components[i].scheme);
      if scheme.None? {
        return Ok(false);
      }
      var bytes := ComponentBytes(SignatureScheme.Hybrid, signature, scheme.value);
      if bytes.None? {
        return Ok(false);
      }
      var verified := VerifyComponent(p, ring, id, message, scheme.value, bytes.value);
      if verified.Err? {
        return Err(verified.error);
      }
      if !verified.value {
        return Ok(false);
      }
    }
    return Ok(true);
  }

  // ---- What an accepted hybrid signature is ----

  /**
   What verification of one part means: a deterministic part is the hash of the validator's secret and the
   message, an ML-DSA part verifies under the validator's key, and no other scheme verifies.
   */
  predicate Verifies(p: Primitives, ring: KeyRing, id: ValidatorId, message: Message, c: Component<SignatureScheme>) {
    match c.scheme
    case DevDeterministic => id in ring.secrets && c.bytes == p.hashMany([ring.secrets[id], message])
    case MlDsa => id in ring.verifyingKeys && p.mlDsaVerify(ring.verifyingKeys[id], message, c.bytes)
    case _ => false
  }

  lemma VerifyComponentExact(
    p: Primitives, ring: KeyRing, id: ValidatorId, message: Message, scheme: SignatureScheme, bytes: seq<byte>
  )
    ensures VerifyComponent(p, ring, id, message, scheme, bytes) == Ok(true) <==>
            Verifies(p, ring, id, message, Component(scheme, bytes))
  {
  }

  /** The signature carries exactly the identity's schemes, each once, and every part verifies. */
  ghost predicate ExactComponents(
    p: Primitives, ring: KeyRing, id: ValidatorId, identity: PublicIdentity, message: Message, signature: TypedSignature
  ) {
    var wanted, parts := Schemes(identity.components), Schemes(signature.components);
    && (forall s :: s in wanted ==> s.DevDeterministic? || s.MlDsa?)
    && |parts| == |wanted| && Distinct(parts)
    && (PublicKeyScheme.DevDeterministic in wanted ==> SignatureScheme.DevDeterministic in parts)
    && (PublicKeyScheme.MlDsa in wanted ==> SignatureScheme.MlDsa in parts)
    && forall c :: c in signature.components ==> Verifies(p, ring, id, message, c)
  }

  /** One pass of the component loop, as a statement about each component. */
  ghost predicate Satisfied(
    p: Primitives, ring: KeyRing, id: ValidatorId, message: Message, scheme: PublicKeyScheme,
    parts: seq<Component<SignatureScheme>>
  ) {
    && SignatureSchemeOf(scheme).Some?
    && FindComponent(parts, SignatureSchemeOf(scheme).value).Some?
    && var wanted := SignatureSchemeOf(scheme).value;
       Verifies(p, ring, id, message, Component(wanted, FindComponent(parts, wanted).value))
  }

  lemma {:induction false} LoopAccepts(
    p: Primitives, ring: KeyRing, id: ValidatorId, message: Message,
    components: seq<Component<PublicKeyScheme>>, signature: TypedSignature
  )
    requires signature.scheme.Hybrid?
    ensures VerifyComponents(p, ring, id, message, components, signature) == Ok(true) <==>
            forall c :: c in components ==> Satisfied(p, ring, id, message, c.scheme, signature.components)
  {
    hide VerifyComponent, FindComponent, Verifies;
    if components != [] {
      var scheme := SignatureSchemeOf(components[0].scheme);
      if scheme.Some? {
        var found := FindComponent(signature.components, scheme.value);
        if found.Some? {
          VerifyComponentExact(p, ring, id, message, scheme.value, found.value);
        }
      }
      LoopAccepts(p, ring, id, message, components[1..], signature);
      assert forall c :: c in components <==> c == components[0] || c in components[1..];
    }
  }

  /** The signature schemes an identity asks for. */
  ghost function Wanted(components: seq<Component<PublicKeyScheme>>): seq<SignatureScheme>
    requires forall c :: c in components ==> SignatureSchemeOf(c.scheme).Some?
  {
    seq(|components|, i requires 0 <= i < |components| =>
      assert components[i] in components; SignatureSchemeOf(components[i].scheme).value)
  }

  /** As many parts as wanted schemes, all of them present: then no part is extra or repeated. */
  lemma PartsAreWanted(components: seq<Component<PublicKeyScheme>>, parts: seq<Component<SignatureScheme>>)
    requires forall c :: c in components ==> SignatureSchemeOf(c.scheme).Some?
    requires forall c :: c in components ==> SignatureSchemeOf(c.scheme).value in Schemes(parts)
    requires Distinct(Schemes(components)) && |parts| == |components|
    ensures Distinct(Schemes(parts))
    ensures Elements(Schemes(parts)) == Elements(Wanted(components))
  {
    var wanted, schemes := Wanted(components), Schemes(components);
    forall i, j | 0 <= i < j < |components| ensures wanted[i] != wanted[j] {
      assert schemes[i] != schemes[j];
    }
    DistinctCardinality(wanted);
    ElementsCardinality(Schemes(parts));
    forall s | s in Elements(wanted) ensures s in Elements(Schemes(parts)) {
      var i :| 0 <= i < |wanted| && wanted[i] == s;
      assert components[i] in components;
    }
    SubsetCardinality(Elements(wanted), Elements(Schemes(parts)));
    FullCardinalityDistinct(Schemes(parts));
  }

  /**
   Against an identity with distinct component schemes a hybrid signature is accepted exactly when
   its schemes are the identity's, none repeated, and each part verifies.
   */
  lemma HybridVerificationExact(
    p: Primitives, ring: KeyRing, id: ValidatorId, identity: PublicIdentity, message: Message, signature: TypedSignature
  )
    requires identity.scheme.Hybrid? && signature.scheme.Hybrid? && Distinct(Schemes(identity.components))
    ensures VerifyAgainstIdentity(p, ring, id, identity, message, signature) == Ok(true) <==>
            ExactComponents(p, ring, id, identity, message, signature)
  {
    hide VerifyComponent, VerifyComponents;
    LoopAccepts(p, ring, id, message, identity.components, signature);
    if VerifyAgainstIdentity(p, ring, id, identity, message, signature) == Ok(true) {
      AcceptedIsExact(p, ring, id, identity, message, signature);
    } else if ExactComponents(p, ring, id, identity, message, signature) {
      ExactIsAccepted(p, ring, id, identity, message, signature);
    }
  }

  /** The identity holds a key of this scheme. */
  ghost predicate CarriesScheme(identity: PublicIdentity, scheme: PublicKeyScheme) {
    identity.scheme == scheme || (identity.scheme.Hybrid? && scheme in Schemes(identity.components))
  }

  /** A single-scheme signature is accepted exactly when the identity carries its scheme and it verifies. */
  lemma SingleVerificationExact(
    p: Primitives, ring: KeyRing, id: ValidatorId, identity: PublicIdentity, message: Message, signature: TypedSignature
  )
    requires !signature.scheme.Hybrid?
    ensures VerifyAgainstIdentity(p, ring, id, identity, message, signature) == Ok(true) <==>
            && (|| (signature.scheme.DevDeterministic? && CarriesScheme(identity, PublicKeyScheme.DevDeterministic))
                || (signature.scheme.MlDsa? && CarriesScheme(identity, PublicKeyScheme.MlDsa)))
            && Verifies(p, ring, id, message, Component(signature.scheme, signature.bytes))
  {
    hide VerifyComponent, FindComponent, Verifies;
    VerifyComponentExact(p, ring, id, message, signature.scheme, signature.bytes);
    if PublicKeySchemeOf(signature.scheme).Some? {
      FindComponentExact(identity.components, PublicKeySchemeOf(signature.scheme).value);
    }
  }

  /**
   A validator with a deterministic identity: accepted is the hash of its secret and the message, and
   nothing else. One with an ML-DSA identity: what verifies under its key, and nothing else.
   */
  lemma PlainIdentityExact(p: Primitives, ring: KeyRing, id: ValidatorId, message: Message, signature: TypedSignature)
    requires id in ring.identities && id in ring.secrets
    ensures ring.identities[id].scheme.DevDeterministic? ==>
              (Verify(p, ring, id, message, signature) == Ok(true) <==>
               signature.scheme.DevDeterministic? && signature.bytes == p.hashMany([ring.secrets[id], message]))
    ensures ring.identities[id].scheme.MlDsa? && id in ring.verifyingKeys ==>
              (Verify(p, ring, id, message, signature) == Ok(true) <==>
               signature.scheme.MlDsa? && p.mlDsaVerify(ring.verifyingKeys[id], message, signature.bytes))
    ensures ring.identities[id].scheme.MlDsa? && id !in ring.verifyingKeys ==>
              Verify(p, ring, id, message, signature) ==
              if signature.scheme.MlDsa? then Err(MissingVerifyingKey) else Ok(false)
    ensures ring.identities[id].scheme.Ed25519? ==> Verify(p, ring, id, message, signature) == Ok(false)
  {
  }

  /** Every ML-DSA identity of the ring has its key there, and every identity its secret. */
  ghost predicate Complete(ring: KeyRing) {
    forall id :: id in ring.identities ==>
      && id in ring.secrets
      && (CarriesScheme(ring.identities[id], PublicKeyScheme.MlDsa) ==> id in ring.verifyingKeys)
  }

  /** With a complete ring verification always answers for the validators it knows, and for no others. */
  lemma VerifyAnswersIff(p: Primitives, ring: KeyRing, id: ValidatorId, message: Message, signature: TypedSignature)
    requires Complete(ring)
    ensures Verify(p, ring, id, message, signature).Ok? <==> id in ring.identities
    ensures id !in ring.identities ==> Verify(p, ring, id, message, signature) == Err(UnknownValidator)
  {
    if id in ring.identities {
      var identity := ring.identities[id];
      SchemesListed(identity.components);
      if identity.scheme.Hybrid? {
        LoopAnswers(p, ring, id, message, identity.components, signature);
        FindComponentExact(identity.components, PublicKeyScheme.DevDeterministic);
        FindComponentExact(identity.components, PublicKeyScheme.MlDsa);
      }
    }
  }

  lemma {:induction false} LoopAnswers(
    p: Primitives, ring: KeyRing, id: ValidatorId, message: Message,
    components: seq<Component<PublicKeyScheme>>, signature: TypedSignature
  )
    requires id in ring.secrets
    requires forall c :: c in components && c.scheme.MlDsa? ==> id in ring.verifyingKeys
    ensures VerifyComponents(p, ring, id, message, components, signature).Ok?
  {
    if components != [] {
      assert components[0] in components;
      LoopAnswers(p, ring, id, message, components[1..], signature);
    }
  }

  /** What each signing backend produces, and for whom it refuses to sign. */
  lemma SignExact(
    p: Primitives, ring: KeyRing, signer: SigningBackend, localId: ValidatorId, id: ValidatorId, message: Message
  )
    ensures var r := Sign(p, ring, signer, localId, id, message);
            match signer
            case Deterministic =>
              r == if id in ring.secrets
                   then Ok(Single(SignatureScheme.DevDeterministic, p.hashMany([ring.secrets[id], message])))
                   else Err(UnknownValidator)
            case MlDsa65(key) =>
              r == if id == localId then Ok(Single(SignatureScheme.MlDsa, p.mlDsaSign(key, message)))
                   else Err(NotLocalSigner)
            case HybridDeterministicMlDsa65(key) =>
              && (id != localId ==> r == Err(NotLocalSigner))
              && (id == localId && id !in ring.secrets ==> r == Err(UnknownValidator))
              && (id == localId && id in ring.secrets ==>
                    r == Ok(Bundle(SignatureScheme.Hybrid, [],
                              [Component(SignatureScheme.DevDeterministic, p.hashMany([ring.secrets[id], message])),
                               Component(SignatureScheme.MlDsa, p.mlDsaSign(key, message))])))
  {
    if signer.HybridDeterministicMlDsa65? && id == localId && id in ring.secrets {
      var parts := HybridParts(p.hashMany([ring.secrets[id], message]), p.mlDsaSign(signer.signingKey, message));
      var schemes := Schemes(parts);
      assert schemes == [SignatureScheme.DevDeterministic, SignatureScheme.MlDsa];
      HybridOfExact(SignatureScheme.Hybrid, parts);
      assert ValidComponents(SignatureScheme.Hybrid, parts);
    }
  }

  lemma AcceptedIsExact(
    p: Primitives, ring: KeyRing, id: ValidatorId, identity: PublicIdentity, message: Message, signature: TypedSignature
  )
    requires Distinct(Schemes(identity.components)) && |signature.components| == |identity.components|
    requires forall c :: c in identity.components ==> Satisfied(p, ring, id, message, c.scheme, signature.components)
    ensures ExactComponents(p, ring, id, identity, message, signature)
  {
    hide FindComponent, Verifies;
    var parts := signature.components;
    SchemesListed(identity.components);
    forall c | c in identity.components ensures SignatureSchemeOf(c.scheme).value in Schemes(parts) {
      FindComponentExact(parts, SignatureSchemeOf(c.scheme).value);
    }
    PartsAreWanted(identity.components, parts);
    forall s | s in parts ensures Verifies(p, ring, id, message, s) {
      var c := WantedBy(identity.components, parts, s);
      assert Satisfied(p, ring, id, message, c.scheme, parts);
      FoundPart(parts, s);
      assert Component(s.scheme, s.bytes) == s;
    }
  }

  /** The identity component that a part answers to. */
  lemma WantedBy(
    components: seq<Component<PublicKeyScheme>>, parts: seq<Component<SignatureScheme>>,
    part: Component<SignatureScheme>
  )
    returns (c: Component<PublicKeyScheme>)
    requires forall c :: c in components ==> SignatureSchemeOf(c.scheme).Some?
    requires Elements(Schemes(parts)) == Elements(Wanted(components)) && part in parts
    ensures c in components && SignatureSchemeOf(c.scheme) == Some(part.scheme)
  {
    var schemes, wanted := Schemes(parts), Wanted(components);
    var i :| 0 <= i < |parts| && parts[i] == part;
    assert schemes[i] == part.scheme && schemes[i] in Elements(schemes);
    assert part.scheme in wanted;
    var j :| 0 <= j < |wanted| && wanted[j] == part.scheme;
    c := components[j];
  }

  lemma FoundPart(parts: seq<Component<SignatureScheme>>, part: Component<SignatureScheme>)
    requires Distinct(Schemes(parts)) && part in parts
    ensures FindComponent(parts, part.scheme) == Some(part.bytes)
  {
    var schemes := Schemes(parts);
    var i :| 0 <= i < |parts| && parts[i] == part;
    assert schemes[i] == part.scheme;
    FindComponentExact(parts, part.scheme);
    var found := Component(part.scheme, FindComponent(parts, part.scheme).value);
    var j :| 0 <= j < |parts| && parts[j] == found;
    assert schemes[j] == part.scheme;
  }

  lemma ExactIsAccepted(
    p: Primitives, ring: KeyRing, id: ValidatorId, identity: PublicIdentity, message: Message, signature: TypedSignature
  )
    requires ExactComponents(p, ring, id, identity, message, signature)
    ensures forall c :: c in identity.components ==> Satisfied(p, ring, id, message, c.scheme, signature.components)
  {
    hide FindComponent, Verifies;
    SchemesListed(identity.components);
    forall c | c in identity.components ensures Satisfied(p, ring, id, message, c.scheme, signature.components) {
      var scheme := SignatureSchemeOf(c.scheme).value;
      FindComponentExact(signature.components, scheme);
      assert Verifies(p, ring, id, message, Component(scheme, FindComponent(signature.components, scheme).value));
    }
  }
}
