/** Typed signatures and identities: one scheme with its bytes, or a hybrid list of components. */
module Containers {
  import opened Prelude
  import opened Sequences

  datatype SignatureScheme = DevDeterministic | Ed25519 | MlDsa | Hybrid
  datatype PublicKeyScheme = DevDeterministic | Ed25519 | MlDsa | Hybrid
  datatype SessionKeyScheme = DevDeterministic | MlKem | Hybrid

  datatype Component<S> = Component(scheme: S, bytes: seq<byte>)

  /** The shape the three containers share; `hybrid` arguments below name S's hybrid scheme. */
  datatype Bundle<S> = Bundle(scheme: S, bytes: seq<byte>, components: seq<Component<S>>)

  type TypedSignature = Bundle<SignatureScheme>
  type PublicIdentity = Bundle<PublicKeyScheme>
  type SessionPublicIdentity = Bundle<SessionKeyScheme>

  datatype BundleError =
    | EmptyHybrid
    | NestedHybrid
    | DuplicateScheme
    | StrayComponents
    | UndecodableComponents
    | TrailingBytes

  function Single<S>(scheme: S, bytes: seq<byte>): Bundle<S> {
    Bundle(scheme, bytes, [])
  }

  // ---- Hybrid construction ----

  function Schemes<S>(components: seq<Component<S>>): seq<S> {
    seq(|components|, i requires 0 <= i < |components| => components[i].scheme)
  }

  lemma SchemesListed<S>(components: seq<Component<S>>)
    ensures forall c :: c in components ==> c.scheme in Schemes(components)
    ensures forall s :: s in Schemes(components) ==> exists c :: c in components && c.scheme == s
  {
    var schemes := Schemes(components);
    forall c | c in components ensures c.scheme in schemes {
      var i :| 0 <= i < |components| && components[i] == c;
      assert schemes[i] == c.scheme;
    }
    forall s | s in schemes ensures exists c :: c in components && c.scheme == s {
      var i :| 0 <= i < |schemes| && schemes[i] == s;
      assert components[i] in components;
    }
  }

  /** What every constructor of a hybrid promises: some component, none nested, no scheme twice. */
  ghost predicate ValidComponents<S>(hybrid: S, components: seq<Component<S>>) {
    && components != []
    && (forall c | c in components :: c.scheme != hybrid)
    && Distinct(Schemes(components))
  }

  function FirstFault<S(==)>(hybrid: S, components: seq<Component<S>>, from: nat): Option<BundleError>
    requires from <= |components|
    decreases |components| - from
  {
    if from == |components| then None
    else if components[from].scheme == hybrid then Some(NestedHybrid)
    else if components[from].scheme in Schemes(components[..from]) then Some(DuplicateScheme)
    else FirstFault(hybrid, components, from + 1)
  }

  function HybridOf<S(==)>(hybrid: S, components: seq<Component<S>>): Result<Bundle<S>, BundleError> {
    if components == [] then Err(EmptyHybrid)
    else match FirstFault(hybrid, components, 0)
      case Some(fault) => Err(fault)
      case None => Ok(Bundle(hybrid, [], components))
  }

  /** `try_hybrid`: one pass that remembers the schemes it has seen. */
  method TryHybrid<S(==)>(hybrid: S, components: seq<Component<S>>)
    returns (r: Result<Bundle<S>, BundleError>)
    ensures r == HybridOf(hybrid, components)
    ensures r.Ok? <==> ValidComponents(hybrid, components)
    ensures r.Ok? ==> r.value == Bundle(hybrid, [], components)
  {
    HybridOfExact(hybrid, components);
    if components == [] {
      return Err(EmptyHybrid);
    }
    var seen: seq<S> := [];
    for i := 0 to |components|
      invariant seen == Schemes(components[..i])
      invariant FirstFault(hybrid, components, 0) == FirstFault(hybrid, components, i)
    {
      if components[i].scheme == hybrid {
        return Err(NestedHybrid);
      }
      if components[i].scheme in seen {
        return Err(DuplicateScheme);
      }
      seen := seen + [components[i].scheme];
    }
    return Ok(Bundle(hybrid, [], components));
  }

  lemma {:induction false} FaultFreeSuffix<S>(hybrid: S, components: seq<Component<S>>, from: nat)
    requires from <= |components|
    ensures FirstFault(hybrid, components, from).None? <==>
            forall i :: from <= i < |components| ==>
              && components[i].scheme != hybrid
              && forall j :: 0 <= j < i ==> components[j].scheme != components[i].scheme
    decreases |components| - from
  {
    if from < |components| {
      var earlier := Schemes(components[..from]);
      assert forall j :: 0 <= j < from ==> earlier[j] == components[j].scheme;
      FaultFreeSuffix(hybrid, components, from + 1);
    }
  }

  /** The scan accepts exactly the valid component lists. */
  lemma HybridOfExact<S>(hybrid: S, components: seq<Component<S>>)
    ensures HybridOf(hybrid, components).Ok? <==> ValidComponents(hybrid, components)
  {
    FaultFreeSuffix(hybrid, components, 0);
    var schemes := Schemes(components);
    assert forall i :: 0 <= i < |components| ==> components[i] in components && schemes[i] == components[i].scheme;
  }

  /** The components before i are neither nested nor repeated. */
  ghost predicate CleanBefore<S>(hybrid: S, components: seq<Component<S>>, i: nat)
    requires i <= |components|
  {
    && (forall j :: 0 <= j < i ==> components[j].scheme != hybrid)
    && forall j, k :: 0 <= j < k < i ==> components[j].scheme != components[k].scheme
  }

  lemma {:induction false} FirstFaultExact<S>(hybrid: S, components: seq<Component<S>>, from: nat)
    requires from <= |components| && CleanBefore(hybrid, components, from)
    ensures var fault := FirstFault(hybrid, components, from);
            && (fault.None? <==> CleanBefore(hybrid, components, |components|))
            && (fault.Some? ==>
                  exists i :: FaultAt(hybrid, components, i, fault.value))
    decreases |components| - from
  {
    if from < |components| {
      var earlier := Schemes(components[..from]);
      assert forall j :: 0 <= j < from ==> earlier[j] == components[j].scheme;
      if components[from].scheme == hybrid {
        assert FaultAt(hybrid, components, from, NestedHybrid);
      } else if components[from].scheme in earlier {
        var j :| 0 <= j < |earlier| && earlier[j] == components[from].scheme;
        assert FaultAt(hybrid, components, from, DuplicateScheme);
      } else {
        FirstFaultExact(hybrid, components, from + 1);
      }
    }
  }

  /** Component i is the first bad one, and this is what is wrong with it. */
  ghost predicate FaultAt<S>(hybrid: S, components: seq<Component<S>>, i: nat, fault: BundleError) {
    && i < |components| && CleanBefore(hybrid, components, i)
    && if components[i].scheme == hybrid then fault == NestedHybrid
       else fault == DuplicateScheme && exists j :: 0 <= j < i && components[j].scheme == components[i].scheme
  }

  /** Why a hybrid is refused: no component at all, or what is wrong with the first bad one. */
  lemma HybridOfErrors<S>(hybrid: S, components: seq<Component<S>>)
    ensures HybridOf(hybrid, components) == Err(EmptyHybrid) <==> components == []
    ensures HybridOf(hybrid, components).Err? && components != [] ==>
              exists i :: FaultAt(hybrid, components, i, HybridOf(hybrid, components).error)
  {
    FirstFaultExact(hybrid, components, 0);
  }

  /** `build_session_public_identity`. */
  function BuildSessionPublicIdentity(
    scheme: SessionKeyScheme, bytes: seq<byte>, components: seq<Component<SessionKeyScheme>>
  ): Result<SessionPublicIdentity, BundleError> {
    if scheme.Hybrid? then HybridOf(SessionKeyScheme.Hybrid, components)
    else if components != [] then Err(StrayComponents)
    else Ok(Bundle(scheme, bytes, []))
  }

  /** A session identity is built exactly from valid components, or from bytes without any. */
  lemma BuildSessionExact(scheme: SessionKeyScheme, bytes: seq<byte>, components: seq<Component<SessionKeyScheme>>)
    ensures var r := BuildSessionPublicIdentity(scheme, bytes, components);
            && (r.Ok? <==> if scheme.Hybrid? then ValidComponents(SessionKeyScheme.Hybrid, components)
                           else components == [])
            && (r.Ok? ==> r.value.scheme == scheme && r.value.components == components
                          && r.value.bytes == if scheme.Hybrid? then [] else bytes)
            && (!scheme.Hybrid? && components != [] ==> r == Err(StrayComponents))
  {
    HybridOfExact(SessionKeyScheme.Hybrid, components);
  }

  // ---- Lookup ----

  function AsSingleBytes<S(==)>(hybrid: S, b: Bundle<S>): Option<seq<byte>> {
    if b.scheme == hybrid then None else Some(b.bytes)
  }

  /** A hybrid has no single byte string; anything else has its own. */
  lemma SingleBytesExact<S>(hybrid: S, b: Bundle<S>, bytes: seq<byte>)
    ensures AsSingleBytes(hybrid, b) == Some(bytes) <==> b.scheme != hybrid && b.bytes == bytes
  {
  }

  function FindComponent<S(==)>(components: seq<Component<S>>, scheme: S): Option<seq<byte>> {
    if components == [] then None
    else if components[0].scheme == scheme then Some(components[0].bytes)
    else FindComponent(components[1..], scheme)
  }

  function ComponentBytes<S(==)>(hybrid: S, b: Bundle<S>, scheme: S): Option<seq<byte>> {
    if b.scheme == scheme && b.scheme != hybrid then Some(b.bytes)
    else FindComponent(b.components, scheme)
  }

  /** The search returns a component's bytes, and fails only when no component has the scheme. */
  lemma {:induction false} FindComponentExact<S>(components: seq<Component<S>>, scheme: S)
    ensures FindComponent(components, scheme).None? <==> scheme !in Schemes(components)
    ensures FindComponent(components, scheme).Some? ==>
              Component(scheme, FindComponent(components, scheme).value) in components
  {
    if components != [] {
      var schemes := Schemes(components);
      FindComponentExact(components[1..], scheme);
      assert schemes == [components[0].scheme] + Schemes(components[1..]);
    }
  }

  /** A bundle as the checked constructors build it. */
  ghost predicate WellFormed<S>(hybrid: S, b: Bundle<S>) {
    if b.scheme == hybrid then b.bytes == [] && ValidComponents(hybrid, b.components)
    else b.components == []
  }

  /** In a well-formed bundle a scheme names at most one byte string, and lookup returns that one. */
  lemma ComponentBytesUnique<S>(hybrid: S, b: Bundle<S>, scheme: S, bytes: seq<byte>)
    requires WellFormed(hybrid, b)
    ensures ComponentBytes(hybrid, b, scheme) == Some(bytes) <==>
            if b.scheme == hybrid then Component(scheme, bytes) in b.components
            else b == Single(scheme, bytes)
  {
    FindComponentExact(b.components, scheme);
    var schemes := Schemes(b.components);
    if b.scheme == hybrid && Component(scheme, bytes) in b.components {
      var i :| 0 <= i < |b.components| && b.components[i] == Component(scheme, bytes);
      assert schemes[i] == scheme;
      var found := Component(scheme, FindComponent(b.components, scheme).value);
      var j :| 0 <= j < |b.components| && b.components[j] == found;
      assert schemes[j] == scheme;
    }
  }

  // ---- Binary form ----

  /** What the binary encoding carries: the scheme and one byte string. */
  datatype Raw<S> = Raw(scheme: S, payload: seq<byte>)

  /** The bincode codec for component lists; decode also returns how many bytes it consumed. */
  datatype Codec<!S> = Codec(
    encode: seq<Component<S>> -> seq<byte>,
    decode: seq<byte> -> Option<(seq<Component<S>>, nat)>
  )

  ghost predicate SelfDelimiting<S(!new)>(codec: Codec<S>) {
    forall components, tail ::
      codec.decode(codec.encode(components) + tail) == Some((components, |codec.encode(components)|))
  }

  function Serialize<S(==)>(hybrid: S, codec: Codec<S>, b: Bundle<S>): Raw<S> {
    Raw(b.scheme, if b.scheme == hybrid then codec.encode(b.components) else b.bytes)
  }

  function DecodeComponents<S>(codec: Codec<S>, payload: seq<byte>): Result<seq<Component<S>>, BundleError> {
    match codec.decode(payload)
    case None => Err(UndecodableComponents)
    case Some((components, consumed)) =>
      if consumed != |payload| then Err(TrailingBytes) else Ok(components)
  }

  /** `TypedSignature` and `PublicIdentity` do not check the components they decode. */
  function Deserialize<S(==)>(hybrid: S, codec: Codec<S>, raw: Raw<S>): Result<Bundle<S>, BundleError> {
    if raw.scheme == hybrid then
      match DecodeComponents(codec, raw.payload)
      case Err(e) => Err(e)
      case Ok(components) => Ok(Bundle(hybrid, [], components))
    else Ok(Bundle(raw.scheme, raw.payload, []))
  }

  /** `SessionPublicIdentity` rebuilds through the checked constructor. */
  function DeserializeSession(codec: Codec<SessionKeyScheme>, raw: Raw<SessionKeyScheme>):
    Result<SessionPublicIdentity, BundleError>
  {
    if raw.scheme.Hybrid? then
      match DecodeComponents(codec, raw.payload)
      case Err(e) => Err(e)
      case Ok(components) => BuildSessionPublicIdentity(SessionKeyScheme.Hybrid, [], components)
    else BuildSessionPublicIdentity(raw.scheme, raw.payload, [])
  }

  /** Decoding fails where the codec fails, and where it leaves bytes over, and only there. */
  lemma DecodeFails<S(!new)>(hybrid: S, codec: Codec<S>, raw: Raw<S>)
    ensures var r, decoded := Deserialize(hybrid, codec, raw), codec.decode(raw.payload);
            && (r == Err(UndecodableComponents) <==> raw.scheme == hybrid && decoded.None?)
            && (r == Err(TrailingBytes) <==> raw.scheme == hybrid && decoded.Some? && decoded.value.1 != |raw.payload|)
            && (r.Ok? <==> raw.scheme != hybrid || (decoded.Some? && decoded.value.1 == |raw.payload|))
  {
  }

  lemma DecodeEncoded<S(!new)>(codec: Codec<S>, components: seq<Component<S>>, tail: seq<byte>)
    requires SelfDelimiting(codec)
    ensures DecodeComponents(codec, codec.encode(components) + tail) ==
            if tail == [] then Ok(components) else Err(TrailingBytes)
  {
    var payload := codec.encode(components) + tail;
    assert codec.decode(payload) == Some((components, |codec.encode(components)|));
  }

  /** Decoding returns the encoded value exactly when the unused half of it was empty. */
  lemma RoundTrip<S(!new)>(hybrid: S, codec: Codec<S>, b: Bundle<S>)
    requires SelfDelimiting(codec)
    ensures Deserialize(hybrid, codec, Serialize(hybrid, codec, b)) == Ok(b) <==>
            if b.scheme == hybrid then b.bytes == [] else b.components == []
  {
    DecodeEncoded(codec, b.components, []);
    assert codec.encode(b.components) + [] == codec.encode(b.components);
  }

  /** Session identities survive the wire exactly when they are well-formed. */
  lemma SessionRoundTrip(codec: Codec<SessionKeyScheme>, b: SessionPublicIdentity)
    requires SelfDelimiting(codec)
    ensures DeserializeSession(codec, Serialize(SessionKeyScheme.Hybrid, codec, b)) == Ok(b) <==>
            WellFormed(SessionKeyScheme.Hybrid, b)
  {
    DecodeEncoded(codec, b.components, []);
    assert codec.encode(b.components) + [] == codec.encode(b.components);
    HybridOfExact(SessionKeyScheme.Hybrid, b.components);
  }

  lemma TrailingBytesRejected<S(!new)>(
    hybrid: S, codec: Codec<S>, components: seq<Component<S>>, tail: seq<byte>)
    requires SelfDelimiting(codec) && tail != []
    ensures Deserialize(hybrid, codec, Raw(hybrid, codec.encode(components) + tail)) == Err(TrailingBytes)
  {
    DecodeEncoded(codec, components, tail);
  }

  /** Whatever bytes arrive, a decoded session identity has the constructor's invariants. */
  lemma DecodedSessionWellFormed(codec: Codec<SessionKeyScheme>, raw: Raw<SessionKeyScheme>)
    ensures var r := DeserializeSession(codec, raw);
            && (r.Ok? ==> WellFormed(SessionKeyScheme.Hybrid, r.value) && r.value.scheme == raw.scheme)
            && (r.Ok? <==>
                var u := Deserialize(SessionKeyScheme.Hybrid, codec, raw);
                u.Ok? && (raw.scheme.Hybrid? ==> ValidComponents(SessionKeyScheme.Hybrid, u.value.components)))
            && (r.Ok? ==> r == Deserialize(SessionKeyScheme.Hybrid, codec, raw))
  {
    if raw.scheme.Hybrid? {
      match DecodeComponents(codec, raw.payload)
      case Err(_) =>
      case Ok(components) => HybridOfExact(SessionKeyScheme.Hybrid, components);
    }
  }

  /**
   Signatures and public identities get no such check. Whatever bytes arrive, what is decoded has the
   invariants exactly when it is single, or the checked constructor would accept its components.
   */
  lemma DecodedWellFormedIff<S(!new)>(hybrid: S, codec: Codec<S>, raw: Raw<S>)
    ensures var r := Deserialize(hybrid, codec, raw);
            r.Ok? ==>
              && r.value.scheme == raw.scheme
              && (raw.scheme != hybrid ==> r.value == Single(raw.scheme, raw.payload))
              && (WellFormed(hybrid, r.value) <==> (raw.scheme == hybrid ==> HybridOf(hybrid, r.value.components).Ok?))
  {
    if Deserialize(hybrid, codec, raw).Ok? {
      HybridOfExact(hybrid, Deserialize(hybrid, codec, raw).value.components);
    }
  }

  /** Every encoded component list is decoded, also those that the checked constructor refuses. */
  lemma EncodedWellFormedIff<S(!new)>(hybrid: S, codec: Codec<S>, components: seq<Component<S>>)
    requires SelfDelimiting(codec)
    ensures var r := Deserialize(hybrid, codec, Raw(hybrid, codec.encode(components)));
            && r == Ok(Bundle(hybrid, [], components))
            && (WellFormed(hybrid, r.value) <==> HybridOf(hybrid, components).Ok?)
  {
    DecodeEncoded(codec, components, []);
    assert codec.encode(components) + [] == codec.encode(components);
    DecodedWellFormedIff(hybrid, codec, Raw(hybrid, codec.encode(components)));
  }

  /** The failing case: a repeated scheme, which `try_hybrid` refuses, is decoded. */
  lemma DecodedMayRepeatSchemes<S(!new)>(hybrid: S, scheme: S, codec: Codec<S>)
    requires SelfDelimiting(codec) && scheme != hybrid
    ensures var twice := [Component(scheme, [1]), Component(scheme, [2])];
            && HybridOf(hybrid, twice) == Err(DuplicateScheme)
            && Deserialize(hybrid, codec, Raw(hybrid, codec.encode(twice))) == Ok(Bundle(hybrid, [], twice))
  {
    var twice := [Component(scheme, [1]), Component(scheme, [2])];
    EncodedWellFormedIff(hybrid, codec, twice);
    assert Schemes(twice[..1]) == [scheme];
    assert FirstFault(hybrid, twice, 1) == Some(DuplicateScheme);
  }
}
