/** Admission of DSSE envelopes: validation, verification by an unordered map of keys, canonical form. */
module Dsse {
  import opened Bytes
  import opened Admission
  import Base64

  const MAX_VERIFIERS := 10
  const MAX_SIGNATURES := 10

  datatype PbSignature = PbSignature(sig: bytes, keyid: bytes)

  /** None is a nil signature. */
  datatype PbEnvelope = PbEnvelope(payloadType: bytes, payload: bytes, signatures: seq<Option<PbSignature>>)

  datatype Request = Request(envelope: Option<PbEnvelope>, verifiers: seq<RequestVerifier>)

  datatype DsseError =
    | MissingEnvelope | MissingVerifiers | TooManyVerifiers | InvalidVerifier(e: ValidateError) | DuplicateVerifier
    | MissingSignatures | TooManySignatures | EmptySignature
    | UnparsableKey | NoKey
    | UnknownAlgorithm | RegistryFailed | UnsupportedAlgorithm
    | KeyNotLoaded | EnvelopeNotVerified | BadBase64 | UnverifiedSignatures

  datatype EntrySignature = EntrySignature(content: bytes, verifier: RequestVerifier)

  datatype Entry = Entry(payloadHash: bytes, signatures: seq<EntrySignature>)

  /** The verifiers of a request, which Go maps are keyed by. */
  function VerifierSet(ds: Request): set<RequestVerifier> {
    set v | v in ds.verifiers
  }

  // ----- validation

  ghost predicate IsValid(ds: Request) {
    && ds.envelope.Some?
    && 1 <= |ds.verifiers| <= 10
    && (forall i :: 0 <= i < |ds.verifiers| ==> IsGiven(ds.verifiers[i]))
    && (forall i, j :: 0 <= i < j < |ds.verifiers| ==> ds.verifiers[i].material.raw != ds.verifiers[j].material.raw)
    && HasSignatures(ds.envelope.value)
  }

  ghost predicate HasSignatures(env: PbEnvelope) {
    && 1 <= |env.signatures| <= 10
    && forall i :: 0 <= i < |env.signatures| ==> env.signatures[i].Some? && env.signatures[i].value.sig != []
  }

  /** What an error of the validation says about the request. */
  ghost predicate IsInvalidFor(ds: Request, e: DsseError) {
    match e
    case MissingEnvelope => ds.envelope.None?
    case MissingVerifiers => ds.verifiers == []
    case TooManyVerifiers => |ds.verifiers| > MAX_VERIFIERS
    case InvalidVerifier(x) => exists i :: 0 <= i < |ds.verifiers| && Validate(ds.verifiers[i]) == Some(x)
    case DuplicateVerifier =>
      exists i, j :: 0 <= i < j < |ds.verifiers| && IsGiven(ds.verifiers[i]) && IsGiven(ds.verifiers[j])
                     && ds.verifiers[i].material.raw == ds.verifiers[j].material.raw
    case MissingSignatures => ds.envelope.Some? && ds.envelope.value.signatures == []
    case TooManySignatures => ds.envelope.Some? && |ds.envelope.value.signatures| > MAX_SIGNATURES
    case EmptySignature =>
      ds.envelope.Some? && exists s :: s in ds.envelope.value.signatures && (s.None? || s.value.sig == [])
    case _ => false
  }

  /** Succeeds exactly on the valid requests, and otherwise with an error that is true of the request. */
  method ValidateRequest(ds: Request) returns (r: Option<DsseError>)
    ensures r.None? <==> IsValid(ds)
    ensures r.Some? ==> IsInvalidFor(ds, r.value)
  {
    if ds.envelope.None? {
      return Some(MissingEnvelope);
    }
    if |ds.verifiers| == 0 {
      return Some(MissingVerifiers);
    }
    if |ds.verifiers| > MAX_VERIFIERS {
      return Some(TooManyVerifiers);
    }
    var seen: set<bytes> := {};
    for i := 0 to |ds.verifiers|
      invariant forall j :: 0 <= j < i ==> IsGiven(ds.verifiers[j])
      invariant forall j, k :: 0 <= j < k < i ==> ds.verifiers[j].material.raw != ds.verifiers[k].material.raw
      invariant forall j :: 0 <= j < i ==> ds.verifiers[j].material.raw in seen
      invariant forall b :: b in seen ==> exists j :: 0 <= j < i && ds.verifiers[j].material.raw == b
    {
      var e := Validate(ds.verifiers[i]);
      if e.Some? {
        return Some(InvalidVerifier(e.value));
      }
      var key := RawBytes(ds.verifiers[i]);
      if key in seen {
        return Some(DuplicateVerifier);
      }
      seen := seen + {key};
    }
    var sigs := ds.envelope.value.signatures;
    if |sigs| == 0 {
      return Some(MissingSignatures);
    }
    if |sigs| > MAX_SIGNATURES {
      return Some(TooManySignatures);
    }
    for i := 0 to |sigs|
      invariant forall j :: 0 <= j < i ==> sigs[j].Some? && sigs[j].value.sig != []
    {
      if sigs[i].None? || |sigs[i].value.sig| == 0 {
        return Some(EmptySignature);
      }
    }
    return None;
  }

  // ----- keys

  ghost predicate KeysParse(lib: Libraries, ds: Request) {
    forall v :: v in ds.verifiers ==> !v.material.NoMaterial? && lib.parseKey(v.material).Some?
  }

  /** The key of every request verifier. */
  ghost predicate IsKeyMap(lib: Libraries, ds: Request, keys: map<RequestVerifier, Key>) {
    && (forall v :: v in keys <==> v in ds.verifiers)
    && forall v :: v in keys ==> lib.parseKey(v.material) == Some(keys[v])
  }

  method ExtractVerifiers(lib: Libraries, ds: Request) returns (r: Result<map<RequestVerifier, Key>, DsseError>)
    ensures r.Ok? <==> KeysParse(lib, ds)
    ensures r.Ok? ==> IsKeyMap(lib, ds, r.value)
    ensures r.Err? ==> r.error.UnparsableKey? || r.error.NoKey?
    ensures r == Err(UnparsableKey) ==> exists v :: v in ds.verifiers && !v.material.NoMaterial? && lib.parseKey(v.material).None?
    ensures IsValid(ds) ==> r != Err(NoKey)
  {
    var keys: map<RequestVerifier, Key> := map[];
    for i := 0 to |ds.verifiers|
      invariant forall v :: v in keys <==> v in ds.verifiers[..i]
      invariant forall v :: v in keys ==> !v.material.NoMaterial? && lib.parseKey(v.material) == Some(keys[v])
    {
      var v := ds.verifiers[i];
      assert v in ds.verifiers;
      if v.material.NoMaterial? {
        return Err(NoKey);
      }
      var key := lib.parseKey(v.material);
      if key.None? {
        return Err(UnparsableKey);
      }
      keys := keys[v := key.value];
      assert ds.verifiers[..i + 1] == ds.verifiers[..i] + [v];
    }
    assert ds.verifiers[..|ds.verifiers|] == ds.verifiers;
    return Ok(keys);
  }

  /** In a valid request the map has exactly one entry per request verifier. */
  lemma KeyMapSize(lib: Libraries, ds: Request, keys: map<RequestVerifier, Key>)
    requires IsValid(ds) && IsKeyMap(lib, ds, keys)
    ensures |keys| == |ds.verifiers|
  {
    ValidDistinct(ds);
    DistinctCount(ds.verifiers);
    assert keys.Keys == VerifierSet(ds);
  }

  lemma ValidDistinct(ds: Request)
    requires IsValid(ds)
    ensures NoDuplicates(ds.verifiers)
  {
    forall i, j | 0 <= i < j < |ds.verifiers| ensures ds.verifiers[i] != ds.verifiers[j] {
      assert ds.verifiers[i].material.raw != ds.verifiers[j].material.raw;
    }
  }

  lemma {:induction false} DistinctCount<T(!new)>(s: seq<T>)
    requires NoDuplicates(s)
    ensures |set x | x in s| == |s|
    decreases |s|
  {
    if s == [] {
      assert (set x | x in s) == {};
    } else {
      DistinctCount(Init(s));
      assert (set x | x in s) == (set x | x in Init(s)) + {Last(s)};
      assert Last(s) !in Init(s);
    }
  }

  // ----- envelopes

  function EncodeSignature(s: PbSignature): DsseSignature { DsseSignature(s.keyid, Base64.Encode(s.sig)) }

  function EncodeSignatures(sigs: seq<Option<PbSignature>>): (r: seq<DsseSignature>)
    requires forall i :: 0 <= i < |sigs| ==> sigs[i].Some?
    ensures |r| == |sigs| && forall i :: 0 <= i < |r| ==> r[i] == EncodeSignature(sigs[i].value)
  {
    if sigs == [] then [] else EncodeSignatures(Init(sigs)) + [EncodeSignature(Last(sigs).value)]
  }

  function Encoded(env: PbEnvelope): DsseEnvelope
    requires forall i :: 0 <= i < |env.signatures| ==> env.signatures[i].Some?
  {
    DsseEnvelope(env.payloadType, Base64.Encode(env.payload), EncodeSignatures(env.signatures))
  }

  /** As the code, this dereferences every signature. */
  method FromProto(env: PbEnvelope) returns (r: DsseEnvelope)
    requires forall i :: 0 <= i < |env.signatures| ==> env.signatures[i].Some?
    ensures r == Encoded(env)
  {
    hide Base64.Encode;
    var signatures: seq<DsseSignature> := [];
    for i := 0 to |env.signatures|
      invariant signatures == EncodeSignatures(env.signatures[..i])
    {
      assert Init(env.signatures[..i + 1]) == env.signatures[..i];
      signatures := signatures + [EncodeSignature(env.signatures[i].value)];
    }
    assert env.signatures[..|env.signatures|] == env.signatures;
    r := DsseEnvelope(env.payloadType, Base64.Encode(env.payload), signatures);
  }

  function DecodeSignatures(sigs: seq<DsseSignature>): Option<seq<Option<PbSignature>>> {
    if sigs == [] then Some([])
    else
      match (DecodeSignatures(Init(sigs)), Base64.Decode(Last(sigs).sig))
      case (Some(init), Some(raw)) => Some(init + [Some(PbSignature(raw, Last(sigs).keyid))])
      case _ => None
  }

  function Decoded(env: DsseEnvelope): Option<PbEnvelope> {
    match (Base64.Decode(env.payload), DecodeSignatures(env.signatures))
    case (Some(payload), Some(sigs)) => Some(PbEnvelope(env.payloadType, payload, sigs))
    case _ => None
  }

  method ToProto(env: DsseEnvelope) returns (r: Option<PbEnvelope>)
    ensures r == Decoded(env)
  {
    hide Base64.Decode;
    var payload := Base64.Decode(env.payload);
    if payload.None? {
      return None;
    }
    var signatures: seq<Option<PbSignature>> := [];
    for i := 0 to |env.signatures|
      invariant DecodeSignatures(env.signatures[..i]) == Some(signatures)
    {
      var sig := Base64.Decode(env.signatures[i].sig);
      assert Init(env.signatures[..i + 1]) == env.signatures[..i];
      if sig.None? {
        DecodeStops(env.signatures, i + 1);
        return None;
      }
      signatures := signatures + [Some(PbSignature(sig.value, env.signatures[i].keyid))];
    }
    assert env.signatures[..|env.signatures|] == env.signatures;
    return Some(PbEnvelope(env.payloadType, payload.value, signatures));
  }

  lemma {:induction false} DecodeStops(sigs: seq<DsseSignature>, n: nat)
    requires n <= |sigs| && DecodeSignatures(sigs[..n]).None?
    ensures DecodeSignatures(sigs).None?
    decreases |sigs| - n
  {
    hide Base64.Decode;
    if n == |sigs| {
      assert sigs[..n] == sigs;
    } else {
      assert Init(sigs[..n + 1]) == sigs[..n];
      DecodeStops(sigs, n + 1);
    }
  }

  lemma {:induction false} SignaturesRoundTrip(sigs: seq<Option<PbSignature>>)
    requires forall i :: 0 <= i < |sigs| ==> sigs[i].Some?
    ensures DecodeSignatures(EncodeSignatures(sigs)) == Some(sigs)
    decreases |sigs|
  {
    hide Base64.Encode, Base64.Decode;
    if sigs != [] {
      SignaturesRoundTrip(Init(sigs));
      InitLast(EncodeSignatures(Init(sigs)), EncodeSignature(Last(sigs).value));
      Base64.RoundTrip(Last(sigs).value.sig);
      InitThenLast(sigs);
    }
  }

  /** Converting an envelope to base64 form and back gives the envelope. */
  lemma EnvelopeRoundTrip(env: PbEnvelope)
    requires forall i :: 0 <= i < |env.signatures| ==> env.signatures[i].Some?
    ensures Decoded(Encoded(env)) == Some(env)
  {
    hide Base64.Encode, Base64.Decode, DecodeSignatures, EncodeSignatures;
    Base64.RoundTrip(env.payload);
    SignaturesRoundTrip(env.signatures);
  }
}
