/** What both admission paths share: request verifiers, keys, and the checks delegated to libraries. */
module Admission {
  import opened Bytes
  import opened Hashing

  /** The oneof of a request verifier. */
  datatype KeyMaterial = PublicKeyBytes(raw: bytes) | CertificateBytes(raw: bytes) | NoMaterial

  datatype RequestVerifier = RequestVerifier(material: KeyMaterial, keyDetails: nat)

  /** A parsed key and a hash algorithm, as far as this code looks at them. */
  type Key = bytes
  type HashAlg = nat

  /** A DSSE envelope as the envelope verifier sees it: payload and signatures in base64. */
  datatype DsseSignature = DsseSignature(keyid: bytes, sig: bytes)
  datatype DsseEnvelope = DsseEnvelope(payloadType: bytes, payload: bytes, signatures: seq<DsseSignature>)

  /**
   The libraries, as parameters: key parsing, the algorithm of given key details, the registry
   (which can fail), loading a key for an algorithm or alone, the envelope verifier, and
   verification of a digest.
   */
  datatype Libraries = Libraries(
    sha256: HashFn,
    parseKey: KeyMaterial -> Option<Key>,
    algorithm: nat -> Option<HashAlg>,
    permitted: (Key, HashAlg) -> Option<bool>,
    loads: (Key, HashAlg) -> bool,
    loadsAlone: Key -> bool,
    envelopeVerifies: (Key, HashAlg, DsseEnvelope) -> Option<seq<DsseSignature>>,
    verifies: (Key, HashAlg, bytes, bytes, DsseSignature) -> bool,
    digestVerifies: (Key, HashAlg, bytes, bytes) -> bool)

  /**
   What is assumed of the envelope verifier: it accepts a non-empty list of signatures of the
   envelope, each of which verifies for its payload type and payload; where none does, it errs.
   */
  ghost predicate EnvelopeContract(lib: Libraries) {
    forall key, alg, env {:trigger lib.envelopeVerifies(key, alg, env)} ::
      match lib.envelopeVerifies(key, alg, env)
      case Some(accepted) =>
        && accepted != []
        && forall a :: a in accepted ==> a in env.signatures && lib.verifies(key, alg, env.payloadType, env.payload, a)
      case None => forall a :: a in env.signatures ==> !lib.verifies(key, alg, env.payloadType, env.payload, a)
  }

  datatype ValidateError = MissingKey | MissingPublicKeyBytes | MissingCertificateBytes

  /** A key or a certificate is given, and it is not empty. */
  ghost predicate IsGiven(v: RequestVerifier) {
    !v.material.NoMaterial? && v.material.raw != []
  }

  /** No missing field in a request verifier; the error names the field. */
  function Validate(v: RequestVerifier): (r: Option<ValidateError>)
    ensures r.None? <==> !v.material.NoMaterial? && v.material.raw != []
    ensures r == Some(MissingKey) <==> v.material == NoMaterial
    ensures r == Some(MissingPublicKeyBytes) <==> v.material == PublicKeyBytes([])
    ensures r == Some(MissingCertificateBytes) <==> v.material == CertificateBytes([])
  {
    match v.material
    case NoMaterial => Some(MissingKey)
    case PublicKeyBytes(raw) => if raw == [] then Some(MissingPublicKeyBytes) else None
    case CertificateBytes(raw) => if raw == [] then Some(MissingCertificateBytes) else None
  }

  function RawBytes(v: RequestVerifier): (raw: bytes)
    ensures raw == if v.material.NoMaterial? then [] else v.material.raw
  {
    match v.material
    case NoMaterial => []
    case PublicKeyBytes(raw) => raw
    case CertificateBytes(raw) => raw
  }

  /** The registry permits the key of a verifier with the hash algorithm of its key details. */
  predicate IsPermitted(lib: Libraries, v: RequestVerifier, key: Key) {
    lib.algorithm(v.keyDetails).Some? && lib.permitted(key, lib.algorithm(v.keyDetails).value) == Some(true)
  }
}
