/** Admission of a signature over a digest. */
module HashedRekord {
  import opened Bytes
  import opened Admission

  datatype Signature = Signature(content: bytes, verifier: Option<RequestVerifier>)

  datatype Request = Request(signature: Option<Signature>, digest: bytes)

  datatype Entry = Entry(signature: Signature, digest: bytes, algorithm: HashAlg)

  datatype RekordError =
    | MissingSignature | MissingVerifier | MissingDigest | InvalidVerifier(e: ValidateError)
    | NoKey | UnparsableKey | UnknownAlgorithm | RegistryFailed | UnsupportedAlgorithm | KeyNotLoaded | NotVerified

  function ValidateRequest(hr: Request): (r: Option<RekordError>)
    ensures r.None? ==> hr.signature.Some? && hr.signature.value.verifier.Some?
  {
    if hr.signature.None? || hr.signature.value.content == [] then Some(MissingSignature)
    else if hr.signature.value.verifier.None? then Some(MissingVerifier)
    else if hr.digest == [] then Some(MissingDigest)
    else
      match Validate(hr.signature.value.verifier.value)
      case Some(e) => Some(InvalidVerifier(e))
      case None => None
  }

  function ExtractVerifier(lib: Libraries, v: RequestVerifier): Result<Key, RekordError> {
    if v.material.NoMaterial? then Err(NoKey)
    else
      match lib.parseKey(v.material)
      case None => Err(UnparsableKey)
      case Some(key) => Ok(key)
  }

  function VerifySupportedAlgorithm(lib: Libraries, v: RequestVerifier, key: Key): Result<HashAlg, RekordError> {
    match lib.algorithm(v.keyDetails)
    case None => Err(UnknownAlgorithm)
    case Some(alg) =>
      match lib.permitted(key, alg)
      case None => Err(RegistryFailed)
      case Some(valid) => if valid then Ok(alg) else Err(UnsupportedAlgorithm)
  }

  function VerifySignature(lib: Libraries, key: Key, alg: HashAlg, hr: Request): Option<RekordError>
    requires hr.signature.Some?
  {
    if !lib.loadsAlone(key) then Some(KeyNotLoaded)
    else if !lib.digestVerifies(key, alg, hr.digest, hr.signature.value.content) then Some(NotVerified)
    else None
  }

  function ToLogEntry(lib: Libraries, hr: Request): Result<Entry, RekordError> {
    match ValidateRequest(hr)
    case Some(e) => Err(e)
    case None =>
      var v := hr.signature.value.verifier.value;
      match ExtractVerifier(lib, v)
      case Err(e) => Err(e)
      case Ok(key) =>
        match VerifySupportedAlgorithm(lib, v, key)
        case Err(e) => Err(e)
        case Ok(alg) =>
          match VerifySignature(lib, key, alg, hr)
          case Some(e) => Err(e)
          case None => Ok(Entry(hr.signature.value, hr.digest, alg))
  }

  /** What an entry of this kind attests: a key that parses, that the registry permits, and that verifies the digest. */
  ghost predicate Attests(lib: Libraries, e: Entry) {
    && e.signature.content != [] && e.digest != [] && e.signature.verifier.Some?
    && var v := e.signature.verifier.value;
    && !v.material.NoMaterial? && v.material.raw != [] && lib.parseKey(v.material).Some?
    && var key := lib.parseKey(v.material).value;
    && lib.algorithm(v.keyDetails) == Some(e.algorithm) && IsPermitted(lib, v, key)
    && lib.loadsAlone(key) && lib.digestVerifies(key, e.algorithm, e.digest, e.signature.content)
  }

  /** What an error says about the request. */
  ghost predicate IsRefusedFor(lib: Libraries, hr: Request, e: RekordError) {
    if e.MissingSignature? then hr.signature.None? || hr.signature.value.content == []
    else if e.MissingDigest? then hr.digest == []
    else if e.MissingVerifier? then hr.signature.Some? && hr.signature.value.verifier.None?
    else
      && hr.signature.Some? && hr.signature.value.verifier.Some?
      && var v := hr.signature.value.verifier.value;
      if e.InvalidVerifier? then Validate(v) == Some(e.e)
      else if e.UnparsableKey? then lib.parseKey(v.material).None?
      else if e.UnknownAlgorithm? then lib.algorithm(v.keyDetails).None?
      else
        && lib.parseKey(v.material).Some? && lib.algorithm(v.keyDetails).Some?
        && var key, alg := lib.parseKey(v.material).value, lib.algorithm(v.keyDetails).value;
        match e
        case RegistryFailed => lib.permitted(key, alg).None?
        case UnsupportedAlgorithm => lib.permitted(key, alg) == Some(false)
        case KeyNotLoaded => !lib.loadsAlone(key)
        case NotVerified => !lib.digestVerifies(key, alg, hr.digest, hr.signature.value.content)
        case _ => false
  }

  /** A request is admitted exactly when the entry it describes attests, and refused with an error that is true of it. */
  lemma AdmittedIffAttests(lib: Libraries, hr: Request)
    ensures ToLogEntry(lib, hr).Ok? <==>
              hr.signature.Some? && hr.signature.value.verifier.Some?
              && lib.algorithm(hr.signature.value.verifier.value.keyDetails).Some?
              && Attests(lib, Entry(hr.signature.value, hr.digest, lib.algorithm(hr.signature.value.verifier.value.keyDetails).value))
    ensures ToLogEntry(lib, hr).Ok? ==>
              Attests(lib, ToLogEntry(lib, hr).value)
              && ToLogEntry(lib, hr).value.signature == hr.signature.value && ToLogEntry(lib, hr).value.digest == hr.digest
    ensures ToLogEntry(lib, hr).Err? ==> IsRefusedFor(lib, hr, ToLogEntry(lib, hr).error)
  {
  }
}
