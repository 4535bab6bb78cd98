/** Key IDs and log IDs, and the note signer and verifier that are built from a key. */
module KeyId {
  import opened Bytes
  import opened Hashing
  import opened SignedNote
  import opened Utf8

  const ALG_ED25519: byte := 1
  const ALG_UNDEF: byte := 255
  /** "PKIX-RSA-PKCS#1v1.5" */
  const RSA_ID: bytes := [80, 75, 73, 88, 45, 82, 83, 65, 45, 80, 75, 67, 83, 35, 49, 118, 49, 46, 53]

  /** A public key; pkix is its DER form, or none if it cannot be marshalled. */
  datatype PublicKey = Ed25519(raw: bytes) | Rsa(pkix: Option<bytes>) | Ecdsa(pkix: Option<bytes>) | OtherKey

  datatype KeyIds = KeyIds(id: nat, logId: bytes)

  datatype KeyError = InvalidName | NoPublicKey | MarshalFailed | UnsupportedKey

  function Preimage(name: bytes, sigType: bytes, key: bytes): bytes {
    name + [LF] + sigType + key
  }

  /** The string whose hash is the log ID. An ECDSA key is hashed alone, without the origin. */
  function LogIdInput(origin: bytes, key: PublicKey): Result<bytes, KeyError> {
    match key
    case Ed25519(raw) => Ok(Preimage(origin, [ALG_ED25519], raw))
    case Rsa(Some(der)) => Ok(Preimage(origin, [ALG_UNDEF] + RSA_ID, der))
    case Ecdsa(Some(der)) => Ok(der)
    case Rsa(None) => Err(MarshalFailed)
    case Ecdsa(None) => Err(MarshalFailed)
    case OtherKey => Err(UnsupportedKey)
  }

  /** The log ID is the hash of that string and the key ID its first four bytes. */
  function KeyIdsOf(h: HashFn, origin: bytes, key: PublicKey): Result<KeyIds, KeyError> {
    match LogIdInput(origin, key)
    case Err(e) => Err(e)
    case Ok(input) => Ok(KeyIds(Uint32(h(input)), h(input)))
  }

  /** Feeds the parts to the hash state one after the other. */
  method GenConformantKeyHash(h: HashFn, name: bytes, sigType: bytes, key: bytes) returns (ids: KeyIds)
    ensures ids.logId == h(name + [10] + sigType + key) && ids.id == Uint32(ids.logId)
  {
    var state: bytes := [];
    state := state + name;
    state := state + [LF];
    state := state + sigType;
    state := state + key;
    assert state == Preimage(name, sigType, key);
    var sum := h(state);
    ids := KeyIds(Uint32(sum), sum);
  }

  method KeyHash(h: HashFn, origin: bytes, key: PublicKey) returns (r: Result<KeyIds, KeyError>)
    ensures r == KeyIdsOf(h, origin, key)
  {
    match key
    case Ecdsa(pkix) =>
      if pkix.None? {
        return Err(MarshalFailed);
      }
      var sum := h(pkix.value);
      r := Ok(KeyIds(Uint32(sum), sum));
    case Ed25519(raw) =>
      var ids := GenConformantKeyHash(h, origin, [ALG_ED25519], raw);
      r := Ok(ids);
    case Rsa(pkix) =>
      if pkix.None? {
        return Err(MarshalFailed);
      }
      var ids := GenConformantKeyHash(h, origin, [ALG_UNDEF] + RSA_ID, pkix.value);
      r := Ok(ids);
    case OtherKey =>
      r := Err(UnsupportedKey);
  }

  function NewNoteSigner(h: HashFn, origin: bytes, key: Option<PublicKey>, sign: bytes -> Option<bytes>)
    : Result<Signer, KeyError>
  {
    if !IsValidName(origin) then Err(InvalidName)
    else if key.None? then Err(NoPublicKey)
    else
      match KeyIdsOf(h, origin, key.value)
      case Err(e) => Err(e)
      case Ok(ids) => Ok(Signer(origin, ids.id, sign))
  }

  function NewNoteVerifier(h: HashFn, origin: bytes, key: Option<PublicKey>, verify: (bytes, bytes) -> bool)
    : Result<Verifier, KeyError>
  {
    if !IsValidName(origin) then Err(InvalidName)
    else if key.None? then Err(NoPublicKey)
    else
      match KeyIdsOf(h, origin, key.value)
      case Err(e) => Err(e)
      case Ok(ids) => Ok(Verifier(origin, ids.id, verify))
  }

  // ----- identity

  /** The strings that are hashed, byte by byte, for each kind of key, and the errors of keys that have none. */
  lemma LogIdBytes(h: HashFn, origin: bytes, key: PublicKey)
    ensures var r := KeyIdsOf(h, origin, key);
            && (r.Ok? ==> PutUint32(r.value.id) == r.value.logId[..4])
            && match key
               case Ed25519(raw) => r.Ok? && r.value.logId == h(origin + [10, 1] + raw)
               case Rsa(Some(der)) => r.Ok? && r.value.logId == h(origin + [10, 255] + RSA_ID + der)
               case Ecdsa(Some(der)) => r.Ok? && r.value.logId == h(der)
               case OtherKey => r == Err(UnsupportedKey)
               case _ => r == Err(MarshalFailed)
  {
    hide Uint32, PutUint32;
    if KeyIdsOf(h, origin, key).Ok? {
      PutUint32OfUint32(KeyIdsOf(h, origin, key).value.logId);
    }
    match key
    case Ed25519(raw) => Ed25519Input(origin, raw);
    case Rsa(Some(der)) => RsaInput(origin, der);
    case _ =>
  }

  lemma Ed25519Input(origin: bytes, raw: bytes)
    ensures Preimage(origin, [ALG_ED25519], raw) == origin + [10, 1] + raw
  {
  }

  lemma RsaInput(origin: bytes, der: bytes)
    ensures Preimage(origin, [ALG_UNDEF] + RSA_ID, der) == origin + [10, 255] + RSA_ID + der
  {
  }

  /** The name of the RSA signature type, as the repository spells it. */
  lemma RsaIdText()
    ensures |RSA_ID| == 19 && forall i :: 0 <= i < 19 ==> RSA_ID[i] as int == "PKIX-RSA-PKCS#1v1.5"[i] as int
  {
    var text := "PKIX-RSA-PKCS#1v1.5";
    assert text[0] == 'P' && text[1] == 'K' && text[2] == 'I' && text[3] == 'X' && text[4] == '-' && text[5] == 'R';
    assert text[6] == 'S' && text[7] == 'A' && text[8] == '-' && text[9] == 'P' && text[10] == 'K' && text[11] == 'C';
    assert text[12] == 'S' && text[13] == '#' && text[14] == '1' && text[15] == 'v' && text[16] == '1' && text[17] == '.' && text[18] == '5';
  }

  /** A signer and a verifier are made exactly for a valid name and a key that has an ID; otherwise the error says what is missing. */
  lemma NotesNeed(h: HashFn, origin: bytes, key: Option<PublicKey>, sign: bytes -> Option<bytes>, verify: (bytes, bytes) -> bool)
    ensures var s, v := NewNoteSigner(h, origin, key, sign), NewNoteVerifier(h, origin, key, verify);
            && (s.Ok? <==> IsValidName(origin) && key.Some? && KeyIdsOf(h, origin, key.value).Ok?)
            && (s.Ok? <==> v.Ok?) && (s.Err? ==> v == Err(s.error))
            && (s.Err? ==>
                  s.error == if !IsValidName(origin) then InvalidName else if key.None? then NoPublicKey
                             else KeyIdsOf(h, origin, key.value).error)
            && (s.Ok? ==>
                  && s.value == Signer(origin, KeyIdsOf(h, origin, key.value).value.id, sign)
                  && v.value == Verifier(origin, s.value.hash, verify))
  {
    hide IsValidName, KeyIdsOf;
  }

  lemma PreimageParts(name: bytes, sigType: bytes, key: bytes)
    requires IsValidName(name)
    ensures NextLine(Preimage(name, sigType, key)) == Some(Cut(name, sigType + key))
  {
    hide NextLine, IsValidName;
    ValidNameHasNo(name, LF);
    assert Preimage(name, sigType, key) == name + [LF] + (sigType + key);
    NextLineOf(name, sigType + key);
  }

  /** The preimage of a valid name decodes in one way only, because the name holds no newline. */
  lemma LogIdInputDecodes(o1: bytes, k1: PublicKey, o2: bytes, k2: PublicKey)
    requires IsValidName(o1) && IsValidName(o2)
    requires (k1.Ed25519? || k1.Rsa?) && (k2.Ed25519? || k2.Rsa?)
    requires LogIdInput(o1, k1).Ok? && LogIdInput(o1, k1) == LogIdInput(o2, k2)
    ensures o1 == o2 && k1 == k2
  {
    hide NextLine, IsValidName, Preimage;
    var t1, b1 := SigType(k1), KeyBytes(k1);
    var t2, b2 := SigType(k2), KeyBytes(k2);
    PreimageParts(o1, t1, b1);
    PreimageParts(o2, t2, b2);
    assert t1 + b1 == t2 + b2 && (t1 + b1)[0] == t1[0] && (t2 + b2)[0] == t2[0];
    assert t1 == t2;
    assert b1 == (t1 + b1)[|t1|..] == (t2 + b2)[|t2|..] == b2;
  }

  ghost function SigType(k: PublicKey): bytes {
    if k.Ed25519? then [ALG_ED25519] else [ALG_UNDEF] + RSA_ID
  }

  ghost function KeyBytes(k: PublicKey): bytes
    requires k.Ed25519? || (k.Rsa? && k.pkix.Some?)
  {
    if k.Ed25519? then k.raw else k.pkix.value
  }

  /**
   Log identity: for Ed25519 and RSA keys, two logs share a log ID only if they have the same
   origin, the same kind of key and the same key, unless the hash collides on the two strings.
   */
  lemma LogIdIdentifies(h: HashFn, o1: bytes, k1: PublicKey, o2: bytes, k2: PublicKey)
    requires IsValidName(o1) && IsValidName(o2)
    requires (k1.Ed25519? || k1.Rsa?) && (k2.Ed25519? || k2.Rsa?)
    requires KeyIdsOf(h, o1, k1).Ok? && KeyIdsOf(h, o2, k2).Ok?
    requires InjectiveOn(h, {LogIdInput(o1, k1).value, LogIdInput(o2, k2).value})
    ensures KeyIdsOf(h, o1, k1).value.logId == KeyIdsOf(h, o2, k2).value.logId <==> o1 == o2 && k1 == k2
  {
    hide LogIdInput, IsValidName, Uint32;
    var x, y := LogIdInput(o1, k1).value, LogIdInput(o2, k2).value;
    if h(x) == h(y) {
      NoCollision(h, {x, y}, x, y);
      LogIdInputDecodes(o1, k1, o2, k2);
    }
  }

  /** An ECDSA key has one log ID for all origins: two ECDSA logs share it exactly when they share the key. */
  lemma EcdsaLogIdIgnoresOrigin(h: HashFn, o1: bytes, k1: PublicKey, o2: bytes, k2: PublicKey)
    requires k1.Ecdsa? && k2.Ecdsa? && k1.pkix.Some? && k2.pkix.Some?
    requires InjectiveOn(h, {k1.pkix.value, k2.pkix.value})
    ensures KeyIdsOf(h, o1, k1) == KeyIdsOf(h, o2, k2) <==> k1 == k2
  {
    hide Uint32;
    var x, y := k1.pkix.value, k2.pkix.value;
    if KeyIdsOf(h, o1, k1) == KeyIdsOf(h, o2, k2) {
      NoCollision(h, {x, y}, x, y);
    }
  }

  /** The object identifier of an elliptic curve key (section 2.1.1 of RFC 5480), without tag and length. */
  const EC_OID: bytes := [0x2A, 0x86, 0x48, 0xCE, 0x3D, 0x02, 0x01]

  /** The identifier is in the DER form of the key, and no newline comes before it. */
  ghost predicate NamesCurveKey(der: bytes) {
    exists head :: LF !in head && head + EC_OID <= der
  }

  /** The first line of such a DER form is no valid name: the identifier is not UTF-8. */
  lemma CurveKeyStartsWithNoName(der: bytes)
    requires NamesCurveKey(der) && NextLine(der).Some?
    ensures !IsValidName(NextLine(der).value.before)
  {
    hide NextLine, AllRunes, IsValidName;
    var head :| LF !in head && head + EC_OID <= der;
    var name, after := NextLine(der).value.before, NextLine(der).value.after;
    assert der[|name|] == LF;
    assert forall i :: 0 <= i < |head| ==> head[i] == der[i];
    assert forall i :: 0 <= i < |EC_OID| ==> der[|head| + i] == (head + EC_OID)[|head| + i] == EC_OID[i];
    assert |name| >= |head| + 2;
    assert forall i :: 0 <= i < |name| ==> name[i] == der[i];
    var tail := name[|head| + 2..];
    assert der[|head|] == EC_OID[0] && der[|head| + 1] == EC_OID[1];
    assert name == head + [0x2A] + ([0x86] + tail);
    NotUtf8(head, tail);
  }

  lemma NotUtf8(head: bytes, tail: bytes)
    ensures !IsValidName(head + [0x2A] + ([0x86] + tail))
  {
    if AllRunes(head + [0x2A] + ([0x86] + tail), NotSpace) {
      AllRunesSplit(head, 0x2A, [0x86] + tail, NotSpace);
    }
  }

  /**
   An ECDSA key and a key of another kind: they share a log ID exactly when the DER form of the
   one is the string hashed for the other, which the DER form of an elliptic curve key never is.
   */
  lemma EcdsaLogIdIsItsOwn(h: HashFn, o1: bytes, k1: PublicKey, o2: bytes, k2: PublicKey)
    requires k1.Ecdsa? && k1.pkix.Some? && (k2.Ed25519? || k2.Rsa?) && KeyIdsOf(h, o2, k2).Ok?
    requires InjectiveOn(h, {k1.pkix.value, LogIdInput(o2, k2).value})
    ensures KeyIdsOf(h, o1, k1).value.logId == KeyIdsOf(h, o2, k2).value.logId <==> k1.pkix.value == LogIdInput(o2, k2).value
    ensures IsValidName(o2) && NamesCurveKey(k1.pkix.value) ==>
              KeyIdsOf(h, o1, k1).value.logId != KeyIdsOf(h, o2, k2).value.logId
  {
    hide Uint32, IsValidName, NamesCurveKey, Preimage, NextLine;
    var x, y := k1.pkix.value, LogIdInput(o2, k2).value;
    if h(x) == h(y) {
      NoCollision(h, {x, y}, x, y);
      if IsValidName(o2) && NamesCurveKey(x) {
        PreimageParts(o2, SigType(k2), KeyBytes(k2));
        CurveKeyStartsWithNoName(x);
      }
    }
  }

  lemma PutUint32OfUint32(b: bytes)
    requires |b| >= 4
    ensures PutUint32(Uint32(b)) == b[..4]
  {
    var n := Uint32(b);
    assert n / 256 == b[0] as int * 0x1_0000 + b[1] as int * 256 + b[2] as int;
    assert n / 0x1_0000 == b[0] as int * 256 + b[1] as int;
    assert n / 0x100_0000 == b[0] as int;
  }

  /**
   The signer and the verifier of one origin and key carry the same ID, the big-endian first four
   bytes of the log ID, and a signature made by one is accepted by the other.
   */
  lemma SignerMatchesVerifier(h: HashFn, origin: bytes, key: PublicKey,
                              sign: bytes -> Option<bytes>, verify: (bytes, bytes) -> bool)
    requires IsValidName(origin) && KeyIdsOf(h, origin, key).Ok?
    requires forall m :: sign(m).Some? ==> |sign(m).value| > 0 && verify(m, sign(m).value)
    ensures NewNoteSigner(h, origin, Some(key), sign).Ok? && NewNoteVerifier(h, origin, Some(key), verify).Ok?
    ensures KeyPair(NewNoteSigner(h, origin, Some(key), sign).value, NewNoteVerifier(h, origin, Some(key), verify).value)
    ensures PutUint32(NewNoteSigner(h, origin, Some(key), sign).value.hash) == KeyIdsOf(h, origin, key).value.logId[..4]
  {
    hide IsValidName, LogIdInput;
    PutUint32OfUint32(KeyIdsOf(h, origin, key).value.logId);
  }
}
