/** From a DSSE request to a log entry: every signature verified by some key, in canonical order. */
module DsseEntry {
  import opened Bytes
  import opened Admission
  import opened Cover
  import opened Dsse
  import opened ByteOrder
  import Base64

  // ----- specification

  ghost predicate NoNil(env: PbEnvelope) {
    forall i :: 0 <= i < |env.signatures| ==> env.signatures[i].Some?
  }

  ghost function RawSigs(env: PbEnvelope): set<bytes>
    requires NoNil(env)
  {
    set i | 0 <= i < |env.signatures| :: env.signatures[i].value.sig
  }

  ghost predicate EncodedIn(s: bytes, accepted: seq<DsseSignature>) {
    exists a :: a in accepted && a.sig == Base64.Encode(s)
  }

  ghost function RawOf(env: PbEnvelope, accepted: seq<DsseSignature>): set<bytes>
    requires NoNil(env)
  {
    set s | s in RawSigs(env) && EncodedIn(s, accepted)
  }

  /** The raw signatures that the key of v accepts in an envelope; none where checking it fails. */
  ghost function AcceptedBy(lib: Libraries, keys: map<RequestVerifier, Key>, env: PbEnvelope, v: RequestVerifier): Option<set<bytes>>
    requires NoNil(env)
  {
    if v !in keys || lib.algorithm(v.keyDetails).None? || !lib.loads(keys[v], lib.algorithm(v.keyDetails).value) then None
    else
      match lib.envelopeVerifies(keys[v], lib.algorithm(v.keyDetails).value, Encoded(env))
      case None => None
      case Some(accepted) => Some(RawOf(env, accepted))
  }

  ghost function AcceptanceOf(lib: Libraries, keys: map<RequestVerifier, Key>, env: PbEnvelope): (acc: Acceptance<RequestVerifier>)
    requires NoNil(env)
    ensures forall v :: acc(v) == AcceptedBy(lib, keys, env, v)
  {
    v => AcceptedBy(lib, keys, env, v)
  }

  ghost predicate PolicyHolds(lib: Libraries, keys: map<RequestVerifier, Key>) {
    forall v :: v in keys ==> IsPermitted(lib, v, keys[v])
  }

  ghost function KeyMap(lib: Libraries, ds: Request): (keys: map<RequestVerifier, Key>)
    requires KeysParse(lib, ds)
    ensures IsKeyMap(lib, ds, keys)
  {
    map v | v in ds.verifiers :: lib.parseKey(v.material).value
  }

  lemma KeyMapUnique(lib: Libraries, ds: Request, a: map<RequestVerifier, Key>, b: map<RequestVerifier, Key>)
    requires IsKeyMap(lib, ds, a) && IsKeyMap(lib, ds, b)
    ensures a == b
  {
    assert a.Keys == b.Keys;
    forall v | v in a ensures a[v] == b[v] {
      assert lib.parseKey(v.material) == Some(a[v]) && lib.parseKey(v.material) == Some(b[v]);
    }
  }

  ghost function Canonical(contents: seq<bytes>, found: map<bytes, RequestVerifier>): seq<EntrySignature>
    requires forall s :: s in contents ==> s in found
  {
    seq(|contents|, i requires 0 <= i < |contents| => EntrySignature(contents[i], found[contents[i]]))
  }

  ghost function EntryFrom(lib: Libraries, env: PbEnvelope, found: map<bytes, RequestVerifier>): Entry {
    Entry(lib.sha256(env.payload), Canonical(Sorted(found.Keys), found))
  }

  /** The entry that a request gives when its verifiers are visited in the given order. */
  ghost function Admitted(lib: Libraries, ds: Request, order: seq<RequestVerifier>): Option<Entry> {
    if IsValid(ds) && KeysParse(lib, ds) && PolicyHolds(lib, KeyMap(lib, ds)) then
      var env := ds.envelope.value;
      match Run(AcceptanceOf(lib, KeyMap(lib, ds), env), order, RawSigs(env))
      case None => None
      case Some(found) => Some(EntryFrom(lib, env, found))
    else None
  }

  /** What an error of the policy says about the keys. */
  ghost predicate IsUnpermittedFor(lib: Libraries, keys: map<RequestVerifier, Key>, e: DsseError) {
    match e
    case UnknownAlgorithm => exists v :: v in keys && lib.algorithm(v.keyDetails).None?
    case RegistryFailed =>
      exists v :: v in keys && lib.algorithm(v.keyDetails).Some? && lib.permitted(keys[v], lib.algorithm(v.keyDetails).value).None?
    case UnsupportedAlgorithm =>
      exists v :: v in keys && lib.algorithm(v.keyDetails).Some? && lib.permitted(keys[v], lib.algorithm(v.keyDetails).value) == Some(false)
    case _ => false
  }

  ghost predicate Loads(lib: Libraries, keys: map<RequestVerifier, Key>, v: RequestVerifier) {
    v in keys && lib.algorithm(v.keyDetails).Some? && lib.loads(keys[v], lib.algorithm(v.keyDetails).value)
  }

  /** What an error says about the request, beyond its form: the keys, the policy and the signatures. */
  ghost predicate IsRefusedFor(lib: Libraries, keys: map<RequestVerifier, Key>, env: PbEnvelope, e: DsseError)
    requires NoNil(env)
  {
    match e
    case KeyNotLoaded => exists v :: v in keys && lib.algorithm(v.keyDetails).Some? && !Loads(lib, keys, v)
    case EnvelopeNotVerified => exists v :: Loads(lib, keys, v) && AcceptedBy(lib, keys, env, v).None?
    case UnverifiedSignatures => !Covered(AcceptanceOf(lib, keys, env), keys.Keys, RawSigs(env))
    case _ => IsUnpermittedFor(lib, keys, e)
  }

  // ----- the code

  /** Checks every key against the registry before any signature is looked at. */
  method CheckAlgorithms(lib: Libraries, keys: map<RequestVerifier, Key>, order: seq<RequestVerifier>) returns (r: Option<DsseError>)
    requires IsOrderOf(order, keys.Keys)
    ensures r.None? <==> PolicyHolds(lib, keys)
    ensures r.Some? ==> IsUnpermittedFor(lib, keys, r.value)
  {
    for i := 0 to |order|
      invariant forall j :: 0 <= j < i ==> order[j] in keys && IsPermitted(lib, order[j], keys[order[j]])
    {
      var v := order[i];
      assert v in order && v in keys;
      var alg := lib.algorithm(v.keyDetails);
      if alg.None? {
        return Some(UnknownAlgorithm);
      }
      var valid := lib.permitted(keys[v], alg.value);
      if valid.None? {
        return Some(RegistryFailed);
      }
      if !valid.value {
        return Some(UnsupportedAlgorithm);
      }
    }
    forall v | v in keys ensures IsPermitted(lib, v, keys[v]) {
      assert v in order;
      var j :| 0 <= j < |order| && order[j] == v;
    }
    return None;
  }

  ghost function EncodeAll(sigs: set<bytes>): set<bytes> {
    set s | s in sigs :: Base64.Encode(s)
  }

  lemma EncodeAllMember(sigs: set<bytes>, s: bytes)
    ensures Base64.Encode(s) in EncodeAll(sigs) <==> s in sigs
  {
    hide Base64.Encode;
    if Base64.Encode(s) in EncodeAll(sigs) {
      var t :| t in sigs && Base64.Encode(t) == Base64.Encode(s);
      Base64.EncodeInjective(s, t);
    }
  }

  lemma EncodeAllMinus(sigs: set<bytes>, s: bytes)
    ensures EncodeAll(sigs) - {Base64.Encode(s)} == EncodeAll(sigs - {s})
  {
    hide Base64.Encode;
    forall x | x in EncodeAll(sigs) ensures x in EncodeAll(sigs - {s}) <==> x != Base64.Encode(s) {
      var t :| t in sigs && Base64.Encode(t) == x;
      EncodeAllMember(sigs - {s}, t);
      EncodeAllMember(sigs - {s}, s);
      if Base64.Encode(t) == Base64.Encode(s) {
        Base64.EncodeInjective(s, t);
      }
    }
  }

  lemma AcceptedIsRaw(env: PbEnvelope, a: DsseSignature) returns (s: bytes)
    requires NoNil(env) && a in Encoded(env).signatures
    ensures s in RawSigs(env) && a.sig == Base64.Encode(s)
  {
    hide Base64.Encode;
    var i :| 0 <= i < |env.signatures| && Encoded(env).signatures[i] == a;
    s := env.signatures[i].value.sig;
  }

  lemma RawOfSnoc(env: PbEnvelope, accepted: seq<DsseSignature>, a: DsseSignature, s: bytes)
    requires NoNil(env) && s in RawSigs(env) && a.sig == Base64.Encode(s)
    ensures RawOf(env, accepted + [a]) == RawOf(env, accepted) + {s}
  {
    hide Base64.Encode;
    forall t | t in RawSigs(env) ensures EncodedIn(t, accepted + [a]) <==> EncodedIn(t, accepted) || t == s {
      if EncodedIn(t, accepted + [a]) {
        var b :| b in accepted + [a] && b.sig == Base64.Encode(t);
        if b == a {
          Base64.EncodeInjective(s, t);
        }
      }
      if EncodedIn(t, accepted) {
        var b :| b in accepted && b.sig == Base64.Encode(t);
        assert b in accepted + [a];
      }
      if t == s {
        assert a in accepted + [a];
      }
    }
  }

  /**
   Takes the accepted signatures out of the open ones and records the verifier for them. The
   signatures of an envelope were encoded by this server, so decoding one never fails.
   */
  method TakeAccepted(env: PbEnvelope, accepted: seq<DsseSignature>, v: RequestVerifier,
                      allSigs: set<bytes>, ghost left: set<bytes>, savs: map<bytes, RequestVerifier>)
    returns (allSigs': set<bytes>, savs': map<bytes, RequestVerifier>, r: Option<DsseError>)
    requires NoNil(env) && forall a :: a in accepted ==> a in Encoded(env).signatures
    requires allSigs == EncodeAll(left)
    ensures r.None?
    ensures allSigs' == EncodeAll(left - RawOf(env, accepted)) && savs' == Record(savs, RawOf(env, accepted), v)
  {
    hide Base64.Encode, Base64.Decode, EncodeAll, Encoded, RawSigs, RawOf;
    allSigs', savs' := allSigs, savs;
    ghost var taken: set<bytes> := {};
    RawOfNothing(env);
    assert left - {} == left && accepted[..0] == [];
    assert Record(savs, {}, v) == savs;
    for i := 0 to |accepted|
      invariant taken == RawOf(env, accepted[..i])
      invariant allSigs' == EncodeAll(left - taken) && savs' == Record(savs, taken, v)
    {
      var a := accepted[i];
      ghost var s := AcceptedIsRaw(env, a);
      EncodeAllMinus(left - taken, s);
      allSigs' := allSigs' - {a.sig};
      var raw := Base64.Decode(a.sig);
      Base64.RoundTrip(s);
      if raw.None? {
        return allSigs', savs', Some(BadBase64);
      }
      savs' := savs'[raw.value := v];
      RawOfSnoc(env, accepted[..i], a, s);
      assert accepted[..i + 1] == accepted[..i] + [a];
      assert left - taken - {s} == left - (taken + {s});
      assert savs' == Record(savs, taken + {s}, v);
      taken := taken + {s};
    }
    assert accepted[..|accepted|] == accepted;
    return allSigs', savs', None;
  }

  lemma RawOfNothing(env: PbEnvelope)
    requires NoNil(env)
    ensures RawOf(env, []) == {}
  {
  }

  lemma LoopStep(acc: Acceptance<RequestVerifier>, order: seq<RequestVerifier>, i: nat, p: Progress<RequestVerifier>)
    requires i < |order| && p.left != {}
    ensures Loop(acc, order[i..], p) ==
            match acc(order[i])
            case None => None
            case Some(sigs) => Loop(acc, order[i + 1..], Progress(p.left - sigs, Record(p.found, sigs, order[i])))
  {
    assert order[i..][0] == order[i] && order[i..][1..] == order[i + 1..];
  }

  lemma EncodeAllEmpty(sigs: set<bytes>)
    ensures EncodeAll(sigs) == {} <==> sigs == {}
  {
    hide Base64.Encode;
    if s :| s in sigs {
      assert Base64.Encode(s) in EncodeAll(sigs);
    }
  }

  lemma AllSigs(env: PbEnvelope)
    requires NoNil(env)
    ensures (set a | a in Encoded(env).signatures :: a.sig) == EncodeAll(RawSigs(env))
  {
    hide Base64.Encode;
    var sigs := Encoded(env).signatures;
    forall x | x in EncodeAll(RawSigs(env)) ensures exists a :: a in sigs && a.sig == x {
      var i :| 0 <= i < |env.signatures| && Base64.Encode(env.signatures[i].value.sig) == x;
      assert sigs[i] in sigs && sigs[i].sig == x;
    }
    forall a | a in sigs ensures a.sig in EncodeAll(RawSigs(env)) {
      var s := AcceptedIsRaw(env, a);
    }
  }

  /**
   For every iteration order: succeeds exactly when every key is permitted and the loop of
   module Cover takes away all signatures, and returns what that loop records.
   */
  method VerifyEnvelopeAndSupportedAlgs(lib: Libraries, keys: map<RequestVerifier, Key>, env: PbEnvelope,
                                        policyOrder: seq<RequestVerifier>, order: seq<RequestVerifier>)
    returns (r: Result<map<bytes, RequestVerifier>, DsseError>)
    requires EnvelopeContract(lib) && NoNil(env)
    requires IsOrderOf(policyOrder, keys.Keys) && IsOrderOf(order, keys.Keys)
    ensures PolicyHolds(lib, keys) ==>
              match Run(AcceptanceOf(lib, keys, env), order, RawSigs(env))
              case None => r.Err?
              case Some(found) => r == Ok(found)
    ensures !PolicyHolds(lib, keys) ==> r.Err?
    ensures r.Err? ==> IsRefusedFor(lib, keys, env, r.error)
  {
    hide Base64.Encode, Base64.Decode, EncodeAll, RawSigs, RawOf, Loop, PolicyHolds, IsRefusedFor, IsUnpermittedFor;
    var bad := CheckAlgorithms(lib, keys, policyOrder);
    if bad.Some? {
      RefusedByPolicy(lib, keys, env, bad.value);
      return Err(bad.value);
    }
    var env' := FromProto(env);
    var savs: map<bytes, RequestVerifier> := map[];
    var allSigs := set a | a in env'.signatures :: a.sig;
    AllSigs(env);
    ghost var left, acc := RawSigs(env), AcceptanceOf(lib, keys, env);
    ghost var start := Progress(left, savs);
    assert order[0..] == order;
    for i := 0 to |order|
      invariant allSigs == EncodeAll(left)
      invariant Loop(acc, order[i..], Progress(left, savs)) == Loop(acc, order, start)
    {
      EncodeAllEmpty(left);
      if |allSigs| == 0 {
        LoopStops(acc, order[i..], Progress(left, savs));
        return Ok(savs);
      }
      var v := order[i];
      assert v in order && v in keys;
      LoopStep(acc, order, i, Progress(left, savs));
      var alg := lib.algorithm(v.keyDetails);
      if alg.None? {
        RefusedByVerifier(lib, keys, env, v);
        return Err(UnknownAlgorithm);
      }
      if !lib.loads(keys[v], alg.value) {
        RefusedByVerifier(lib, keys, env, v);
        return Err(KeyNotLoaded);
      }
      var accepted := lib.envelopeVerifies(keys[v], alg.value, env');
      if accepted.None? {
        RefusedByVerifier(lib, keys, env, v);
        return Err(EnvelopeNotVerified);
      }
      var err;
      allSigs, savs, err := TakeAccepted(env, accepted.value, v, allSigs, left, savs);
      left := left - RawOf(env, accepted.value);
    }
    LoopAtEnd(acc, order, Progress(left, savs));
    EncodeAllEmpty(left);
    if |allSigs| > 0 {
      LeftIsNotCovered(acc, order, keys.Keys, RawSigs(env));
      RefusedByCover(lib, keys, env);
      return Err(UnverifiedSignatures);
    }
    return Ok(savs);
  }

  lemma RefusedByPolicy(lib: Libraries, keys: map<RequestVerifier, Key>, env: PbEnvelope, e: DsseError)
    requires NoNil(env) && IsUnpermittedFor(lib, keys, e)
    ensures IsRefusedFor(lib, keys, env, e)
  {
  }

  lemma RefusedByVerifier(lib: Libraries, keys: map<RequestVerifier, Key>, env: PbEnvelope, v: RequestVerifier)
    requires NoNil(env) && v in keys
    ensures lib.algorithm(v.keyDetails).None? ==> IsRefusedFor(lib, keys, env, UnknownAlgorithm)
    ensures lib.algorithm(v.keyDetails).Some? && !Loads(lib, keys, v) ==> IsRefusedFor(lib, keys, env, KeyNotLoaded)
    ensures Loads(lib, keys, v) && AcceptedBy(lib, keys, env, v).None? ==> IsRefusedFor(lib, keys, env, EnvelopeNotVerified)
  {
    hide AcceptedBy;
  }

  lemma RefusedByCover(lib: Libraries, keys: map<RequestVerifier, Key>, env: PbEnvelope)
    requires NoNil(env) && !Covered(AcceptanceOf(lib, keys, env), keys.Keys, RawSigs(env))
    ensures IsRefusedFor(lib, keys, env, UnverifiedSignatures)
  {
    hide Covered, RawSigs, AcceptanceOf;
  }

  lemma LoopAtEnd(acc: Acceptance<RequestVerifier>, order: seq<RequestVerifier>, p: Progress<RequestVerifier>)
    ensures Loop(acc, order[|order|..], p) == Some(p)
  {
  }

  /** The keys of a map in an iteration order of its own. */
  method CollectKeys(m: map<bytes, RequestVerifier>) returns (keys: seq<bytes>)
    ensures NoDuplicates(keys) && (set x | x in keys) == m.Keys
  {
    keys := [];
    var rest := m.Keys;
    while rest != {}
      invariant NoDuplicates(keys)
      invariant forall x :: x in rest ==> x in m.Keys && x !in keys
      invariant forall x :: x in keys ==> x in m.Keys
      invariant forall x :: x in m.Keys ==> x in rest || x in keys
      decreases |rest|
    {
      var s :| s in rest;
      keys := keys + [s];
      rest := rest - {s};
    }
  }

  /** An error that is true of the request. */
  ghost predicate IsRefused(lib: Libraries, ds: Request, e: DsseError) {
    || IsInvalidFor(ds, e)
    || (e.UnparsableKey? && exists v :: v in ds.verifiers && !v.material.NoMaterial? && lib.parseKey(v.material).None?)
    || (KeysParse(lib, ds) && ds.envelope.Some? && NoNil(ds.envelope.value) && IsRefusedFor(lib, KeyMap(lib, ds), ds.envelope.value, e))
  }

  /**
   For every iteration order: the entry that the specification gives for that order, or an error
   that is true of the request where it gives none.
   */
  method ToLogEntry(lib: Libraries, ds: Request, policyOrder: seq<RequestVerifier>, order: seq<RequestVerifier>)
    returns (r: Result<Entry, DsseError>)
    requires EnvelopeContract(lib)
    requires IsOrderOf(policyOrder, VerifierSet(ds)) && IsOrderOf(order, VerifierSet(ds))
    ensures match Admitted(lib, ds, order) case None => r.Err? case Some(e) => r == Ok(e)
    ensures r.Err? ==> IsRefused(lib, ds, r.error)
  {
    hide IsInvalidFor, IsRefusedFor, EnvelopeContract, IsOrderOf, PolicyHolds, Run, RawSigs, IsValid, SortedFrom;
    var invalid := ValidateRequest(ds);
    if invalid.Some? {
      return Err(invalid.value);
    }
    ValidHasSignatures(ds);
    var keys := ExtractVerifiers(lib, ds);
    if keys.Err? {
      return Err(keys.error);
    }
    KeyMapUnique(lib, ds, keys.value, KeyMap(lib, ds));
    assert keys.value.Keys == VerifierSet(ds);
    var env := ds.envelope.value;
    var savs := VerifyEnvelopeAndSupportedAlgs(lib, keys.value, env, policyOrder, order);
    if savs.Err? {
      return Err(savs.error);
    }
    var sigs := CollectKeys(savs.value);
    sigs := Sort(sigs);
    SortedUnique(sigs, Sorted(savs.value.Keys), savs.value.Keys);
    SortedIn(sigs, savs.value.Keys);
    var canonical: seq<EntrySignature> := [];
    for i := 0 to |sigs|
      invariant canonical == Canonical(sigs[..i], savs.value)
    {
      canonical := canonical + [EntrySignature(sigs[i], savs.value[sigs[i]])];
    }
    assert sigs[..|sigs|] == sigs;
    return Ok(Entry(lib.sha256(env.payload), canonical));
  }

  lemma ValidHasSignatures(ds: Request)
    requires IsValid(ds)
    ensures ds.envelope.Some? && NoNil(ds.envelope.value)
  {
  }

  lemma SortedIn(s: seq<bytes>, keys: set<bytes>)
    requires SortedFrom(s, keys)
    ensures forall x :: x in s ==> x in keys
  {
  }
}
