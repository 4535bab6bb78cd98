/** What an admitted DSSE entry says, and what it does not depend on. */
module DsseProperties {
  import opened Bytes
  import opened Admission
  import opened Cover
  import opened Dsse
  import opened DsseEntry
  import opened ByteOrder
  import Base64

  /** The key of v verifies signature i of the envelope. */
  ghost predicate VerifiesAt(lib: Libraries, env: PbEnvelope, key: Key, v: RequestVerifier, i: nat)
    requires NoNil(env)
  {
    && i < |env.signatures| && lib.algorithm(v.keyDetails).Some?
    && lib.verifies(key, lib.algorithm(v.keyDetails).value, env.payloadType, Base64.Encode(env.payload),
                    EncodeSignature(env.signatures[i].value))
  }

  /** The key of v verifies a signature of the envelope with these bytes. */
  ghost predicate Recognises(lib: Libraries, env: PbEnvelope, key: Key, v: RequestVerifier, s: bytes)
    requires NoNil(env)
  {
    exists i :: 0 <= i < |env.signatures| && env.signatures[i].value.sig == s && VerifiesAt(lib, env, key, v, i)
  }

  lemma RecognisesIntro(lib: Libraries, env: PbEnvelope, key: Key, v: RequestVerifier, i: nat)
    requires NoNil(env) && VerifiesAt(lib, env, key, v, i)
    ensures Recognises(lib, env, key, v, env.signatures[i].value.sig)
  {
    hide Base64.Encode;
  }

  /** What a key accepts is a non-empty set of signatures of the envelope that it verifies. */
  lemma AcceptedAreRecognised(lib: Libraries, keys: map<RequestVerifier, Key>, env: PbEnvelope, v: RequestVerifier)
    requires EnvelopeContract(lib) && NoNil(env) && AcceptedBy(lib, keys, env, v).Some?
    ensures var sigs := AcceptedBy(lib, keys, env, v).value;
            && v in keys && sigs != {} && sigs <= RawSigs(env)
            && forall s :: s in sigs ==> Recognises(lib, env, keys[v], v, s)
  {
    hide Base64.Encode, VerifiesAt, Recognises;
    var key, alg := keys[v], lib.algorithm(v.keyDetails).value;
    var accepted := lib.envelopeVerifies(key, alg, Encoded(env)).value;
    assert accepted[0] in accepted;
    var first := AcceptedIsRaw(env, accepted[0]);
    assert EncodedIn(first, accepted);
    assert first in RawOf(env, accepted);
    forall s | s in RawOf(env, accepted) ensures Recognises(lib, env, key, v, s) {
      var a :| a in accepted && a.sig == Base64.Encode(s);
      var i :| 0 <= i < |env.signatures| && Encoded(env).signatures[i] == a;
      Base64.EncodeInjective(s, env.signatures[i].value.sig);
      assert VerifiesAt(lib, env, key, v, i) by { VerifiesAtIntro(lib, env, key, v, i, a); }
      RecognisesIntro(lib, env, key, v, i);
    }
  }

  lemma VerifiesAtIntro(lib: Libraries, env: PbEnvelope, key: Key, v: RequestVerifier, i: nat, a: DsseSignature)
    requires NoNil(env) && i < |env.signatures| && lib.algorithm(v.keyDetails).Some? && a == EncodeSignature(env.signatures[i].value)
    ensures VerifiesAt(lib, env, key, v, i)
       <==> lib.verifies(key, lib.algorithm(v.keyDetails).value, env.payloadType, Base64.Encode(env.payload), a)
  {
  }

  /** A key that loads and verifies some signature of the envelope is not an error. */
  lemma RecognisingKeyAccepts(lib: Libraries, keys: map<RequestVerifier, Key>, env: PbEnvelope, v: RequestVerifier, s: bytes)
    requires EnvelopeContract(lib) && NoNil(env) && v in keys && Recognises(lib, env, keys[v], v, s)
    ensures AcceptedBy(lib, keys, env, v).Some? <==> lib.loads(keys[v], lib.algorithm(v.keyDetails).value)
  {
    hide Base64.Encode;
    var i :| 0 <= i < |env.signatures| && env.signatures[i].value.sig == s && VerifiesAt(lib, env, keys[v], v, i);
    var a := Encoded(env).signatures[i];
    assert a in Encoded(env).signatures;
    assert lib.verifies(keys[v], lib.algorithm(v.keyDetails).value, env.payloadType, Base64.Encode(env.payload), a);
  }

  lemma RunOf(lib: Libraries, ds: Request, order: seq<RequestVerifier>)
    requires EnvelopeContract(lib) && IsOrderOf(order, VerifierSet(ds)) && Admitted(lib, ds, order).Some?
    ensures IsValid(ds) && KeysParse(lib, ds) && PolicyHolds(lib, KeyMap(lib, ds))
    ensures ds.envelope.Some? && NoNil(ds.envelope.value)
    ensures var env, keys := ds.envelope.value, KeyMap(lib, ds);
            var run := Run(AcceptanceOf(lib, keys, env), order, RawSigs(env));
            && run.Some? && Admitted(lib, ds, order) == Some(EntryFrom(lib, env, run.value))
            && run.value.Keys == RawSigs(env)
            && forall s :: s in run.value ==>
                 run.value[s] in ds.verifiers && Recognises(lib, env, keys[run.value[s]], run.value[s], s)
  {
    hide IsOrderOf, PolicyHolds, RawSigs, Recognises, EntryFrom, Run, IsValid;
    ValidHasSignatures(ds);
    var env, keys := ds.envelope.value, KeyMap(lib, ds);
    var acc := AcceptanceOf(lib, keys, env);
    OrderMembers(order, VerifierSet(ds));
    forall v | v in order && acc(v).Some? ensures acc(v).value <= RawSigs(env) {
      AcceptedAreRecognised(lib, keys, env, v);
    }
    RunRecords(acc, order, RawSigs(env), keys.Keys);
    var found := Run(acc, order, RawSigs(env)).value;
    forall s | s in found ensures found[s] in ds.verifiers && Recognises(lib, env, keys[found[s]], found[s], s) {
      AcceptedAreRecognised(lib, keys, env, found[s]);
    }
  }

  lemma OrderMembers<V(!new)>(order: seq<V>, keys: set<V>)
    requires IsOrderOf(order, keys)
    ensures forall v :: v in order <==> v in keys
  {
  }

  ghost function Contents(e: Entry): seq<bytes> {
    seq(|e.signatures|, i requires 0 <= i < |e.signatures| => e.signatures[i].content)
  }

  lemma EntryContents(lib: Libraries, env: PbEnvelope, found: map<bytes, RequestVerifier>)
    ensures var e := EntryFrom(lib, env, found);
            && Contents(e) == Sorted(found.Keys) && e.payloadHash == lib.sha256(env.payload)
            && forall i :: 0 <= i < |e.signatures| ==> e.signatures[i].content in found && e.signatures[i].verifier == found[e.signatures[i].content]
  {
    SortedIn(Sorted(found.Keys), found.Keys);
    var e := EntryFrom(lib, env, found);
    assert |e.signatures| == |Sorted(found.Keys)|;
    assert forall i :: 0 <= i < |e.signatures| ==> e.signatures[i].content == Sorted(found.Keys)[i];
  }

  /**
   Coverage and soundness, for every iteration order: the contents of an entry are exactly the raw
   signatures of the envelope, each once and strictly ascending; each is paired with a verifier of
   the request whose key verifies it; and the registry permits the key of every verifier, also of
   those that the loop never reached.
   */
  lemma AdmittedIsSound(lib: Libraries, ds: Request, order: seq<RequestVerifier>)
    requires EnvelopeContract(lib) && IsOrderOf(order, VerifierSet(ds)) && Admitted(lib, ds, order).Some?
    ensures IsValid(ds) && KeysParse(lib, ds) && ds.envelope.Some? && NoNil(ds.envelope.value)
    ensures var env, keys, e := ds.envelope.value, KeyMap(lib, ds), Admitted(lib, ds, order).value;
            && e.payloadHash == lib.sha256(env.payload)
            && SortedFrom(Contents(e), RawSigs(env))
            && (forall i :: 0 <= i < |e.signatures| ==>
                  && e.signatures[i].verifier in ds.verifiers
                  && Recognises(lib, env, keys[e.signatures[i].verifier], e.signatures[i].verifier, e.signatures[i].content))
            && forall v :: v in ds.verifiers ==> IsPermitted(lib, v, keys[v])
  {
    hide EnvelopeContract, IsOrderOf, RawSigs, Recognises, EntryFrom, Run, IsValid, SortedFrom, Admitted, Sorted, IsPermitted;
    RunOf(lib, ds, order);
    var env, keys := ds.envelope.value, KeyMap(lib, ds);
    var found := Run(AcceptanceOf(lib, keys, env), order, RawSigs(env)).value;
    EntryContents(lib, env, found);
  }

  /** Any two successful runs give the same payload hash and the same signature contents. */
  lemma SameContents(lib: Libraries, ds: Request, a: seq<RequestVerifier>, b: seq<RequestVerifier>)
    requires EnvelopeContract(lib)
    requires IsOrderOf(a, VerifierSet(ds)) && IsOrderOf(b, VerifierSet(ds))
    requires Admitted(lib, ds, a).Some? && Admitted(lib, ds, b).Some?
    ensures Admitted(lib, ds, a).value.payloadHash == Admitted(lib, ds, b).value.payloadHash
    ensures Contents(Admitted(lib, ds, a).value) == Contents(Admitted(lib, ds, b).value)
  {
    hide *;
    AdmittedIsSound(lib, ds, a);
    AdmittedIsSound(lib, ds, b);
    SortedUnique(Contents(Admitted(lib, ds, a).value), Contents(Admitted(lib, ds, b).value), RawSigs(ds.envelope.value));
  }

  // ----- order independence

  /** Each verifier verifies exactly one of the distinct signatures, and no two verify the same one. */
  ghost predicate OneEach(lib: Libraries, ds: Request)
    requires KeysParse(lib, ds) && ds.envelope.Some? && NoNil(ds.envelope.value)
  {
    var env, keys := ds.envelope.value, KeyMap(lib, ds);
    && (forall v :: v in keys ==> exists s :: Recognises(lib, env, keys[v], v, s))
    && (forall v, s, t :: v in keys && Recognises(lib, env, keys[v], v, s) && Recognises(lib, env, keys[v], v, t) ==> s == t)
    && (forall v, w, s :: v in keys && w in keys && Recognises(lib, env, keys[v], v, s) && Recognises(lib, env, keys[w], w, s) ==> v == w)
  }

  /** Under that condition, a key that loads accepts exactly its one signature. */
  lemma OneEachAccepts(lib: Libraries, ds: Request, v: RequestVerifier) returns (s: bytes)
    requires EnvelopeContract(lib) && KeysParse(lib, ds) && ds.envelope.Some? && NoNil(ds.envelope.value) && OneEach(lib, ds)
    requires v in ds.verifiers
    ensures var env, keys := ds.envelope.value, KeyMap(lib, ds);
            && Recognises(lib, env, keys[v], v, s) && s in RawSigs(env)
            && AcceptedBy(lib, keys, env, v) ==
               if lib.algorithm(v.keyDetails).Some? && lib.loads(keys[v], lib.algorithm(v.keyDetails).value) then Some({s}) else None
  {
    hide EnvelopeContract, AcceptedBy;
    var env, keys := ds.envelope.value, KeyMap(lib, ds);
    assert v in keys;
    s :| Recognises(lib, env, keys[v], v, s);
    RecognisingKeyAccepts(lib, keys, env, v, s);
    RecognisedIsRaw(lib, env, keys[v], v, s);
    if AcceptedBy(lib, keys, env, v).Some? {
      AcceptedAreRecognised(lib, keys, env, v);
      var sigs := AcceptedBy(lib, keys, env, v).value;
      forall t | t in sigs ensures t == s {
        assert Recognises(lib, env, keys[v], v, t);
      }
      assert sigs == {s};
    }
  }

  lemma RecognisedIsRaw(lib: Libraries, env: PbEnvelope, key: Key, v: RequestVerifier, s: bytes)
    requires NoNil(env) && Recognises(lib, env, key, v, s)
    ensures s in RawSigs(env) && lib.algorithm(v.keyDetails).Some?
  {
    hide Base64.Encode;
  }

  /** Verdict and entry are a function of the acceptance alone, whatever the two orders. */
  lemma RunOneEach(lib: Libraries, ds: Request, a: seq<RequestVerifier>, b: seq<RequestVerifier>)
    requires EnvelopeContract(lib) && KeysParse(lib, ds) && ds.envelope.Some? && NoNil(ds.envelope.value) && OneEach(lib, ds)
    requires IsOrderOf(a, VerifierSet(ds)) && IsOrderOf(b, VerifierSet(ds))
    ensures var env := ds.envelope.value;
            var acc := AcceptanceOf(lib, KeyMap(lib, ds), env);
            Run(acc, a, RawSigs(env)) == Run(acc, b, RawSigs(env))
  {
    hide EnvelopeContract, Run, RawSigs, AcceptedBy, IsOrderOf, OneEach, Recognises;
    var env, keys := ds.envelope.value, KeyMap(lib, ds);
    var acc, all := AcceptanceOf(lib, keys, env), VerifierSet(ds);
    if bad :| bad in all && acc(bad).None? {
      var s := OneEachAccepts(lib, ds, bad);
      forall v | v in all ensures !Accepts(acc, v, s) {
        if Accepts(acc, v, s) {
          var t := OneEachAccepts(lib, ds, v);
          OneEachDistinct(lib, ds, bad, v, s);
        }
      }
      NotCovered(acc, all, RawSigs(env), s);
      UncoveredFails(acc, a, all, RawSigs(env));
      UncoveredFails(acc, b, all, RawSigs(env));
    } else {
      forall v | v in all ensures acc(v).Some? && acc(v).value <= RawSigs(env) {
        var s := OneEachAccepts(lib, ds, v);
      }
      forall v, w, s | v in all && w in all && Accepts(acc, v, s) && Accepts(acc, w, s) ensures v == w {
        var t := OneEachAccepts(lib, ds, v);
        var u := OneEachAccepts(lib, ds, w);
        OneEachDistinct(lib, ds, v, w, s);
      }
      RunIndependent(acc, a, b, all, RawSigs(env));
    }
  }

  lemma OneEachDistinct(lib: Libraries, ds: Request, v: RequestVerifier, w: RequestVerifier, s: bytes)
    requires KeysParse(lib, ds) && ds.envelope.Some? && NoNil(ds.envelope.value) && OneEach(lib, ds)
    requires v in ds.verifiers && w in ds.verifiers
    requires var env, keys := ds.envelope.value, KeyMap(lib, ds);
             Recognises(lib, env, keys[v], v, s) && Recognises(lib, env, keys[w], w, s)
    ensures v == w
  {
    hide Recognises;
    var keys := KeyMap(lib, ds);
    assert v in keys && w in keys;
  }

  /** Iteration order: under that condition verdict and whole entry are the same for all orders. */
  lemma OrderIndependent(lib: Libraries, ds: Request, a: seq<RequestVerifier>, b: seq<RequestVerifier>)
    requires EnvelopeContract(lib)
    requires KeysParse(lib, ds) && ds.envelope.Some? && NoNil(ds.envelope.value) && OneEach(lib, ds)
    requires IsOrderOf(a, VerifierSet(ds)) && IsOrderOf(b, VerifierSet(ds))
    ensures Admitted(lib, ds, a) == Admitted(lib, ds, b)
  {
    hide EnvelopeContract, Run, RawSigs, IsOrderOf, OneEach, EntryFrom, AcceptanceOf;
    RunOneEach(lib, ds, a, b);
  }

  /**
   The verdict alone: for a valid request with permitted keys it is the same for all orders exactly
   when no verifier is an error, or some signature is accepted by no verifier.
   */
  lemma VerdictOrderIndependence(lib: Libraries, ds: Request)
    requires IsValid(ds) && KeysParse(lib, ds) && PolicyHolds(lib, KeyMap(lib, ds))
    ensures var all, env := VerifierSet(ds), ds.envelope.value;
            var acc := AcceptanceOf(lib, KeyMap(lib, ds), env);
            (forall a, b :: IsOrderOf(a, all) && IsOrderOf(b, all) ==> Admitted(lib, ds, a).Some? == Admitted(lib, ds, b).Some?)
            <==> (forall v :: v in all ==> acc(v).Some?) || !Covered(acc, all, RawSigs(env))
  {
    hide Run, IsOrderOf, EntryFrom, AcceptanceOf, Covered;
    var all, env := VerifierSet(ds), ds.envelope.value;
    var acc := AcceptanceOf(lib, KeyMap(lib, ds), env);
    assert env.signatures[0].value.sig in RawSigs(env);
    VerdictIndependence(acc, all, RawSigs(env));
  }

  /** One entry for all orders in which the request succeeds. */
  ghost predicate EntryIndependent(lib: Libraries, ds: Request) {
    forall a, b :: (IsOrderOf(a, VerifierSet(ds)) && IsOrderOf(b, VerifierSet(ds))
                    && Admitted(lib, ds, a).Some? && Admitted(lib, ds, b).Some?) ==>
      Admitted(lib, ds, a) == Admitted(lib, ds, b)
  }

  /** The entry determines which verifier was recorded for which signature. */
  lemma EntryDetermines(lib: Libraries, env: PbEnvelope, m: map<bytes, RequestVerifier>, n: map<bytes, RequestVerifier>)
    requires EntryFrom(lib, env, m) == EntryFrom(lib, env, n) && m.Keys == n.Keys
    ensures m == n
  {
    var keys := Sorted(m.Keys);
    SortedIn(keys, m.Keys);
    forall s | s in m ensures m[s] == n[s] {
      SortedHas(keys, m.Keys, s);
      var i :| 0 <= i < |keys| && keys[i] == s;
      assert EntryFrom(lib, env, m).signatures[i] == EntrySignature(s, m[s]);
      assert EntryFrom(lib, env, n).signatures[i] == EntrySignature(s, n[s]);
    }
  }

  lemma SortedHas(s: seq<bytes>, keys: set<bytes>, x: bytes)
    requires SortedFrom(s, keys) && x in keys
    ensures x in s
  {
  }

  /** What the verifiers of a request accept are signatures of its envelope. */
  lemma AcceptedWithin(lib: Libraries, ds: Request)
    requires EnvelopeContract(lib) && KeysParse(lib, ds) && ds.envelope.Some? && NoNil(ds.envelope.value)
    ensures var env := ds.envelope.value;
            var acc := AcceptanceOf(lib, KeyMap(lib, ds), env);
            forall v :: v in VerifierSet(ds) && acc(v).Some? ==> acc(v).value <= RawSigs(env) && acc(v).value != {}
  {
    hide EnvelopeContract, AcceptedBy, RawSigs, Recognises;
    var env, keys := ds.envelope.value, KeyMap(lib, ds);
    var acc := AcceptanceOf(lib, keys, env);
    forall v | v in VerifierSet(ds) && acc(v).Some? ensures acc(v).value <= RawSigs(env) && acc(v).value != {} {
      AcceptedAreRecognised(lib, keys, env, v);
    }
  }

  /** Entries of successful orders are equal exactly when the loop records the same verifiers. */
  lemma EntriesAsRecords(lib: Libraries, ds: Request)
    requires EnvelopeContract(lib) && IsValid(ds) && KeysParse(lib, ds) && PolicyHolds(lib, KeyMap(lib, ds))
    ensures ds.envelope.Some? && NoNil(ds.envelope.value)
    ensures var env := ds.envelope.value;
            EntryIndependent(lib, ds) <==> RecordIndependent(AcceptanceOf(lib, KeyMap(lib, ds), env), VerifierSet(ds), RawSigs(env))
  {
    hide EnvelopeContract, Run, RawSigs, IsOrderOf, EntryFrom, IsValid, PolicyHolds, Recognises;
    ValidHasSignatures(ds);
    var env, all := ds.envelope.value, VerifierSet(ds);
    var acc := AcceptanceOf(lib, KeyMap(lib, ds), env);
    if EntryIndependent(lib, ds) {
      forall a, b | IsOrderOf(a, all) && IsOrderOf(b, all) && Run(acc, a, RawSigs(env)).Some? && Run(acc, b, RawSigs(env)).Some?
        ensures Run(acc, a, RawSigs(env)) == Run(acc, b, RawSigs(env))
      {
        assert Admitted(lib, ds, a).Some? && Admitted(lib, ds, b).Some?;
        RunOf(lib, ds, a);
        RunOf(lib, ds, b);
        EntryDetermines(lib, env, Run(acc, a, RawSigs(env)).value, Run(acc, b, RawSigs(env)).value);
      }
    }
  }

  /**
   The whole entry: for a valid request with permitted keys, all successful orders give the same
   entry exactly when the accepted sets leave one verifier to be recorded for each signature.
   */
  lemma EntryOrderIndependence(lib: Libraries, ds: Request)
    requires EnvelopeContract(lib) && IsValid(ds) && KeysParse(lib, ds) && PolicyHolds(lib, KeyMap(lib, ds))
    ensures ds.envelope.Some? && NoNil(ds.envelope.value)
    ensures var env := ds.envelope.value;
            EntryIndependent(lib, ds) <==> OneRecorder(AcceptanceOf(lib, KeyMap(lib, ds), env), VerifierSet(ds), RawSigs(env))
  {
    hide *;
    EntriesAsRecords(lib, ds);
    AcceptedWithin(lib, ds);
    RecordIndependence(AcceptanceOf(lib, KeyMap(lib, ds), ds.envelope.value), VerifierSet(ds), RawSigs(ds.envelope.value));
  }

  /**
   Verdict and entry together: all orders give the same result exactly when some signature is
   accepted by nobody, or no verifier is an error and each signature has one possible recorder.
   */
  lemma AdmissionOrderIndependence(lib: Libraries, ds: Request)
    requires EnvelopeContract(lib) && IsValid(ds) && KeysParse(lib, ds) && PolicyHolds(lib, KeyMap(lib, ds))
    ensures ds.envelope.Some? && NoNil(ds.envelope.value)
    ensures var all, env := VerifierSet(ds), ds.envelope.value;
            var acc := AcceptanceOf(lib, KeyMap(lib, ds), env);
            (forall a, b :: IsOrderOf(a, all) && IsOrderOf(b, all) ==> Admitted(lib, ds, a) == Admitted(lib, ds, b))
            <==> !Covered(acc, all, RawSigs(env)) || ((forall v :: v in all ==> acc(v).Some?) && OneRecorder(acc, all, RawSigs(env)))
  {
    hide EnvelopeContract, Run, RawSigs, IsOrderOf, EntryFrom, IsValid, PolicyHolds, AcceptanceOf, Covered, OneRecorder, Admitted;
    EntryOrderIndependence(lib, ds);
    VerdictOrderIndependence(lib, ds);
    var all, env := VerifierSet(ds), ds.envelope.value;
    var acc := AcceptanceOf(lib, KeyMap(lib, ds), env);
    if !Covered(acc, all, RawSigs(env)) {
      forall a | IsOrderOf(a, all) ensures Admitted(lib, ds, a).None? {
        UncoveredIsRefused(lib, ds, a);
      }
    } else if forall a, b :: IsOrderOf(a, all) && IsOrderOf(b, all) ==> Admitted(lib, ds, a) == Admitted(lib, ds, b) {
      assert EntryIndependent(lib, ds);
    }
  }

  lemma UncoveredIsRefused(lib: Libraries, ds: Request, order: seq<RequestVerifier>)
    requires IsValid(ds) && KeysParse(lib, ds) && IsOrderOf(order, VerifierSet(ds))
    requires !Covered(AcceptanceOf(lib, KeyMap(lib, ds), ds.envelope.value), VerifierSet(ds), RawSigs(ds.envelope.value))
    ensures Admitted(lib, ds, order).None?
  {
    hide Run, IsOrderOf, EntryFrom, AcceptanceOf, Covered;
    UncoveredFails(AcceptanceOf(lib, KeyMap(lib, ds), ds.envelope.value), order, VerifierSet(ds), RawSigs(ds.envelope.value));
  }

  /** With one distinct signature: all successful orders give the same entry exactly when at most one verifier accepts it. */
  lemma OneSignatureOneVerifier(lib: Libraries, ds: Request, s: bytes)
    requires EnvelopeContract(lib) && IsValid(ds) && KeysParse(lib, ds) && PolicyHolds(lib, KeyMap(lib, ds))
    requires RawSigs(ds.envelope.value) == {s}
    ensures var acc := AcceptanceOf(lib, KeyMap(lib, ds), ds.envelope.value);
            EntryIndependent(lib, ds) <==>
              forall v, w :: v in ds.verifiers && w in ds.verifiers && acc(v).Some? && acc(w).Some? ==> v == w
  {
    hide *;
    EntriesAsRecords(lib, ds);
    AcceptedWithin(lib, ds);
    OneSignatureRecord(AcceptanceOf(lib, KeyMap(lib, ds), ds.envelope.value), ds, s);
  }

  lemma OneSignatureRecord(acc: Acceptance<RequestVerifier>, ds: Request, s: bytes)
    requires forall v :: v in VerifierSet(ds) && acc(v).Some? ==> acc(v).value <= {s} && acc(v).value != {}
    ensures RecordIndependent(acc, VerifierSet(ds), {s}) <==>
              forall v, w :: v in ds.verifiers && w in ds.verifiers && acc(v).Some? && acc(w).Some? ==> v == w
  {
    hide RecordIndependent, Run;
    var all := VerifierSet(ds);
    forall v | v in all && acc(v).Some? ensures acc(v).value == {s} {
      var t :| t in acc(v).value;
    }
    if v :| v in all && acc(v).Some? {
      assert Accepts(acc, v, s);
      assert Covered(acc, all, {s});
      SingleRecordIndependence(acc, all, {s});
      assert forall v, w :: v in all && w in all && acc(v).Some? && acc(w).Some? ==> Accepts(acc, v, s) && Accepts(acc, w, s);
    } else {
      RecordIndependence(acc, all, {s});
    }
  }

  // ----- permuting the request

  ghost predicate SamePayload(a: PbEnvelope, b: PbEnvelope) {
    a.payloadType == b.payloadType && a.payload == b.payload
  }

  /** The same request with its verifiers and its signatures in another order. */
  ghost predicate IsPermutation(a: Request, b: Request) {
    && multiset(a.verifiers) == multiset(b.verifiers)
    && a.envelope.Some? && b.envelope.Some?
    && SamePayload(a.envelope.value, b.envelope.value)
    && multiset(a.envelope.value.signatures) == multiset(b.envelope.value.signatures)
  }

  lemma MultisetMembers<T>(a: seq<T>, b: seq<T>)
    requires multiset(a) == multiset(b)
    ensures |a| == |b| && forall x :: x in a <==> x in b
  {
    assert |multiset(a)| == |a| && |multiset(b)| == |b|;
    assert forall x :: x in a <==> x in multiset(a);
    assert forall x :: x in b <==> x in multiset(b);
  }

  lemma {:induction false} DistinctMultiset<T(!new)>(a: seq<T>)
    ensures NoDuplicates(a) <==> forall x :: multiset(a)[x] <= 1
    decreases |a|
  {
    if a != [] {
      InitThenLast(a);
      DistinctMultiset(Init(a));
      assert multiset(a) == multiset(Init(a)) + multiset{Last(a)};
      if NoDuplicates(a) {
        assert Last(a) !in Init(a);
        assert multiset(Init(a))[Last(a)] == 0;
      } else if NoDuplicates(Init(a)) {
        var i, j :| 0 <= i < j < |a| && a[i] == a[j];
        assert j == |a| - 1 && Init(a)[i] == Last(a);
        assert Last(a) in multiset(Init(a));
        assert multiset(a)[Last(a)] > 1;
      } else {
        var x :| multiset(Init(a))[x] > 1;
        assert multiset(a)[x] > 1;
      }
    }
  }

  lemma PermutedValid(a: Request, b: Request)
    requires IsPermutation(a, b) && IsValid(a)
    ensures IsValid(b)
  {
    MultisetMembers(a.verifiers, b.verifiers);
    ValidDistinct(a);
    DistinctMultiset(a.verifiers);
    DistinctMultiset(b.verifiers);
    forall i | 0 <= i < |b.verifiers| ensures IsGiven(b.verifiers[i]) {
      assert b.verifiers[i] in a.verifiers;
    }
    forall i, j | 0 <= i < j < |b.verifiers| ensures b.verifiers[i].material.raw != b.verifiers[j].material.raw {
      var v, w := b.verifiers[i], b.verifiers[j];
      assert v in a.verifiers && w in a.verifiers && v != w;
      var p :| 0 <= p < |a.verifiers| && a.verifiers[p] == v;
      var q :| 0 <= q < |a.verifiers| && a.verifiers[q] == w;
    }
    PermutedSignatures(a.envelope.value, b.envelope.value);
  }

  lemma PermutedSignatures(a: PbEnvelope, b: PbEnvelope)
    requires multiset(a.signatures) == multiset(b.signatures) && HasSignatures(a)
    ensures HasSignatures(b)
  {
    MultisetMembers(a.signatures, b.signatures);
    forall i | 0 <= i < |b.signatures| ensures b.signatures[i].Some? && b.signatures[i].value.sig != [] {
      assert b.signatures[i] in multiset(b.signatures);
      assert b.signatures[i] in a.signatures;
    }
  }

  lemma PermutedRecognises(lib: Libraries, a: PbEnvelope, b: PbEnvelope, key: Key, v: RequestVerifier, s: bytes)
    requires NoNil(a) && NoNil(b) && SamePayload(a, b) && multiset(a.signatures) == multiset(b.signatures)
    requires Recognises(lib, a, key, v, s)
    ensures Recognises(lib, b, key, v, s)
  {
    hide Base64.Encode;
    MultisetMembers(a.signatures, b.signatures);
    var i :| 0 <= i < |a.signatures| && a.signatures[i].value.sig == s && VerifiesAt(lib, a, key, v, i);
    assert a.signatures[i] in b.signatures;
    var j :| 0 <= j < |b.signatures| && b.signatures[j] == a.signatures[i];
    assert VerifiesAt(lib, b, key, v, j);
  }

  lemma PermutedRaw(a: PbEnvelope, b: PbEnvelope)
    requires NoNil(a) && NoNil(b) && multiset(a.signatures) == multiset(b.signatures)
    ensures RawSigs(a) <= RawSigs(b)
  {
    MultisetMembers(a.signatures, b.signatures);
    forall s | s in RawSigs(a) ensures s in RawSigs(b) {
      var i :| 0 <= i < |a.signatures| && a.signatures[i].value.sig == s;
      assert a.signatures[i] in b.signatures;
      var j :| 0 <= j < |b.signatures| && b.signatures[j] == a.signatures[i];
    }
  }

  lemma PermutedKeys(lib: Libraries, a: Request, b: Request)
    requires IsPermutation(a, b) && KeysParse(lib, a)
    ensures KeysParse(lib, b) && KeyMap(lib, a) == KeyMap(lib, b)
    ensures VerifierSet(a) == VerifierSet(b)
  {
    MultisetMembers(a.verifiers, b.verifiers);
    assert IsKeyMap(lib, b, KeyMap(lib, a));
    KeyMapUnique(lib, b, KeyMap(lib, a), KeyMap(lib, b));
  }

  lemma PermutedOneEach(lib: Libraries, a: Request, b: Request)
    requires IsPermutation(a, b) && KeysParse(lib, a) && KeysParse(lib, b) && KeyMap(lib, a) == KeyMap(lib, b)
    requires NoNil(a.envelope.value) && NoNil(b.envelope.value) && OneEach(lib, a)
    ensures OneEach(lib, b)
  {
    hide Recognises;
    var ea, eb, keys := a.envelope.value, b.envelope.value, KeyMap(lib, a);
    forall v, s | v in keys ensures Recognises(lib, ea, keys[v], v, s) <==> Recognises(lib, eb, keys[v], v, s) {
      if Recognises(lib, ea, keys[v], v, s) {
        PermutedRecognises(lib, ea, eb, keys[v], v, s);
      }
      if Recognises(lib, eb, keys[v], v, s) {
        PermutedRecognises(lib, eb, ea, keys[v], v, s);
      }
    }
  }

  /** The keys accept the same signatures, although the envelope verifier sees the signatures in another order. */
  lemma PermutedAcceptance(lib: Libraries, a: Request, b: Request, v: RequestVerifier)
    requires EnvelopeContract(lib) && IsPermutation(a, b) && KeysParse(lib, a) && KeysParse(lib, b) && KeyMap(lib, a) == KeyMap(lib, b)
    requires NoNil(a.envelope.value) && NoNil(b.envelope.value) && OneEach(lib, a) && OneEach(lib, b)
    requires v in a.verifiers && v in b.verifiers
    ensures AcceptedBy(lib, KeyMap(lib, a), a.envelope.value, v) == AcceptedBy(lib, KeyMap(lib, b), b.envelope.value, v)
  {
    hide EnvelopeContract, AcceptedBy, Recognises, RawSigs;
    var s := OneEachAccepts(lib, a, v);
    var t := OneEachAccepts(lib, b, v);
    PermutedRecognises(lib, b.envelope.value, a.envelope.value, KeyMap(lib, a)[v], v, t);
    assert v in KeyMap(lib, a) && s == t;
  }

  /**
   The request: under the same condition, permuting the signatures and the verifiers of a request
   changes neither verdict nor entry, under any iteration orders.
   */
  lemma PermutationIndependent(lib: Libraries, a: Request, b: Request, orderA: seq<RequestVerifier>, orderB: seq<RequestVerifier>)
    requires EnvelopeContract(lib) && IsPermutation(a, b)
    requires KeysParse(lib, a) && NoNil(a.envelope.value) && OneEach(lib, a)
    requires IsOrderOf(orderA, VerifierSet(a)) && IsOrderOf(orderB, VerifierSet(b))
    ensures Admitted(lib, a, orderA) == Admitted(lib, b, orderB)
  {
    hide EnvelopeContract, AcceptedBy, Recognises, RawSigs, IsOrderOf, OneEach, IsValid, IsPermutation, EntryFrom, Loop, PolicyHolds;
    PermutationParts(a, b);
    if IsValid(a) {
      PermutedValid(a, b);
    }
    if IsValid(b) {
      PermutedValid(b, a);
    }
    PermutedKeys(lib, a, b);
    PermutedNoNil(a.envelope.value, b.envelope.value);
    PermutedOneEach(lib, a, b);
    var ea, eb, keys := a.envelope.value, b.envelope.value, KeyMap(lib, a);
    PermutedRaw(ea, eb);
    PermutedRaw(eb, ea);
    assert RawSigs(ea) == RawSigs(eb);
    RunOneEach(lib, a, orderA, orderB);
    var accA, accB := AcceptanceOf(lib, keys, ea), AcceptanceOf(lib, keys, eb);
    OrderMembers(orderB, VerifierSet(b));
    forall v | v in orderB ensures accA(v) == accB(v) {
      PermutedAcceptance(lib, a, b, v);
    }
    LoopFrame(accA, accB, orderB, Progress(RawSigs(ea), map[]));
    EntrySamePayload(lib, ea, eb);
    assert Run(accA, orderA, RawSigs(ea)) == Run(accB, orderB, RawSigs(eb));
    assert Admitted(lib, b, orderB) == if !IsValid(b) || !PolicyHolds(lib, keys) then None else
        match Run(accB, orderB, RawSigs(eb)) case None => None case Some(found) => Some(EntryFrom(lib, eb, found));
  }

  lemma PermutationParts(a: Request, b: Request)
    requires IsPermutation(a, b)
    ensures a.envelope.Some? && b.envelope.Some? && SamePayload(a.envelope.value, b.envelope.value)
    ensures multiset(a.envelope.value.signatures) == multiset(b.envelope.value.signatures)
    ensures IsPermutation(b, a)
  {
  }

  lemma PermutedNoNil(a: PbEnvelope, b: PbEnvelope)
    requires NoNil(a) && multiset(a.signatures) == multiset(b.signatures)
    ensures NoNil(b)
  {
    MultisetMembers(a.signatures, b.signatures);
    forall i | 0 <= i < |b.signatures| ensures b.signatures[i].Some? {
      assert b.signatures[i] in multiset(b.signatures);
      assert b.signatures[i] in a.signatures;
    }
  }

  lemma EntrySamePayload(lib: Libraries, a: PbEnvelope, b: PbEnvelope)
    requires SamePayload(a, b)
    ensures forall found :: EntryFrom(lib, a, found) == EntryFrom(lib, b, found)
  {
  }
}
