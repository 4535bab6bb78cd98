/**
 The running log: concurrent requests, the sequencer, checkpoint publication, restarts and the
 freeze tool, as one state machine. A run is any sequence of events, so every interleaving.
 */
module LogSystem {
  import opened Bytes
  import opened Hashing
  import opened Merkle
  import opened Admission
  import opened SafeInt
  import opened Cover
  import opened CheckpointText
  import opened Verify
  import opened Storage
  import opened Tiles
  import opened Service
  import SignedNote
  import Freeze
  import Decimal
  import Utf8

  /** What does not change: the settings of the server and the key of the log. */
  datatype World = World(cfg: Settings, verifier: SignedNote.Verifier, signer: SignedNote.Signer)

  /** A request between admission and answer. */
  datatype Pending =
    | Waiting(kind: Kind, body: bytes)
    | Sequenced(kind: Kind, body: bytes, index: nat, isDup: bool)

  /** The answer to a request, and the body that it submitted to the sequencer. */
  datatype Answered = Answered(id: nat, answer: Answer, submitted: Option<bytes>)

  datatype State = State(
    readOnly: bool,
    leaves: seq<bytes>,             // entries by assigned index
    owner: seq<nat>,                // the request that each index was assigned to
    integrated: nat,                // how many leaves the tree and its tiles hold
    published: seq<bytes>,          // signed checkpoints, the last one is the stored object
    pending: map<nat, Pending>,
    used: set<nat>,                 // identities of all requests so far
    answers: seq<Answered>,
    before: Counters,               // what the counters had reached in earlier processes
    counters: Counters)

  datatype Event =
    | Submit(id: nat, req: Request, order: seq<RequestVerifier>)
    | Sequence(id: nat)
    | SequenceDuplicate(id: nat, index: nat)
    | Abort(id: nat, e: AwaitError)
    | Integrate(n: nat)
    | Publish(envelope: bytes)
    | Respond(id: nat, envelope: bytes, read: ReadTile)
    | Restart(readOnly: bool)
    | RunFreeze(attempt: Freeze.Attempt)

  const INITIAL: State := State(false, [], [], 0, [], map[], {}, [], Counters(0, 0, 0), Counters(0, 0, 0))

  ghost predicate WellFormed(w: World) {
    EnvelopeContract(w.cfg.lib) && SignedNote.KeyPair(w.signer, w.verifier)
  }

  /** A checkpoint that the log may publish: signed by its key, and the root of integrated leaves. */
  ghost predicate IsHonest(w: World, leaves: seq<bytes>, integrated: nat, envelope: bytes)
    requires integrated <= |leaves|
  {
    && ParseCheckpoint(envelope, w.verifier).Ok?
    && var c := ParseCheckpoint(envelope, w.verifier).value;
    && c.size <= integrated && c.hash == Root(w.cfg.h, leaves[..c.size])
  }

  // ----- events

  ghost predicate Enabled(w: World, s: State, e: Event)
    requires s.integrated <= |s.leaves|
  {
    match e
    case Submit(id, req, order) => id !in s.used && IsOrderOf(order, VerifiersOf(req))
    case Sequence(id) => !s.readOnly && id in s.pending && s.pending[id].Waiting? && |s.leaves| + 1 < Decimal.TWO64
    case SequenceDuplicate(id, index) =>
      !s.readOnly && id in s.pending && s.pending[id].Waiting? && index < |s.leaves| && s.leaves[index] == s.pending[id].body
    case Abort(id, _) => id in s.pending
    case Integrate(n) => !s.readOnly && s.integrated < n <= |s.leaves|
    case Publish(envelope) => !s.readOnly && IsHonest(w, s.leaves, s.integrated, envelope)
    // The awaiter returns a published checkpoint whose size exceeds the index; tiles are those of the tree, or fail.
    case Respond(id, envelope, read) =>
      && id in s.pending && s.pending[id].Sequenced? && envelope in s.published
      && ParseCheckpoint(envelope, w.verifier).Ok? && s.pending[id].index < ParseCheckpoint(envelope, w.verifier).value.size
      && Below(read, TilesOf(w.cfg.h, s.leaves[..s.integrated]))
    case Restart(_) => true
    case RunFreeze(a) => s.published != [] && Freeze.IsClockText(a.clock)
  }

  ghost function Reply(s: State, id: nat, r: Handled): State {
    s.(pending := s.pending - {id}, used := s.used + {id},
       answers := s.answers + [Answered(id, r.answer, r.submitted)], counters := r.counters)
  }

  ghost function SubmitStep(w: World, s: State, id: nat, req: Request, order: seq<RequestVerifier>): State {
    if s.readOnly then Reply(s, id, Handled(LogFrozen, s.counters, None))
    else
      match Admit(w.cfg, req, order)
      case None => Reply(s, id, Handled(InvalidArgument, s.counters, None))
      case Some(c) => s.(pending := s.pending[id := Waiting(c.kind, c.body)], used := s.used + {id})
  }

  ghost function RespondStep(w: World, s: State, id: nat, envelope: bytes, read: ReadTile): State
    requires id in s.pending && s.pending[id].Sequenced? && s.pending[id].index < Decimal.TWO64
  {
    var p := s.pending[id];
    var added := Add(w.cfg.h, read, p.body, Awaited(p.index, p.isDup, envelope));
    Reply(s, id, Handled(Finish(w.cfg, p.kind, added), Count(s.counters, p.kind, added), Some(p.body)))
  }

  ghost function FreezeStep(w: World, s: State, a: Freeze.Attempt): State
    requires s.published != [] && w.signer.hash < 0x1_0000_0000
  {
    var r := Freeze.RunSpec(Last(s.published), w.signer, w.verifier, a.clock, a.writable);
    if r.outcome.Frozen? then s.(published := s.published + [r.content]) else s
  }

  ghost function Apply(w: World, s: State, e: Event): State
    requires Inv(w, s) && Enabled(w, s, e)
  {
    match e
    case Submit(id, req, order) => SubmitStep(w, s, id, req, order)
    case Sequence(id) =>
      var p := s.pending[id];
      s.(leaves := s.leaves + [p.body], owner := s.owner + [id],
         pending := s.pending[id := Sequenced(p.kind, p.body, |s.leaves|, false)])
    case SequenceDuplicate(id, index) =>
      var p := s.pending[id];
      s.(pending := s.pending[id := Sequenced(p.kind, p.body, index, true)])
    case Abort(id, e) =>
      Reply(s, id, Handled(Finish(w.cfg, s.pending[id].kind, Err(NotAwaited(e))), s.counters, Some(s.pending[id].body)))
    case Integrate(n) => s.(integrated := n)
    case Publish(envelope) => s.(published := s.published + [envelope])
    case Respond(id, envelope, read) =>
      PendingIndexFits(w, s, id);
      RespondStep(w, s, id, envelope, read)
    case Restart(ro) =>
      s.(readOnly := ro, pending := map[], before := Sum(s.before, s.counters), counters := Counters(0, 0, 0))
    case RunFreeze(a) => FreezeStep(w, s, a)
  }

  // ----- the invariant

  function Sum(a: Counters, b: Counters): Counters {
    Counters(a.hashedRekord + b.hashedRekord, a.dsse + b.dsse, a.proofFailures + b.proofFailures)
  }

  predicate IsCreated(a: Answer, kind: Kind) { a.Created? && a.kind == kind }

  /** How many answers carry an entry of a kind. */
  function CountCreated(answers: seq<Answered>, kind: Kind): nat {
    if answers == [] then 0 else CountCreated(Init(answers), kind) + if IsCreated(Last(answers).answer, kind) then 1 else 0
  }

  ghost predicate IsAttestedLeaf(w: World, body: bytes) {
    IsAttested(w.cfg, HashedRekordKind, body) || IsAttested(w.cfg, DsseKind, body)
  }

  ghost predicate PendingOk(w: World, s: State, id: nat, p: Pending)
    requires |s.owner| == |s.leaves|
  {
    && id in s.used && IsAttested(w.cfg, p.kind, p.body)
    && (p.Sequenced? ==> p.index < |s.leaves| && s.leaves[p.index] == p.body && (!p.isDup ==> s.owner[p.index] == id))
    && (p.Waiting? || p.isDup ==> id !in s.owner)
  }

  /** An answer with an entry: every client accepts it, and its body is the leaf at its index. */
  ghost predicate CreatedOk(w: World, leaves: seq<bytes>, owner: seq<nat>, id: nat, entry: LogEntry)
    requires |owner| == |leaves|
  {
    && VerifyLogEntry(w.cfg.h, entry, w.verifier).Ok?
    && 0 <= entry.logIndex < |leaves| && leaves[entry.logIndex] == entry.body && owner[entry.logIndex] == id
  }

  ghost predicate AnswerOk(w: World, s: State, a: Answered)
    requires |s.owner| == |s.leaves|
  {
    a.id in s.used && a.id !in s.pending && ResponseOk(w, s.leaves, s.owner, a)
  }

  /**
   Answers with an entry carry the submitted body, its kind and the log ID; answers about a
   duplicate point at a leaf with the submitted body; these and refused requests own no leaf.
   */
  ghost predicate ResponseOk(w: World, leaves: seq<bytes>, owner: seq<nat>, a: Answered)
    requires |owner| == |leaves|
  {
    && (a.answer.Created? ==>
          && CreatedOk(w, leaves, owner, a.id, a.answer.entry) && IsAttested(w.cfg, a.answer.kind, a.answer.entry.body)
          && a.answer.logId == w.cfg.logId && a.submitted == Some(a.answer.entry.body))
    && (a.answer.AlreadyExists? ==>
          a.answer.index < |leaves| && a.submitted == Some(leaves[a.answer.index]) && a.id !in owner)
    && (a.submitted.None? ==> a.id !in owner)
  }

  ghost predicate SameId(a: Answered, b: Answered) { a.id == b.id }

  ghost predicate Inv(w: World, s: State) {
    && WellFormed(w)
    && s.integrated <= |s.leaves| == |s.owner| < Decimal.TWO64
    && (forall i :: 0 <= i < |s.published| ==> IsHonest(w, s.leaves, s.integrated, s.published[i]))
    && (forall i :: 0 <= i < |s.leaves| ==> IsAttestedLeaf(w, s.leaves[i]))
    && (forall i :: 0 <= i < |s.owner| ==> s.owner[i] in s.used) && NoDuplicates(s.owner)
    && (forall id :: id in s.pending ==> PendingOk(w, s, id, s.pending[id]))
    && (forall i :: 0 <= i < |s.answers| ==> AnswerOk(w, s, s.answers[i]))
    && (forall i, j :: 0 <= i < j < |s.answers| ==> !SameId(s.answers[i], s.answers[j]))
    && s.before.hashedRekord + s.counters.hashedRekord == CountCreated(s.answers, HashedRekordKind)
    && s.before.dsse + s.counters.dsse == CountCreated(s.answers, DsseKind)
    && s.before.proofFailures + s.counters.proofFailures == 0
  }

  lemma PendingIndexFits(w: World, s: State, id: nat)
    requires Inv(w, s) && id in s.pending && s.pending[id].Sequenced?
    ensures s.pending[id].index < Decimal.TWO64
  {
    assert PendingOk(w, s, id, s.pending[id]);
  }

  // ----- every event keeps it

  lemma CountSnoc(answers: seq<Answered>, a: Answered, kind: Kind)
    ensures CountCreated(answers + [a], kind) == CountCreated(answers, kind) + if IsCreated(a.answer, kind) then 1 else 0
  {
    InitLast(answers, a);
  }

  lemma ReplyKeepsInv(w: World, s: State, id: nat, r: Handled)
    requires Inv(w, s) && (id !in s.used || id in s.pending)
    requires ResponseOk(w, s.leaves, s.owner, Answered(id, r.answer, r.submitted))
    requires r.counters == s.counters.(hashedRekord := s.counters.hashedRekord + if IsCreated(r.answer, HashedRekordKind) then 1 else 0,
                                       dsse := s.counters.dsse + if IsCreated(r.answer, DsseKind) then 1 else 0)
    ensures Inv(w, Reply(s, id, r))
  {
    hide WellFormed, IsHonest, IsAttestedLeaf, IsAttested, ResponseOk, CountCreated, IsCreated, NoDuplicates;
    var s' := Reply(s, id, r);
    CountSnoc(s.answers, Answered(id, r.answer, r.submitted), HashedRekordKind);
    CountSnoc(s.answers, Answered(id, r.answer, r.submitted), DsseKind);
    forall i | 0 <= i < |s.answers| ensures s.answers[i].id != id {
      assert AnswerOk(w, s, s.answers[i]);
      if id in s.pending {
        assert PendingOk(w, s, id, s.pending[id]);
      }
    }
    forall i | 0 <= i < |s'.answers| ensures AnswerOk(w, s', s'.answers[i]) {
      if i < |s.answers| {
        assert AnswerOk(w, s, s.answers[i]);
      }
    }
    forall i, j | 0 <= i < j < |s'.answers| ensures !SameId(s'.answers[i], s'.answers[j]) {
      if j < |s.answers| {
        assert !SameId(s.answers[i], s.answers[j]);
      }
    }
    forall k | k in s'.pending ensures PendingOk(w, s', k, s'.pending[k]) {
      assert PendingOk(w, s, k, s.pending[k]);
    }
  }

  lemma AttestedLeaf(w: World, kind: Kind, body: bytes)
    requires IsAttested(w.cfg, kind, body)
    ensures IsAttestedLeaf(w, body)
  {
    hide IsAttested;
    assert kind.HashedRekordKind? || kind.DsseKind?;
  }

  lemma SubmitKeepsInv(w: World, s: State, id: nat, req: Request, order: seq<RequestVerifier>)
    requires Inv(w, s) && id !in s.used && IsOrderOf(order, VerifiersOf(req))
    ensures Inv(w, SubmitStep(w, s, id, req, order))
  {
    hide IsHonest, CreatedOk, CountCreated, IsAttested, IsAttestedLeaf, Admit, SignedNote.KeyPair, EnvelopeContract, IsOrderOf;
    if s.readOnly {
      ReplyKeepsInv(w, s, id, Handled(LogFrozen, s.counters, None));
    } else if Admit(w.cfg, req, order).None? {
      ReplyKeepsInv(w, s, id, Handled(InvalidArgument, s.counters, None));
    } else {
      AdmittedIsAttested(w.cfg, req, order);
      var s' := SubmitStep(w, s, id, req, order);
      forall k | k in s'.pending ensures PendingOk(w, s', k, s'.pending[k]) {
        if k != id {
          assert PendingOk(w, s, k, s.pending[k]);
        }
      }
      forall i | 0 <= i < |s'.answers| ensures AnswerOk(w, s', s'.answers[i]) {
        assert AnswerOk(w, s, s.answers[i]);
      }
    }
  }

  lemma HonestGrows(w: World, leaves: seq<bytes>, integrated: nat, envelope: bytes, leaves': seq<bytes>, integrated': nat)
    requires integrated <= |leaves| && integrated <= integrated' <= |leaves'| && leaves <= leaves'
    requires IsHonest(w, leaves, integrated, envelope)
    ensures IsHonest(w, leaves', integrated', envelope)
  {
    hide ParseCheckpoint, Root;
    var c := ParseCheckpoint(envelope, w.verifier).value;
    assert leaves'[..c.size] == leaves[..c.size];
  }

  lemma SequenceKeepsInv(w: World, s: State, id: nat)
    requires Inv(w, s) && Enabled(w, s, Sequence(id))
    ensures Inv(w, Apply(w, s, Sequence(id)))
  {
    hide WellFormed, IsHonest, IsAttestedLeaf, IsAttested, VerifyLogEntry, CountCreated;
    var s' := Apply(w, s, Sequence(id));
    assert PendingOk(w, s, id, s.pending[id]);
    AttestedLeaf(w, s.pending[id].kind, s.pending[id].body);
    forall i | 0 <= i < |s'.published| ensures IsHonest(w, s'.leaves, s'.integrated, s'.published[i]) {
      HonestGrows(w, s.leaves, s.integrated, s.published[i], s'.leaves, s'.integrated);
    }
    forall i | 0 <= i < |s'.leaves| ensures IsAttestedLeaf(w, s'.leaves[i]) {
      if i < |s.leaves| {
        assert IsAttestedLeaf(w, s.leaves[i]);
      }
    }
    forall k | k in s'.pending ensures PendingOk(w, s', k, s'.pending[k]) {
      assert PendingOk(w, s, k, s.pending[k]);
    }
    forall i | 0 <= i < |s'.answers| ensures AnswerOk(w, s', s'.answers[i]) {
      assert AnswerOk(w, s, s.answers[i]);
    }
  }

  lemma SequenceDuplicateKeepsInv(w: World, s: State, id: nat, index: nat)
    requires Inv(w, s) && Enabled(w, s, SequenceDuplicate(id, index))
    ensures Inv(w, Apply(w, s, SequenceDuplicate(id, index)))
  {
    hide WellFormed, IsHonest, IsAttestedLeaf, IsAttested, ResponseOk, CountCreated;
    var s' := Apply(w, s, SequenceDuplicate(id, index));
    forall k | k in s'.pending ensures PendingOk(w, s', k, s'.pending[k]) {
      assert PendingOk(w, s, k, s.pending[k]);
    }
    forall i | 0 <= i < |s'.answers| ensures AnswerOk(w, s', s'.answers[i]) {
      assert AnswerOk(w, s, s.answers[i]);
    }
  }

  lemma PublicationKeepsInv(w: World, s: State, s': State)
    requires Inv(w, s) && s.integrated <= s'.integrated <= |s.leaves|
    requires s' == s.(integrated := s'.integrated, published := s'.published)
    requires s'.published == s.published || exists e :: s'.published == s.published + [e] && IsHonest(w, s.leaves, s'.integrated, e)
    ensures Inv(w, s')
  {
    hide WellFormed, IsHonest, IsAttestedLeaf, IsAttested, ResponseOk, CountCreated;
    forall i | 0 <= i < |s.published| ensures IsHonest(w, s.leaves, s'.integrated, s.published[i]) {
      HonestGrows(w, s.leaves, s.integrated, s.published[i], s.leaves, s'.integrated);
    }
    forall k | k in s'.pending ensures PendingOk(w, s', k, s'.pending[k]) {
      assert PendingOk(w, s, k, s.pending[k]);
    }
    forall i | 0 <= i < |s'.answers| ensures AnswerOk(w, s', s'.answers[i]) {
      assert AnswerOk(w, s, s.answers[i]);
    }
  }

  /** The answer to a sequenced request: an accepted entry whose body is its leaf, or an error that is not a rejected proof. */
  lemma RespondResult(w: World, s: State, id: nat, envelope: bytes, read: ReadTile)
    requires Inv(w, s) && Enabled(w, s, Respond(id, envelope, read)) && s.pending[id].index < Decimal.TWO64
    ensures var p := s.pending[id];
            var added := Add(w.cfg.h, read, p.body, Awaited(p.index, p.isDup, envelope));
            && (added.Ok? ==> CreatedOk(w, s.leaves, s.owner, id, added.value) && added.value.body == p.body)
            && (added.Err? ==> !(added.error.NotBuilt? && added.error.b.ProofRejected?))
            && ResponseOk(w, s.leaves, s.owner, Answered(id, Finish(w.cfg, p.kind, added), Some(p.body)))
  {
    hide WellFormed, IsAttestedLeaf, IsAttested, CountCreated, VerifyLogEntry, SignedNote.Open, Unmarshal, Root, BuildProof, LeafHash, Below, TilesOf;
    var p := s.pending[id];
    assert PendingOk(w, s, id, p);
    var await := Awaited(p.index, p.isDup, envelope);
    var added := Add(w.cfg.h, read, p.body, await);
    if added.Ok? {
      AddedEntryVerifies(w.cfg.h, read, p.body, await, w.verifier);
      AddedEntryNumbers(w.cfg.h, read, p.body, await);
    } else if added.error.NotBuilt? {
      var D := s.leaves[..s.integrated];
      var i :| 0 <= i < |s.published| && s.published[i] == envelope;
      assert IsHonest(w, s.leaves, s.integrated, s.published[i]);
      TwoReadingsAgree(envelope, w.verifier);
      var c := ParseCheckpoint(envelope, w.verifier).value;
      assert D[..c.size] == s.leaves[..c.size] && D[p.index] == p.body;
      ProofNeverRejected(w.cfg.h, read, D, NewSafeInt64(FromUint64(p.index)).value, envelope);
    }
  }

  lemma RespondKeepsInv(w: World, s: State, id: nat, envelope: bytes, read: ReadTile)
    requires Inv(w, s) && Enabled(w, s, Respond(id, envelope, read))
    ensures Inv(w, Apply(w, s, Respond(id, envelope, read)))
  {
    hide WellFormed, IsHonest, PendingOk, AnswerOk, IsAttestedLeaf, CountCreated, ResponseOk, CreatedOk, Add, Below, TilesOf, ParseCheckpoint;
    PendingIndexFits(w, s, id);
    var p := s.pending[id];
    var added := Add(w.cfg.h, read, p.body, Awaited(p.index, p.isDup, envelope));
    RespondResult(w, s, id, envelope, read);
    ReplyKeepsInv(w, s, id, Handled(Finish(w.cfg, p.kind, added), Count(s.counters, p.kind, added), Some(p.body)));
  }

  lemma RestartKeepsInv(w: World, s: State, ro: bool)
    requires Inv(w, s)
    ensures Inv(w, Apply(w, s, Restart(ro)))
  {
    hide WellFormed, IsHonest, IsAttestedLeaf, IsAttested, ResponseOk, CountCreated;
    var s' := Apply(w, s, Restart(ro));
    forall i | 0 <= i < |s'.answers| ensures AnswerOk(w, s', s'.answers[i]) {
      assert AnswerOk(w, s, s.answers[i]);
    }
  }

  /** What the freeze tool writes is again an honest checkpoint, of the same size and root. */
  lemma FrozenIsHonest(w: World, leaves: seq<bytes>, integrated: nat, envelope: bytes, a: Freeze.Attempt)
    requires integrated <= |leaves| && SignedNote.KeyPair(w.signer, w.verifier) && Freeze.IsClockText(a.clock)
    requires IsHonest(w, leaves, integrated, envelope)
    ensures var r := Freeze.RunSpec(envelope, w.signer, w.verifier, a.clock, a.writable);
            && IsHonest(w, leaves, integrated, r.content)
            && ParseCheckpoint(r.content, w.verifier) == ParseCheckpoint(envelope, w.verifier)
  {
    hide SignedNote.KeyPair, Freeze.IsClockText, SignedNote.Open, Unmarshal, Root, Freeze.RunSpec, Freeze.Contains;
    Freeze.RunKeepsTree(envelope, w.signer, w.verifier, a);
  }

  lemma FreezeKeepsInv(w: World, s: State, a: Freeze.Attempt)
    requires Inv(w, s) && Enabled(w, s, RunFreeze(a))
    ensures Inv(w, Apply(w, s, RunFreeze(a)))
  {
    hide EnvelopeContract, IsHonest, PendingOk, AnswerOk, IsAttestedLeaf, CountCreated, CreatedOk, Freeze.RunSpec;
    assert IsHonest(w, s.leaves, s.integrated, s.published[|s.published| - 1]);
    FrozenIsHonest(w, s.leaves, s.integrated, Last(s.published), a);
    PublicationKeepsInv(w, s, Apply(w, s, RunFreeze(a)));
  }

  lemma StepKeepsInv(w: World, s: State, e: Event)
    requires Inv(w, s) && Enabled(w, s, e)
    ensures Inv(w, Apply(w, s, e))
  {
    hide WellFormed, IsHonest, PendingOk, AnswerOk, CountCreated, IsOrderOf, ParseCheckpoint, Below, TilesOf, Add, Admit;
    match e
    case Submit(id, req, order) => SubmitKeepsInv(w, s, id, req, order);
    case Sequence(id) => SequenceKeepsInv(w, s, id);
    case SequenceDuplicate(id, index) => SequenceDuplicateKeepsInv(w, s, id, index);
    case Abort(id, err) =>
      ReplyKeepsInv(w, s, id, Handled(Finish(w.cfg, s.pending[id].kind, Err(NotAwaited(err))), s.counters, Some(s.pending[id].body)));
    case Integrate(n) => PublicationKeepsInv(w, s, Apply(w, s, e));
    case Publish(envelope) =>
      assert Apply(w, s, e).published == s.published + [envelope];
      PublicationKeepsInv(w, s, Apply(w, s, e));
    case Respond(id, envelope, read) => RespondKeepsInv(w, s, id, envelope, read);
    case Restart(ro) => RestartKeepsInv(w, s, ro);
    case RunFreeze(a) => FreezeKeepsInv(w, s, a);
  }

  /**
   The events of one request are the handler of module Service, cut where it waits: a refused
   request is answered at once, an admitted one when its checkpoint is there.
   */
  lemma EventsAreTheHandler(w: World, s: State, id: nat, req: Request, order: seq<RequestVerifier>,
                            index: uint64, isDup: bool, envelope: bytes, read: ReadTile)
    ensures var r := Handle(w.cfg, s.readOnly, s.counters, req, order, _ => Awaited(index, isDup, envelope), read);
            match r.submitted
            case None => SubmitStep(w, s, id, req, order) == Reply(s, id, r)
            case Some(body) =>
              && SubmitStep(w, s, id, req, order).pending == s.pending[id := Waiting(Admit(w.cfg, req, order).value.kind, body)]
              && var t := s.(pending := s.pending[id := Sequenced(Admit(w.cfg, req, order).value.kind, body, index, isDup)]);
                 RespondStep(w, t, id, envelope, read) == Reply(t, id, r)
  {
    hide Add, Admit;
  }

  // ----- runs

  /** The state after a sequence of events, if each of them is enabled when it happens. */
  ghost function Exec(w: World, start: State, events: seq<Event>): (r: Option<State>)
    requires Inv(w, start)
    ensures r.Some? ==> Inv(w, r.value)
    decreases |events|
  {
    if events == [] then Some(start)
    else
      match Exec(w, start, Init(events))
      case None => None
      case Some(s) =>
        if Enabled(w, s, Last(events)) then
          StepKeepsInv(w, s, Last(events));
          Some(Apply(w, s, Last(events)))
        else None
  }

  lemma InitialInv(w: World)
    requires WellFormed(w)
    ensures Inv(w, INITIAL)
  {
    hide Inv;
    EmptyInv(w, INITIAL);
  }

  lemma EmptyInv(w: World, s: State)
    requires WellFormed(w) && s.leaves == [] && s.owner == [] && s.integrated == 0 && s.published == []
    requires s.pending == map[] && s.answers == [] && s.before == s.counters && s.counters == Counters(0, 0, 0)
    ensures Inv(w, s)
  {
    hide WellFormed, IsHonest, IsAttestedLeaf, PendingOk, AnswerOk, CountCreated;
    CountNone(s.answers, HashedRekordKind);
    CountNone(s.answers, DsseKind);
  }

  lemma CountNone(answers: seq<Answered>, kind: Kind)
    requires answers == []
    ensures CountCreated(answers, kind) == 0
  {
  }

  /** The state after a run from the start of the log. */
  ghost function RunFrom(w: World, events: seq<Event>): (r: Option<State>)
    requires WellFormed(w)
    ensures r.Some? ==> Inv(w, r.value)
  {
    InitialInv(w);
    Exec(w, INITIAL, events)
  }

  /**
   Server and client agree, in every run: each answer with an entry is accepted by VerifyLogEntry
   for the key of the log, its body is the leaf at its index, its kind is that of the body, and its
   index is no other answer's.
   */
  lemma AnswersVerify(w: World, events: seq<Event>, i: nat)
    requires WellFormed(w) && RunFrom(w, events).Some?
    requires i < |RunFrom(w, events).value.answers| && RunFrom(w, events).value.answers[i].answer.Created?
    ensures var s := RunFrom(w, events).value;
            var entry := s.answers[i].answer.entry;
            && VerifyLogEntry(w.cfg.h, entry, w.verifier).Ok?
            && 0 <= entry.logIndex < |s.leaves| && s.leaves[entry.logIndex] == entry.body
            && IsAttested(w.cfg, s.answers[i].answer.kind, entry.body) && s.answers[i].answer.logId == w.cfg.logId
            && forall j :: 0 <= j < |s.answers| && j != i && s.answers[j].answer.Created? ==>
                 s.answers[j].answer.entry.logIndex != entry.logIndex
  {
    hide RunFrom, WellFormed, IsHonest, IsAttestedLeaf, IsAttested, CountCreated, VerifyLogEntry, PendingOk;
    var s := RunFrom(w, events).value;
    assert AnswerOk(w, s, s.answers[i]);
    forall j | 0 <= j < |s.answers| && j != i && s.answers[j].answer.Created?
      ensures s.answers[j].answer.entry.logIndex != s.answers[i].answer.entry.logIndex
    {
      assert AnswerOk(w, s, s.answers[j]);
      assert if i < j then !SameId(s.answers[i], s.answers[j]) else !SameId(s.answers[j], s.answers[i]);
    }
  }

  /**
   Duplicates, in every run: the index that an answer points at holds the body that the request
   submitted, and the leaf there belongs to another request.
   */
  lemma DuplicatesPointAtTheirBody(w: World, events: seq<Event>, i: nat)
    requires WellFormed(w) && RunFrom(w, events).Some?
    requires i < |RunFrom(w, events).value.answers| && RunFrom(w, events).value.answers[i].answer.AlreadyExists?
    ensures var s := RunFrom(w, events).value;
            var a := s.answers[i];
            && a.answer.index < |s.leaves| == |s.owner| && a.submitted == Some(s.leaves[a.answer.index])
            && a.id !in s.owner && s.owner[a.answer.index] != a.id
  {
    hide RunFrom, WellFormed, IsHonest, IsAttestedLeaf, IsAttested, CountCreated, CreatedOk, PendingOk;
    var s := RunFrom(w, events).value;
    assert AnswerOk(w, s, s.answers[i]);
  }

  /**
   One leaf per request at most, in every run: no request owns two leaves, an answer with an entry
   carries the body that was submitted, at the leaf of its own request, and a refused request owns none.
   */
  lemma OneLeafPerRequest(w: World, events: seq<Event>)
    requires WellFormed(w) && RunFrom(w, events).Some?
    ensures var s := RunFrom(w, events).value;
            && |s.owner| == |s.leaves| && NoDuplicates(s.owner)
            && forall i :: 0 <= i < |s.answers| ==>
                 && (s.answers[i].submitted.None? ==> s.answers[i].id !in s.owner)
                 && (s.answers[i].answer.Created? ==>
                       var e := s.answers[i].answer.entry;
                       && s.answers[i].submitted == Some(e.body)
                       && 0 <= e.logIndex < |s.owner| && s.owner[e.logIndex] == s.answers[i].id)
  {
    hide RunFrom, WellFormed, IsHonest, IsAttestedLeaf, IsAttested, CountCreated, PendingOk, NoDuplicates, VerifyLogEntry;
    var s := RunFrom(w, events).value;
    assert forall i :: 0 <= i < |s.answers| ==> AnswerOk(w, s, s.answers[i]);
  }

  /**
   Conservation: the counter of each kind, over all processes of the run, is the number of answers
   with an entry of that kind, and the counter of rejected proofs is zero.
   */
  lemma AnswersAreCounted(w: World, events: seq<Event>)
    requires WellFormed(w) && RunFrom(w, events).Some?
    ensures var s := RunFrom(w, events).value;
            && s.before.hashedRekord + s.counters.hashedRekord == CountCreated(s.answers, HashedRekordKind)
            && s.before.dsse + s.counters.dsse == CountCreated(s.answers, DsseKind)
            && s.before.proofFailures + s.counters.proofFailures == 0
  {
    hide RunFrom, WellFormed, IsHonest, IsAttestedLeaf, CountCreated, PendingOk, AnswerOk;
    assert Inv(w, RunFrom(w, events).value);
  }

  /** Every leaf of the log is the encoding of an entry whose signatures verify under permitted keys. */
  lemma LeavesAreAttested(w: World, events: seq<Event>, i: nat)
    requires WellFormed(w) && RunFrom(w, events).Some? && i < |RunFrom(w, events).value.leaves|
    ensures IsAttestedLeaf(w, RunFrom(w, events).value.leaves[i])
  {
    hide RunFrom, WellFormed, IsHonest, IsAttestedLeaf, CountCreated, PendingOk, AnswerOk;
    assert Inv(w, RunFrom(w, events).value);
  }

  lemma HonestAt(w: World, s: State, i: nat)
    requires Inv(w, s) && i < |s.published|
    ensures IsHonest(w, s.leaves, s.integrated, s.published[i])
  {
    hide WellFormed, IsHonest, IsAttestedLeaf, CountCreated, PendingOk, AnswerOk;
  }

  /** Any two checkpoints of a run are consistent: a monitor accepts the RFC 6962 proof from the smaller to the larger. */
  lemma PublishedAreConsistent(w: World, events: seq<Event>, i: nat, j: nat)
    requires WellFormed(w) && RunFrom(w, events).Some?
    requires i < |RunFrom(w, events).value.published| && j < |RunFrom(w, events).value.published|
    ensures var s := RunFrom(w, events).value;
            && ParseCheckpoint(s.published[i], w.verifier).Ok? && ParseCheckpoint(s.published[j], w.verifier).Ok?
            && var m, n := ParseCheckpoint(s.published[i], w.verifier).value.size, ParseCheckpoint(s.published[j], w.verifier).value.size;
            && n <= |s.leaves|
            && (0 < m <= n ==>
                  VerifyConsistencyProofWithCheckpoints(w.cfg.h, ConsistencyProof(w.cfg.h, m, s.leaves[..n]),
                                                        s.published[i], s.published[j], w.verifier).Ok?)
  {
    hide RunFrom, WellFormed, ParseCheckpoint, Root, ConsistencyProof, Consistent, Inv;
    var s := RunFrom(w, events).value;
    InvBound(w, s);
    HonestAt(w, s, i);
    HonestAt(w, s, j);
    var m, n := ParseCheckpoint(s.published[i], w.verifier).value.size, ParseCheckpoint(s.published[j], w.verifier).value.size;
    if 0 < m <= n {
      ConsistencyComplete(w.cfg.h, m, s.leaves[..n]);
      TakeTake(s.leaves, m, n);
    }
  }

  // ----- a frozen log

  ghost predicate StaysReadOnly(events: seq<Event>) {
    forall i :: 0 <= i < |events| ==> events[i].Restart? ==> events[i].readOnly
  }

  /** The stored checkpoint of a state reads as the given one. */
  ghost predicate StoredIs(w: World, s: State, c: Result<Checkpoint, CheckpointError>) {
    s.published != [] && ParseCheckpoint(Last(s.published), w.verifier) == c
  }

  lemma FrozenStep(w: World, s: State, e: Event, c: Result<Checkpoint, CheckpointError>)
    requires Inv(w, s) && Enabled(w, s, e) && s.readOnly && StoredIs(w, s, c) && (e.Restart? ==> e.readOnly)
    ensures var s' := Apply(w, s, e);
            && s'.readOnly && s'.leaves == s.leaves && s'.integrated == s.integrated && StoredIs(w, s', c)
            && (e.Submit? ==> s'.answers == s.answers + [Answered(e.id, LogFrozen, None)] && s'.counters == s.counters)
  {
    hide IsHonest, PendingOk, AnswerOk, CountCreated, IsOrderOf, ParseCheckpoint, Below, TilesOf, Add, Admit, IsAttestedLeaf, Freeze.RunSpec, EnvelopeContract, Freeze.IsClockText;
    if e.RunFreeze? {
      HonestAt(w, s, |s.published| - 1);
      FrozenIsHonest(w, s.leaves, s.integrated, Last(s.published), e.attempt);
      var r := Freeze.RunSpec(Last(s.published), w.signer, w.verifier, e.attempt.clock, e.attempt.writable);
      InitLast(s.published, r.content);
    }
  }

  /**
   A frozen log stays frozen: as long as the server restarts in read-only mode only, no request and
   no run of the freeze tool changes the leaves, the tree, or the stored size and root hash.
   */
  lemma {:induction false} FrozenStaysFrozen(w: World, start: State, events: seq<Event>, c: Result<Checkpoint, CheckpointError>)
    requires Inv(w, start) && start.readOnly && StoredIs(w, start, c) && StaysReadOnly(events)
    requires Exec(w, start, events).Some?
    ensures var s := Exec(w, start, events).value;
            s.readOnly && s.leaves == start.leaves && s.integrated == start.integrated && StoredIs(w, s, c)
    decreases |events|
  {
    hide Inv, Apply, StoredIs, Enabled;
    if events != [] {
      FrozenStaysFrozen(w, start, Init(events), c);
      InvBound(w, Exec(w, start, Init(events)).value);
      FrozenStep(w, Exec(w, start, Init(events)).value, Last(events), c);
    }
  }

  lemma InvBound(w: World, s: State)
    requires Inv(w, s)
    ensures s.integrated <= |s.leaves|
  {
    hide WellFormed, IsHonest, IsAttestedLeaf, CountCreated, PendingOk, AnswerOk;
  }

  // ----- the machine is not stuck

  /** A log key whose name holds no control character can always publish the integrated tree. */
  lemma CanPublish(w: World, s: State)
    requires Inv(w, s) && !s.readOnly
    requires Utf8.AllRunes(w.signer.name, SignedNote.TextRune) && SignedNote.IsValidName(w.signer.name)
    requires forall m :: w.signer.sign(m).Some?
    ensures exists e ::
              Enabled(w, s, Publish(e))
              && ParseCheckpoint(e, w.verifier) == Ok(Checkpoint(w.verifier.name, s.integrated, Root(w.cfg.h, s.leaves[..s.integrated])))
  {
    hide IsHonest, IsAttestedLeaf, CountCreated, PendingOk, AnswerOk, Root, EnvelopeContract, Unmarshal, Marshal, SignedNote.Open, Utf8.AllRunes, SignedNote.IsValidName;
    var c := Checkpoint(w.signer.name, s.integrated, Root(w.cfg.h, s.leaves[..s.integrated]));
    var e := MarshalledOpens(w, c);
    HonestIntro(w, s, e, c);
  }

  lemma HonestIntro(w: World, s: State, e: bytes, c: Checkpoint)
    requires s.integrated <= |s.leaves|
    requires ParseCheckpoint(e, w.verifier) == Ok(c) && c.size == s.integrated && c.hash == Root(w.cfg.h, s.leaves[..s.integrated])
    ensures IsHonest(w, s.leaves, s.integrated, e)
  {
  }

  lemma MarshalledOpens(w: World, c: Checkpoint) returns (e: bytes)
    requires SignedNote.KeyPair(w.signer, w.verifier) && c.origin == w.signer.name && c.size < Decimal.TWO64
    requires Utf8.AllRunes(c.origin, SignedNote.TextRune) && SignedNote.IsValidName(c.origin)
    requires w.signer.sign(Marshal(c)).Some?
    ensures ParseCheckpoint(e, w.verifier) == Ok(c)
  {
    hide Unmarshal, SignedNote.Open, Utf8.AllRunes;
    SignedNote.ValidNameHasNo(c.origin, LF);
    Freeze.MarshalIsText(c);
    e := SignedNote.Sign(Marshal(c), w.signer).value;
    SignedNote.OpenSigned(Marshal(c), w.signer, w.verifier);
    UnmarshalMarshal(c, []);
    assert Marshal(c) + [] == Marshal(c);
  }

  /** The awaiter can return a published checkpoint to a request whose index it covers. */
  ghost predicate IsCovering(w: World, s: State, id: nat, envelope: bytes) {
    && id in s.pending && s.pending[id].Sequenced? && envelope in s.published
    && ParseCheckpoint(envelope, w.verifier).Ok? && s.pending[id].index < ParseCheckpoint(envelope, w.verifier).value.size
  }

  /** Then the request can be answered, with all tiles of the integrated tree or with fewer. */
  lemma CoveredIsEnabled(w: World, s: State, id: nat, envelope: bytes, read: ReadTile)
    requires s.integrated <= |s.leaves| && IsCovering(w, s, id, envelope)
    requires Below(read, TilesOf(w.cfg.h, s.leaves[..s.integrated]))
    ensures Enabled(w, s, Respond(id, envelope, read))
  {
    hide ParseCheckpoint, Below, TilesOf;
  }

  lemma TilesAreBelow(h: HashFn, D: seq<bytes>)
    ensures Below(TilesOf(h, D), TilesOf(h, D))
  {
  }

  /** When all tiles can be read and the size fits an int64, a sequenced entry that is no duplicate is answered with its proof. */
  lemma RespondSucceeds(w: World, s: State, id: nat, envelope: bytes)
    requires Inv(w, s) && IsCovering(w, s, id, envelope) && !s.pending[id].isDup
    requires ParseCheckpoint(envelope, w.verifier).value.size <= MAX_INT64
    ensures var e := Respond(id, envelope, TilesOf(w.cfg.h, s.leaves[..s.integrated]));
            && Enabled(w, s, e)
            && var p, c, s' := s.pending[id], ParseCheckpoint(envelope, w.verifier).value, Apply(w, s, e);
            && p.index < c.size <= |s.leaves|
            && s'.answers == s.answers + [Answered(id, Created(
                 LogEntry(p.index, Some(InclusionProof(p.index, c.hash, c.size, AuditPath(w.cfg.h, p.index, s.leaves[..c.size]), envelope)), p.body),
                 p.kind, w.cfg.logId), Some(p.body))]
  {
    hide IsAttestedLeaf, CountCreated, AnswerOk, Root, EnvelopeContract, Unmarshal, SignedNote.Open, BuildProof, TilesOf, Below, AuditPath, LeafHash, SignedNote.KeyPair, ServesTree;
    var p, D, h := s.pending[id], s.leaves[..s.integrated], w.cfg.h;
    TilesAreBelow(h, D);
    CoveredIsEnabled(w, s, id, envelope, TilesOf(h, D));
    assert PendingOk(w, s, id, p);
    var i :| 0 <= i < |s.published| && s.published[i] == envelope;
    HonestAt(w, s, i);
    TwoReadingsAgree(envelope, w.verifier);
    var c := ParseCheckpoint(envelope, w.verifier).value;
    TakeTake(s.leaves, c.size, s.integrated);
    assert D[p.index] == p.body;
    BuildProofComplete(h, TilesOf(h, D), D, NewSafeInt64(FromUint64(p.index)).value, envelope);
  }

  /** A duplicate is answered with its index, whatever tiles can be read, and changes neither log nor counters. */
  lemma DuplicateIsAnswered(w: World, s: State, id: nat, envelope: bytes, read: ReadTile)
    requires Inv(w, s) && IsCovering(w, s, id, envelope) && s.pending[id].isDup && s.pending[id].index <= MAX_INT64
    requires Below(read, TilesOf(w.cfg.h, s.leaves[..s.integrated]))
    ensures Enabled(w, s, Respond(id, envelope, read))
    ensures Apply(w, s, Respond(id, envelope, read)) ==
            s.(pending := s.pending - {id}, used := s.used + {id},
               answers := s.answers + [Answered(id, AlreadyExists(s.pending[id].index), Some(s.pending[id].body))])
  {
    hide WellFormed, IsHonest, IsAttestedLeaf, CountCreated, AnswerOk, PendingOk, ParseCheckpoint, Below, TilesOf, BuildProof;
    CoveredIsEnabled(w, s, id, envelope, read);
  }

  /** A request with a new identity is always taken, and does what the handler does with it. */
  lemma SubmitIsHandled(w: World, s: State, id: nat, req: Request, order: seq<RequestVerifier>)
    requires Inv(w, s) && id !in s.used && IsOrderOf(order, VerifiersOf(req))
    ensures Enabled(w, s, Submit(id, req, order))
    ensures var s' := Apply(w, s, Submit(id, req, order));
            && s'.used == s.used + {id} && s'.leaves == s.leaves && s'.counters == s.counters
            && if s.readOnly then s'.answers == s.answers + [Answered(id, LogFrozen, None)]
               else
                 match Admit(w.cfg, req, order)
                 case None => s'.answers == s.answers + [Answered(id, InvalidArgument, None)]
                 case Some(c) => s'.answers == s.answers && id in s'.pending && s'.pending[id] == Waiting(c.kind, c.body)
  {
    hide WellFormed, IsHonest, IsAttestedLeaf, CountCreated, AnswerOk, PendingOk, Admit, IsOrderOf;
  }

  /** A restart, possible at any time, loses the waiting requests and nothing that was answered, stored or counted. */
  lemma RestartLosesOnlyWaiting(w: World, s: State, readOnly: bool)
    requires Inv(w, s)
    ensures Enabled(w, s, Restart(readOnly))
    ensures var s' := Apply(w, s, Restart(readOnly));
            && s'.pending == map[] && s'.readOnly == readOnly && s'.counters == Counters(0, 0, 0)
            && s'.leaves == s.leaves && s'.integrated == s.integrated && s'.published == s.published
            && s'.answers == s.answers && s'.used == s.used
            && s'.before.hashedRekord == s.before.hashedRekord + s.counters.hashedRekord
            && s'.before.dsse == s.before.dsse + s.counters.dsse
  {
    hide WellFormed, IsHonest, IsAttestedLeaf, CountCreated, AnswerOk, PendingOk;
  }

  /** A wait that fails is answered by its cause, and changes neither log nor counters. */
  lemma AbortIsAnswered(w: World, s: State, id: nat, e: AwaitError)
    requires Inv(w, s) && id in s.pending
    ensures Enabled(w, s, Abort(id, e))
    ensures Apply(w, s, Abort(id, e)) ==
            s.(pending := s.pending - {id}, used := s.used + {id},
               answers := s.answers + [Answered(id, match e case Pushback => Unavailable case Canceled => RequestCanceled case OtherAwait => Failed,
                                                Some(s.pending[id].body))])
  {
    hide WellFormed, IsHonest, IsAttestedLeaf, CountCreated, AnswerOk, PendingOk;
  }

  lemma ExecSnoc(w: World, start: State, events: seq<Event>, e: Event)
    requires Inv(w, start) && Exec(w, start, events).Some? && Enabled(w, Exec(w, start, events).value, e)
    ensures Exec(w, start, events + [e]) == Some(Apply(w, Exec(w, start, events).value, e))
  {
    hide Inv, Enabled, Apply;
    InitLast(events, e);
  }

  lemma ExecNothing(w: World, start: State, events: seq<Event>)
    requires Inv(w, start) && events == []
    ensures Exec(w, start, events) == Some(start)
  {
    hide Inv, Enabled, Apply;
  }

  /**
   No request waits for nothing: a log that takes writes and whose key can sign can always go on to
   sequence a waiting request, integrate it, publish a checkpoint and answer with the entry, at the
   next free index, that clients accept.
   */
  lemma WaitingCanBeAnswered(w: World, s: State, id: nat) returns (events: seq<Event>)
    requires Inv(w, s) && !s.readOnly && id in s.pending && s.pending[id].Waiting? && |s.leaves| < MAX_INT64
    requires Utf8.AllRunes(w.signer.name, SignedNote.TextRune) && SignedNote.IsValidName(w.signer.name)
    requires forall m :: w.signer.sign(m).Some?
    ensures Exec(w, s, events).Some?
    ensures var t := Exec(w, s, events).value;
            && t.leaves == s.leaves + [s.pending[id].body] && t.answers != [] && Init(t.answers) == s.answers
            && var a := Last(t.answers);
            && a.id == id && a.answer.Created? && a.answer.kind == s.pending[id].kind
            && a.answer.entry.logIndex == |s.leaves| && a.answer.entry.body == s.pending[id].body
            && VerifyLogEntry(w.cfg.h, a.answer.entry, w.verifier).Ok?
  {
    hide Inv, Apply, Enabled, Exec, ParseCheckpoint, IsCovering, VerifyLogEntry, Root, Utf8.AllRunes, SignedNote.IsValidName;
    ExecNothing(w, s, []);
    SequenceWaiting(w, s, id);
    ExecSnoc(w, s, [], Sequence(id));
    var s1 := Apply(w, s, Sequence(id));
    IntegrateAll(w, s1);
    ExecSnoc(w, s, [] + [Sequence(id)], Integrate(|s1.leaves|));
    var s2 := Apply(w, s1, Integrate(|s1.leaves|));
    CanPublish(w, s2);
    var env :| Enabled(w, s2, Publish(env))
      && ParseCheckpoint(env, w.verifier) == Ok(Checkpoint(w.verifier.name, s2.integrated, Root(w.cfg.h, s2.leaves[..s2.integrated])));
    ExecSnoc(w, s, [] + [Sequence(id)] + [Integrate(|s1.leaves|)], Publish(env));
    var s3 := Apply(w, s2, Publish(env));
    Published(w, s2, env, id);
    RespondSucceeds(w, s3, id, env);
    var answer := Respond(id, env, TilesOf(w.cfg.h, s3.leaves[..s3.integrated]));
    events := [] + [Sequence(id)] + [Integrate(|s1.leaves|)] + [Publish(env)] + [answer];
    ExecSnoc(w, s, [] + [Sequence(id)] + [Integrate(|s1.leaves|)] + [Publish(env)], answer);
    RespondKeepsLeaves(w, s3, answer);
    var t := Apply(w, s3, answer);
    InitLast(s.answers, t.answers[|s.answers|]);
    AnsweredVerifies(w, t, |s.answers|);
  }

  /** Sequencing appends the body as the next leaf of its request, and changes nothing else. */
  lemma SequenceWaiting(w: World, s: State, id: nat)
    requires Inv(w, s) && !s.readOnly && id in s.pending && s.pending[id].Waiting? && |s.leaves| < MAX_INT64
    ensures Enabled(w, s, Sequence(id))
    ensures var s' := Apply(w, s, Sequence(id));
            && Inv(w, s') && s'.integrated < |s'.leaves|
            && s' == s.(leaves := s.leaves + [s.pending[id].body], owner := s.owner + [id],
                        pending := s.pending[id := Sequenced(s.pending[id].kind, s.pending[id].body, |s.leaves|, false)])
  {
    StepKeepsInv(w, s, Sequence(id));
    hide WellFormed, IsHonest, PendingOk, AnswerOk, IsAttestedLeaf, CountCreated;
  }

  /** A waiting request whose body is a leaf already can be sequenced as a duplicate and is then answered with the index. */
  lemma DuplicateCanBeAnswered(w: World, s: State, id: nat, index: nat, envelope: bytes, read: ReadTile)
    requires Inv(w, s) && !s.readOnly && id in s.pending && s.pending[id].Waiting?
    requires index < |s.leaves| && s.leaves[index] == s.pending[id].body && index <= MAX_INT64
    requires envelope in s.published && ParseCheckpoint(envelope, w.verifier).Ok? && index < ParseCheckpoint(envelope, w.verifier).value.size
    requires Below(read, TilesOf(w.cfg.h, s.leaves[..s.integrated]))
    ensures var events := [SequenceDuplicate(id, index), Respond(id, envelope, read)];
            Exec(w, s, events) == Some(s.(pending := s.pending - {id}, used := s.used + {id},
                                          answers := s.answers + [Answered(id, AlreadyExists(index), Some(s.pending[id].body))]))
  {
    hide Inv, Exec, ParseCheckpoint, Below, TilesOf, IsHonest;
    InvBound(w, s);
    var e, f := SequenceDuplicate(id, index), Respond(id, envelope, read);
    ExecNothing(w, s, []);
    ExecSnoc(w, s, [], e);
    StepKeepsInv(w, s, e);
    var t := Apply(w, s, e);
    DuplicateIsAnswered(w, t, id, envelope, read);
    ExecSnoc(w, s, [] + [e], f);
    assert [] + [e] + [f] == [e, f];
    assert t.pending - {id} == s.pending - {id};
  }

  /**
   The freeze tool can be run on the stored checkpoint at any time. If it can freeze it, it stores
   a frozen checkpoint of the same origin, size and hash; otherwise nothing changes.
   */
  lemma FreezeIsStored(w: World, s: State, a: Freeze.Attempt)
    requires Inv(w, s) && s.published != [] && Freeze.IsClockText(a.clock)
    ensures Enabled(w, s, RunFreeze(a)) && Freeze.IsStored(Last(s.published), w.verifier)
    ensures var s' := Apply(w, s, RunFreeze(a));
            if Freeze.CanFreeze(Last(s.published), w.signer, w.verifier, a) then
              && s' == s.(published := s'.published) && s'.published != [] && Init(s'.published) == s.published
              && Freeze.IsStored(Last(s'.published), w.verifier) && Freeze.IsFrozen(Last(s'.published), w.verifier)
              && Freeze.Stored(Last(s'.published), w.verifier) == Freeze.Stored(Last(s.published), w.verifier)
            else s' == s
  {
    hide *;
    var stored := Last(s.published);
    InvBound(w, s);
    LastIsStored(w, s);
    FreezeEvent(w, s, a);
    Freeze.RunStores(stored, w.signer, w.verifier, a);
    InitLast(s.published, Freeze.RunSpec(stored, w.signer, w.verifier, a.clock, a.writable).content);
  }

  lemma FreezeEvent(w: World, s: State, a: Freeze.Attempt)
    requires Inv(w, s) && s.published != [] && Freeze.IsClockText(a.clock)
    ensures SignedNote.KeyPair(w.signer, w.verifier) && w.signer.hash < 0x1_0000_0000
    ensures Enabled(w, s, RunFreeze(a))
    ensures var r := Freeze.RunSpec(Last(s.published), w.signer, w.verifier, a.clock, a.writable);
            Apply(w, s, RunFreeze(a)) == if r.outcome.Frozen? then s.(published := s.published + [r.content]) else s
  {
    hide IsHonest, PendingOk, AnswerOk, IsAttestedLeaf, CountCreated, EnvelopeContract, Freeze.RunSpec, Freeze.IsClockText;
  }

  lemma LastIsStored(w: World, s: State)
    requires Inv(w, s) && s.published != []
    ensures Freeze.IsStored(Last(s.published), w.verifier)
  {
    hide Inv, SignedNote.Open, Unmarshal, Root;
    InvBound(w, s);
    HonestAt(w, s, |s.published| - 1);
  }

  lemma IntegrateAll(w: World, s: State)
    requires Inv(w, s) && !s.readOnly && s.integrated < |s.leaves|
    ensures Enabled(w, s, Integrate(|s.leaves|)) && Apply(w, s, Integrate(|s.leaves|)) == s.(integrated := |s.leaves|)
    ensures Inv(w, s.(integrated := |s.leaves|))
  {
    StepKeepsInv(w, s, Integrate(|s.leaves|));
    hide WellFormed, IsHonest, PendingOk, AnswerOk, IsAttestedLeaf, CountCreated;
  }

  lemma Published(w: World, s: State, envelope: bytes, id: nat)
    requires Inv(w, s) && Enabled(w, s, Publish(envelope)) && id in s.pending && s.pending[id].Sequenced?
    requires ParseCheckpoint(envelope, w.verifier).Ok? && s.pending[id].index < ParseCheckpoint(envelope, w.verifier).value.size
    ensures var s' := Apply(w, s, Publish(envelope));
            Inv(w, s') && s' == s.(published := s.published + [envelope]) && IsCovering(w, s', id, envelope)
  {
    hide Inv, IsHonest, ParseCheckpoint;
    InvBound(w, s);
    StepKeepsInv(w, s, Publish(envelope));
  }

  lemma RespondKeepsLeaves(w: World, s: State, e: Event)
    requires Inv(w, s) && Enabled(w, s, e) && e.Respond?
    ensures Apply(w, s, e).leaves == s.leaves && Inv(w, Apply(w, s, e))
  {
    hide Inv, Add, ParseCheckpoint;
    InvBound(w, s);
    StepKeepsInv(w, s, e);
  }

  lemma AnsweredVerifies(w: World, s: State, i: nat)
    requires Inv(w, s) && i < |s.answers| && s.answers[i].answer.Created?
    ensures VerifyLogEntry(w.cfg.h, s.answers[i].answer.entry, w.verifier).Ok?
  {
    hide WellFormed, IsHonest, IsAttestedLeaf, IsAttested, CountCreated, VerifyLogEntry, PendingOk;
    assert AnswerOk(w, s, s.answers[i]);
  }
}
