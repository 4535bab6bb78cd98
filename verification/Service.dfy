/** The request handler: admission, storage, counters and answers. */
module Service {
  import opened Bytes
  import opened Hashing
  import opened Admission
  import opened SafeInt
  import opened Cover
  import opened Merkle
  import opened CheckpointText
  import opened Verify
  import opened Storage
  import opened Tiles
  import Dsse
  import DsseEntry
  import DsseProperties
  import HashedRekord
  import ByteOrder

  datatype Request = HashedRekordRequest(hr: HashedRekord.Request) | DsseRequest(ds: Dsse.Request) | OtherRequest

  datatype Kind = HashedRekordKind | DsseKind

  datatype LogBody = HashedRekordBody(he: HashedRekord.Entry) | DsseBody(de: Dsse.Entry)

  /** Marshalling and canonicalisation of an entry, together one encoding that may fail. */
  type Encoding = LogBody -> Option<bytes>

  datatype Settings = Settings(h: HashFn, lib: Libraries, encode: Encoding, logId: bytes)

  /** The response that clients see; Created carries the transparency log entry. */
  datatype Answer =
    | Created(entry: LogEntry, kind: Kind, logId: bytes)
    | LogFrozen
    | InvalidArgument
    | Unavailable
    | RequestCanceled
    | AlreadyExists(index: uint64)
    | Failed

  datatype Candidate = Candidate(kind: Kind, body: bytes)

  /** The counters of the handler. */
  datatype Counters = Counters(hashedRekord: nat, dsse: nat, proofFailures: nat)

  // ----- specification

  ghost function Admit(cfg: Settings, req: Request, order: seq<RequestVerifier>): Option<Candidate> {
    match req
    case HashedRekordRequest(hr) =>
      (match HashedRekord.ToLogEntry(cfg.lib, hr)
       case Err(_) => None
       case Ok(e) =>
         match cfg.encode(HashedRekordBody(e)) case None => None case Some(b) => Some(Candidate(HashedRekordKind, b)))
    case DsseRequest(ds) =>
      (match DsseEntry.Admitted(cfg.lib, ds, order)
       case None => None
       case Some(e) =>
         match cfg.encode(DsseBody(e)) case None => None case Some(b) => Some(Candidate(DsseKind, b)))
    case OtherRequest => None
  }

  /** The answer to an admitted request, from what the storage returned. */
  function Finish(cfg: Settings, kind: Kind, added: Result<LogEntry, AddError>): Answer {
    match added
    case Ok(entry) => Created(entry, kind, cfg.logId)
    case Err(NotAwaited(Pushback)) => Unavailable
    case Err(NotAwaited(Canceled)) => RequestCanceled
    case Err(Duplicate(index)) => AlreadyExists(index)
    case Err(_) => Failed
  }

  function Count(c: Counters, kind: Kind, added: Result<LogEntry, AddError>): Counters {
    match added
    case Ok(_) =>
      if kind.HashedRekordKind? then c.(hashedRekord := c.hashedRekord + 1) else c.(dsse := c.dsse + 1)
    case Err(NotBuilt(ProofRejected(_))) => c.(proofFailures := c.proofFailures + 1)
    case Err(_) => c
  }

  datatype Handled = Handled(answer: Answer, counters: Counters, submitted: Option<bytes>)

  /** One request in full: its answer, the counters after it, and what it submitted to the log. */
  ghost function Handle(cfg: Settings, readOnly: bool, c: Counters, req: Request, order: seq<RequestVerifier>,
                        await: bytes -> Await, read: ReadTile): Handled
  {
    if readOnly then Handled(LogFrozen, c, None)
    else
      match Admit(cfg, req, order)
      case None => Handled(InvalidArgument, c, None)
      case Some(candidate) =>
        var added := Add(cfg.h, read, candidate.body, await(candidate.body));
        Handled(Finish(cfg, candidate.kind, added), Count(c, candidate.kind, added), Some(candidate.body))
  }

  ghost function VerifiersOf(req: Request): set<RequestVerifier> {
    if req.DsseRequest? then Dsse.VerifierSet(req.ds) else {}
  }

  // ----- the code

  class Server {
    const cfg: Settings
    const readOnly: bool
    var hashedRekordEntries: nat
    var dsseEntries: nat
    var inclusionProofFailures: nat

    ghost function CountersNow(): Counters
      reads this
    {
      Counters(hashedRekordEntries, dsseEntries, inclusionProofFailures)
    }

    constructor (cfg: Settings, readOnly: bool)
      ensures this.cfg == cfg && this.readOnly == readOnly && CountersNow() == Counters(0, 0, 0)
    {
      this.cfg, this.readOnly := cfg, readOnly;
      hashedRekordEntries, dsseEntries, inclusionProofFailures := 0, 0, 0;
    }

    /**
     The sequencer and the tile store answer through the parameters await and read; the two orders
     are the iteration orders of the maps that DSSE admission loops over.
     */
    method CreateEntry(req: Request, policyOrder: seq<RequestVerifier>, order: seq<RequestVerifier>,
                       await: bytes -> Await, read: ReadTile)
      returns (answer: Answer, submitted: Option<bytes>)
      requires EnvelopeContract(cfg.lib)
      requires IsOrderOf(policyOrder, VerifiersOf(req)) && IsOrderOf(order, VerifiersOf(req))
      modifies this
      ensures Handled(answer, CountersNow(), submitted) == Handle(cfg, readOnly, old(CountersNow()), req, order, await, read)
    {
      hide EnvelopeContract, IsOrderOf, Add, HashedRekord.ToLogEntry, DsseEntry.Admitted;
      submitted := None;
      if readOnly {
        return LogFrozen, None;
      }
      var kind, body;
      match req {
        case HashedRekordRequest(hr) =>
          var entry := HashedRekord.ToLogEntry(cfg.lib, hr);
          if entry.Err? {
            return InvalidArgument, None;
          }
          kind, body := HashedRekordKind, cfg.encode(HashedRekordBody(entry.value));
        case DsseRequest(ds) =>
          var entry := DsseEntry.ToLogEntry(cfg.lib, ds, policyOrder, order);
          if entry.Err? {
            return InvalidArgument, None;
          }
          kind, body := DsseKind, cfg.encode(DsseBody(entry.value));
        case OtherRequest =>
          return InvalidArgument, None;
      }
      if body.None? {
        return InvalidArgument, None;
      }
      submitted := body;
      var added := Add(cfg.h, read, body.value, await(body.value));
      if added == Err(NotAwaited(Pushback)) {
        return Unavailable, submitted;
      }
      if added == Err(NotAwaited(Canceled)) {
        return RequestCanceled, submitted;
      }
      if added.Err? && added.error.Duplicate? {
        return AlreadyExists(added.error.index), submitted;
      }
      if added.Err? && added.error.NotBuilt? && added.error.b.ProofRejected? {
        inclusionProofFailures := inclusionProofFailures + 1;
      }
      if added.Err? {
        return Answer.Failed, submitted;
      }
      if kind.HashedRekordKind? {
        hashedRekordEntries := hashedRekordEntries + 1;
      } else {
        dsseEntries := dsseEntries + 1;
      }
      return Created(added.value, kind, cfg.logId), submitted;
    }
  }

  /** Requests refused by read-only mode or by admission submit nothing and change no counter. */
  lemma RefusedChangesNothing(cfg: Settings, readOnly: bool, c: Counters, req: Request, order: seq<RequestVerifier>,
                              await: bytes -> Await, read: ReadTile)
    ensures var r := Handle(cfg, readOnly, c, req, order, await, read);
            (r.answer.LogFrozen? || r.answer.InvalidArgument? <==> r.submitted.None?)
            && (r.submitted.None? <==> readOnly || Admit(cfg, req, order).None?)
            && (r.submitted.None? ==> r.counters == c)
            && (r.answer.LogFrozen? <==> readOnly)
            && (r.counters.hashedRekord + r.counters.dsse == c.hashedRekord + c.dsse + if r.answer.Created? then 1 else 0)
  {
    hide Admit, Add;
  }

  // ----- which outcome gives which answer

  /** What the server knows when it has tried to build a proof. */
  datatype Attempt =
    | NoAttempt              // the awaiter failed, reported a duplicate, or gave an index beyond int64
    | NoProof                // the checkpoint does not parse, is too large, or tiles are missing
    | Rejected(path: seq<bytes>, c: Checkpoint)
    | Proved(path: seq<bytes>, c: Checkpoint)

  /** The outcome of building a proof for a body, in terms of checkpoint text, tiles and the hash function. */
  ghost function AttemptOf(h: HashFn, read: ReadTile, body: bytes, w: Await): Attempt {
    if !w.Awaited? || w.isDup || w.index > MAX_INT64 then NoAttempt
    else if Unmarshal(w.checkpoint).None? then NoProof
    else
      var c := Unmarshal(w.checkpoint).value.checkpoint;
      if w.index >= c.size || c.size > MAX_INT64 || PathFromTiles(h, read, c.size, w.index, 0, c.size).None? then NoProof
      else
        var path := PathFromTiles(h, read, c.size, w.index, 0, c.size).value;
        if Included(h, w.index, c.size, h([0] + body), path, c.hash) then Proved(path, c) else Rejected(path, c)
  }

  /**
   The whole table for an admitted request: a duplicate is answered with its index, a pushback as
   unavailable, a cancelled wait as cancelled, a proof that is built and accepted with the entry
   that carries it, and everything else as a failure. Only an entry and a rejected proof are counted.
   */
  lemma AnswerTable(cfg: Settings, c: Counters, req: Request, order: seq<RequestVerifier>, await: bytes -> Await, read: ReadTile)
    requires Admit(cfg, req, order).Some?
    ensures var cand := Admit(cfg, req, order).value;
            var w, r := await(cand.body), Handle(cfg, false, c, req, order, await, read);
            var a := AttemptOf(cfg.h, read, cand.body, w);
            && r.submitted == Some(cand.body)
            && (forall i: uint64 :: r.answer == AlreadyExists(i) <==> w.Awaited? && w.isDup && w.index == i <= MAX_INT64)
            && (r.answer == Unavailable <==> w == AwaitFailed(Pushback))
            && (r.answer == RequestCanceled <==> w == AwaitFailed(Canceled))
            && (r.answer.Created? <==> a.Proved?)
            && (a.Proved? ==> r.answer == Created(
                  LogEntry(w.index, Some(InclusionProof(w.index, a.c.hash, a.c.size, a.path, w.checkpoint)), cand.body), cand.kind, cfg.logId))
            && (r.answer == Answer.Failed <==>
                  || w == AwaitFailed(OtherAwait) || (w.Awaited? && w.index > MAX_INT64) || a.NoProof? || a.Rejected?)
            && r.counters == Counters(
                 c.hashedRekord + if a.Proved? && cand.kind == HashedRekordKind then 1 else 0,
                 c.dsse + if a.Proved? && cand.kind == DsseKind then 1 else 0,
                 c.proofFailures + if a.Rejected? then 1 else 0)
  {
    hide Admit, Unmarshal, PathFromTiles, RootFromPath;
  }

  // ----- what the log may contain

  /** A leaf that attests: the encoding of an entry whose signatures verify under permitted keys. */
  ghost predicate IsAttested(cfg: Settings, kind: Kind, body: bytes) {
    match kind
    case HashedRekordKind => exists e :: cfg.encode(HashedRekordBody(e)) == Some(body) && HashedRekord.Attests(cfg.lib, e)
    case DsseKind => exists e :: cfg.encode(DsseBody(e)) == Some(body) && DsseAttests(cfg.lib, e)
  }

  /** A DSSE entry attests for some envelope: its signatures are exactly those of the envelope, each verified by a permitted key. */
  ghost predicate DsseAttests(lib: Libraries, e: Dsse.Entry) {
    exists ds: Dsse.Request :: DsseAttestsFor(lib, ds, e)
  }

  ghost predicate DsseAttestsFor(lib: Libraries, ds: Dsse.Request, e: Dsse.Entry) {
    && Dsse.IsValid(ds) && Dsse.KeysParse(lib, ds) && ds.envelope.Some? && DsseEntry.NoNil(ds.envelope.value)
    && var env, keys := ds.envelope.value, DsseEntry.KeyMap(lib, ds);
    && e.payloadHash == lib.sha256(env.payload)
    && ByteOrder.SortedFrom(DsseProperties.Contents(e), DsseEntry.RawSigs(env))
    && forall i :: 0 <= i < |e.signatures| ==>
         var v := e.signatures[i].verifier;
         v in ds.verifiers && IsPermitted(lib, v, keys[v]) && DsseProperties.Recognises(lib, env, keys[v], v, e.signatures[i].content)
  }

  /** Every body that a request submits attests. */
  lemma AdmittedIsAttested(cfg: Settings, req: Request, order: seq<RequestVerifier>)
    requires EnvelopeContract(cfg.lib) && IsOrderOf(order, VerifiersOf(req)) && Admit(cfg, req, order).Some?
    ensures var c := Admit(cfg, req, order).value; IsAttested(cfg, c.kind, c.body)
  {
    hide EnvelopeContract, IsOrderOf, HashedRekord.ToLogEntry, HashedRekord.Attests, DsseEntry.Admitted, DsseAttestsFor;
    match req
    case HashedRekordRequest(hr) =>
      HashedRekord.AdmittedIffAttests(cfg.lib, hr);
    case DsseRequest(ds) =>
      AdmittedDsseAttests(cfg.lib, ds, order);
  }

  lemma AdmittedDsseAttests(lib: Libraries, ds: Dsse.Request, order: seq<RequestVerifier>)
    requires EnvelopeContract(lib) && IsOrderOf(order, Dsse.VerifierSet(ds)) && DsseEntry.Admitted(lib, ds, order).Some?
    ensures DsseAttestsFor(lib, ds, DsseEntry.Admitted(lib, ds, order).value)
  {
    hide EnvelopeContract, IsOrderOf, DsseEntry.Admitted, DsseProperties.Recognises, DsseEntry.RawSigs;
    DsseProperties.AdmittedIsSound(lib, ds, order);
  }
}
