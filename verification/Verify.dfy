/** The client's checks on log entries and the monitor's checks on pairs of checkpoints. */
module Verify {
  import opened Bytes
  import opened Hashing
  import opened Merkle
  import opened SafeInt
  import opened SignedNote
  import opened CheckpointText

  datatype InclusionProof = InclusionProof(
    logIndex: int64, rootHash: bytes, treeSize: int64, hashes: seq<bytes>, envelope: bytes)

  datatype LogEntry = LogEntry(logIndex: int64, proof: Option<InclusionProof>, body: bytes)

  datatype VerifyError = BadCheckpoint(e: CheckpointError) | BadIndex | NotIncluded | NotConsistent

  datatype Verified = Verified

  /** As the code, this dereferences the entry's proof. */
  function VerifyInclusionProof(h: HashFn, entry: LogEntry, c: Checkpoint): Result<Verified, VerifyError>
    requires entry.proof.Some?
  {
    match NewSafeInt64(FromInt64(entry.logIndex))
    case Err(_) => Err(BadIndex)
    case Ok(index) =>
      if Included(h, index.u, c.size, LeafHash(h, entry.body), entry.proof.value.hashes, c.hash) then Ok(Verified.Verified)
      else Err(NotIncluded)
  }

  function VerifyCheckpoint(envelope: bytes, v: Verifier): Result<Checkpoint, VerifyError> {
    match ParseCheckpoint(envelope, v)
    case Err(e) => Err(BadCheckpoint(e))
    case Ok(c) => Ok(c)
  }

  /** The envelope of the entry's checkpoint; empty when the entry carries none. */
  function Envelope(entry: LogEntry): bytes {
    match entry.proof case None => [] case Some(p) => p.envelope
  }

  function VerifyLogEntry(h: HashFn, entry: LogEntry, v: Verifier): (r: Result<Verified, VerifyError>)
    ensures r.Ok? <==>
              && entry.proof.Some? && ParseCheckpoint(Envelope(entry), v).Ok? && 0 <= entry.logIndex
              && var c := ParseCheckpoint(Envelope(entry), v).value;
                 Included(h, entry.logIndex, c.size, h([0] + entry.body), entry.proof.value.hashes, c.hash)
  {
    match VerifyCheckpoint(Envelope(entry), v)
    case Err(e) => Err(e)
    case Ok(c) => VerifyInclusionProof(h, entry, c)
  }

  function VerifyConsistencyProof(h: HashFn, proof: seq<bytes>, oldSize: nat, oldRoot: bytes, envelope: bytes, v: Verifier)
    : (r: Result<Verified, VerifyError>)
    ensures r.Ok? <==>
              && ParseCheckpoint(envelope, v).Ok?
              && var c := ParseCheckpoint(envelope, v).value;
                 Consistent(h, oldSize, c.size, proof, oldRoot, c.hash)
  {
    match VerifyCheckpoint(envelope, v)
    case Err(e) => Err(e)
    case Ok(c) =>
      if Consistent(h, oldSize, c.size, proof, oldRoot, c.hash) then Ok(Verified.Verified) else Err(NotConsistent)
  }

  function VerifyConsistencyProofWithCheckpoints(h: HashFn, proof: seq<bytes>, oldEnvelope: bytes, newEnvelope: bytes, v: Verifier)
    : (r: Result<Verified, VerifyError>)
    ensures r.Ok? <==>
              && ParseCheckpoint(oldEnvelope, v).Ok? && ParseCheckpoint(newEnvelope, v).Ok?
              && var c, d := ParseCheckpoint(oldEnvelope, v).value, ParseCheckpoint(newEnvelope, v).value;
                 Consistent(h, c.size, d.size, proof, c.hash, d.hash)
  {
    match VerifyCheckpoint(oldEnvelope, v)
    case Err(e) => Err(e)
    case Ok(c) => VerifyConsistencyProof(h, proof, c.size, c.hash, newEnvelope, v)
  }

  /** The checkpoint is the commitment to exactly this list of leaves. */
  ghost predicate Commits(h: HashFn, c: Checkpoint, D: seq<bytes>) {
    c.size == |D| && c.hash == Root(h, D)
  }

  /**
   Inclusion soundness: whatever index, body and list of hashes an accepted entry carries, its
   index is below the size of the log that its checkpoint commits to, and its body is the leaf there.
   */
  lemma LogEntrySound(h: HashFn, entry: LogEntry, v: Verifier, D: seq<bytes>)
    requires VerifyLogEntry(h, entry, v).Ok?
    requires Commits(h, ParseCheckpoint(Envelope(entry), v).value, D)
    requires InjectiveOn(h, InclusionInputs(h, entry.logIndex, D, entry.body, entry.proof.value.hashes))
    ensures 0 <= entry.logIndex < |D|
    ensures entry.body == D[entry.logIndex]
    ensures entry.proof.value.hashes == AuditPath(h, entry.logIndex, D)
  {
    hide ParseCheckpoint, Root, InclusionInputs, AuditPath, LeafHash, RootFromPath;
    InclusionSound(h, entry.logIndex, D, entry.body, entry.proof.value.hashes);
  }

  /** An entry with the audit path of its body under a checkpoint that opens is accepted. */
  lemma LogEntryComplete(h: HashFn, entry: LogEntry, v: Verifier, D: seq<bytes>)
    requires ParseCheckpoint(Envelope(entry), v).Ok? && Commits(h, ParseCheckpoint(Envelope(entry), v).value, D)
    requires 0 <= entry.logIndex < |D| && entry.body == D[entry.logIndex]
    requires entry.proof.Some? && entry.proof.value.hashes == AuditPath(h, entry.logIndex, D)
    ensures VerifyLogEntry(h, entry, v).Ok?
  {
    hide ParseCheckpoint, Root, AuditPath, LeafHash, RootFromPath;
    InclusionComplete(h, entry.logIndex, D);
  }

  // ----- monitors

  /** What a monitor holds: signed checkpoints, each consistent with the one before it. */
  ghost predicate AcceptedChain(h: HashFn, v: Verifier, envelopes: seq<bytes>, proofs: seq<seq<bytes>>) {
    && |envelopes| == |proofs| + 1
    && forall i :: 0 <= i < |proofs| ==>
         VerifyConsistencyProofWithCheckpoints(h, proofs[i], envelopes[i], envelopes[i + 1], v).Ok?
  }

  /** The lists of leaves behind a chain, with no hash collision among the strings hashed along it. */
  ghost predicate LogsBehind(h: HashFn, v: Verifier, envelopes: seq<bytes>, proofs: seq<seq<bytes>>, logs: seq<seq<bytes>>, inputs: set<bytes>)
  {
    && |logs| == |envelopes| == |proofs| + 1
    && (forall i :: 0 <= i < |logs| ==>
          ParseCheckpoint(envelopes[i], v).Ok? && Commits(h, ParseCheckpoint(envelopes[i], v).value, logs[i]))
    && InjectiveOn(h, inputs)
    && forall i :: 0 <= i < |proofs| ==> ConsistencyInputs(h, logs[i], logs[i + 1], proofs[i]) <= inputs
  }

  lemma ChainStep(h: HashFn, v: Verifier, envelopes: seq<bytes>, proofs: seq<seq<bytes>>, logs: seq<seq<bytes>>, inputs: set<bytes>, i: nat)
    requires AcceptedChain(h, v, envelopes, proofs) && LogsBehind(h, v, envelopes, proofs, logs, inputs)
    requires i < |proofs|
    ensures logs[i] <= logs[i + 1]
  {
    hide ParseCheckpoint, Root, InjectiveOn, ConsistencyInputs, Consistent;
    assert VerifyConsistencyProofWithCheckpoints(h, proofs[i], envelopes[i], envelopes[i + 1], v).Ok?;
    assert Commits(h, ParseCheckpoint(envelopes[i], v).value, logs[i]);
    assert Commits(h, ParseCheckpoint(envelopes[i + 1], v).value, logs[i + 1]);
    InjectiveOnSubset(h, ConsistencyInputs(h, logs[i], logs[i + 1], proofs[i]), inputs);
    ConsistencySound(h, logs[i], logs[i + 1], proofs[i]);
  }

  /** Every version in an accepted chain is a prefix of every later one, so the first of the last. */
  lemma {:induction false} ChainIsAppendOnly(h: HashFn, v: Verifier, envelopes: seq<bytes>, proofs: seq<seq<bytes>>, logs: seq<seq<bytes>>, inputs: set<bytes>, i: nat, j: nat)
    requires AcceptedChain(h, v, envelopes, proofs) && LogsBehind(h, v, envelopes, proofs, logs, inputs)
    requires i <= j < |logs|
    ensures logs[i] <= logs[j]
    decreases j - i
  {
    hide AcceptedChain, VerifyConsistencyProofWithCheckpoints, Commits, InjectiveOn, ConsistencyInputs, ParseCheckpoint;
    if i < j {
      ChainIsAppendOnly(h, v, envelopes, proofs, logs, inputs, i, j - 1);
      ChainStep(h, v, envelopes, proofs, logs, inputs, j - 1);
    }
  }

  /**
   No split view: two entries with the same index, accepted against any two checkpoints of one
   accepted chain, have the same body.
   */
  lemma NoSplitView(h: HashFn, v: Verifier, envelopes: seq<bytes>, proofs: seq<seq<bytes>>, logs: seq<seq<bytes>>, inputs: set<bytes>,
                    i: nat, j: nat, a: LogEntry, b: LogEntry)
    requires AcceptedChain(h, v, envelopes, proofs) && LogsBehind(h, v, envelopes, proofs, logs, inputs)
    requires i <= j < |logs| && a.logIndex == b.logIndex
    requires VerifyLogEntry(h, a, v).Ok? && Envelope(a) == envelopes[i]
    requires VerifyLogEntry(h, b, v).Ok? && Envelope(b) == envelopes[j]
    requires InclusionInputs(h, a.logIndex, logs[i], a.body, a.proof.value.hashes) <= inputs
    requires InclusionInputs(h, b.logIndex, logs[j], b.body, b.proof.value.hashes) <= inputs
    ensures a.body == b.body
  {
    hide AcceptedChain, Commits, InjectiveOn, ConsistencyInputs, InclusionInputs, ParseCheckpoint, Included, LeafHash, AuditPath;
    InjectiveOnSubset(h, InclusionInputs(h, a.logIndex, logs[i], a.body, a.proof.value.hashes), inputs);
    LogEntrySound(h, a, v, logs[i]);
    InjectiveOnSubset(h, InclusionInputs(h, b.logIndex, logs[j], b.body, b.proof.value.hashes), inputs);
    LogEntrySound(h, b, v, logs[j]);
    ChainIsAppendOnly(h, v, envelopes, proofs, logs, inputs, i, j);
  }
}
