/**
 The storage that CreateEntry adds to: it waits until the sequencer has published a checkpoint
 that covers the entry, builds the inclusion proof from tiles, and checks it before answering.
 */
module Storage {
  import opened Bytes
  import opened Hashing
  import opened Merkle
  import opened SafeInt
  import opened SignedNote
  import opened CheckpointText
  import opened Tiles
  import opened Verify

  datatype BuildError = BadCheckpointText | ProofUnavailable | TreeTooLarge | ProofRejected(index: uint64)

  datatype AwaitError = Pushback | Canceled | OtherAwait

  datatype AddError = NotAwaited(a: AwaitError) | IndexTooLarge | Duplicate(index: uint64) | NotBuilt(b: BuildError)

  /** What the awaiter returns for a submitted entry. */
  datatype Await = Awaited(index: uint64, isDup: bool, checkpoint: bytes) | AwaitFailed(e: AwaitError)

  datatype Added = Added(index: SafeInt64, isDup: bool, checkpoint: bytes)

  function AddEntry(await: Await): Result<Added, AddError> {
    match await
    case AwaitFailed(e) => Err(NotAwaited(e))
    case Awaited(index, isDup, checkpoint) =>
      match NewSafeInt64(FromUint64(index))
      case Err(_) => Err(IndexTooLarge)
      case Ok(safe) => Ok(Added(safe, isDup, checkpoint))
  }

  /** The inclusion proof of an index in a tree of the given size, computed from tiles. */
  function InclusionFromTiles(h: HashFn, read: ReadTile, index: nat, size: nat): Option<seq<bytes>> {
    if index < size then PathFromTiles(h, read, size, index, 0, size) else None
  }

  function BuildProof(h: HashFn, read: ReadTile, index: SafeInt64, signed: bytes, leaf: bytes): Result<InclusionProof, BuildError> {
    match Unmarshal(signed)
    case None => Err(BadCheckpointText)
    case Some(parsed) =>
      var c := parsed.checkpoint;
      match InclusionFromTiles(h, read, index.u, c.size)
      case None => Err(ProofUnavailable)
      case Some(path) =>
        match NewSafeInt64(FromUint64(c.size))
        case Err(_) => Err(TreeTooLarge)
        case Ok(size) =>
          if !Included(h, index.u, size.u, leaf, path, c.hash) then Err(ProofRejected(index.u))
          else Ok(InclusionProof(index.i, c.hash, size.i, path, signed))
  }

  function Add(h: HashFn, read: ReadTile, data: bytes, await: Await): Result<LogEntry, AddError> {
    match AddEntry(await)
    case Err(e) => Err(e)
    case Ok(added) =>
      if added.isDup then Err(Duplicate(added.index.u))
      else
        match BuildProof(h, read, added.index, added.checkpoint, LeafHash(h, data))
        case Err(e) => Err(NotBuilt(e))
        case Ok(proof) => Ok(LogEntry(added.index.i, Some(proof), data))
  }

  /**
   Agreement of server and client, whatever tiles were read: an entry that the server answers
   with is accepted by every client that can open its checkpoint.
   */
  lemma AddedEntryVerifies(h: HashFn, read: ReadTile, data: bytes, await: Await, v: Verifier)
    requires Add(h, read, data, await).Ok?
    requires ParseCheckpoint(await.checkpoint, v).Ok?
    ensures VerifyLogEntry(h, Add(h, read, data, await).value, v).Ok?
  {
    hide Open, Unmarshal, InclusionFromTiles, LeafHash, Included;
    TwoReadingsAgree(await.checkpoint, v);
  }

  /** The numbers of an answer: 0 <= LogIndex < TreeSize <= 2^63 - 1, and they are those of the sequencer and the checkpoint. */
  lemma AddedEntryNumbers(h: HashFn, read: ReadTile, data: bytes, await: Await)
    requires Add(h, read, data, await).Ok?
    ensures var entry := Add(h, read, data, await).value;
            && entry.proof.Some? && Unmarshal(await.checkpoint).Some?
            && 0 <= entry.logIndex as int == await.index as int == entry.proof.value.logIndex as int
               < entry.proof.value.treeSize as int == Unmarshal(await.checkpoint).value.checkpoint.size <= MAX_INT64
            && entry.body == data && entry.proof.value.rootHash == Unmarshal(await.checkpoint).value.checkpoint.hash
            && !await.isDup && entry.proof.value.envelope == await.checkpoint
  {
    hide Unmarshal, LeafHash, PathFromTiles, RootFromPath;
  }

  /**
   Completeness from tiles: with the tiles of a log that extends the checkpoint's tree, the proof
   of every leaf below the checkpoint's size is built, is the RFC 6962 audit path in that tree,
   and passes the server's own check.
   */
  lemma BuildProofComplete(h: HashFn, read: ReadTile, D: seq<bytes>, index: SafeInt64, signed: bytes)
    requires ServesTree(h, D, read)
    requires Unmarshal(signed).Some?
    requires var c := Unmarshal(signed).value.checkpoint;
             index.u as int == index.i as int < c.size <= |D| && c.size <= MAX_INT64 && c.hash == Root(h, D[..c.size])
    ensures var c := Unmarshal(signed).value.checkpoint;
            BuildProof(h, read, index, signed, LeafHash(h, D[index.u]))
            == Ok(InclusionProof(index.i, c.hash, c.size, AuditPath(h, index.u, D[..c.size]), signed))
  {
    hide ServesTree, Unmarshal, PathFromTiles, RangePath, RangeRoot, LeafHash, RootFromPath, IsPow2;
    var c, m := Unmarshal(signed).value.checkpoint, index.u as nat;
    var E := D[..c.size];
    PathFromZero(h, D, read, c.size, m);
    RangePathFrame(h, m, D, E, 0, c.size);
    assert E[m] == D[m];
    InclusionComplete(h, m, E);
  }

  lemma PathFromZero(h: HashFn, D: seq<bytes>, read: ReadTile, size: nat, m: nat)
    requires ServesTree(h, D, read) && m < size <= |D|
    ensures PathFromTiles(h, read, size, m, 0, size) == Some(RangePath(h, m, D, 0, size))
  {
    hide ServesTree, PathFromTiles, RangePath, IsPow2;
    var p := if size == 1 then 1 else 2 * SplitPoint(size);
    DoubleIsPow2(size);
    PathFromTilesIsPath(h, D, read, size, m, 0, size, p);
  }

  lemma DoubleIsPow2(size: nat)
    ensures IsPow2(1) && (size > 1 ==> IsPow2(2 * SplitPoint(size)))
  {
  }

  /**
   The counter that should always be zero: with tiles of a log that extends the checkpoint's tree,
   even if reading some of them fails, the server never rejects a proof that it built.
   */
  lemma ProofNeverRejected(h: HashFn, read: ReadTile, D: seq<bytes>, index: SafeInt64, signed: bytes)
    requires Below(read, TilesOf(h, D)) && Unmarshal(signed).Some?
    requires var c := Unmarshal(signed).value.checkpoint;
             index.u as int == index.i as int < c.size <= |D| && c.hash == Root(h, D[..c.size])
    ensures var r := BuildProof(h, read, index, signed, LeafHash(h, D[index.u])); r.Err? ==> !r.error.ProofRejected?
  {
    hide Below, ServesTree, Unmarshal, PathFromTiles, Root, LeafHash, Included, AuditPath, TilesOf;
    var c, m := Unmarshal(signed).value.checkpoint, index.u as nat;
    PathBelow(h, read, TilesOf(h, D), c.size, m, 0, c.size);
    if c.size <= MAX_INT64 {
      BuildProofComplete(h, TilesOf(h, D), D, index, signed);
    }
  }
}
