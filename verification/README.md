# Rekor v2 transparency log: a verified model

Rekor v2 appends signed entries to a tile-backed Merkle tree, waits until a signed checkpoint
covers an entry, builds the inclusion proof from tiles, checks it, and answers with it. Clients
check inclusion, monitors check consistency. This project models that path from the request to
the client's check, together with the admission of entries, the shutdown of the servers, and the
tool that freezes a log, and proves what each of them promises, over every input, every
interleaving and every iteration order of Go's maps.

`dafny verify dfyconfig.toml` checks the whole project.

## How the model is built

Hashes. The hash function is a parameter that maps byte strings to 32 bytes. Nothing else is
assumed of it. Where a result rests on collision resistance, the lemma names the finite set of
strings that the log and the verifier hashed (`InclusionInputs`, `ConsistencyInputs`, the two log
ID preimages) and assumes that the function does not collide on that set. Proof entries are byte
strings of any length, as in the code.

Library steps come from their standards: tree hash, audit path and consistency proof from section
2.1 of RFC 6962, the one-pass proof checks from sections 2.1.3.2 and 2.1.4.2 of RFC 9162, tiles
from the "Merkle Tree" section of C2SP tlog-tiles, checkpoint text from the "Note text" section of
C2SP tlog-checkpoint, signed notes and key IDs from C2SP signed-note, base64 from section 4 of
RFC 4648. A consistency check from the empty tree accepts the empty proof.

Environment. Iteration orders, the sequencer's and the tile store's responses, the clock, upload
failures and the cryptographic libraries are parameters. Of the envelope verifier only this is
assumed: it accepts a non-empty list of envelope signatures that verify, and errs where none does
(`Admission.EnvelopeContract`). Of the awaiter only this: the published checkpoint it returns has
a size greater than the index. Of the duplicate check only this: a reported index holds the
submitted body at that time. Of a key pair only this: the verifier accepts what the signer
produces, and signatures are not empty.

| file | content |
|---|---|
| `Bytes`, `Hashing`, `Base64`, `Decimal`, `Utf8`, `ByteOrder`, `SafeInt` | byte strings, hash parameter, text encodings, sorting, 64-bit integers |
| `Merkle`, `ProofWalk`, `Tiles` | recursive tree definitions and their soundness, the one-pass verifiers, proofs from tiles |
| `SignedNote`, `CheckpointText`, `KeyId` | signed notes, checkpoint text, key IDs and log IDs |
| `Verify`, `Storage` | client and monitor checks, the storage behind `CreateEntry` |
| `Admission`, `Dsse`, `Cover`, `DsseEntry`, `DsseProperties`, `HashedRekord` | the two admission paths; `Cover` is the DSSE loop without cryptography |
| `Service`, `LogSystem` | the request handler, and the whole log as a state machine |
| `Freeze`, `Shutdown` | the freeze tool, the three servers and the sequencer shutdown |

## What is proved

- A root commits to the whole log, also to its size, and is the tree hash that RFC 6962 defines.
- Inclusion and consistency proofs are sound and complete, and each accepted inclusion proof is
  the audit path. A monitor's accepted chain is append-only, and no two entries accepted against
  checkpoints of one chain differ at an index (`Verify.NoSplitView`).
- The verifiers that walk the bits of index and size decide exactly what the recursion defines.
- From tiles, full or partial, the server builds exactly the audit path; the counter that should
  always be zero stays zero in every run, even when tile reads fail.
- In every run of concurrent requests, sequencing, integration, publication, restarts and freezing,
  every answered entry is accepted by every client, is the leaf at its index, and shares its index
  with no other answer; each counter is the number of its answers; every leaf attests verified
  signatures under permitted keys.
- Every outcome of the sequencer has its answer (`Service.AnswerTable`), and a waiting request can
  always be sequenced, integrated, published and answered with an entry that clients accept.
- A request adds at most one leaf, and an answer about a duplicate points at another request's leaf
  with the submitted body.
- Which notes open, which checkpoint texts, numerals, base64 texts and key names are accepted is
  stated exactly, in bytes and lines.
- DSSE admission is sound and covers all signatures for every iteration order. Exact conditions say
  when the verdict, the entry, and both together are the same for all orders
  (`DsseProperties.AdmissionOrderIndependence`).
- Any number of freezing runs writes once if one of them can sign and upload, and never otherwise;
  origin, size and hash are kept; a frozen log stays frozen.
- Shutdown is safe in every interleaving, cannot deadlock once all servers are signalled, and takes
  a bounded number of steps; without further signals it completes exactly when all servers are
  signalled, and one more signal to a waiting process is always enough.

## Where the code does less than one might expect

- A key name with a control character passes the check of valid names, but a note signed under it
  cannot be opened: `SignedNote.OpenSigned` gives the exact condition, and
  `SignedNote.ControlNameNeverOpens` such a name.
- The log ID of an ECDSA key does not depend on the origin: `KeyId.EcdsaLogIdIgnoresOrigin`.
- A DSSE request with a verifier that verifies nothing is accepted or refused depending on the
  iteration order of a map whenever the other verifiers cover all signatures:
  `DsseProperties.VerdictOrderIndependence`.
- The verifier that a DSSE entry pairs with a signature can depend on the iteration order. It does
  not, exactly when each signature has one verifier that can be recorded for it
  (`DsseProperties.EntryOrderIndependence`). Verifier v can be recorded for s when v accepts s and,
  for some signature t, all signatures are covered by v and the verifiers that do not accept both
  s and t. If the verifiers of each signature leave some other signature open, or there is only one
  signature, this means that no two verifiers accept the same signature
  (`Cover.SharedSignatureDecides`). In general a shared signature need not matter: the loop may
  always end with the same verifier (`Cover.SharedSignatureNeedNotMatter`).
- A signal that arrives after the first server registered for it and before the last one did leaves
  the process waiting for a second signal: `Shutdown.OneSignalSuffices`,
  `Shutdown.EarlySignalIsNotEnough`.

## Model

| member | source | states |
|---|---|---|
| Merkle.RootIsTreeHash | pkg/verify/verify.go:31-38 | a root is 32 bytes and the hash of nothing, of a zero byte and the leaf, or of a one byte and the roots of the halves, split at the largest power of two below the size |
| Merkle.LeafIsNoNode | pkg/verify/verify.go:31-31 | no leaf and inner node have the same string to hash |
| Merkle.RootCommits | pkg/verify/verify.go:30-40 | without a collision two logs of any sizes have equal roots exactly when they are equal |
| Merkle.InclusionComplete | internal/tessera/tessera.go:189-199 | the audit path of every leaf is accepted against the root |
| Merkle.InclusionSound | pkg/verify/verify.go:30-40 | an accepted path proves that the body is the leaf at the index, below the size, and the path is the audit path |
| Merkle.ConsistencyComplete | pkg/verify/verify.go:73-79 | the consistency proof between two versions of one log is accepted, for all sizes |
| Merkle.ConsistencySound | pkg/verify/verify.go:73-79 | an accepted proof proves that the older list of leaves is a prefix of the newer one |
| ProofWalk.WalkIsRootFromPath | pkg/verify/verify.go:36-38 | the climb along the bits of index and size computes the root that the recursion defines, for every path |
| ProofWalk.WalkIsRootsFromProof | pkg/verify/verify.go:78-78 | the same for the two roots of a consistency proof |
| ProofWalk.VerifyInclusion | pkg/verify/verify.go:36-38 | the one-pass check accepts exactly the included leaves |
| ProofWalk.VerifyConsistency | pkg/verify/verify.go:78-78 | the one-pass check accepts exactly the consistent roots, for every pair of sizes |
| Tiles.TileHoldsSubtrees | internal/tessera/tessera.go:160-166 | a tile file is up to 256 hashes of 32 bytes, hash j the root of its 256^level leaves |
| Tiles.SpanSteps | internal/tessera/tessera.go:160-166 | one hash stands for one leaf at level 0 and for 256 times as many at each next level |
| Tiles.TileExists | internal/tessera/tessera.go:160-166 | the tile that holds a node of a tree of some size exists at that size and is wide enough |
| Tiles.TileNodeIsRoot | internal/tessera/tessera.go:160-166 | a node computed inside a full or partial tile is the root of its leaves |
| Tiles.RangeFromTilesIsRoot | internal/tessera/tessera.go:185-192 | every aligned range of leaves, also the unfinished right edge, gets its RFC 6962 root from tiles |
| Tiles.PathFromTilesIsPath | internal/tessera/tessera.go:185-192 | for every size and index the path built from tiles is the RFC 6962 audit path |
| Tiles.PathBelow | internal/tessera/tessera.go:160-166 | failing reads lead to no path, never to another path |
| Base64.DecodesExactly | pkg/types/dsse/dsse.go:253-274 | a text without newlines decodes exactly if it is groups of four digits with at most two padding characters at the end; the result encodes to the text but for the unused bits |
| Base64.NewlineIsSkipped | pkg/types/dsse/dsse.go:253-274 | a newline anywhere does not change what is decoded |
| Base64.RoundTrip | pkg/types/dsse/dsse.go:237-274 | decoding undoes encoding, for byte strings of every length |
| Decimal.ParsesExactly | cmd/freeze-checkpoint/gcp/app/root.go:212-216 | parsed are exactly the printed numbers below 2^64 with any zeros before them |
| Decimal.RoundTrip | cmd/freeze-checkpoint/gcp/app/root.go:228-228 | parsing undoes printing on the range of a uint64 |
| SafeInt.NewSafeInt64 | internal/safeint/safeint.go:39-58 | succeeds exactly on uint64 up to 2^63-1 and non-negative int64, with both values equal to the input |
| SafeInt.TripThroughInt64 | internal/safeint/safeint.go:39-68 | the int64 that is sent is read back as the same uint64 |
| Utf8.RuneIsEncoded | pkg/note/note.go:94-96 | every accepted byte sequence is the UTF-8 encoding of its code point |
| Utf8.EncodedRune | pkg/note/note.go:94-96 | every code point decodes from its UTF-8 encoding, whatever follows |
| Utf8.AllRunesExactly | pkg/note/note.go:94-96 | valid are exactly the encodings of sequences of code points |
| SignedNote.ValidNamesExactly | pkg/note/note.go:94-96 | valid names are exactly the non-empty encodings of code points other than white space and the plus sign |
| SignedNote.OpensExactly | cmd/freeze-checkpoint/gcp/app/root.go:208-211 | a note opens exactly if it is whole lines, a blank line and 1 to 100 well formed signature lines, UTF-8 without control characters, whose first line of the verifier it accepts for the text |
| SignedNote.UnverifiedExactly | cmd/freeze-checkpoint/gcp/app/root.go:208-211 | a well formed note without a line of the verifier, and no other, is reported as unverified |
| SignedNote.ParseSignatureExactly | cmd/freeze-checkpoint/gcp/app/root.go:208-211 | a signature line is exactly a dash, a valid name and the base64 form of a key ID and a signature |
| SignedNote.SignsOneLine | cmd/freeze-checkpoint/gcp/app/root.go:233-233 | signing succeeds exactly for whole lines, a valid name and a key that signs, and appends one line with its signature of the text |
| SignedNote.ValidNameHasNo | pkg/note/note.go:94-96 | a valid name contains no ASCII space, in particular no newline |
| SignedNote.OpenSigned | cmd/freeze-checkpoint/gcp/app/root.go:233-233 | a signed note opens with its text exactly when text and key name hold no control character; else it is malformed |
| SignedNote.ControlNameIsValid | pkg/note/note.go:94-96 | the name U+0001 passes the check of valid names although no note may contain it |
| SignedNote.ControlNameNeverOpens | pkg/note/note.go:94-96 | a key of that name signs every text that ends a line, and every note it signs is malformed to its own verifier |
| SignedNote.OpenedRunes | cmd/freeze-checkpoint/gcp/app/root.go:208-211 | an opened note and the name of its key hold no control character, and the name is valid |
| SignedNote.OpenedIsSigned | cmd/freeze-checkpoint/gcp/app/root.go:208-211 | a note opens only with a signature line of the verifier's name and ID whose signature it accepts for exactly the returned text |
| CheckpointText.UnmarshalExactly | internal/tessera/tessera.go:211-215 | a text parses exactly if it starts with a non-empty origin, a decimal size and a base64 hash, one line each |
| CheckpointText.AcceptedExactly | pkg/verify/verify.go:42-49 | an envelope is accepted exactly if it opens to the lines of a checkpoint whose origin is the name of the verifier |
| CheckpointText.ParsedIsSigned | pkg/verify/verify.go:42-49 | an accepted checkpoint heads a text that the log's key signed and that names the log as its origin |
| CheckpointText.UnmarshalMarshal | cmd/freeze-checkpoint/gcp/app/root.go:212-216 | parsing a printed checkpoint gives it back, with the appended lines as the rest |
| CheckpointText.TwoReadingsAgree | internal/tessera/tessera.go:211-215 | parsing the whole envelope gives the checkpoint that parsing the opened text gives, with any extension lines and signatures |
| KeyId.GenConformantKeyHash | pkg/note/note.go:100-108 | the hash of name, newline, type and key, and its first four bytes |
| KeyId.KeyHash | pkg/note/note.go:141-164 | the IDs of each kind of key, and the errors of keys that cannot be marshalled or are not supported |
| KeyId.LogIdBytes | pkg/note/note.go:100-164 | the hashed strings of each kind of key in bytes, the ID as the first four bytes, and the error of each other key |
| KeyId.NotesNeed | pkg/note/note.go:167-219 | signer and verifier are made exactly for a valid name and a key with an ID, with that name and ID, or fail alike with what is missing |
| KeyId.LogIdIdentifies | pkg/note/note.go:100-137 | for Ed25519 and RSA keys, log IDs are equal exactly when origin, kind and key are equal |
| KeyId.EcdsaLogIdIgnoresOrigin | pkg/note/note.go:119-126 | two ECDSA logs have equal IDs exactly when they have equal keys, whatever their origins |
| KeyId.EcdsaLogIdIsItsOwn | pkg/note/note.go:100-137 | an ECDSA key and a key of another kind share a log ID exactly when the DER form of the one is the string hashed for the other, never so for DER forms with the curve key identifier in their first line and valid origins |
| KeyId.SignerMatchesVerifier | pkg/note/note.go:167-219 | signer and verifier of one origin and key match, and their ID is the big-endian first four bytes of the log ID |
| Verify.VerifyLogEntry | pkg/verify/verify.go:63-69 | accepts exactly the entries with a proof, an envelope that opens as a checkpoint of the verifier's origin, a non-negative index, and a path that leads from the hash of a zero byte and the body to the checkpoint's root |
| Verify.VerifyConsistencyProof | pkg/verify/verify.go:73-79 | accepts exactly an envelope that opens as a checkpoint consistent with the given size and root |
| Verify.VerifyConsistencyProofWithCheckpoints | pkg/verify/verify.go:83-89 | accepts exactly two envelopes that open as consistent checkpoints |
| Verify.LogEntrySound | pkg/verify/verify.go:30-69 | the index of an accepted entry is below the size and its body is the leaf there |
| Verify.LogEntryComplete | pkg/verify/verify.go:30-69 | an entry with the audit path of its leaf under an opened checkpoint is accepted |
| Verify.ChainIsAppendOnly | pkg/verify/verify.go:83-89 | in a chain of accepted checkpoints every version is a prefix of every later one |
| Verify.NoSplitView | pkg/verify/verify.go:63-89 | entries of one index accepted against checkpoints of one chain have one body |
| Storage.AddedEntryVerifies | internal/tessera/tessera.go:139-209 | an entry that the storage answers with is accepted by every client that opens its checkpoint, whatever tiles were read |
| Storage.AddedEntryNumbers | internal/tessera/tessera.go:139-209 | 0 <= LogIndex < TreeSize <= 2^63-1, both as sequenced and signed, with the body, root and envelope of the entry |
| Storage.BuildProofComplete | internal/tessera/tessera.go:180-209 | with the tiles of the log every proof is built, is the audit path, and passes the server's check |
| Storage.ProofNeverRejected | internal/tessera/tessera.go:197-199 | with correct or failing tile reads the verification error never occurs |
| Admission.Validate | pkg/types/verifier/verifier.go:24-42 | no error exactly for a key or a certificate with raw bytes; each error exactly for its missing field |
| Dsse.ValidateRequest | pkg/types/dsse/dsse.go:95-134 | succeeds exactly on 1 to 10 verifiers with non-empty distinct raw bytes and 1 to 10 non-empty signatures; an error is true of the request |
| Dsse.ExtractVerifiers | pkg/types/dsse/dsse.go:137-160 | succeeds exactly when all keys parse, with the key of each verifier; the default branch is not reached for valid requests |
| Dsse.KeyMapSize | pkg/types/dsse/dsse.go:137-160 | for a valid request the map has one entry per verifier |
| Dsse.FromProto | pkg/types/dsse/dsse.go:237-250 | the envelope with payload and signatures encoded, in order |
| Dsse.ToProto | pkg/types/dsse/dsse.go:253-274 | the envelope with payload and signatures decoded, or an error if one of them is not base64 |
| Dsse.EnvelopeRoundTrip | pkg/types/dsse/dsse.go:237-274 | converting an envelope without nil signatures there and back gives the envelope |
| Cover.RunRecords | pkg/types/dsse/dsse.go:192-233 | for every order, success records exactly the signatures, each for a verifier that accepts it |
| Cover.VerdictIndependence | pkg/types/dsse/dsse.go:192-231 | the verdict is the same for all orders exactly when no verifier is an error or some signature is accepted by nobody |
| Cover.RecordIndependence | pkg/types/dsse/dsse.go:192-226 | all successful orders record the same map exactly when the accepted sets leave one verifier that can be recorded for each signature |
| Cover.RecordedCan | pkg/types/dsse/dsse.go:192-226 | in every successful order, the verifier recorded for a signature is one that the accepted sets allow |
| Cover.CanBeRecorded | pkg/types/dsse/dsse.go:192-226 | each verifier that the accepted sets allow is recorded in some successful order |
| Cover.RunIndependence | pkg/types/dsse/dsse.go:192-231 | verdict and record are the same for all orders exactly when some signature is accepted by nobody, or no verifier is an error and each signature has one possible recorder |
| Cover.SharedSignatureDecides | pkg/types/dsse/dsse.go:192-226 | where the acceptors of each signature leave another one open, the record is the same for all orders exactly when no two verifiers accept the same signature |
| Cover.SingleRecordIndependence | pkg/types/dsse/dsse.go:192-226 | the same where each verifier accepts one signature |
| Cover.SharedSignatureNeedNotMatter | pkg/types/dsse/dsse.go:192-226 | a signature shared with a verifier that alone covers everything has one recorder in all orders |
| ByteOrder.Less | pkg/types/dsse/dsse.go:66-66 | exactly if after a common prefix the first string ends before the second or has the smaller byte |
| ByteOrder.Sort | pkg/types/dsse/dsse.go:62-66 | the keys of a map in strictly ascending byte order |
| ByteOrder.SortedUnique | pkg/types/dsse/dsse.go:60-66 | there is one ascending order of a set of byte strings |
| DsseEntry.CheckAlgorithms | pkg/types/dsse/dsse.go:165-183 | for every order, succeeds exactly when every verifier's key and hash pair is permitted |
| DsseEntry.TakeAccepted | pkg/types/dsse/dsse.go:218-226 | removes the accepted signatures and records the verifier under their raw bytes; decoding never fails |
| DsseEntry.VerifyEnvelopeAndSupportedAlgs | pkg/types/dsse/dsse.go:164-234 | for every order, the result of the loop of `Cover` under the policy; an error is true of keys and signatures, and never the decoding error |
| DsseEntry.ToLogEntry | pkg/types/dsse/dsse.go:45-92 | for every order, the specified entry, or where there is none an error that is true of the request |
| DsseProperties.AdmittedIsSound | pkg/types/dsse/dsse.go:45-92 | contents are exactly the raw signatures, once each and in ascending byte order, each with a request verifier that verifies it; all keys are permitted |
| DsseProperties.SameContents | pkg/types/dsse/dsse.go:60-75 | any two successful orders give the same payload hash and contents |
| DsseProperties.OrderIndependent | pkg/types/dsse/dsse.go:192-231 | if each verifier verifies one signature and no two the same, verdict and entry do not depend on the order |
| DsseProperties.VerdictOrderIndependence | pkg/types/dsse/dsse.go:192-231 | the exact condition under which the verdict on a valid request does not depend on the order |
| DsseProperties.EntryOrderIndependence | pkg/types/dsse/dsse.go:192-226 | all successful orders of a valid request with permitted keys give the same entry exactly when each signature has one possible recorder |
| DsseProperties.AdmissionOrderIndependence | pkg/types/dsse/dsse.go:192-231 | verdict and entry of such a request are the same for all orders exactly when some signature is accepted by nobody, or no verifier is an error and each signature has one possible recorder |
| DsseProperties.OneSignatureOneVerifier | pkg/types/dsse/dsse.go:192-226 | with one distinct signature, all successful orders give the same entry exactly when at most one verifier accepts it |
| DsseProperties.PermutationIndependent | pkg/types/dsse/dsse.go:45-92 | under the same condition permuting signatures and verifiers of a request changes neither verdict nor entry |
| HashedRekord.AdmittedIffAttests | pkg/types/hashedrekord/hashedrekord.go:34-129 | admitted exactly when the described entry has a permitted key that verifies the digest; an error is true of the request, and the branch without a key is not reached |
| Service.Server.CreateEntry | internal/server/service.go:77-165 | answer, counters and submitted body are those of the handler's specification |
| Service.AnswerTable | internal/server/service.go:131-164 | for an admitted request, the answer and the counters for each outcome of sequencer and tiles: duplicate, pushback, cancellation, accepted proof, rejected proof, failure |
| Service.RefusedChangesNothing | internal/server/service.go:77-164 | exactly the requests refused by read-only mode or admission submit nothing, and they change no counter; answers with an entry count one |
| Service.AdmittedIsAttested | internal/server/service.go:88-131 | every submitted body encodes an entry whose signatures verify under permitted keys |
| LogSystem.StepKeepsInv | internal/tessera/tessera.go:139-209 | every event of the running log keeps the invariant over leaves, checkpoints, requests, answers and counters |
| LogSystem.EventsAreTheHandler | internal/server/service.go:77-165 | the events of one request are the handler, cut where it waits |
| LogSystem.AnswersVerify | internal/server/service.go:131-164 | in every run each answered entry is accepted by VerifyLogEntry, is the leaf at its index, names its kind and log, and shares its index with no other answer |
| LogSystem.SubmitIsHandled | internal/server/service.go:77-132 | a new request is always taken: frozen, invalid, or waiting with its kind and body |
| LogSystem.SequenceWaiting | internal/tessera/tessera.go:168-178 | sequencing appends the body as the next leaf of its request and changes nothing else |
| LogSystem.DuplicateIsAnswered | internal/tessera/tessera.go:144-146 | a sequenced duplicate is answered with its index, whatever tiles are read, and nothing else changes |
| LogSystem.DuplicateCanBeAnswered | internal/server/service.go:140-146 | a waiting request whose body is a leaf can be sequenced as a duplicate and is then answered with that index |
| LogSystem.AbortIsAnswered | internal/server/service.go:133-139 | a failed wait is answered by its cause, and nothing else changes |
| LogSystem.RestartLosesOnlyWaiting | internal/server/service.go:63-75 | a restart loses the waiting requests and nothing that was answered, stored or counted |
| LogSystem.WaitingCanBeAnswered | internal/server/service.go:131-164 | from every state of a log that takes writes, a waiting request can be answered with an entry at the next index that clients accept |
| LogSystem.FreezeIsStored | cmd/freeze-checkpoint/gcp/app/root.go:86-106 | a freeze run on the stored checkpoint stores a frozen one of the same tree exactly if it can, else changes nothing |
| LogSystem.DuplicatesPointAtTheirBody | internal/tessera/tessera.go:139-146 | in every run the index of a duplicate answer holds the submitted body, in a leaf of another request |
| LogSystem.OneLeafPerRequest | internal/server/service.go:131-164 | in every run no request owns two leaves, an answered entry has the submitted body at its request's own leaf, and refused requests own none |
| LogSystem.AnswersAreCounted | internal/server/service.go:147-163 | in every run each counter is the number of answers of its kind, and no proof was rejected |
| LogSystem.LeavesAreAttested | internal/server/service.go:88-132 | in every run every leaf attests verified signatures under permitted keys |
| LogSystem.PublishedAreConsistent | pkg/verify/verify.go:83-89 | in every run monitors accept the proof between any two published checkpoints |
| LogSystem.FrozenStaysFrozen | internal/server/service.go:63-83 | in every run of a read-only log neither leaves nor the stored size and root change |
| LogSystem.CanPublish | internal/tessera/tessera.go:81-89 | the log key can always sign a checkpoint of the integrated tree that clients open |
| LogSystem.RespondSucceeds | internal/tessera/tessera.go:147-155 | with readable tiles a sequenced entry that is no duplicate is answered with its audit path |
| Freeze.FrozenLine | cmd/freeze-checkpoint/gcp/app/root.go:45-45 | the frozen line, character by character |
| Freeze.FrozenIffLineOccurs | cmd/freeze-checkpoint/gcp/app/root.go:203-221 | a stored checkpoint is taken for frozen exactly if the frozen line is a substring of its extension lines, else it is returned; each error exactly where opening or parsing fails |
| Freeze.UpdateCheckpoint | cmd/freeze-checkpoint/gcp/app/root.go:225-241 | signs origin, decimal size and base64 hash, one line each, followed by the frozen line with the date |
| Freeze.RunOutcomes | cmd/freeze-checkpoint/gcp/app/root.go:86-106 | each outcome of a run under its exact condition on the stored object, signer and upload, and the new object |
| Freeze.CheckpointObject.Run | cmd/freeze-checkpoint/gcp/app/root.go:86-106 | the object and the outcome of one run, and one upload exactly when it reports freezing |
| Freeze.FreezePreserves | cmd/freeze-checkpoint/gcp/app/root.go:203-241 | the written note opens, parses to the same origin, size and hash, and is recognised as frozen |
| Freeze.FreezeFailsOnlyOutside | cmd/freeze-checkpoint/gcp/app/root.go:225-241 | a run on an unfrozen checkpoint fails only where signing or uploading fails |
| Freeze.FreezeIsIdempotent | cmd/freeze-checkpoint/gcp/app/root.go:86-106 | any number of runs writes exactly once if some attempt can sign and upload the frozen form of an unfrozen checkpoint, else never; a written object is frozen, and origin, size and hash never change |
| Shutdown.StepKeepsInv | internal/server/serve.go:38-55 | every step of any goroutine, handler or signal keeps the invariant |
| Shutdown.ShutdownIsSafe | internal/server/serve.go:38-55 | the WaitGroup is never negative, no channel is closed twice, the sequencer is shut down at most once and only after all stop calls returned with no request in progress |
| Shutdown.MeasureDecreases | internal/server/grpc.go:113-134 | every step of the process uses up the measure; an arriving request adds one |
| Shutdown.Progress | internal/server/http.go:153-183 | once all servers are signalled some step is possible until the process is done |
| Shutdown.InternalStepsAreBounded | internal/server/metrics.go:183-208 | a run takes at most as many steps as the measure plus the requests that arrive |
| Shutdown.ShutdownIsReached | internal/server/serve.go:47-55 | a run that cannot go on, failures aside, after all servers were signalled has shut the sequencer down once or exited on an error |
| Shutdown.OneSignalSuffices | internal/server/grpc.go:113-134 | one signal reaches all servers exactly when all have registered for it, and ends the process exactly when none has |
| Shutdown.DrainingStillServes | internal/server/http.go:153-183 | requests arrive until the stop call has returned, which waits for them too |
| Shutdown.OneMoreSignalEnds | internal/server/serve.go:38-55 | from every state that has not exited, at most one more signal can lead to an orderly end with one sequencer shutdown |
| Shutdown.UnsignalledNeverShutsDown | internal/server/serve.go:47-55 | while a server is not signalled, no run without a further signal shuts the sequencer down |
| Shutdown.ShutdownExactly | internal/server/serve.go:38-55 | without further signals, all runs that cannot go on have ended properly if and only if all servers are signalled |
| Shutdown.EarlySignalIsNotEnough | internal/server/serve.go:38-55 | a signal between two registrations is reachable and can leave the process waiting |

## Left out

- Generated protobuf, gateway and OpenAPI code: messages are plain datatypes.
- Cloud drivers, key management and TLS: wiring of other libraries.
- The inside of SHA-256, signature schemes, X.509 and DER parsing: the hash is a parameter, verification a predicate, key parsing a partial function.
- The algorithm registry: the permitted check is a predicate that may also fail.
- The JSON canonicalizer and protojson: together one encoding of an entry that may fail.
- The sequencer, the antispam stores and the awaiter: only index, duplicate flag and covering checkpoint.
- `VerifyWitnessedCheckpoint` and notes opened with several known verifiers: notes are opened with the key of the log; other signatures on them are read and skipped.
- `otelShutdown` and the request and metric plumbing around the servers.
- Old extension lines and cosignatures under freezing: the tool rewrites only origin, size and hash.
- ByteOrder.Sort: sorts a sequence by insertion and not an array in place; the order of the result is what matters to the entry.
- Service.Server.CreateEntry: a tile read that fails because the request was cancelled is answered as a failure and not as a cancelled request; response headers are not modelled.
- Freeze.FreezePreserves: the date is any visible ASCII text, of which the printed dates are instances.
- Shutdown.Progress: request handlers are taken to end, so a stop call returns once no request is in progress.
- LogSystem.AnswersVerify: log indices below 2^64 - 1 only, the range of the sequencer's counter.
