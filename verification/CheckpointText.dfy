/**
 Checkpoints as text (C2SP tlog-checkpoint, "Note text"): origin, decimal tree size and
 base64 root hash, one line each, then any extension lines.
 */
module CheckpointText {
  import opened Bytes
  import opened SignedNote
  import Base64
  import Decimal

  datatype Checkpoint = Checkpoint(origin: bytes, size: nat, hash: bytes)

  datatype Parsed = Parsed(checkpoint: Checkpoint, rest: bytes)

  datatype CheckpointError = BadNote(e: NoteError) | BadText | WrongOrigin

  function Marshal(c: Checkpoint): bytes {
    c.origin + [LF] + Decimal.Print(c.size) + [LF] + Base64.Encode(c.hash) + [LF]
  }

  /** Reads the three lines that every checkpoint starts with, whatever follows them. */
  function Unmarshal(data: bytes): (r: Option<Parsed>)
    ensures r.Some? ==> r.value.checkpoint.size < Decimal.TWO64
  {
    match NextLine(data)
    case None => None
    case Some(first) =>
      match NextLine(first.after)
      case None => None
      case Some(second) =>
        match NextLine(second.after)
        case None => None
        case Some(third) => FromLines(first.before, second.before, third.before, third.after)
  }

  function FromLines(origin: bytes, size: bytes, hash: bytes, rest: bytes): (r: Option<Parsed>)
    ensures r.Some? ==> r.value.checkpoint.size < Decimal.TWO64
  {
    match (Decimal.ParseUint(size), Base64.Decode(hash))
    case (Some(n), Some(h)) => if origin == [] then None else Some(Parsed(Checkpoint(origin, n, h), rest))
    case _ => None
  }

  /** Opens a signed checkpoint with the key of a log and checks its origin line. */
  function ParseCheckpoint(envelope: bytes, v: Verifier): Result<Checkpoint, CheckpointError> {
    match Open(envelope, v)
    case Err(e) => Err(BadNote(e))
    case Ok(text) =>
      match Unmarshal(text)
      case None => Err(BadText)
      case Some(p) => if p.checkpoint.origin == v.name then Ok(p.checkpoint) else Err(WrongOrigin)
  }

  ghost predicate IsPrintable(c: Checkpoint) {
    c.origin != [] && LF !in c.origin && c.size < Decimal.TWO64
  }

  lemma NumeralHasNoLF(s: bytes)
    requires Decimal.IsNumeral(s)
    ensures LF !in s
  {
  }

  /** Printing then parsing gives the checkpoint back, with whatever was appended to the text. */
  lemma UnmarshalMarshal(c: Checkpoint, rest: bytes)
    requires IsPrintable(c)
    ensures Unmarshal(Marshal(c) + rest) == Some(Parsed(c, rest))
  {
    hide NextLine, Decimal.Print, Decimal.ParseUint, Decimal.IsNumeral, Base64.Encode, Base64.Decode;
    var size, hash := Decimal.Print(c.size), Base64.Encode(c.hash);
    var after1 := size + [LF] + hash + [LF] + rest;
    var after2 := hash + [LF] + rest;
    assert Marshal(c) + rest == c.origin + [LF] + after1;
    assert after1 == size + [LF] + after2;
    NumeralHasNoLF(size);
    Base64.EncodeIsText(c.hash);
    TextHasNo(hash, LF);
    NextLineOf(c.origin, after1);
    NextLineOf(size, after2);
    NextLineOf(hash, rest);
    Decimal.RoundTrip(c.size);
    Base64.RoundTrip(c.hash);
  }

  /** The lines of a checkpoint: origin, a decimal number, base64, and whatever follows. */
  ghost predicate AreLines(data: bytes, c: Checkpoint, rest: bytes, size: bytes, hash: bytes) {
    && data == c.origin + [LF] + size + [LF] + hash + [LF] + rest
    && c.origin != [] && LF !in c.origin && LF !in size && LF !in hash
    && Decimal.ParseUint(size) == Some(c.size) && Base64.Decode(hash) == Some(c.hash)
  }

  /** Exactly the texts that start with three such lines parse, and as what these lines say. */
  lemma UnmarshalExactly(data: bytes, c: Checkpoint, rest: bytes)
    ensures Unmarshal(data) == Some(Parsed(c, rest)) <==> exists size, hash :: AreLines(data, c, rest, size, hash)
  {
    hide NextLine, Decimal.ParseUint, Base64.Decode;
    if Unmarshal(data) == Some(Parsed(c, rest)) {
      var first := NextLine(data).value;
      var second := NextLine(first.after).value;
      var third := NextLine(second.after).value;
      assert data == c.origin + [LF] + second.before + [LF] + third.before + [LF] + rest;
      assert AreLines(data, c, rest, second.before, third.before);
    }
    if exists size, hash :: AreLines(data, c, rest, size, hash) {
      var size, hash :| AreLines(data, c, rest, size, hash);
      var after1 := size + [LF] + hash + [LF] + rest;
      var after2 := hash + [LF] + rest;
      assert data == c.origin + [LF] + after1 && after1 == size + [LF] + after2;
      NextLineOf(c.origin, after1);
      NextLineOf(size, after2);
      NextLineOf(hash, rest);
    }
  }

  /** An envelope is accepted for a log, as c, exactly when it opens to the lines of c and c names the log as its origin. */
  lemma AcceptedExactly(envelope: bytes, v: Verifier, c: Checkpoint)
    ensures ParseCheckpoint(envelope, v) == Ok(c) <==>
              && Open(envelope, v).Ok? && c.origin == v.name
              && exists rest, size, hash :: AreLines(Open(envelope, v).value, c, rest, size, hash)
  {
    hide Open, Unmarshal, AreLines;
    if Open(envelope, v).Ok? {
      var text := Open(envelope, v).value;
      if Unmarshal(text).Some? {
        var p := Unmarshal(text).value;
        UnmarshalExactly(text, p.checkpoint, p.rest);
      }
      if exists rest, size, hash :: AreLines(text, c, rest, size, hash) {
        var rest, size, hash :| AreLines(text, c, rest, size, hash);
        UnmarshalExactly(text, c, rest);
      }
    }
  }

  lemma UnmarshalLines(data: bytes) returns (size: bytes, hash: bytes)
    requires Unmarshal(data).Some?
    ensures var p := Unmarshal(data).value;
            && data == p.checkpoint.origin + [LF] + size + [LF] + hash + [LF] + p.rest
            && IsPrintable(p.checkpoint)
  {
    hide NextLine, Decimal.IsNumeral, Decimal.Value, Base64.Decode;
    var first := NextLine(data).value;
    var second := NextLine(first.after).value;
    var third := NextLine(second.after).value;
    size, hash := second.before, third.before;
  }

  /** Appending to a checkpoint text changes nothing but the rest. */
  lemma UnmarshalExtend(data: bytes, tail: bytes)
    requires Unmarshal(data).Some?
    ensures var p := Unmarshal(data).value; Unmarshal(data + tail) == Some(Parsed(p.checkpoint, p.rest + tail))
  {
    hide NextLine, Decimal.ParseUint, Base64.Decode;
    var first := NextLine(data).value;
    NextLineExtend(data, tail);
    var second := NextLine(first.after).value;
    NextLineExtend(first.after, tail);
    NextLineExtend(second.after, tail);
  }

  /**
   The server parses the signed envelope as it is; a client parses the text of the opened note.
   Whenever the client's reading succeeds, the server's gives the same checkpoint.
   */
  lemma TwoReadingsAgree(envelope: bytes, v: Verifier)
    requires Open(envelope, v).Ok? && Unmarshal(Open(envelope, v).value).Some?
    ensures Unmarshal(envelope).Some?
    ensures Unmarshal(envelope).value.checkpoint == Unmarshal(Open(envelope, v).value).value.checkpoint
  {
    hide Open, Unmarshal;
    var text := Open(envelope, v).value;
    assert envelope == text + envelope[|text|..];
    UnmarshalExtend(text, envelope[|text|..]);
  }

  /**
   A checkpoint that is accepted for a log was signed by the key of the log, as the first lines of a
   text that names the log as its origin.
   */
  lemma ParsedIsSigned(envelope: bytes, v: Verifier) returns (text: bytes, sig: bytes)
    requires ParseCheckpoint(envelope, v).Ok?
    ensures v.verify(text, sig) && text <= envelope
    ensures Unmarshal(text).Some? && Unmarshal(text).value.checkpoint == ParseCheckpoint(envelope, v).value
    ensures ParseCheckpoint(envelope, v).value.origin == v.name
  {
    hide Open, Unmarshal, ParseSignature;
    text := Open(envelope, v).value;
    var line := OpenedIsSigned(envelope, v);
    sig := ParseSignature(line).value.sig;
  }
}
