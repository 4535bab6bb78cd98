/** The freeze tool: re-signs the stored checkpoint with a line that says the log is frozen. */
module Freeze {
  import opened Bytes
  import opened SignedNote
  import opened CheckpointText
  import opened Utf8
  import Base64
  import Decimal

  /** "Log frozen — " */
  const FROZEN: bytes := [76, 111, 103, 32, 102, 114, 111, 122, 101, 110, 32] + DASH + [SPACE]

  predicate Contains(s: bytes, sub: bytes) {
    sub <= s || (s != [] && Contains(s[1..], sub))
  }

  /** The line as the repository spells it, in UTF-8: eleven ASCII characters, an em dash and a space. */
  lemma FrozenLine()
    ensures |FROZEN| == 15 && FROZEN[11..] == EncodeRune(0x2014) + [32]
    ensures forall i :: 0 <= i < 11 ==> FROZEN[i] as int == "Log frozen "[i] as int
  {
    assert FROZEN[..11] == [76, 111, 103, 32, 102, 114, 111, 122, 101, 110, 32];
    var text := "Log frozen ";
    assert text[0] == 'L' && text[1] == 'o' && text[2] == 'g' && text[3] == ' ' && text[4] == 'f' && text[5] == 'r';
    assert text[6] == 'o' && text[7] == 'z' && text[8] == 'e' && text[9] == 'n' && text[10] == ' ';
  }

  ghost predicate OccursAt(s: bytes, sub: bytes, i: nat) {
    i + |sub| <= |s| && s[i..i + |sub|] == sub
  }

  ghost predicate Occurs(s: bytes, sub: bytes) {
    exists i: nat :: OccursAt(s, sub, i)
  }

  lemma OccursAtShift(s: bytes, sub: bytes, i: nat)
    ensures OccursAt(s, sub, 0) <==> sub <= s
    ensures s != [] ==> (OccursAt(s, sub, i + 1) <==> OccursAt(s[1..], sub, i))
  {
    if s != [] && i + 1 + |sub| <= |s| {
      assert s[1..][i..i + |sub|] == s[i + 1..i + 1 + |sub|];
    }
  }

  /** The search finds exactly the substrings. */
  lemma {:induction false} ContainsIffOccurs(s: bytes, sub: bytes)
    ensures Contains(s, sub) <==> Occurs(s, sub)
  {
    hide OccursAt;
    OccursAtShift(s, sub, 0);
    if s != [] {
      ContainsIffOccurs(s[1..], sub);
      forall i: nat ensures OccursAt(s, sub, i + 1) <==> OccursAt(s[1..], sub, i) {
        OccursAtShift(s, sub, i);
      }
    }
    if i: nat :| OccursAt(s, sub, i) {
      OccursAtNatural(s, sub, i);
      assert i > 0 ==> OccursAt(s[1..], sub, i - 1);
    }
    if s != [] && Occurs(s[1..], sub) {
      var i: nat :| OccursAt(s[1..], sub, i);
      assert OccursAt(s, sub, i + 1);
    }
  }

  lemma OccursAtNatural(s: bytes, sub: bytes, i: nat)
    requires OccursAt(s, sub, i)
    ensures i > 0 ==> s != []
  {
  }

  datatype FreezeError = OpenFailed(e: NoteError) | ParseFailed | SignFailed(s: NoteError) | WriteFailed

  datatype Outcome = AlreadyFrozen | Frozen | Failed(e: FreezeError)

  /** The stored checkpoint, or none if its extension lines already say that the log is frozen. */
  function GetCheckpoint(raw: bytes, v: Verifier): Result<Option<Checkpoint>, FreezeError> {
    match Open(raw, v)
    case Err(e) => Err(OpenFailed(e))
    case Ok(text) =>
      match Unmarshal(text)
      case None => Err(ParseFailed)
      case Some(p) => if Contains(p.rest, FROZEN) then Ok(None) else Ok(Some(p.checkpoint))
  }

  /** The stored object opens with the key of the log and starts with the lines of a checkpoint. */
  ghost predicate IsStored(content: bytes, v: Verifier) {
    Open(content, v).Ok? && Unmarshal(Open(content, v).value).Some?
  }

  ghost function Stored(content: bytes, v: Verifier): Checkpoint
    requires IsStored(content, v)
  {
    Unmarshal(Open(content, v).value).value.checkpoint
  }

  /** The extension lines of the stored checkpoint hold the frozen line somewhere. */
  ghost predicate IsFrozen(content: bytes, v: Verifier)
    requires IsStored(content, v)
  {
    Occurs(Unmarshal(Open(content, v).value).value.rest, FROZEN)
  }

  /** The tool takes a checkpoint for frozen exactly when the frozen line occurs among its extension lines. */
  lemma FrozenIffLineOccurs(content: bytes, v: Verifier)
    ensures Open(content, v).Err? ==> GetCheckpoint(content, v) == Err(OpenFailed(Open(content, v).error))
    ensures Open(content, v).Ok? && Unmarshal(Open(content, v).value).None? ==> GetCheckpoint(content, v) == Err(ParseFailed)
    ensures IsStored(content, v) ==>
              GetCheckpoint(content, v) == Ok(if IsFrozen(content, v) then None else Some(Stored(content, v)))
  {
    hide Open, Unmarshal, Contains, Occurs;
    if IsStored(content, v) {
      ContainsIffOccurs(Unmarshal(Open(content, v).value).value.rest, FROZEN);
    }
  }

  function FrozenText(c: Checkpoint, clock: bytes): bytes {
    Marshal(c) + FROZEN + clock + [LF]
  }

  /** The date as time.UnixDate prints it: visible ASCII characters and spaces. */
  ghost predicate IsClockText(clock: bytes) {
    forall i :: 0 <= i < |clock| ==> 32 <= clock[i] < 127
  }

  /** Builds the text in a buffer and signs it. */
  method UpdateCheckpoint(s: Signer, c: Checkpoint, clock: bytes) returns (r: Result<bytes, NoteError>)
    requires s.hash < 0x1_0000_0000
    ensures r == Sign(c.origin + [LF] + Decimal.Print(c.size) + [LF] + Base64.Encode(c.hash) + [LF] + FROZEN + clock + [LF], s)
  {
    var buf := Marshal(c);
    buf := buf + FROZEN;
    buf := buf + clock;
    buf := buf + [LF];
    r := Sign(buf, s);
  }

  /** What one run leaves in the bucket, and what it reports. */
  datatype RunResult = RunResult(content: bytes, outcome: Outcome)

  function RunSpec(content: bytes, s: Signer, v: Verifier, clock: bytes, writable: bool): RunResult
    requires s.hash < 0x1_0000_0000
  {
    match GetCheckpoint(content, v)
    case Err(e) => RunResult(content, Failed(e))
    case Ok(None) => RunResult(content, AlreadyFrozen)
    case Ok(Some(c)) =>
      match Sign(FrozenText(c, clock), s)
      case Err(e) => RunResult(content, Failed(SignFailed(e)))
      case Ok(signed) =>
        if writable then RunResult(signed, Outcome.Frozen) else RunResult(content, Failed(WriteFailed))
  }

  /** The checkpoint object of the bucket. An upload replaces the object when it is closed, or not at all. */
  class CheckpointObject {
    var content: bytes
    var uploads: nat

    constructor (content: bytes)
      ensures this.content == content && uploads == 0
    {
      this.content := content;
      uploads := 0;
    }

    method Run(s: Signer, v: Verifier, clock: bytes, writable: bool) returns (outcome: Outcome)
      requires s.hash < 0x1_0000_0000
      modifies this
      ensures RunResult(content, outcome) == RunSpec(old(content), s, v, clock, writable)
      ensures uploads == old(uploads) + if outcome.Frozen? then 1 else 0
    {
      var checkpoint := GetCheckpoint(content, v);
      match checkpoint
      case Err(e) => return Failed(e);
      case Ok(None) => return AlreadyFrozen;
      case Ok(Some(c)) =>
        var signed := UpdateCheckpoint(s, c, clock);
        match signed {
          case Err(e) => return Failed(SignFailed(e));
          case Ok(text) =>
            if !writable {
              return Failed(WriteFailed);
            }
            content := text;
            uploads := uploads + 1;
            return Outcome.Frozen;
        }
    }
  }

  /**
   What a run does, in terms of the stored object: each outcome under exactly one condition, and
   the object is replaced, by the signed checkpoint with the frozen line, only when it reports so.
   */
  lemma RunOutcomes(content: bytes, s: Signer, v: Verifier, clock: bytes, writable: bool)
    requires s.hash < 0x1_0000_0000
    ensures var r := RunSpec(content, s, v, clock, writable);
            && (r.outcome == AlreadyFrozen <==> IsStored(content, v) && IsFrozen(content, v))
            && (r.outcome == Failed(ParseFailed) <==> Open(content, v).Ok? && !IsStored(content, v))
            && (forall e :: r.outcome == Failed(OpenFailed(e)) <==> Open(content, v) == Err(e))
            && (!r.outcome.Frozen? ==> r.content == content)
            && (IsStored(content, v) && !IsFrozen(content, v) ==>
                  var signed := Sign(FrozenText(Stored(content, v), clock), s);
                  r == if signed.Err? then RunResult(content, Failed(SignFailed(signed.error)))
                       else if !writable then RunResult(content, Failed(WriteFailed))
                       else RunResult(signed.value, Outcome.Frozen))
  {
    hide Open, Unmarshal, Sign, Contains, FrozenText, Occurs, GetCheckpoint;
    FrozenIffLineOccurs(content, v);
  }

  // ----- the rewritten checkpoint

  lemma ContainsPrefix(s: bytes, sub: bytes)
    requires sub <= s
    ensures Contains(s, sub)
  {
  }

  lemma FrozenTextIsText(c: Checkpoint, clock: bytes)
    requires IsPrintable(c) && AllRunes(c.origin, TextRune) && IsClockText(clock)
    ensures AllRunes(FrozenText(c, clock), TextRune)
    ensures FrozenText(c, clock) != [] && Last(FrozenText(c, clock)) == LF
  {
    hide AllRunes, Decimal.Print, Base64.Encode;
    var head: bytes := [LF] + Decimal.Print(c.size) + [LF] + Base64.Encode(c.hash) + [LF] + FROZEN[..11];
    var tail: bytes := clock + [LF];
    Base64.EncodeIsText(c.hash);
    AsciiText(head);
    AsciiText(tail);
    DashIsText();
    AllRunesConcat(c.origin, head, TextRune);
    AllRunesConcat(c.origin + head, DASH + [SPACE], TextRune);
    AllRunesConcat(c.origin + head + (DASH + [SPACE]), tail, TextRune);
    assert FROZEN == FROZEN[..11] + (DASH + [SPACE]);
    assert FrozenText(c, clock) == c.origin + head + (DASH + [SPACE]) + tail;
  }

  /** The text of a checkpoint, without extension lines, can be signed and opened. */
  lemma MarshalIsText(c: Checkpoint)
    requires IsPrintable(c) && AllRunes(c.origin, TextRune)
    ensures AllRunes(Marshal(c), TextRune) && Marshal(c) != [] && Last(Marshal(c)) == LF
  {
    hide AllRunes, Decimal.Print, Base64.Encode;
    var tail: bytes := [LF] + Decimal.Print(c.size) + [LF] + Base64.Encode(c.hash) + [LF];
    Base64.EncodeIsText(c.hash);
    AsciiText(tail);
    AllRunesConcat(c.origin, tail, TextRune);
    assert Marshal(c) == c.origin + tail;
  }

  lemma FrozenTextParses(c: Checkpoint, clock: bytes)
    requires IsPrintable(c)
    ensures Unmarshal(FrozenText(c, clock)) == Some(Parsed(c, FROZEN + clock + [LF]))
    ensures Contains(FROZEN + clock + [LF], FROZEN)
  {
    hide Unmarshal, Marshal, Contains;
    assert FrozenText(c, clock) == Marshal(c) + (FROZEN + clock + [LF]);
    UnmarshalMarshal(c, FROZEN + clock + [LF]);
    ContainsPrefix(FROZEN + clock + [LF], FROZEN);
  }

  /**
   Freezing preserves and marks: for every unfrozen checkpoint that the log's key signed and
   every date, the note that is written opens with the same key, parses to the same origin,
   size and hash, and is recognised as frozen.
   */
  lemma FreezePreserves(content: bytes, s: Signer, v: Verifier, clock: bytes)
    requires KeyPair(s, v) && IsClockText(clock)
    requires RunSpec(content, s, v, clock, true).outcome.Frozen?
    ensures IsStored(content, v) && !IsFrozen(content, v)
    ensures var c, written := Stored(content, v), RunSpec(content, s, v, clock, true).content;
            && Open(written, v) == Ok(FrozenText(c, clock))
            && Unmarshal(Open(written, v).value) == Some(Parsed(c, FROZEN + clock + [LF]))
            && Unmarshal(written).Some? && Unmarshal(written).value.checkpoint == c
            && IsStored(written, v) && IsFrozen(written, v) && GetCheckpoint(written, v) == Ok(None)
  {
    hide Open, Sign, Unmarshal, AllRunes, Contains, FrozenText, IsPrintable, Occurs;
    FrozenIffLineOccurs(content, v);
    FrozenIffLineOccurs(RunSpec(content, s, v, clock, true).content, v);
    var c := Stored(content, v);
    var text := Open(content, v).value;
    OpenedRunes(content, v);
    OriginIsText(text);
    FrozenTextIsText(c, clock);
    OpenSigned(FrozenText(c, clock), s, v);
    FrozenTextParses(c, clock);
    TwoReadingsAgree(RunSpec(content, s, v, clock, true).content, v);
  }

  lemma OriginIsText(text: bytes)
    requires Unmarshal(text).Some? && AllRunes(text, TextRune)
    ensures var c := Unmarshal(text).value.checkpoint; IsPrintable(c) && AllRunes(c.origin, TextRune)
  {
    hide AllRunes, Unmarshal;
    var size, hash := UnmarshalLines(text);
    var p := Unmarshal(text).value;
    assert text == p.checkpoint.origin + [LF] + (size + [LF] + hash + [LF] + p.rest);
    AllRunesSplit(p.checkpoint.origin, LF, size + [LF] + hash + [LF] + p.rest, TextRune);
  }

  /** A freeze run fails only because it cannot sign or write: the text it builds is always signable. */
  lemma FreezeFailsOnlyOutside(content: bytes, s: Signer, v: Verifier, clock: bytes)
    requires KeyPair(s, v) && IsClockText(clock)
    requires IsStored(content, v) && !IsFrozen(content, v)
    ensures RunSpec(content, s, v, clock, true).outcome.Frozen? <==> s.sign(FrozenText(Stored(content, v), clock)).Some?
  {
    hide Open, Unmarshal, AllRunes, Contains, FrozenText, IsValidName, IsPrintable, Occurs;
    FrozenIffLineOccurs(content, v);
    OpenedRunes(content, v);
    OriginIsText(Open(content, v).value);
    FrozenTextIsText(Stored(content, v), clock);
  }

  // ----- any number of runs

  datatype Attempt = Attempt(clock: bytes, writable: bool)

  /** The object after a sequence of runs of the tool, and how often it was written. */
  datatype History = History(content: bytes, uploads: nat)

  function Runs(content: bytes, s: Signer, v: Verifier, attempts: seq<Attempt>): History
    requires s.hash < 0x1_0000_0000
  {
    if attempts == [] then History(content, 0)
    else
      var before := Runs(content, s, v, Init(attempts));
      var r := RunSpec(before.content, s, v, Last(attempts).clock, Last(attempts).writable);
      History(r.content, before.uploads + if r.outcome.Frozen? then 1 else 0)
  }

  lemma RunsStep(content: bytes, s: Signer, v: Verifier, attempts: seq<Attempt>)
    requires s.hash < 0x1_0000_0000
    ensures attempts == [] ==> Runs(content, s, v, attempts) == History(content, 0)
    ensures attempts != [] ==>
              var before := Runs(content, s, v, Init(attempts));
              var r := RunSpec(before.content, s, v, Last(attempts).clock, Last(attempts).writable);
              Runs(content, s, v, attempts) == History(r.content, before.uploads + if r.outcome.Frozen? then 1 else 0)
  {
  }

  /** Two stored objects that read as the same tree, in both readings of a checkpoint. */
  ghost predicate SameTree(a: bytes, b: bytes, v: Verifier) {
    && Open(a, v).Ok? && Open(b, v).Ok?
    && Unmarshal(Open(a, v).value).Some? && Unmarshal(Open(b, v).value).Some?
    && Unmarshal(Open(a, v).value).value.checkpoint == Unmarshal(Open(b, v).value).value.checkpoint
  }

  /** The attempt can sign and upload the frozen form of an unfrozen stored checkpoint. */
  ghost predicate CanFreeze(content: bytes, s: Signer, v: Verifier, a: Attempt) {
    && IsStored(content, v) && !IsFrozen(content, v)
    && a.writable && s.sign(FrozenText(Stored(content, v), a.clock)).Some?
  }

  ghost predicate SomeCanFreeze(content: bytes, s: Signer, v: Verifier, attempts: seq<Attempt>) {
    exists i :: 0 <= i < |attempts| && CanFreeze(content, s, v, attempts[i])
  }

  lemma SomeCanFreezeStep(content: bytes, s: Signer, v: Verifier, attempts: seq<Attempt>)
    requires attempts != []
    ensures SomeCanFreeze(content, s, v, attempts)
       <==> SomeCanFreeze(content, s, v, Init(attempts)) || CanFreeze(content, s, v, Last(attempts))
  {
    hide CanFreeze;
    if SomeCanFreeze(content, s, v, Init(attempts)) {
      var i :| 0 <= i < |Init(attempts)| && CanFreeze(content, s, v, Init(attempts)[i]);
      assert attempts[i] == Init(attempts)[i];
    }
    if SomeCanFreeze(content, s, v, attempts) && !CanFreeze(content, s, v, Last(attempts)) {
      var i :| 0 <= i < |attempts| && CanFreeze(content, s, v, attempts[i]);
      assert attempts[i] == Init(attempts)[i];
    }
  }

  lemma RunKeepsTree(content: bytes, s: Signer, v: Verifier, a: Attempt)
    requires KeyPair(s, v) && GetCheckpoint(content, v).Ok? && IsClockText(a.clock)
    ensures var r := RunSpec(content, s, v, a.clock, a.writable);
            && SameTree(content, r.content, v)
            && (r.outcome.Frozen? ==> GetCheckpoint(content, v).value.Some? && GetCheckpoint(r.content, v) == Ok(None))
            && (!r.outcome.Frozen? ==> r.content == content)
            && (r.outcome.Frozen? <==> CanFreeze(content, s, v, a))
  {
    hide Open, Sign, Unmarshal, Contains, FrozenText, IsClockText, Occurs;
    FrozenIffLineOccurs(content, v);
    if CanFreeze(content, s, v, a) {
      FreezeFailsOnlyOutside(content, s, v, a.clock);
    }
    if RunSpec(content, s, v, a.clock, a.writable).outcome.Frozen? {
      FreezeFailsOnlyOutside(content, s, v, a.clock);
      FreezePreserves(content, s, v, a.clock);
    }
  }

  /** One run: it freezes exactly if it can, and then stores a frozen checkpoint of the same origin, size and hash. */
  lemma RunStores(content: bytes, s: Signer, v: Verifier, a: Attempt)
    requires KeyPair(s, v) && IsStored(content, v) && IsClockText(a.clock)
    ensures var r := RunSpec(content, s, v, a.clock, a.writable);
            && (r.outcome.Frozen? <==> CanFreeze(content, s, v, a))
            && IsStored(r.content, v) && Stored(r.content, v) == Stored(content, v)
            && (r.outcome.Frozen? ==> IsFrozen(r.content, v)) && (!r.outcome.Frozen? ==> r.content == content)
  {
    assert s.hash < 0x1_0000_0000;
    hide Open, Unmarshal, Occurs, GetCheckpoint, RunSpec, IsClockText, KeyPair, CanFreeze;
    FrozenIffLineOccurs(content, v);
    RunKeepsTree(content, s, v, a);
    FrozenIffLineOccurs(RunSpec(content, s, v, a.clock, a.writable).content, v);
  }

  lemma FrozenCannotFreeze(content: bytes, s: Signer, v: Verifier, a: Attempt)
    requires GetCheckpoint(content, v) == Ok(None)
    ensures !CanFreeze(content, s, v, a)
  {
    hide GetCheckpoint, Open, Unmarshal, Occurs;
    FrozenIffLineOccurs(content, v);
  }

  lemma SameTreeTransitive(a: bytes, b: bytes, c: bytes, v: Verifier)
    requires SameTree(a, b, v) && SameTree(b, c, v)
    ensures SameTree(a, c, v)
  {
    hide Open, Unmarshal;
  }

  lemma SameTreeReflexive(a: bytes, v: Verifier)
    requires GetCheckpoint(a, v).Ok?
    ensures SameTree(a, a, v)
  {
    hide Open, Unmarshal;
  }

  /**
   However often the tool runs, and whichever uploads fail, the object is written once if some
   attempt can freeze the stored checkpoint and never if none can; a written object is frozen, and
   the origin, size and hash never change.
   */
  lemma FreezeIsIdempotent(content: bytes, s: Signer, v: Verifier, attempts: seq<Attempt>)
    requires KeyPair(s, v) && IsStored(content, v)
    requires forall i :: 0 <= i < |attempts| ==> IsClockText(attempts[i].clock)
    ensures var end := Runs(content, s, v, attempts);
            && end.uploads == (if SomeCanFreeze(content, s, v, attempts) then 1 else 0)
            && (end.uploads == 0 ==> end.content == content)
            && IsStored(end.content, v) && Stored(end.content, v) == Stored(content, v)
            && (end.uploads == 1 ==> !IsFrozen(content, v) && IsFrozen(end.content, v))
  {
    assert s.hash < 0x1_0000_0000;
    hide Runs, GetCheckpoint, Open, Unmarshal, Occurs, KeyPair, IsClockText, SomeCanFreeze;
    FrozenIffLineOccurs(content, v);
    FreezeRuns(content, s, v, attempts);
    FrozenIffLineOccurs(Runs(content, s, v, attempts).content, v);
  }

  lemma {:induction false} FreezeRuns(content: bytes, s: Signer, v: Verifier, attempts: seq<Attempt>)
    requires KeyPair(s, v) && GetCheckpoint(content, v).Ok?
    requires forall i :: 0 <= i < |attempts| ==> IsClockText(attempts[i].clock)
    ensures var end := Runs(content, s, v, attempts);
            && end.uploads == (if SomeCanFreeze(content, s, v, attempts) then 1 else 0)
            && (end.uploads == 0 ==> end.content == content)
            && (end.uploads == 1 ==> GetCheckpoint(content, v).value.Some? && GetCheckpoint(end.content, v) == Ok(None))
            && SameTree(content, end.content, v)
    decreases |attempts|
  {
    assert s.hash < 0x1_0000_0000;
    hide Runs, RunSpec, GetCheckpoint, SameTree, KeyPair, IsClockText, CanFreeze, SomeCanFreeze;
    RunsStep(content, s, v, attempts);
    if attempts == [] {
      SameTreeReflexive(content, v);
    } else {
      FreezeRuns(content, s, v, Init(attempts));
      var before, last := Runs(content, s, v, Init(attempts)), Last(attempts);
      RunKeepsTree(before.content, s, v, last);
      SomeCanFreezeStep(content, s, v, attempts);
      if before.uploads == 1 {
        FrozenCannotFreeze(before.content, s, v, last);
      }
      SameTreeTransitive(content, before.content, Runs(content, s, v, attempts).content, v);
    }
  }
}
