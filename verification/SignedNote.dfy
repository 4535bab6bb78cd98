/**
 Signed notes (C2SP signed-note): a text, a blank line, and one line per signature with the
 key name, the four-byte key ID and the signature. Notes are opened with one known verifier,
 as the freeze tool and the checkpoint verifier do.
 */
module SignedNote {
  import opened Bytes
  import opened Utf8
  import Base64

  const SPACE: byte := 32
  const PLUS: byte := 43
  /** An em dash in UTF-8. */
  const DASH: bytes := [0xE2, 0x80, 0x94]
  const MAX_SIGNATURES := 100

  datatype Verifier = Verifier(name: bytes, hash: nat, verify: (bytes, bytes) -> bool)

  datatype Signer = Signer(name: bytes, hash: nat, sign: bytes -> Option<bytes>)

  datatype Signature = Signature(name: bytes, hash: nat, sig: bytes)

  datatype NoteError = Malformed | InvalidSignature | UnverifiedNote | InvalidSigner | SigningFailed

  // ----- names and text

  /** unicode.IsSpace. */
  predicate IsSpace(r: nat) {
    9 <= r <= 13 || r == 0x20 || r == 0x85 || r == 0xA0 || r == 0x1680 || 0x2000 <= r <= 0x200A
    || r == 0x2028 || r == 0x2029 || r == 0x202F || r == 0x205F || r == 0x3000
  }

  predicate NotSpace(r: nat) { !IsSpace(r) }

  /** A code point that a note may contain: no control character but the newline. */
  predicate TextRune(r: nat) { r >= 0x20 || r == 10 }

  predicate IsValidName(name: bytes) {
    name != [] && AllRunes(name, NotSpace) && PLUS !in name
  }

  /** The code points with the property White_Space of the Unicode standard. */
  const WHITE_SPACE: set<nat> :=
    {9, 10, 11, 12, 13, 0x20, 0x85, 0xA0, 0x1680, 0x2000, 0x2001, 0x2002, 0x2003, 0x2004, 0x2005, 0x2006, 0x2007, 0x2008,
     0x2009, 0x200A, 0x2028, 0x2029, 0x202F, 0x205F, 0x3000}

  predicate NameRune(r: nat) { r !in WHITE_SPACE && r != 43 }

  lemma SpaceIsWhiteSpace(r: nat)
    ensures IsSpace(r) <==> r in WHITE_SPACE
  {
  }

  lemma {:induction false} NameRunes(name: bytes)
    ensures AllRunes(name, NotSpace) && PLUS !in name <==> AllRunes(name, NameRune)
    decreases |name|
  {
    hide IsSpace, RuneLength, Rune;
    if name != [] && RuneLength(name) > 0 {
      var n := RuneLength(name);
      SpaceIsWhiteSpace(Rune(name));
      NameRunes(name[n..]);
      PlusIsItsRune(name);
      assert name == name[..n] + name[n..];
    }
  }

  lemma PlusIsItsRune(name: bytes)
    requires RuneLength(name) > 0
    ensures PLUS in name[..RuneLength(name)] <==> Rune(name) == PLUS as int
  {
    if Rune(name) == PLUS as int {
      assert RuneLength(name) == 1 && name[..1] == [PLUS];
    }
  }

  /** The valid names are the UTF-8 encodings of code points other than white space and the plus sign, at least one. */
  lemma ValidNamesExactly(name: bytes)
    ensures IsValidName(name) <==> name != [] && exists rs :: AreRunes(rs, NameRune) && name == EncodeAll(rs)
  {
    hide AllRunes, EncodeAll;
    NameRunes(name);
    AllRunesExactly(name, NameRune);
  }

  lemma ValidNameHasNo(name: bytes, c: byte)
    requires IsValidName(name) && c < 0x80 && IsSpace(c)
    ensures c !in name
  {
    hide AllRunes;
    if i :| 0 <= i < |name| && name[i] == c {
      AllRunesAt(name, i, NotSpace);
      assert false;
    }
  }

  // ----- lines

  function IndexOf(s: bytes, c: byte): (n: nat)
    ensures n <= |s| && (n < |s| ==> s[n] == c)
    ensures c !in s[..n]
  {
    if s == [] || s[0] == c then 0 else 1 + IndexOf(s[1..], c)
  }

  lemma {:induction false} IndexOfIs(a: bytes, c: byte, b: bytes)
    requires c !in a
    ensures IndexOf(a + [c] + b, c) == |a|
  {
    if a != [] {
      IndexOfIs(a[1..], c, b);
      assert (a + [c] + b)[1..] == a[1..] + [c] + b;
    }
  }

  datatype Cut = Cut(before: bytes, after: bytes)

  /** The first line of s without its newline, and what follows it. */
  function NextLine(s: bytes): (r: Option<Cut>)
    ensures r.Some? ==> s == r.value.before + [LF] + r.value.after && LF !in r.value.before
  {
    var n := IndexOf(s, LF);
    if n < |s| then Some(Cut(s[..n], s[n + 1..])) else None
  }

  lemma NextLineOf(line: bytes, rest: bytes)
    requires LF !in line
    ensures NextLine(line + [LF] + rest) == Some(Cut(line, rest))
  {
    IndexOfIs(line, LF, rest);
    var s := line + [LF] + rest;
    assert s[..|line|] == line && s[|line| + 1..] == rest;
  }

  /** A line is not affected by what is appended to the text. */
  lemma NextLineExtend(s: bytes, tail: bytes)
    requires NextLine(s).Some?
    ensures NextLine(s + tail) == Some(Cut(NextLine(s).value.before, NextLine(s).value.after + tail))
  {
    hide NextLine;
    var cut := NextLine(s).value;
    assert s + tail == cut.before + [LF] + (cut.after + tail);
    NextLineOf(cut.before, cut.after + tail);
  }

  // ----- key IDs

  function PutUint32(n: nat): (b: bytes)
    requires n < 0x1_0000_0000
    ensures |b| == 4
  {
    [n / 0x100_0000, n / 0x1_0000 % 256, n / 256 % 256, n % 256]
  }

  function Uint32(b: bytes): (n: nat)
    requires |b| >= 4
    ensures n < 0x1_0000_0000
  {
    b[0] as int * 0x100_0000 + b[1] as int * 0x1_0000 + b[2] as int * 256 + b[3] as int
  }

  lemma Uint32RoundTrip(n: nat, rest: bytes)
    requires n < 0x1_0000_0000
    ensures Uint32(PutUint32(n) + rest) == n
  {
    var b := PutUint32(n) + rest;
    assert b[0] == n / 0x100_0000 && b[1] == n / 0x1_0000 % 256 && b[2] == n / 256 % 256 && b[3] == n % 256;
    assert n / 0x1_0000 == n / 256 / 256 && n / 0x100_0000 == n / 0x1_0000 / 256;
  }

  // ----- signing

  function SignatureLine(s: Signer, sig: bytes): bytes
    requires s.hash < 0x1_0000_0000
  {
    DASH + [SPACE] + s.name + [SPACE] + Base64.Encode(PutUint32(s.hash) + sig)
  }

  function Sign(text: bytes, s: Signer): Result<bytes, NoteError>
    requires s.hash < 0x1_0000_0000
  {
    if text == [] || Last(text) != LF then Err(Malformed)
    else if !IsValidName(s.name) then Err(InvalidSigner)
    else
      match s.sign(text)
      case None => Err(SigningFailed)
      case Some(sig) => Ok(text + [LF] + SignatureLine(s, sig) + [LF])
  }

  // ----- opening

  /** The largest i below n - 1 with newlines at i and i + 1. */
  function LastBlank(s: bytes, n: nat): (r: Option<nat>)
    requires n <= |s|
    ensures r.Some? ==> r.value + 1 < n && s[r.value] == LF && s[r.value + 1] == LF
  {
    if n < 2 then None
    else if s[n - 2] == LF && s[n - 1] == LF then Some(n - 2)
    else LastBlank(s, n - 1)
  }

  function ParseSignature(line: bytes): Option<Signature> {
    if !(DASH + [SPACE] <= line) then None
    else
      var body := line[4..];
      var i := IndexOf(body, SPACE);
      var name := body[..i];
      var b64 := if i < |body| then body[i + 1..] else [];
      match Base64.Decode(b64)
      case None => None
      case Some(raw) =>
        if !IsValidName(name) || b64 == [] || |raw| < 5 then None
        else Some(Signature(name, Uint32(raw), raw[4..]))
  }

  /** Reads the signature lines one by one; the known verifier must accept its first one. */
  function CheckSignatures(text: bytes, sigs: bytes, v: Verifier, count: nat, verified: bool): Result<bool, NoteError>
    decreases |sigs|
  {
    if sigs == [] then Ok(verified)
    else
      match NextLine(sigs)
      case None => Err(Malformed)
      case Some(cut) =>
        match ParseSignature(cut.before)
        case None => Err(Malformed)
        case Some(sig) =>
          if count >= MAX_SIGNATURES then Err(Malformed)
          else if sig.name != v.name || sig.hash != v.hash || verified then
            CheckSignatures(text, cut.after, v, count + 1, verified)
          else if !v.verify(text, sig.sig) then Err(InvalidSignature)
          else CheckSignatures(text, cut.after, v, count + 1, true)
  }

  function Open(msg: bytes, v: Verifier): (r: Result<bytes, NoteError>)
    ensures r.Ok? ==> r.value <= msg
  {
    if !AllRunes(msg, TextRune) then Err(Malformed)
    else
      match LastBlank(msg, |msg|)
      case None => Err(Malformed)
      case Some(split) =>
        var text, sigs := msg[..split + 1], msg[split + 2..];
        if sigs == [] || Last(sigs) != LF then Err(Malformed)
        else
          match CheckSignatures(text, sigs, v, 0, false)
          case Err(e) => Err(e)
          case Ok(verified) => if verified then Ok(text) else Err(UnverifiedNote)
  }

  /** The verifier belongs to the signer: same name and ID, and it accepts what the signer produces. */
  ghost predicate KeyPair(s: Signer, v: Verifier) {
    && s.name == v.name && s.hash == v.hash < 0x1_0000_0000
    && forall m :: s.sign(m).Some? ==> |s.sign(m).value| > 0 && v.verify(m, s.sign(m).value)
  }

  // ----- a signed note opens

  lemma {:induction false} LastBlankIs(s: bytes, n: nat, i: nat)
    requires i + 1 < n <= |s| && s[i] == LF && s[i + 1] == LF
    requires forall j :: i < j < n - 1 ==> !(s[j] == LF && s[j + 1] == LF)
    ensures LastBlank(s, n) == Some(i)
    decreases n
  {
    if n > i + 2 {
      LastBlankIs(s, n - 1, i);
    }
  }

  lemma TextHasNo(s: bytes, c: byte)
    requires Base64.IsText(s) && !Base64.IsDigit(c) && c != Base64.PAD
    ensures c !in s
  {
  }

  lemma {:induction false} ParseSignatureLine(s: Signer, sig: bytes)
    requires s.hash < 0x1_0000_0000 && IsValidName(s.name) && |sig| > 0
    ensures ParseSignature(SignatureLine(s, sig)) == Some(Signature(s.name, s.hash, sig))
    ensures LF !in SignatureLine(s, sig) && SignatureLine(s, sig) != []
  {
    hide AllRunes, IsValidName, Base64.Encode, Base64.Decode, PutUint32, Uint32, IndexOf;
    var raw := PutUint32(s.hash) + sig;
    var b64 := Base64.Encode(raw);
    var line := SignatureLine(s, sig);
    assert line[4..] == s.name + [SPACE] + b64;
    ValidNameHasNo(s.name, SPACE);
    ValidNameHasNo(s.name, LF);
    IndexOfIs(s.name, SPACE, b64);
    var body := line[4..];
    assert body[..|s.name|] == s.name && body[|s.name| + 1..] == b64;
    Base64.RoundTrip(raw);
    Base64.EncodeIsText(raw);
    TextHasNo(b64, LF);
    Uint32RoundTrip(s.hash, sig);
    assert raw[4..] == sig;
    if b64 == [] {
      EmptyEncoding(raw);
    }
  }

  lemma EmptyEncoding(raw: bytes)
    ensures Base64.Encode(raw) == [] ==> raw == []
  {
  }

  /** The code points of a signed note are those of its text, its key name and ASCII. */
  lemma SignedRunes(text: bytes, s: Signer, sig: bytes)
    requires s.hash < 0x1_0000_0000 && text != [] && Last(text) == LF && IsValidName(s.name)
    ensures AllRunes(text + [LF] + SignatureLine(s, sig) + [LF], TextRune)
       <==> AllRunes(text, TextRune) && AllRunes(s.name, TextRune)
  {
    hide AllRunes, IsValidName, Base64.Encode, PutUint32;
    var b64 := Base64.Encode(PutUint32(s.hash) + sig);
    var msg := text + [LF] + SignatureLine(s, sig) + [LF];
    Base64.EncodeIsText(PutUint32(s.hash) + sig);
    var front, back := text + [LF] + DASH + [SPACE], [SPACE] + b64 + [LF];
    assert msg == front + s.name + back;
    if AllRunes(text, TextRune) && AllRunes(s.name, TextRune) {
      AsciiText([LF]);
      DashIsText();
      AllRunesConcat(text, [LF], TextRune);
      AllRunesConcat(text + [LF], DASH + [SPACE], TextRune);
      assert text + [LF] + (DASH + [SPACE]) == front;
      AllRunesConcat(front, s.name, TextRune);
      AsciiText(back);
      AllRunesConcat(front + s.name, back, TextRune);
    }
    if AllRunes(msg, TextRune) {
      var tail := DASH + [SPACE] + s.name + back;
      assert msg == text + [LF] + tail;
      AllRunesSplit(text, LF, tail, TextRune);
      assert tail == DASH + [SPACE] + (s.name + back);
      AllRunesSplit(DASH, SPACE, s.name + back, TextRune);
      assert s.name + back == s.name + [SPACE] + (b64 + [LF]);
      AllRunesSplit(s.name, SPACE, b64 + [LF], TextRune);
    }
  }

  lemma AsciiText(s: bytes)
    requires forall i :: 0 <= i < |s| ==> 32 <= s[i] < 0x80 || s[i] == LF
    ensures AllRunes(s, TextRune)
  {
    AllRunesAscii(s, TextRune);
  }

  lemma DashIsText()
    ensures AllRunes(DASH + [SPACE], TextRune)
  {
    var s := DASH + [SPACE];
    assert RuneLength(s) == 3 && Rune(s) == 0x2014 && s[3..] == [SPACE];
    AsciiText([SPACE]);
  }

  /**
   A note that a key signs is opened by the same key, with the text that was signed, exactly
   when neither the text nor the key name holds a control character. A name with one passes
   the check of valid names, so such a key signs notes that nobody can open.
   */
  lemma OpenSigned(text: bytes, s: Signer, v: Verifier)
    requires KeyPair(s, v) && Sign(text, s).Ok?
    ensures Open(Sign(text, s).value, v) == Ok(text) <==> AllRunes(text, TextRune) && AllRunes(s.name, TextRune)
    ensures !(AllRunes(text, TextRune) && AllRunes(s.name, TextRune)) ==> Open(Sign(text, s).value, v) == Err(Malformed)
  {
    hide AllRunes, SignatureLine, ParseSignature, LastBlank, CheckSignatures, IsValidName, NextLine;
    var sig := s.sign(text).value;
    assert |sig| > 0 && v.verify(text, sig);
    var line := SignatureLine(s, sig);
    var msg := text + [LF] + line + [LF];
    assert Sign(text, s).value == msg;
    SignedRunes(text, s, sig);
    ParseSignatureLine(s, sig);
    LastBlankOfSigned(text, line);
    assert msg[..|text|] == text && msg[|text| + 1..] == line + [LF] && Last(line + [LF]) == LF;
    CheckOneSignature(text, line, v, Signature(s.name, s.hash, sig));
  }

  /** A name with a control character: U+0001 is no space, so the name is valid, and no note may contain it. */
  lemma ControlNameIsValid()
    ensures IsValidName([1]) && !AllRunes([1], TextRune)
  {
    assert RuneLength([1]) == 1 && Rune([1]) == 1 && [1][1..] == [];
  }

  /** Whatever a key of that name signs, nobody can open it. */
  lemma ControlNameNeverOpens(text: bytes, s: Signer, v: Verifier)
    requires KeyPair(s, v) && s.name == [1]
    ensures Sign(text, s).Ok? <==> text != [] && Last(text) == LF && s.sign(text).Some?
    ensures Sign(text, s).Ok? ==> Open(Sign(text, s).value, v) == Err(Malformed)
  {
    hide AllRunes, Open, IsValidName;
    ControlNameIsValid();
    if Sign(text, s).Ok? {
      OpenSigned(text, s, v);
    }
  }

  lemma LastBlankOfSigned(text: bytes, line: bytes)
    requires text != [] && Last(text) == LF && line != [] && LF !in line
    ensures var msg := text + [LF] + line + [LF]; LastBlank(msg, |msg|) == Some(|text| - 1)
  {
    hide LastBlank;
    var msg := text + [LF] + line + [LF];
    assert forall j :: |text| < j < |msg| - 1 ==> msg[j] == line[j - |text| - 1] && msg[j] in line;
    LastBlankIs(msg, |msg|, |text| - 1);
  }

  lemma CheckOneSignature(text: bytes, line: bytes, v: Verifier, sig: Signature)
    requires ParseSignature(line) == Some(sig) && LF !in line
    requires sig.name == v.name && sig.hash == v.hash && v.verify(text, sig.sig)
    ensures CheckSignatures(text, line + [LF], v, 0, false) == Ok(true)
  {
    hide ParseSignature, NextLine;
    NextLineOf(line, []);
    assert line + [LF] + [] == line + [LF];
  }

  // ----- what an opened note tells about its key

  lemma {:induction false} CheckedName(text: bytes, sigs: bytes, v: Verifier, count: nat, verified: bool)
    requires CheckSignatures(text, sigs, v, count, verified) == Ok(true) && !verified
    requires AllRunes(sigs, TextRune)
    ensures AllRunes(v.name, TextRune) && IsValidName(v.name)
    decreases |sigs|
  {
    hide AllRunes, ParseSignature, NextLine, IsValidName;
    var cut := NextLine(sigs).value;
    AllRunesSplit(cut.before, LF, cut.after, TextRune);
    var sig := ParseSignature(cut.before).value;
    if sig.name == v.name && sig.hash == v.hash {
      ParsedName(cut.before);
    } else {
      CheckedName(text, cut.after, v, count + 1, false);
    }
  }

  lemma ParsedName(line: bytes)
    requires ParseSignature(line).Some? && AllRunes(line, TextRune)
    ensures AllRunes(ParseSignature(line).value.name, TextRune) && IsValidName(ParseSignature(line).value.name)
  {
    hide AllRunes, IsValidName, Base64.Decode, IndexOf, Uint32;
    var body := line[4..];
    assert line == DASH + [SPACE] + body;
    AllRunesSplit(DASH, SPACE, body, TextRune);
    var i := IndexOf(body, SPACE);
    assert body == body[..i] + [SPACE] + body[i + 1..];
    AllRunesSplit(body[..i], SPACE, body[i + 1..], TextRune);
  }

  /** An opened note and the name of the key that signed it are free of control characters. */
  lemma OpenedRunes(msg: bytes, v: Verifier)
    requires Open(msg, v).Ok?
    ensures AllRunes(Open(msg, v).value, TextRune) && AllRunes(v.name, TextRune) && IsValidName(v.name)
  {
    hide AllRunes, CheckSignatures, LastBlank, IsValidName;
    var split := LastBlank(msg, |msg|).value;
    var text, sigs := msg[..split + 1], msg[split + 2..];
    assert text == msg[..split] + [LF];
    assert msg == msg[..split] + [LF] + msg[split + 1..];
    AllRunesSplit(msg[..split], LF, msg[split + 1..], TextRune);
    AsciiText([LF]);
    AllRunesConcat(msg[..split], [LF], TextRune);
    assert msg == text + [LF] + sigs;
    AllRunesSplit(text, LF, sigs, TextRune);
    CheckedName(text, sigs, v, 0, false);
  }

  // ----- authenticity

  lemma {:induction false} CheckedSignature(text: bytes, sigs: bytes, v: Verifier, count: nat) returns (line: bytes)
    requires CheckSignatures(text, sigs, v, count, false) == Ok(true)
    ensures exists before, after :: sigs == before + line + [LF] + after
    ensures ParseSignature(line).Some?
    ensures var sig := ParseSignature(line).value; sig.name == v.name && sig.hash == v.hash && v.verify(text, sig.sig)
    decreases |sigs|
  {
    hide ParseSignature, NextLine;
    var cut := NextLine(sigs).value;
    var sig := ParseSignature(cut.before).value;
    if sig.name == v.name && sig.hash == v.hash {
      line := cut.before;
      assert sigs == [] + line + [LF] + cut.after;
    } else {
      line := CheckedSignature(text, cut.after, v, count + 1);
      var before, after :| cut.after == before + line + [LF] + after;
      assert sigs == (cut.before + [LF] + before) + line + [LF] + after;
    }
  }

  /**
   Authenticity: a note opens only if one of its signature lines carries the name and the ID of the
   verifier and a signature that the verifier accepts for exactly the text that is returned.
   */
  lemma OpenedIsSigned(msg: bytes, v: Verifier) returns (line: bytes)
    requires Open(msg, v).Ok?
    ensures exists before, after :: msg == Open(msg, v).value + [LF] + before + line + [LF] + after
    ensures ParseSignature(line).Some?
    ensures var sig := ParseSignature(line).value;
            sig.name == v.name && sig.hash == v.hash && v.verify(Open(msg, v).value, sig.sig)
  {
    hide AllRunes, CheckSignatures, LastBlank, ParseSignature;
    var split := LastBlank(msg, |msg|).value;
    var text, sigs := msg[..split + 1], msg[split + 2..];
    line := CheckedSignature(text, sigs, v, 0);
    var before, after :| sigs == before + line + [LF] + after;
    assert msg == text + [LF] + sigs;
    assert msg == text + [LF] + before + line + [LF] + after;
  }

  // ----- exactly the notes that open

  predicate AnyRune(r: nat) { true }

  /** No byte is a control character of ASCII, but for newlines. */
  ghost predicate HasNoControls(b: bytes) {
    forall i :: 0 <= i < |b| ==> b[i] >= 32 || b[i] == 10
  }

  lemma RuneControls(b: bytes)
    requires RuneLength(b) > 0
    ensures HasNoControls(b[..RuneLength(b)]) <==> TextRune(Rune(b))
  {
    if RuneLength(b) == 1 {
      assert b[..1] == [b[0]];
      if HasNoControls(b[..1]) {
        assert b[..1][0] == b[0];
      }
    }
  }

  lemma ControlsConcat(a: bytes, b: bytes)
    ensures HasNoControls(a + b) <==> HasNoControls(a) && HasNoControls(b)
  {
    if HasNoControls(a + b) {
      forall i | 0 <= i < |a| ensures a[i] >= 32 || a[i] == 10 {
        assert a[i] == (a + b)[i];
      }
      forall i | 0 <= i < |b| ensures b[i] >= 32 || b[i] == 10 {
        assert b[i] == (a + b)[|a| + i];
      }
    }
  }

  /** Text is valid UTF-8 without the control bytes. */
  lemma {:induction false} TextExactly(b: bytes)
    ensures AllRunes(b, TextRune) <==> AllRunes(b, AnyRune) && HasNoControls(b)
    decreases |b|
  {
    hide RuneLength, Rune, HasNoControls, TextRune;
    if b == [] {
      ControlsNothing(b);
    } else if RuneLength(b) > 0 {
      var n := RuneLength(b);
      RuneControls(b);
      TextExactly(b[n..]);
      ControlsConcat(b[..n], b[n..]);
      assert b == b[..n] + b[n..];
    }
  }

  lemma ControlsNothing(b: bytes)
    requires b == []
    ensures HasNoControls(b)
  {
  }

  /** A signature line: em dash, name and the base64 form of key ID and signature, separated by spaces. */
  ghost predicate IsSignatureLine(line: bytes, sig: Signature, b64: bytes, raw: bytes) {
    && line == [0xE2, 0x80, 0x94, 32] + sig.name + [32] + b64 && IsValidName(sig.name)
    && Base64.Decode(b64) == Some(raw) && |raw| >= 5 && sig.hash == Uint32(raw) && sig.sig == raw[4..]
  }

  lemma ParseSignatureExactly(line: bytes, sig: Signature)
    ensures ParseSignature(line) == Some(sig) <==> exists b64, raw :: IsSignatureLine(line, sig, b64, raw)
  {
    hide ParseSignature, IsSignatureLine;
    if ParseSignature(line) == Some(sig) {
      var b64, raw := ParsedIsLine(line, sig);
    }
    if exists b64, raw :: IsSignatureLine(line, sig, b64, raw) {
      var b64, raw :| IsSignatureLine(line, sig, b64, raw);
      LineIsParsed(line, sig, b64, raw);
    }
  }

  lemma ParsedIsLine(line: bytes, sig: Signature) returns (b64: bytes, raw: bytes)
    requires ParseSignature(line) == Some(sig)
    ensures IsSignatureLine(line, sig, b64, raw)
  {
    hide IsValidName, Base64.Decode, IndexOf, Uint32;
    var body := line[4..];
    var i := IndexOf(body, SPACE);
    assert i < |body|;
    b64 := body[i + 1..];
    raw := Base64.Decode(b64).value;
    LineOfBody(line, body, body[..i], b64);
  }

  lemma LineOfBody(line: bytes, body: bytes, name: bytes, b64: bytes)
    requires DASH + [SPACE] <= line && body == line[4..] && |name| < |body| && body[..|name|] == name && body[|name|] == SPACE
    requires b64 == body[|name| + 1..]
    ensures line == [0xE2, 0x80, 0x94, 32] + name + [32] + b64
  {
    assert line == line[..4] + body && body == name + [SPACE] + b64;
  }

  lemma LineIsParsed(line: bytes, sig: Signature, b64: bytes, raw: bytes)
    requires IsSignatureLine(line, sig, b64, raw)
    ensures ParseSignature(line) == Some(sig)
  {
    hide IsValidName, Base64.Decode, IndexOf, Uint32;
    var body := sig.name + [SPACE] + b64;
    assert line[4..] == body && DASH + [SPACE] <= line;
    ValidNameHasNo(sig.name, SPACE);
    IndexOfIs(sig.name, SPACE, b64);
    assert body[..|sig.name|] == sig.name && body[|sig.name| + 1..] == b64;
    NothingDecodesToNothing();
  }

  lemma NothingDecodesToNothing()
    ensures Base64.Decode([]) == Some([])
  {
  }

  function Joined(lines: seq<bytes>): bytes {
    if lines == [] then [] else lines[0] + [LF] + Joined(lines[1..])
  }

  ghost predicate AreSignatures(lines: seq<bytes>) {
    forall i :: 0 <= i < |lines| ==> LF !in lines[i] && ParseSignature(lines[i]).Some?
  }

  /** The line carries the name and the ID of the verifier. */
  ghost predicate IsOf(line: bytes, v: Verifier) {
    ParseSignature(line).Some? && ParseSignature(line).value.name == v.name && ParseSignature(line).value.hash == v.hash
  }

  ghost predicate VerifiesFirst(text: bytes, lines: seq<bytes>, v: Verifier, i: nat) {
    && i < |lines| && IsOf(lines[i], v) && v.verify(text, ParseSignature(lines[i]).value.sig)
    && forall j :: 0 <= j < i ==> !IsOf(lines[j], v)
  }

  /** The first line of the verifier carries a signature that it accepts for the text. */
  ghost predicate IsVerified(text: bytes, lines: seq<bytes>, v: Verifier) {
    exists i: nat :: VerifiesFirst(text, lines, v, i)
  }

  /** No line carries the name and the ID of the verifier. */
  ghost predicate IsForeign(lines: seq<bytes>, v: Verifier) {
    forall i :: 0 <= i < |lines| ==> !IsOf(lines[i], v)
  }

  lemma ForeignStep(lines: seq<bytes>, v: Verifier)
    requires lines != []
    ensures IsForeign(lines, v) <==> !IsOf(lines[0], v) && IsForeign(lines[1..], v)
  {
    hide IsOf;
    if !IsOf(lines[0], v) && IsForeign(lines[1..], v) {
      forall i | 0 <= i < |lines| ensures !IsOf(lines[i], v) {
        if i > 0 {
          assert lines[i] == lines[1..][i - 1];
        }
      }
    }
  }

  lemma VerifiedStep(text: bytes, lines: seq<bytes>, v: Verifier)
    requires lines != []
    ensures IsVerified(text, lines, v) <==>
              if IsOf(lines[0], v) then v.verify(text, ParseSignature(lines[0]).value.sig) else IsVerified(text, lines[1..], v)
  {
    hide ParseSignature;
    if i: nat :| VerifiesFirst(text, lines, v, i) {
      if i > 0 {
        assert forall j :: 0 <= j < i - 1 ==> lines[1..][j] == lines[j + 1];
        assert VerifiesFirst(text, lines[1..], v, i - 1);
      }
    }
    if IsOf(lines[0], v) && v.verify(text, ParseSignature(lines[0]).value.sig) {
      assert VerifiesFirst(text, lines, v, 0);
    }
    if !IsOf(lines[0], v) && IsVerified(text, lines[1..], v) {
      var i: nat :| VerifiesFirst(text, lines[1..], v, i);
      assert forall j :: 1 <= j < i + 1 ==> lines[j] == lines[1..][j - 1];
      assert VerifiesFirst(text, lines, v, i + 1);
    }
  }

  lemma {:induction false} CheckJoined(text: bytes, lines: seq<bytes>, v: Verifier, count: nat, verified: bool)
    requires AreSignatures(lines) && count <= MAX_SIGNATURES
    ensures CheckSignatures(text, Joined(lines), v, count, verified) == Ok(true)
       <==> count + |lines| <= MAX_SIGNATURES && (verified || IsVerified(text, lines, v))
    ensures CheckSignatures(text, Joined(lines), v, count, verified) == Ok(false)
       <==> count + |lines| <= MAX_SIGNATURES && !verified && IsForeign(lines, v)
    decreases |lines|
  {
    hide ParseSignature, NextLine, VerifiesFirst, IsForeign;
    if lines != [] {
      var rest := Joined(lines[1..]);
      NextLineOf(lines[0], rest);
      VerifiedStep(text, lines, v);
      ForeignStep(lines, v);
      if count < MAX_SIGNATURES {
        CheckJoined(text, lines[1..], v, count + 1, verified || IsOf(lines[0], v));
      }
    } else {
      NothingIsVerified(text, lines, v);
    }
  }

  lemma NothingIsVerified(text: bytes, lines: seq<bytes>, v: Verifier)
    requires lines == []
    ensures !IsVerified(text, lines, v) && IsForeign(lines, v)
  {
  }

  lemma {:induction false} CheckedAreLines(text: bytes, sigs: bytes, v: Verifier, count: nat, verified: bool) returns (lines: seq<bytes>)
    requires CheckSignatures(text, sigs, v, count, verified).Ok?
    ensures AreSignatures(lines) && sigs == Joined(lines)
    decreases |sigs|
  {
    hide ParseSignature, NextLine;
    if sigs == [] {
      lines := [];
    } else {
      var cut := NextLine(sigs).value;
      var sig := ParseSignature(cut.before).value;
      var mine := sig.name == v.name && sig.hash == v.hash;
      var tail := CheckedAreLines(text, cut.after, v, count + 1, verified || mine);
      lines := [cut.before] + tail;
      assert lines[1..] == tail;
    }
  }

  /** The note consists of the text, a blank line and the lines. */
  ghost predicate IsNote(msg: bytes, text: bytes, lines: seq<bytes>) {
    && msg == text + [LF] + Joined(lines) && AllRunes(msg, AnyRune) && HasNoControls(msg)
    && text != [] && Last(text) == LF && 1 <= |lines| <= 100 && AreSignatures(lines)
  }

  lemma {:induction false} JoinedHasNoBlank(lines: seq<bytes>, j: nat)
    requires AreSignatures(lines) && lines != []
    ensures Joined(lines) != [] && Joined(lines)[0] != LF && Last(Joined(lines)) == LF
    ensures j + 1 < |Joined(lines)| ==> !(Joined(lines)[j] == LF && Joined(lines)[j + 1] == LF)
    decreases |lines|
  {
    hide ParseSignature;
    var line, rest := lines[0], Joined(lines[1..]);
    SignatureStarts(line);
    assert line[0] in line;
    if |lines| > 1 {
      JoinedHasNoBlank(lines[1..], if j > |line| then j - |line| - 1 else 0);
    }
    if j < |line| {
      assert Joined(lines)[j] == line[j] && line[j] in line;
    }
  }

  lemma SignatureStarts(line: bytes)
    requires ParseSignature(line).Some?
    ensures line != [] && line[0] != LF
  {
    hide IsValidName, Base64.Decode, IndexOf, Uint32;
    assert (DASH + [SPACE])[0] == line[0];
  }

  lemma NoteSplits(msg: bytes, text: bytes, lines: seq<bytes>)
    requires msg == text + [LF] + Joined(lines) && text != [] && Last(text) == LF && lines != [] && AreSignatures(lines)
    ensures LastBlank(msg, |msg|) == Some(|text| - 1)
    ensures Joined(lines) != [] && Last(Joined(lines)) == LF
  {
    hide LastBlank, AreSignatures, Joined;
    var sigs := Joined(lines);
    JoinedHasNoBlank(lines, 0);
    forall j | |text| - 1 < j < |msg| - 1 ensures !(msg[j] == LF && msg[j + 1] == LF) {
      if j > |text| {
        var k := j - |text| - 1;
        JoinedHasNoBlank(lines, k);
        assert msg[j] == sigs[k] && msg[j + 1] == sigs[k + 1];
      } else {
        assert msg[j + 1] == sigs[0];
      }
    }
    LastBlankIs(msg, |msg|, |text| - 1);
  }

  /** The parts of a note whose signature lines are all read. */
  lemma SplitNote(msg: bytes, v: Verifier, split: nat) returns (lines: seq<bytes>)
    requires AllRunes(msg, TextRune) && LastBlank(msg, |msg|) == Some(split) && split + 2 < |msg|
    requires CheckSignatures(msg[..split + 1], msg[split + 2..], v, 0, false).Ok?
    ensures IsNote(msg, msg[..split + 1], lines) && msg[split + 2..] == Joined(lines)
  {
    hide AllRunes, CheckSignatures, LastBlank, AreSignatures, Joined, HasNoControls, IsForeign, IsVerified;
    var text, sigs := msg[..split + 1], msg[split + 2..];
    lines := CheckedAreLines(text, sigs, v, 0, false);
    CheckJoined(text, lines, v, 0, false);
    JoinedNothing(lines);
    TextExactly(msg);
    assert msg == text + [LF] + sigs && Last(text) == LF;
    var verdict := CheckSignatures(text, sigs, v, 0, false);
    if verdict.value {
      assert verdict == Ok(true);
    } else {
      assert verdict == Ok(false);
    }
  }

  /** The verdict on a note is that on its lines. */
  lemma OpenNote(msg: bytes, v: Verifier, text: bytes, lines: seq<bytes>)
    requires IsNote(msg, text, lines)
    ensures Open(msg, v) == Ok(text) <==> IsVerified(text, lines, v)
    ensures Open(msg, v) == Err(UnverifiedNote) <==> IsForeign(lines, v)
  {
    hide AllRunes, CheckSignatures, LastBlank, AreSignatures, Joined, HasNoControls, IsForeign, IsVerified;
    TextExactly(msg);
    NoteSplits(msg, text, lines);
    CheckJoined(text, lines, v, 0, false);
    CheckNeverUnverified(text, Joined(lines), v, 0, false);
    assert msg[..|text|] == text && msg[|text| + 1..] == Joined(lines);
  }

  /**
   Exactly the notes that open: a text of whole lines, a blank line and one to a hundred signature
   lines, all of them well formed, without control characters, of which the first one of the
   verifier carries a signature that it accepts for the text.
   */
  lemma OpensExactly(msg: bytes, v: Verifier, text: bytes)
    ensures Open(msg, v) == Ok(text) <==> exists lines :: IsNote(msg, text, lines) && IsVerified(text, lines, v)
  {
    hide AllRunes, CheckSignatures, LastBlank, IsNote, IsVerified;
    if Open(msg, v) == Ok(text) {
      var lines := SplitNote(msg, v, LastBlank(msg, |msg|).value);
      OpenNote(msg, v, text, lines);
    }
    if exists lines :: IsNote(msg, text, lines) && IsVerified(text, lines, v) {
      var lines :| IsNote(msg, text, lines) && IsVerified(text, lines, v);
      OpenNote(msg, v, text, lines);
    }
  }

  /** A note without a signature line of the verifier, and no other, is reported as unverified. */
  lemma UnverifiedExactly(msg: bytes, v: Verifier)
    ensures Open(msg, v) == Err(UnverifiedNote) <==> exists text, lines :: IsNote(msg, text, lines) && IsForeign(lines, v)
  {
    hide AllRunes, CheckSignatures, LastBlank, IsNote, IsForeign;
    if Open(msg, v) == Err(UnverifiedNote) {
      var split := LastBlank(msg, |msg|).value;
      CheckNeverUnverified(msg[..split + 1], msg[split + 2..], v, 0, false);
      var lines := SplitNote(msg, v, split);
      OpenNote(msg, v, msg[..split + 1], lines);
    }
    if exists text, lines :: IsNote(msg, text, lines) && IsForeign(lines, v) {
      var text, lines :| IsNote(msg, text, lines) && IsForeign(lines, v);
      OpenNote(msg, v, text, lines);
    }
  }

  lemma {:induction false} CheckNeverUnverified(text: bytes, sigs: bytes, v: Verifier, count: nat, verified: bool)
    ensures CheckSignatures(text, sigs, v, count, verified) != Err(UnverifiedNote)
    decreases |sigs|
  {
    hide ParseSignature, NextLine;
    if NextLine(sigs).Some? && ParseSignature(NextLine(sigs).value.before).Some? {
      CheckNeverUnverified(text, NextLine(sigs).value.after, v, count + 1, verified);
      CheckNeverUnverified(text, NextLine(sigs).value.after, v, count + 1, true);
    }
  }

  lemma JoinedNothing(lines: seq<bytes>)
    ensures lines == [] ==> Joined(lines) == []
  {
  }

  /** Signing appends one signature line, with name and ID of the key and the signature of exactly this text. */
  lemma SignsOneLine(text: bytes, s: Signer)
    requires s.hash < 0x1_0000_0000 && forall m :: s.sign(m).Some? ==> |s.sign(m).value| > 0
    ensures Sign(text, s).Ok? <==> text != [] && Last(text) == LF && IsValidName(s.name) && s.sign(text).Some?
    ensures Sign(text, s).Ok? ==>
              exists line :: Sign(text, s).value == text + [LF] + line + [LF] && LF !in line
                             && ParseSignature(line) == Some(Signature(s.name, s.hash, s.sign(text).value))
  {
    hide IsValidName, ParseSignature, SignatureLine;
    if Sign(text, s).Ok? {
      ParseSignatureLine(s, s.sign(text).value);
    }
  }
}
