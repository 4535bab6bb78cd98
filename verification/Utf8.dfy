/** UTF-8 as Go's unicode/utf8 decodes it (Unicode standard, table 3-7). */
module Utf8 {
  import opened Bytes

  predicate IsContinuation(c: byte) { 0x80 <= c <= 0xBF }

  /** The length in bytes of the code point that b starts with; 0 if it starts with none. */
  function RuneLength(b: bytes): (n: nat)
    ensures n <= |b| && n <= 4
  {
    if |b| == 0 then 0
    else if b[0] < 0x80 then 1
    else if 0xC2 <= b[0] <= 0xDF then
      if |b| >= 2 && IsContinuation(b[1]) then 2 else 0
    else if 0xE0 <= b[0] <= 0xEF then
      if |b| >= 3 && IsContinuation(b[1]) && IsContinuation(b[2])
         && (b[0] == 0xE0 ==> b[1] >= 0xA0) && (b[0] == 0xED ==> b[1] < 0xA0) then 3 else 0
    else if 0xF0 <= b[0] <= 0xF4 then
      if |b| >= 4 && IsContinuation(b[1]) && IsContinuation(b[2]) && IsContinuation(b[3])
         && (b[0] == 0xF0 ==> b[1] >= 0x90) && (b[0] == 0xF4 ==> b[1] < 0x90) then 4 else 0
    else 0
  }

  function Rune(b: bytes): (r: nat)
    requires RuneLength(b) > 0
  {
    match RuneLength(b)
    case 1 => b[0]
    case 2 => (b[0] as int - 0xC0) * 64 + (b[1] as int - 0x80)
    case 3 => (b[0] as int - 0xE0) * 4096 + (b[1] as int - 0x80) * 64 + (b[2] as int - 0x80)
    case _ => (b[0] as int - 0xF0) * 262144 + (b[1] as int - 0x80) * 4096 + (b[2] as int - 0x80) * 64 + (b[3] as int - 0x80)
  }

  /** A code point that UTF-8 can express: no surrogate, at most U+10FFFF. */
  predicate IsScalar(r: nat) { r < 0xD800 || 0xE000 <= r <= 0x10FFFF }

  function EncodeRune(r: nat): bytes
    requires IsScalar(r)
  {
    if r < 0x80 then [r]
    else if r < 0x800 then [0xC0 + r / 64, 0x80 + r % 64]
    else if r < 0x1_0000 then [0xE0 + r / 4096, 0x80 + r / 64 % 64, 0x80 + r % 64]
    else [0xF0 + r / 262144, 0x80 + r / 4096 % 64, 0x80 + r / 64 % 64, 0x80 + r % 64]
  }

  /** What is decoded is the encoding of its code point: no other byte sequence is taken for it. */
  lemma RuneIsEncoded(b: bytes)
    requires RuneLength(b) > 0
    ensures IsScalar(Rune(b)) && EncodeRune(Rune(b)) == b[..RuneLength(b)]
  {
    hide Rune, EncodeRune;
    match RuneLength(b)
    case 1 => ShortRune(b);
    case 2 => ShortRune(b);
    case 3 => ThreeByteRune(b);
    case _ => FourByteRune(b);
  }

  lemma ShortRune(b: bytes)
    requires 1 <= RuneLength(b) <= 2
    ensures IsScalar(Rune(b)) && EncodeRune(Rune(b)) == b[..RuneLength(b)]
  {
  }

  lemma ThreeByteRune(b: bytes)
    requires RuneLength(b) == 3
    ensures IsScalar(Rune(b)) && EncodeRune(Rune(b)) == b[..3]
  {
    SixBitDigits(b[0] as int - 0xE0, b[1] as int - 0x80, b[2] as int - 0x80);
  }

  lemma FourByteRune(b: bytes)
    requires RuneLength(b) == 4
    ensures IsScalar(Rune(b)) && EncodeRune(Rune(b)) == b[..4]
  {
    SixBitDigits((b[0] as int - 0xF0) * 64 + (b[1] as int - 0x80), b[2] as int - 0x80, b[3] as int - 0x80);
  }

  lemma SixBitDigits(x: nat, y: nat, z: nat)
    requires y < 64 && z < 64
    ensures var r := x * 4096 + y * 64 + z; r % 64 == z && r / 64 % 64 == y && r / 64 == x * 64 + y && r / 4096 == x
  {
    var r := x * 4096 + y * 64 + z;
    assert r == (x * 64 + y) * 64 + z;
    assert r / 64 == x * 64 + y;
  }

  /** b is valid UTF-8 and every code point of it satisfies p. */
  predicate AllRunes(b: bytes, p: nat -> bool) {
    b == [] || (RuneLength(b) > 0 && p(Rune(b)) && AllRunes(b[RuneLength(b)..], p))
  }

  lemma RuneOfPrefix(a: bytes, b: bytes)
    requires RuneLength(a) > 0
    ensures RuneLength(a + b) == RuneLength(a) && Rune(a + b) == Rune(a)
    ensures (a + b)[RuneLength(a)..] == a[RuneLength(a)..] + b
  {
    hide IsContinuation;
    var s := a + b;
    assert forall i :: 0 <= i < |a| ==> s[i] == a[i];
  }

  lemma EncodedAlone(r: nat)
    requires IsScalar(r)
    ensures RuneLength(EncodeRune(r)) == |EncodeRune(r)| && Rune(EncodeRune(r)) == r
  {
    if r >= 0x1_0000 {
      assert r / 64 / 64 == r / 4096 && r / 4096 / 64 == r / 262144;
    } else if r >= 0x800 {
      assert r / 64 / 64 == r / 4096;
    }
  }

  /** Every code point decodes from its encoding, whatever follows it. */
  lemma EncodedRune(r: nat, rest: bytes)
    requires IsScalar(r)
    ensures RuneLength(EncodeRune(r) + rest) == |EncodeRune(r)| && Rune(EncodeRune(r) + rest) == r
  {
    hide RuneLength, Rune, EncodeRune;
    EncodedAlone(r);
    EncodedNotEmpty(r);
    RuneOfPrefix(EncodeRune(r), rest);
  }

  lemma EncodedNotEmpty(r: nat)
    requires IsScalar(r)
    ensures EncodeRune(r) != []
  {
  }

  lemma {:induction false} AllRunesConcat(a: bytes, b: bytes, p: nat -> bool)
    requires AllRunes(a, p) && AllRunes(b, p)
    ensures AllRunes(a + b, p)
    decreases |a|
  {
    hide RuneLength, Rune;
    if a == [] {
      assert a + b == b;
    } else {
      RuneOfPrefix(a, b);
      AllRunesConcat(a[RuneLength(a)..], b, p);
    }
  }

  /** Code points that UTF-8 can express, all of which satisfy p. */
  ghost predicate AreRunes(rs: seq<nat>, p: nat -> bool) {
    forall i :: 0 <= i < |rs| ==> IsScalar(rs[i]) && p(rs[i])
  }

  function EncodeAll(rs: seq<nat>): bytes
    requires forall i :: 0 <= i < |rs| ==> IsScalar(rs[i])
  {
    if rs == [] then [] else EncodeRune(rs[0]) + EncodeAll(rs[1..])
  }

  lemma {:induction false} EncodedAreValid(rs: seq<nat>, p: nat -> bool)
    requires AreRunes(rs, p)
    ensures AllRunes(EncodeAll(rs), p)
  {
    hide RuneLength, Rune, EncodeRune;
    if rs != [] {
      EncodedAreValid(rs[1..], p);
      EncodedRune(rs[0], EncodeAll(rs[1..]));
      EncodedNotEmpty(rs[0]);
      var b := EncodeAll(rs);
      assert b[|EncodeRune(rs[0])|..] == EncodeAll(rs[1..]);
    }
  }

  lemma {:induction false} ValidAreEncoded(b: bytes, p: nat -> bool) returns (rs: seq<nat>)
    requires AllRunes(b, p)
    ensures AreRunes(rs, p) && b == EncodeAll(rs)
    decreases |b|
  {
    hide RuneLength, Rune, EncodeRune;
    if b == [] {
      rs := [];
    } else {
      var n := RuneLength(b);
      var tail := ValidAreEncoded(b[n..], p);
      RuneIsEncoded(b);
      rs := [Rune(b)] + tail;
      assert rs[1..] == tail && b == b[..n] + b[n..];
    }
  }

  /** Exactly the encodings of sequences of code points are valid. */
  lemma AllRunesExactly(b: bytes, p: nat -> bool)
    ensures AllRunes(b, p) <==> exists rs :: AreRunes(rs, p) && b == EncodeAll(rs)
  {
    hide AllRunes, EncodeAll;
    if AllRunes(b, p) {
      var rs := ValidAreEncoded(b, p);
    }
    if exists rs :: AreRunes(rs, p) && b == EncodeAll(rs) {
      var rs :| AreRunes(rs, p) && b == EncodeAll(rs);
      EncodedAreValid(rs, p);
    }
  }

  lemma {:induction false} AllRunesAscii(a: bytes, p: nat -> bool)
    requires forall i :: 0 <= i < |a| ==> a[i] < 0x80 && p(a[i])
    ensures AllRunes(a, p)
    decreases |a|
  {
    if a != [] {
      AllRunesAscii(a[1..], p);
    }
  }

  /** A code point does not run across an ASCII byte. */
  lemma RuneBeforeAscii(a: bytes, c: byte, rest: bytes)
    requires a != [] && c < 0x80 && RuneLength(a + [c] + rest) > 0
    ensures RuneLength(a) == RuneLength(a + [c] + rest) && Rune(a) == Rune(a + [c] + rest)
  {
    var s := a + [c] + rest;
    assert forall i :: 0 <= i < |a| ==> s[i] == a[i];
    assert s[|a|] == c;
  }

  /** The part of a valid text before an ASCII byte, and the part after it, are valid. */
  lemma {:induction false} AllRunesSplit(a: bytes, c: byte, rest: bytes, p: nat -> bool)
    requires c < 0x80 && AllRunes(a + [c] + rest, p)
    ensures AllRunes(a, p) && p(c) && AllRunes(rest, p)
    decreases |a|
  {
    hide RuneLength, Rune;
    var s := a + [c] + rest;
    if a == [] {
      assert s == [c] + rest;
      AsciiRune(c, rest);
    } else {
      RuneBeforeAscii(a, c, rest);
      var n := RuneLength(a);
      assert s[n..] == a[n..] + [c] + rest;
      AllRunesSplit(a[n..], c, rest, p);
    }
  }

  lemma AsciiRune(c: byte, rest: bytes)
    requires c < 0x80
    ensures RuneLength([c] + rest) == 1 && Rune([c] + rest) == c && ([c] + rest)[1..] == rest
  {
  }

  lemma {:induction false} AllRunesAt(s: bytes, i: nat, p: nat -> bool)
    requires AllRunes(s, p) && i < |s| && s[i] < 0x80
    ensures p(s[i])
  {
    hide AllRunes;
    assert s == s[..i] + [s[i]] + s[i + 1..];
    AllRunesSplit(s[..i], s[i], s[i + 1..], p);
  }
}
