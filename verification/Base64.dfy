/**
 Standard base64 with padding, section 4 of RFC 4648, over ASCII byte strings.
 The decoder skips CR and LF and does not look at the unused bits before the padding,
 as Go's encoding/base64 documents for StdEncoding.
 */
module Base64 {
  import opened Bytes

  const PAD: byte := 61

  function EncodeDigit(d: nat): (c: byte)
    requires d < 64
    ensures IsDigit(c) && DecodeDigit(c) == d
  {
    if d < 26 then 65 + d
    else if d < 52 then 97 + d - 26
    else if d < 62 then 48 + d - 52
    else if d == 62 then 43
    else 47
  }

  predicate IsDigit(c: byte) {
    65 <= c <= 90 || 97 <= c <= 122 || 48 <= c <= 57 || c == 43 || c == 47
  }

  function DecodeDigit(c: byte): (d: nat)
    requires IsDigit(c)
    ensures d < 64
  {
    if 65 <= c <= 90 then c - 65
    else if 97 <= c <= 122 then c - 97 + 26
    else if 48 <= c <= 57 then c - 48 + 52
    else if c == 43 then 62
    else 63
  }

  function EncodeTriple(a: byte, b: byte, c: byte): bytes {
    [EncodeDigit(a / 4), EncodeDigit(a % 4 * 16 + b / 16), EncodeDigit(b % 16 * 4 + c / 64), EncodeDigit(c % 64)]
  }

  function Encode(b: bytes): bytes {
    if |b| == 0 then []
    else if |b| == 1 then [EncodeDigit(b[0] / 4), EncodeDigit(b[0] % 4 * 16), PAD, PAD]
    else if |b| == 2 then [EncodeDigit(b[0] / 4), EncodeDigit(b[0] % 4 * 16 + b[1] / 16), EncodeDigit(b[1] % 16 * 4), PAD]
    else EncodeTriple(b[0], b[1], b[2]) + Encode(b[3..])
  }

  function StripNewlines(s: bytes): bytes {
    if s == [] then []
    else if s[0] == 10 || s[0] == 13 then StripNewlines(s[1..])
    else [s[0]] + StripNewlines(s[1..])
  }

  function FirstByte(d0: nat, d1: nat): byte
    requires d0 < 64 && d1 < 64
  {
    d0 * 4 + d1 / 16
  }

  function SecondByte(d1: nat, d2: nat): byte
    requires d1 < 64 && d2 < 64
  {
    d1 % 16 * 16 + d2 / 4
  }

  function ThirdByte(d2: nat, d3: nat): byte
    requires d2 < 64 && d3 < 64
  {
    d2 % 4 * 64 + d3
  }

  /** Decodes one group of four, and the rest of the text when the group carries no padding. */
  function DecodeQuads(s: bytes): Option<bytes> {
    if |s| == 0 then Some([])
    else if |s| < 4 || !IsDigit(s[0]) || !IsDigit(s[1]) then None
    else if s[2] == PAD then
      if s[3] == PAD && |s| == 4 then Some([FirstByte(DecodeDigit(s[0]), DecodeDigit(s[1]))]) else None
    else if !IsDigit(s[2]) then None
    else if s[3] == PAD then
      if |s| == 4 then
        Some([FirstByte(DecodeDigit(s[0]), DecodeDigit(s[1])), SecondByte(DecodeDigit(s[1]), DecodeDigit(s[2]))])
      else None
    else if !IsDigit(s[3]) then None
    else
      match DecodeQuads(s[4..])
      case None => None
      case Some(rest) =>
        Some([FirstByte(DecodeDigit(s[0]), DecodeDigit(s[1])),
              SecondByte(DecodeDigit(s[1]), DecodeDigit(s[2])),
              ThirdByte(DecodeDigit(s[2]), DecodeDigit(s[3]))] + rest)
  }

  function Decode(s: bytes): Option<bytes> { DecodeQuads(StripNewlines(s)) }

  predicate IsText(s: bytes) {
    forall i :: 0 <= i < |s| ==> IsDigit(s[i]) || s[i] == PAD
  }

  lemma {:induction false} EncodeIsText(b: bytes)
    ensures IsText(Encode(b))
  {
    hide IsDigit, EncodeDigit, DecodeDigit;
    if |b| >= 3 {
      EncodeIsText(b[3..]);
    }
  }

  lemma {:induction false} StripText(s: bytes)
    requires IsText(s)
    ensures StripNewlines(s) == s
  {
    if s != [] {
      StripText(s[1..]);
      assert s == [s[0]] + s[1..];
    }
  }

  lemma TripleBytes(a: byte, b: byte, c: byte)
    ensures FirstByte(a / 4, a % 4 * 16 + b / 16) == a
    ensures SecondByte(a % 4 * 16 + b / 16, b % 16 * 4 + c / 64) == b
    ensures ThirdByte(b % 16 * 4 + c / 64, c % 64) == c
  {
  }

  lemma DecodeOne(a: byte)
    ensures DecodeQuads([EncodeDigit(a / 4), EncodeDigit(a % 4 * 16), PAD, PAD]) == Some([a])
  {
    hide EncodeDigit, DecodeDigit;
    assert FirstByte(a / 4, a % 4 * 16) == a;
  }

  lemma DecodeTwo(a: byte, b: byte)
    ensures DecodeQuads([EncodeDigit(a / 4), EncodeDigit(a % 4 * 16 + b / 16), EncodeDigit(b % 16 * 4), PAD]) == Some([a, b])
  {
    hide EncodeDigit, DecodeDigit;
    assert FirstByte(a / 4, a % 4 * 16 + b / 16) == a;
    assert SecondByte(a % 4 * 16 + b / 16, b % 16 * 4) == b;
  }

  /** A group without padding decodes to its three bytes, whatever follows it. */
  lemma DecodeGroup(a: byte, b: byte, c: byte, rest: bytes)
    ensures DecodeQuads(EncodeTriple(a, b, c) + rest) ==
            match DecodeQuads(rest) case None => None case Some(tail) => Some([a, b, c] + tail)
  {
    hide EncodeDigit, DecodeDigit, FirstByte, SecondByte, ThirdByte;
    TripleBytes(a, b, c);
    var s := EncodeTriple(a, b, c) + rest;
    assert s[4..] == rest;
  }

  lemma {:induction false} DecodeQuadsEncode(b: bytes)
    ensures DecodeQuads(Encode(b)) == Some(b)
  {
    hide EncodeTriple, DecodeQuads;
    if |b| == 1 {
      DecodeOne(b[0]);
      assert b == [b[0]];
    } else if |b| == 2 {
      DecodeTwo(b[0], b[1]);
      assert b == [b[0], b[1]];
    } else if |b| >= 3 {
      DecodeQuadsEncode(b[3..]);
      DecodeGroup(b[0], b[1], b[2], Encode(b[3..]));
      assert b == [b[0], b[1], b[2]] + b[3..];
    } else {
      DecodeNothing();
      assert b == [];
    }
  }

  lemma DecodeNothing()
    ensures DecodeQuads([]) == Some([])
  {
  }

  /** Decoding undoes encoding, for byte strings of every length. */
  lemma RoundTrip(b: bytes)
    ensures Decode(Encode(b)) == Some(b)
  {
    hide Encode, DecodeQuads, StripNewlines;
    EncodeIsText(b);
    StripText(Encode(b));
    DecodeQuadsEncode(b);
  }

  // ----- which texts decode, and to what

  predicate IsDigitOrPad(c: byte) { IsDigit(c) || c == 61 }

  /** Groups of four characters, all of them digits but for one or two padding characters at the end. */
  predicate IsEncoded(s: bytes) {
    && |s| % 4 == 0
    && (forall i :: 0 <= i < |s| - 2 ==> IsDigit(s[i]))
    && (s != [] ==> IsDigitOrPad(s[|s| - 2]) && IsDigitOrPad(s[|s| - 1]) && (s[|s| - 2] == PAD ==> s[|s| - 1] == PAD))
  }

  function Pads(s: bytes): nat {
    if s == [] || Last(s) != PAD then 0 else if |s| >= 2 && s[|s| - 2] == PAD then 2 else 1
  }

  /** The weight of the lowest digit that is used before the padding. */
  function Unused(pads: nat): nat { if pads == 0 then 1 else if pads == 1 then 4 else 16 }

  /** t is s with the unused bits before the padding cleared. */
  ghost predicate Clears(s: bytes, t: bytes) {
    && |t| == |s| && Pads(t) == Pads(s)
    && forall i :: 0 <= i < |s| ==>
         if IsDigit(s[i]) && i == |s| - Pads(s) - 1 then
           IsDigit(t[i]) && DecodeDigit(t[i]) == DecodeDigit(s[i]) / Unused(Pads(s)) * Unused(Pads(s))
         else t[i] == s[i]
  }

  lemma DigitBack(c: byte)
    requires IsDigit(c)
    ensures EncodeDigit(DecodeDigit(c)) == c
  {
  }

  lemma DigitsBack(d0: nat, d1: nat, d2: nat, d3: nat)
    requires d0 < 64 && d1 < 64 && d2 < 64 && d3 < 64
    ensures var a, b, c := FirstByte(d0, d1), SecondByte(d1, d2), ThirdByte(d2, d3);
            && a / 4 == d0 && a % 4 * 16 + b / 16 == d1 && b % 16 * 4 + c / 64 == d2 && c % 64 == d3
            && a % 4 * 16 == d1 / 16 * 16 && b % 16 * 4 == d2 / 4 * 4
  {
  }

  /** The first group of a text that goes on: its characters, and the rest of the text. */
  lemma EncodedTail(s: bytes)
    requires |s| > 4
    ensures IsEncoded(s) <==> IsDigit(s[0]) && IsDigit(s[1]) && IsDigit(s[2]) && IsDigit(s[3]) && IsEncoded(s[4..])
    ensures Pads(s[4..]) == Pads(s) || |s| == 5
  {
    hide IsDigit;
    var t := s[4..];
    assert forall i :: 0 <= i < |t| ==> t[i] == s[i + 4];
    if IsEncoded(t) {
      forall i | 4 <= i < |s| - 2 ensures IsDigit(s[i]) {
        assert IsDigit(t[i - 4]);
      }
    }
  }

  lemma DecodeStep(s: bytes)
    requires |s| > 4
    ensures var tail := DecodeQuads(s[4..]);
            if IsDigit(s[0]) && IsDigit(s[1]) && IsDigit(s[2]) && IsDigit(s[3]) && tail.Some? then
              DecodeQuads(s) == Some([FirstByte(DecodeDigit(s[0]), DecodeDigit(s[1])), SecondByte(DecodeDigit(s[1]), DecodeDigit(s[2])),
                                      ThirdByte(DecodeDigit(s[2]), DecodeDigit(s[3]))] + tail.value)
            else DecodeQuads(s).None?
  {
    hide FirstByte, SecondByte, ThirdByte, DecodeDigit;
  }

  lemma LastGroupForm(s: bytes)
    requires |s| <= 4
    ensures DecodeQuads(s).Some? <==> IsEncoded(s)
    ensures s != [] && DecodeQuads(s).Some? ==>
              && |s| == 4 && IsDigit(s[0]) && IsDigit(s[1])
              && var a := FirstByte(DecodeDigit(s[0]), DecodeDigit(s[1]));
              if s[2] == PAD then s[3] == PAD && DecodeQuads(s) == Some([a])
              else
                && IsDigit(s[2])
                && var b := SecondByte(DecodeDigit(s[1]), DecodeDigit(s[2]));
                if s[3] == PAD then DecodeQuads(s) == Some([a, b])
                else IsDigit(s[3]) && DecodeQuads(s) == Some([a, b, ThirdByte(DecodeDigit(s[2]), DecodeDigit(s[3]))])
  {
    hide DecodeDigit, FirstByte, SecondByte, ThirdByte;
    if |s| == 4 {
      assert s[4..] == [];
      DecodeNothing();
      if IsDigit(s[0]) && IsDigit(s[1]) && IsDigit(s[2]) && IsDigit(s[3]) {
        var three := [FirstByte(DecodeDigit(s[0]), DecodeDigit(s[1])), SecondByte(DecodeDigit(s[1]), DecodeDigit(s[2])),
                      ThirdByte(DecodeDigit(s[2]), DecodeDigit(s[3]))];
        assert three + [] == three;
      }
    }
  }

  lemma LastGroup(s: bytes)
    requires |s| <= 4
    ensures DecodeQuads(s).Some? <==> IsEncoded(s)
    ensures DecodeQuads(s).Some? ==> Clears(s, Encode(DecodeQuads(s).value))
  {
    hide EncodeDigit, DecodeDigit, FirstByte, SecondByte, ThirdByte, DecodeQuads;
    LastGroupForm(s);
    if s == [] {
      DecodeNothing();
    } else if DecodeQuads(s).Some? {
      if s[2] == PAD {
        ClearsOne(s);
      } else if s[3] == PAD {
        ClearsTwo(s);
      } else {
        ClearsThree(s);
      }
    }
  }

  lemma ClearsOne(s: bytes)
    requires |s| == 4 && IsDigit(s[0]) && IsDigit(s[1]) && s[2] == s[3] == PAD
    ensures Clears(s, Encode([FirstByte(DecodeDigit(s[0]), DecodeDigit(s[1]))]))
  {
    hide EncodeDigit, DecodeDigit, FirstByte;
    var d0, d1 := DecodeDigit(s[0]), DecodeDigit(s[1]);
    DigitsBack(d0, d1, 0, 0);
    DigitBack(s[0]);
    var a := FirstByte(d0, d1);
    var t := [EncodeDigit(a / 4), EncodeDigit(a % 4 * 16), PAD, PAD];
    assert Encode([a]) == t && t[0] == s[0] && Pads(s) == Pads(t) == 2;
  }

  lemma ClearsTwo(s: bytes)
    requires |s| == 4 && IsDigit(s[0]) && IsDigit(s[1]) && IsDigit(s[2]) && s[3] == PAD
    ensures Clears(s, Encode([FirstByte(DecodeDigit(s[0]), DecodeDigit(s[1])), SecondByte(DecodeDigit(s[1]), DecodeDigit(s[2]))]))
  {
    hide EncodeDigit, DecodeDigit, FirstByte, SecondByte;
    var d0, d1, d2 := DecodeDigit(s[0]), DecodeDigit(s[1]), DecodeDigit(s[2]);
    DigitsBack(d0, d1, d2, 0);
    DigitBack(s[0]);
    DigitBack(s[1]);
    var a, b := FirstByte(d0, d1), SecondByte(d1, d2);
    var t := [EncodeDigit(a / 4), EncodeDigit(a % 4 * 16 + b / 16), EncodeDigit(b % 16 * 4), PAD];
    assert Encode([a, b]) == t && t[0] == s[0] && t[1] == s[1] && Pads(s) == Pads(t) == 1;
  }

  lemma ClearsThree(s: bytes)
    requires |s| == 4 && IsDigit(s[0]) && IsDigit(s[1]) && IsDigit(s[2]) && IsDigit(s[3])
    ensures Clears(s, Encode([FirstByte(DecodeDigit(s[0]), DecodeDigit(s[1])), SecondByte(DecodeDigit(s[1]), DecodeDigit(s[2])),
                              ThirdByte(DecodeDigit(s[2]), DecodeDigit(s[3]))]))
  {
    hide Clears, EncodeTriple, EncodeDigit, DecodeDigit, FirstByte, SecondByte, ThirdByte, Encode;
    var d0, d1, d2, d3 := DecodeDigit(s[0]), DecodeDigit(s[1]), DecodeDigit(s[2]), DecodeDigit(s[3]);
    EncodeThree(FirstByte(d0, d1), SecondByte(d1, d2), ThirdByte(d2, d3));
    TripleBack(s[0], s[1], s[2], s[3]);
    assert s == [s[0], s[1], s[2], s[3]];
    ClearsNothing(s);
  }

  /** Encoding the three bytes of a group gives the group back. */
  lemma TripleBack(c0: byte, c1: byte, c2: byte, c3: byte)
    requires IsDigit(c0) && IsDigit(c1) && IsDigit(c2) && IsDigit(c3)
    ensures var d0, d1, d2, d3 := DecodeDigit(c0), DecodeDigit(c1), DecodeDigit(c2), DecodeDigit(c3);
            EncodeTriple(FirstByte(d0, d1), SecondByte(d1, d2), ThirdByte(d2, d3)) == [c0, c1, c2, c3]
  {
    hide EncodeDigit, DecodeDigit, FirstByte, SecondByte, ThirdByte, IsDigit;
    DigitsBack(DecodeDigit(c0), DecodeDigit(c1), DecodeDigit(c2), DecodeDigit(c3));
    DigitBack(c0);
    DigitBack(c1);
    DigitBack(c2);
    DigitBack(c3);
  }

  lemma ClearsNothing(s: bytes)
    requires Pads(s) == 0
    ensures Clears(s, s)
  {
    hide DecodeDigit, IsDigit;
  }

  lemma EncodeThree(a: byte, b: byte, c: byte)
    ensures Encode([a, b, c]) == EncodeTriple(a, b, c)
  {
    hide EncodeTriple;
    assert [a, b, c][3..] == [];
  }

  lemma ClearsGroup(s: bytes, a: byte, b: byte, c: byte, tail: bytes)
    requires |s| > 4 && IsEncoded(s) && Clears(s[4..], Encode(tail)) && EncodeTriple(a, b, c) == s[..4]
    ensures Clears(s, Encode([a, b, c] + tail))
  {
    hide EncodeDigit, DecodeDigit, IsDigit, Unused, EncodeTriple;
    var t := Encode([a, b, c] + tail);
    assert ([a, b, c] + tail)[3..] == tail;
    assert t == s[..4] + Encode(tail);
    EncodedTail(s);
    EncodedTail(t);
  }

  lemma {:induction false} DecodeQuadsExactly(s: bytes)
    ensures DecodeQuads(s).Some? <==> IsEncoded(s)
    ensures DecodeQuads(s).Some? ==> Clears(s, Encode(DecodeQuads(s).value))
    decreases |s|
  {
    hide DecodeQuads, IsEncoded, Clears, Encode, FirstByte, SecondByte, ThirdByte, IsDigit, DecodeDigit, EncodeTriple;
    if |s| <= 4 {
      LastGroup(s);
    } else {
      DecodeQuadsExactly(s[4..]);
      EncodedTail(s);
      DecodeStep(s);
      if DecodeQuads(s).Some? {
        var d0, d1, d2, d3 := DecodeDigit(s[0]), DecodeDigit(s[1]), DecodeDigit(s[2]), DecodeDigit(s[3]);
        TripleBack(s[0], s[1], s[2], s[3]);
        assert s[..4] == [s[0], s[1], s[2], s[3]];
        ClearsGroup(s, FirstByte(d0, d1), SecondByte(d1, d2), ThirdByte(d2, d3), DecodeQuads(s[4..]).value);
      }
    }
  }

  predicate IsNewline(c: byte) { c == 10 || c == 13 }

  /** Newlines do not matter, wherever they are. */
  lemma {:induction false} NewlineIsSkipped(a: bytes, c: byte, b: bytes)
    requires IsNewline(c)
    ensures Decode(a + [c] + b) == Decode(a + b)
  {
    hide DecodeQuads;
    StripSkips(a, c, b);
  }

  lemma {:induction false} StripSkips(a: bytes, c: byte, b: bytes)
    requires IsNewline(c)
    ensures StripNewlines(a + [c] + b) == StripNewlines(a + b)
  {
    if a == [] {
      assert (a + [c] + b)[1..] == a + b;
    } else {
      StripSkips(a[1..], c, b);
      assert (a + [c] + b)[1..] == a[1..] + [c] + b && (a + b)[1..] == a[1..] + b;
    }
  }

  lemma {:induction false} StripNone(s: bytes)
    requires forall i :: 0 <= i < |s| ==> !IsNewline(s[i])
    ensures StripNewlines(s) == s
  {
    if s != [] {
      StripNone(s[1..]);
      assert s == [s[0]] + s[1..];
    }
  }

  /**
   Exactly the texts of section 4 of RFC 4648 decode, if they hold no newline: groups of four
   characters with at most two padding characters at the end. What is decoded encodes to the
   text again, but for the unused bits before the padding.
   */
  lemma DecodesExactly(s: bytes)
    requires forall i :: 0 <= i < |s| ==> !IsNewline(s[i])
    ensures Decode(s).Some? <==> IsEncoded(s)
    ensures Decode(s).Some? ==> Clears(s, Encode(Decode(s).value))
  {
    hide DecodeQuads, StripNewlines, IsEncoded, Clears, Encode;
    StripNone(s);
    DecodeQuadsExactly(s);
  }

  lemma EncodeInjective(a: bytes, b: bytes)
    requires Encode(a) == Encode(b)
    ensures a == b
  {
    hide *;
    RoundTrip(a);
    RoundTrip(b);
  }
}
