/** Decimal text of tree sizes: %d printing and strconv.ParseUint(s, 10, 64). */
module Decimal {
  import opened Bytes

  const TWO64: nat := 0x1_0000_0000_0000_0000

  predicate IsDigit(c: byte) { 48 <= c <= 57 }

  predicate IsNumeral(s: bytes) {
    s != [] && forall i :: 0 <= i < |s| ==> IsDigit(s[i])
  }

  function Value(s: bytes): nat
    requires forall i :: 0 <= i < |s| ==> IsDigit(s[i])
  {
    if s == [] then 0
    else
      assert IsDigit(Last(s));
      Value(Init(s)) * 10 + (Last(s) as int - 48)
  }

  function ParseUint(s: bytes): (r: Option<nat>)
    ensures r.Some? ==> r.value < TWO64
  {
    if IsNumeral(s) && Value(s) < TWO64 then Some(Value(s)) else None
  }

  function Print(n: nat): (s: bytes)
    ensures IsNumeral(s)
  {
    if n < 10 then [48 + n] else Print(n / 10) + [48 + n % 10]
  }

  lemma {:induction false} PrintValue(n: nat)
    ensures Value(Print(n)) == n
  {
    if n < 10 {
      assert Init([48 + n]) == [];
    } else {
      PrintValue(n / 10);
      InitLast(Print(n / 10), 48 + n % 10);
    }
  }

  /** Parsing undoes printing on the whole range of a uint64. */
  lemma RoundTrip(n: nat)
    requires n < TWO64
    ensures ParseUint(Print(n)) == Some(n)
  {
    PrintValue(n);
  }

  const ZERO: byte := 48

  function Zeros(k: nat): (s: bytes)
    ensures |s| == k && forall i :: 0 <= i < k ==> s[i] == ZERO
  {
    seq(k, i => ZERO)
  }

  /** No numeral but that of zero is printed with a leading zero. */
  lemma {:induction false} PrintHasNoLeadingZero(n: nat)
    ensures Print(n)[0] == ZERO <==> n == 0
  {
    if n >= 10 {
      PrintHasNoLeadingZero(n / 10);
    }
  }

  lemma {:induction false} ValueOfPadded(k: nat, s: bytes)
    requires forall i :: 0 <= i < |s| ==> IsDigit(s[i])
    ensures Value(Zeros(k) + s) == Value(s)
    decreases |s|, k
  {
    if s == [] {
      assert Zeros(k) + s == Zeros(k);
      if k > 0 {
        ValueOfPadded(k - 1, s);
        assert Init(Zeros(k)) == Zeros(k - 1) == Zeros(k - 1) + s;
      }
    } else {
      ValueOfPadded(k, Init(s));
      assert Init(Zeros(k) + s) == Zeros(k) + Init(s) && Last(Zeros(k) + s) == Last(s);
    }
  }

  lemma {:induction false} NumeralIsPadded(s: bytes) returns (k: nat)
    requires IsNumeral(s)
    ensures s == Zeros(k) + Print(Value(s))
    decreases |s|
  {
    InitThenLast(s);
    if |s| == 1 {
      k := 0;
      assert Init(s) == [];
    } else {
      var j := NumeralIsPadded(Init(s));
      if Value(Init(s)) == 0 {
        k := j + 1;
        assert Zeros(j) + [ZERO] == Zeros(k);
      } else {
        k := j;
      }
    }
  }

  /** What is parsed are exactly the printed numbers below 2^64, with any number of zeros before them. */
  lemma ParsesExactly(s: bytes, n: nat)
    ensures ParseUint(s) == Some(n) <==> n < TWO64 && exists k :: s == Zeros(k) + Print(n)
  {
    hide Value, Print;
    if ParseUint(s) == Some(n) {
      var k := NumeralIsPadded(s);
    }
    if n < TWO64 && exists k :: s == Zeros(k) + Print(n) {
      var k :| s == Zeros(k) + Print(n);
      PrintValue(n);
      ValueOfPadded(k, Print(n));
    }
  }
}
