/** Decimal text of integers as the `%d`, `%u` and `%lu` conversions of C's
    formatted output produce it (section 7.21.6.1 of ISO/IEC 9899:2011: an
    optional minus sign followed by the digits, without leading zeros), and
    a parser that reads such text back. */
module Decimal {
  import opened Bytes

  /** ASCII '-'. */
  const Minus: byte := 0x2D

  predicate IsDigit(b: byte) {
    0x30 <= b <= 0x39
  }

  function DigitChar(d: nat): (b: byte)
    requires d < 10
    ensures IsDigit(b)
  {
    0x30 + d
  }

  function DigitValue(b: byte): (d: nat)
    requires IsDigit(b)
    ensures d < 10
    ensures DigitChar(d) == b
  {
    b - 0x30
  }

  predicate AllDigits(s: seq<byte>) {
    forall i :: 0 <= i < |s| ==> IsDigit(s[i])
  }

  /** The unsigned rendering of `n`, most significant digit first. */
  function Digits(n: nat): (s: seq<byte>)
    ensures 0 < |s| && AllDigits(s)
    ensures |s| > 1 ==> s[0] != DigitChar(0)
    ensures NUL !in s
  {
    if n < 10 then [DigitChar(n)]
    else Digits(n / 10) + [DigitChar(n % 10)]
  }

  /** The signed rendering of `i`: a minus sign for negative values. */
  function SignedText(i: int): (s: seq<byte>)
    ensures 0 < |s| && NUL !in s
    ensures s[0] == Minus <==> i < 0
  {
    if i < 0 then [Minus] + Digits(-i) else Digits(i)
  }

  /** The value of a run of decimal digits, read left to right. */
  function ParseDigits(s: seq<byte>): nat
    requires AllDigits(s)
  {
    if |s| == 0 then 0
    else ParseDigits(s[..|s| - 1]) * 10 + DigitValue(s[|s| - 1])
  }

  /** The value of an optionally signed run of decimal digits. */
  function ParseSigned(s: seq<byte>): int
    requires 0 < |s| && s[0] == Minus ==> AllDigits(s[1..])
    requires 0 < |s| && s[0] != Minus ==> AllDigits(s)
  {
    if |s| > 0 && s[0] == Minus then -(ParseDigits(s[1..]) as int) else ParseDigits(s)
  }

  /** Reading the unsigned rendering back yields the number. */
  lemma {:induction false} DigitsRoundTrip(n: nat)
    ensures ParseDigits(Digits(n)) == n
  {
    if n >= 10 {
      var s := Digits(n);
      assert s[..|s| - 1] == Digits(n / 10);
      DigitsRoundTrip(n / 10);
    }
  }

  /** Reading the signed rendering back yields the number. */
  lemma SignedRoundTrip(i: int)
    ensures var s := SignedText(i);
      (s[0] == Minus ==> AllDigits(s[1..])) && (s[0] != Minus ==> AllDigits(s))
    ensures ParseSigned(SignedText(i)) == i
  {
    if i < 0 {
      assert SignedText(i)[1..] == Digits(-i);
      DigitsRoundTrip(-i);
    } else {
      DigitsRoundTrip(i);
    }
  }

  /** Distinct numbers have distinct renderings. */
  lemma SignedTextInjective(i: int, j: int)
    requires SignedText(i) == SignedText(j)
    ensures i == j
  {
    SignedRoundTrip(i);
    SignedRoundTrip(j);
  }
}
