/** Decimal renderings of integers, as JavaScript's `String(n)` and
    `padStart(width, '0')` produce them, with the parsers that read them back. */
module Decimal {

  predicate IsDigit(c: char) {
    '0' <= c <= '9'
  }

  predicate AllDigits(s: string) {
    forall i :: 0 <= i < |s| ==> IsDigit(s[i])
  }

  function DigitChar(d: int): (c: char)
    requires 0 <= d < 10
    ensures IsDigit(c) && DigitValue(c) == d
  {
    (48 + d) as char
  }

  function DigitValue(c: char): int
    requires IsDigit(c)
  {
    c as int - 48
  }

  function Pow10(k: nat): (p: nat)
    ensures p >= 1
  {
    if k == 0 then 1 else 10 * Pow10(k - 1)
  }

  /** `String(n)` for a non-negative integer: its digits, no leading zero. */
  function NatToString(n: nat): (s: string)
    ensures |s| >= 1 && AllDigits(s)
    ensures |s| > 1 ==> s[0] != '0'
  {
    if n < 10 then [DigitChar(n)] else NatToString(n / 10) + [DigitChar(n % 10)]
  }

  /** The value of a string of digits, most significant first. */
  function ParseNat(s: string): nat
    requires AllDigits(s)
  {
    if s == [] then 0 else ParseNat(s[..|s| - 1]) * 10 + DigitValue(s[|s| - 1])
  }

  lemma {:induction false} ParseNatToString(n: nat)
    ensures ParseNat(NatToString(n)) == n
  {
    if n >= 10 {
      var s := NatToString(n);
      assert s[..|s| - 1] == NatToString(n / 10);
      ParseNatToString(n / 10);
    }
  }

  /** A number below 10^k takes at most k digits. */
  lemma {:induction false} NatToStringLength(n: nat, k: nat)
    requires 1 <= k && n < Pow10(k)
    ensures |NatToString(n)| <= k
  {
    if n >= 10 {
      assert k >= 2;
      NatToStringLength(n / 10, k - 1);
    }
  }

  function Zeros(k: nat): (s: string)
    ensures |s| == k && AllDigits(s)
  {
    if k == 0 then [] else ['0'] + Zeros(k - 1)
  }

  lemma {:induction false} ParseLeadingZero(s: string)
    requires AllDigits(s)
    ensures ParseNat(['0'] + s) == ParseNat(s)
  {
    if s != [] {
      var t := ['0'] + s;
      assert t[..|t| - 1] == ['0'] + s[..|s| - 1];
      ParseLeadingZero(s[..|s| - 1]);
    }
  }

  lemma {:induction false} ParseLeadingZeros(k: nat, s: string)
    requires AllDigits(s)
    ensures ParseNat(Zeros(k) + s) == ParseNat(s)
  {
    if k > 0 {
      var rest := Zeros(k - 1) + s;
      assert AllDigits(rest);
      assert Zeros(k) + s == ['0'] + rest;
      ParseLeadingZero(rest);
      ParseLeadingZeros(k - 1, s);
    } else {
      assert Zeros(k) + s == s;
    }
  }

  /** `String(n).padStart(width, '0')`: the digits of `n`, preceded by as
      many zeros as bring the string up to `width`; a longer string is kept whole. */
  function PadStart(n: nat, width: nat): (s: string)
    ensures AllDigits(s)
  {
    var digits := NatToString(n);
    var padding := if |digits| < width then width - |digits| else 0;
    Zeros(padding) + digits
  }

  /** Padding brings the number's digits up to `width`; longer digits are kept whole. */
  lemma PadStartLength(n: nat, width: nat)
    ensures |PadStart(n, width)| == if |NatToString(n)| < width then width else |NatToString(n)|
  {
  }

  /** A padded number reads back as the number. */
  lemma PadStartReadsBack(n: nat, width: nat)
    ensures ParseNat(PadStart(n, width)) == n
  {
    var digits := NatToString(n);
    ParseNatToString(n);
    ParseLeadingZeros(|PadStart(n, width)| - |digits|, digits);
  }

  /** A number below 10^width padded to `width` takes exactly `width` characters. */
  lemma PadStartWidth(n: nat, width: nat)
    requires 1 <= width && n < Pow10(width)
    ensures |PadStart(n, width)| == width
  {
    PadStartLength(n, width);
    NatToStringLength(n, width);
  }

  /** `String(i)` for any integer: a minus sign before the digits of a negative value. */
  function IntToString(i: int): (s: string)
    ensures |s| >= 1
    ensures i < 0 <==> s[0] == '-'
  {
    if i < 0 then "-" + NatToString(-i) else NatToString(i)
  }

  predicate IsIntString(s: string) {
    if |s| > 0 && s[0] == '-' then AllDigits(s[1..]) else AllDigits(s)
  }

  function ParseInt(s: string): int
    requires IsIntString(s)
  {
    if |s| > 0 && s[0] == '-' then -(ParseNat(s[1..]) as int) else ParseNat(s)
  }

  lemma IntToStringRoundTrip(i: int)
    ensures IsIntString(IntToString(i)) && ParseInt(IntToString(i)) == i
  {
    var s := IntToString(i);
    if i < 0 {
      var digits := NatToString(-i);
      assert s == "-" + digits;
      assert s[1..] == digits;
      ParseNatToString(-i);
    } else {
      assert s == NatToString(i);
      assert s[0] != '-';
      ParseNatToString(i);
    }
  }
}
