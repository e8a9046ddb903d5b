/**
 * Base-ten rendering of natural numbers and its inverse. For the account
 * indices the wallet can reach (at most 2^31) this is how a JavaScript
 * template literal renders the number; JavaScript switches to exponent
 * notation only from 10^21 on.
 */
module Decimal {

  predicate IsDigit(c: char) {
    '0' <= c <= '9'
  }

  predicate AllDigits(s: string) {
    forall k :: 0 <= k < |s| ==> IsDigit(s[k])
  }

  /** A numeral in canonical form: at least one digit and no leading zero. */
  predicate IsCanonical(s: string) {
    |s| >= 1 && AllDigits(s) && (s[0] == '0' ==> |s| == 1)
  }

  function DigitChar(d: nat): (c: char)
    requires d < 10
    ensures IsDigit(c)
    ensures c as int - '0' as int == d
  {
    ('0' as int + d) as char
  }

  function DigitValue(c: char): (d: nat)
    requires IsDigit(c)
    ensures d < 10
    ensures DigitChar(d) == c
  {
    c as int - '0' as int
  }

  /** The decimal numeral of n, most significant digit first. */
  function Dec(n: nat): (s: string)
    ensures IsCanonical(s)
    ensures n < 10 <==> |s| == 1
    decreases n
  {
    if n < 10 then [DigitChar(n)] else Dec(n / 10) + [DigitChar(n % 10)]
  }

  /** The value of a string of digits (the empty string reads as 0). */
  function ParseDec(s: string): nat
    requires AllDigits(s)
    decreases |s|
  {
    if |s| == 0 then 0 else ParseDec(s[..|s| - 1]) * 10 + DigitValue(s[|s| - 1])
  }

  /** Reading back a rendered number gives the number. */
  lemma {:induction false} ParseDecOfDec(n: nat)
    ensures ParseDec(Dec(n)) == n
    decreases n
  {
    if n >= 10 {
      var s := Dec(n);
      assert s[..|s| - 1] == Dec(n / 10);
      ParseDecOfDec(n / 10);
    }
  }

  /** A canonical numeral that starts with a non-zero digit has a non-zero value. */
  lemma {:induction false} ParseDecPositive(s: string)
    requires AllDigits(s) && |s| >= 1 && s[0] != '0'
    ensures ParseDec(s) >= 1
    decreases |s|
  {
    if |s| > 1 {
      ParseDecPositive(s[..|s| - 1]);
    }
  }

  /** Rendering the value of a canonical numeral gives the numeral back. */
  lemma {:induction false} DecOfParseDec(s: string)
    requires IsCanonical(s)
    ensures Dec(ParseDec(s)) == s
    decreases |s|
  {
    var d := DigitValue(s[|s| - 1]);
    if |s| == 1 {
      assert ParseDec(s) == d;
    } else {
      var p := s[..|s| - 1];
      assert p[0] == s[0];
      ParseDecPositive(p);
      var n := ParseDec(s);
      assert n == ParseDec(p) * 10 + d;
      assert n / 10 == ParseDec(p) && n % 10 == d;
      DecOfParseDec(p);
      assert s == p + [s[|s| - 1]];
    }
  }

  /** Distinct numbers have distinct numerals. */
  lemma DecInjective(i: nat, j: nat)
    ensures Dec(i) == Dec(j) ==> i == j
  {
    ParseDecOfDec(i);
    ParseDecOfDec(j);
  }
}
