/** Decimal text of natural numbers: `String(n)` for a non-negative integer,
    `padStart` with zeros, and a parser that reads such text back. */
module Decimal {

  predicate IsDigit(c: char) {
    '0' <= c <= '9'
  }

  predicate AllDigits(s: string) {
    forall i :: 0 <= i < |s| ==> IsDigit(s[i])
  }

  function DigitChar(d: nat): (c: char)
    requires d < 10
    ensures IsDigit(c)
  {
    ('0' as int + d) as char
  }

  function DigitValue(c: char): nat
    requires IsDigit(c)
  {
    (c as int) - ('0' as int)
  }

  /** `String(n)` for a natural number: the shortest decimal numeral, no sign,
      no leading zeros. */
  function ToDecimal(n: nat): (r: string)
    ensures |r| > 0 && AllDigits(r)
    ensures |r| > 1 ==> r[0] != '0'
    decreases n
  {
    if n < 10 then [DigitChar(n)] else ToDecimal(n / 10) + [DigitChar(n % 10)]
  }

  /** The value of a string of decimal digits (the empty string reads as 0). */
  function ParseDecimal(s: string): nat
    requires AllDigits(s)
    decreases |s|
  {
    if |s| == 0 then 0 else ParseDecimal(s[..|s| - 1]) * 10 + DigitValue(s[|s| - 1])
  }

  /** `s.padStart(width, fill)`: prefixes copies of `fill` until the string
      is `width` long; a string already that long is unchanged. */
  function PadStart(s: string, width: nat, fill: char): (r: string)
    ensures |r| == if |s| < width then width else |s|
    ensures r[|r| - |s|..] == s
    ensures forall i :: 0 <= i < |r| - |s| ==> r[i] == fill
  {
    var padding := if |s| < width then width - |s| else 0;
    seq(padding, _ => fill) + s
  }

  /** Reading back the numeral gives the number. */
  lemma {:induction false} ParseToDecimal(n: nat)
    ensures ParseDecimal(ToDecimal(n)) == n
    decreases n
  {
    if n >= 10 {
      var r := ToDecimal(n);
      assert r[..|r| - 1] == ToDecimal(n / 10);
      ParseToDecimal(n / 10);
    }
  }

  /** Leading zeros do not change the value that is read. */
  lemma {:induction false} ParseLeadingZeros(z: string, s: string)
    requires AllDigits(s)
    requires forall i :: 0 <= i < |z| ==> z[i] == '0'
    ensures AllDigits(z + s)
    ensures ParseDecimal(z + s) == ParseDecimal(s)
    decreases |s|
  {
    var w := z + s;
    assert AllDigits(w) by {
      forall i | 0 <= i < |w| ensures IsDigit(w[i]) {
        if i < |z| { assert w[i] == z[i]; } else { assert w[i] == s[i - |z|]; }
      }
    }
    if |s| == 0 {
      assert w == z;
      ParseZeros(z);
    } else {
      assert w[..|w| - 1] == z + s[..|s| - 1];
      assert w[|w| - 1] == s[|s| - 1];
      ParseLeadingZeros(z, s[..|s| - 1]);
    }
  }

  /** A string of zeros reads as 0. */
  lemma {:induction false} ParseZeros(z: string)
    requires forall i :: 0 <= i < |z| ==> z[i] == '0'
    ensures AllDigits(z) && ParseDecimal(z) == 0
    decreases |z|
  {
    if |z| > 0 {
      ParseZeros(z[..|z| - 1]);
    }
  }

  /** Zero-padding a numeral keeps its value: `String(n).padStart(w, '0')`
      reads back as `n` for every width. */
  lemma PaddedDecimalValue(n: nat, width: nat)
    ensures AllDigits(PadStart(ToDecimal(n), width, '0'))
    ensures ParseDecimal(PadStart(ToDecimal(n), width, '0')) == n
  {
    var s := ToDecimal(n);
    var r := PadStart(s, width, '0');
    var z := r[..|r| - |s|];
    assert r == z + s;
    ParseLeadingZeros(z, s);
    ParseToDecimal(n);
  }

  /** Different numbers have different zero-padded numerals. */
  lemma PaddedDecimalInjective(m: nat, n: nat, width: nat)
    requires PadStart(ToDecimal(m), width, '0') == PadStart(ToDecimal(n), width, '0')
    ensures m == n
  {
    PaddedDecimalValue(m, width);
    PaddedDecimalValue(n, width);
  }
}
