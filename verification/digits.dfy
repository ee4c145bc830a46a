/** Fixed-width decimal digit strings, as written by .NET's `yyyy`, `MM`, `ffffff`
    format specifiers and read back by `DateTime.ParseExact`. Only ASCII digits count. */
module Digits {
  function Pow10(k: nat): (r: nat)
    ensures r >= 1
  {
    if k == 0 then 1 else 10 * Pow10(k - 1)
  }

  predicate IsDigit(c: char) { '0' <= c <= '9' }

  predicate AllDigits(s: string) { forall i :: 0 <= i < |s| ==> IsDigit(s[i]) }

  function DigitChar(d: nat): (c: char)
    requires d < 10
    ensures IsDigit(c) && DigitValue(c) == d
  {
    (('0' as int) + d) as char
  }

  function DigitValue(c: char): nat
    requires IsDigit(c)
  {
    (c as int) - ('0' as int)
  }

  /** `v` written in exactly `k` digits, with leading zeros. */
  function Padded(v: nat, k: nat): (s: string)
    requires v < Pow10(k)
    ensures |s| == k && AllDigits(s)
  {
    if k == 0 then [] else Padded(v / 10, k - 1) + [DigitChar(v % 10)]
  }

  /** The value of a string of digits, most significant first. */
  function ValueOf(s: string): (v: nat)
    requires AllDigits(s)
    ensures v < Pow10(|s|)
  {
    if s == [] then 0 else ValueOf(s[..|s| - 1]) * 10 + DigitValue(s[|s| - 1])
  }

  /** Reading a padded number gives the number back. */
  lemma {:induction false} ValueOfPadded(v: nat, k: nat)
    requires v < Pow10(k)
    ensures ValueOf(Padded(v, k)) == v
  {
    if k > 0 {
      var s := Padded(v, k);
      assert s[..k - 1] == Padded(v / 10, k - 1);
      ValueOfPadded(v / 10, k - 1);
    }
  }

  /** Writing the value of a digit string in as many digits gives the string back. */
  lemma {:induction false} PaddedValueOf(s: string)
    requires AllDigits(s)
    ensures Padded(ValueOf(s), |s|) == s
  {
    if s != [] {
      var p := s[..|s| - 1];
      var c := s[|s| - 1];
      LastDigit(ValueOf(p), DigitValue(c));
      PaddedValueOf(p);
      DigitCharOfValue(c);
      assert s == p + [c];
    }
  }

  /** Appending a digit d to a number a: the tenth is a and the last digit is d. */
  lemma LastDigit(a: nat, d: nat)
    requires d < 10
    ensures (a * 10 + d) / 10 == a && (a * 10 + d) % 10 == d
  {
  }

  lemma DigitCharOfValue(c: char)
    requires IsDigit(c)
    ensures DigitChar(DigitValue(c)) == c
  {
  }

  /** A multiple of ten written in k+1 digits ends in '0', after the k-digit form of its tenth. */
  lemma PaddedShift(v: nat, k: nat)
    requires v < Pow10(k)
    ensures 10 * v < Pow10(k + 1)
    ensures Padded(10 * v, k + 1) == Padded(v, k) + "0"
  {
    assert (10 * v) / 10 == v && (10 * v) % 10 == 0;
  }

  /** Decimal text of a natural number, without leading zeros, as `$"{i}"` writes an index. */
  function NatToString(n: nat): (s: string)
    ensures |s| >= 1
  {
    if n < 10 then [DigitChar(n)] else NatToString(n / 10) + [DigitChar(n % 10)]
  }

  /** The text is decimal digits without a leading zero, and reads back as the number. */
  lemma {:induction false} NatToStringDecimal(n: nat)
    ensures AllDigits(NatToString(n))
    ensures ValueOf(NatToString(n)) == n
    ensures |NatToString(n)| > 1 ==> NatToString(n)[0] != '0'
  {
    if n >= 10 {
      NatToStringDecimal(n / 10);
      var p := NatToString(n / 10);
      var s := NatToString(n);
      assert s == p + [DigitChar(n % 10)];
      assert s[..|s| - 1] == p;
    }
  }
}
