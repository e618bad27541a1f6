/** Plain decimal numerals: no sign, no padding, no leading zero. This is
    how JavaScript renders a non-negative integer below 10^21 when it is
    concatenated to a string. */
module Decimal {
  import opened Chars

  function DigitChar(d: nat): (c: char)
    requires d < 10
    ensures IsDigit(c) && c as int - '0' as int == d
  {
    ('0' as int + d) as char
  }

  function DigitValue(c: char): (d: nat)
    requires IsDigit(c)
    ensures d < 10 && DigitChar(d) == c
  {
    c as int - '0' as int
  }

  predicate AllDigits(s: string)
  {
    forall i :: 0 <= i < |s| ==> IsDigit(s[i])
  }

  /** A numeral of a positive number: digits only, the first one not zero. */
  predicate IsPositiveNumeral(s: string)
  {
    |s| > 0 && AllDigits(s) && s[0] != '0'
  }

  /** The decimal numeral of `n`. */
  function FromNat(n: nat): (s: string)
    ensures |s| > 0 && AllDigits(s)
    ensures |s| > 1 ==> s[0] != '0'
    ensures n > 0 <==> IsPositiveNumeral(s)
    decreases n
  {
    if n < 10 then [DigitChar(n)] else FromNat(n / 10) + [DigitChar(n % 10)]
  }

  /** The number a string of digits denotes, most significant digit first. */
  function ToNat(s: string): (n: nat)
    requires AllDigits(s)
    decreases |s|
  {
    if s == [] then 0 else ToNat(s[..|s| - 1]) * 10 + DigitValue(s[|s| - 1])
  }

  /** Reading back a rendered numeral gives the number. */
  lemma {:induction false} ToNatFromNat(n: nat)
    ensures ToNat(FromNat(n)) == n
    decreases n
  {
    var s := FromNat(n);
    if n >= 10 {
      ToNatFromNat(n / 10);
      assert s[..|s| - 1] == FromNat(n / 10);
    } else {
      assert s[..|s| - 1] == [];
    }
  }

  lemma {:induction false} ToNatPositive(s: string)
    requires IsPositiveNumeral(s)
    ensures ToNat(s) > 0
    decreases |s|
  {
    if |s| > 1 {
      ToNatPositive(s[..|s| - 1]);
    } else {
      assert s[..|s| - 1] == [];
    }
  }

  /** Rendering the number a positive numeral denotes gives the numeral back:
      such numerals and positive numbers correspond one to one. */
  lemma {:induction false} FromNatToNat(s: string)
    requires IsPositiveNumeral(s)
    ensures FromNat(ToNat(s)) == s
    decreases |s|
  {
    var init, last := s[..|s| - 1], s[|s| - 1];
    if |s| == 1 {
      assert init == [];
      assert s == [last];
    } else {
      ToNatPositive(init);
      FromNatToNat(init);
      var n := ToNat(s);
      assert n / 10 == ToNat(init) && n % 10 == DigitValue(last);
      assert s == init + [last];
    }
  }

  lemma FromNatInjective(m: nat, n: nat)
    requires FromNat(m) == FromNat(n)
    ensures m == n
  {
    ToNatFromNat(m);
    ToNatFromNat(n);
  }
}
