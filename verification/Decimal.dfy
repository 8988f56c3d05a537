/** Unsigned decimal numerals as C's printf and strtoul see them. */
module Decimal {

  predicate IsDigit(c: char) { '0' <= c <= '9' }

  predicate AllDigits(s: string) { forall i :: 0 <= i < |s| ==> IsDigit(s[i]) }

  /** Number of decimal digits of n; zero has one. */
  function Digits(n: nat): (d: nat)
    ensures d >= 1
  {
    if n < 10 then 1 else 1 + Digits(n / 10)
  }

  /** Length of the text that "%0*lu" produces for n with field width w. */
  function Printed(n: nat, w: nat): nat {
    if w > Digits(n) then w else Digits(n)
  }

  /** The last len decimal digits of n. */
  function Numeral(n: nat, len: nat): (s: string)
    ensures |s| == len && AllDigits(s)
    decreases len
  {
    if len == 0 then "" else Numeral(n / 10, len - 1) + ['0' + (n % 10) as char]
  }

  /** The text of "%0*lu". */
  function Format(n: nat, w: nat): (s: string)
    ensures |s| == Printed(n, w) && AllDigits(s)
  {
    Numeral(n, Printed(n, w))
  }

  /** The number a digit string denotes. */
  function Value(s: string): nat
    requires AllDigits(s)
  {
    if s == "" then 0 else 10 * Value(s[..|s| - 1]) + (s[|s| - 1] - '0') as nat
  }

  lemma {:induction false} DigitsMonotone(a: nat, b: nat)
    requires a <= b
    ensures Digits(a) <= Digits(b)
  {
    if b >= 10 {
      if a >= 10 {
        DigitsMonotone(a / 10, b / 10);
      }
    }
  }

  /** Two widths that print a alike print every larger number alike. */
  lemma {:induction false} PrintedAgreesUpward(a: nat, b: nat, w: nat, w': nat)
    requires a <= b && Printed(a, w) == Printed(a, w')
    ensures Printed(b, w) == Printed(b, w')
  {
    DigitsMonotone(a, b);
  }

  lemma {:induction false} ValueOfNumeral(n: nat, len: nat)
    requires len >= Digits(n)
    ensures Value(Numeral(n, len)) == n
    decreases len
  {
    var s := Numeral(n, len);
    assert s[..len - 1] == Numeral(n / 10, len - 1);
    if n >= 10 {
      ValueOfNumeral(n / 10, len - 1);
    } else {
      ValueOfZeros(len - 1);
    }
  }

  lemma {:induction false} ValueOfZeros(len: nat)
    ensures Value(Numeral(0, len)) == 0
  {
    if len > 0 {
      var s := Numeral(0, len);
      assert s[..len - 1] == Numeral(0, len - 1);
      ValueOfZeros(len - 1);
    }
  }

  lemma {:induction false} LastDigit(v: nat, d: nat)
    requires d < 10
    ensures (10 * v + d) / 10 == v && (10 * v + d) % 10 == d
  {}

  lemma {:induction false} NumeralOfValue(s: string)
    requires AllDigits(s)
    ensures Numeral(Value(s), |s|) == s
    ensures s != "" ==> Digits(Value(s)) <= |s|
  {
    if s != "" {
      var front := s[..|s| - 1];
      NumeralOfValue(front);
      LastDigit(Value(front), (s[|s| - 1] - '0') as nat);
      assert s == front + [s[|s| - 1]];
    }
  }

  /** A digit string is the width-w text of its own value exactly when w prints that value at the string's length. */
  lemma {:induction false} FormatOfValue(s: string, w: nat)
    requires AllDigits(s) && s != ""
    ensures Format(Value(s), w) == s <==> Printed(Value(s), w) == |s|
    ensures Format(Value(s), |s|) == s
  {
    NumeralOfValue(s);
  }

  lemma {:induction false} ValueOfFormat(n: nat, w: nat)
    ensures Value(Format(n, w)) == n
  {
    ValueOfNumeral(n, Printed(n, w));
  }
}
