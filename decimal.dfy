/** Decimal text of an unsigned number, as std::to_string(uint64_t) produces it. */
module Decimals {

  predicate IsDigit(c: char) {
    '0' <= c <= '9'
  }

  predicate IsDigitString(s: string) {
    forall i :: 0 <= i < |s| ==> IsDigit(s[i])
  }

  /** Canonical: at least one digit and no leading zero unless the number is 0. */
  predicate IsCanonical(s: string) {
    |s| > 0 && IsDigitString(s) && (s[0] == '0' ==> s == "0")
  }

  /** The number a string of decimal digits denotes. */
  function DecimalValue(s: string): nat
    requires IsDigitString(s)
  {
    if s == [] then 0 else DecimalValue(s[..|s| - 1]) * 10 + (s[|s| - 1] as int - '0' as int)
  }

  function Digit(v: nat): (c: char)
    requires v < 10
    ensures IsDigit(c) && c as int - '0' as int == v
  {
    ('0' as int + v) as char
  }

  /** std::to_string(v). */
  function Decimal(v: nat): (s: string)
    ensures IsCanonical(s)
    ensures DecimalValue(s) == v
  {
    if v < 10 then [Digit(v)]
    else
      var p := Decimal(v / 10);
      var s := p + [Digit(v % 10)];
      assert s[..|s| - 1] == p;
      s
  }

  /** Decimal is the only canonical spelling of a number, so it is injective. */
  lemma {:induction false} DecimalOfValue(s: string)
    requires IsCanonical(s)
    ensures Decimal(DecimalValue(s)) == s
  {
    var v := DecimalValue(s);
    if |s| > 1 {
      var p := s[..|s| - 1];
      DecimalOfValue(p);
      DecimalValuePositive(p);
      assert v / 10 == DecimalValue(p) && v % 10 == s[|s| - 1] as int - '0' as int;
    }
  }

  lemma {:induction false} DecimalValuePositive(s: string)
    requires IsDigitString(s) && |s| > 0 && s[0] != '0'
    ensures DecimalValue(s) > 0
  {
    if |s| > 1 {
      DecimalValuePositive(s[..|s| - 1]);
    }
  }

  lemma DecimalInjective(a: nat, b: nat)
    ensures Decimal(a) == Decimal(b) <==> a == b
  {
  }
}
