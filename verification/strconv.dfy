/**
 Decimal conversion of Go's `strconv` package as used by mvcommon: `Atoi` over
 unbounded integers, and the decimal rendering it inverts.
 */
module Strconv {
  import opened Wrappers

  predicate IsDigit(c: char) {
    '0' <= c <= '9'
  }

  predicate AllDigits(s: string) {
    forall i | 0 <= i < |s| :: IsDigit(s[i])
  }

  function DigitValue(c: char): (d: nat)
    requires IsDigit(c)
    ensures d < 10
  {
    c as int - '0' as int
  }

  function DigitChar(d: nat): (c: char)
    requires d < 10
    ensures IsDigit(c) && DigitValue(c) == d
  {
    ('0' as int + d) as char
  }

  /** The value of a string of decimal digits, most significant first. */
  function DecimalValue(s: string): nat
    requires AllDigits(s)
    decreases |s|
  {
    if |s| == 0 then 0 else 10 * DecimalValue(s[..|s| - 1]) + DigitValue(s[|s| - 1])
  }

  /**
   `strconv.Atoi`: an optional sign followed by one or more ASCII digits; anything
   else (the empty string, a bare sign, any other byte) is an error. Integers are
   unbounded here; Go's range error for values beyond 64 bits is not modelled.
   */
  function Atoi(s: string): (r: Option<int>)
    ensures r.Some? <==> (|s| > 0 && AllDigits(s)) || (|s| > 1 && (s[0] == '+' || s[0] == '-') && AllDigits(s[1..]))
    ensures r.Some? && s[0] != '-' ==> r.value >= 0
    ensures AllDigits(s) && |s| > 0 ==> r == Some(DecimalValue(s) as int)
    ensures r.Some? && s[0] == '+' ==> r.value == DecimalValue(s[1..]) as int
    ensures r.Some? && s[0] == '-' ==> r.value == -(DecimalValue(s[1..]) as int)
  {
    if |s| > 0 && (s[0] == '+' || s[0] == '-') then
      var digits := s[1..];
      if |digits| > 0 && AllDigits(digits) then
        Some(if s[0] == '-' then -(DecimalValue(digits) as int) else DecimalValue(digits) as int)
      else
        None
    else if |s| > 0 && AllDigits(s) then
      Some(DecimalValue(s) as int)
    else
      None
  }

  /** The shortest decimal rendering of `n` (`strconv.Itoa` on a non-negative value). */
  function ShowNat(n: nat): (s: string)
    ensures |s| > 0 && AllDigits(s)
  {
    if n < 10 then [DigitChar(n)] else ShowNat(n / 10) + [DigitChar(n % 10)]
  }

  /** Reading back a rendered number gives the number. */
  lemma {:induction false} DecimalValueShowNat(n: nat)
    ensures DecimalValue(ShowNat(n)) == n
  {
    var s := ShowNat(n);
    if n >= 10 {
      DecimalValueShowNat(n / 10);
      assert s[..|s| - 1] == ShowNat(n / 10);
    }
  }

  /** `Atoi` inverts `ShowNat`, with or without a leading plus sign. */
  lemma AtoiShowNat(n: nat)
    ensures Atoi(ShowNat(n)) == Some(n)
    ensures Atoi("+" + ShowNat(n)) == Some(n)
  {
    DecimalValueShowNat(n);
    assert ("+" + ShowNat(n))[1..] == ShowNat(n);
  }
}
