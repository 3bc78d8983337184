/**
 * Decimal text of whole numbers: `String(n)` as the pages and handlers write a
 * millisecond timestamp into a key, a token seed or an object path, and
 * `Number(s)` as the navigation bar reads such a timestamp back.
 */
module Decimal {
  import opened Wrappers

  predicate IsDigit(c: char) {
    '0' <= c <= '9'
  }

  predicate AllDigits(s: string) {
    forall k :: 0 <= k < |s| ==> IsDigit(s[k])
  }

  function DigitChar(d: nat): (c: char)
    requires d < 10
    ensures IsDigit(c)
  {
    ('0' as int + d) as char
  }

  function DigitValue(c: char): (d: nat)
    requires IsDigit(c)
    ensures d < 10 && DigitChar(d) == c
  {
    c as int - '0' as int
  }

  /** `String(n)` for a non-negative integer: its decimal digits, without a leading zero. */
  function FromNat(n: nat): (s: string)
    ensures |s| >= 1 && AllDigits(s)
    ensures s[0] == '0' ==> n == 0 && |s| == 1
    decreases n
  {
    if n < 10 then [DigitChar(n)] else FromNat(n / 10) + [DigitChar(n % 10)]
  }

  /** The value of a string of decimal digits, most significant first. */
  function ValueOf(s: string): nat
    requires AllDigits(s)
  {
    if |s| == 0 then 0 else 10 * ValueOf(s[..|s| - 1]) + DigitValue(s[|s| - 1])
  }

  /**
   * `Number(s)` on the strings this site stores: a non-empty run of decimal
   * digits denotes its value; anything else is NaN, written None.
   */
  function ToNumber(s: string): (r: Option<nat>)
    ensures r.Some? <==> s != "" && AllDigits(s)
  {
    if s != "" && AllDigits(s) then Some(ValueOf(s)) else None
  }

  /** Reading back a written number gives the number: `Number(String(n)) == n`. */
  lemma {:induction false} ToNumberFromNat(n: nat)
    ensures ToNumber(FromNat(n)) == Some(n)
    decreases n
  {
    var s := FromNat(n);
    if n < 10 {
      assert s == [DigitChar(n)] && s[..0] == "";
      assert ValueOf(s) == 10 * ValueOf("") + DigitValue(s[0]);
    } else {
      ToNumberFromNat(n / 10);
      assert s[..|s| - 1] == FromNat(n / 10);
      assert DigitValue(s[|s| - 1]) == n % 10;
    }
  }

  /** Distinct numbers are written differently. */
  lemma FromNatInjective(m: nat, n: nat)
    ensures FromNat(m) == FromNat(n) ==> m == n
  {
    ToNumberFromNat(m);
    ToNumberFromNat(n);
  }
}
