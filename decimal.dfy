/**
 * Decimal text as Java reads and writes it: Integer.parseInt, which decides
 * whether an A-instruction holds a literal, and String.valueOf, in which
 * form the symbol table stores every address.
 */
module Decimal {
  import opened Results
  import opened Binary

  predicate IsDigit(ch: char) {
    '0' <= ch <= '9'
  }

  predicate AllDigits(s: string) {
    forall i :: 0 <= i < |s| ==> IsDigit(s[i])
  }

  /** The number a string of decimal digits denotes, most significant digit first. */
  function DecimalValue(s: string): nat
    requires AllDigits(s)
  {
    if s == [] then 0 else 10 * DecimalValue(s[..|s| - 1]) + (s[|s| - 1] as int - '0' as int)
  }

  /**
   * Integer.parseInt(s): an optional sign followed by at least one digit,
   * with a value in the int range; otherwise NumberFormatException, here None.
   */
  function ParseInt(s: string): (r: Option<int>)
    ensures r.Some? ==> IntMin <= r.value <= IntMax
  {
    if s == [] then None
    else
      var digits := if s[0] == '-' || s[0] == '+' then s[1..] else s;
      if digits == [] || !AllDigits(digits) then None
      else
        var magnitude := DecimalValue(digits);
        var v: int := if s[0] == '-' then 0 - magnitude else magnitude;
        if IntMin <= v <= IntMax then Some(v) else None
  }

  function DigitChar(d: nat): (ch: char)
    requires d < 10
    ensures IsDigit(ch) && ch as int - '0' as int == d
  {
    ('0' as int + d) as char
  }

  /** String.valueOf of a non-negative int: its decimal digits without leading zeros. */
  function ValueOf(n: nat): (s: string)
    ensures s != [] && AllDigits(s) && DecimalValue(s) == n
    ensures 1 < |s| ==> s[0] != '0'
  {
    if n < 10 then [DigitChar(n)]
    else
      var high := ValueOf(n / 10);
      var s := high + [DigitChar(n % 10)];
      assert s[..|high|] == high;
      s
  }

  /**
   * Writing an address with String.valueOf and reading it back with
   * Integer.parseInt gives the address again, so a table of such strings
   * behaves as a table of the numbers.
   */
  lemma ParseValueOf(n: nat)
    requires n <= IntMax
    ensures ParseInt(ValueOf(n)) == Some(n)
  {
  }

  /** parseInt accepts a minus sign: "-n" reads as the negative number. */
  lemma ParseNegative(n: nat)
    requires n <= -IntMin
    ensures ParseInt("-" + ValueOf(n)) == Some(0 - n)
  {
    var s := "-" + ValueOf(n);
    assert s[1..] == ValueOf(n);
  }

  /** A digit string reads as its value when that fits an int, and is no number otherwise. */
  lemma ParseDigits(s: string)
    requires s != [] && AllDigits(s)
    ensures ParseInt(s) == if DecimalValue(s) <= IntMax then Some(DecimalValue(s)) else None
  {
  }

  /** A token that starts with neither a digit nor a sign is no number. */
  lemma ParseName(s: string)
    requires s != [] && !IsDigit(s[0]) && s[0] != '-' && s[0] != '+'
    ensures ParseInt(s) == None
  {
  }
}
