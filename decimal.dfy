/** Decimal rendering of integers, as JavaScript template literals print them,
    and reading such text back. */
module Decimal {
  import opened Wrappers

  predicate IsDigit(c: char) { '0' as int <= c as int <= '9' as int }

  function DigitChar(d: nat): (c: char)
    requires d < 10
    ensures IsDigit(c) && DigitValue(c) == d
  {
    ['0', '1', '2', '3', '4', '5', '6', '7', '8', '9'][d]
  }

  /** `${n}` for a non-negative integer: most significant digit first, no leading zeros. */
  function NatToString(n: nat): (s: string)
    ensures |s| >= 1 && forall i :: 0 <= i < |s| ==> IsDigit(s[i])
    ensures |s| > 1 ==> s[0] != '0'
  {
    if n < 10 then [DigitChar(n)] else NatToString(n / 10) + [DigitChar(n % 10)]
  }

  function DigitValue(c: char): (d: nat)
    requires IsDigit(c)
    ensures d < 10
  {
    (c as int) - ('0' as int)
  }

  /** Reads a string of digits back as a number. */
  function ParseNat(s: string): nat
    requires forall i :: 0 <= i < |s| ==> IsDigit(s[i])
  {
    if s == [] then 0
    else ParseNat(s[..|s| - 1]) * 10 + DigitValue(s[|s| - 1])
  }

  /** The rendering loses nothing: the number can be read back. */
  lemma {:induction false} ParseNatToString(n: nat)
    ensures ParseNat(NatToString(n)) == n
  {
    var s := NatToString(n);
    if n >= 10 {
      ParseNatToString(n / 10);
      assert s[..|s| - 1] == NatToString(n / 10);
    }
  }

  predicate AllDigits(s: string) {
    forall i :: 0 <= i < |s| ==> IsDigit(s[i])
  }

  /** `${n}` for any integer: a minus sign before the digits of a negative one. */
  function IntToString(n: int): (s: string)
    ensures |s| >= 1 && (n < 0 <==> s[0] == '-')
  {
    if n < 0 then "-" + NatToString(-n) else NatToString(n)
  }

  /** Reads a decimal integer literal, an optional minus sign followed by at
      least one digit, as a database casts text compared with a number column;
      None for any other text. */
  function ParseInt(s: string): (r: Option<int>)
    ensures r.Some? ==> |s| >= 1 && AllDigits(if s[0] == '-' then s[1..] else s)
    ensures r.Some? && r.value < 0 ==> s[0] == '-'
  {
    if |s| >= 1 && AllDigits(s) then
      var v: int := ParseNat(s);
      Some(v)
    else if |s| >= 2 && s[0] == '-' && AllDigits(s[1..]) then
      var v: int := 0 - (ParseNat(s[1..]) as int);
      Some(v)
    else None
  }

  /** Every integer's text reads back as that integer. */
  lemma ParseIntToString(n: int)
    ensures ParseInt(IntToString(n)) == Some(n)
  {
    var m: nat := if n < 0 then -n else n;
    ParseNatToString(m);
    if n < 0 {
      assert IntToString(n)[1..] == NatToString(m);
    }
  }

  /** Hence distinct numbers render differently. */
  lemma NatToStringInjective(m: nat, n: nat)
    ensures NatToString(m) == NatToString(n) ==> m == n
  {
    ParseNatToString(m);
    ParseNatToString(n);
  }
}
