/** Decimal text of integers, as Java's string concatenation prints an `Integer`
    or a `Long` (through `Integer.toString` and `Long.toString`): the digits of the
    absolute value, most significant first and without leading zeros, after a
    minus sign when the value is negative. The parsers are the partners of the
    printers: each round trip is proved in both directions. */
module Decimal {

  datatype Option<T> = None | Some(value: T)

  predicate IsDigit(c: char) {
    '0' <= c <= '9'
  }

  predicate IsDigits(t: string) {
    forall i :: 0 <= i < |t| ==> IsDigit(t[i])
  }

  /** A canonical numeral: one or more digits, and no leading zero unless the numeral is "0". */
  predicate IsNumeral(t: string) {
    |t| >= 1 && IsDigits(t) && (t[0] == '0' ==> |t| == 1)
  }

  function DigitValue(c: char): (d: nat)
    requires IsDigit(c)
    ensures d < 10
  {
    c as int - '0' as int
  }

  function DigitChar(d: nat): (c: char)
    requires d < 10
    ensures IsDigit(c) && DigitValue(c) == d
  {
    ('0' as int + d) as char
  }

  /** The text `Long.toString(n)` yields for a non-negative `n`. */
  function NatToString(n: nat): (t: string)
    ensures IsNumeral(t)
    ensures t[0] == '0' <==> n == 0
    decreases n
  {
    if n < 10 then [DigitChar(n)] else NatToString(n / 10) + [DigitChar(n % 10)]
  }

  /** The text `Integer.toString(i)` yields. */
  function IntToString(i: int): (t: string)
    ensures |t| >= 1
    ensures forall k :: 0 <= k < |t| ==> t[k] == '-' || IsDigit(t[k])
    ensures t[0] == '-' <==> i < 0
    ensures IsNumeral(if i < 0 then t[1..] else t)
  {
    if i < 0 then "-" + NatToString(-i) else NatToString(i)
  }

  /** The number a string of digits denotes. */
  function DigitsValue(t: string): nat
    requires IsDigits(t)
    decreases |t|
  {
    if t == [] then 0 else DigitsValue(t[..|t| - 1]) * 10 + DigitValue(t[|t| - 1])
  }

  /** Reads a canonical numeral; anything else is refused. */
  function ParseNat(t: string): Option<nat> {
    if IsNumeral(t) then Some(DigitsValue(t)) else None
  }

  /** Reads a canonical integer numeral: a canonical numeral, or a minus sign
      followed by a canonical numeral other than "0". */
  function ParseInt(t: string): Option<int> {
    if |t| >= 2 && t[0] == '-' && IsNumeral(t[1..]) && t[1] != '0' then Some(0 - DigitsValue(t[1..]))
    else if IsNumeral(t) then Some(DigitsValue(t))
    else None
  }

  lemma {:induction false} NatToStringValue(n: nat)
    ensures DigitsValue(NatToString(n)) == n
    decreases n
  {
    if n >= 10 {
      var t := NatToString(n / 10);
      var u := t + [DigitChar(n % 10)];
      assert u[..|u| - 1] == t;
      NatToStringValue(n / 10);
    }
  }

  /** Printing a non-negative number and reading the text back gives the number. */
  lemma NatRoundTrip(n: nat)
    ensures ParseNat(NatToString(n)) == Some(n)
  {
    NatToStringValue(n);
  }

  /** Every text ParseNat accepts is exactly what NatToString prints for its value. */
  lemma {:induction false} ParseNatCanonical(t: string)
    requires ParseNat(t).Some?
    ensures NatToString(ParseNat(t).value) == t
    decreases |t|
  {
    var n := DigitsValue(t);
    if |t| == 1 {
      assert t[..|t| - 1] == [];
      assert n == DigitsValue([]) * 10 + DigitValue(t[0]);
      assert DigitChar(n) == t[0];
      assert t == [t[0]];
    } else {
      var init := t[..|t| - 1];
      assert init[0] == t[0];
      assert IsNumeral(init);
      ParseNatCanonical(init);
      var m := DigitsValue(init);
      assert NatToString(m) == init;
      assert m != 0;
      var d := DigitValue(t[|t| - 1]);
      assert n == m * 10 + d;
      assert n / 10 == m && n % 10 == d;
      assert t == init + [DigitChar(d)];
    }
  }

  /** Printing an integer and reading the text back gives the integer. */
  lemma IntRoundTrip(i: int)
    ensures ParseInt(IntToString(i)) == Some(i)
  {
    if i < 0 {
      var t := IntToString(i);
      assert t[1..] == NatToString(-i);
      NatRoundTrip(-i);
    } else {
      NatRoundTrip(i);
    }
  }

  /** Every text ParseInt accepts is exactly what IntToString prints for its value. */
  lemma ParseIntCanonical(t: string)
    requires ParseInt(t).Some?
    ensures IntToString(ParseInt(t).value) == t
  {
    if |t| >= 2 && t[0] == '-' && IsNumeral(t[1..]) && t[1] != '0' {
      ParseNatCanonical(t[1..]);
      var n := DigitsValue(t[1..]);
      assert n != 0;
      assert t == "-" + t[1..];
    } else {
      ParseNatCanonical(t);
    }
  }
}
