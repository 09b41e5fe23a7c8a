/**
  The decimal text of a square number as it crosses the wire: the sender
  writes it with `%d`, the receiver reads it back with `nextInt`. Only
  non-negative numbers are ever written (square numbers are 0 to 8), and a
  line is read back as a number only when it is a non-empty run of the
  digits 0-9.
*/
module Decimal {
  import opened Wrappers

  predicate IsDigit(ch: char) {
    '0' <= ch <= '9'
  }

  predicate AllDigits(s: string) {
    forall i :: 0 <= i < |s| ==> IsDigit(s[i])
  }

  function DigitChar(d: int): (ch: char)
    requires 0 <= d < 10
    ensures IsDigit(ch)
  {
    ('0' as int + d) as char
  }

  function DigitValue(ch: char): (d: int)
    requires IsDigit(ch)
    ensures 0 <= d < 10
  {
    ch as int - '0' as int
  }

  /** The text `%d` produces for a non-negative number, most significant digit first. */
  function Format(n: nat): (s: string)
    ensures |s| > 0 && AllDigits(s)
    ensures n < 10 <==> |s| == 1
  {
    if n < 10 then [DigitChar(n)] else Format(n / 10) + [DigitChar(n % 10)]
  }

  /** The number a string of digits denotes, read most significant digit first. */
  function Value(s: string): nat
    requires AllDigits(s)
  {
    if |s| == 0 then 0 else Value(s[..|s| - 1]) * 10 + DigitValue(s[|s| - 1])
  }

  /** The number read from a line, or None when the line is not a run of digits. */
  function Parse(s: string): (r: Option<nat>)
    ensures r.Some? <==> |s| > 0 && AllDigits(s)
  {
    if |s| > 0 && AllDigits(s) then Some(Value(s)) else None
  }

  /** Reading back what `Format` wrote gives the number that was written. */
  lemma {:induction false} ParseFormat(n: nat)
    ensures Parse(Format(n)) == Some(n)
  {
    ValueFormat(n);
  }

  lemma {:induction false} ValueFormat(n: nat)
    ensures Value(Format(n)) == n
  {
    var s := Format(n);
    if n < 10 {
      assert s[..0] == [];
    } else {
      var prefix := Format(n / 10);
      assert s[..|s| - 1] == prefix;
      ValueFormat(n / 10);
    }
  }

  /** Different numbers are written as different lines. */
  lemma FormatInjective(m: nat, n: nat)
    requires Format(m) == Format(n)
    ensures m == n
  {
    ParseFormat(m);
    ParseFormat(n);
  }
}
