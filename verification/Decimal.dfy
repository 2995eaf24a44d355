/** Decimal numerals, as printf writes them, and their reading. */
module Decimal {

  predicate IsDigit(c: char) {
    '0' <= c <= '9'
  }

  predicate AllDigits(s: string) {
    forall i | 0 <= i < |s| :: IsDigit(s[i])
  }

  function DigitValue(c: char): nat
    requires IsDigit(c)
  {
    c as int - '0' as int
  }

  function Digit(d: nat): (c: char)
    requires d < 10
    ensures IsDigit(c) && DigitValue(c) == d
  {
    ('0' as int + d) as char
  }

  /** "%d" of a number that is not negative. */
  function Dec(n: nat): (s: string)
    ensures s != [] && AllDigits(s)
  {
    if n < 10 then [Digit(n)] else Dec(n / 10) + [Digit(n % 10)]
  }

  function ReadDec(s: string): nat
    requires AllDigits(s)
  {
    if s == [] then 0 else ReadDec(s[..|s| - 1]) * 10 + DigitValue(s[|s| - 1])
  }

  lemma {:induction false} ReadDecDec(n: nat)
    ensures ReadDec(Dec(n)) == n
  {
    if n >= 10 {
      ReadDecDec(n / 10);
      assert Dec(n)[..|Dec(n)| - 1] == Dec(n / 10);
    } else {
      assert Dec(n)[..0] == [];
    }
  }

  /** "%d" of any number. */
  function DecInt(x: int): (s: string)
    ensures s != [] && (s[0] == '-' <==> x < 0)
    ensures AllDigits(if x < 0 then s[1..] else s)
  {
    if x < 0 then ['-'] + Dec(-x) else Dec(x)
  }

  predicate IsNumeral(s: string) {
    s != [] && AllDigits(if s[0] == '-' then s[1..] else s)
  }

  function ReadInt(s: string): int
    requires IsNumeral(s)
  {
    if s[0] == '-' then 0 - (ReadDec(s[1..]) as int) else ReadDec(s)
  }

  lemma ReadIntDecInt(x: int)
    ensures IsNumeral(DecInt(x)) && ReadInt(DecInt(x)) == x
  {
    ReadDecDec(if x < 0 then -x else x);
    assert x < 0 ==> DecInt(x)[1..] == Dec(-x);
  }

  /** No leading zeros: a numeral longer than one digit starts with another digit. */
  lemma {:induction false} NoLeadingZero(n: nat)
    ensures n > 0 ==> Dec(n)[0] != '0'
    ensures |Dec(n)| == 1 <==> n < 10
  {
    if n >= 10 {
      NoLeadingZero(n / 10);
    } else {
      assert DigitValue(Dec(n)[0]) == n;
    }
  }

  /** Base ten: a digit put behind a numeral stands for ten times its number and the digit. */
  lemma DigitAppended(n: nat, d: nat)
    requires d < 10
    ensures Dec(d) == ["0123456789"[d]]
    ensures n > 0 ==> Dec(10 * n + d) == Dec(n) + ["0123456789"[d]]
  {
  }
}
