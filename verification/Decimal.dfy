/** Decimal text of integers, as `%d`, strconv.Atoi and strconv.ParseInt use it. */
module Decimal {
  const MAX_INT64: int := 0x7FFF_FFFF_FFFF_FFFF
  const MIN_INT64: int := -0x8000_0000_0000_0000

  predicate IsDigit(c: char) {
    '0' <= c <= '9'
  }

  ghost predicate AllDigits(s: string) {
    forall i :: 0 <= i < |s| ==> IsDigit(s[i])
  }

  function DigitChar(d: nat): (c: char)
    requires d < 10
    ensures IsDigit(c)
  {
    (d + '0' as int) as char
  }

  function DigitValue(c: char): (d: nat)
    requires IsDigit(c)
  {
    c as int - '0' as int
  }

  /** The text `%d` prints for a natural number. */
  function Dec(n: nat): (s: string)
    ensures |s| > 0 && AllDigits(s)
  {
    if n < 10 then [DigitChar(n)] else Dec(n / 10) + [DigitChar(n % 10)]
  }

  function Itoa(i: int): string {
    if i < 0 then "-" + Dec(-i) else Dec(i)
  }

  /** The number a run of digits denotes. */
  function Value(s: string): nat
    requires AllDigits(s)
  {
    if s == [] then 0 else Value(s[..|s| - 1]) * 10 + DigitValue(s[|s| - 1])
  }

  lemma {:induction false} DecValue(n: nat)
    ensures Value(Dec(n)) == n
  {
    if n >= 10 {
      DecValue(n / 10);
      assert Dec(n)[..|Dec(n)| - 1] == Dec(n / 10);
    }
  }

  lemma {:induction false} ValueAppend(s: string, c: char)
    requires AllDigits(s) && IsDigit(c)
    ensures Value(s + [c]) == Value(s) * 10 + DigitValue(c)
  {
    assert (s + [c])[..|s|] == s;
  }

  lemma ItoaInjective(i: int, j: int)
    requires Itoa(i) == Itoa(j)
    ensures i == j
  {
    if i >= 0 {
      DecValue(i);
      assert IsDigit(Itoa(i)[0]);
    } else {
      DecValue(-i);
      assert Itoa(i)[1..] == Dec(-i);
      assert Itoa(i)[0] == '-';
    }
    if j >= 0 {
      DecValue(j);
      assert IsDigit(Itoa(j)[0]);
    } else {
      DecValue(-j);
      assert Itoa(j)[1..] == Dec(-j);
    }
  }

  /** Decimal text holds digits and at most a leading minus sign. */
  lemma ItoaChars(i: int, c: char)
    requires !IsDigit(c) && c != '-'
    ensures c !in Itoa(i)
  {
  }
}
