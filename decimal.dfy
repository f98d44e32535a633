/** Python's `str(n)` / f-string rendering of an integer, used in messages. */
module Decimal {

  function DigitChar(d: int): (c: char)
    requires 0 <= d < 10
    ensures '0' <= c <= '9'
    ensures c as int - '0' as int == d
  {
    ('0' as int + d) as char
  }

  /** The number a string of decimal digits denotes, most significant first. */
  function DecimalValue(s: string): int
    decreases |s|
  {
    if s == [] then 0 else 10 * DecimalValue(s[..|s| - 1]) + (s[|s| - 1] as int - '0' as int)
  }

  /** The decimal digits of `n`, most significant first, without leading zeros. */
  function NatToDecimal(n: nat): (s: string)
    ensures DecimalValue(s) == n
    ensures |s| >= 1
    ensures forall i :: 0 <= i < |s| ==> '0' <= s[i] <= '9'
    ensures n >= 10 <==> |s| >= 2
    ensures n >= 10 ==> s[0] != '0'
    decreases n
  {
    if n < 10 then
      assert [DigitChar(n)][..0] == [];
      [DigitChar(n)]
    else
      var s := NatToDecimal(n / 10) + [DigitChar(n % 10)];
      assert s[..|s| - 1] == NatToDecimal(n / 10);
      s
  }

  /** `str(i)` for a Python `int`: a minus sign before the digits of a negative value. */
  function IntToDecimal(i: int): (s: string)
    ensures |s| >= 1
    ensures (s[0] == '-') <==> i < 0
  {
    if i < 0 then "-" + NatToDecimal(-i) else NatToDecimal(i)
  }

  /** `str(i)` denotes `i`: the digits after an optional minus sign give its magnitude. */
  lemma IntToDecimalValue(i: int)
    ensures i >= 0 ==> DecimalValue(IntToDecimal(i)) == i
    ensures i < 0 ==> DecimalValue(IntToDecimal(i)[1..]) == -i
  {
    if i < 0 {
      assert IntToDecimal(i)[1..] == NatToDecimal(-i);
    }
  }

  /** Distinct numbers render differently. */
  lemma NatToDecimalInjective(m: nat, n: nat)
    requires NatToDecimal(m) == NatToDecimal(n)
    ensures m == n
  {
    assert DecimalValue(NatToDecimal(m)) == DecimalValue(NatToDecimal(n));
  }

  lemma IntToDecimalInjective(i: int, j: int)
    requires IntToDecimal(i) == IntToDecimal(j)
    ensures i == j
  {
    IntToDecimalValue(i);
    IntToDecimalValue(j);
    if i < 0 {
      assert DecimalValue(IntToDecimal(i)[1..]) == DecimalValue(IntToDecimal(j)[1..]);
    } else {
      assert DecimalValue(IntToDecimal(i)) == DecimalValue(IntToDecimal(j));
    }
  }
}
