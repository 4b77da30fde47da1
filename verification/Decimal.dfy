/** Decimal numbers as printf writes them and atoi reads them. */
module Decimal {

  const DIGITS := "0123456789"

  predicate IsDigit(c: char) { '0' <= c <= '9' }

  function DigitValue(c: char): nat
    requires IsDigit(c)
  {
    (c as int) - ('0' as int)
  }

  function NatStr(n: nat): (s: string)
    ensures |s| >= 1 && forall i :: 0 <= i < |s| ==> IsDigit(s[i])
  {
    if n < 10 then [DIGITS[n]] else NatStr(n / 10) + [DIGITS[n % 10]]
  }

  function IntStr(i: int): (s: string)
    ensures |s| >= 1 && forall k :: 0 <= k < |s| ==> IsDigit(s[k]) || s[k] == '-'
  {
    if i < 0 then "-" + NatStr(-i) else NatStr(i)
  }

  /** The number spelled by the leading digits of a string. */
  function Atoi(s: string): nat {
    AtoiFrom(s, 0)
  }

  function AtoiFrom(s: string, acc: nat): nat
    decreases |s|
  {
    if s == [] || !IsDigit(s[0]) then acc else AtoiFrom(s[1..], acc * 10 + DigitValue(s[0]))
  }

  /** The number that a printed integer stands for. */
  function ReadInt(s: string): int {
    if s != [] && s[0] == '-' then
      var n: int := Atoi(s[1..]);
      -n
    else Atoi(s)
  }

  lemma {:induction false} AtoiSkips(n: nat, t: string)
    ensures AtoiFrom(NatStr(n) + t, 0) == AtoiFrom(t, n)
  {
    if n < 10 {
      assert ([DIGITS[n]] + t)[1..] == t;
    } else {
      var d := [DIGITS[n % 10]];
      assert NatStr(n) + t == NatStr(n / 10) + (d + t);
      AtoiSkips(n / 10, d + t);
      assert (d + t)[1..] == t;
      assert DigitValue(d[0]) == n % 10;
    }
  }

  /** Reading back what was printed, whatever non-digit follows it. */
  lemma AtoiReads(n: nat, t: string)
    requires t == [] || !IsDigit(t[0])
    ensures Atoi(NatStr(n) + t) == n
  {
    AtoiSkips(n, t);
  }

  lemma IntReads(i: int)
    ensures ReadInt(IntStr(i)) == i
  {
    if i < 0 {
      AtoiReads(-i, "");
      assert NatStr(-i) + "" == NatStr(-i);
      assert IntStr(i)[1..] == NatStr(-i);
    } else {
      AtoiReads(i, "");
      assert NatStr(i) + "" == NatStr(i);
    }
  }
}
