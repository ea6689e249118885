/** printf("%d") of a non-negative number, and the digit loop that reads it back. */
module Decimal {

  function DigitChar(d: nat): (c: char)
    requires d < 10
    ensures IsDigit(c) && DigitValue(c) == d
  {
    ('0' as int + d) as char
  }

  predicate IsDigit(c: char) { '0' <= c <= '9' }

  function DigitValue(c: char): nat
    requires IsDigit(c)
  {
    c as int - '0' as int
  }

  function Dec(n: nat): (s: string)
    ensures s != ""
  {
    if n < 10 then [DigitChar(n)] else Dec(n / 10) + [DigitChar(n % 10)]
  }

  ghost predicate AllDigits(s: string) {
    forall i | 0 <= i < |s| :: IsDigit(s[i])
  }

  /** The number that the digits of s stand for in base ten, as the loop has it after reading s. */
  function Value(s: string): nat
    requires AllDigits(s)
  {
    if s == "" then 0 else 10 * Value(s[..|s| - 1]) + DigitValue(s[|s| - 1])
  }

  /** How many digits s starts with. */
  function DigitRun(s: string): (k: nat)
    ensures k <= |s| && AllDigits(s[..k]) && (k < |s| ==> !IsDigit(s[k]))
  {
    if s == "" || !IsDigit(s[0]) then 0
    else
      var k := DigitRun(s[1..]);
      assert forall i | 0 < i < k + 1 :: s[i] == s[1..][i - 1];
      k + 1
  }

  lemma {:induction false} DecDigits(n: nat)
    ensures AllDigits(Dec(n)) && Value(Dec(n)) == n
  {
    if n >= 10 {
      DecDigits(n / 10);
      var s := Dec(n);
      assert s[..|s| - 1] == Dec(n / 10);
    }
  }

  /** A larger number has at least as many digits. */
  lemma {:induction false} DecLonger(m: nat, n: nat)
    requires m <= n
    ensures |Dec(m)| <= |Dec(n)|
  {
    if m >= 10 { DecLonger(m / 10, n / 10); }
  }

  lemma {:induction false} DigitRunIs(s: string, t: string)
    requires AllDigits(s) && (t != "" ==> !IsDigit(t[0]))
    ensures DigitRun(s + t) == |s|
  {
    if s == "" {
      assert s + t == t;
    } else {
      assert (s + t)[0] == s[0] && (s + t)[1..] == s[1..] + t;
      DigitRunIs(s[1..], t);
    }
  }

  lemma ValueSnoc(s: string, k: nat)
    requires k < |s| && AllDigits(s[..k + 1])
    ensures AllDigits(s[..k]) && Value(s[..k + 1]) == 10 * Value(s[..k]) + DigitValue(s[k])
  {
    var d := s[..k + 1];
    assert d[..|d| - 1] == s[..k];
  }

  /** The digit loop: reads the digits of s from pos on. */
  method ReadNumber(s: string, pos: nat) returns (number: nat, end: nat)
    requires pos <= |s|
    ensures end == pos + DigitRun(s[pos..])
    ensures number == Value(s[pos..][..DigitRun(s[pos..])])
  {
    number, end := 0, pos;
    ghost var t := s[pos..];
    while end < |s| && IsDigit(s[end])
      invariant pos <= end <= |s| && AllDigits(t[..end - pos])
      invariant number == Value(t[..end - pos])
    {
      assert t[end - pos] == s[end] && AllDigits(t[..end - pos + 1]);
      ValueSnoc(t, end - pos);
      number := number * 10 + DigitValue(s[end]);
      end := end + 1;
    }
    assert t == t[..end - pos] + t[end - pos..];
    DigitRunIs(t[..end - pos], t[end - pos..]);
  }
}
