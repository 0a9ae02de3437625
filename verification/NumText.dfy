/** Decimal text: what `%d` prints and what `atoi` reads. */
module NumText {

  predicate IsDigit(c: char) { '0' <= c <= '9' }

  function DigitOf(c: char): nat
    requires IsDigit(c)
  {
    (c as int - '0' as int) as nat
  }

  function Digit(d: nat): (c: char)
    requires d < 10
    ensures IsDigit(c) && DigitOf(c) == d
  {
    '0' + d as char
  }

  /** `%d` of a number that is not negative. */
  function Dec(n: nat): (s: string)
    ensures |s| > 0 && forall i :: 0 <= i < |s| ==> IsDigit(s[i])
  {
    if n < 10 then [Digit(n)] else Dec(n / 10) + [Digit(n % 10)]
  }

  predicate IsSpace(c: char) { c == ' ' || '\t' <= c <= '\r' }

  function SkipSpace(s: string): (r: string)
    ensures |r| <= |s|
  {
    if s != [] && IsSpace(s[0]) then SkipSpace(s[1..]) else s
  }

  /** The value of the leading digits, after those already read. */
  function Digits(s: string, acc: nat): nat
    decreases |s|
  {
    if s != [] && IsDigit(s[0]) then Digits(s[1..], 10 * acc + DigitOf(s[0])) else acc
  }

  /** `atoi`, without the limit of the C type. */
  function Atoi(s: string): int {
    var t := SkipSpace(s);
    if t != [] && t[0] == '-' then -(Digits(t[1..], 0) as int)
    else if t != [] && t[0] == '+' then Digits(t[1..], 0)
    else Digits(t, 0)
  }

  lemma {:induction false} DigitsAppend(a: string, b: string, acc: nat)
    requires forall i :: 0 <= i < |a| ==> IsDigit(a[i])
    ensures Digits(a + b, acc) == Digits(b, Digits(a, acc))
    decreases |a|
  {
    if a == [] {
      assert a + b == b;
    } else {
      assert (a + b)[1..] == a[1..] + b;
      DigitsAppend(a[1..], b, 10 * acc + DigitOf(a[0]));
    }
  }

  lemma {:induction false} DigitsOfDec(n: nat)
    ensures Digits(Dec(n), 0) == n
  {
    if n >= 10 {
      DigitsOfDec(n / 10);
      DigitsAppend(Dec(n / 10), [Digit(n % 10)], 0);
    }
  }

  /** `atoi` reads back what `%d` printed, whatever comes after it that is not a digit. */
  lemma AtoiOfDec(n: nat, rest: string)
    requires rest == [] || !IsDigit(rest[0])
    ensures Atoi(Dec(n) + rest) == n
  {
    var s := Dec(n) + rest;
    assert s[0] == Dec(n)[0];
    DigitsOfDec(n);
    DigitsAppend(Dec(n), rest, 0);
  }

  lemma AtoiDec(n: nat)
    ensures Atoi(Dec(n)) == n
  {
    AtoiOfDec(n, "");
    assert Dec(n) + "" == Dec(n);
  }

  /** Different numbers print differently. */
  lemma DecInjective(m: nat, n: nat)
    requires Dec(m) == Dec(n)
    ensures m == n
  {
    DigitsOfDec(m);
    DigitsOfDec(n);
  }

  /** A larger number never prints shorter. */
  lemma {:induction false} DecLength(n: nat)
    ensures n < 10 ==> |Dec(n)| == 1
    ensures 10 <= n < 100 ==> |Dec(n)| == 2
    ensures 100 <= n < 1000 ==> |Dec(n)| == 3
    ensures 1000 <= n < 10000 ==> |Dec(n)| == 4
    ensures 10000 <= n < 100000 ==> |Dec(n)| == 5
  {
    if n >= 10 { DecLength(n / 10); }
  }
}
