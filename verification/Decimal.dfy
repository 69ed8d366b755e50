/** Decimal printing and reading of integers, and texts joined by a separator. */
module Decimal {

  predicate IsDigit(c: char) {
    '0' <= c <= '9'
  }

  predicate AllDigits(s: string) {
    forall i :: 0 <= i < |s| ==> IsDigit(s[i])
  }

  function Digit(d: nat): (c: char)
    requires d < 10
    ensures IsDigit(c) && c as int - '0' as int == d
  {
    '0' + d as char
  }

  /** `%d` of an unsigned value. */
  function Print(n: nat): (s: string)
    ensures |s| > 0
  {
    (if n < 10 then [] else Print(n / 10)) + [Digit(n % 10)]
  }

  /** `%d` of a signed value. */
  function PrintInt(n: int): (s: string)
    ensures |s| > 0
  {
    if n < 0 then ['-'] + Print(-n) else Print(n)
  }

  /** The value of a digit string. */
  function Value(s: string): nat
    requires AllDigits(s)
  {
    if s == [] then 0 else 10 * Value(s[..|s| - 1]) + (s[|s| - 1] as int - '0' as int)
  }

  lemma ValueStep(front: string, c: char)
    requires AllDigits(front) && IsDigit(c)
    ensures AllDigits(front + [c]) && Value(front + [c]) == 10 * Value(front) + (c as int - '0' as int)
  {
    assert (front + [c])[..|front|] == front;
  }

  /** Reading undoes printing. */
  lemma {:induction false} PrintRoundTrip(n: nat)
    ensures AllDigits(Print(n)) && Value(Print(n)) == n
  {
    if n < 10 {
      assert Print(n) == [] + [Digit(n)];
      ValueStep([], Digit(n));
      assert Value([]) == 0;
    } else {
      assert Print(n) == Print(n / 10) + [Digit(n % 10)];
      PrintRoundTrip(n / 10);
      hide Value, Digit, Print;
      ValueStep(Print(n / 10), Digit(n % 10));
    }
  }

  lemma PrintIsInjective(m: nat, n: nat)
    requires Print(m) == Print(n)
    ensures m == n
  {
    PrintRoundTrip(m);
    PrintRoundTrip(n);
  }

  lemma PrintIntIsInjective(m: int, n: int)
    requires PrintInt(m) == PrintInt(n)
    ensures m == n
  {
    PrintRoundTrip(if m < 0 then -m else m);
    PrintRoundTrip(if n < 0 then -n else n);
    assert PrintInt(m)[0] == '-' <==> m < 0;
    assert PrintInt(n)[0] == '-' <==> n < 0;
    if m < 0 {
      assert PrintInt(m)[1..] == Print(-m) && PrintInt(n)[1..] == Print(-n);
    }
  }

  /** Printed integers contain digits and at most a sign. */
  lemma PrintIntChars(n: int)
    ensures forall i :: 0 <= i < |PrintInt(n)| ==> IsDigit(PrintInt(n)[i]) || PrintInt(n)[i] == '-'
  {
    hide Print, Value;
    PrintRoundTrip(if n < 0 then -n else n);
  }

  /** A text is split in one way at its first separator. */
  lemma SplitFirst(a: string, x: string, b: string, y: string, sep: char)
    requires a + [sep] + x == b + [sep] + y && sep !in a && sep !in b
    ensures a == b && x == y
  {
    var s, t := a + [sep] + x, b + [sep] + y;
    assert s[|a|] == sep && t[|b|] == sep;
    assert forall i :: 0 <= i < |a| ==> s[i] == a[i] != sep;
    assert forall i :: 0 <= i < |b| ==> t[i] == b[i] != sep;
    assert s[..|a|] == a && t[..|b|] == b && s[|a| + 1..] == x && t[|b| + 1..] == y;
  }

  /** And in one way at its last. */
  lemma SplitLast(a: string, x: string, b: string, y: string, sep: char)
    requires a + [sep] + x == b + [sep] + y && sep !in x && sep !in y
    ensures a == b && x == y
  {
    var s, t := a + [sep] + x, b + [sep] + y;
    assert s[|a|] == sep && t[|b|] == sep;
    assert forall i :: |a| < i < |s| ==> s[i] == x[i - |a| - 1] != sep;
    assert forall i :: |b| < i < |t| ==> t[i] == y[i - |b| - 1] != sep;
    assert s[..|a|] == a && t[..|b|] == b && s[|a| + 1..] == x && t[|b| + 1..] == y;
  }
}
