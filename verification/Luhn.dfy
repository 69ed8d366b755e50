/** The Luhn checksum that validates card-number candidates (internal/inbound/dlp.go). */
module Luhn {
  import opened Decimal

  type Digit = d: int | 0 <= d <= 9

  predicate IsSeparator(c: char) {
    c == '-' || c == ' '
  }

  predicate WellTyped(s: string) {
    forall i :: 0 <= i < |s| ==> IsDigit(s[i]) || IsSeparator(s[i])
  }

  function Value(c: char): Digit
    requires IsDigit(c)
  {
    c as int - '0' as int
  }

  /** The digits of the text, everything else dropped. */
  function Digits(s: string): seq<Digit> {
    if s == [] then []
    else Digits(s[..|s| - 1]) + if IsDigit(s[|s| - 1]) then [Value(s[|s| - 1])] else []
  }

  /** The contribution of one digit: itself, or the digit sum of its double. */
  function Weight(d: Digit, doubled: bool): Digit {
    if !doubled then d else if d <= 4 then 2 * d else 2 * d - 9
  }

  /** The checksum, read from the right, every second digit doubled. */
  function LuhnSum(ds: seq<Digit>, alternate: bool): nat {
    if ds == [] then 0
    else Weight(ds[|ds| - 1], alternate) + LuhnSum(ds[..|ds| - 1], !alternate)
  }

  predicate Accepts(number: string) {
    && WellTyped(number)
    && 13 <= |Digits(number)| <= 19
    && LuhnSum(Digits(number), false) % 10 == 0
  }

  /** The validator: collects the digits into a fixed buffer, then sums from the right. */
  method VerifyLuhn(number: string) returns (ok: bool)
    ensures ok <==> Accepts(number)
  {
    var digits := new int[24];
    var nDigits := 0;
    for i := 0 to |number|
      invariant WellTyped(number[..i])
      invariant 0 <= nDigits <= 24 && nDigits == |Digits(number[..i])|
      invariant digits[..nDigits] == Digits(number[..i])
    {
      var c := number[i];
      assert number[..i + 1][..i] == number[..i] && number[..i + 1][i] == c;
      if IsDigit(c) {
        if nDigits >= digits.Length {
          DigitsOfPrefix(number, i + 1);
          return false;
        }
        digits[nDigits] := c as int - '0' as int;
        nDigits := nDigits + 1;
      } else if c == '-' || c == ' ' {
        continue;
      } else {
        return false;
      }
    }
    assert number[..|number|] == number;
    if nDigits < 13 || nDigits > 19 {
      return false;
    }
    ghost var ds: seq<Digit> := Digits(number);
    var sum := 0;
    var alternate := false;
    var i := nDigits - 1;
    assert ds[..nDigits] == ds;
    while i >= 0
      invariant -1 <= i < nDigits && digits[..nDigits] == ds
      invariant LuhnSum(ds, false) == sum + LuhnSum(ds[..i + 1], alternate)
    {
      var d := digits[i];
      assert d == ds[i] && ds[..i + 1][..i] == ds[..i];
      if alternate {
        d := d * 2;
        if d > 9 {
          d := d - 9;
        }
      }
      sum := sum + d;
      alternate := !alternate;
      i := i - 1;
    }
    return sum % 10 == 0;
  }

  lemma {:induction false} DigitsOfConcat(s: string, t: string)
    ensures Digits(s + t) == Digits(s) + Digits(t)
  {
    if t == [] {
      assert s + t == s;
    } else {
      assert (s + t)[..|s + t| - 1] == s + t[..|t| - 1];
      DigitsOfConcat(s, t[..|t| - 1]);
    }
  }

  lemma DigitsOfPrefix(s: string, i: nat)
    requires i <= |s|
    ensures |Digits(s[..i])| <= |Digits(s)|
  {
    assert s == s[..i] + s[i..];
    DigitsOfConcat(s[..i], s[i..]);
  }

  // ---------------------------------------------------------------------------------------------
  // What the checksum promises
  // ---------------------------------------------------------------------------------------------

  /** The text without its separators. */
  function Strip(s: string): string {
    if s == [] then []
    else Strip(s[..|s| - 1]) + if IsSeparator(s[|s| - 1]) then [] else [s[|s| - 1]]
  }

  lemma {:induction false} StripKeepsDigits(s: string)
    ensures Digits(Strip(s)) == Digits(s) && (WellTyped(Strip(s)) <==> WellTyped(s))
  {
    if s != [] {
      var front, c := s[..|s| - 1], s[|s| - 1];
      StripKeepsDigits(front);
      assert s == front + [c];
      DigitsOfConcat(Strip(front), [c]);
      assert Strip(s) == if IsSeparator(c) then Strip(front) else Strip(front) + [c];
    }
  }

  /** Separators never matter. */
  lemma SeparatorsAreIgnored(s: string)
    ensures Accepts(s) <==> Accepts(Strip(s))
  {
    StripKeepsDigits(s);
  }

  /** Whether the digit at index `i` of `n` is doubled. */
  function DoubledAt(n: nat, i: nat, alternate: bool): bool {
    ((n - 1 - i) % 2 == 1) != alternate
  }

  /** Replacing one digit changes the sum by the difference of the two weights. */
  lemma {:induction false} SumAfterChange(ds: seq<Digit>, i: nat, d: Digit, alternate: bool)
    requires i < |ds|
    ensures LuhnSum(ds[i := d], alternate) - LuhnSum(ds, alternate)
         == Weight(d, DoubledAt(|ds|, i, alternate)) - Weight(ds[i], DoubledAt(|ds|, i, alternate))
  {
    var n := |ds| - 1;
    var changed := ds[i := d];
    if i == n {
      assert changed[..n] == ds[..n];
    } else {
      assert changed[..n] == ds[..n][i := d];
      SumAfterChange(ds[..n], i, d, !alternate);
    }
  }

  lemma SmallShift(x: nat, y: nat)
    requires -10 < y - x < 10
    ensures y % 10 == x % 10 <==> y == x
  {
  }

  lemma WeightIsInjective(a: Digit, b: Digit, doubled: bool)
    ensures Weight(a, doubled) == Weight(b, doubled) <==> a == b
  {
  }

  /** Exchanging the weights of two digits goes unnoticed only for equal digits and for 0 and 9. */
  lemma SwappedWeights(a: Digit, b: Digit, first: bool)
    ensures var delta := Weight(b, first) - Weight(a, first) + Weight(a, !first) - Weight(b, !first);
            -10 < delta < 10 && (delta == 0 <==> a == b || {a, b} == {0, 9})
  {
    assert {a, b} == {0, 9} <==> (a == 0 && b == 9) || (a == 9 && b == 0) by {
      var zero: Digit, nine: Digit := 0, 9;
      assert zero in {zero, nine} && nine in {zero, nine} && a in {a, b} && b in {a, b};
    }
  }

  /** Swapping two neighbours changes the sum by an amount that only two digit pairs hide. */
  lemma SumAfterSwap(ds: seq<Digit>, i: nat)
    requires i + 1 < |ds|
    ensures var a, b := ds[i], ds[i + 1];
            LuhnSum(ds[i := b][i + 1 := a], false) % 10 == LuhnSum(ds, false) % 10 <==> a == b || {a, b} == {0, 9}
  {
    hide LuhnSum, Weight;
    var a, b := ds[i], ds[i + 1];
    SumAfterChange(ds, i, b, false);
    SumAfterChange(ds[i := b], i + 1, a, false);
    SwappedWeights(a, b, DoubledAt(|ds|, i, false));
    SmallShift(LuhnSum(ds, false), LuhnSum(ds[i := b][i + 1 := a], false));
  }

  lemma SplitAtDigit(s: string, i: nat)
    requires i < |s| && IsDigit(s[i])
    ensures Digits(s) == Digits(s[..i]) + [Value(s[i])] + Digits(s[i + 1..])
  {
    assert s == s[..i] + [s[i]] + s[i + 1..];
    DigitsOfConcat(s[..i] + [s[i]], s[i + 1..]);
    DigitsOfConcat(s[..i], [s[i]]);
    assert [s[i]][..0] == [];
  }

  /** Changing any single digit of an accepted number is detected. */
  lemma SingleDigitErrorDetected(s: string, i: nat, c: char)
    requires Accepts(s) && i < |s| && IsDigit(s[i]) && IsDigit(c) && c != s[i]
    ensures !Accepts(s[i := c])
  {
    hide Digits, LuhnSum;
    var t := s[i := c];
    SplitAtDigit(s, i);
    SplitAtDigit(t, i);
    assert t[..i] == s[..i] && t[i + 1..] == s[i + 1..];
    var k := |Digits(s[..i])|;
    assert Digits(t) == Digits(s)[k := Value(c)];
    SumAfterChange(Digits(s), k, Value(c), false);
    WeightIsInjective(Digits(s)[k], Value(c), DoubledAt(|Digits(s)|, k, false));
    SmallShift(LuhnSum(Digits(s), false), LuhnSum(Digits(t), false));
  }

  /** The digits around two digits that have only separators between them. */
  lemma SplitAtPair(s: string, i: nat, j: nat)
    requires i < j < |s| && IsDigit(s[i]) && IsDigit(s[j])
    requires forall k :: i < k < j ==> IsSeparator(s[k])
    ensures Digits(s) == Digits(s[..i]) + [Value(s[i]), Value(s[j])] + Digits(s[j + 1..])
  {
    hide Digits;
    SplitAtDigit(s, i);
    var rest := s[i + 1..];
    SplitAtDigit(rest, j - i - 1);
    NoDigits(rest[..j - i - 1]);
    assert rest[j - i - 1 + 1..] == s[j + 1..];
    Assemble(Digits(s[..i]), Value(s[i]), Digits(rest[..j - i - 1]), Value(s[j]), Digits(s[j + 1..]));
  }

  lemma Assemble(a: seq<Digit>, u: Digit, m: seq<Digit>, v: Digit, b: seq<Digit>)
    requires m == []
    ensures a + [u] + (m + [v] + b) == a + [u, v] + b
  {
    assert m + [v] + b == [v] + b;
  }

  /**
   Swapping two different digits with nothing but separators between them is detected, except for the
   pair 0 and 9.
   */
  lemma TranspositionDetected(s: string, i: nat, j: nat)
    requires Accepts(s) && i < j < |s| && IsDigit(s[i]) && IsDigit(s[j])
    requires forall k :: i < k < j ==> IsSeparator(s[k])
    ensures Accepts(s[i := s[j]][j := s[i]]) <==> s[i] == s[j] || {Value(s[i]), Value(s[j])} == {0, 9}
  {
    hide Digits, LuhnSum, WellTyped;
    var t := s[i := s[j]][j := s[i]];
    SplitAtPair(s, i, j);
    SplitAtPair(t, i, j);
    assert t[..i] == s[..i] && t[j + 1..] == s[j + 1..];
    var k := |Digits(s[..i])|;
    assert Digits(t) == Digits(s)[k := Value(s[j])][k + 1 := Value(s[i])];
    SumAfterSwap(Digits(s), k);
    SwapKeepsType(s, i, j);
  }

  lemma SwapKeepsType(s: string, i: nat, j: nat)
    requires WellTyped(s) && i < j < |s|
    ensures WellTyped(s[i := s[j]][j := s[i]])
  {
  }

  lemma {:induction false} NoDigits(s: string)
    requires forall k :: 0 <= k < |s| ==> IsSeparator(s[k])
    ensures Digits(s) == []
  {
    if s != [] {
      NoDigits(s[..|s| - 1]);
    }
  }

  // ---------------------------------------------------------------------------------------------
  // Which numbers are accepted
  // ---------------------------------------------------------------------------------------------

  /** A dash or a blank may stand anywhere, or be left out anywhere. */
  lemma SeparatorAnywhere(s: string, i: nat, c: char)
    requires i <= |s| && (c == '-' || c == ' ')
    ensures Accepts(s[..i] + [c] + s[i..]) <==> Accepts(s)
  {
    var front, rest := s[..i], s[i..];
    assert s == front + rest;
    DigitsOfConcat(front, rest);
    DigitsOfConcat(front + [c], rest);
    DigitsOfConcat(front, [c]);
    WellTypedConcat(front, rest);
    WellTypedConcat(front + [c], rest);
    WellTypedConcat(front, [c]);
    assert [c][..0] == [] && Digits([c]) == [] && WellTyped([c]);
    assert Digits(front) + [] == Digits(front);
    hide Digits, WellTyped, LuhnSum;
  }

  lemma WellTypedConcat(s: string, t: string)
    ensures WellTyped(s + t) <==> WellTyped(s) && WellTyped(t)
  {
    assert forall i :: 0 <= i < |s| ==> (s + t)[i] == s[i];
    assert forall i :: 0 <= i < |t| ==> (s + t)[|s| + i] == t[i];
  }

  /** Any character that is neither a digit nor a dash nor a blank rejects the text. */
  lemma ForeignCharacterRejected(s: string, i: nat)
    requires i < |s| && !('0' <= s[i] <= '9') && s[i] != '-' && s[i] != ' '
    ensures !Accepts(s)
  {
  }

  function Zeroes(n: nat): string {
    seq(n, _ => '0')
  }

  lemma {:induction false} ZeroesSum(n: nat, alternate: bool)
    ensures |Digits(Zeroes(n))| == n && LuhnSum(Digits(Zeroes(n)), alternate) == 0
  {
    if n > 0 {
      ZeroesSum(n - 1, !alternate);
      DigitsOfConcat(Zeroes(n - 1), ['0']);
      assert Zeroes(n) == Zeroes(n - 1) + ['0'] && ['0'][..0] == [];
      var ds := Digits(Zeroes(n));
      assert ds == Digits(Zeroes(n - 1)) + [0];
      assert ds[..n - 1] == Digits(Zeroes(n - 1));
    }
  }

  /** Zeroes are accepted exactly when there are thirteen to nineteen of them. */
  lemma ZeroesAccepted(n: nat)
    ensures Accepts(Zeroes(n)) <==> 13 <= n <= 19
  {
    ZeroesSum(n, false);
  }

  lemma OneMoreDigit(s: string, c: char)
    requires IsDigit(c)
    ensures Digits(s + [c]) == Digits(s) + [Value(c)] && (WellTyped(s + [c]) <==> WellTyped(s))
    ensures LuhnSum(Digits(s + [c]), false) == Value(c) + LuhnSum(Digits(s), true)
  {
    DigitsOfConcat(s, [c]);
    assert [c][..0] == [];
    assert Digits(s + [c])[..|Digits(s)|] == Digits(s);
    assert (s + [c])[..|s|] == s;
    assert WellTyped(s + [c]) ==> WellTyped(s) by {
      if WellTyped(s + [c]) {
        forall i | 0 <= i < |s| ensures IsDigit(s[i]) || IsSeparator(s[i]) {
          assert (s + [c])[i] == s[i];
        }
      }
    }
  }

  /** The last two digits of a number of zeroes: the one before the last counts double, its digits added up. */
  lemma LastTwoDigits(n: nat, a: char, b: char)
    requires 11 <= n <= 17 && IsDigit(a) && IsDigit(b)
    ensures var x, y := a as int - '0' as int, b as int - '0' as int;
            Accepts(Zeroes(n) + [a] + [b]) <==> ((2 * x) / 10 + (2 * x) % 10 + y) % 10 == 0
  {
    hide Digits, LuhnSum, WellTyped, Weight, Zeroes, Value;
    var s := Zeroes(n);
    ZeroesSum(n, false);
    ZeroesTyped(n);
    OneMoreDigit(s, a);
    OneMoreDigit(s + [a], b);
    SumOfLast(Digits(s), Value(a), true);
    DigitsAddedUp(Value(a));
    DigitValue(a);
    DigitValue(b);
  }

  lemma ZeroesTyped(n: nat)
    ensures WellTyped(Zeroes(n))
  {
  }

  lemma SumOfLast(ds: seq<Digit>, v: Digit, alternate: bool)
    ensures LuhnSum(ds + [v], alternate) == Weight(v, alternate) + LuhnSum(ds, !alternate)
  {
    assert (ds + [v])[..|ds|] == ds;
  }

  lemma DigitsAddedUp(x: Digit)
    ensures Weight(x, true) == (2 * x) / 10 + (2 * x) % 10
  {
  }

  lemma DigitValue(c: char)
    requires IsDigit(c)
    ensures Value(c) == c as int - '0' as int
  {
  }

  /** Every number of twelve to eighteen digits has exactly one check digit. */
  lemma CheckDigitIsUnique(s: string)
    requires WellTyped(s) && 12 <= |Digits(s)| <= 18
    ensures exists c :: IsDigit(c) && Accepts(s + [c])
    ensures forall c, e :: IsDigit(c) && IsDigit(e) && Accepts(s + [c]) && Accepts(s + [e]) ==> c == e
  {
    hide Digits, LuhnSum, WellTyped;
    var sum := LuhnSum(Digits(s), true);
    var d: nat := (10 - sum % 10) % 10;
    var c := '0' + d as char;
    OneMoreDigit(s, c);
    assert Accepts(s + [c]);
    forall c, e | IsDigit(c) && IsDigit(e) && Accepts(s + [c]) && Accepts(s + [e]) ensures c == e {
      OneMoreDigit(s, c);
      OneMoreDigit(s, e);
      SmallShift(Value(c) + sum, Value(e) + sum);
    }
  }
}
