/** Decimal numerals, as `String.valueOf` and the time formatter write them. */
module Decimal {
  function Digit(n: int): (c: char)
    requires 0 <= n < 10
    ensures c == "0123456789"[n]
  {
    '0' + n as char
  }

  /** `String.valueOf` of a number that is not negative. */
  function Numeral(n: nat): string {
    if n < 10 then [Digit(n)] else Numeral(n / 10) + [Digit(n % 10)]
  }

  predicate AllDigits(s: string) {
    forall i :: 0 <= i < |s| ==> '0' <= s[i] <= '9'
  }

  /** The number a string of digits denotes. */
  function Value(s: string): nat
    requires AllDigits(s)
  {
    if s == "" then 0 else 10 * Value(s[..|s| - 1]) + (s[|s| - 1] as int - '0' as int)
  }

  /** Digits only, and no leading zero except in the numeral of zero itself. */
  predicate Canonical(s: string) {
    s != "" && AllDigits(s) && (s[0] == '0' ==> |s| == 1)
  }

  lemma {:induction false} NumeralReadsBack(n: nat)
    ensures Canonical(Numeral(n)) && Value(Numeral(n)) == n
    ensures Numeral(n)[0] == '0' ==> n == 0
  {
    var s := Numeral(n);
    if n < 10 {
      assert s[..0] == "";
    } else {
      NumeralReadsBack(n / 10);
      assert s[..|s| - 1] == Numeral(n / 10);
    }
  }

  lemma {:induction false} OneMoreDigit(before: string, v: nat, d: nat)
    requires d < 10 && if v > 0 then Numeral(v) == before else before == ""
    ensures Numeral(10 * v + d) == before + [Digit(d)]
  {
    assert (10 * v + d) / 10 == v && (10 * v + d) % 10 == d;
  }

  /** Without a leading zero the value is positive. */
  lemma {:induction false} ValuePositive(s: string)
    requires s != "" && AllDigits(s) && s[0] != '0'
    ensures Value(s) > 0
  {
    if |s| > 1 {
      ValuePositive(s[..|s| - 1]);
    }
  }

  lemma {:induction false} ValueWritesBack(s: string)
    requires Canonical(s)
    ensures Numeral(Value(s)) == s
  {
    var before, last := s[..|s| - 1], s[|s| - 1] as int - '0' as int;
    if before != "" {
      ValuePositive(before);
      ValueWritesBack(before);
    }
    OneMoreDigit(before, Value(before), last);
    LastOf(s, before, last);
  }

  lemma {:induction false} LastOf(s: string, before: string, d: nat)
    requires s != "" && before == s[..|s| - 1] && d < 10 && d == s[|s| - 1] as int - '0' as int
    ensures s == before + [Digit(d)]
  {
  }

  lemma {:induction false} TwoDigits(n: nat)
    requires n < 100
    ensures var s := [Digit(n / 10), Digit(n % 10)]; AllDigits(s) && Value(s) == n
  {
    var s := [Digit(n / 10), Digit(n % 10)];
    assert s[..1] == [Digit(n / 10)] && s[..1][..0] == "";
    assert Value(s[..1]) == n / 10;
  }

  /** A text is the numeral of a number if and only if it is canonical and reads back to it. */
  lemma {:induction false} NumeralIff(n: nat, s: string)
    ensures Numeral(n) == s <==> Canonical(s) && Value(s) == n
  {
    NumeralReadsBack(n);
    if Canonical(s) {
      ValueWritesBack(s);
    }
  }

  /** Different numbers have different numerals. */
  lemma {:induction false} NumeralInjective(a: nat, b: nat)
    requires Numeral(a) == Numeral(b)
    ensures a == b
  {
    NumeralIff(a, Numeral(b));
    NumeralIff(b, Numeral(b));
  }
}
