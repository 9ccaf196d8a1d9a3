/** Decimal printing and the parsing of unsigned integers, as the language's library does them. */
module Decimal {
  import opened Prelude

  predicate IsDigit(c: char) {
    '0' <= c <= '9'
  }

  predicate AllDigits(s: string) {
    forall i :: 0 <= i < |s| ==> IsDigit(s[i])
  }

  function DigitChar(d: nat): char
    requires d < 10
  {
    '0' + d as char
  }

  /** The shortest decimal numeral of a number. */
  function Print(n: nat): (s: string)
    ensures s != [] && AllDigits(s)
    ensures n > 0 ==> s[0] != '0'
    ensures |s| == 1 <==> n < 10
  {
    if n < 10 then [DigitChar(n)] else Print(n / 10) + [DigitChar(n % 10)]
  }

  function Value(s: string): nat
    requires AllDigits(s)
  {
    if s == [] then 0 else Value(s[..|s| - 1]) * 10 + (s[|s| - 1] as int - '0' as int)
  }

  /** Accepts an optional `+` and at least one digit, and refuses a value above `max`. */
  function Parse(s: string, max: nat): Option<nat> {
    var d := if s != [] && s[0] == '+' then s[1..] else s;
    if d == [] || !AllDigits(d) || Value(d) > max then None else Some(Value(d))
  }

  lemma {:induction false} ValueOfPrint(n: nat)
    ensures Value(Print(n)) == n
  {
    if n >= 10 {
      ValueOfPrint(n / 10);
      assert Print(n)[..|Print(n)| - 1] == Print(n / 10);
    }
  }

  /** Every number within the bound parses back from its numeral. */
  lemma ParseOfPrint(n: nat, max: nat)
    ensures Parse(Print(n), max) == if n <= max then Some(n) else None
  {
    ValueOfPrint(n);
    assert Print(n)[0] != '+';
  }

  /** A numeral of `n`: digits, leading zeros among them, after an optional plus sign. */
  predicate Spells(s: string, n: nat) {
    var digits := if s != "" && s[0] == '+' then s[1..] else s;
    digits != "" && AllDigits(digits) && Value(digits) == n
  }

  /** A numeral is read exactly as the number it spells, if that is within the bound. */
  lemma ParsesSpelled(s: string, n: nat, max: nat)
    ensures Parse(s, max) == Some(n) <==> Spells(s, n) && n <= max
    ensures Spells(s, n) && n > max ==> Parse(s, max) == None
  {
  }

  /** Digits without a leading zero are the numeral of their value. */
  lemma {:induction false} PrintOfValue(s: string)
    requires s != "" && AllDigits(s) && (|s| > 1 ==> s[0] != '0')
    ensures Print(Value(s)) == s
    ensures |s| > 1 ==> Value(s) >= 10
    decreases |s|
  {
    var last := s[|s| - 1];
    if |s| == 1 {
      assert s[..0] == "" && s == [last];
    } else {
      var init := s[..|s| - 1];
      PrintOfValue(init);
      ValueIsPositive(init);
      assert Value(s) / 10 == Value(init) && s == init + [last];
    }
  }

  lemma {:induction false} ValueIsPositive(s: string)
    requires s != "" && AllDigits(s) && s[0] != '0'
    ensures Value(s) > 0
    decreases |s|
  {
    if |s| > 1 {
      ValueIsPositive(s[..|s| - 1]);
    }
  }
}
