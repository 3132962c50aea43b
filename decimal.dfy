/**
 * `str(n)` for a non-negative integer: its decimal digits, most significant first, with no
 * leading zero.  `Value` reads a digit string back.
 */
module Decimal {
  predicate IsDigit(c: char) {
    '0' <= c <= '9'
  }

  predicate AllDigits(s: string) {
    forall k :: 0 <= k < |s| ==> IsDigit(s[k])
  }

  function DigitChar(d: nat): (c: char)
    requires d < 10
    ensures IsDigit(c) && c as int - '0' as int == d
  {
    ('0' as int + d) as char
  }

  function Text(n: nat): (s: string)
    ensures s != [] && (s[0] == '0' ==> n == 0)
    decreases n
  {
    if n < 10 then [DigitChar(n)] else Text(n / 10) + [DigitChar(n % 10)]
  }

  function Value(s: string): nat
    requires AllDigits(s)
  {
    if s == [] then 0 else Value(s[..|s| - 1]) * 10 + (s[|s| - 1] as int - '0' as int)
  }

  lemma {:induction false} TextIsDigits(n: nat)
    ensures AllDigits(Text(n))
    decreases n
  {
    if n >= 10 {
      TextIsDigits(n / 10);
      var s := Text(n);
      assert s == Text(n / 10) + [DigitChar(n % 10)];
      forall k | 0 <= k < |s|
        ensures IsDigit(s[k])
      {
        if k < |Text(n / 10)| {
          assert s[k] == Text(n / 10)[k];
        }
      }
    }
  }

  /** Reading the text back gives the number. */
  lemma {:induction false} ValueOfText(n: nat)
    ensures AllDigits(Text(n)) && Value(Text(n)) == n
    decreases n
  {
    TextIsDigits(n);
    if n >= 10 {
      var s := Text(n);
      var init := Text(n / 10);
      assert s[..|s| - 1] == init;
      ValueOfText(n / 10);
    }
  }

  /** Different numbers have different texts. */
  lemma {:induction false} TextInjective(m: nat, n: nat)
    requires Text(m) == Text(n)
    ensures m == n
  {
    ValueOfText(m);
    ValueOfText(n);
  }
}
