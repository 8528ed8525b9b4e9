/** Integers as decimal text. */
module Decimal {
  function DigitChar(d: int): char
    requires 0 <= d < 10
  {
    '0' + d as char
  }

  function PrintNat(n: nat): string {
    if n < 10 then [DigitChar(n)] else PrintNat(n / 10) + [DigitChar(n % 10)]
  }

  function PrintInt(n: int): string {
    if n < 0 then "-" + PrintNat(-n) else PrintNat(n)
  }

  predicate AllDigits(s: string) {
    forall i :: 0 <= i < |s| ==> '0' <= s[i] <= '9'
  }

  function ParseNat(s: string): nat
    requires AllDigits(s)
  {
    if s == "" then 0 else ParseNat(s[..|s| - 1]) * 10 + (s[|s| - 1] as int - '0' as int)
  }

  lemma DigitIsDigit(d: int)
    requires 0 <= d < 10
    ensures '0' <= DigitChar(d) <= '9' && DigitChar(d) as int - '0' as int == d
  {
  }

  lemma {:induction false} ParsePrint(n: nat)
    ensures PrintNat(n) != "" && AllDigits(PrintNat(n)) && ParseNat(PrintNat(n)) == n
  {
    if n < 10 {
      DigitIsDigit(n);
    } else {
      ParsePrint(n / 10);
      DigitIsDigit(n % 10);
      ParseSnoc(PrintNat(n / 10), DigitChar(n % 10));
    }
  }

  lemma ParseSnoc(s: string, c: char)
    requires AllDigits(s) && '0' <= c <= '9'
    ensures AllDigits(s + [c]) && ParseNat(s + [c]) == ParseNat(s) * 10 + (c as int - '0' as int)
  {
    assert (s + [c])[..|s|] == s;
  }

  /** Decimal text: the digits '0' to '9', the last one for the remainder by ten,
      and none in front of the first that counts. */
  lemma PrintsDecimally(n: nat, d: nat)
    requires d < 10
    ensures PrintNat(d) == ["0123456789"[d]]
    ensures n > 0 ==> PrintNat(10 * n + d) == PrintNat(n) + PrintNat(d)
  {
    DigitIsDigit(d);
    assert (10 * n + d) / 10 == n && (10 * n + d) % 10 == d;
  }
}
