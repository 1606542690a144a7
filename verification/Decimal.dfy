/** Unsigned numbers as the formatter writes them. */
module Decimal {
  import opened Texts

  const DIGITS: string := "0123456789"

  function Digits(n: nat): (text: string)
    ensures text != "" && AllDigits(text)
  {
    if n < 10 then [DIGITS[n]] else Digits(n / 10) + [DIGITS[n % 10]]
  }

  lemma {:induction false} DigitsHaveTheirValue(n: nat)
    ensures NumberOf(Digits(n)) == n
  {
    var text := Digits(n);
    if n < 10 {
      assert text[..0] == "";
    } else {
      DigitsHaveTheirValue(n / 10);
      assert text[..|text| - 1] == Digits(n / 10);
    }
  }

  /** Different numbers are written differently. */
  lemma DigitsAreInjective(a: nat, b: nat)
    requires Digits(a) == Digits(b)
    ensures a == b
  {
    DigitsHaveTheirValue(a);
    DigitsHaveTheirValue(b);
  }

  function TenTo(k: nat): nat {
    if k == 0 then 1 else 10 * TenTo(k - 1)
  }

  /** A number below 10^k has at most k digits. */
  lemma {:induction false} DigitsAreFew(n: nat, k: nat)
    requires k > 0 && n < TenTo(k)
    ensures |Digits(n)| <= k
  {
    if n >= 10 {
      assert k > 1;
      DigitsAreFew(n / 10, k - 1);
    }
  }
}
