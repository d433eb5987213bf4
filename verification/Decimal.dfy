/** Decimal notation of natural numbers, as str() writes it and int() reads it. */
module Decimal {
  import opened Strings

  predicate IsDigit(c: char) {
    '0' <= c <= '9'
  }

  predicate AllDigits(s: string) {
    forall i | 0 <= i < |s| :: IsDigit(s[i])
  }

  function ToText(n: nat): (s: string)
    ensures s != "" && AllDigits(s)
  {
    if n < 10 then ["0123456789"[n]] else ToText(n / 10) + ["0123456789"[n % 10]]
  }

  function FromText(s: string): nat
    requires AllDigits(s)
  {
    if s == "" then 0 else 10 * FromText(s[..|s| - 1]) + (s[|s| - 1] as int - '0' as int)
  }

  /** Reading back what was written gives the number, so two numbers never share a spelling. */
  lemma {:induction false} RoundTrip(n: nat)
    ensures FromText(ToText(n)) == n
  {
    if n >= 10 {
      RoundTrip(n / 10);
      assert ToText(n)[..|ToText(n)| - 1] == ToText(n / 10);
    }
  }

  lemma ToTextInjective(a: nat, b: nat)
    requires ToText(a) == ToText(b)
    ensures a == b
  {
    RoundTrip(a);
    RoundTrip(b);
  }
}
