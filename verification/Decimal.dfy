/** Decimal numbers, as `fmt::format` writes them. */
module Decimals {
  import opened Wrappers

  function ToDecimal(n: nat): (s: string)
    ensures s != [] && forall c :: c in s ==> '0' <= c <= '9'
  {
    var digit := ['0' + (n % 10) as char];
    if n < 10 then digit else ToDecimal(n / 10) + digit
  }

  function ParseDecimal(s: string): Option<nat> {
    if s == [] then None
    else if |s| == 1 then (if '0' <= s[0] <= '9' then Some((s[0] - '0') as nat) else None)
    else
      var c, front := s[|s| - 1], ParseDecimal(s[..|s| - 1]);
      if front.Some? && '0' <= c <= '9' then Some(10 * front.value + (c - '0') as nat) else None
  }

  const DIGITS := "0123456789"

  /** A number is written with its last digit at the end and the others before it. */
  lemma DecimalOf(n: nat)
    ensures ToDecimal(n) == if n < 10 then [DIGITS[n]] else ToDecimal(n / 10) + [DIGITS[n % 10]]
  {
    DigitsInOrder(n % 10);
  }

  lemma OneMoreDigit(n: nat, d: nat)
    requires n > 0 && d < 10
    ensures ToDecimal(10 * n + d) == ToDecimal(n) + [DIGITS[d]]
  {
    assert (10 * n + d) / 10 == n && (10 * n + d) % 10 == d;
    DecimalOf(10 * n + d);
  }

  lemma DigitsInOrder(d: nat)
    requires d < 10
    ensures DIGITS[d] == '0' + d as char
  {
  }

  lemma {:induction false} DecimalRoundTrip(n: nat)
    ensures ParseDecimal(ToDecimal(n)) == Some(n)
  {
    var s := ToDecimal(n);
    if n >= 10 {
      DecimalRoundTrip(n / 10);
      assert s[..|s| - 1] == ToDecimal(n / 10);
    }
  }
}
