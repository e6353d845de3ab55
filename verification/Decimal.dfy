/** Decimal notation, as `%d` and JSON write integers. */
module Decimal {

  function Digit(d: nat): char
    requires d < 10
  {
    '0' + d as char
  }

  function Digits(n: nat): string {
    if n < 10 then [Digit(n)] else Digits(n / 10) + [Digit(n % 10)]
  }

  function Value(s: string): int {
    if s == [] then 0 else Value(s[..|s| - 1]) * 10 + (s[|s| - 1] as int - '0' as int)
  }

  /** Reading back what was written gives the number. */
  lemma {:induction false} DigitsRoundTrip(n: nat)
    ensures Value(Digits(n)) == n
    decreases n
  {
    var s := Digits(n);
    if n < 10 {
      assert s[..|s| - 1] == [];
    } else {
      DigitsRoundTrip(n / 10);
      assert s[..|s| - 1] == Digits(n / 10);
    }
  }

  /** Larger numbers never take fewer digits. */
  lemma {:induction false} DigitsGrow(m: nat, n: nat)
    requires m <= n
    ensures 1 <= |Digits(m)| <= |Digits(n)|
    decreases n
  {
    if n >= 10 {
      DigitsGrow(m / 10, n / 10);
    }
  }

  lemma {:induction false} DigitsAreDigits(n: nat)
    ensures forall i :: 0 <= i < |Digits(n)| ==> '0' <= Digits(n)[i] <= '9'
    decreases n
  {
    if n >= 10 {
      DigitsAreDigits(n / 10);
    }
  }

  function Signed(z: int): string {
    if z < 0 then ['-'] + Digits(-z) else Digits(z)
  }

  /** Different integers are written differently. */
  lemma SignedInjective(y: int, z: int)
    requires Signed(y) == Signed(z)
    ensures y == z
  {
    var a, b := if y < 0 then -y else y, if z < 0 then -z else z;
    DigitsRoundTrip(a);
    DigitsRoundTrip(b);
    DigitsAreDigits(a);
    DigitsAreDigits(b);
    DigitsGrow(0, a);
    DigitsGrow(0, b);
    assert y < 0 ==> Signed(y)[1..] == Digits(a);
    assert z < 0 ==> Signed(z)[1..] == Digits(b);
    assert (y < 0) == (Signed(y)[0] == '-');
    assert (z < 0) == (Signed(z)[0] == '-');
  }
}
