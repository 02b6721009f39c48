/** Decimal numerals: printing, reading and powers of ten. */
module Decimals {

  predicate IsDigit(c: char) {
    '0' <= c <= '9'
  }

  predicate AllDigits(s: string) {
    forall i | 0 <= i < |s| :: IsDigit(s[i])
  }

  function DigitOf(d: nat): char
    requires d < 10
  {
    (d + '0' as int) as char
  }

  function ValueOf(c: char): nat
    requires IsDigit(c)
  {
    c as int - '0' as int
  }

  /** `str(n)`. */
  function Show(n: nat): string {
    if n < 10 then [DigitOf(n)] else Show(n / 10) + [DigitOf(n % 10)]
  }

  /** `int(s)` of a run of ASCII digits. */
  function Read(s: string): nat
    requires AllDigits(s)
  {
    if s == [] then 0 else 10 * Read(s[..|s| - 1]) + ValueOf(s[|s| - 1])
  }

  lemma {:induction false} ReadShow(n: nat)
    ensures AllDigits(Show(n)) && Read(Show(n)) == n
    ensures Show(n) != [] && (n > 0 ==> Show(n)[0] != '0')
  {
    if n < 10 {
      assert Show(n)[..0] == [];
    } else {
      ReadShow(n / 10);
      var s := Show(n);
      assert s[..|s| - 1] == Show(n / 10);
    }
  }

  function Pow10(k: nat): (p: nat)
    ensures p > 0
  {
    if k == 0 then 1 else 10 * Pow10(k - 1)
  }

  lemma {:induction false} Pow10Adds(a: nat, b: nat)
    ensures Pow10(a + b) == Pow10(a) * Pow10(b)
  {
    if a > 0 {
      Pow10Adds(a - 1, b);
      assert Pow10(a + b) == 10 * (Pow10(a - 1) * Pow10(b));
    }
  }

  /** The length of a numeral is the order of magnitude of its value. */
  lemma {:induction false} ShowBounds(n: nat)
    ensures n < Pow10(|Show(n)|)
    ensures n > 0 ==> Pow10(|Show(n)| - 1) <= n
  {
    if n >= 10 {
      ShowBounds(n / 10);
      assert |Show(n)| == |Show(n / 10)| + 1;
      assert Pow10(|Show(n)|) == 10 * Pow10(|Show(n / 10)|);
    } else {
      assert Pow10(1) == 10 * Pow10(0);
    }
  }
}
