/** Exact scaling of decimal money to integer minor units. */
module MinorUnits {
  import opened Wrappers
  import opened Decimals

  /** A finite `Decimal`: sign, coefficient without leading zeros, exponent. */
  datatype Dec = Dec(negative: bool, coefficient: nat, exponent: int)

  const MAX_PRECISION := 6
  const MAGNITUDE_LIMIT := 14

  /** `Decimal.adjusted`: the exponent of the leading digit. */
  function Adjusted(amount: Dec): int {
    amount.exponent + |Show(amount.coefficient)| - 1
  }

  function RealPow10(k: int): (r: real)
    ensures r > 0.0
    decreases if k < 0 then -k else k
  {
    if k == 0 then 1.0 else if k > 0 then 10.0 * RealPow10(k - 1) else RealPow10(k + 1) / 10.0
  }

  function Signed(negative: bool, n: int): int {
    if negative then -n else n
  }

  /** The number a decimal stands for. */
  function Value(amount: Dec): real {
    Signed(amount.negative, amount.coefficient) as real * RealPow10(amount.exponent)
  }

  predicate Guarded(amount: Dec, precision: Option<int>) {
    precision.Some? && 0 <= precision.value <= MAX_PRECISION && Adjusted(amount) < MAGNITUDE_LIMIT
  }

  /** `m` is exactly `amount` in units of `10^-precision`. */
  predicate IsExact(amount: Dec, precision: int, m: int) {
    Value(amount) * RealPow10(precision) == m as real
  }

  /** The minor units of an amount when it is a whole number of them within the guards. */
  function Minor(amount: Dec, precision: Option<int>): Option<int> {
    if !Guarded(amount, precision) then None
    else
      if amount.coefficient == 0 then Some(0)
      else Shifted(amount.negative, amount.coefficient, amount.exponent + precision.value)
  }

  /** The coefficient moved by `shift` decimal places, when nothing is cut off. */
  function Shifted(negative: bool, coefficient: nat, shift: int): Option<int> {
    if shift >= 0 then Some(Signed(negative, coefficient * Pow10(shift)))
    else if coefficient % Pow10(-shift) != 0 then None
    else Some(Signed(negative, coefficient / Pow10(-shift)))
  }

  // ---- powers of ten -----------------------------------------------------------------------

  lemma RealPow10Next(k: int)
    ensures RealPow10(k + 1) == 10.0 * RealPow10(k)
  {
  }

  lemma Regroup(x: real, y: real, z: real)
    ensures x * (y * z) == (x * y) * z == y * (x * z)
  {
  }

  lemma Times(x: real, y: real, z: real)
    requires x < y && z > 0.0
    ensures x * z < y * z
  {
  }

  lemma TimesAtMost(x: real, y: real, z: real)
    requires x <= y && z > 0.0
    ensures x * z <= y * z
  {
  }

  lemma Cancel(x: real, y: real, z: real)
    requires z > 0.0 && x * z == y * z
    ensures x == y
  {
    if x < y {
      Times(x, y, z);
    } else if y < x {
      Times(y, x, z);
    }
  }

  /** A product, closed in the proofs that only regroup it. */
  function Mul(x: real, y: real): real {
    x * y
  }

  lemma Tenfold(x: real, y: real)
    ensures Mul(x, 10.0 * y) == 10.0 * Mul(x, y)
  {
  }

  lemma Undone(w: real, z: real, y: real)
    requires Mul(y, z) == 1.0
    ensures Mul(Mul(w, z), y) == w
  {
    Regroup(w, z, y);
  }

  lemma {:induction false} AddsUp(a: int, b: nat)
    ensures RealPow10(a + b) == Mul(RealPow10(a), RealPow10(b))
  {
    if b > 0 {
      AddsUp(a, b - 1);
      hide RealPow10, Mul;
      RealPow10Next(a + (b - 1));
      RealPow10Next(b - 1);
      Tenfold(RealPow10(a), RealPow10(b - 1));
    }
  }

  lemma RealPow10Adds(a: int, b: int)
    ensures RealPow10(a + b) == Mul(RealPow10(a), RealPow10(b))
  {
    if b >= 0 {
      AddsUp(a, b);
    } else {
      assert RealPow10(b + (0 - b)) == 1.0;
      hide RealPow10, Mul;
      AddsUp(a + b, 0 - b);
      AddsUp(b, 0 - b);
      Undone(RealPow10(a + b), RealPow10(0 - b), RealPow10(b));
    }
  }

  lemma {:induction false} RealPow10IsPow10(k: nat)
    ensures RealPow10(k) == Pow10(k) as real
  {
    if k > 0 {
      RealPow10IsPow10(k - 1);
    }
  }

  lemma Inverse(k: int)
    ensures RealPow10(0 - k) * RealPow10(k) == 1.0
  {
    RealPow10Adds(0 - k, k);
  }

  lemma {:induction false} RealPow10Grows(a: int, b: int)
    requires a <= b
    ensures RealPow10(a) <= RealPow10(b)
    decreases b - a
  {
    if a < b {
      RealPow10Grows(a, b - 1);
      RealPow10Next(b - 1);
    }
  }

  // ---- what the scaling means --------------------------------------------------------------

  lemma ExactUp(c: int, shift: nat, m: int)
    ensures c as real * RealPow10(shift) == m as real <==> m == c * Pow10(shift)
  {
    hide RealPow10, Pow10;
    RealPow10IsPow10(shift);
    assert c as real * Pow10(shift) as real == (c * Pow10(shift)) as real;
  }

  /** A scaled-down coefficient is `m` exactly when `m` scaled up is the coefficient. */
  lemma ExactDown(c: int, drop: nat, m: int)
    ensures c as real * RealPow10(0 - drop) == m as real <==> c == m * Pow10(drop)
  {
    hide RealPow10, Pow10;
    var (r, s) := (RealPow10(0 - drop), RealPow10(drop));
    Inverse(drop);
    Regroup(c as real, r, s);
    ExactUp(m, drop, c);
    if m as real * s == c as real {
      Cancel(c as real * r, m as real, s);
    }
  }

  lemma {:induction false} QuotientIs(c: nat, s: nat, m: int)
    requires s > 0
    ensures c == m * s <==> c % s == 0 && m == c / s
  {
    var (q, r) := (c / s, c % s);
    assert c == q * s + r;
    if c == m * s {
      Squeeze(m - q, s, r);
    }
  }

  lemma Squeeze(d: int, s: nat, r: nat)
    requires d * s == r && r < s
    ensures d == 0
  {
  }

  lemma SignedProduct(negative: bool, c: int, s: int)
    ensures Signed(negative, c) * s == Signed(negative, c * s)
  {
  }

  /** The rescaled coefficient is `m` exactly when the coefficient times `10^shift` is. */
  lemma ShiftedIsExact(negative: bool, c: nat, shift: int, m: int)
    ensures Shifted(negative, c, shift) == Some(m) <==> Signed(negative, c) as real * RealPow10(shift) == m as real
  {
    hide RealPow10, Pow10;
    if shift >= 0 {
      ExactUp(Signed(negative, c), shift, m);
      SignedProduct(negative, c, Pow10(shift));
    } else {
      ShiftedDown(negative, c, 0 - shift, m);
    }
  }

  lemma ShiftedDown(negative: bool, c: nat, drop: nat, m: int)
    requires drop > 0
    ensures Shifted(negative, c, 0 - drop) == Some(m)
      <==> Signed(negative, c) as real * RealPow10(0 - drop) == m as real
  {
    hide RealPow10, Pow10;
    ExactDown(Signed(negative, c), drop, m);
    assert Signed(negative, c) == m * Pow10(drop) <==> c == Signed(negative, m) * Pow10(drop) by {
      SignedProduct(negative, m, Pow10(drop));
    }
    hide Signed;
    QuotientIs(c, Pow10(drop), Signed(negative, m));
    SignedTwice(negative, m, c / Pow10(drop));
  }

  lemma SignedTwice(negative: bool, m: int, q: int)
    ensures Signed(negative, m) == q <==> m == Signed(negative, q)
  {
  }

  /** The answer is `m` exactly when the amount is in range and equals `m` units; otherwise there is none. */
  lemma MinorIsExact(amount: Dec, precision: Option<int>, m: int)
    ensures Minor(amount, precision) == Some(m) <==> Guarded(amount, precision) && IsExact(amount, precision.value, m)
  {
    hide RealPow10, Pow10, Adjusted, Shifted;
    if Guarded(amount, precision) {
      var (c, e, p) := (amount.coefficient, amount.exponent, precision.value);
      RealPow10Adds(e, p);
      Regroup(Signed(amount.negative, c) as real, RealPow10(e), RealPow10(p));
      if c != 0 {
        ShiftedIsExact(amount.negative, c, e + p, m);
      } else {
        ZeroTimes(RealPow10(e + p));
      }
    }
  }

  lemma ZeroTimes(x: real)
    ensures 0.0 * x == 0.0
  {
  }

  lemma BoundsScale(lo: real, x: real, hi: real, unit: real)
    requires lo <= x < hi && unit > 0.0
    ensures lo * unit <= x * unit < hi * unit
  {
    TimesAtMost(lo, x, unit);
    Times(x, hi, unit);
  }

  /** A coefficient lies between the powers of ten its numeral's length names. */
  lemma CoefficientBetween(c: nat)
    requires c != 0
    ensures RealPow10(|Show(c)| - 1) <= c as real < RealPow10(|Show(c)|)
  {
    hide RealPow10, Pow10;
    ReadShow(c);
    ShowBounds(c);
    RealPow10IsPow10(|Show(c)|);
    RealPow10IsPow10(|Show(c)| - 1);
  }

  lemma CoefficientBounds(c: nat, e: int)
    requires c != 0
    ensures RealPow10(|Show(c)| - 1 + e) <= c as real * RealPow10(e) < RealPow10(|Show(c)| + e)
  {
    hide RealPow10, Pow10, Show;
    CoefficientBetween(c);
    var n := |Show(c)|;
    BoundsScale(RealPow10(n - 1), c as real, RealPow10(n), RealPow10(e));
    RealPow10Adds(n, e);
    RealPow10Adds(n - 1, e);
  }

  /** The size of the value. */
  function Size(amount: Dec): real {
    amount.coefficient as real * RealPow10(amount.exponent)
  }

  lemma ValueIsSize(amount: Dec)
    ensures Value(amount) == if amount.negative then 0.0 - Size(amount) else Size(amount)
  {
    hide RealPow10;
    var (c, x) := (amount.coefficient as real, RealPow10(amount.exponent));
    assert (0.0 - c) * x == 0.0 - c * x;
  }

  lemma SizeBounds(amount: Dec)
    requires amount.coefficient != 0
    ensures RealPow10(Adjusted(amount)) <= Size(amount) < RealPow10(Adjusted(amount) + 1)
  {
    hide RealPow10, Show;
    CoefficientBounds(amount.coefficient, amount.exponent);
  }

  /** The magnitude guard: for a non-zero amount it bounds the value, whatever its representation. */
  lemma MagnitudeGuard(amount: Dec)
    requires amount.coefficient != 0
    ensures Adjusted(amount) < MAGNITUDE_LIMIT
      <==> 0.0 - RealPow10(MAGNITUDE_LIMIT) < Value(amount) < RealPow10(MAGNITUDE_LIMIT)
  {
    hide RealPow10, Adjusted, Size, Value;
    ValueIsSize(amount);
    SizeBounds(amount);
    if Adjusted(amount) < MAGNITUDE_LIMIT {
      RealPow10Grows(Adjusted(amount) + 1, MAGNITUDE_LIMIT);
    } else {
      RealPow10Grows(MAGNITUDE_LIMIT, Adjusted(amount));
    }
  }

  /** A non-zero amount has one answer however it is written. */
  lemma RepresentationsAgree(a: Dec, b: Dec, precision: Option<int>)
    requires Value(a) == Value(b) && a.coefficient != 0
    ensures Minor(a, precision) == Minor(b, precision)
  {
    hide RealPow10, Adjusted, Minor;
    NonZeroValue(a);
    ZeroTimes(RealPow10(b.exponent));
    MagnitudeGuard(a);
    MagnitudeGuard(b);
    AnswersAgree(a, b, precision);
  }

  lemma NonZeroValue(a: Dec)
    requires a.coefficient != 0
    ensures Value(a) != 0.0
  {
    hide RealPow10, Size, Value, Adjusted;
    SizeBounds(a);
    ValueIsSize(a);
  }

  lemma AnswersAgree(a: Dec, b: Dec, precision: Option<int>)
    requires Value(a) == Value(b) && (Guarded(a, precision) <==> Guarded(b, precision))
    ensures Minor(a, precision) == Minor(b, precision)
  {
    hide RealPow10, Adjusted, Minor, Value;
    var (x, y) := (Minor(a, precision), Minor(b, precision));
    if x.Some? {
      MinorIsExact(a, precision, x.value);
      MinorIsExact(b, precision, x.value);
    } else if y.Some? {
      MinorIsExact(a, precision, y.value);
      MinorIsExact(b, precision, y.value);
    }
  }

  /** Zero is the exception: its answer depends on the exponent it is written with. */
  lemma ZeroDependsOnExponent(negative: bool, exponent: int, p: int)
    requires 0 <= p <= MAX_PRECISION
    ensures Value(Dec(negative, 0, exponent)) == 0.0
    ensures Minor(Dec(negative, 0, exponent), Some(p)) == if exponent < MAGNITUDE_LIMIT then Some(0) else None
  {
    ZeroTimes(RealPow10(exponent));
  }

  /**
   * Two decimals of one value differ in their answers exactly when both are zero and one exponent
   * alone trips the guard.
   */
  lemma DisagreementIsZero(a: Dec, b: Dec, p: int)
    requires Value(a) == Value(b) && 0 <= p <= MAX_PRECISION
    ensures Minor(a, Some(p)) != Minor(b, Some(p))
      <==> Value(a) == 0.0 && (a.exponent < MAGNITUDE_LIMIT <==> b.exponent >= MAGNITUDE_LIMIT)
  {
    if a.coefficient != 0 {
      RepresentationsAgree(a, b, Some(p));
      NonZeroValue(a);
    } else if b.coefficient != 0 {
      RepresentationsAgree(b, a, Some(p));
      NonZeroValue(b);
    } else {
      ZeroDependsOnExponent(a.negative, a.exponent, p);
      ZeroDependsOnExponent(b.negative, b.exponent, p);
    }
  }

  /** An answer stays below `10^(14 + precision)`, so below `10^20`. */
  lemma MinorIsBounded(amount: Dec, p: int, m: int)
    requires Minor(amount, Some(p)) == Some(m)
    ensures 0 <= p && 0 - Pow10(MAGNITUDE_LIMIT + p) < m < Pow10(MAGNITUDE_LIMIT + p) <= Pow10(20)
  {
    hide RealPow10, Adjusted, Minor, Pow10, Value;
    MinorIsExact(amount, Some(p), m);
    ScaledBounds(amount, p);
    RealPow10IsPow10(MAGNITUDE_LIMIT + p);
    PowersUpTo20(MAGNITUDE_LIMIT + p);
  }

  lemma PowersUpTo20(k: nat)
    requires k <= 20
    ensures Pow10(k) <= Pow10(20)
  {
    hide RealPow10, Pow10;
    RealPow10IsPow10(k);
    RealPow10IsPow10(20);
    RealPow10Grows(k, 20);
  }

  lemma ScaledBounds(amount: Dec, p: int)
    requires Guarded(amount, Some(p))
    ensures 0.0 - RealPow10(MAGNITUDE_LIMIT + p) < Value(amount) * RealPow10(p) < RealPow10(MAGNITUDE_LIMIT + p)
  {
    hide RealPow10, Adjusted, Mul;
    if amount.coefficient == 0 {
      ZeroTimes(RealPow10(amount.exponent));
      ZeroTimes(RealPow10(p));
    } else {
      MagnitudeGuard(amount);
      hide Value;
      RealPow10Adds(MAGNITUDE_LIMIT, p);
      Within(Value(amount), RealPow10(MAGNITUDE_LIMIT), RealPow10(p), RealPow10(MAGNITUDE_LIMIT + p));
    }
  }

  lemma Within(x: real, limit: real, unit: real, scaled: real)
    requires 0.0 - limit < x < limit && unit > 0.0 && scaled == Mul(limit, unit)
    ensures 0.0 - scaled < x * unit < scaled
  {
    Times(x, limit, unit);
    Times(0.0 - limit, x, unit);
  }

  // ---- in whole numbers ----------------------------------------------------------------------

  /** A numeral is short exactly when its value is below the power of ten. */
  lemma ShortNumeral(c: nat, k: nat)
    requires c != 0
    ensures |Show(c)| <= k <==> c < Pow10(k)
  {
    ReadShow(c);
    ShowBounds(c);
    hide Pow10, Show;
    if |Show(c)| <= k {
      Pow10Grows(|Show(c)|, k);
    } else {
      Pow10Grows(k, |Show(c)| - 1);
    }
  }

  lemma {:induction false} Pow10Grows(a: nat, b: nat)
    requires a <= b
    ensures Pow10(a) <= Pow10(b)
    decreases b - a
  {
    if a < b {
      Pow10Grows(a, b - 1);
    }
  }

  /** The amount as an integer equation: `m` units of `10^-p` are the coefficient at its exponent. */
  predicate Balances(amount: Dec, p: int, m: int) {
    var c := if amount.negative then 0 - amount.coefficient else amount.coefficient;
    if amount.exponent + p >= 0 then m == c * Pow10(amount.exponent + p)
    else m * Pow10(0 - (amount.exponent + p)) == c
  }

  /** The amount is below `10^14` in size; zero is measured by its exponent alone. */
  predicate Below14Digits(amount: Dec) {
    if amount.coefficient == 0 then amount.exponent < 14
    else amount.exponent <= 14 && amount.coefficient < Pow10(14 - amount.exponent)
  }

  lemma GuardExactly(amount: Dec)
    ensures Adjusted(amount) < 14 <==> Below14Digits(amount)
  {
    if amount.coefficient != 0 {
      ReadShow(amount.coefficient);
      hide Show, Pow10;
      if amount.exponent <= 14 {
        ShortNumeral(amount.coefficient, 14 - amount.exponent);
      }
    }
  }

  /** The answer in whole numbers: a precision from 0 to 6, fewer than 15 digits, and the equation. */
  lemma MinorInIntegers(amount: Dec, precision: Option<int>, m: int)
    ensures Minor(amount, precision) == Some(m) <==>
      && precision.Some? && 0 <= precision.value <= 6 && Below14Digits(amount)
      && if amount.coefficient == 0 then m == 0 else Balances(amount, precision.value, m)
  {
    GuardExactly(amount);
    hide Adjusted, Pow10, Show, Below14Digits;
    if precision.Some? && 0 <= precision.value <= 6 && Adjusted(amount) < 14 && amount.coefficient != 0 {
      hide Guarded;
      ShiftBalances(amount, precision.value, m);
    }
  }

  lemma ShiftBalances(amount: Dec, p: int, m: int)
    ensures Shifted(amount.negative, amount.coefficient, amount.exponent + p) == Some(m) <==> Balances(amount, p, m)
  {
    hide Pow10;
    var (c, shift) := (amount.coefficient, amount.exponent + p);
    if shift >= 0 {
      SignedProduct(amount.negative, c, Pow10(shift));
    } else {
      QuotientIs(c, Pow10(0 - shift), Signed(amount.negative, m));
      SignedProduct(amount.negative, m, Pow10(0 - shift));
    }
  }

  // ---- the rescaling as written ------------------------------------------------------------

  /** The scaling step by step, rescaling a local coefficient in place. */
  method MinorUnitsOf(amount: Dec, precision: Option<int>) returns (minor: Option<int>)
    ensures forall m :: minor == Some(m) <==> Guarded(amount, precision) && IsExact(amount, precision.value, m)
    ensures minor == Minor(amount, precision)
  {
    forall m
      ensures Minor(amount, precision) == Some(m) <==> Guarded(amount, precision) && IsExact(amount, precision.value, m)
    {
      MinorIsExact(amount, precision, m);
    }
    if precision == None || !(0 <= precision.value <= MAX_PRECISION) {
      return None;
    }
    if Adjusted(amount) >= MAGNITUDE_LIMIT {
      return None;
    }
    var coefficient := amount.coefficient;
    if coefficient == 0 {
      return Some(0);
    }
    var shift := amount.exponent + precision.value;
    if shift >= 0 {
      coefficient := coefficient * Pow10(shift);
    } else {
      var scale := Pow10(-shift);
      if coefficient % scale != 0 {
        return None;
      }
      coefficient := coefficient / scale;
    }
    minor := Some(if amount.negative then -coefficient else coefficient);
  }
}
