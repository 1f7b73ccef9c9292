/** Integer powers of a real base, as Python's `**` computes them for a float
    base and an int exponent (exactly, without rounding). */
module Powers {

  /** b raised to a natural power. */
  function PowNat(b: real, n: nat): (r: real)
    ensures b != 0.0 ==> r != 0.0
    ensures b > 0.0 ==> r > 0.0
  {
    if n == 0 then 1.0 else b * PowNat(b, n - 1)
  }

  /** Ten raised to a natural power, as an integer. */
  function Pow10(n: nat): (r: nat)
    ensures r >= 1
  {
    if n == 0 then 1 else 10 * Pow10(n - 1)
  }

  /** Python's `b ** e` for an int exponent raises ZeroDivisionError exactly
      when the base is zero and the exponent negative. */
  predicate PowerDefined(b: real, e: int)
  {
    b != 0.0 || e >= 0
  }

  /** b raised to an integer power, negative exponents giving reciprocals. */
  function Power(b: real, e: int): (r: real)
    requires PowerDefined(b, e)
    ensures b != 0.0 ==> r != 0.0
  {
    if e >= 0 then PowNat(b, e) else PowNat(1.0 / b, -e)
  }

  /** Raising the exponent by one multiplies by the base, across zero too. */
  lemma {:induction false} PowerStep(b: real, e: int)
    requires PowerDefined(b, e)
    ensures Power(b, e + 1) == b * Power(b, e)
  {
    if e < 0 {
      var r := 1.0 / b;
      assert PowNat(r, -e) == r * PowNat(r, -e - 1);
      Reciprocal(b, r, PowNat(r, -e - 1));
    }
  }

  lemma {:induction false} Reciprocal(b: real, r: real, p: real)
    requires b != 0.0 && r == 1.0 / b
    ensures b * (r * p) == p
  {
    assert b * r == 1.0;
  }

  /** The power -1 is the reciprocal. */
  lemma {:induction false} PowerMinusOne(x: real)
    requires x != 0.0
    ensures Power(x, -1) == 1.0 / x
  {
    assert PowNat(1.0 / x, 1) == 1.0 / x * PowNat(1.0 / x, 0);
  }
}
