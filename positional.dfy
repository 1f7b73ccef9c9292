/** The value of a digit sequence read against descending powers of a real
    base, and, for base ten, its agreement with the ordinary decimal value of
    the digits. */
module Positional {
  import opened Powers

  /** Every power used by the expansion of n digits whose leading exponent is
      top (so the last exponent is top - n + 1) is defined. */
  predicate PowersDefined(b: real, top: int, n: nat)
  {
    b != 0.0 || n == 0 || n <= top + 1
  }

  /** The sum over positions i of ds[i] * b^(top - i). */
  function PositionalValue(ds: seq<int>, b: real, top: int): real
    requires PowersDefined(b, top, |ds|)
    decreases |ds|
  {
    if ds == [] then 0.0
    else ds[0] as real * Power(b, top) + PositionalValue(ds[1..], b, top - 1)
  }

  predicate NonNegative(ds: seq<int>)
  {
    forall i :: 0 <= i < |ds| ==> ds[i] >= 0
  }

  /** Non-negative digits in a positive base give a non-negative value. */
  lemma {:induction false} PositionalNonNegative(ds: seq<int>, b: real, top: int)
    requires b > 0.0 && NonNegative(ds)
    ensures PositionalValue(ds, b, top) >= 0.0
  {
    if ds != [] {
      assert ds[0] >= 0 && NonNegative(ds[1..]);
      PositionalNonNegative(ds[1..], b, top - 1);
      assert 1.0 / b > 0.0;
      assert Power(b, top) > 0.0;
      NonNegativeTerm(ds[0] as real, Power(b, top));
    }
  }

  lemma {:induction false} NonNegativeTerm(d: real, p: real)
    requires d >= 0.0 && p > 0.0
    ensures d * p >= 0.0
  {
  }

  /** Splitting a digit sequence splits its value: the second part continues
      with the exponent mid right below the last one of the first part. (mid
      is a parameter fixed by the requires, not computed, so that callers'
      terms PositionalValue(ys, b, mid) match the ensures without arithmetic.) */
  lemma {:induction false} PositionalConcat(xs: seq<int>, ys: seq<int>, b: real, top: int, mid: int)
    requires mid == top - |xs| && PowersDefined(b, top, |xs| + |ys|)
    ensures PowersDefined(b, top, |xs|) && PowersDefined(b, mid, |ys|)
    ensures PositionalValue(xs + ys, b, top)
            == PositionalValue(xs, b, top) + PositionalValue(ys, b, mid)
  {
    if xs == [] {
      assert xs + ys == ys;
    } else {
      var zs := xs + ys;
      assert zs[0] == xs[0] && zs[1..] == xs[1..] + ys;
      PositionalConcat(xs[1..], ys, b, top - 1, mid);
    }
  }

  /** A run of zero digits contributes nothing, whatever the base. */
  lemma {:induction false} PositionalZeros(ds: seq<int>, b: real, top: int)
    requires PowersDefined(b, top, |ds|)
    requires forall i :: 0 <= i < |ds| ==> ds[i] == 0
    ensures PositionalValue(ds, b, top) == 0.0
  {
    if ds != [] {
      PositionalZeros(ds[1..], b, top - 1);
    }
  }

  /** A single digit contributes its coefficient times the power of its position. */
  lemma {:induction false} PositionalSingle(d: int, b: real, e: int)
    requires PowerDefined(b, e)
    ensures PowersDefined(b, e, 1)
    ensures PositionalValue([d], b, e) == d as real * Power(b, e)
  {
    assert [d][1..] == [];
  }

  /** Appending a digit adds it times the power of the place after the last.
      The exponent e, the running sum and the new term are parameters fixed by
      the requires, as in the loop that accumulates them, so that the ensures
      speak of the loop's own variables. */
  lemma {:induction false} PositionalAppend(ds: seq<int>, d: int, b: real, top: int, e: int,
                                           sum: real, term: real)
    requires e == top - |ds| && PowerDefined(b, e) && PowersDefined(b, top, |ds|)
    requires sum == PositionalValue(ds, b, top) && term == d as real * Power(b, e)
    ensures PowersDefined(b, top, |ds| + 1)
    ensures sum + term == PositionalValue(ds + [d], b, top)
  {
    PositionalConcat(ds, [d], b, top, e);
    PositionalSingle(d, b, e);
  }

  /** In base ten, raising every exponent by one multiplies the value by ten;
      raised stands for top + 1 (a parameter, so that it can be matched). */
  lemma {:induction false} PositionalScale(ds: seq<int>, top: int, raised: int)
    requires raised == top + 1
    ensures PositionalValue(ds, 10.0, top) * 10.0 == PositionalValue(ds, 10.0, raised)
  {
    if ds != [] {
      PositionalScale(ds[1..], top - 1, top);
      PowerStep(10.0, top);
      ScaleTerm(ds[0] as real, Power(10.0, top), Power(10.0, raised));
    }
  }

  lemma {:induction false} ScaleTerm(d: real, p: real, q: real)
    requires q == 10.0 * p
    ensures d * p * 10.0 == d * q
  {
  }

  /** x multiplied by ten, k times over. */
  function TimesTenTo(x: real, k: nat): real
  {
    if k == 0 then x else TimesTenTo(x, k - 1) * 10.0
  }

  lemma {:induction false} TimesTenToIsProduct(x: real, k: nat)
    ensures TimesTenTo(x, k) == x * Pow10(k) as real
  {
    if k > 0 {
      TimesTenToIsProduct(x, k - 1);
      ShiftAlgebra(x, Pow10(k - 1) as real, Pow10(k) as real);
    }
  }

  lemma {:induction false} ShiftAlgebra(v: real, p: real, q: real)
    requires q == 10.0 * p
    ensures v * q == v * p * 10.0
  {
  }

  /** In base ten, raising every exponent by k multiplies the value by 10^k;
      raised stands for top + k (a parameter, so that it can be matched). */
  lemma {:induction false} PositionalShift(ds: seq<int>, top: int, k: nat, raised: int)
    requires raised == top + k
    ensures TimesTenTo(PositionalValue(ds, 10.0, top), k) == PositionalValue(ds, 10.0, raised)
  {
    if k > 0 {
      PositionalShift(ds, top, k - 1, raised - 1);
      PositionalScale(ds, raised - 1, raised);
    }
  }

  predicate IsDigitSeq(ds: seq<int>)
  {
    forall i :: 0 <= i < |ds| ==> 0 <= ds[i] <= 9
  }

  /** The natural number a digit sequence denotes in ordinary decimal
      notation, read from the most significant digit. */
  function DecimalValue(ds: seq<int>): (n: int)
    requires IsDigitSeq(ds)
    ensures 0 <= n
  {
    if ds == [] then 0
    else DecimalValue(ds[..|ds| - 1]) * 10 + ds[|ds| - 1]
  }

  /** n decimal digits denote less than 10^n. */
  lemma {:induction false} DecimalValueBound(ds: seq<int>, n: nat)
    requires IsDigitSeq(ds) && n == |ds|
    ensures DecimalValue(ds) < Pow10(n)
  {
    if ds != [] {
      DecimalValueBound(ds[..|ds| - 1], n - 1);
    }
  }

  /** Read in base ten with the last digit at exponent zero, a digit sequence
      is its decimal value. */
  lemma {:induction false} PositionalInteger(ds: seq<int>, top: int)
    requires IsDigitSeq(ds) && top == |ds| - 1
    ensures PositionalValue(ds, 10.0, top) == DecimalValue(ds) as real
  {
    if ds != [] {
      var init, d := ds[..|ds| - 1], ds[|ds| - 1];
      assert ds == init + [d];
      PositionalInteger(init, |init| - 1);
      PositionalScale(init, |init| - 1, top);
      PositionalConcat(init, [d], 10.0, top, 0);
      PositionalSingle(d, 10.0, 0);
    }
  }

  /** Read in base ten starting at exponent -1, as the digits after a decimal
      point are, a digit sequence is its decimal value over 10^n. */
  lemma {:induction false} PositionalFraction(ds: seq<int>, n: nat)
    requires IsDigitSeq(ds) && n == |ds|
    ensures TimesTenTo(PositionalValue(ds, 10.0, -1), n) == DecimalValue(ds) as real
  {
    PositionalShift(ds, -1, n, n - 1);
    PositionalInteger(ds, n - 1);
  }

  /** Integer digits read in base ten down to exponent zero, followed by
      fractional digits from exponent -1 on, give the integer plus the
      fraction (a value in [0, 1)) the digits denote in decimal notation. */
  lemma {:induction false} PositionalDecimal(ids: seq<int>, fds: seq<int>, top: int, n: nat)
    requires IsDigitSeq(ids) && IsDigitSeq(fds) && top == |ids| - 1 && n == |fds|
    ensures PositionalValue(ids, 10.0, top) + PositionalValue(fds, 10.0, -1)
            == DecimalValue(ids) as real + DecimalValue(fds) as real / Pow10(n) as real
    ensures 0 <= DecimalValue(fds) < Pow10(n)
  {
    PositionalInteger(ids, top);
    PositionalFraction(fds, n);
    DecimalValueBound(fds, n);
    TimesTenToQuotient(PositionalValue(fds, 10.0, -1), n, DecimalValue(fds) as real);
  }

  /** Undoing k multiplications by ten is a division by 10^k. */
  lemma {:induction false} TimesTenToQuotient(x: real, k: nat, y: real)
    requires TimesTenTo(x, k) == y
    ensures x == y / Pow10(k) as real
  {
    TimesTenToIsProduct(x, k);
    Quotient(x, Pow10(k) as real, y);
  }

  lemma {:induction false} Quotient(f: real, p: real, n: real)
    requires p > 0.0 && f * p == n
    ensures f == n / p
  {
  }
}
