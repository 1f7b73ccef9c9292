/** decimal_staircase: a number's digits read again and again, each time in
    the base the previous reading produced. */
module DungeonStaircase {
  import opened Powers
  import opened Positional
  import opened DigitReweighting

  /** The last element of xs, or d when xs is empty: the base of the next step. */
  function LastOr(xs: seq<real>, d: real): real
  {
    if xs == [] then d else xs[|xs| - 1]
  }

  /** The first depth numbers of the dungeon of a: the first base is a itself,
      each later base is the number produced last; the first failing step
      makes the whole staircase fail with its error. */
  function Staircase(a: Number, depth: nat): (r: Result<seq<real>>)
    ensures r.Ok? ==> |r.value| == depth
    ensures depth == 0 ==> r == Ok([])
  {
    if depth == 0 then Ok([])
    else
      match Staircase(a, depth - 1)
      case Err(e) => Err(e)
      case Ok(xs) =>
        match Reweight(a, LastOr(xs, a.value), PRECISION)
        case Err(e) => Err(e)
        case Ok(x) => Ok(xs + [x])
  }

  /** Element 0 is a read in base a, and element k + 1 is a read in base
      element k. */
  predicate IsStaircase(a: Number, xs: seq<real>)
  {
    forall k :: 0 <= k < |xs| ==> Reweight(a, BaseAt(a, xs, k), PRECISION) == Ok(xs[k])
  }

  /** The base element k is read in: a itself first, then the element before. */
  function BaseAt(a: Number, xs: seq<real>, k: nat): real
    requires k <= |xs|
  {
    if k == 0 then a.value else xs[k - 1]
  }

  /** One step deeper, the staircase gains the reading of a in the base it
      ended with. */
  lemma {:induction false} StaircaseSnoc(a: Number, xs: seq<real>, x: real)
    ensures Staircase(a, |xs| + 1) == Ok(xs + [x])
            <==> Staircase(a, |xs|) == Ok(xs) && Reweight(a, LastOr(xs, a.value), PRECISION) == Ok(x)
  {
    if Staircase(a, |xs| + 1) == Ok(xs + [x]) {
      var ys := Staircase(a, |xs|).value;
      assert ys + [Reweight(a, LastOr(ys, a.value), PRECISION).value] == xs + [x];
      assert ys == (xs + [x])[..|xs|] == xs;
    }
  }

  /** The recurrence holds of xs + [x] exactly when it holds of xs and x is
      the reading of a in the base xs ends with. */
  lemma {:induction false} IsStaircaseSnoc(a: Number, xs: seq<real>, x: real)
    ensures IsStaircase(a, xs + [x])
            <==> IsStaircase(a, xs) && Reweight(a, LastOr(xs, a.value), PRECISION) == Ok(x)
  {
    var ys := xs + [x];
    assert forall k :: 0 <= k < |xs| ==> ys[k] == xs[k] && BaseAt(a, ys, k) == BaseAt(a, xs, k);
    assert ys[|xs|] == x && BaseAt(a, ys, |xs|) == LastOr(xs, a.value);
  }

  /** The staircase of a given depth is exactly the sequence of that length
      obeying the recurrence. */
  lemma {:induction false} StaircaseRecurrence(a: Number, xs: seq<real>)
    ensures Staircase(a, |xs|) == Ok(xs) <==> IsStaircase(a, xs)
  {
    if xs != [] {
      var init, x := xs[..|xs| - 1], xs[|xs| - 1];
      assert xs == init + [x];
      StaircaseRecurrence(a, init);
      StaircaseSnoc(a, init, x);
      IsStaircaseSnoc(a, init, x);
    }
  }

  /** A deeper staircase extends a shallower one. */
  lemma {:induction false} StaircasePrefix(a: Number, d1: nat, d2: nat)
    requires d1 <= d2 && Staircase(a, d2).Ok?
    ensures Staircase(a, d1) == Ok(Staircase(a, d2).value[..d1])
  {
    if d1 < d2 {
      var xs := Staircase(a, d2 - 1).value;
      assert Staircase(a, d2).value[..d2 - 1] == xs;
      StaircasePrefix(a, d1, d2 - 1);
      assert xs[..d1] == Staircase(a, d2).value[..d1];
    } else {
      assert Staircase(a, d2).value[..d2] == Staircase(a, d2).value;
    }
  }

  /** Once a step fails, every deeper staircase fails with the same error. */
  lemma {:induction false} StaircaseErrorPersists(a: Number, d1: nat, d2: nat)
    requires d1 <= d2 && Staircase(a, d1).Err?
    ensures Staircase(a, d2) == Staircase(a, d1)
  {
    if d1 < d2 {
      StaircaseErrorPersists(a, d1, d2 - 1);
    }
  }

  /** A number that cannot be read in its own base has no staircase of
      positive depth; in particular one whose fractional text has no '.'. */
  lemma {:induction false} StaircaseFirstStepFails(a: Number, depth: nat)
    requires depth > 0 && Reweight(a, a.value, PRECISION).Err?
    ensures Staircase(a, depth) == Err(Reweight(a, a.value, PRECISION).error)
    ensures '.' !in a.fracText ==> Staircase(a, depth) == Err(MissingPoint)
  {
    StaircaseErrorPersists(a, 1, depth);
  }

  /** A number that reads as itself in its own base repeats forever. */
  lemma {:induction false} StaircaseFixedPoint(a: Number, depth: nat)
    requires Reweight(a, a.value, PRECISION) == Ok(a.value)
    ensures Staircase(a, depth).Ok?
    ensures forall k :: 0 <= k < depth ==> Staircase(a, depth).value[k] == a.value
  {
    if depth > 0 {
      StaircaseFixedPoint(a, depth - 1);
      var xs := Staircase(a, depth - 1).value;
      assert LastOr(xs, a.value) == a.value;
    }
  }

  /** decimal_staircase(number, dungeon_depth): the list is built by a loop
      that reassigns the base and appends each new number; a negative depth
      gives an empty range and so an empty list. */
  method DecimalStaircase(a: Number, depth: int) returns (r: Result<seq<real>>)
    ensures r == Staircase(a, if depth < 0 then 0 else depth)
  {
    var count: nat := if depth < 0 then 0 else depth;
    var base := a.value;
    var numbers: seq<real> := [];
    for i := 0 to count
      invariant Staircase(a, i) == Ok(numbers)
      invariant base == LastOr(numbers, a.value)
    {
      var next := ASubB(a, base);
      if next.Err? {
        StaircaseErrorPersists(a, i + 1, count);
        return Err(next.error);
      }
      base := next.value;
      numbers := numbers + [base];
    }
    return Ok(numbers);
  }

  /** A number whose integer text is the single digit n and whose kept
      fractional field is the digit m followed only by zeros, as the field of
      1.1 (read "1000000000") is. */
  predicate ShortDecimal(a: Number, n: int, m: int)
  {
    |a.intText| == 1 && IsDigitChar(a.intText[0]) && DigitValue(a.intText[0]) == n
    && FractionField(a.fracText, PRECISION).Some?
    && var f := FractionField(a.fracText, PRECISION).value;
       |f| >= 1 && IsDigitChar(f[0]) && DigitValue(f[0]) == m
       && forall i :: 1 <= i < |f| ==> f[i] == '0'
  }

  /** Such a number, read in base x, is n + m / x; base zero fails on the
      negative power of the fractional digit. */
  lemma {:induction false} ReweightShortDecimal(a: Number, n: int, m: int, x: real)
    requires ShortDecimal(a, n, m)
    ensures Reweight(a, x, PRECISION)
            == if x == 0.0 then Err(ZeroToNegativePower) else Ok(n as real + m as real / x)
  {
    var f := FractionField(a.fracText, PRECISION).value;
    var text := a.intText + f;
    assert text[0] == a.intText[0] && text[1..] == f;
    if x == 0.0 {
      assert Fault(f, x, -1) == Some(ZeroToNegativePower);
      assert Fault(text, x, 0) == Some(ZeroToNegativePower);
    } else {
      ShortDecimalDigits(a, n, m, f);
      ReweightTerms(a, x, PRECISION);
      ShortDecimalValue(n, m, Digits(f[1..]), x);
    }
  }

  /** The digits of such a number: n, then m and zeros. */
  lemma {:induction false} ShortDecimalDigits(a: Number, n: int, m: int, f: string)
    requires ShortDecimal(a, n, m) && f == FractionField(a.fracText, PRECISION).value
    ensures AllDigits(a.intText + f) && AllDigits(f) && AllDigits(f[1..])
    ensures Digits(a.intText) == [n] && Digits(f) == [m] + Digits(f[1..])
    ensures forall i :: 0 <= i < |f| - 1 ==> Digits(f[1..])[i] == 0
  {
    var text := a.intText + f;
    assert forall i :: 1 <= i < |text| ==> text[i] == f[i - 1];
    assert forall i :: 0 <= i < |f| - 1 ==> f[1..][i] == f[i + 1];
  }

  /** The digit n at place zero, then m and zeros from place -1 on. */
  lemma {:induction false} ShortDecimalValue(n: int, m: int, zs: seq<int>, x: real)
    requires x != 0.0 && forall i :: 0 <= i < |zs| ==> zs[i] == 0
    ensures PowersDefined(x, 0, 1) && PowersDefined(x, -1, 1 + |zs|)
    ensures PositionalValue([n], x, 0) + PositionalValue([m] + zs, x, -1) == n as real + m as real / x
  {
    PositionalSingle(n, x, 0);
    PositionalConcat([m], zs, x, -1, -2);
    PositionalSingle(m, x, -1);
    PositionalZeros(zs, x, -2);
    PowerMinusOne(x);
    assert Power(x, 0) == 1.0;
  }

  /** The bases such a number reads as themselves are the roots of
      x^2 = n x + m: the numbers its staircase can settle on. */
  lemma {:induction false} ShortDecimalFixedPoint(a: Number, n: int, m: int, x: real)
    requires ShortDecimal(a, n, m)
    ensures Reweight(a, x, PRECISION) == Ok(x) <==> x != 0.0 && x * x == n as real * x + m as real
  {
    ReweightShortDecimal(a, n, m, x);
    if x != 0.0 {
      FixedPointAlgebra(x, n as real, m as real);
    }
  }

  lemma {:induction false} FixedPointAlgebra(x: real, n: real, m: real)
    requires x != 0.0
    ensures x == n + m / x <==> x * x == n * x + m
  {
    assert x * (m / x) == m;
    assert x * (n + m / x) == n * x + m;
  }

  /** The integer sequence G with G(0) = q, G(1) = p and
      G(k + 2) = n G(k + 1) + m G(k). */
  function Ladder(q: int, p: int, n: int, m: int, k: nat): int
  {
    if k == 0 then q
    else if k == 1 then p
    else n * Ladder(q, p, n, m, k - 1) + m * Ladder(q, p, n, m, k - 2)
  }

  lemma {:induction false} LadderPositive(q: int, p: int, n: int, m: int, k: nat)
    requires q > 0 && p > 0 && n >= 0 && m >= 0 && n + m > 0
    ensures Ladder(q, p, n, m, k) > 0
  {
    if k >= 2 {
      LadderPositive(q, p, n, m, k - 1);
      LadderPositive(q, p, n, m, k - 2);
      LadderSum(Ladder(q, p, n, m, k - 1), Ladder(q, p, n, m, k - 2), n, m);
    }
  }

  lemma {:induction false} LadderSum(u: int, v: int, n: int, m: int)
    requires u > 0 && v > 0 && n >= 0 && m >= 0 && n + m > 0
    ensures n * u + m * v > 0
  {
    if n > 0 {
      assert n * u >= u;
    } else {
      assert m * v >= v;
    }
  }

  /** Start values and coefficients for which every term of G is positive. */
  predicate LadderParams(q: int, p: int, n: int, m: int)
  {
    q > 0 && p > 0 && n >= 0 && m >= 0 && n + m > 0
  }

  /** The ratio G(k + 2) / G(k + 1). */
  function Rung(q: int, p: int, n: int, m: int, k: nat): (r: real)
    requires LadderParams(q, p, n, m)
    ensures r > 0.0
  {
    LadderPositive(q, p, n, m, k + 1);
    LadderPositive(q, p, n, m, k + 2);
    Ladder(q, p, n, m, k + 2) as real / Ladder(q, p, n, m, k + 1) as real
  }

  /** Started at p / q, the staircase of a number n.m is the ratios of
      consecutive terms of G: for 1.1 = 11 / 10 these are 21/11, 32/21,
      53/32, ..., ratios of a Fibonacci-like sequence. */
  lemma {:induction false} ShortDecimalStaircase(a: Number, n: int, m: int, p: int, q: int, depth: nat)
    requires ShortDecimal(a, n, m) && LadderParams(q, p, n, m) && a.value == p as real / q as real
    ensures Staircase(a, depth).Ok?
    ensures forall k :: 0 <= k < depth ==> Staircase(a, depth).value[k] == Rung(q, p, n, m, k)
  {
    if depth > 0 {
      ShortDecimalStaircase(a, n, m, p, q, depth - 1);
      var xs := Staircase(a, depth - 1).value;
      var k := depth - 1;
      LadderPositive(q, p, n, m, k);
      LadderPositive(q, p, n, m, k + 1);
      var u, v, w := Ladder(q, p, n, m, k), Ladder(q, p, n, m, k + 1), Ladder(q, p, n, m, k + 2);
      RungLast(q, p, n, m, xs, a.value);
      LadderStep(q, p, n, m, k);
      var x := ShortDecimalStep(a, n, m, u, v, w);
      assert x == Rung(q, p, n, m, k);
      RungSnoc(q, p, n, m, xs, x);
    }
  }

  /** The base after the ratios xs is the next ratio, p / q at the start. */
  lemma {:induction false} RungLast(q: int, p: int, n: int, m: int, xs: seq<real>, start: real)
    requires LadderParams(q, p, n, m) && start == p as real / q as real
    requires forall k :: 0 <= k < |xs| ==> xs[k] == Rung(q, p, n, m, k)
    ensures Ladder(q, p, n, m, |xs|) > 0
    ensures LastOr(xs, start)
            == Ladder(q, p, n, m, |xs| + 1) as real / Ladder(q, p, n, m, |xs|) as real
  {
    LadderPositive(q, p, n, m, |xs|);
    if xs == [] {
      assert Ladder(q, p, n, m, 0) == q && Ladder(q, p, n, m, 1) == p;
    } else {
      var k := |xs| - 1;
      assert LastOr(xs, start) == xs[k] == Rung(q, p, n, m, k);
    }
  }

  /** The next ratio extends the ratios. */
  lemma {:induction false} RungSnoc(q: int, p: int, n: int, m: int, xs: seq<real>, x: real)
    requires LadderParams(q, p, n, m)
    requires forall k :: 0 <= k < |xs| ==> xs[k] == Rung(q, p, n, m, k)
    requires x == Rung(q, p, n, m, |xs|)
    ensures forall k :: 0 <= k < |xs| + 1 ==> (xs + [x])[k] == Rung(q, p, n, m, k)
  {
    var ys := xs + [x];
    assert ys[|xs|] == x == Rung(q, p, n, m, |xs|);
    forall k | 0 <= k < |xs|
      ensures ys[k] == Rung(q, p, n, m, k)
    {
      assert ys[k] == xs[k];
    }
  }

  /** Read in the base v / u, such a number gives w / v when w = n v + m u.
      The lemma returns that reading, so that the caller can name it. */
  lemma {:induction false} ShortDecimalStep(a: Number, n: int, m: int, u: int, v: int, w: int)
    returns (x: real)
    requires ShortDecimal(a, n, m) && u > 0 && v > 0 && w == n * v + m * u
    ensures x == w as real / v as real
    ensures Reweight(a, v as real / u as real, PRECISION) == Ok(x)
  {
    assert w as real == n as real * v as real + m as real * u as real;
    x := ShortDecimalRatio(a, n, m, u as real, v as real, w as real);
  }

  lemma {:induction false} LadderStep(q: int, p: int, n: int, m: int, k: nat)
    ensures Ladder(q, p, n, m, k + 2) == n * Ladder(q, p, n, m, k + 1) + m * Ladder(q, p, n, m, k)
  {
  }

  /** The same step over the reals; it too returns the reading. */
  lemma {:induction false} ShortDecimalRatio(a: Number, n: int, m: int, u: real, v: real, w: real)
    returns (x: real)
    requires ShortDecimal(a, n, m)
    requires u > 0.0 && v > 0.0 && w == n as real * v + m as real * u
    ensures x == w / v && Reweight(a, v / u, PRECISION) == Ok(x)
  {
    RatioStep(u, v, w, n as real, m as real);
    ReweightShortDecimal(a, n, m, v / u);
    x := w / v;
  }

  lemma {:induction false} RatioStep(u: real, v: real, w: real, n: real, m: real)
    requires u > 0.0 && v > 0.0 && w == n * v + m * u
    ensures v / u != 0.0 && n + m / (v / u) == w / v
  {
    assert m / (v / u) == m * u / v;
  }

  /** The character c, k times over. */
  function Repeat(c: char, k: nat): (z: string)
    ensures |z| == k && forall i :: 0 <= i < k ==> z[i] == c
  {
    seq(k, _ => c)
  }

  /** The fractional part of 1.1 prints as 0.1, fifteen zeros and a 9
      (0.10000000000000009); its kept field is a 1 and nine zeros. */
  lemma {:induction false} OnePointOneField(s: string)
    requires s == "0.1" + Repeat('0', 15) + "9"
    ensures FractionField(s, PRECISION) == Some("1" + Repeat('0', 9))
  {
    var field := "1" + Repeat('0', 15) + "9";
    assert s == "0" + "." + field;
    OnePointOneDigits(field);
    FractionFieldOf("0", field, PRECISION);
  }

  lemma {:induction false} OnePointOneDigits(field: string)
    requires field == "1" + Repeat('0', 15) + "9"
    ensures '.' !in field && field[..PRECISION] == "1" + Repeat('0', 9)
  {
    assert forall i :: 0 <= i < |field| ==> field[i] == '1' || field[i] == '0' || field[i] == '9';
    assert forall i :: 1 <= i < PRECISION ==> field[i] == '0';
  }

  /** 1.1 is a number of that kind, with n = m = 1. */
  lemma {:induction false} OnePointOneShape(a: Number)
    requires a == Number(1.1, "1", "0.1" + Repeat('0', 15) + "9")
    ensures ShortDecimal(a, 1, 1)
  {
    OnePointOneField(a.fracText);
    var f := "1" + Repeat('0', 9);
    assert forall i :: 1 <= i < |f| ==> f[i] == Repeat('0', 9)[i - 1];
  }

  /** The dungeon of 1.1 is the ratios 21/11, 32/21, 53/32, ... of the
      sequence 10, 11, 21, 32, 53, ...: Fibonacci's recurrence, whose
      ratios tend to the golden ratio. */
  lemma {:induction false} OnePointOneDungeon(a: Number, depth: nat)
    requires a == Number(1.1, "1", "0.1" + Repeat('0', 15) + "9")
    ensures LadderParams(10, 11, 1, 1)
    ensures Staircase(a, depth).Ok?
    ensures forall k :: 0 <= k < depth ==> Staircase(a, depth).value[k] == Rung(10, 11, 1, 1, k)
  {
    OnePointOneShape(a);
    ShortDecimalStaircase(a, 1, 1, 11, 10, depth);
  }

  /** From 4.1 on, the double nearest n.1 lies below it, so the fractional
      part of 4.1 (and of 5.1 to 9.1) prints as 0.0, fourteen nines and 64
      (0.09999999999999964); its kept field is a 0 and nine nines. */
  lemma {:induction false} FourPointOneField(s: string)
    requires s == "0.0" + Repeat('9', 14) + "64"
    ensures FractionField(s, PRECISION) == Some("0" + Repeat('9', 9))
  {
    var field := "0" + Repeat('9', 14) + "64";
    assert s == "0" + "." + field;
    FourPointOneDigits(field);
    FractionFieldOf("0", field, PRECISION);
  }

  lemma {:induction false} FourPointOneDigits(field: string)
    requires field == "0" + Repeat('9', 14) + "64"
    ensures '.' !in field && field[..PRECISION] == "0" + Repeat('9', 9)
  {
    assert forall i :: 0 <= i < |field| ==> field[i] == '0' || field[i] == '9' || field[i] == '6' || field[i] == '4';
    assert forall i :: 1 <= i < PRECISION ==> field[i] == '9';
  }

  /** So 4.1 is not a number n.m000...: its staircase is not the ratios of a
      recurrence G(k + 2) = n G(k + 1) + m G(k) with the digits of 4.1. */
  lemma {:induction false} FourPointOneNotShort(a: Number)
    requires a == Number(4.1, "4", "0.0" + Repeat('9', 14) + "64")
    ensures forall n, m :: !ShortDecimal(a, n, m)
  {
    FourPointOneField(a.fracText);
    var f := "0" + Repeat('9', 9);
    assert f[1] == '9';
  }
}
