# Dungeon numbers, modelled in Dafny

A "dungeon number" takes the decimal digits of a number `a` and reads them
again as a positional expansion in another base `b`, which may be any real
number. The integer digits get the exponents `len - 1` down to `0`, and the
fractional digits get `-1, -2, …`. That is `a_sub_b` in `main.py`. It keeps
only the first `PRECISION = 10` characters of the fractional field.
`decimal_staircase` then iterates it: the number stays fixed, and each
result becomes the base of the next reading. For `1.1` the staircase tends
to the golden ratio. The fractional part of `1.1`, `2.1` and `3.1` prints as
`0.10000000000000009`, so each keeps the field `1000000000` and reads as
`n + 1/x` in base x. The fixed points of that reading are the two roots of
x² = n·x + 1, the positive one being the metallic mean of `n`. From `4.1`
to `9.1` the double lies just below `n.1`: the fractional part prints as `0.09999999999999964` and keeps
the field `0999999999`, so those numbers do not take this form.

The model has four modules:

- `Powers` (`powers.dfy`) is Python's `b ** e` for a float base and an int
  exponent. It is computed exactly. A zero base with a negative exponent is
  an error (`ZeroDivisionError`).
- `Positional` (`positional.dfy`) is the value of a digit sequence against
  descending powers of a base. It proves that in base ten this value is the
  ordinary decimal value of the digits.
- `DigitReweighting` (`reweight.dfy`) is `a_sub_b`:
  - the extraction of the fractional field (`split('.')[1][:PRECISION]`);
  - the three ways the call fails;
  - the specification function `Reweight`;
  - the method `ASubB` and its accumulating loop `AccumulateDigits`, proved
    equal to `Reweight`.
- `DungeonStaircase` (`staircase.dfy`) is `decimal_staircase`. It has the
  specification function `Staircase`, the loop method `DecimalStaircase`,
  and the recurrence, prefix, error and fixed-point properties. It also
  gives a closed form for numbers `n.m`: their staircase is the ratios
  `G(k+2)/G(k+1)` of the sequence `G(k+2) = n·G(k+1) + m·G(k)`. For `1.1`
  this is Fibonacci's recurrence started at 10, 11.

A number enters the model through the two texts the program reads from it.
`Number(value, intText, fracText)` holds:

- the float itself (`value`), which is also the first base of the staircase;
- `intText`, the text of `str(int(a))`;
- `fracText`, the text of `str(a - int(a))`.

Failures are values of `Result`:

- `MissingPoint`: `fracText` has no `'.'`, as with `1e-05`. Python raises
  `IndexError`.
- `NotADigit(c)`: a character `c` is not a decimal digit, such as the `-` of
  a negative number or the `e` of `1.5e-05`. Python raises `ValueError`.
- `ZeroToNegativePower`: the base is zero and a digit's exponent is
  negative. Python raises `ZeroDivisionError`.

The characters are read from left to right, and for each character `int()`
is applied before the power is taken. So the error reported is the one Python
raises first.

`main.py` behaves as follows in these edge cases, and the model follows it:

- A whole number still has a fractional field: `str(2.0 - 2)` is `"0.0"`, so
  the field is `"0"`. Its digit sits at exponent -1, so base 0 fails on it.
- The program fails when the text of the fractional part has no `'.'` at all,
  which is scientific notation.
- The fractional field may contain characters that are not digits, such as
  the `e` of `1.5e-05`. Reading it then fails on that character.
- `int(a)` truncates toward zero. A negative number at or below -1 gives an
  integer text with a `'-'`, and reading fails on that sign. A negative
  number above -1 gives the integer text `"0"`. The `'-'` of its fractional
  text comes before the `'.'`, so it is never read: `-0.5` reads as 0.5 in
  base ten.

## Model

| member | source | states |
|---|---|---|
| Powers.PowerDefined | main.py:21 | `b ** e` raises `ZeroDivisionError` exactly when the base is zero and the exponent negative |
| Powers.Power | main.py:21 | `b ** e` for an integer exponent is non-zero whenever the base is; a negative exponent needs a non-zero base |
| Powers.PowerStep | main.py:21 | raising the exponent by one multiplies the power by the base, across negative exponents too |
| Powers.PowerMinusOne | main.py:21 | `b ** -1` is `1 / b` |
| Positional.PositionalValue | main.py:20-21 | the sum of each digit times the base to the power of its place, leading exponent `top` |
| Positional.PositionalNonNegative | main.py:20-21 | non-negative digits in a positive base give a non-negative sum |
| Positional.PositionalConcat | main.py:20-21 | the sum over a concatenated digit sequence splits into the sums over its parts, the second continuing the exponents where the first stopped |
| Positional.PositionalAppend | main.py:20-21 | one more loop step adds the next digit times the base to the power of its place |
| Positional.PositionalZeros | main.py:21 | zero digits add nothing, in any base |
| Positional.PositionalScale | main.py:21 | in base ten, raising every exponent by one multiplies the sum by ten |
| Positional.PositionalShift | main.py:21 | in base ten, raising every exponent by k multiplies the sum by ten k times |
| Positional.DecimalValueBound | main.py:18 | n decimal digits denote less than 10^n |
| Positional.PositionalInteger | main.py:17-21 | integer digits read in base ten down to exponent 0 give their decimal value |
| Positional.PositionalFraction | main.py:18-21 | fractional digits read in base ten from exponent -1 give their decimal value over 10^n |
| Positional.PositionalDecimal | main.py:9-22 | integer digits plus fractional digits read in base ten are the integer plus a decimal fraction in [0, 1) |
| DigitReweighting.PointIndex | main.py:18 | the index of the first `'.'`, with no `'.'` before it |
| DigitReweighting.FractionField | main.py:18 | no field exactly when the text has no `'.'`; otherwise the field after the first `'.'`, at most `precision` long, free of `'.'`, a slice of the text, and running to the next `'.'` or the end when shorter than `precision` |
| DigitReweighting.PRECISION | main.py:6 | the fractional field is cut to 10 characters |
| DigitReweighting.IsDigitChar | main.py:21 | the characters `int(dig)` accepts as a decimal digit, `0` to `9` |
| DigitReweighting.DigitValue | main.py:21 | `int(dig)` of a decimal digit lies in 0..9 |
| DigitReweighting.DigitValueNames | main.py:21 | `int(dig)` is the digit `dig` names: `'0'` advanced by the value is `dig` |
| DigitReweighting.Digits | main.py:20-21 | the digit values of a digit text, one per character |
| DigitReweighting.DigitsConcat | main.py:20 | the digits of `number_int + number_dec` are the integer digits followed by the fractional digits |
| DigitReweighting.Fault | main.py:20-21 | there is no failure exactly when every character is a digit and every power is defined; a `NotADigit` names a non-digit character of the text; any other failure is a zero base |
| DigitReweighting.FaultConcat | main.py:20-21 | reading left to right, the first failure of a concatenation is the first part's if it fails, otherwise the second part's |
| DigitReweighting.ReadDigits | main.py:19-22 | the loop succeeds exactly when every character is a digit and every power is defined, and it never reports a missing point |
| DigitReweighting.Reweight | main.py:9-22 | the result is `MissingPoint` exactly when the fractional text has no `'.'`, and a value exactly when all the read characters are digits and all their powers are defined |
| DigitReweighting.ReweightTerms | main.py:19-21 | the value is the integer digits weighted by b^(len-1) … b^0 plus the fractional digits weighted by b^-1, b^-2, … |
| DigitReweighting.ReweightBaseTen | main.py:9-22 | in base ten the value is the integer part plus the truncated fractional digits as a decimal fraction in [0, 1) |
| DigitReweighting.TruncationPrefixStable | main.py:18-21 | a shorter cut of the field is a prefix of a longer one; the longer result is the shorter one plus the terms of the extra digits; the shorter one fails only if the longer does |
| DigitReweighting.ASubB | main.py:9-22 | `a_sub_b` (extraction, then the loop) returns exactly `Reweight` at precision `PRECISION` |
| DigitReweighting.AccumulateDigits | main.py:19-22 | the accumulating loop returns exactly `ReadDigits`: the weighted sum, or the first failure met |
| DigitReweighting.ReadStepFault | main.py:20-21 | a character that fails the loop step is the failure of the whole text |
| DigitReweighting.ReadStepValue | main.py:21 | a successful loop step keeps `num` equal to the weighted sum of the characters read so far |
| DigitReweighting.FractionFieldOf | main.py:18 | for a text `whole.field`, the kept field is `field` cut to `precision` characters |
| DigitReweighting.TwoPointFive | main.py:17-22 | 2.5 reads as 2.5 in base ten and as 4.5 in base two |
| DigitReweighting.TwoDigits | main.py:19-22 | two digits at exponents 0 and -1 read as the first plus the second over the base |
| DigitReweighting.NegativeNumberFails | main.py:17-21 | -1.5 fails on its minus sign in every base |
| DigitReweighting.SmallNegativeLosesSign | main.py:17-22 | -0.5 reads as 5/b, so 0.5 in base ten: its sign is never read; base 0 fails |
| DigitReweighting.ZeroFiveDigits | main.py:19-22 | the text `05` reads as 5/b, and fails in base 0 |
| DigitReweighting.ScientificNotationNoPoint | main.py:18 | `1e-05` has no fractional field |
| DigitReweighting.ScientificNotationFails | main.py:18-21 | `1.5e-05` fails on its `e`, or on its 5 in base zero |
| DungeonStaircase.Staircase | main.py:35-48 | a successful staircase has exactly `depth` elements, and depth 0 gives the empty list |
| DungeonStaircase.IsStaircase | main.py:43-47 | element 0 is `a` read in base `a`, and element k+1 is `a` read in base element k |
| DungeonStaircase.StaircaseSnoc | main.py:45-47 | one step deeper adds the reading in the last base |
| DungeonStaircase.IsStaircaseSnoc | main.py:43-47 | the recurrence holds of a list plus one element exactly when it holds of the list and the element is the next reading |
| DungeonStaircase.StaircaseRecurrence | main.py:43-47 | the staircase of depth D is exactly the list of length D whose element 0 is `a` read in base `a` and whose element k+1 is `a` read in base element k |
| DungeonStaircase.StaircasePrefix | main.py:45-47 | a deeper staircase extends a shallower one |
| DungeonStaircase.StaircaseErrorPersists | main.py:45-46 | once a step fails, every deeper staircase fails with the same error |
| DungeonStaircase.StaircaseFirstStepFails | main.py:43-46 | a number that cannot be read in its own base, in particular one with no `'.'`, has no staircase of positive depth |
| DungeonStaircase.StaircaseFixedPoint | main.py:43-47 | a number that reads as itself in its own base gives a constant staircase |
| DungeonStaircase.DecimalStaircase | main.py:35-48 | `decimal_staircase` returns exactly `Staircase`, a negative depth giving the empty list |
| DungeonStaircase.ReweightShortDecimal | main.py:9-22 | a number `n.m000…` read in base x is `n + m/x`, and fails in base 0 |
| DungeonStaircase.ShortDecimalDigits | main.py:17-20 | the digits of such a number are n, then m, then zeros |
| DungeonStaircase.ShortDecimalValue | main.py:21 | n at place 0, then m and zeros from place -1, sum to `n + m/x` |
| DungeonStaircase.ShortDecimalFixedPoint | main.py:9-22 | the bases such a number reads as itself are exactly the non-zero roots of x² = n·x + m |
| DungeonStaircase.LadderPositive | main.py:45-47 | with positive start values and coefficients, every term of G is positive |
| DungeonStaircase.Rung | main.py:45-47 | each ratio G(k+2)/G(k+1) is positive |
| DungeonStaircase.ShortDecimalStaircase | main.py:43-47 | started at p/q, the staircase of `n.m` is the ratios G(k+2)/G(k+1) with G(0) = q, G(1) = p |
| DungeonStaircase.RungLast | main.py:43-46 | after k ratios, the next base is G(k+1)/G(k), which is p/q at the start |
| DungeonStaircase.RungSnoc | main.py:47 | appending the next ratio extends the ratio list |
| DungeonStaircase.ShortDecimalStep | main.py:46 | in base v/u, `n.m` reads as w/v when w = n·v + m·u |
| DungeonStaircase.ShortDecimalRatio | main.py:46 | the same step, with the ratio over the reals |
| DungeonStaircase.FixedPointAlgebra | main.py:9-22 | for x ≠ 0, x = n + m/x exactly when x² = n·x + m |
| DungeonStaircase.OnePointOneField | main.py:18 | the fractional text of 1.1, `0.10000000000000009`, keeps the field `1000000000` |
| DungeonStaircase.OnePointOneShape | main.py:17-18 | 1.1 is a number `n.m000…` with n = m = 1 |
| DungeonStaircase.OnePointOneDungeon | main.py:53 | the dungeon of 1.1 is the ratios 21/11, 32/21, 53/32, … of 10, 11, 21, 32, 53, … |
| DungeonStaircase.FourPointOneField | main.py:18 | the fractional text of 4.1, `0.09999999999999964`, keeps the field `0999999999` |
| DungeonStaircase.FourPointOneNotShort | main.py:17-18 | 4.1 is not a number `n.m000…` for any n and m |

## Left out

- `metallic_mean` (main.py:25-32) is not modelled: the reals have no square root here. Instead, `ShortDecimalFixedPoint` characterises the fixed points of the reading of `n.1` as the non-zero roots of x² = n·x + 1; the positive root, (n + √(n² + 4))/2, is the value `metallic_mean` computes.
- The `__main__` driver (main.py:51-81) is not modelled: the grid sweep, plotting, `np.isclose` matching and printing are presentation and I/O.
- Float formatting and rounding are not modelled. `str(int(a))` and `str(a - int(a))` come in as the texts of a `Number`, and nothing checks that they agree with its value. All arithmetic is exact over the reals, so IEEE-754 rounding, infinities and the `OverflowError` of a huge float power are absent.
- Reweight: computes the exact real sum, not the float sum Python accumulates. The result can differ from the program's in the last bits.
- `int()` also accepts Unicode decimal digits other than `0`–`9`. `IsDigitChar` accepts only ASCII digits, which are the only ones `str` of a float produces.
- `copy.copy(number)` (main.py:43) is a no-op on a float; the base starts as the number itself.
- Convergence of the staircase to a metallic mean is a limit claim and is not proved. `ShortDecimalStaircase` gives the exact elements as ratios of a linear recurrence, and `ShortDecimalFixedPoint` gives the possible limits.
- ASubB: takes the fractional field with the fixed `PRECISION`. `Reweight` takes the precision as a parameter so that cuts of different lengths can be compared.
