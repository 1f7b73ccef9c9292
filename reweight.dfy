/** a_sub_b: the decimal digits of a number, read again as a positional
    expansion in another, possibly non-integer, base. */
module DigitReweighting {
  import opened Powers
  import opened Positional

  /** How many characters of the fractional field a_sub_b keeps. */
  const PRECISION: nat := 10

  datatype Option<T> = None | Some(value: T)

  /** The three ways a call can fail: the fractional-part text has no '.'
      (an IndexError), a character is not a decimal digit (a ValueError), or
      a zero base meets a negative exponent (a ZeroDivisionError). */
  datatype Error = MissingPoint | NotADigit(c: char) | ZeroToNegativePower

  datatype Result<T> = Ok(value: T) | Err(error: Error)

  /** A float handed to a_sub_b, through the two texts the program reads of it:
      intText is the text of its integer part and fracText the text of its
      fractional part (a - int(a)); value is the float itself, which the
      staircase also uses as its first base. */
  datatype Number = Number(value: real, intText: string, fracText: string)

  /** The index of the first '.' in s, or |s| when there is none. */
  function PointIndex(s: string): (i: nat)
    ensures i <= |s|
    ensures i < |s| ==> s[i] == '.'
    ensures forall j :: 0 <= j < i ==> s[j] != '.'
  {
    if s == [] || s[0] == '.' then 0 else 1 + PointIndex(s[1..])
  }

  /** The fractional digits a_sub_b reads: the field between the first '.'
      of s and the next one (or the end of s), cut to its first precision
      characters; None where s has no '.' at all. */
  function FractionField(s: string, precision: nat): (r: Option<string>)
    ensures r.None? <==> '.' !in s
    ensures r.Some? ==> |r.value| <= precision && '.' !in r.value
    ensures r.Some? ==> PointIndex(s) + 1 + |r.value| <= |s|
                        && r.value == s[PointIndex(s) + 1 .. PointIndex(s) + 1 + |r.value|]
    ensures r.Some? && |r.value| < precision ==>
              PointIndex(s) + 1 + |r.value| == |s| || s[PointIndex(s) + 1 + |r.value|] == '.'
  {
    var i := PointIndex(s);
    if i == |s| then
      assert forall k :: 0 <= k < |s| ==> s[k] != '.';
      None
    else
      assert s[i] == '.';
      var rest := s[i + 1..];
      var j := PointIndex(rest);
      var field := rest[..j];
      var kept := if |field| <= precision then field else field[..precision];
      assert kept == s[i + 1..i + 1 + |kept|];
      assert forall k :: 0 <= k < |kept| ==> kept[k] == rest[k] != '.';
      assert |kept| < precision ==> kept == field && (j == |rest| || rest[j] == '.');
      Some(kept)
  }

  predicate IsDigitChar(c: char)
  {
    '0' <= c <= '9'
  }

  /** The value int() gives a one-character decimal digit. */
  function DigitValue(c: char): (d: int)
    requires IsDigitChar(c)
    ensures 0 <= d <= 9
  {
    c as int - '0' as int
  }

  /** The value names the digit: '0' advanced by it is the character read. */
  lemma DigitValueNames(c: char)
    requires IsDigitChar(c)
    ensures ('0' as int + DigitValue(c)) as char == c
  {
  }

  predicate AllDigits(s: string)
  {
    forall i :: 0 <= i < |s| ==> IsDigitChar(s[i])
  }

  function Digits(s: string): (ds: seq<int>)
    requires AllDigits(s)
    ensures |ds| == |s| && IsDigitSeq(ds)
    ensures forall i :: 0 <= i < |s| ==> ds[i] == DigitValue(s[i])
  {
    seq(|s|, i requires 0 <= i < |s| => DigitValue(s[i]))
  }

  lemma {:induction false} DigitsConcat(x: string, y: string)
    requires AllDigits(x) && AllDigits(y)
    ensures AllDigits(x + y)
    ensures Digits(x + y) == Digits(x) + Digits(y)
  {
    assert forall i :: 0 <= i < |x + y| ==> (x + y)[i] == if i < |x| then x[i] else y[i - |x|];
  }

  /** The first failure met when the characters of text are read from left
      to right, the leading one weighted by b^top: for each character int()
      is applied before the power is taken. */
  function Fault(text: string, b: real, top: int): (r: Option<Error>)
    ensures r.None? <==> AllDigits(text) && PowersDefined(b, top, |text|)
    ensures r.Some? && r.value.NotADigit? ==> r.value.c in text && !IsDigitChar(r.value.c)
    ensures r.Some? && !r.value.NotADigit? ==> r.value == ZeroToNegativePower && b == 0.0
    decreases |text|
  {
    if text == [] then None
    else if !IsDigitChar(text[0]) then Some(NotADigit(text[0]))
    else if !PowerDefined(b, top) then Some(ZeroToNegativePower)
    else Fault(text[1..], b, top - 1)
  }

  /** Reading x + y fails where reading x fails, and otherwise where reading
      y fails, its leading exponent mid being the one after x's last (a
      parameter fixed by the requires, so that Fault(y, b, mid) matches). */
  lemma {:induction false} FaultConcat(x: string, y: string, b: real, top: int, mid: int)
    requires mid == top - |x|
    ensures Fault(x + y, b, top) == if Fault(x, b, top).Some? then Fault(x, b, top) else Fault(y, b, mid)
  {
    if x == [] {
      assert x + y == y;
    } else {
      assert (x + y)[1..] == x[1..] + y;
      FaultConcat(x[1..], y, b, top - 1, mid);
    }
  }

  /** A digit text read as a positional expansion whose leading digit is
      weighted by b^top, or the first failure met on the way. */
  function ReadDigits(text: string, b: real, top: int): (r: Result<real>)
    ensures r.Ok? <==> AllDigits(text) && PowersDefined(b, top, |text|)
    ensures r.Err? ==> r.error != MissingPoint
  {
    match Fault(text, b, top)
    case Some(e) => Err(e)
    case None => Ok(PositionalValue(Digits(text), b, top))
  }

  /** a_sub_b(a, b) with the fractional field cut to precision characters:
      the integer digits carry the exponents |intText| - 1 down to 0 and the
      fractional digits continue with -1, -2, and so on. */
  function Reweight(a: Number, b: real, precision: nat): (r: Result<real>)
    ensures '.' !in a.fracText <==> r == Err(MissingPoint)
    ensures r.Ok? <==> '.' in a.fracText
                       && AllDigits(a.intText + FractionField(a.fracText, precision).value)
                       && PowersDefined(b, |a.intText| - 1,
                                        |a.intText| + |FractionField(a.fracText, precision).value|)
  {
    match FractionField(a.fracText, precision)
    case None => Err(MissingPoint)
    case Some(frac) => ReadDigits(a.intText + frac, b, |a.intText| - 1)
  }

  /** The result is the integer digits' expansion down to b^0 plus the
      fractional digits' expansion from b^-1 on. */
  lemma {:induction false} ReweightTerms(a: Number, b: real, precision: nat)
    requires Reweight(a, b, precision).Ok?
    ensures var frac := FractionField(a.fracText, precision).value;
            AllDigits(a.intText) && AllDigits(frac)
            && PowersDefined(b, |a.intText| - 1, |a.intText|) && PowersDefined(b, -1, |frac|)
            && Reweight(a, b, precision).value
               == PositionalValue(Digits(a.intText), b, |a.intText| - 1)
                  + PositionalValue(Digits(frac), b, -1)
  {
    var frac := FractionField(a.fracText, precision).value;
    var top := |a.intText| - 1;
    assert AllDigits(a.intText + frac);
    assert forall i :: 0 <= i < |a.intText| ==> (a.intText + frac)[i] == a.intText[i];
    assert forall i :: 0 <= i < |frac| ==> (a.intText + frac)[|a.intText| + i] == frac[i];
    DigitsConcat(a.intText, frac);
    PositionalConcat(Digits(a.intText), Digits(frac), b, top, -1);
  }

  /** In base ten the result is the number's integer part plus its truncated
      fractional digits read as a decimal fraction, which lies in [0, 1). */
  lemma {:induction false} ReweightBaseTen(a: Number, precision: nat)
    requires Reweight(a, 10.0, precision).Ok?
    ensures var frac := FractionField(a.fracText, precision).value;
            AllDigits(a.intText) && AllDigits(frac)
            && Reweight(a, 10.0, precision).value
               == DecimalValue(Digits(a.intText)) as real
                  + DecimalValue(Digits(frac)) as real / Pow10(|frac|) as real
            && 0 <= DecimalValue(Digits(frac)) < Pow10(|frac|)
  {
    var frac := FractionField(a.fracText, precision).value;
    ReweightTerms(a, 10.0, precision);
    PositionalDecimal(Digits(a.intText), Digits(frac), |a.intText| - 1, |frac|);
  }

  /** A longer fractional slice extends a shorter one, and its result is the
      shorter one's plus the terms of the extra digits; a failure of the
      shorter slice is a failure of the longer one. */
  lemma {:induction false} TruncationPrefixStable(a: Number, b: real, p1: nat, p2: nat)
    requires p1 <= p2 && Reweight(a, b, p2).Ok?
    ensures Reweight(a, b, p1).Ok?
    ensures var f1, f2 := FractionField(a.fracText, p1).value, FractionField(a.fracText, p2).value;
            |f1| <= |f2| && f1 == f2[..|f1|] && AllDigits(f2[|f1|..])
            && PowersDefined(b, -1 - |f1|, |f2| - |f1|)
            && Reweight(a, b, p2).value
               == Reweight(a, b, p1).value + PositionalValue(Digits(f2[|f1|..]), b, -1 - |f1|)
  {
    var f1, f2 := FractionField(a.fracText, p1).value, FractionField(a.fracText, p2).value;
    var n := |a.intText|;
    var t1, rest := a.intText + f1, f2[|f1|..];
    assert f1 == f2[..|f1|];
    assert a.intText + f2 == t1 + rest;
    FaultConcat(t1, rest, b, n - 1, -1 - |f1|);
    assert AllDigits(rest) by {
      assert forall i :: 0 <= i < |rest| ==> rest[i] == (t1 + rest)[|t1| + i];
    }
    DigitsConcat(t1, rest);
    PositionalConcat(Digits(t1), Digits(rest), b, n - 1, -1 - |f1|);
  }

  /** a_sub_b(a, b): the digit extraction followed by the accumulating loop. */
  method ASubB(a: Number, b: real) returns (r: Result<real>)
    ensures r == Reweight(a, b, PRECISION)
  {
    var numberInt := a.intText;
    var numberDec := FractionField(a.fracText, PRECISION);
    if numberDec.None? {
      return Err(MissingPoint);
    }
    r := AccumulateDigits(numberInt + numberDec.value, b, |numberInt| - 1);
  }

  /** The loop of a_sub_b: the digits of text are added up from left to
      right, each times b to the power of its place, the first one's being
      top; the first character that fails ends the loop. */
  method AccumulateDigits(text: string, b: real, top: int) returns (r: Result<real>)
    ensures r == ReadDigits(text, b, top)
  {
    var num := 0.0;
    for i := 0 to |text|
      invariant Fault(text[..i], b, top).None?
      invariant num == PositionalValue(Digits(text[..i]), b, top)
    {
      var dig := text[i];
      ReadStepFault(text, b, top, i);
      if !IsDigitChar(dig) {
        return Err(NotADigit(dig));
      }
      if !PowerDefined(b, top - i) {
        return Err(ZeroToNegativePower);
      }
      var term := DigitValue(dig) as real * Power(b, top - i);
      ReadStepValue(text, b, top, i, num, term);
      num := num + term;
    }
    assert text[..|text|] == text;
    return Ok(num);
  }

  /** One more character read: where it fails, the whole text fails there. */
  lemma {:induction false} ReadStepFault(text: string, b: real, top: int, i: nat)
    requires i < |text| && Fault(text[..i], b, top).None?
    ensures !IsDigitChar(text[i]) ==> Fault(text, b, top) == Some(NotADigit(text[i]))
    ensures IsDigitChar(text[i]) && !PowerDefined(b, top - i) ==>
              Fault(text, b, top) == Some(ZeroToNegativePower)
    ensures IsDigitChar(text[i]) && PowerDefined(b, top - i) ==> Fault(text[..i + 1], b, top).None?
  {
    assert text == text[..i] + text[i..];
    FaultConcat(text[..i], text[i..], b, top, top - i);
    assert text[..i + 1] == text[..i] + [text[i]];
    FaultConcat(text[..i], [text[i]], b, top, top - i);
  }

  /** One more character read adds its digit times the power of its place. */
  lemma {:induction false} ReadStepValue(text: string, b: real, top: int, i: nat, num: real, term: real)
    requires i < |text| && Fault(text[..i + 1], b, top).None?
    requires Fault(text[..i], b, top).None? && num == PositionalValue(Digits(text[..i]), b, top)
    requires IsDigitChar(text[i]) && PowerDefined(b, top - i)
    requires term == DigitValue(text[i]) as real * Power(b, top - i)
    ensures num + term == PositionalValue(Digits(text[..i + 1]), b, top)
  {
    var d := text[i];
    assert text[..i + 1] == text[..i] + [d];
    FaultConcat(text[..i], [d], b, top, top - i);
    DigitsConcat(text[..i], [d]);
    assert Digits([d]) == [DigitValue(d)];
    PositionalAppend(Digits(text[..i]), DigitValue(d), b, top, top - i, num, term);
  }

  /** The fractional-part text of a number with a plain decimal expansion
      is a whole part, a point and a field; the field, cut to precision
      characters, is what a_sub_b reads. */
  lemma {:induction false} FractionFieldOf(whole: string, field: string, precision: nat)
    requires '.' !in whole && '.' !in field
    ensures FractionField(whole + "." + field, precision)
            == Some(if |field| <= precision then field else field[..precision])
  {
    var s := whole + "." + field;
    assert s[|whole|] == '.';
    assert forall j :: 0 <= j < |whole| ==> s[j] == whole[j];
    assert PointIndex(s) == |whole|;
    assert s[|whole| + 1..] == field;
    assert PointIndex(field) == |field|;
    assert field[..|field|] == field;
  }

  /** 2.5 is read back as 2.5 in base ten, and as 2 + 5 / 2 = 4.5 in base two. */
  lemma {:induction false} TwoPointFive(a: Number)
    requires a == Number(2.5, "2", "0.5")
    ensures Reweight(a, 10.0, PRECISION) == Ok(2.5)
    ensures Reweight(a, 2.0, PRECISION) == Ok(4.5)
  {
    assert a.fracText == "0" + "." + "5";
    FractionFieldOf("0", "5", PRECISION);
    TwoDigits(a.intText + "5", 10.0);
    TwoDigits(a.intText + "5", 2.0);
  }

  /** Two digits at exponents 0 and -1 give the first plus the second over b. */
  lemma {:induction false} TwoDigits(text: string, b: real)
    requires |text| == 2 && AllDigits(text) && b != 0.0
    ensures ReadDigits(text, b, 0)
            == Ok(DigitValue(text[0]) as real + DigitValue(text[1]) as real / b)
  {
    var d0, d1 := DigitValue(text[0]), DigitValue(text[1]);
    assert Digits(text) == [d0, d1];
    assert [d0, d1][1..] == [d1];
    PositionalSingle(d1, b, -1);
    assert PositionalValue([d0, d1], b, 0) == d0 as real * Power(b, 0) + PositionalValue([d1], b, -1);
    assert Power(b, 0) == 1.0;
    PowerMinusOne(b);
    assert d1 as real * (1.0 / b) == d1 as real / b;
    assert Fault(text, b, 0).None?;
    assert PositionalValue([d0, d1], b, 0) == d0 as real + d1 as real / b;
    assert ReadDigits(text, b, 0) == Ok(PositionalValue([d0, d1], b, 0));
  }

  /** A negative number fails on its minus sign, whatever the base. */
  lemma {:induction false} NegativeNumberFails(a: Number, b: real)
    requires a == Number(-1.5, "-1", "-0.5")
    ensures Reweight(a, b, PRECISION) == Err(NotADigit('-'))
  {
    assert a.fracText == "-0" + "." + "5";
    FractionFieldOf("-0", "5", PRECISION);
    assert "-1" + "5" == ['-', '1', '5'];
  }
  /** A negative number above -1 has the integer text "0", and the '-' of
      its fractional text comes before the '.', so no sign is read: -0.5
      reads as 0 + 5 / b, which is 0.5 in base ten. */
  lemma {:induction false} SmallNegativeLosesSign(a: Number, b: real)
    requires a == Number(-0.5, "0", "-0.5")
    ensures Reweight(a, b, PRECISION) == if b == 0.0 then Err(ZeroToNegativePower) else Ok(5.0 / b)
    ensures Reweight(a, 10.0, PRECISION) == Ok(0.5)
  {
    assert a.fracText == "-0" + "." + "5";
    FractionFieldOf("-0", "5", PRECISION);
    ZeroFiveDigits(a.intText + "5", b);
    ZeroFiveDigits(a.intText + "5", 10.0);
  }

  /** The digits 0 and 5 at exponents 0 and -1 give 5 / b. */
  lemma {:induction false} ZeroFiveDigits(text: string, b: real)
    requires text == "05"
    ensures ReadDigits(text, b, 0) == if b == 0.0 then Err(ZeroToNegativePower) else Ok(5.0 / b)
  {
    if b == 0.0 {
      assert text[1..] == "5";
      assert Fault(text, b, 0) == Some(ZeroToNegativePower);
    } else {
      TwoDigits(text, b);
    }
  }


  /** Scientific notation without a '.' has no fractional field. */
  lemma {:induction false} ScientificNotationNoPoint(a: Number, b: real)
    requires a == Number(0.00001, "0", "1e-05")
    ensures Reweight(a, b, PRECISION) == Err(MissingPoint)
  {
    assert forall i :: 0 <= i < |a.fracText| ==> a.fracText[i] != '.';
  }

  /** Scientific notation with a '.': the 'e' of the exponent is read as a
      digit and fails, unless a zero base has already failed on the negative
      power of the digit before it. */
  lemma {:induction false} ScientificNotationFails(a: Number, b: real)
    requires a == Number(0.000015, "0", "1.5e-05")
    ensures Reweight(a, b, PRECISION) == if b == 0.0 then Err(ZeroToNegativePower) else Err(NotADigit('e'))
  {
    assert a.fracText == "1" + "." + "5e-05";
    FractionFieldOf("1", "5e-05", PRECISION);
    ScientificDigits("0" + "5e-05", b);
  }

  /** "05e-05" read from exponent zero down fails at the 5 in base zero and
      at the 'e' otherwise. */
  lemma {:induction false} ScientificDigits(text: string, b: real)
    requires text == "0" + "5e-05"
    ensures Fault(text, b, 0) == if b == 0.0 then Some(ZeroToNegativePower) else Some(NotADigit('e'))
  {
    assert text == "05" + "e-05";
    assert "05"[1..] == "5" && "5"[1..] == [];
    FaultConcat("05", "e-05", b, 0, -2);
  }
}
