/** Facts about `toFixed` and `parseFloat`: a rendered number, followed by any text
    that cannot continue a literal (a unit such as "%" or "M"), reads back as the
    rounded value, and the rounding is within half a unit of the last place. */
module FixedNotation {
  import opened Options
  import opened Digits
  import opened JsText
  import opened JsNumber

  /** Text that cannot continue a decimal literal: empty, or not starting with a digit,
      a point or an exponent mark. */
  predicate EndsLiteral(tail: string)
  {
    tail == [] || (!IsDecimalDigit(tail[0]) && tail[0] != '.' && tail[0] != 'e' && tail[0] != 'E')
  }

  lemma {:induction false} DigitRunPrefix(a: string, b: string)
    requires AllDecimal(a)
    requires b == [] || !IsDecimalDigit(b[0])
    ensures DigitRun(a + b) == |a|
  {
    if a != [] {
      assert (a + b)[1..] == a[1..] + b;
      DigitRunPrefix(a[1..], b);
    } else {
      assert a + b == b;
    }
  }

  lemma FractionSum(A: nat, B: nat, P: nat)
    requires P >= 1
    ensures A as real + B as real / P as real == (A * P + B) as real / P as real
  {
  }

  /** A plain digit string, then a tail, is read as the digits' value. */
  lemma IntegerLiteralValue(m: string, tail: string)
    requires |m| >= 1 && AllDecimal(m) && EndsLiteral(tail)
    ensures ParseUnsignedDecimal(m + tail) == Some(ValueIn(m, 10) as real)
  {
    DigitRunPrefix(m, tail);
    IntegerDigitsSplit(m, tail);
    NoFraction(m, tail);
    WholeLiteralValue(m, tail);
  }

  lemma WholeLiteralValue(m: string, tail: string)
    requires |m| >= 1 && AllDecimal(m) && EndsLiteral(tail)
    ensures LiteralValue(m, "", tail) == Some(ValueIn(m, 10) as real)
  {
    NoTailValue(m, "", tail);
    assert Pow10(0) == 1;
  }

  lemma IntegerDigitsSplit(m: string, tail: string)
    requires AllDecimal(m) && DigitRun(m + tail) == |m|
    ensures ParseUnsignedDecimal(m + tail) == ParseAfterDigits(m, tail)
  {
    assert (m + tail)[..|m|] == m;
    assert (m + tail)[|m|..] == tail;
  }

  lemma NoFraction(m: string, tail: string)
    requires AllDecimal(m) && EndsLiteral(tail)
    ensures ParseAfterDigits(m, tail) == LiteralValue(m, "", tail)
  {
  }

  lemma NoExponent(tail: string)
    requires EndsLiteral(tail)
    ensures ExponentOf(tail) == 0
  {
  }

  /** A literal followed by no exponent part is read as its mantissa. */
  /** The value of the literal `hi.lo`: hi + lo / 10^|lo|. */
  function PointValue(hi: string, lo: string): real
    requires AllDecimal(hi) && AllDecimal(lo)
  {
    ValueIn(hi, 10) as real + ValueIn(lo, 10) as real / Pow10(|lo|) as real
  }

  lemma NoTailValue(intDigits: string, fracDigits: string, tail: string)
    requires |intDigits| >= 1 && AllDecimal(intDigits) && AllDecimal(fracDigits) && EndsLiteral(tail)
    ensures LiteralValue(intDigits, fracDigits, tail) == Some(PointValue(intDigits, fracDigits))
  {
    NoExponent(tail);
    FractionValueIs(fracDigits);
  }

  /** The digits after a point are worth their integer value over 10^(their count). */
  lemma {:induction false} FractionValueIs(ds: string)
    requires AllDecimal(ds)
    ensures FractionValue(ds) == ValueIn(ds, 10) as real / Pow10(|ds|) as real
  {
    if ds != [] {
      var rest := ds[1..];
      FractionValueIs(rest);
      assert ds == [ds[0]] + rest;
      ValueConcat([ds[0]], rest, 10);
      assert ValueIn([ds[0]], 10) == DigitValue(ds[0]);
      assert Pow10(|ds|) == 10 * Pow10(|rest|);
      FractionStep(DigitValue(ds[0]), ValueIn(rest, 10), Pow10(|rest|));
    }
  }

  lemma FractionStep(d: nat, v: nat, p: nat)
    requires p >= 1
    ensures (d as real + v as real / p as real) / 10.0 == (d * p + v) as real / (10 * p) as real
  {
    var P := p as real;
    assert (d as real + v as real / P) * P == (d * p + v) as real;
  }

  /** `hi.lo`, then a tail, is read as hi + lo / 10^|lo|. */
  lemma PointLiteralValue(hi: string, lo: string, tail: string)
    requires |hi| >= 1 && AllDecimal(hi) && AllDecimal(lo) && EndsLiteral(tail)
    ensures ParseUnsignedDecimal(hi + "." + lo + tail) == Some(PointValue(hi, lo))
  {
    PointDigitsSplit(hi, lo, tail);
    PointFraction(hi, lo, tail);
    NoTailValue(hi, lo, tail);
  }

  /** A literal `d.e` of two single digits, then a tail, reads as d + e/10. */
  lemma DigitPointDigit(s: string, d: char, e: char, tail: string, x: real)
    requires IsDecimalDigit(d) && IsDecimalDigit(e) && EndsLiteral(tail)
    requires s == [d, '.', e] + tail
    requires x == DigitValue(d) as real + DigitValue(e) as real / 10.0
    ensures ParseFloat(s) == Num(x)
  {
    DigitPointValue(d, e);
    assert s == [d] + "." + [e] + tail;
    PointLiteralRead(s, [d], [e], tail, x);
  }

  lemma DigitPointValue(d: char, e: char)
    requires IsDecimalDigit(d) && IsDecimalDigit(e)
    ensures AllDecimal([d]) && AllDecimal([e])
    ensures PointValue([d], [e]) == DigitValue(d) as real + DigitValue(e) as real / 10.0
  {
    assert ValueIn([d], 10) == DigitValue(d) && ValueIn([e], 10) == DigitValue(e);
    assert Pow10(|[e]|) == 10;
  }

  /** `parseFloat` of a literal with a point, then a tail. */
  lemma PointLiteralRead(s: string, hi: string, lo: string, tail: string, x: real)
    requires |hi| >= 1 && AllDecimal(hi) && AllDecimal(lo) && EndsLiteral(tail)
    requires s == hi + "." + lo + tail && x == PointValue(hi, lo)
    ensures ParseFloat(s) == Num(x)
  {
    PointLiteralValue(hi, lo, tail);
    assert IsDigitIn(hi[0], 10) && s[0] == hi[0];
    ParseFloatUnsigned(s, x);
  }

  lemma PointDigitsSplit(hi: string, lo: string, tail: string)
    requires AllDecimal(hi) && AllDecimal(lo)
    ensures ParseUnsignedDecimal(hi + "." + lo + tail) == ParseAfterDigits(hi, "." + lo + tail)
  {
    var s := hi + "." + lo + tail;
    assert s == hi + ("." + lo + tail);
    DigitRunPrefix(hi, "." + lo + tail);
    assert s[..|hi|] == hi;
    assert s[|hi|..] == "." + lo + tail;
  }

  lemma PointFraction(hi: string, lo: string, tail: string)
    requires AllDecimal(hi) && AllDecimal(lo) && EndsLiteral(tail)
    ensures ParseAfterDigits(hi, "." + lo + tail) == LiteralValue(hi, lo, tail)
  {
    var rest := lo + tail;
    assert ("." + lo + tail)[1..] == rest;
    DigitRunPrefix(lo, tail);
    assert rest[..|lo|] == lo;
    assert rest[|lo|..] == tail;
  }

  /** Digits with a point inserted before the last f of them, then a tail, read as
      their value over 10^f. */
  lemma PointedValue(padded: string, f: nat, tail: string)
    requires AllDecimal(padded) && |padded| > f >= 1 && EndsLiteral(tail)
    ensures ParseUnsignedDecimal(padded[..|padded| - f] + "." + padded[|padded| - f..] + tail)
         == Some(ValueIn(padded, 10) as real / Pow10(f) as real)
  {
    var k := |padded| - f;
    SplitValue(padded, k);
    PointedSplit(padded[..k], padded[k..], padded, f, tail);
  }

  lemma PointedSplit(hi: string, lo: string, padded: string, f: nat, tail: string)
    requires |hi| >= 1 && AllDecimal(hi) && AllDecimal(lo) && AllDecimal(padded) && EndsLiteral(tail)
    requires |padded| >= f && |lo| == f && hi == padded[..|padded| - f] && lo == padded[|padded| - f..]
    requires ValueIn(padded, 10) == ValueIn(hi, 10) * Pow10(|lo|) + ValueIn(lo, 10)
    ensures ParseUnsignedDecimal(hi + "." + lo + tail) == Some(ValueIn(padded, 10) as real / Pow10(f) as real)
  {
    PointedParts(hi, lo, ValueIn(padded, 10), tail);
  }

  lemma PointedParts(hi: string, lo: string, v: nat, tail: string)
    requires |hi| >= 1 && AllDecimal(hi) && AllDecimal(lo) && EndsLiteral(tail)
    requires v == ValueIn(hi, 10) * Pow10(|lo|) + ValueIn(lo, 10)
    ensures ParseUnsignedDecimal(hi + "." + lo + tail) == Some(v as real / Pow10(|lo|) as real)
  {
    PointLiteralValue(hi, lo, tail);
    PartsOver(hi, lo, v, ParseUnsignedDecimal(hi + "." + lo + tail));
  }

  lemma PartsOver(hi: string, lo: string, v: nat, x: Option<real>)
    requires AllDecimal(hi) && AllDecimal(lo)
    requires v == ValueIn(hi, 10) * Pow10(|lo|) + ValueIn(lo, 10)
    requires x == Some(PointValue(hi, lo))
    ensures x == Some(v as real / Pow10(|lo|) as real)
  {
    FractionSum(ValueIn(hi, 10), ValueIn(lo, 10), Pow10(|lo|));
  }

  lemma SplitValue(s: string, k: nat)
    requires AllDecimal(s) && k <= |s|
    ensures AllDecimal(s[..k]) && AllDecimal(s[k..])
    ensures ValueIn(s, 10) == ValueIn(s[..k], 10) * Pow10(|s| - k) + ValueIn(s[k..], 10)
  {
    var a, b := s[..k], s[k..];
    assert s == a + b;
    ValueConcat(a, b, 10);
    assert |b| == |s| - k;
  }

  /** Padding with leading zeros to f + 1 digits keeps the value. */
  lemma PaddedValue(m: string, f: nat)
    requires AllDecimal(m) && |m| >= 1
    ensures var padded := if |m| <= f then Repeat('0', f + 1 - |m|) + m else m;
      AllDecimal(padded) && |padded| > f && ValueIn(padded, 10) == ValueIn(m, 10)
  {
    if |m| <= f {
      LeadingZeros(f + 1 - |m|, m);
    }
  }

  lemma UnitsOverOne(n: nat)
    ensures n as real / Pow10(0) as real == n as real
  {
    assert Pow10(0) == 1;
  }

  /** A digit string with the point inserted, then a tail, reads back as its value over 10^f. */
  lemma PointInsertedValue(m: string, f: nat, tail: string)
    requires |m| >= 1 && AllDecimal(m) && EndsLiteral(tail)
    ensures ParseUnsignedDecimal(PointInserted(m, f) + tail) == Some(ValueIn(m, 10) as real / Pow10(f) as real)
  {
    if f == 0 {
      WholeUnitsValue(m, tail);
    } else {
      PaddedPointValue(m, f, tail);
    }
  }

  lemma WholeUnitsValue(m: string, tail: string)
    requires |m| >= 1 && AllDecimal(m) && EndsLiteral(tail)
    ensures ParseUnsignedDecimal(PointInserted(m, 0) + tail) == Some(ValueIn(m, 10) as real / Pow10(0) as real)
  {
    assert PointInserted(m, 0) == m;
    IntegerLiteralValue(m, tail);
    UnitsOverOne(ValueIn(m, 10));
  }

  lemma PaddedPointValue(m: string, f: nat, tail: string)
    requires |m| >= 1 && AllDecimal(m) && f >= 1 && EndsLiteral(tail)
    ensures ParseUnsignedDecimal(PointInserted(m, f) + tail) == Some(ValueIn(m, 10) as real / Pow10(f) as real)
  {
    var padded := if |m| <= f then Repeat('0', f + 1 - |m|) + m else m;
    PaddedValue(m, f);
    PaddedPointRead(m, f, padded, tail);
  }

  lemma PaddedPointRead(m: string, f: nat, padded: string, tail: string)
    requires |m| >= 1 && AllDecimal(m) && f >= 1 && EndsLiteral(tail)
    requires padded == if |m| <= f then Repeat('0', f + 1 - |m|) + m else m
    requires AllDecimal(padded) && |padded| > f && ValueIn(padded, 10) == ValueIn(m, 10)
    ensures ParseUnsignedDecimal(PointInserted(m, f) + tail) == Some(ValueIn(m, 10) as real / Pow10(f) as real)
  {
    var t := padded[..|padded| - f] + "." + padded[|padded| - f..] + tail;
    PointInsertedShape(m, f, padded);
    PointedValue(padded, f, tail);
    ReadEqual(PointInserted(m, f) + tail, t, Some(ValueIn(m, 10) as real / Pow10(f) as real));
  }

  lemma PointInsertedShape(m: string, f: nat, padded: string)
    requires |m| >= 1 && AllDecimal(m) && f >= 1
    requires padded == if |m| <= f then Repeat('0', f + 1 - |m|) + m else m
    requires |padded| > f
    ensures PointInserted(m, f) == padded[..|padded| - f] + "." + padded[|padded| - f..]
  {
  }

  lemma ReadEqual(s: string, t: string, v: Option<real>)
    requires s == t && ParseUnsignedDecimal(t) == v
    ensures ParseUnsignedDecimal(s) == v
  {
  }

  /** The digits `toFixed` prints, then a tail, read back as the rounded value. */
  lemma FixedDigitsValue(a: real, f: nat, tail: string)
    requires a >= 0.0 && EndsLiteral(tail)
    ensures ParseUnsignedDecimal(FixedDigits(a, f) + tail) == Some(RoundedUnits(a, f) as real / Pow10(f) as real)
  {
    var n := RoundedUnits(a, f);
    NatToStringValue(n);
    PointInsertedValue(NatToString(n), f, tail);
  }

  /** `parseFloat(x.toFixed(f) + tail)` is x rounded to f decimals, for any tail that
      cannot continue the literal (`parseFloat("12.4%")` is 12.4). */
  lemma ToFixedRoundTrip(r: real, f: nat, tail: string)
    requires EndsLiteral(tail)
    ensures ParseFloat(ToFixed(Num(r), f) + tail) == Num(RoundedTo(r, f))
  {
    if r < 0.0 {
      NegativeRoundTrip(r, f, tail);
    } else {
      PositiveRoundTrip(r, f, tail);
    }
  }

  lemma PositiveRoundTrip(r: real, f: nat, tail: string)
    requires r >= 0.0 && EndsLiteral(tail)
    ensures ParseFloat(ToFixed(Num(r), f) + tail) == Num(RoundedTo(r, f))
  {
    var d := FixedDigits(r, f);
    FixedDigitsValue(r, f, tail);
    assert ToFixed(Num(r), f) == d;
    ParseFloatUnsigned(d + tail, RoundedTo(r, f));
  }

  lemma NegativeRoundTrip(r: real, f: nat, tail: string)
    requires r < 0.0 && EndsLiteral(tail)
    ensures ParseFloat(ToFixed(Num(r), f) + tail) == Num(RoundedTo(r, f))
  {
    NegativeParts(r, f);
    NegativeDigitsRead(FixedDigits(-r, f), -r, f, tail, ToFixed(Num(r), f) + tail, RoundedTo(r, f));
  }

  lemma NegativeDigitsRead(d: string, a: real, f: nat, tail: string, s: string, x: real)
    requires a >= 0.0 && EndsLiteral(tail) && d == FixedDigits(a, f) && s == "-" + d + tail
    requires x == -(RoundedUnits(a, f) as real / Pow10(f) as real)
    ensures ParseFloat(s) == Num(x)
  {
    FixedDigitsValue(a, f, tail);
    NegatedRead(s, d, tail, RoundedUnits(a, f) as real / Pow10(f) as real, x);
  }

  lemma NegativeParts(r: real, f: nat)
    requires r < 0.0
    ensures ToFixed(Num(r), f) == "-" + FixedDigits(-r, f)
    ensures RoundedTo(r, f) == -(RoundedUnits(-r, f) as real / Pow10(f) as real)
  {
  }

  lemma NegatedRead(s: string, d: string, tail: string, v: real, x: real)
    requires s == "-" + d + tail && d != [] && IsDecimalDigit(d[0]) && ParseUnsignedDecimal(d + tail) == Some(v)
    requires x == -v
    ensures ParseFloat(s) == Num(x)
  {
    var t := d + tail;
    assert t[0] == d[0];
    assert s == "-" + t;
    ParseFloatNegated(t, v);
    FloatReadEqual(s, "-" + t, Num(x));
  }

  lemma FloatReadEqual(s: string, t: string, x: Number)
    requires s == t && ParseFloat(t) == x
    ensures ParseFloat(s) == x
  {
  }

  /** `parseFloat` of a string that starts with a digit is its unsigned literal. */
  lemma ParseFloatUnsigned(s: string, v: real)
    requires s != [] && IsDecimalDigit(s[0]) && ParseUnsignedDecimal(s) == Some(v)
    ensures ParseFloat(s) == Num(v)
  {
    assert !IsJsSpace(s[0]);
    assert TrimStart(s) == s;
  }

  /** `parseFloat` of a minus sign and a literal is the negated literal. */
  lemma ParseFloatNegated(s: string, v: real)
    requires s != [] && IsDecimalDigit(s[0]) && ParseUnsignedDecimal(s) == Some(v)
    ensures ParseFloat("-" + s) == Num(-v)
  {
    var t := "-" + s;
    assert !IsJsSpace(t[0]);
    assert TrimStart(t) == t;
    assert t[1..] == s;
  }

  /** Rounding to f decimals moves a value by at most half a unit of the last place. */
  lemma RoundingError(r: real, f: nat)
    ensures -0.5 <= (RoundedTo(r, f) - r) * Pow10(f) as real <= 0.5
  {
    PowPositive(10, f);
    var P := Pow10(f) as real;
    var a := if r < 0.0 then -r else r;
    var n := RoundedUnits(a, f) as real;
    assert a * P - 0.5 < n <= a * P + 0.5;
    assert (n / P) * P == n;
    if r < 0.0 {
      assert (RoundedTo(r, f) - r) * P == -(n / P) * P + a * P;
    } else {
      assert (RoundedTo(r, f) - r) * P == (n / P) * P - a * P;
    }
  }

  /** Digits and points only, ending with a digit. */
  predicate PointedDigits(s: string)
  {
    |s| >= 1 && IsDecimalDigit(s[|s| - 1]) && forall i :: 0 <= i < |s| ==> IsDecimalDigit(s[i]) || s[i] == '.'
  }

  /** `toFixed` prints only digits and a point, after a minus sign for a negative value;
      it ends with a digit. */
  lemma ToFixedCharacters(r: real, f: nat)
    ensures var s := ToFixed(Num(r), f);
      IsDecimalDigit(s[|s| - 1]) &&
      forall i :: 0 <= i < |s| ==> IsDecimalDigit(s[i]) || s[i] == '.' || (i == 0 && s[i] == '-')
  {
    var s := ToFixed(Num(r), f);
    if r < 0.0 {
      var d := FixedDigits(-r, f);
      FixedDigitsShape(RoundedUnits(-r, f), f, d);
      SignedShape(d, s, true);
    } else {
      var d := FixedDigits(r, f);
      FixedDigitsShape(RoundedUnits(r, f), f, d);
      SignedShape(d, s, false);
    }
  }

  lemma FixedDigitsShape(n: nat, f: nat, d: string)
    requires d == PointInserted(NatToString(n), f)
    ensures PointedDigits(d)
  {
    NatToStringValue(n);
    PointInsertedCharacters(NatToString(n), f, d);
  }

  lemma SignedShape(d: string, s: string, negative: bool)
    requires PointedDigits(d) && s == if negative then "-" + d else d
    ensures IsDecimalDigit(s[|s| - 1])
    ensures forall i :: 0 <= i < |s| ==> IsDecimalDigit(s[i]) || s[i] == '.' || (i == 0 && s[i] == '-')
  {
    if negative {
      forall i | 0 <= i < |s|
        ensures IsDecimalDigit(s[i]) || s[i] == '.' || (i == 0 && s[i] == '-')
      {
        if i > 0 {
          assert s[i] == d[i - 1];
        }
      }
    }
  }

  lemma PointInsertedCharacters(m: string, f: nat, s: string)
    requires |m| >= 1 && AllDecimal(m) && s == PointInserted(m, f)
    ensures PointedDigits(s)
  {
    if f > 0 {
      var padded := if |m| <= f then Repeat('0', f + 1 - |m|) + m else m;
      assert forall i :: 0 <= i < |padded| ==> IsDecimalDigit(padded[i]);
      var k := |padded| - f;
      var hi := padded[..k];
      var lo := padded[k..];
      assert s == hi + "." + lo;
      forall i | 0 <= i < |s|
        ensures IsDecimalDigit(s[i]) || s[i] == '.'
      {
        if i < |hi| {
          assert s[i] == padded[i];
        } else if i > |hi| {
          assert s[i] == padded[i - 1];
        }
      }
      assert s[|s| - 1] == padded[|padded| - 1];
    }
  }

  /** `parseFloat` of a plus sign and a literal is the literal. */
  lemma ParseFloatPlus(s: string, v: real)
    requires s != [] && IsDecimalDigit(s[0]) && ParseUnsignedDecimal(s) == Some(v)
    ensures ParseFloat("+" + s) == Num(v)
  {
    var t := "+" + s;
    assert !IsJsSpace(t[0]);
    assert TrimStart(t) == t;
    assert t[1..] == s;
  }

  /** A non-negative value printed after an explicit plus sign, then a tail, reads back
      as the rounded value (`parseFloat("+3.2%")` is 3.2). */
  lemma PlusFixedRoundTrip(a: real, f: nat, tail: string)
    requires a >= 0.0 && EndsLiteral(tail)
    ensures ParseFloat("+" + ToFixed(Num(a), f) + tail) == Num(RoundedTo(a, f))
  {
    PositiveParts(a, f);
    PlusDigitsRead(FixedDigits(a, f), a, f, tail, "+" + ToFixed(Num(a), f) + tail, RoundedTo(a, f));
  }

  lemma PositiveParts(a: real, f: nat)
    requires a >= 0.0
    ensures ToFixed(Num(a), f) == FixedDigits(a, f)
    ensures RoundedTo(a, f) == RoundedUnits(a, f) as real / Pow10(f) as real
  {
  }

  lemma PlusDigitsRead(d: string, a: real, f: nat, tail: string, s: string, x: real)
    requires a >= 0.0 && EndsLiteral(tail) && d == FixedDigits(a, f) && s == "+" + d + tail
    requires x == RoundedUnits(a, f) as real / Pow10(f) as real
    ensures ParseFloat(s) == Num(x)
  {
    FixedDigitsValue(a, f, tail);
    PlusRead(s, d, tail, x);
  }

  lemma PlusRead(s: string, d: string, tail: string, v: real)
    requires s == "+" + d + tail && d != [] && IsDecimalDigit(d[0]) && ParseUnsignedDecimal(d + tail) == Some(v)
    ensures ParseFloat(s) == Num(v)
  {
    var t := d + tail;
    assert t[0] == d[0];
    assert s == "+" + t;
    ParseFloatPlus(t, v);
    FloatReadEqual(s, "+" + t, Num(v));
  }

  /** Removing the percent sign from `x.toFixed(f) + "%"` and parsing gives back x
      rounded to f decimals. */
  lemma PercentRoundTrip(r: real, f: nat)
    ensures ParseFloat(ReplaceFirst(ToFixed(Num(r), f) + "%", '%', "")) == Num(RoundedTo(r, f))
  {
    var s := ToFixed(Num(r), f);
    ToFixedCharacters(r, f);
    ReplaceFirstAt(s, '%', "", "");
    assert s + "%" == s + ['%'] + "";
    assert s + "" + "" == s + [];
    ToFixedRoundTrip(r, f, "");
  }

  /** A label made of a one-character prefix (a currency sign or an explicit plus), a
      non-negative `toFixed` rendering and a unit: `parseFloat` of everything after the
      prefix is the rounded value, and the label ends with the unit, or with a digit when
      there is none. */
  lemma PrefixedLabel(prefix: char, x: real, f: nat, unit: string)
    requires x >= 0.0 && EndsLiteral(unit)
    ensures var s := [prefix] + ToFixed(Num(x), f) + unit;
      s[0] == prefix && ParseFloat(s[1..]) == Num(RoundedTo(x, f)) &&
      (unit == [] ==> IsDecimalDigit(s[|s| - 1])) && (unit != [] ==> s[|s| - 1] == unit[|unit| - 1])
  {
    var t := ToFixed(Num(x), f);
    var s := [prefix] + t + unit;
    assert s[1..] == t + unit;
    ToFixedRoundTrip(x, f, unit);
    ToFixedCharacters(x, f);
    if unit == [] {
      assert s[|s| - 1] == t[|t| - 1];
    }
  }
}
