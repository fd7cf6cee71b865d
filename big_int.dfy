/** `BigInt(text)`, `bigint.toString()` and bigint division: the StringToBigInt
    grammar of ECMA-262 (section 7.1.14) over the shared digit arithmetic. */
module JsBigInt {
  import opened Options
  import opened Digits
  import opened JsText

  /** `n.toString()` for a bigint: an optional minus sign and the decimal digits. */
  function IntToString(n: int): (s: string)
    ensures |s| >= 1
    ensures s[0] == '-' <==> n < 0
  {
    if n < 0 then "-" + NatToString(-n) else NatToString(n)
  }

  /** `0x`, `0o` or `0b` in either case, the start of a non-decimal literal. */
  predicate IsRadixPrefix(t: string)
  {
    |t| >= 2 && t[0] == '0' && t[1] in "xXoObB"
  }

  function RadixOf(c: char): nat
  {
    if c == 'x' || c == 'X' then 16 else if c == 'o' || c == 'O' then 8 else 2
  }

  /** `BigInt(s)` for a string argument; None where it throws a SyntaxError.
      White space around the literal is ignored and a blank string is 0n; a decimal
      literal may carry a sign, a `0x`/`0o`/`0b` literal may not; there is no point,
      exponent or separator. */
  function ParseBigInt(s: string): Option<int>
  {
    var t := Trim(s);
    if t == [] then Some(0)
    else if IsRadixPrefix(t) then
      var ds := t[2..];
      if |ds| >= 1 && AllDigitsIn(ds, RadixOf(t[1])) then Some(ValueIn(ds, RadixOf(t[1]))) else None
    else
      var body := if t[0] == '+' || t[0] == '-' then t[1..] else t;
      if |body| >= 1 && AllDecimal(body) then
        var v: int := ValueIn(body, 10);
        Some(if t[0] == '-' then -v else v)
      else None
  }

  /** `a / b` on bigints with a positive divisor: the quotient truncated toward zero. */
  function TruncDiv(a: int, b: nat): (q: int)
    requires b >= 1
    ensures a >= 0 ==> q >= 0 && q * b <= a < q * b + b
    ensures a < 0 ==> q <= 0 && q * b - b < a <= q * b
  {
    if a >= 0 then
      DivBounds(a, b);
      a / b
    else
      DivBounds(-a, b);
      NegatedBounds((-a) / b, b, a);
      -((-a) / b)
  }

  lemma DivBounds(a: nat, b: nat)
    requires b >= 1
    ensures a / b >= 0 && (a / b) * b <= a < (a / b) * b + b
  {
    var q, r := a / b, a % b;
    assert a == q * b + r && 0 <= r < b;
  }

  lemma NegatedBounds(p: int, b: nat, a: int)
    requires p * b <= -a < p * b + b
    ensures (-p) * b - b < a <= (-p) * b
  {
    assert (-p) * b == -(p * b);
  }

  /** A rendered bigint reads back as itself. */
  lemma IntToStringRoundTrip(n: int)
    ensures ParseBigInt(IntToString(n)) == Some(n)
  {
    RenderedRead(n, IntToString(n));
  }

  lemma RenderedRead(n: int, s: string)
    requires s == IntToString(n)
    ensures ParseBigInt(s) == Some(n)
  {
    var m := if n < 0 then -n else n;
    var ds := NatToString(m);
    NatToStringValue(m);
    if n < 0 {
      assert s == "-" + ds;
      NegativeLiteral(ds);
    } else {
      assert s == ds;
      DecimalLiteral(ds);
    }
  }

  /** A minus sign and a run of decimal digits is read as the negated value. */
  lemma NegativeLiteral(ds: string)
    requires |ds| >= 1 && AllDecimal(ds)
    ensures ParseBigInt("-" + ds) == Some(-(ValueIn(ds, 10) as int))
  {
    var t := "-" + ds;
    assert IsDigitIn(ds[|ds| - 1], 10) && t[|t| - 1] == ds[|ds| - 1];
    TrimNoSpace(t);
    assert t[1..] == ds;
    MinusDecimal(t, t, ds);
  }

  lemma MinusDecimal(s: string, t: string, ds: string)
    requires Trim(s) == t && |t| >= 2 && t[0] == '-' && t[1..] == ds && AllDecimal(ds)
    ensures ParseBigInt(s) == Some(-(ValueIn(ds, 10) as int))
  {
  }

  /** A non-empty run of decimal digits is read as its decimal value. */
  lemma DecimalLiteral(ds: string)
    requires |ds| >= 1 && AllDecimal(ds)
    ensures ParseBigInt(ds) == Some(ValueIn(ds, 10))
  {
    assert IsDigitIn(ds[0], 10) && IsDigitIn(ds[|ds| - 1], 10);
    TrimNoSpace(ds);
    assert |ds| >= 2 ==> IsDigitIn(ds[1], 10);
    PlainDecimal(ds, ds);
  }

  lemma PlainDecimal(s: string, t: string)
    requires Trim(s) == t && |t| >= 1 && !IsRadixPrefix(t) && IsDecimalDigit(t[0]) && AllDecimal(t)
    ensures ParseBigInt(s) == Some(ValueIn(t, 10))
  {
  }

  /** A string of white space only is 0n. */
  lemma BlankIsZero(s: string)
    requires forall i :: 0 <= i < |s| ==> IsJsSpace(s[i])
    ensures ParseBigInt(s) == Some(0)
  {
    BlankTrimsAway(s);
  }

  /** Text without white space, which is not a `0x`/`0o`/`0b` literal, is rejected as
      soon as any character other than a leading sign is not a decimal digit
      (`"abc"`, `"1.5"`, `"2e3"`). */
  lemma PlainRejected(t: string, j: nat)
    requires forall i :: 0 <= i < |t| ==> !IsJsSpace(t[i])
    requires !IsRadixPrefix(t)
    requires j < |t| && !IsDecimalDigit(t[j]) && (j == 0 ==> t[j] != '+' && t[j] != '-')
    ensures ParseBigInt(t) == None
  {
    TrimNoSpace(t);
    var body := if t[0] == '+' || t[0] == '-' then t[1..] else t;
    if t[0] == '+' || t[0] == '-' {
      assert body[j - 1] == t[j];
      assert !IsDigitIn(body[j - 1], 10);
    } else {
      assert !IsDigitIn(body[j], 10);
    }
  }
}
