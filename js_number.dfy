/** JavaScript numbers as the core uses them: NaN or a finite value (read as an exact
    real), the arithmetic and comparisons it performs, `Number.prototype.toFixed`
    and the global `parseFloat`. */
module JsNumber {
  import opened Options
  import opened Digits
  import opened JsText

  /** A JavaScript number. Infinity never arises in the core (every division is
      guarded and JSON has no infinite literal), so it is not represented. An
      absent numeric field (`undefined`) behaves as NaN in every arithmetic use. */
  datatype Number = NaN | Num(v: real)

  /** JavaScript truthiness of a number: NaN and 0 are falsy. */
  predicate Truthy(n: Number)
  {
    n.Num? && n.v != 0.0
  }

  function Add(a: Number, b: Number): Number
  {
    if a.Num? && b.Num? then Num(a.v + b.v) else NaN
  }

  function Sub(a: Number, b: Number): Number
  {
    if a.Num? && b.Num? then Num(a.v - b.v) else NaN
  }

  function Mul(a: Number, b: Number): Number
  {
    if a.Num? && b.Num? then Num(a.v * b.v) else NaN
  }

  /** Division by a non-zero number; the callers in the core rule out zero divisors. */
  function Div(a: Number, b: Number): Number
    requires b != Num(0.0)
  {
    if a.Num? && b.Num? then Num(a.v / b.v) else NaN
  }

  function Abs(a: Number): Number
  {
    if a.NaN? then NaN else if a.v < 0.0 then Num(-a.v) else a
  }

  /** `a >= b`, false when `a` is NaN. */
  predicate AtLeast(a: Number, b: real)
  {
    a.Num? && a.v >= b
  }

  /** `a > b`, false when `a` is NaN. */
  predicate Above(a: Number, b: real)
  {
    a.Num? && a.v > b
  }

  /** The number of units of 10^-f closest to `a`, ties going up:
      the integer n that `toFixed` renders. */
  function RoundedUnits(a: real, f: nat): nat
    requires a >= 0.0
  {
    (a * Pow10(f) as real + 0.5).Floor
  }

  /** The value `toFixed(f)` denotes: `r` rounded to `f` decimals, halves away from zero. */
  function RoundedTo(r: real, f: nat): real
  {
    if r < 0.0 then -(RoundedUnits(-r, f) as real / Pow10(f) as real)
    else RoundedUnits(r, f) as real / Pow10(f) as real
  }

  /** The digits `toFixed(f)` prints for a non-negative value: the rounded units, padded
      with leading zeros to at least f + 1 digits, with a point before the last f. */
  function FixedDigits(a: real, f: nat): (s: string)
    requires a >= 0.0
    ensures |s| >= 1 && IsDecimalDigit(s[0])
  {
    PointInserted(NatToString(RoundedUnits(a, f)), f)
  }

  /** The digit string `m` padded with leading zeros to at least f + 1 digits, with a
      point before its last f digits (no point when f is 0). */
  function PointInserted(m: string, f: nat): (s: string)
    requires |m| >= 1 && IsDecimalDigit(m[0])
    ensures |s| >= 1 && IsDecimalDigit(s[0])
  {
    if f == 0 then m
    else
      var padded := if |m| <= f then Repeat('0', f + 1 - |m|) + m else m;
      padded[..|padded| - f] + "." + padded[|padded| - f..]
  }

  /** `x.toFixed(f)` for |x| < 1e21. */
  function ToFixed(x: Number, f: nat): (s: string)
  {
    match x
    case NaN => "NaN"
    case Num(r) => if r < 0.0 then "-" + FixedDigits(-r, f) else FixedDigits(r, f)
  }

  /** The rendered string is signed exactly when the value is negative (even when it
      rounds to zero, as `(-0.01).toFixed(1)` gives "-0.0"). */
  lemma ToFixedSign(r: real, f: nat)
    ensures ToFixed(Num(r), f)[0] == '-' <==> r < 0.0
    ensures r >= 0.0 ==> IsDecimalDigit(ToFixed(Num(r), f)[0])
  {
  }

  /** m * 10^e for an integer e, by repeated scaling by ten. */
  function Scaled(m: real, e: int): real
    decreases if e >= 0 then e else -e
  {
    if e == 0 then m else if e > 0 then Scaled(m, e - 1) * 10.0 else Scaled(m, e + 1) / 10.0
  }

  /** The value of the digits `ds` after a decimal point (0.ds). */
  function FractionValue(ds: string): real
    requires AllDecimal(ds)
  {
    if ds == [] then 0.0 else (DigitValue(ds[0]) as real + FractionValue(ds[1..])) / 10.0
  }

  /** The length of the longest prefix of decimal digits. */
  function DigitRun(s: string): (n: nat)
    ensures n <= |s| && AllDecimal(s[..n])
    ensures n < |s| ==> !IsDecimalDigit(s[n])
  {
    if s != [] && IsDecimalDigit(s[0]) then
      var n := 1 + DigitRun(s[1..]);
      assert s[..n] == [s[0]] + s[1..][..n - 1];
      n
    else 0
  }

  /** The exponent part `e[+-]digits` at the head of `s`, 0 when there is none. */
  function ExponentOf(s: string): int
  {
    if |s| >= 2 && (s[0] == 'e' || s[0] == 'E') then
      if (s[1] == '+' || s[1] == '-') && DigitRun(s[2..]) > 0 then
        var e: int := ValueIn(s[2..][..DigitRun(s[2..])], 10);
        if s[1] == '-' then -e else e
      else if DigitRun(s[1..]) > 0 then ValueIn(s[1..][..DigitRun(s[1..])], 10)
      else 0
    else 0
  }

  /** The longest prefix of `s` that is an unsigned decimal literal
      (digits, optional point and fraction, optional exponent), or None. */
  function ParseUnsignedDecimal(s: string): Option<real>
  {
    var i := DigitRun(s);
    ParseAfterDigits(s[..i], s[i..])
  }

  function ParseAfterDigits(intDigits: string, rest: string): Option<real>
    requires AllDecimal(intDigits)
  {
    if |rest| > 0 && rest[0] == '.' then
      var j := DigitRun(rest[1..]);
      LiteralValue(intDigits, rest[1..][..j], rest[1..][j..])
    else LiteralValue(intDigits, "", rest)
  }

  /** The value of `intDigits.fracDigits` followed by `tail`; a literal needs at least one digit. */
  function LiteralValue(intDigits: string, fracDigits: string, tail: string): Option<real>
    requires AllDecimal(intDigits) && AllDecimal(fracDigits)
  {
    if |intDigits| == 0 && |fracDigits| == 0 then None
    else
      Some(Scaled(ValueIn(intDigits, 10) as real + FractionValue(fracDigits), ExponentOf(tail)))
  }

  /** The global `parseFloat`: skip leading white space, read an optional sign and the
      longest decimal prefix; NaN when there is none. */
  function ParseFloat(s: string): Number
  {
    var t := TrimStart(s);
    var negative := |t| > 0 && t[0] == '-';
    var body := if |t| > 0 && (t[0] == '-' || t[0] == '+') then t[1..] else t;
    match ParseUnsignedDecimal(body)
    case None => NaN
    case Some(v) => Num(if negative then -v else v)
  }
}
