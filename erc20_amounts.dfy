/** The token amount helpers of the ERC-20 hook: a typed decimal string to base units
    (`parseAmount`), base units to whole tokens (`formatAmount`), the allowance check
    (`isApproved`) and the unlimited approval amount (`approveMax`). */
module Erc20Amounts {
  import opened Options
  import opened Digits
  import opened JsText
  import opened JsBigInt

  /** `Array(d).fill(0).reduce((acc) => acc * 10n, acc)`: one multiplication by ten per element. */
  function FoldTimesTen(xs: seq<int>, acc: int): int
  {
    if xs == [] then acc else FoldTimesTen(xs[1..], acc * 10)
  }

  lemma {:induction false} FoldTimesTenPow(xs: seq<int>, acc: int)
    ensures FoldTimesTen(xs, acc) == acc * Pow10(|xs|)
  {
    if xs != [] {
      FoldTimesTenPow(xs[1..], acc * 10);
      assert Pow10(|xs|) == 10 * Pow10(|xs| - 1);
    }
  }

  /** The multiplier and divisor built from `decimals`: the fold is exactly 10^decimals. */
  function Multiplier(decimals: nat): (m: int)
    ensures m == Pow10(decimals)
  {
    FoldTimesTenPow(seq(decimals, _ => 0), 1);
    FoldTimesTen(seq(decimals, _ => 0), 1)
  }

  /** `!decimals`: the token's decimals are not loaded yet, or are 0. */
  predicate Falsy(decimals: Option<nat>)
  {
    decimals.None? || decimals.value == 0
  }

  /** `parseAmount(amount)`: the text before the first point is the integer part, the
      text after it (up to a second point) the fraction; any failure gives "0". */
  function ParseAmount(decimals: Option<nat>, amount: string): (r: string)
    ensures Falsy(decimals) ==> r == "0"
    ensures ParseBigInt(r).Some?
  {
    if Falsy(decimals) then "0"
    else
      var parts := Split(amount, '.');
      ScaledAmount(decimals.value, parts[0], if |parts| >= 2 then parts[1] else "")
  }

  /** The integer part times 10^decimals plus the fraction right-padded with zeros and
      cut to `decimals` digits, both read with `BigInt`; "0" when either is rejected. */
  function ScaledAmount(decimals: nat, integerPart: string, decimalPart: string): (r: string)
    ensures ParseBigInt(r).Some?
  {
    var padded := PadEnd(decimalPart, decimals, '0')[..decimals];
    var fractionText := if padded == "" then "0" else padded;
    match (ParseBigInt(integerPart), ParseBigInt(fractionText))
    case (Some(i), Some(f)) =>
      IntToStringRoundTrip(i * Multiplier(decimals) + f);
      IntToString(i * Multiplier(decimals) + f)
    case _ =>
      IntToStringRoundTrip(0);
      "0"
  }

  /** The argument of `formatAmount`: a string or a bigint. */
  datatype AmountArg = AmountText(text: string) | AmountBig(value: int)

  /** `formatAmount(amount)`: the amount divided by 10^decimals, truncated; None where
      `BigInt(amount)` throws, which the hook does not catch. */
  function FormatAmount(decimals: Option<nat>, amount: AmountArg): (r: Option<string>)
    ensures Falsy(decimals) ==> r == Some("0")
    ensures amount.AmountBig? ==> r.Some?
  {
    if Falsy(decimals) then Some("0")
    else
      var n := match amount
        case AmountText(t) => ParseBigInt(t)
        case AmountBig(v) => Some(v);
      match n
      case None => None
      case Some(v) => Some(IntToString(TruncDiv(v, Multiplier(decimals.value))))
  }

  /** `isApproved(amount)`: false while the allowance is unknown or zero, otherwise the
      allowance (through `BigInt(allowance.toString())`) compared with `BigInt(amount)`;
      None where `BigInt(amount)` throws. */
  function IsApproved(allowance: Option<nat>, amount: string): Option<bool>
  {
    if allowance.None? || allowance.value == 0 then Some(false)
    else
      match (ParseBigInt(IntToString(allowance.value)), ParseBigInt(amount))
      case (Some(a), Some(b)) => Some(a >= b)
      case _ => None
  }

  /** The allowance check compares the allowance itself with the amount. */
  lemma IsApprovedMeaning(allowance: Option<nat>, amount: string)
    ensures allowance.None? || allowance == Some(0) ==> IsApproved(allowance, amount) == Some(false)
    ensures allowance.Some? && allowance.value > 0 && ParseBigInt(amount).Some? ==>
      IsApproved(allowance, amount) == Some(allowance.value >= ParseBigInt(amount).value)
    ensures allowance.Some? && allowance.value > 0 && ParseBigInt(amount).None? ==>
      IsApproved(allowance, amount) == None
  {
    if allowance.Some? {
      IntToStringRoundTrip(allowance.value);
    }
  }

  /** The base units of `whole` tokens and `fraction` units at `decimals` places. */
  function BaseUnits(whole: nat, fraction: nat, decimals: nat): nat
  {
    whole * Pow10(decimals) + fraction
  }

  /** The units the fraction digits F contribute at `decimals` places: F right-padded
      with zeros, or cut, to exactly that many digits. */
  function FractionUnits(f: string, decimals: nat): nat
    requires AllDecimal(f)
  {
    if |f| >= decimals then ValueIn(f[..decimals], 10)
    else ValueIn(f, 10) * Pow10(decimals - |f|)
  }

  /** The fraction is truncated, never rounded: its units are the floor of 0.F * 10^d. */
  lemma FractionFloor(f: string, decimals: nat)
    requires AllDecimal(f)
    ensures FractionUnits(f, decimals) * Pow10(|f|) <= ValueIn(f, 10) * Pow10(decimals)
    ensures ValueIn(f, 10) * Pow10(decimals) < (FractionUnits(f, decimals) + 1) * Pow10(|f|)
  {
    if |f| >= decimals {
      CutFloor(f, decimals);
    } else {
      PaddedExact(f, decimals);
    }
  }

  lemma CutFloor(f: string, decimals: nat)
    requires AllDecimal(f) && |f| >= decimals
    ensures FractionUnits(f, decimals) * Pow10(|f|) <= ValueIn(f, 10) * Pow10(decimals)
    ensures ValueIn(f, 10) * Pow10(decimals) < (FractionUnits(f, decimals) + 1) * Pow10(|f|)
  {
    var k := |f| - decimals;
    var r := CutRemainder(f, decimals);
    Pow10Add(decimals, k);
    FloorFromParts(FractionUnits(f, decimals), ValueIn(f, 10), r, Pow10(decimals), Pow10(k), Pow10(|f|));
  }

  /** The digits of F past the first `decimals` are worth less than one unit. */
  lemma CutRemainder(f: string, decimals: nat) returns (r: nat)
    requires AllDecimal(f) && |f| >= decimals
    ensures ValueIn(f, 10) == FractionUnits(f, decimals) * Pow10(|f| - decimals) + r
    ensures r < Pow10(|f| - decimals)
  {
    var hi, lo := f[..decimals], f[decimals..];
    assert f == hi + lo;
    ValueConcat(hi, lo, 10);
    ValueBound(lo, 10);
    r := ValueIn(lo, 10);
  }

  lemma FloorFromParts(u: int, v: int, r: int, p: int, q: int, pq: int)
    requires v == u * q + r && 0 <= r < q && p >= 1 && pq == p * q
    ensures u * pq <= v * p < (u + 1) * pq
  {
    assert v * p == u * pq + r * p;
    assert (u + 1) * pq == u * pq + q * p;
    assert r * p < q * p;
  }

  lemma PaddedExact(f: string, decimals: nat)
    requires AllDecimal(f) && |f| < decimals
    ensures FractionUnits(f, decimals) * Pow10(|f|) <= ValueIn(f, 10) * Pow10(decimals)
    ensures ValueIn(f, 10) * Pow10(decimals) < (FractionUnits(f, decimals) + 1) * Pow10(|f|)
  {
    var k := decimals - |f|;
    PowAdd(10, k, |f|);
    assert k + |f| == decimals;
    ExactStep(ValueIn(f, 10), Pow10(k), Pow10(|f|));
  }

  lemma ExactStep(v: nat, q: nat, p: nat)
    requires p >= 1
    ensures (v * q) * p <= v * (q * p) < (v * q + 1) * p
  {
    assert (v * q) * p == v * (q * p);
  }

  /** At most `decimals` digits of fraction fit below one whole token. */
  lemma FractionUnitsBound(f: string, decimals: nat)
    requires AllDecimal(f)
    ensures FractionUnits(f, decimals) < Pow10(decimals)
  {
    FractionFloor(f, decimals);
    ValueBound(f, 10);
    BelowFromFloor(FractionUnits(f, decimals), ValueIn(f, 10), Pow10(decimals), Pow10(|f|));
  }

  lemma BelowFromFloor(u: nat, v: nat, p: nat, q: nat)
    requires u * q <= v * p && v < q && p >= 1
    ensures u < p
  {
    assert v * p < q * p;
    assert u * q < p * q;
  }

  lemma NoPointInDigits(s: string)
    requires AllDecimal(s)
    ensures '.' !in s
  {
    forall i | 0 <= i < |s|
      ensures s[i] != '.'
    {
      assert IsDigitIn(s[i], 10);
    }
  }

  /** "I.F" splits at its one point into I and F. */
  lemma AmountParts(i: string, f: string)
    requires AllDecimal(i) && AllDecimal(f)
    ensures Split(i + "." + f, '.') == [i, f]
  {
    NoPointInDigits(i);
    NoPointInDigits(f);
    SplitAtFirst(i, '.', f);
    SplitNoSep(f, '.');
  }

  /** The padded and cut fraction text is `decimals` digits worth `FractionUnits`. */
  lemma PaddedFraction(f: string, decimals: nat)
    requires AllDecimal(f)
    ensures var padded := PadEnd(f, decimals, '0')[..decimals];
      |padded| == decimals && AllDecimal(padded) && ValueIn(padded, 10) == FractionUnits(f, decimals)
  {
    if |f| < decimals {
      TrailingZeros(f, decimals - |f|);
      var padded := PadEnd(f, decimals, '0');
      assert padded[..decimals] == padded;
    }
  }

  /** A run of decimal digits, possibly empty, is read by `BigInt` as its value. */
  lemma DigitsOrBlank(s: string)
    requires AllDecimal(s)
    ensures ParseBigInt(s) == Some(ValueIn(s, 10))
  {
    if s == [] {
      assert Trim(s) == [];
    } else {
      DecimalLiteral(s);
    }
  }

  /** Digit strings scale to I * 10^d plus the fraction cut or padded to d digits. */
  lemma ScaledDigits(i: string, f: string, decimals: nat)
    requires AllDecimal(i) && AllDecimal(f) && decimals >= 1
    ensures ScaledAmount(decimals, i, f)
         == IntToString(BaseUnits(ValueIn(i, 10), FractionUnits(f, decimals), decimals))
  {
    PaddedFraction(f, decimals);
    DigitsOrBlank(i);
    DecimalLiteral(PadEnd(f, decimals, '0')[..decimals]);
  }

  /** `parseAmount("I.F")` is I * 10^d plus the fraction cut or padded to d digits
      (`"1.5"` at 6 decimals is 1500000; `".5"` has integer part 0). */
  lemma ParseAmountPoint(i: string, f: string, decimals: nat)
    requires AllDecimal(i) && AllDecimal(f) && decimals >= 1
    ensures ParseAmount(Some(decimals), i + "." + f)
         == IntToString(BaseUnits(ValueIn(i, 10), FractionUnits(f, decimals), decimals))
  {
    AmountParts(i, f);
    ScaledDigits(i, f, decimals);
  }

  /** `parseAmount("I")` without a point is I * 10^d: a missing fraction contributes 0. */
  lemma ParseAmountWhole(i: string, decimals: nat)
    requires AllDecimal(i) && decimals >= 1
    ensures ParseAmount(Some(decimals), i) == IntToString(BaseUnits(ValueIn(i, 10), 0, decimals))
  {
    WholeAmount(i, decimals);
    ScaledDigits(i, "", decimals);
    NoFractionUnits(decimals);
  }

  lemma WholeAmount(i: string, decimals: nat)
    requires AllDecimal(i) && decimals >= 1
    ensures ParseAmount(Some(decimals), i) == ScaledAmount(decimals, i, "")
  {
    NoPointInDigits(i);
    SplitNoSep(i, '.');
  }

  lemma NoFractionUnits(decimals: nat)
    ensures FractionUnits("", decimals) == 0
  {
    if decimals > 0 {
      assert ValueIn("", 10) == 0;
    }
  }

  /** An integer part `BigInt` rejects turns any amount into "0" (`"abc"`, `"1e3.5"`). */
  lemma ParseAmountBadInteger(i: string, rest: string, j: nat, decimals: nat)
    requires forall k :: 0 <= k < |i| ==> !IsJsSpace(i[k]) && i[k] != '.'
    requires !IsRadixPrefix(i)
    requires j < |i| && !IsDecimalDigit(i[j]) && (j == 0 ==> i[j] != '+' && i[j] != '-')
    requires rest == [] || rest[0] == '.'
    ensures ParseAmount(Some(decimals), i + rest) == "0"
  {
    PlainRejected(i, j);
    assert '.' !in i;
    if rest == [] {
      assert i + rest == i;
      SplitNoSep(i, '.');
    } else {
      assert i + rest == i + ['.'] + rest[1..];
      SplitAtFirst(i, '.', rest[1..]);
    }
  }

  /** A non-digit among the first `decimals` fraction characters turns the amount into
      "0" (`"1.2e3"` at 2 or more decimals). */
  lemma ParseAmountBadFraction(i: string, f: string, j: nat, decimals: nat)
    requires AllDecimal(i)
    requires forall k :: 0 <= k < |f| ==> !IsJsSpace(f[k]) && f[k] != '.'
    requires !IsRadixPrefix(f)
    requires j < |f| && j < decimals && !IsDecimalDigit(f[j]) && (j == 0 ==> f[j] != '+' && f[j] != '-')
    ensures ParseAmount(Some(decimals), i + "." + f) == "0"
  {
    NoPointInDigits(i);
    SplitAtFirst(i, '.', f);
    SplitNoSep(f, '.');
    var padded := PadEnd(f, decimals, '0')[..decimals];
    PaddedShape(f, decimals);
    PlainRejected(padded, j);
  }

  lemma PaddedShape(f: string, decimals: nat)
    requires forall k :: 0 <= k < |f| ==> !IsJsSpace(f[k])
    requires !IsRadixPrefix(f)
    ensures var padded := PadEnd(f, decimals, '0')[..decimals];
      |padded| == decimals &&
      (forall k :: 0 <= k < |padded| ==> !IsJsSpace(padded[k])) &&
      !IsRadixPrefix(padded) &&
      (forall k :: 0 <= k < |padded| && k < |f| ==> padded[k] == f[k])
  {
    var p := PadEnd(f, decimals, '0');
    assert forall k :: |f| <= k < |p| ==> p[k] == '0';
  }

  lemma QuotientUnique(q: int, a: nat, b: nat, p: nat)
    requires p >= 1 && b < p && q * p <= a * p + b < q * p + p
    ensures q == a
  {
    assert (q - a) * p == q * p - a * p;
    LessFromProducts(q - a, 1, p);
    assert (q + 1 - a) * p == q * p + p - a * p;
    LessFromProducts(0, q + 1 - a, p);
  }

  lemma LessFromProducts(x: int, y: int, p: nat)
    requires p >= 1 && x * p < y * p
    ensures x < y
  {
    assert (y - x) * p > 0;
  }

  /** Formatting a parsed amount gives back its integer part: `formatAmount(parseAmount("I.F"))`
      is I without leading zeros. */
  lemma ParseFormatRoundTrip(i: string, f: string, decimals: nat)
    requires AllDecimal(i) && AllDecimal(f) && decimals >= 1
    ensures FormatAmount(Some(decimals), AmountText(ParseAmount(Some(decimals), i + "." + f)))
         == Some(IntToString(ValueIn(i, 10)))
  {
    var n := ParsedValue(i, f, decimals);
    FormatOfParsed(i + "." + f, decimals, n, ValueIn(i, 10));
  }

  /** A whole amount typed without a point survives the round trip unchanged, apart from
      leading zeros: `formatAmount(parseAmount("I"))` is I. */
  lemma ParseFormatWhole(i: string, decimals: nat)
    requires AllDecimal(i) && decimals >= 1
    ensures FormatAmount(Some(decimals), AmountText(ParseAmount(Some(decimals), i)))
         == Some(IntToString(ValueIn(i, 10)))
  {
    ParseAmountWhole(i, decimals);
    var n := ScaledFormat(ValueIn(i, 10), 0, decimals);
    FormatOfParsed(i, decimals, n, ValueIn(i, 10));
  }

  /** The parsed amount, which formats back to its integer part. */
  lemma ParsedValue(i: string, f: string, decimals: nat) returns (n: nat)
    requires AllDecimal(i) && AllDecimal(f) && decimals >= 1
    ensures ParseAmount(Some(decimals), i + "." + f) == IntToString(n)
    ensures FormatAmount(Some(decimals), AmountText(IntToString(n))) == Some(IntToString(ValueIn(i, 10)))
  {
    var b := FractionPart(f, decimals);
    n := ScaledFormat(ValueIn(i, 10), b, decimals);
    ParseAmountIs(i, f, decimals, n);
  }

  lemma ParseAmountIs(i: string, f: string, decimals: nat, n: nat)
    requires AllDecimal(i) && AllDecimal(f) && decimals >= 1
    requires n == BaseUnits(ValueIn(i, 10), FractionUnits(f, decimals), decimals)
    ensures ParseAmount(Some(decimals), i + "." + f) == IntToString(n)
  {
    ParseAmountPoint(i, f, decimals);
  }

  /** a * 10^d + b, which formats back to a. */
  lemma ScaledFormat(a: nat, b: nat, decimals: nat) returns (n: nat)
    requires decimals >= 1 && b < Pow10(decimals)
    ensures n == BaseUnits(a, b, decimals)
    ensures FormatAmount(Some(decimals), AmountText(IntToString(n))) == Some(IntToString(a))
  {
    n := BaseUnits(a, b, decimals);
    FormatScaled(a, b, decimals);
  }

  /** The fraction's units, below one whole token. */
  lemma FractionPart(f: string, decimals: nat) returns (b: nat)
    requires AllDecimal(f)
    ensures b == FractionUnits(f, decimals) && b < Pow10(decimals)
  {
    FractionUnitsBound(f, decimals);
    b := FractionUnits(f, decimals);
  }

  lemma FormatOfParsed(amount: string, decimals: nat, n: int, a: nat)
    requires ParseAmount(Some(decimals), amount) == IntToString(n)
    requires FormatAmount(Some(decimals), AmountText(IntToString(n))) == Some(IntToString(a))
    ensures FormatAmount(Some(decimals), AmountText(ParseAmount(Some(decimals), amount))) == Some(IntToString(a))
  {
  }

  /** Formatting a + b / 10^d, with b below 10^d, gives a. */
  lemma FormatScaled(a: nat, b: nat, decimals: nat)
    requires decimals >= 1 && b < Pow10(decimals)
    ensures FormatAmount(Some(decimals), AmountText(IntToString(BaseUnits(a, b, decimals))))
         == Some(IntToString(a))
  {
    FormatQuotient(decimals, BaseUnits(a, b, decimals), a, b);
  }

  lemma FormatQuotient(decimals: nat, v: int, a: nat, b: nat)
    requires decimals >= 1 && b < Pow10(decimals) && v == BaseUnits(a, b, decimals)
    ensures FormatAmount(Some(decimals), AmountText(IntToString(v))) == Some(IntToString(a))
  {
    IntToStringRoundTrip(v);
    QuotientOf(v, a, b, Pow10(decimals));
    FormatParsed(decimals, IntToString(v), v, a);
  }

  lemma QuotientOf(v: int, a: nat, b: nat, p: nat)
    requires p >= 1 && b < p && v == a * p + b
    ensures TruncDiv(v, p) == a
  {
    QuotientUnique(TruncDiv(v, p), a, b, p);
  }

  lemma FormatParsed(decimals: nat, s: string, v: int, q: int)
    requires decimals >= 1 && ParseBigInt(s) == Some(v) && q == TruncDiv(v, Pow10(decimals))
    ensures FormatAmount(Some(decimals), AmountText(s)) == Some(IntToString(q))
  {
  }

  /** The largest uint256, 2^256 - 1. */
  const MaxUint256: nat := 0xFFFF_FFFF_FFFF_FFFF_FFFF_FFFF_FFFF_FFFF_FFFF_FFFF_FFFF_FFFF_FFFF_FFFF_FFFF_FFFF

  lemma MaxUint256IsPow()
    ensures MaxUint256 == Pow(2, 256) - 1
  {
    assert Pow(2, 1) == 2 * Pow(2, 0) == 2;
    PowAdd(2, 1, 1);
    PowAdd(2, 2, 2);
    PowAdd(2, 4, 4);
    assert Pow(2, 8) == 0x100;
    PowAdd(2, 8, 8);
    PowAdd(2, 16, 16);
    assert Pow(2, 32) == 0x1_0000_0000;
    PowAdd(2, 32, 32);
    PowAdd(2, 64, 64);
    assert Pow(2, 128) == 0x1_0000_0000_0000_0000_0000_0000_0000_0000;
    PowAdd(2, 128, 128);
  }

  /** An allowance of 2^256 - 1, what `approveMax` grants, approves every uint256 amount. */
  lemma MaxAllowanceApprovesAll()
    ensures forall amount :: ParseBigInt(amount).Some? && ParseBigInt(amount).value <= Pow(2, 256) - 1 ==>
      IsApproved(Some(MaxUint256), amount) == Some(true)
  {
    MaxUint256IsPow();
    forall amount | ParseBigInt(amount).Some? && ParseBigInt(amount).value <= Pow(2, 256) - 1
      ensures IsApproved(Some(MaxUint256), amount) == Some(true)
    {
      IsApprovedMeaning(Some(MaxUint256), amount);
    }
  }
}
