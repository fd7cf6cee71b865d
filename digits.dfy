/** Digit strings and their values: the shared arithmetic behind `BigInt(...)`,
    `parseFloat(...)`, `toString()` and `toFixed(...)`. */
module Digits {

  /** b^k over the naturals, defined by repeated multiplication. */
  function Pow(b: nat, k: nat): nat
  {
    if k == 0 then 1 else b * Pow(b, k - 1)
  }

  function Pow10(k: nat): (p: nat)
    ensures p >= 1
  {
    PowPositive(10, k);
    Pow(10, k)
  }

  lemma {:induction false} PowPositive(b: nat, k: nat)
    requires b >= 1
    ensures Pow(b, k) >= 1
  {
    if k > 0 {
      PowPositive(b, k - 1);
    }
  }

  lemma {:induction false} PowAdd(b: nat, j: nat, k: nat)
    ensures Pow(b, j + k) == Pow(b, j) * Pow(b, k)
  {
    if k > 0 {
      PowAdd(b, j, k - 1);
      assert Pow(b, j + k) == b * Pow(b, j + k - 1);
    }
  }

  lemma Pow10Add(j: nat, k: nat)
    ensures Pow10(j + k) == Pow10(j) * Pow10(k)
  {
    PowAdd(10, j, k);
  }

  predicate IsDecimalDigit(c: char)
  {
    '0' <= c <= '9'
  }

  /** The value of a digit character in bases up to 16; 16 for any other character. */
  function DigitValue(c: char): nat
  {
    if '0' <= c <= '9' then c as nat - '0' as nat
    else if 'a' <= c <= 'f' then c as nat - 'a' as nat + 10
    else if 'A' <= c <= 'F' then c as nat - 'A' as nat + 10
    else 16
  }

  predicate IsDigitIn(c: char, base: nat)
  {
    DigitValue(c) < base
  }

  predicate AllDigitsIn(s: string, base: nat)
  {
    forall i :: 0 <= i < |s| ==> IsDigitIn(s[i], base)
  }

  predicate AllDecimal(s: string)
  {
    AllDigitsIn(s, 10)
  }

  /** The number a digit string denotes in `base`, most significant digit first. */
  function ValueIn(s: string, base: nat): nat
    requires AllDigitsIn(s, base)
  {
    if s == [] then 0 else ValueIn(s[..|s| - 1], base) * base + DigitValue(s[|s| - 1])
  }

  /** Appending digits shifts the prefix's value left by their count. */
  lemma {:induction false} ValueConcat(a: string, b: string, base: nat)
    requires AllDigitsIn(a, base) && AllDigitsIn(b, base)
    ensures AllDigitsIn(a + b, base)
    ensures ValueIn(a + b, base) == ValueIn(a, base) * Pow(base, |b|) + ValueIn(b, base)
  {
    if b != [] {
      var ab := a + b;
      var b' := b[..|b| - 1];
      assert ab[..|ab| - 1] == a + b';
      ValueConcat(a, b', base);
      var A, B, P, d := ValueIn(a, base), ValueIn(b', base), Pow(base, |b'|), DigitValue(b[|b| - 1]);
      assert ValueIn(ab, base) == (A * P + B) * base + d;
      assert ValueIn(b, base) == B * base + d;
      ShiftStep(A, B, P, d, base);
    } else {
      assert a + b == a;
    }
  }

  lemma ShiftStep(A: nat, B: nat, P: nat, d: nat, base: nat)
    ensures (A * P + B) * base + d == A * (base * P) + (B * base + d)
  {
    assert (A * P + B) * base == A * P * base + B * base;
  }

  /** A digit string of length k denotes less than base^k. */
  lemma {:induction false} ValueBound(s: string, base: nat)
    requires AllDigitsIn(s, base)
    ensures ValueIn(s, base) < Pow(base, |s|)
  {
    if s != [] {
      ValueBound(s[..|s| - 1], base);
      NextDigitBound(ValueIn(s[..|s| - 1], base), DigitValue(s[|s| - 1]), Pow(base, |s| - 1), base);
    }
  }

  lemma NextDigitBound(v: nat, d: nat, p: nat, base: nat)
    requires v < p && d < base
    ensures v * base + d < base * p
  {
    assert v * base + d < (v + 1) * base;
    MulMonotone(v + 1, p, base);
  }

  lemma MulMonotone(x: nat, y: nat, z: nat)
    requires x <= y
    ensures x * z <= y * z
  {
  }

  /** `k` copies of the character `c`. */
  function Repeat(c: char, k: nat): (r: string)
    ensures |r| == k && forall i :: 0 <= i < k ==> r[i] == c
  {
    if k == 0 then "" else Repeat(c, k - 1) + [c]
  }

  lemma {:induction false} ZerosValue(k: nat)
    ensures AllDecimal(Repeat('0', k)) && ValueIn(Repeat('0', k), 10) == 0
  {
    if k > 0 {
      var z, front := Repeat('0', k), Repeat('0', k - 1);
      ZerosValue(k - 1);
      assert z[..k - 1] == front;
      assert ValueIn(z, 10) == ValueIn(front, 10) * 10 + DigitValue(z[k - 1]);
    }
  }

  /** Leading zeros do not change a decimal value. */
  lemma LeadingZeros(k: nat, s: string)
    requires AllDecimal(s)
    ensures AllDecimal(Repeat('0', k) + s)
    ensures ValueIn(Repeat('0', k) + s, 10) == ValueIn(s, 10)
  {
    ZerosValue(k);
    ValueConcat(Repeat('0', k), s, 10);
  }

  /** Trailing zeros multiply a decimal value by a power of ten. */
  lemma TrailingZeros(s: string, k: nat)
    requires AllDecimal(s)
    ensures AllDecimal(s + Repeat('0', k))
    ensures ValueIn(s + Repeat('0', k), 10) == ValueIn(s, 10) * Pow10(k)
  {
    ZerosValue(k);
    ValueConcat(s, Repeat('0', k), 10);
  }

  function DigitChar(d: nat): (c: char)
    requires d < 10
    ensures IsDecimalDigit(c) && DigitValue(c) == d
  {
    ('0' as nat + d) as char
  }

  /** The decimal representation of a natural number, without leading zeros
      (`Number.prototype.toString` / `BigInt.prototype.toString` for n >= 0). */
  function NatToString(n: nat): (s: string)
    ensures |s| >= 1 && AllDecimal(s)
    ensures s[0] == '0' ==> n == 0 && s == "0"
  {
    if n < 10 then [DigitChar(n)] else NatToString(n / 10) + [DigitChar(n % 10)]
  }

  /** Reading back a rendered natural gives the natural. */
  lemma {:induction false} NatToStringValue(n: nat)
    ensures ValueIn(NatToString(n), 10) == n
  {
    if n >= 10 {
      NatToStringValue(n / 10);
      var s := NatToString(n);
      assert s[..|s| - 1] == NatToString(n / 10);
    }
  }

  /** The last k decimal digits of r, with leading zeros. */
  function PadDigits(r: nat, k: nat): (s: string)
    ensures |s| == k && AllDecimal(s)
  {
    if k == 0 then "" else PadDigits(r / 10, k - 1) + [DigitChar(r % 10)]
  }

  lemma AppendDigitValue(s: string, c: char)
    requires AllDecimal(s) && IsDecimalDigit(c)
    ensures AllDecimal(s + [c]) && ValueIn(s + [c], 10) == ValueIn(s, 10) * 10 + DigitValue(c)
  {
    assert (s + [c])[..|s|] == s;
  }

  lemma LastDigitSplit(r: nat, p: nat)
    requires p >= 1 && r < 10 * p
    ensures r / 10 < p
  {
  }

  /** Padded digits read back as the number they were made from. */
  lemma {:induction false} PadDigitsValue(r: nat, k: nat)
    requires r < Pow10(k)
    ensures ValueIn(PadDigits(r, k), 10) == r
  {
    if k > 0 {
      assert Pow10(k) == 10 * Pow10(k - 1);
      LastDigitSplit(r, Pow10(k - 1));
      PadDigitsValue(r / 10, k - 1);
      AppendDigitValue(PadDigits(r / 10, k - 1), DigitChar(r % 10));
    } else {
      assert Pow10(0) == 1;
    }
  }
}
