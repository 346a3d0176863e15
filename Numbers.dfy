/**
 * The numbers example values denote.  `Number(text)` on a decimal literal and
 * `String(n)` on the result are modelled exactly, on finite decimals: a number
 * is `mant / 10^scale` with no superfluous trailing zero in the fraction,
 * which is the form `String` writes.
 */
module Numbers {
  import opened Strings

  function Pow10(k: nat): (p: nat)
    ensures p >= 1
  {
    if k == 0 then 1 else 10 * Pow10(k - 1)
  }

  datatype Decimal = Decimal(mant: int, scale: nat)

  /** No trailing zero in the fraction part. */
  predicate IsNormal(d: Decimal) {
    d.scale == 0 || d.mant % 10 != 0
  }

  /** A finite number, in its shortest decimal form. */
  type Number = d: Decimal | IsNormal(d) witness Decimal(0, 0)

  function Abs(m: int): nat {
    if m < 0 then -m else m
  }

  /** The number `m / 10^k`, its trailing fraction zeros dropped. */
  function Normalize(m: int, k: nat): (d: Number)
    ensures d.scale <= k && m == d.mant * Pow10(k - d.scale)
    decreases k
  {
    if k > 0 && m % 10 == 0 then
      var d := Normalize(m / 10, k - 1);
      assert m == 10 * (m / 10);
      assert Pow10(k - d.scale) == 10 * Pow10(k - 1 - d.scale);
      d
    else Decimal(m, k)
  }

  function Negate(d: Number): (r: Number)
    ensures r.mant == -d.mant && r.scale == d.scale
  {
    TenDividesNegation(d.mant);
    Decimal(-d.mant, d.scale)
  }

  lemma TenDividesNegation(m: int)
    ensures m % 10 == 0 <==> (-m) % 10 == 0
  {
    if m % 10 == 0 {
      MultipleOfTen(-m, -(m / 10));
    }
    if (-m) % 10 == 0 {
      MultipleOfTen(m, -((-m) / 10));
    }
  }

  lemma MultipleOfTen(m: int, q: int)
    requires m == 10 * q
    ensures m % 10 == 0
  {
  }

  /** `m` cut into the part above its last `k` digits and those `k` digits: `m / 10^k` and `m % 10^k`. */
  function SplitDigits(m: nat, k: nat): (qr: (nat, nat))
    ensures qr.1 < Pow10(k) && m == qr.0 * Pow10(k) + qr.1
    decreases k
  {
    if k == 0 then (m, 0)
    else
      var upper := SplitDigits(m / 10, k - 1);
      TimesTen(upper.0, Pow10(k - 1));
      (upper.0, upper.1 * 10 + m % 10)
  }

  lemma TimesTen(q: nat, p: nat)
    ensures q * (10 * p) == 10 * (q * p)
  {
  }

  /** The `k` digits of `r`, with leading zeros. */
  function Pad(r: nat, k: nat): (s: string)
    requires r < Pow10(k)
    ensures |s| == k && forall i :: 0 <= i < |s| ==> IsDigit(s[i])
    decreases k
  {
    if k == 0 then [] else Pad(r / 10, k - 1) + [DigitChar(r % 10)]
  }

  /** The digits before the decimal point of `|d|`. */
  function WholeText(d: Number): (s: string)
    ensures IsCanonicalDigits(s)
  {
    NatText(SplitDigits(Abs(d.mant), d.scale).0)
  }

  /** The digits after the decimal point of `d`; empty for an integer. */
  function FractionText(d: Number): (s: string)
    ensures |s| == d.scale && forall i :: 0 <= i < |s| ==> IsDigit(s[i])
  {
    Pad(SplitDigits(Abs(d.mant), d.scale).1, d.scale)
  }

  /** `|d|`, which is in shortest form when `d` is. */
  function Magnitude(d: Number): (m: Number)
    ensures m.mant >= 0 && m.scale == d.scale
    ensures d.mant >= 0 ==> m == d
  {
    TenDividesNegation(d.mant);
    Decimal(Abs(d.mant), d.scale)
  }

  /** The whole part of `|d|`, and a point and the fraction part when there is one. */
  function MagnitudeText(d: Number): (s: string)
    ensures |s| >= 1 && IsDigit(s[0]) && IsDigit(s[|s| - 1])
  {
    var whole := WholeText(d);
    if d.scale == 0 then whole
    else
      var frac := FractionText(d);
      whole + "." + frac
  }

  /** `String(n)`: a minus sign when negative, then the magnitude. */
  function NumberText(d: Number): (s: string)
    ensures |s| >= 1 && (s[0] == '-' || IsDigit(s[0])) && IsDigit(s[|s| - 1])
  {
    if d.mant < 0 then "-" + MagnitudeText(d) else MagnitudeText(d)
  }

  /** The number a literal with these whole and fraction digits denotes. */
  function DecimalValue(whole: string, frac: string): (d: Number)
    requires forall i :: 0 <= i < |whole| ==> IsDigit(whole[i])
    requires forall i :: 0 <= i < |frac| ==> IsDigit(frac[i])
    ensures d.mant >= 0
  {
    var all := whole + frac;
    assert forall i :: 0 <= i < |all| ==> IsDigit(all[i]);
    var d := Normalize(DigitsValue(all), |frac|);
    assert DigitsValue(all) == d.mant * Pow10(|frac| - d.scale);
    d
  }

  // ---------------------------------------------------------------------------
  // Reading back what NumberText wrote

  lemma {:induction false} PadValue(r: nat, k: nat)
    requires r < Pow10(k)
    ensures DigitsValue(Pad(r, k)) == r
    decreases k
  {
    if k > 0 {
      PadValue(r / 10, k - 1);
      var s := Pad(r, k);
      assert s[..|s| - 1] == Pad(r / 10, k - 1);
    }
  }

  lemma {:induction false} DigitsValueAppend(a: string, b: string)
    requires forall i :: 0 <= i < |a| ==> IsDigit(a[i])
    requires forall i :: 0 <= i < |b| ==> IsDigit(b[i])
    ensures forall i :: 0 <= i < |a + b| ==> IsDigit((a + b)[i])
    ensures DigitsValue(a + b) == DigitsValue(a) * Pow10(|b|) + DigitsValue(b)
    decreases |b|
  {
    if b == [] {
      assert a + b == a;
    } else {
      var init := b[..|b| - 1];
      var last := b[|b| - 1];
      DigitsValueAppend(a, init);
      assert (a + b)[..|a + b| - 1] == a + init;
      assert b[..|b| - 1] == init;
      var x, p, y := DigitsValue(a), Pow10(|init|), DigitsValue(init);
      assert DigitsValue(a + b) == DigitsValue(a + init) * 10 + DigitValue(last);
      assert DigitsValue(b) == y * 10 + DigitValue(last);
      assert Pow10(|b|) == 10 * p;
      TimesTen(x, p);
    }
  }

  /** The digits of `|d|`, read back, give the magnitude of `d` at its own scale. */
  lemma DigitsOfNumber(d: Number)
    ensures DigitsValue(WholeText(d) + FractionText(d)) == Abs(d.mant)
  {
    var (q, r) := SplitDigits(Abs(d.mant), d.scale);
    DigitsValueAppend(WholeText(d), FractionText(d));
    DigitsOfNatText(q);
    PadValue(r, d.scale);
  }

  lemma NormalizeOfNormal(m: int, k: nat)
    requires k == 0 || m % 10 != 0
    ensures Normalize(m, k) == Decimal(m, k)
  {
  }

  /** The digits `NumberText` writes for `d` denote `|d|`. */
  lemma {:induction false} DecimalOfNumber(d: Number)
    ensures DecimalValue(WholeText(d), FractionText(d)) == Magnitude(d)
  {
    DigitsOfNumber(d);
    TenDividesNegation(d.mant);
    NormalizeOfNormal(Abs(d.mant), d.scale);
  }

  /** Negating the magnitude of a negative number gives it back. */
  lemma NegatedMagnitude(d: Number)
    requires d.mant < 0
    ensures Negate(Magnitude(d)) == d
  {
  }
}
