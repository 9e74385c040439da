/**
  Rounding and number-to-text as the pipeline uses them, on exact reals:
  `round(x)` and `round(x, n)` (nearest, ties to even), the fixed-point
  rendering of `f"{x:.nf}"`, and the rendering of `str(round(x, n))`.
*/
module Numbers {
  import opened Tables
  import opened Text

  /** `round(x)`: the nearest integer, ties going to the even one. */
  function RoundHalfEven(x: real): (n: int)
  {
    var f := x.Floor;
    var d := x - f as real;
    if d < 0.5 then f else if d > 0.5 then f + 1 else if f % 2 == 0 then f else f + 1
  }

  /** The rounded value is never more than one half away, and a tie goes to an even integer. */
  lemma RoundHalfEvenNearest(x: real)
    ensures -0.5 <= RoundHalfEven(x) as real - x <= 0.5
    ensures RoundHalfEven(x) as real - x == 0.5 || x - RoundHalfEven(x) as real == 0.5
      ==> RoundHalfEven(x) % 2 == 0
  {
  }

  /** Rounding keeps the sign: no negative number rounds to a positive one, and conversely. */
  lemma RoundHalfEvenSign(x: real)
    ensures x >= 0.0 ==> RoundHalfEven(x) >= 0
    ensures x <= 0.0 ==> RoundHalfEven(x) <= 0
  {
    RoundHalfEvenNearest(x);
  }

  lemma RoundHalfEvenInteger(n: int)
    ensures RoundHalfEven(n as real) == n
  {
  }

  function Scale(places: nat): (p: real)
    ensures p >= 1.0
  {
    Pow10(places) as real
  }

  /** `round(x * 10^places)`: the digits kept when rounding to `places` decimals. */
  function Mantissa(x: real, places: nat): (m: int)
    ensures x >= 0.0 ==> m >= 0
    ensures x <= 0.0 ==> m <= 0
  {
    ScaledSign(x, Scale(places));
    RoundHalfEvenSign(x * Scale(places));
    RoundHalfEven(x * Scale(places))
  }

  lemma ScaledSign(x: real, p: real)
    requires p >= 1.0
    ensures x >= 0.0 ==> x * p >= 0.0
    ensures x <= 0.0 ==> x * p <= 0.0
  {
  }

  /** `round(x, places)` on an exact real. */
  function RoundTo(x: real, places: nat): real
  {
    Mantissa(x, places) as real / Scale(places)
  }

  /** `round(x, places)` lies within half a unit of the last kept place. */
  lemma RoundToNearest(x: real, places: nat)
    ensures -0.5 / Scale(places) <= RoundTo(x, places) - x <= 0.5 / Scale(places)
  {
    var p := Scale(places);
    var y := x * Scale(places);
    var n := Mantissa(x, places);
    RoundHalfEvenNearest(y);
    DivideBound(n as real - y, p);
    Distribute(n as real, x, p);
  }

  lemma DivideBound(e: real, p: real)
    requires p >= 1.0 && -0.5 <= e <= 0.5
    ensures -0.5 / p <= e / p <= 0.5 / p
  {
  }

  lemma Distribute(a: real, x: real, p: real)
    requires p >= 1.0
    ensures (a - x * p) / p == a / p - x
  {
  }

  // ------------------------------------------------------------- rendering

  /** The digits of `|m|`, padded with zeros so that at least `places + 1` remain. */
  function PaddedDigits(m: int, places: nat): (d: string)
    ensures AllDigits(d) && |d| >= places + 1
  {
    var digits := ShowNat(if m < 0 then -m else m);
    if |digits| <= places then Zeros(places + 1 - |digits|) + digits else digits
  }

  function SignOf(x: real): string
  {
    if x < 0.0 then "-" else ""
  }

  /** The integer part and the `places` fraction digits of `x` rounded to `places`. */
  function IntegerDigits(x: real, places: nat): (s: string)
    ensures |s| >= 1 && AllDigits(s)
  {
    var d := PaddedDigits(Mantissa(x, places), places);
    d[..|d| - places]
  }

  function FractionDigits(x: real, places: nat): (s: string)
    ensures |s| == places && AllDigits(s)
  {
    var d := PaddedDigits(Mantissa(x, places), places);
    d[|d| - places..]
  }

  /** `f"{x:.{places}f}"`: fixed-point notation with exactly `places` decimals. */
  function ShowFixed(x: real, places: nat): string
  {
    SignOf(x) + IntegerDigits(x, places)
      + (if places == 0 then "" else "." + FractionDigits(x, places))
  }

  /** A fixed-point rendering holds nothing but digits, a leading minus and a point. */
  lemma ShowFixedAlphabet(x: real, places: nat, c: char)
    requires !IsDigit(c) && c != '-' && c != '.'
    ensures c !in ShowFixed(x, places)
  {
    var i, f := IntegerDigits(x, places), FractionDigits(x, places);
    assert c !in i && c !in f;
    if places == 0 {
      assert ShowFixed(x, places) == SignOf(x) + i;
    } else {
      assert ShowFixed(x, places) == SignOf(x) + i + "." + f;
    }
  }

  /** Drops trailing zeros of a fraction, keeping at least one digit. */
  function TrimFraction(f: string): (r: string)
    requires |f| >= 1 && AllDigits(f)
    ensures 1 <= |r| <= |f| && AllDigits(r)
  {
    if |f| > 1 && f[|f| - 1] == '0' then TrimFraction(f[..|f| - 1]) else f
  }

  /** `str(round(x, places))`: the shortest decimal of the rounded value,
      always with a point and at least one fraction digit. */
  function ShowRounded(x: real, places: nat): string
  {
    SignOf(x) + IntegerDigits(x, places)
      + "." + (if places == 0 then "0" else TrimFraction(FractionDigits(x, places)))
  }

  // ------------------------------------------------------- round trips

  function Abs(m: int): nat { if m < 0 then -m else m }

  lemma PointValue(a: nat, b: nat, q: nat, v: nat)
    requires q >= 1 && a * q + b == v
    ensures a as real + b as real / q as real == v as real / q as real
  {
    assert (a * q) as real == a as real * q as real;
    assert v as real == a as real * q as real + b as real;
  }

  /** The integer and fraction digits together denote |round(x * 10^places)|. */
  lemma DigitsValue(x: real, places: nat)
    ensures ParseNat(IntegerDigits(x, places)) * Pow10(places) + ParseNat(FractionDigits(x, places))
        == Abs(Mantissa(x, places))
  {
    var m := Mantissa(x, places);
    var d := PaddedDigits(m, places);
    assert d == IntegerDigits(x, places) + FractionDigits(x, places);
    ParseNatAppend(IntegerDigits(x, places), FractionDigits(x, places));
    ParseShowNat(Abs(m));
    var digits := ShowNat(Abs(m));
    if |digits| <= places {
      LeadingZeros(places + 1 - |digits|, digits);
    }
  }

  /** `a + f / p1` is `k / p` when `a` and `fd / p` make up `k / p` and
      `fd / p` equals `f / p1`. */
  lemma CrossQuotient(a: nat, fd: nat, f: nat, p: nat, p1: nat, k: nat)
    requires p >= 1 && p1 >= 1 && a * p + fd == k && fd * p1 == f * p
    ensures a as real + f as real / p1 as real == k as real / p as real
  {
    assert (fd * p1) as real == fd as real * p1 as real;
    assert (f * p) as real == f as real * p as real;
    assert f as real / p1 as real == fd as real / p as real;
    PointValue(a, fd, p, k);
  }

  /** `i.frac` parses to any value equal to `i + frac / 10^|frac|`. */
  lemma PointDigits(i: string, frac: string, v: real)
    requires AllDigits(i) && |i| > 0 && AllDigits(frac)
    requires ParseNat(i) as real + ParseNat(frac) as real / Pow10(|frac|) as real == v
    ensures ParseUnsigned(i + "." + frac) == Some(v)
  {
    ParseUnsignedPoint(i, frac);
    var r := ParseUnsigned(i + "." + frac);
    assert r.value == v;
  }

  /** The unsigned part of the rendering parses to |round(x, places)| when
      `frac` denotes the same fraction as the fraction digits. */
  lemma UnsignedValue(x: real, places: nat, frac: string)
    requires AllDigits(frac)
    requires ParseNat(FractionDigits(x, places)) * Pow10(|frac|) == ParseNat(frac) * Pow10(places)
    ensures ParseUnsigned(IntegerDigits(x, places) + "." + frac)
      == Some(Abs(Mantissa(x, places)) as real / Scale(places))
  {
    DigitsValue(x, places);
    var i, fd, k := IntegerDigits(x, places), FractionDigits(x, places), Abs(Mantissa(x, places));
    CrossQuotient(ParseNat(i), ParseNat(fd), ParseNat(frac), Pow10(places), Pow10(|frac|), k);
    PointDigits(i, frac, k as real / Pow10(places) as real);
  }

  /** Trimming keeps the fraction's value: `f / 10^|f|` equals the trimmed
      digits over their own power of ten, stated by cross-multiplication. */
  lemma {:induction false} TrimFractionValue(f: string)
    requires |f| >= 1 && AllDigits(f)
    ensures ParseNat(f) * Pow10(|TrimFraction(f)|) == ParseNat(TrimFraction(f)) * Pow10(|f|)
  {
    if |f| > 1 && f[|f| - 1] == '0' {
      var g := f[..|f| - 1];
      var t := TrimFraction(g);
      TrimFractionValue(g);
      assert ParseNat(f) == 10 * ParseNat(g);
      assert Pow10(|f|) == 10 * Pow10(|g|);
      TimesTen(ParseNat(g), Pow10(|t|), ParseNat(t), Pow10(|g|));
    }
  }

  lemma TimesTen(a: nat, b: nat, c: nat, d: nat)
    requires a * b == c * d
    ensures (10 * a) * b == c * (10 * d)
  {
    assert (10 * a) * b == 10 * (a * b);
    assert c * (10 * d) == 10 * (c * d);
  }

  /** A signed rendering parses to the rounded value when its unsigned part does. */
  lemma SignedValue(x: real, places: nat, body: string)
    requires |body| >= 1 && IsDigit(body[0])
    requires ParseUnsigned(body) == Some(Abs(Mantissa(x, places)) as real / Scale(places))
    ensures ParseDecimal(SignOf(x) + body) == Some(RoundTo(x, places))
  {
    var m, p := Mantissa(x, places), Scale(places);
    ParseSigned(body, Abs(m) as real / p);
    if x < 0.0 {
      assert SignOf(x) + body == "-" + body;
      NegatedQuotient(m, p);
    } else {
      assert SignOf(x) + body == body;
    }
  }

  lemma NegatedQuotient(m: int, p: real)
    requires m <= 0 && p >= 1.0
    ensures -(Abs(m) as real / p) == m as real / p
  {
  }

  /** `float(f"{x:.nf}")` is `round(x, n)`: fixed-point rendering loses nothing
      beyond the rounding. */
  lemma ShowFixedRoundTrip(x: real, places: nat)
    ensures ParseDecimal(ShowFixed(x, places)) == Some(RoundTo(x, places))
  {
    if places == 0 {
      ShowWholeRoundTrip(x);
    } else {
      ShowFractionRoundTrip(x, places);
    }
  }

  lemma ShowWholeRoundTrip(x: real)
    ensures ParseDecimal(ShowFixed(x, 0)) == Some(RoundTo(x, 0))
  {
    var i := WholeDigits(x);
    assert ShowFixed(x, 0) == SignOf(x) + i;
    SignedValue(x, 0, i);
  }

  /** The integer digits of `x` rounded to a whole number parse back to its magnitude. */
  lemma WholeDigits(x: real) returns (i: string)
    ensures i == IntegerDigits(x, 0) && |i| >= 1 && IsDigit(i[0])
    ensures ParseUnsigned(i) == Some(Abs(Mantissa(x, 0)) as real / Scale(0))
  {
    i := IntegerDigits(x, 0);
    DigitsValue(x, 0);
    DigitsHaveNoSeparator(i, '.');
    SplitNoSeparator(i, '.');
    var r := ParseUnsigned(i);
    assert r.value == Abs(Mantissa(x, 0)) as real / Scale(0);
  }

  lemma ShowFractionRoundTrip(x: real, places: nat)
    requires places > 0
    ensures ParseDecimal(ShowFixed(x, places)) == Some(RoundTo(x, places))
  {
    SignedBody(x, places, FractionDigits(x, places));
    Regroup(SignOf(x), IntegerDigits(x, places), FractionDigits(x, places));
  }

  lemma Regroup(sign: string, i: string, f: string)
    ensures sign + i + ("." + f) == sign + (i + "." + f)
    ensures sign + i + "." + f == sign + (i + "." + f)
  {
  }

  /** `float(str(round(x, n)))` is `round(x, n)`. */
  lemma ShowRoundedRoundTrip(x: real, places: nat)
    ensures ParseDecimal(ShowRounded(x, places)) == Some(RoundTo(x, places))
  {
    if places == 0 {
      ShowRoundedWhole(x);
    } else {
      ShowRoundedFraction(x, places);
    }
  }

  /** With no places the fraction is the single digit `0`. */
  lemma ShowRoundedWhole(x: real)
    ensures ParseDecimal(ShowRounded(x, 0)) == Some(RoundTo(x, 0))
  {
    assert ParseNat("0") == 0;
    assert ParseNat(FractionDigits(x, 0)) == 0;
    SignedBody(x, 0, "0");
    Regroup(SignOf(x), IntegerDigits(x, 0), "0");
  }

  /** With places the fraction digits lose their trailing zeros. */
  lemma ShowRoundedFraction(x: real, places: nat)
    requires places > 0
    ensures ParseDecimal(ShowRounded(x, places)) == Some(RoundTo(x, places))
  {
    var frac := TrimFraction(FractionDigits(x, places));
    TrimFractionValue(FractionDigits(x, places));
    SignedBody(x, places, frac);
    Regroup(SignOf(x), IntegerDigits(x, places), frac);
  }

  /** A sign, the integer digits, a point and a fraction worth the fraction
      digits parse to the rounded value. */
  lemma SignedBody(x: real, places: nat, frac: string)
    requires AllDigits(frac)
    requires ParseNat(FractionDigits(x, places)) * Pow10(|frac|) == ParseNat(frac) * Pow10(places)
    ensures ParseDecimal(SignOf(x) + (IntegerDigits(x, places) + "." + frac)) == Some(RoundTo(x, places))
  {
    UnsignedValue(x, places, frac);
    SignedValue(x, places, IntegerDigits(x, places) + "." + frac);
  }
}
