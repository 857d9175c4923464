/**
 * The two number conversions the descriptor codec and the header parser use,
 * over exact rationals: `parseFloat` of a run of digits and dots, and
 * `toFixed(2)`.
 */
module Numbers {
  import opened Text

  /** A character of the regular-expression class `[\d.]`. */
  predicate IsNumChar(c: char) {
    IsDigit(c) || c == '.'
  }

  predicate AllNumChars(s: string) {
    forall k :: 0 <= k < |s| ==> IsNumChar(s[k])
  }

  /** The value of the digits `ds` read after a decimal point: each digit is worth a tenth of the one before. */
  function FractionValue(ds: string): (r: real)
    requires AllDigits(ds)
    ensures r >= 0.0
  {
    if ds == [] then 0.0 else (DigitValue(ds[0]) as real + FractionValue(ds[1..])) / 10.0
  }

  /**
   * `parseFloat(s)` for a string of digits and dots: the leading digits,
   * then, after a dot, the fraction digits up to the next non-digit.
   */
  function DecimalValue(s: string): (r: real)
    ensures r >= 0.0
  {
    var i := SpanEnd(s, 0, Digit);
    SpanEndSpec(s, 0, Digit);
    var whole := ParseNat(s[..i]) as real;
    if i < |s| && s[i] == '.' then
      var f := SpanEnd(s, i + 1, Digit);
      SpanEndSpec(s, i + 1, Digit);
      whole + FractionValue(s[i + 1..f])
    else
      whole
  }

  /** The integer nearest to `100 * x`, the larger one on a tie: the digits `toFixed(2)` prints. */
  function Hundredths(x: real): (n: int)
    ensures (n as real) - 0.5 <= 100.0 * x < (n as real) + 0.5
    ensures x >= 0.0 ==> n >= 0
  {
    (100.0 * x + 0.5).Floor
  }

  /** The value that `x.toFixed(2)` denotes for `x >= 0`: within half a hundredth of `x`. */
  function Rounded2(x: real): (r: real)
    ensures x - 0.005 < r <= x + 0.005
  {
    (Hundredths(x) as real) / 100.0
  }

  /** `x.toFixed(2)` for `x >= 0`: integer part, a dot, exactly two fraction digits. */
  function Unsigned2(x: real): (r: string)
    requires x >= 0.0
    ensures r != [] && AllNumChars(r)
  {
    var n: nat := Hundredths(x);
    Show(n / 100) + "." + [DigitChar(n % 100 / 10), DigitChar(n % 10)]
  }

  /** `x.toFixed(2)`: a negative value is printed as a minus sign and the rendering of its magnitude. */
  function Fixed2(x: real): (r: string)
    ensures x >= 0.0 ==> r != [] && AllNumChars(r)
    ensures x < 0.0 ==> r != [] && r[0] == '-'
  {
    if x < 0.0 then "-" + Unsigned2(-x) else Unsigned2(x)
  }

  /** Two digit characters read as a number. */
  lemma ParseTwoDigits(d: nat)
    requires d < 100
    ensures ParseNat([DigitChar(d / 10), DigitChar(d % 10)]) == d
  {
    var d1, d2 := DigitChar(d / 10), DigitChar(d % 10);
    assert [d1, d2][..1] == [d1];
    assert [d1][..0] == [];
    assert ParseNat([d1]) == d / 10;
    assert ParseNat([d1, d2]) == 10 * (d / 10) + d % 10;
  }

  /** Digits, a dot and fraction digits read as the whole part plus the fraction. */
  lemma ReadDecimal(w: string, ds: string)
    requires AllDigits(w) && AllDigits(ds)
    ensures DecimalValue(w + "." + ds) == (ParseNat(w) as real) + FractionValue(ds)
  {
    var s := w + "." + ds;
    SpanEndIs(s, 0, Digit, |w|);
    assert s[..|w|] == w;
    SpanEndIs(s, |w| + 1, Digit, |s|);
    assert s[|w| + 1..|s|] == ds;
  }

  /** Two fraction digits are worth their two-digit number in hundredths. */
  lemma FractionOfTwoDigits(d: nat)
    requires d < 100
    ensures FractionValue([DigitChar(d / 10), DigitChar(d % 10)]) == (d as real) / 100.0
  {
    var dd := [DigitChar(d / 10), DigitChar(d % 10)];
    assert [dd[1]][1..] == [];
    assert FractionValue([dd[1]]) == ((d % 10) as real) / 10.0;
    assert dd[1..] == [dd[1]];
    assert FractionValue(dd) == ((d / 10) as real + FractionValue([dd[1]])) / 10.0;
    assert d == 10 * (d / 10) + d % 10;
  }

  /** Reading `q.dd` back gives `q + dd/100`. */
  lemma ReadTwoDecimals(q: nat, d: nat)
    requires d < 100
    ensures DecimalValue(Show(q) + "." + [DigitChar(d / 10), DigitChar(d % 10)]) == (q as real) + (d as real) / 100.0
  {
    ReadDecimal(Show(q), [DigitChar(d / 10), DigitChar(d % 10)]);
    ParseShow(q);
    FractionOfTwoDigits(d);
  }

  /** Reading back the two-decimal rendering of a non-negative value gives the value rounded to hundredths. */
  lemma Fixed2RoundTrip(x: real)
    requires x >= 0.0
    ensures DecimalValue(Fixed2(x)) == Rounded2(x)
  {
    var n: nat := Hundredths(x);
    var q, d := n / 100, n % 100;
    assert Fixed2(x) == Unsigned2(x);
    assert Unsigned2(x) == Show(q) + "." + [DigitChar(d / 10), DigitChar(d % 10)];
    ReadTwoDecimals(q, d);
    SplitHundredths(n);
    assert Rounded2(x) == (n as real) / 100.0;
  }

  lemma SplitHundredths(n: nat)
    ensures (n as real) / 100.0 == ((n / 100) as real) + ((n % 100) as real) / 100.0
  {
    var q, d := n / 100, n % 100;
    assert n == 100 * q + d;
    assert (n as real) == 100.0 * (q as real) + (d as real);
  }
}
