/**
 * How a template literal writes a Number whose value is a whole number of
 * milliseconds divided by 1000 (`${x}` with x = k / 1000): an optional
 * minus sign, the integer part without leading zeros, and, when the value
 * is not whole, a point followed by the one to three fraction digits with
 * trailing zeros dropped; NaN is written "NaN". A parser for exactly that
 * shape is the partner that shows the rendering loses nothing.
 */
module DecimalText {
  import opened Wrappers
  import opened JsNumber

  predicate IsDigit(c: char) {
    '0' <= c <= '9'
  }

  predicate AllDigits(s: string) {
    forall i :: 0 <= i < |s| ==> IsDigit(s[i])
  }

  function DigitChar(d: nat): (c: char)
    requires d < 10
    ensures IsDigit(c) && c as int - '0' as int == d
  {
    ('0' as int + d) as char
  }

  function DigitValue(c: char): nat
    requires IsDigit(c)
  {
    c as int - '0' as int
  }

  /** The value of a string of decimal digits, most significant first. */
  function DigitsValue(s: string): nat
    requires AllDigits(s)
    decreases |s|
  {
    if |s| == 0 then 0 else DigitsValue(s[..|s| - 1]) * 10 + DigitValue(s[|s| - 1])
  }

  /** The value of one to three digits written after a decimal point. */
  function FractionValue(f: string): real
    requires 1 <= |f| <= 3 && AllDigits(f)
  {
    if |f| == 1 then DigitsValue(f) as real / 10.0
    else if |f| == 2 then DigitsValue(f) as real / 100.0
    else DigitsValue(f) as real / 1000.0
  }

  /** The integer part of a numeral: digits, and a leading zero only in "0" itself. */
  predicate IsCanonicalNat(s: string) {
    1 <= |s| && AllDigits(s) && (s[0] == '0' ==> |s| == 1)
  }

  lemma NoPointInDigits(s: string)
    requires AllDigits(s)
    ensures '.' !in s
  {
    forall i | 0 <= i < |s|
      ensures s[i] != '.'
    {
      assert IsDigit(s[i]);
    }
  }

  /** The decimal numeral of `n`. */
  function NatText(n: nat): (s: string)
    ensures IsCanonicalNat(s)
    ensures s[0] == '0' <==> n == 0
    decreases n
  {
    if n < 10 then [DigitChar(n)] else NatText(n / 10) + [DigitChar(n % 10)]
  }

  /** Reading the numeral back gives the number. */
  lemma {:induction false} NatTextValue(n: nat)
    ensures DigitsValue(NatText(n)) == n
    decreases n
  {
    if n >= 10 {
      var s := NatText(n);
      assert s[..|s| - 1] == NatText(n / 10);
      NatTextValue(n / 10);
    }
  }

  /** The fraction digits of `r / 1000` for a non-zero remainder `r`, trailing zeros dropped. */
  function FractionText(r: nat): (s: string)
    requires 0 < r < 1000
    ensures 1 <= |s| <= 3 && AllDigits(s) && s[|s| - 1] != '0'
  {
    if r % 100 == 0 then [DigitChar(r / 100)]
    else if r % 10 == 0 then [DigitChar(r / 100), DigitChar(r / 10 % 10)]
    else [DigitChar(r / 100), DigitChar(r / 10 % 10), DigitChar(r % 10)]
  }

  lemma DigitsValueOfTwo(x: char, y: char)
    requires IsDigit(x) && IsDigit(y)
    ensures DigitsValue([x, y]) == 10 * DigitValue(x) + DigitValue(y)
  {
    assert [x, y][..1] == [x];
    assert [x][..0] == [];
    assert DigitsValue([x]) == DigitValue(x);
  }

  lemma DigitsValueOfThree(x: char, y: char, z: char)
    requires IsDigit(x) && IsDigit(y) && IsDigit(z)
    ensures DigitsValue([x, y, z]) == 100 * DigitValue(x) + 10 * DigitValue(y) + DigitValue(z)
  {
    assert [x, y, z][..2] == [x, y];
    DigitsValueOfTwo(x, y);
  }

  lemma DigitSplit(r: nat)
    requires r < 1000
    ensures r == 100 * (r / 100) + 10 * (r / 10 % 10) + r % 10
    ensures r / 10 == 10 * (r / 100) + r / 10 % 10
  {
    var q := r / 10;
    assert r == 10 * q + r % 10;
    assert q / 10 == r / 100;
    assert q == 10 * (q / 10) + q % 10;
  }

  /** The fraction digits, read as a decimal fraction, are exactly `r / 1000`. */
  lemma FractionTextValue(r: nat)
    requires 0 < r < 1000
    ensures FractionValue(FractionText(r)) == r as real / 1000.0
  {
    var a, b, c := r / 100, r / 10 % 10, r % 10;
    DigitSplit(r);
    if r % 100 == 0 {
      assert FractionText(r) == [DigitChar(a)];
      assert DigitsValue([DigitChar(a)]) == a;
      assert r as real == 100.0 * a as real;
    } else if r % 10 == 0 {
      assert FractionText(r) == [DigitChar(a), DigitChar(b)];
      DigitsValueOfTwo(DigitChar(a), DigitChar(b));
      assert r as real == 10.0 * (r / 10) as real;
    } else {
      assert FractionText(r) == [DigitChar(a), DigitChar(b), DigitChar(c)];
      DigitsValueOfThree(DigitChar(a), DigitChar(b), DigitChar(c));
    }
  }

  /** `${k / 1000}` for a non-negative integer `k`. */
  function UnsignedText(k: nat): string {
    if k % 1000 == 0 then NatText(k / 1000)
    else NatText(k / 1000) + "." + FractionText(k % 1000)
  }

  /** `${k / 1000}` for any integer `k`, spelled as JavaScript's Number-to-String
      conversion spells it for magnitudes below 1e21: a minus sign exactly
      when the value is negative, and a point exactly when it is not whole. */
  function ThousandthsText(k: int): (s: string)
    ensures 1 <= |s| && (s[0] == '-' <==> k < 0)
  {
    if k < 0 then "-" + UnsignedText(-k) else UnsignedText(k)
  }

  /** The written value has a point exactly when it is not a whole number of seconds. */
  lemma PointExactlyWhenFractional(k: int)
    ensures '.' in ThousandthsText(k) <==> k % 1000 != 0
  {
    var n: nat := if k < 0 then -k else k;
    var w := NatText(n / 1000);
    NoPointInDigits(w);
    assert n % 1000 != 0 <==> k % 1000 != 0;
    if n % 1000 == 0 {
      assert '.' !in "-" + w by {
        assert forall i :: 0 <= i < |"-" + w| ==> ("-" + w)[i] == '-' || IsDigit(("-" + w)[i]);
      }
    } else {
      var t := w + "." + FractionText(n % 1000);
      assert t[|w|] == '.';
      assert ("-" + t)[|w| + 1] == '.';
    }
  }

  /** `${getTime() / 1000}` for a time value in milliseconds or NaN. */
  function SecondsText(ms: Option<int>): (s: string)
    ensures s == "NaN" <==> ms.None?
  {
    match ms
    case Some(k) => ThousandthsText(k)
    case None => "NaN"
  }

  /** Position of the first '.' in `s`, or `|s|` when there is none. */
  function IndexOfPoint(s: string): (i: nat)
    ensures i <= |s|
    ensures forall j :: 0 <= j < i ==> s[j] != '.'
    ensures i < |s| ==> s[i] == '.'
  {
    if |s| == 0 || s[0] == '.' then 0 else 1 + IndexOfPoint(s[1..])
  }

  /** A run of digits holds no point, so the search skips over it. */
  lemma {:induction false} IndexOfPointAfterDigits(w: string, t: string)
    requires AllDigits(w)
    ensures IndexOfPoint(w + t) == |w| + IndexOfPoint(t)
    decreases |w|
  {
    if |w| > 0 {
      assert (w + t)[0] == w[0];
      assert (w + t)[1..] == w[1..] + t;
      IndexOfPointAfterDigits(w[1..], t);
    } else {
      assert w + t == t;
    }
  }

  /** Reads an unsigned numeral of the shape `UnsignedText` writes. */
  function ParseUnsigned(s: string): Option<real> {
    var i := IndexOfPoint(s);
    var whole := s[..i];
    if !IsCanonicalNat(whole) then None
    else if i == |s| then Some(DigitsValue(whole) as real)
    else
      var frac := s[i + 1..];
      if 1 <= |frac| <= 3 && AllDigits(frac) && frac[|frac| - 1] != '0' then
        Some(DigitsValue(whole) as real + FractionValue(frac))
      else None
  }

  /** Reads a Number written by a template literal back into a Num. */
  function ParseNumber(s: string): Option<Num> {
    if s == "NaN" then Some(NaN)
    else if 0 < |s| && s[0] == '-' then
      match ParseUnsigned(s[1..])
      case Some(x) => Some(Finite(-x))
      case None => None
    else
      match ParseUnsigned(s)
      case Some(x) => Some(Finite(x))
      case None => None
  }

  lemma ParseWholeNumeral(w: string)
    requires IsCanonicalNat(w)
    ensures ParseUnsigned(w) == Some(DigitsValue(w) as real)
  {
    IndexOfPointAfterDigits(w, "");
    assert w + "" == w;
    assert w[..|w|] == w;
  }

  /** In `w.f` with a digit run `w`, the first point follows `w` and splits the text back into `w` and `f`. */
  lemma PointSplit(w: string, f: string)
    requires AllDigits(w)
    ensures var s := w + "." + f;
            IndexOfPoint(s) == |w| && s[..|w|] == w && s[|w| + 1..] == f
  {
    var s := w + "." + f;
    IndexOfPointAfterDigits(w, "." + f);
    assert w + ("." + f) == s;
    assert IndexOfPoint("." + f) == 0;
    assert s[..|w|] == w;
    assert s[|w| + 1..] == f;
  }

  lemma ParseFractionalNumeral(w: string, f: string)
    requires IsCanonicalNat(w)
    requires 1 <= |f| <= 3 && AllDigits(f) && f[|f| - 1] != '0'
    ensures ParseUnsigned(w + "." + f) == Some(DigitsValue(w) as real + FractionValue(f))
  {
    PointSplit(w, f);
  }

  lemma SplitThousandths(k: nat)
    ensures k as real / 1000.0 == (k / 1000) as real + (k % 1000) as real / 1000.0
  {
    assert k == 1000 * (k / 1000) + k % 1000;
    assert k as real == 1000.0 * (k / 1000) as real + (k % 1000) as real;
  }

  lemma UnsignedTextRoundTrip(k: nat)
    ensures ParseUnsigned(UnsignedText(k)) == Some(k as real / 1000.0)
  {
    var q, r := k / 1000, k % 1000;
    NatTextValue(q);
    SplitThousandths(k);
    if r == 0 {
      ParseWholeNumeral(NatText(q));
    } else {
      ParseFractionalNumeral(NatText(q), FractionText(r));
      FractionTextValue(r);
    }
  }

  lemma ParseMinus(u: string)
    requires ParseUnsigned(u).Some?
    ensures ParseNumber("-" + u) == Some(Finite(-ParseUnsigned(u).value))
  {
    var s := "-" + u;
    assert s[0] == '-' && s[0] != "NaN"[0];
    assert s[1..] == u;
  }

  lemma NegativeTextRoundTrip(n: nat)
    ensures ParseNumber("-" + UnsignedText(n)) == Some(Finite(-(n as real / 1000.0)))
  {
    UnsignedTextRoundTrip(n);
    ParseMinus(UnsignedText(n));
  }

  lemma NonNegativeTextRoundTrip(n: nat)
    ensures ParseNumber(UnsignedText(n)) == Some(Finite(n as real / 1000.0))
  {
    UnsignedTextRoundTrip(n);
    var s := UnsignedText(n);
    var w := NatText(n / 1000);
    assert IsDigit(w[0]);
    assert s[0] == w[0];
    assert s[0] != "NaN"[0] && s[0] != '-';
  }

  lemma NegatedThousandths(k: int)
    ensures -((-k) as real / 1000.0) == k as real / 1000.0
  {
  }

  lemma NegativeThousandthsRoundTrip(k: int)
    requires k < 0
    ensures ParseNumber(ThousandthsText(k)) == Some(Finite(k as real / 1000.0))
  {
    var n: nat := -k;
    assert ThousandthsText(k) == "-" + UnsignedText(n);
    NegativeTextRoundTrip(n);
    NegatedThousandths(k);
  }

  lemma NonNegativeThousandthsRoundTrip(k: int)
    requires k >= 0
    ensures ParseNumber(ThousandthsText(k)) == Some(Finite(k as real / 1000.0))
  {
    assert ThousandthsText(k) == UnsignedText(k);
    NonNegativeTextRoundTrip(k);
  }

  /** The text written for a time value reads back as the same Number. */
  lemma SecondsTextRoundTrip(ms: Option<int>)
    ensures ParseNumber(SecondsText(ms)) == Some(MillisToSeconds(ms))
  {
    if ms.Some? && ms.value < 0 {
      NegativeThousandthsRoundTrip(ms.value);
    } else if ms.Some? {
      NonNegativeThousandthsRoundTrip(ms.value);
    }
  }
}
