/** The numeric conversions of the converter: Python's int(text), str(n),
    float(text), int(x) on a real (truncation toward zero) and str.rjust(width).
    Reals are exact: float() is modelled as the exact decimal value.
 */
module Numbers {
  import opened Common
  import opened Text

  predicate IsDigit(c: char) {
    '0' <= c <= '9'
  }

  predicate AllDigits(s: string) {
    forall k :: 0 <= k < |s| ==> IsDigit(s[k])
  }

  function DigitValue(c: char): (d: nat)
    requires IsDigit(c)
    ensures d < 10
  {
    (c as int - '0' as int) as nat
  }

  function DigitChar(d: nat): (c: char)
    requires d < 10
    ensures IsDigit(c) && DigitValue(c) == d
  {
    ('0' as int + d) as char
  }

  /** The value of a run of decimal digits (0 for the empty run). */
  function DigitsValue(s: string): nat
    requires AllDigits(s)
  {
    if s == [] then 0 else 10 * DigitsValue(s[..|s| - 1]) + DigitValue(s[|s| - 1])
  }

  function Pow10(k: nat): (p: nat)
    ensures p >= 1
  {
    if k == 0 then 1 else 10 * Pow10(k - 1)
  }

  /** str(n) for n >= 0: decimal digits without leading zeros. */
  function NatToString(n: nat): (r: string)
    ensures r != []
  {
    if n < 10 then [DigitChar(n)] else NatToString(n / 10) + [DigitChar(n % 10)]
  }

  /** str(n) consists of digits, starts with a non-zero digit unless it is
      "0", and reading it back gives n. */
  lemma {:induction false} NatToStringSpec(n: nat)
    ensures AllDigits(NatToString(n))
    ensures |NatToString(n)| > 1 ==> NatToString(n)[0] != '0'
    ensures DigitsValue(NatToString(n)) == n
    decreases n
  {
    var r := NatToString(n);
    if n >= 10 {
      NatToStringSpec(n / 10);
      assert r[..|r| - 1] == NatToString(n / 10);
    }
  }

  /** str(n): a minus sign for negative numbers, then the digits. */
  function IntToString(n: int): (r: string)
    ensures r != []
  {
    var digits := NatToString(if n < 0 then -n else n);
    if n < 0 then "-" + digits else digits
  }

  /** A run of digits holds no whitespace, comma or decimal point. */
  lemma DigitsAreNotSeparators(s: string)
    requires AllDigits(s)
    ensures NoSpace(s) && ',' !in s && '.' !in s
  {
  }

  /** The text of str(n) holds neither whitespace nor a comma: a minus sign
      for negative numbers, then digits. */
  lemma IntToStringSpec(n: int)
    ensures n >= 0 ==> AllDigits(IntToString(n))
    ensures n < 0 ==> IntToString(n)[0] == '-' && AllDigits(IntToString(n)[1..])
    ensures NoSpace(IntToString(n)) && ',' !in IntToString(n)
  {
    var m := if n < 0 then -n else n;
    NatToStringSpec(m);
    DigitsAreNotSeparators(NatToString(m));
    if n < 0 {
      NegativeText(NatToString(m));
    }
  }

  lemma NegativeText(digits: string)
    requires NoSpace(digits) && ',' !in digits
    ensures var r := "-" + digits;
      r[1..] == digits && NoSpace(r) && ',' !in r
  {
    var r := "-" + digits;
    assert r[1..] == digits;
    assert forall k :: 0 < k < |r| ==> r[k] == digits[k - 1];
  }

  /** A sign-free integer literal as int() accepts it: one or more digits. */
  predicate IsUnsignedLiteral(s: string) {
    s != [] && AllDigits(s)
  }

  /** int(text) on text that has already been stripped: an optional '+' or
      '-' followed by one or more decimal digits. Anything else is None,
      where Python raises ValueError. */
  function ParseInt(s: string): Option<int> {
    if s != [] && (s[0] == '-' || s[0] == '+') then
      var body := s[1..];
      if IsUnsignedLiteral(body) then
        Some(if s[0] == '-' then -(DigitsValue(body) as int) else DigitsValue(body) as int)
      else
        None
    else if IsUnsignedLiteral(s) then
      Some(DigitsValue(s) as int)
    else
      None
  }

  /** int() accepts exactly a sign-optional run of digits, with its decimal value. */
  lemma ParseIntSpec(s: string)
    ensures ParseInt(s).Some? <==>
      IsUnsignedLiteral(s) || (|s| > 1 && (s[0] == '-' || s[0] == '+') && IsUnsignedLiteral(s[1..]))
    ensures IsUnsignedLiteral(s) ==> ParseInt(s) == Some(DigitsValue(s) as int)
    ensures |s| > 1 && s[0] == '+' && IsUnsignedLiteral(s[1..]) ==> ParseInt(s) == Some(DigitsValue(s[1..]) as int)
    ensures |s| > 1 && s[0] == '-' && IsUnsignedLiteral(s[1..]) ==> ParseInt(s) == Some(-(DigitsValue(s[1..]) as int))
  {
  }

  /** int(str(n)) == n: reading back a formatted integer gives the integer. */
  lemma {:induction false} ParseIntOfIntToString(n: int)
    ensures ParseInt(IntToString(n)) == Some(n)
  {
    var digits := NatToString(if n < 0 then -n else n);
    NatToStringSpec(if n < 0 then -n else n);
    if n < 0 {
      assert IntToString(n)[1..] == digits;
    }
  }

  /** The digits after a decimal point: their value over 10 to their number. */
  function Fraction(f: string): real
    requires AllDigits(f)
  {
    DigitsValue(f) as real / Pow10(|f|) as real
  }

  /** The value of an optional-fraction decimal "digits[.digits]" without sign. */
  function UnsignedDecimal(s: string): Option<real> {
    var i := FieldEnd(s, '.');
    if i == |s| then
      if IsUnsignedLiteral(s) then Some(DigitsValue(s) as real) else None
    else
      PointedDecimal(s[..i], s[i + 1..])
  }

  /** The value of the digits `whole` before a decimal point and `frac`
      after it; at least one side holds a digit. */
  function PointedDecimal(whole: string, frac: string): Option<real> {
    if AllDigits(whole) && AllDigits(frac) && (whole != [] || frac != []) then
      Some(DigitsValue(whole) as real + Fraction(frac))
    else
      None
  }

  /** float(text) on a whitespace-free token: an optional sign, then digits
      with an optional decimal point ("12", "-1.25", "3.", ".5"). Exponents,
      "inf" and "nan" are not part of this model. */
  function ParseDecimal(s: string): Option<real> {
    if s != [] && (s[0] == '-' || s[0] == '+') then
      match UnsignedDecimal(s[1..])
      case None => None
      case Some(v) => Some(if s[0] == '-' then -v else v)
    else
      UnsignedDecimal(s)
  }

  /** On an integer literal float() gives its value. */
  lemma UnsignedDecimalOfLiteral(s: string)
    requires IsUnsignedLiteral(s)
    ensures UnsignedDecimal(s) == Some(DigitsValue(s) as real)
  {
    FieldEndSpec(s, '.');
    DigitsAreNotSeparators(s);
  }

  /** float() agrees with int() wherever int() succeeds, and refuses the empty text. */
  lemma ParseDecimalSpec(s: string)
    ensures s == [] ==> ParseDecimal(s).None?
    ensures ParseInt(s).Some? ==> ParseDecimal(s) == Some(ParseInt(s).value as real)
  {
    if s != [] && (s[0] == '-' || s[0] == '+') {
      if IsUnsignedLiteral(s[1..]) {
        UnsignedDecimalOfLiteral(s[1..]);
      }
    } else if IsUnsignedLiteral(s) {
      UnsignedDecimalOfLiteral(s);
    }
  }

  /** The text "w.f" with w and f runs of digits, at least one of them
      non-empty, splits at its decimal point into w and f. */
  lemma PointSplit(w: string, f: string)
    requires AllDigits(w)
    ensures var s := w + "." + f;
      FieldEnd(s, '.') == |w| && s[..|w|] == w && s[|w| + 1..] == f
  {
    var s := w + "." + f;
    DigitsAreNotSeparators(w);
    assert s == w + ("." + f);
    FieldEndOfPrefix(w, "." + f, '.');
  }

  /** Without sign, float("w.f") is the whole digits plus the fraction digits. */
  lemma UnsignedDecimalOfParts(w: string, f: string)
    requires AllDigits(w) && AllDigits(f) && (w != [] || f != [])
    ensures UnsignedDecimal(w + "." + f) == Some(DigitsValue(w) as real + Fraction(f))
  {
    PointSplit(w, f);
    UnsignedDecimalAt(w + "." + f, w, f);
  }

  lemma UnsignedDecimalAt(s: string, w: string, f: string)
    requires AllDigits(w) && AllDigits(f) && (w != [] || f != [])
    requires FieldEnd(s, '.') == |w| && |w| < |s| && s[..|w|] == w && s[|w| + 1..] == f
    ensures UnsignedDecimal(s) == Some(DigitsValue(w) as real + Fraction(f))
  {
    assert UnsignedDecimal(s) == PointedDecimal(w, f);
  }

  /** Reading the digits on both sides of the point as one number: the value
      of w followed by f is w's value shifted left by |f| places, plus f's. */
  lemma {:induction false} DigitsValueAppend(w: string, f: string)
    requires AllDigits(w) && AllDigits(f)
    ensures AllDigits(w + f)
    ensures DigitsValue(w + f) == DigitsValue(w) * Pow10(|f|) + DigitsValue(f)
    decreases |f|
  {
    assert forall k :: 0 <= k < |w + f| ==> (w + f)[k] == if k < |w| then w[k] else f[k - |w|];
    if f == [] {
      assert w + f == w;
    } else {
      var g := f[..|f| - 1];
      var c := f[|f| - 1];
      DigitsValueAppend(w, g);
      assert (w + f)[..|w + f| - 1] == w + g;
      assert (w + f)[|w + f| - 1] == c;
      ShiftDigit(DigitsValue(w), Pow10(|g|), DigitsValue(g), DigitValue(c));
    }
  }

  lemma ShiftDigit(x: nat, p: nat, v: nat, d: nat)
    ensures 10 * (x * p + v) + d == x * (10 * p) + (10 * v + d)
  {
  }

  /** The whole digits plus the fraction digits is the value of all digits,
      point removed, over 10 to the number of fraction digits. */
  lemma FractionScaled(w: string, f: string)
    requires AllDigits(w) && AllDigits(f)
    ensures AllDigits(w + f)
    ensures DigitsValue(w) as real + Fraction(f) == DigitsValue(w + f) as real / Pow10(|f|) as real
    ensures Fraction(f) == DigitsValue(f) as real / Pow10(|f|) as real
  {
    DigitsValueAppend(w, f);
    AddScaled(DigitsValue(w), DigitsValue(f), Pow10(|f|));
  }

  lemma AddScaled(a: nat, b: nat, p: nat)
    requires p >= 1
    ensures a as real + b as real / p as real == (a * p + b) as real / p as real
  {
  }

  /** float() on a decimal with a point ("-0.93", ".5", "5."): the digits
      with the point removed, read as one number and divided by 10 to the
      number of fraction digits; negated after a minus sign, unchanged
      after a plus sign. This is the whole digits plus the fraction digits
      over 10 to their number. */
  lemma ParseDecimalOfParts(w: string, f: string)
    requires AllDigits(w) && AllDigits(f) && (w != [] || f != [])
    ensures AllDigits(w + f)
    ensures var v := DigitsValue(w + f) as real / Pow10(|f|) as real;
      && ParseDecimal(w + "." + f) == Some(v)
      && ParseDecimal("-" + (w + "." + f)) == Some(-v)
      && ParseDecimal("+" + (w + "." + f)) == Some(v)
      && v == DigitsValue(w) as real + DigitsValue(f) as real / Pow10(|f|) as real
  {
    var s := w + "." + f;
    UnsignedDecimalOfParts(w, f);
    FractionScaled(w, f);
    var v := DigitsValue(w + f) as real / Pow10(|f|) as real;
    UnsignedStart(w, f);
    ParseSigned(s, v);
  }

  /** "w.f" starts with a digit or the point, not with a sign. */
  lemma UnsignedStart(w: string, f: string)
    requires AllDigits(w)
    ensures var s := w + "." + f;
      s != [] && s[0] != '-' && s[0] != '+'
  {
    var s := w + "." + f;
    assert s[0] == if w != [] then w[0] else '.';
  }

  /** A sign in front of an unsigned decimal negates it or keeps it. */
  lemma ParseSigned(s: string, v: real)
    requires s != [] && s[0] != '-' && s[0] != '+' && UnsignedDecimal(s) == Some(v)
    ensures ParseDecimal(s) == Some(v)
    ensures ParseDecimal("-" + s) == Some(-v) && ParseDecimal("+" + s) == Some(v)
  {
    assert ("-" + s)[1..] == s;
    assert ("+" + s)[1..] == s;
  }

  /** float(str(n)) == n for every integer n. */
  lemma ParseDecimalOfIntToString(n: int)
    ensures ParseDecimal(IntToString(n)) == Some(n as real)
  {
    ParseIntOfIntToString(n);
    ParseDecimalSpec(IntToString(n));
  }

  /** int(x) on a real: truncation toward zero. The result lies between zero
      and x, less than one away from x. */
  function Trunc(x: real): (r: int)
    ensures x >= 0.0 ==> r as real <= x < r as real + 1.0
    ensures x < 0.0 ==> r as real - 1.0 < x <= r as real
  {
    if x >= 0.0 then x.Floor else -((-x).Floor)
  }

  function Spaces(n: nat): (r: string)
    ensures |r| == n
  {
    if n == 0 then [] else " " + Spaces(n - 1)
  }

  /** str.rjust(width): left-pads with spaces up to width characters; a
      longer text is left as it is. */
  function RightJustify(s: string, width: nat): (r: string)
    ensures |r| == if |s| >= width then |s| else width
  {
    if |s| >= width then s else Spaces(width - |s|) + s
  }

  /** The padding rjust adds is made of ' ' characters (whitespace, so
      strip() removes it), and the text follows it unchanged. */
  lemma RightJustifySpec(s: string, width: nat)
    ensures var r := RightJustify(s, width);
      && r[|r| - |s|..] == s
      && (forall k :: 0 <= k < |r| - |s| ==> r[k] == ' ')
      && AllSpace(r[..|r| - |s|])
  {
    if |s| < width {
      var n := width - |s|;
      SpacesAreBlanks(n);
      SpacesAreSpace(n);
      var r := RightJustify(s, width);
      assert r == Spaces(n) + s;
      assert r[..|r| - |s|] == Spaces(n);
      forall k | 0 <= k < |r| - |s|
        ensures r[k] == ' '
      {
        assert r[k] == Spaces(n)[k];
      }
    }
  }

  lemma {:induction false} SpacesAreBlanks(n: nat)
    ensures forall k :: 0 <= k < n ==> Spaces(n)[k] == ' '
  {
    if n > 0 {
      SpacesAreBlanks(n - 1);
      assert forall k :: 1 <= k < n ==> Spaces(n)[k] == Spaces(n - 1)[k - 1];
    }
  }

  lemma {:induction false} SpacesAreSpace(n: nat)
    ensures AllSpace(Spaces(n))
  {
    if n > 0 {
      SpacesAreSpace(n - 1);
      assert forall k :: 1 <= k < n ==> Spaces(n)[k] == Spaces(n - 1)[k - 1];
    }
  }
}
