/**
 * Integer and decimal text as the core reads and writes it: `int.TryParse` / `int.Parse`
 * (NumberStyles.Integer), `Int32.ToString()`, and `System.Decimal` with its scale kept
 * (`decimal.TryParse`, `decimal.ToString()`), for the invariant number format.
 */
module Numbers {
  import opened Wrappers
  import opened Text

  const Int32Min: int := -2147483648
  const Int32Max: int := 2147483647

  predicate IsInt32(n: int) {
    Int32Min <= n <= Int32Max
  }

  predicate IsDigit(c: char) {
    '0' <= c <= '9'
  }

  predicate AllDigits(s: string) {
    forall i :: 0 <= i < |s| ==> IsDigit(s[i])
  }

  function DigitValue(c: char): nat
    requires IsDigit(c)
  {
    c as int - '0' as int
  }

  function DigitChar(d: nat): (c: char)
    requires d < 10
    ensures IsDigit(c) && DigitValue(c) == d
  {
    ('0' as int + d) as char
  }

  function Pow10(k: nat): (p: nat)
    ensures p >= 1
  {
    if k == 0 then 1 else 10 * Pow10(k - 1)
  }

  /** The value of a run of decimal digits, leading zeros allowed. */
  function DigitsValue(s: string): nat
    requires AllDigits(s)
  {
    if |s| == 0 then 0 else DigitsValue(s[..|s| - 1]) * 10 + DigitValue(s[|s| - 1])
  }

  /** The shortest decimal digits of `n`: "0" for zero, otherwise no leading zero. */
  function NatToString(n: nat): (r: string)
    ensures |r| >= 1 && AllDigits(r) && DigitsValue(r) == n
    ensures r[0] == '0' ==> n == 0
  {
    if n < 10 then [DigitChar(n)]
    else
      var r := NatToString(n / 10) + [DigitChar(n % 10)];
      assert r[..|r| - 1] == NatToString(n / 10);
      r
  }

  lemma AllDigitsConcat(x: string, y: string)
    requires AllDigits(x) && AllDigits(y)
    ensures AllDigits(x + y)
  {
    forall i | 0 <= i < |x + y| ensures IsDigit((x + y)[i]) {
      if i >= |x| { assert (x + y)[i] == y[i - |x|]; }
    }
  }

  lemma ShiftDigit(a: int, p: int, b: int, d: int)
    ensures (a * p + b) * 10 + d == a * (p * 10) + (b * 10 + d)
  {
  }

  /** Reading two digit runs one after the other. */
  lemma {:induction false} DigitsValueConcat(x: string, y: string)
    requires AllDigits(x) && AllDigits(y)
    ensures AllDigits(x + y)
    ensures DigitsValue(x + y) == DigitsValue(x) * Pow10(|y|) + DigitsValue(y)
  {
    AllDigitsConcat(x, y);
    if |y| > 0 {
      var y' := y[..|y| - 1];
      assert (x + y)[..|x + y| - 1] == x + y';
      assert (x + y)[|x + y| - 1] == y[|y| - 1];
      DigitsValueConcat(x, y');
      var d := DigitValue(y[|y| - 1]);
      assert DigitsValue(x + y) == DigitsValue(x + y') * 10 + d;
      assert DigitsValue(y) == DigitsValue(y') * 10 + d;
      assert Pow10(|y|) == Pow10(|y'|) * 10;
      ShiftDigit(DigitsValue(x), Pow10(|y'|), DigitsValue(y'), d);
    } else {
      assert x + y == x;
    }
  }

  function Zeros(k: nat): (r: string)
    ensures |r| == k && AllDigits(r) && DigitsValue(r) == 0
  {
    if k == 0 then [] else
      var r := Zeros(k - 1) + ['0'];
      assert r[..|r| - 1] == Zeros(k - 1);
      r
  }

  /** `Int32.ToString()`: an optional minus sign and the shortest digits. */
  function IntToString(n: int): string {
    if n < 0 then "-" + NatToString(-n) else NatToString(n)
  }

  /** The text of an `int` is digits after an optional minus sign: no white space at either end, no comma. */
  lemma IntToStringChars(n: int)
    ensures var s := IntToString(n);
      |s| >= 1 && IsDigit(s[|s| - 1]) && (IsDigit(s[0]) || s[0] == '-')
      && (forall i :: 0 <= i < |s| ==> IsDigit(s[i]) || s[i] == '-')
      && IsTrimmed(s) && ',' !in s
  {
    var s := IntToString(n);
    var digits := if n < 0 then NatToString(-n) else NatToString(n);
    assert IsDigit(digits[0]) && IsDigit(digits[|digits| - 1]);
    forall i | 0 <= i < |s| ensures IsDigit(s[i]) || s[i] == '-' {
      if n < 0 && i > 0 {
        assert s[i] == digits[i - 1];
      }
    }
  }

  /** The white space the .NET number parser skips around a number: U+0009..U+000D and U+0020. */
  predicate IsNumberWhite(c: char) {
    c == ' ' || ('\t' <= c <= '\r')
  }

  function StripLeadingNumberWhite(s: string): (r: string)
    ensures |r| <= |s| && r == s[|s| - |r|..]
    ensures r == [] || !IsNumberWhite(r[0])
  {
    if |s| > 0 && IsNumberWhite(s[0]) then StripLeadingNumberWhite(s[1..]) else s
  }

  function StripTrailingNumberWhite(s: string): (r: string)
    ensures |r| <= |s| && r == s[..|r|]
    ensures r == [] || !IsNumberWhite(r[|r| - 1])
  {
    if |s| > 0 && IsNumberWhite(s[|s| - 1]) then StripTrailingNumberWhite(s[..|s| - 1]) else s
  }

  function StripNumberWhite(s: string): (r: string)
    ensures |r| <= |s|
  {
    StripTrailingNumberWhite(StripLeadingNumberWhite(s))
  }

  lemma StripNumberWhiteNoop(s: string)
    requires |s| >= 1 && !IsNumberWhite(s[0]) && !IsNumberWhite(s[|s| - 1])
    ensures StripNumberWhite(s) == s
  {
  }

  /** An optional leading sign followed by at least one digit, and its value. */
  function SignedDigitsValue(t: string): (r: Option<int>)
    ensures r.Some? <==> (|t| >= 1 && (if t[0] == '-' || t[0] == '+' then |t| >= 2 && AllDigits(t[1..]) else AllDigits(t)))
  {
    if |t| >= 2 && t[0] == '-' && AllDigits(t[1..]) then Some(0 - DigitsValue(t[1..]))
    else if |t| >= 2 && t[0] == '+' && AllDigits(t[1..]) then Some(DigitsValue(t[1..]))
    else if |t| >= 1 && t[0] != '-' && t[0] != '+' && AllDigits(t) then Some(DigitsValue(t))
    else None
  }

  /**
   * `int.TryParse(s, out v)` with NumberStyles.Integer: optional white space, an optional sign,
   * at least one digit, optional white space; None when the text is malformed or the value
   * does not fit in 32 bits.
   */
  function ParseInt32(s: string): (r: Option<int>)
    ensures r.Some? ==> IsInt32(r.value)
    ensures r.Some? <==> SignedDigitsValue(StripNumberWhite(s)).Some? && IsInt32(SignedDigitsValue(StripNumberWhite(s)).value)
  {
    match SignedDigitsValue(StripNumberWhite(s))
    case None => None
    case Some(v) => if IsInt32(v) then Some(v) else None
  }

  /** What `Int32.ToString()` writes, `int.TryParse` reads back. */
  lemma ParseIntToString(n: int)
    requires IsInt32(n)
    ensures ParseInt32(IntToString(n)) == Some(n)
  {
    var s := IntToString(n);
    StripNumberWhiteNoop(s);
    if n < 0 {
      assert s[1..] == NatToString(-n);
    }
  }

  /** `System.Decimal`: the value `units / 10^scale`; the scale is kept, so 4.5 and 4.50 differ in print. */
  datatype Decimal = Decimal(units: int, scale: nat)

  /** An `int`'s text, trimmed, reads back as the `int`. */
  lemma ParseTrimmedIntToString(n: int)
    requires IsInt32(n)
    ensures Trim(IntToString(n)) == IntToString(n) && ParseInt32(Trim(IntToString(n))) == Some(n)
  {
    IntToStringChars(n);
    TrimOfTrimmed(IntToString(n));
    ParseIntToString(n);
  }

  /** Numeric equality of two decimals (`decimal ==`), regardless of scale. */
  predicate SameValue(a: Decimal, b: Decimal) {
    a.units * Pow10(b.scale) == b.units * Pow10(a.scale)
  }

  /** The digits before and after the decimal point of an unsigned decimal text. */
  function SplitAtPoint(body: string): (parts: (string, string))
    ensures |parts.1| <= |body|
  {
    match IndexOf(body, '.')
    case None => (body, "")
    case Some(i) => (body[..i], body[i + 1..])
  }

  /** The value of the digits `whole` followed by the fraction digits `frac`, at scale `|frac|`. */
  function DecimalOfDigits(whole: string, frac: string): Decimal
    requires AllDigits(whole) && AllDigits(frac)
  {
    Decimal(DigitsValue(whole) * Pow10(|frac|) + DigitsValue(frac), |frac|)
  }

  function UnsignedDecimal(body: string): (r: Option<Decimal>)
    ensures r.Some? ==> r.value.scale <= |body|
  {
    var parts := SplitAtPoint(body);
    if AllDigits(parts.0) && AllDigits(parts.1) && |parts.0| + |parts.1| >= 1 then
      Some(DecimalOfDigits(parts.0, parts.1))
    else None
  }

  predicate IsSign(c: char) {
    c == '-' || c == '+'
  }

  /** An unsigned decimal with the sign `sign` applied. */
  function Signed(sign: char, body: Option<Decimal>): (r: Option<Decimal>)
    ensures r.Some? <==> body.Some?
    ensures r.Some? ==> r.value.scale == body.value.scale
  {
    match body
    case None => None
    case Some(d) => Some(if sign == '-' then Decimal(-d.units, d.scale) else d)
  }

  /**
   * `decimal.TryParse(s, out d)` with NumberStyles.Number: optional white space, one optional sign
   * either before the number or after it (white space may come between the number and a sign
   * after it, not between a sign before it and the number), digits with at most one decimal
   * point and at least one digit, optional white space. The scale is the number of digits after
   * the point.
   */
  function ParseDecimal(s: string): (r: Option<Decimal>)
    ensures r.Some? ==> r.value.scale <= |s|
  {
    var t := StripNumberWhite(s);
    if |t| >= 1 && IsSign(t[0]) then Signed(t[0], UnsignedDecimal(t[1..]))
    else if |t| >= 1 && IsSign(t[|t| - 1]) then
      Signed(t[|t| - 1], UnsignedDecimal(StripTrailingNumberWhite(t[..|t| - 1])))
    else UnsignedDecimal(t)
  }

  /** A sign after the number reads as the same sign before it. */
  lemma TrailingSignReads(u: string, sign: char)
    requires |u| >= 1 && IsDigit(u[0]) && IsDigit(u[|u| - 1]) && IsSign(sign)
    ensures ParseDecimal(u + [sign]) == ParseDecimal([sign] + u)
    ensures ParseDecimal(u + [sign]) == Signed(sign, UnsignedDecimal(u))
  {
    var a, b := u + [sign], [sign] + u;
    StripNumberWhiteNoop(a);
    StripNumberWhiteNoop(b);
    assert a[..|a| - 1] == u && b[1..] == u;
  }

  /** The digits of `a`, zero-padded on the left to more than `scale` digits. */
  function PaddedDigits(a: nat, scale: nat): (r: string)
    ensures |r| > scale && AllDigits(r) && DigitsValue(r) == a
  {
    var s := NatToString(a);
    if |s| > scale then s
    else
      DigitsValueConcat(Zeros(scale + 1 - |s|), s);
      Zeros(scale + 1 - |s|) + s
  }

  /** The unsigned text of `a / 10^scale`: the whole part, then a point and exactly `scale` digits if `scale > 0`. */
  function FormatUnsigned(a: nat, scale: nat): string {
    var s := PaddedDigits(a, scale);
    var k := |s| - scale;
    s[..k] + (if scale == 0 then "" else "." + s[k..])
  }

  /** `decimal.ToString()`: a minus sign if negative, then the unsigned text with exactly `scale` fraction digits. */
  function FormatDecimal(d: Decimal): string {
    if d.units < 0 then "-" + FormatUnsigned(-d.units, d.scale) else FormatUnsigned(d.units, d.scale)
  }

  lemma NoPointInDigits(w: string)
    requires AllDigits(w)
    ensures '.' !in w
  {
    forall i | 0 <= i < |w| ensures w[i] != '.' {
      assert IsDigit(w[i]);
    }
  }

  lemma SplitAtPointOf(w: string, f: string)
    requires AllDigits(w)
    ensures SplitAtPoint(w + "." + f) == (w, f)
  {
    NoPointInDigits(w);
    var body := w + "." + f;
    assert body[|w|] == '.';
    assert body[..|w|] == w;
    assert IndexOf(body, '.') == Some(|w|);
    assert body[|w| + 1..] == f;
  }

  lemma UnsignedDecimalWithPoint(w: string, f: string)
    requires AllDigits(w) && AllDigits(f) && |w| >= 1
    ensures UnsignedDecimal(w + "." + f) == Some(DecimalOfDigits(w, f))
  {
    SplitAtPointOf(w, f);
  }

  lemma UnsignedDecimalWithoutPoint(w: string)
    requires AllDigits(w) && |w| >= 1
    ensures UnsignedDecimal(w) == Some(DecimalOfDigits(w, ""))
  {
    NoPointInDigits(w);
  }

  lemma {:induction false} UnsignedDecimalOfFormat(a: nat, scale: nat)
    ensures UnsignedDecimal(FormatUnsigned(a, scale)) == Some(Decimal(a, scale))
  {
    var s := PaddedDigits(a, scale);
    var k := |s| - scale;
    var w, f := s[..k], s[k..];
    assert AllDigits(w) && AllDigits(f);
    assert DecimalOfDigits(w, f) == Decimal(a, scale) by {
      assert s == w + f;
      DigitsValueConcat(w, f);
    }
    if scale == 0 {
      assert FormatUnsigned(a, scale) == w;
      assert f == "";
      UnsignedDecimalWithoutPoint(w);
    } else {
      assert FormatUnsigned(a, scale) == w + "." + f;
      UnsignedDecimalWithPoint(w, f);
    }
  }

  lemma FormatUnsignedEnds(a: nat, scale: nat)
    ensures var s := FormatUnsigned(a, scale); |s| >= 1 && IsDigit(s[0]) && IsDigit(s[|s| - 1])
  {
  }

  /** The text of a decimal has no comma and no white space at either end. */
  lemma FormatDecimalChars(d: Decimal)
    ensures var s := FormatDecimal(d); |s| >= 1 && IsTrimmed(s) && ',' !in s
  {
    var a: nat := if d.units < 0 then -d.units else d.units;
    var body := FormatUnsigned(a, d.scale);
    assert FormatDecimal(d) == if d.units < 0 then "-" + body else body;
    FormatUnsignedEnds(a, d.scale);
    FormatUnsignedNoComma(a, d.scale);
    SignedDigitsText(body);
  }

  /** The text of a decimal is made of digits, a point and a minus sign only. */
  lemma FormatDecimalSymbols(d: Decimal)
    ensures var s := FormatDecimal(d); forall i :: 0 <= i < |s| ==> IsDigit(s[i]) || s[i] == '.' || s[i] == '-'
  {
    var a: nat := if d.units < 0 then -d.units else d.units;
    var body := FormatUnsigned(a, d.scale);
    FormatUnsignedSymbols(a, d.scale);
    var s := FormatDecimal(d);
    assert s == if d.units < 0 then "-" + body else body;
    forall i | 0 <= i < |s| ensures IsDigit(s[i]) || s[i] == '.' || s[i] == '-' {
      if d.units < 0 && i > 0 {
        assert s[i] == body[i - 1];
      }
    }
  }

  lemma FormatUnsignedSymbols(a: nat, scale: nat)
    ensures var s := FormatUnsigned(a, scale); forall i :: 0 <= i < |s| ==> IsDigit(s[i]) || s[i] == '.'
  {
    var p := PaddedDigits(a, scale);
    var k := |p| - scale;
    var s := FormatUnsigned(a, scale);
    forall i | 0 <= i < |s| ensures IsDigit(s[i]) || s[i] == '.' {
      if i < k {
        assert s[i] == p[i];
      } else if i > k {
        assert s[i] == p[i - 1];
      }
    }
  }

  lemma SignedDigitsText(u: string)
    requires |u| >= 1 && IsDigit(u[0]) && IsDigit(u[|u| - 1]) && ',' !in u
    ensures IsTrimmed(u) && IsTrimmed("-" + u) && ',' !in "-" + u
  {
    var s := "-" + u;
    assert s[|s| - 1] == u[|u| - 1];
  }

  lemma FormatUnsignedNoComma(a: nat, scale: nat)
    ensures ',' !in FormatUnsigned(a, scale)
  {
    var p := PaddedDigits(a, scale);
    var k := |p| - scale;
    NoCommaInDigits(p[..k]);
    NoCommaInDigits(p[k..]);
  }

  lemma NoCommaInDigits(w: string)
    requires AllDigits(w)
    ensures ',' !in w
  {
    forall i | 0 <= i < |w| ensures w[i] != ',' {
      assert IsDigit(w[i]);
    }
  }


  lemma ParseUnsignedBody(body: string)
    requires |body| >= 1 && IsDigit(body[0]) && IsDigit(body[|body| - 1])
    ensures ParseDecimal(body) == UnsignedDecimal(body)
  {
    StripNumberWhiteNoop(body);
  }

  lemma ParseNegativeBody(body: string, x: Decimal)
    requires |body| >= 1 && IsDigit(body[0]) && IsDigit(body[|body| - 1])
    requires UnsignedDecimal(body) == Some(x)
    ensures ParseDecimal("-" + body) == Some(Decimal(-x.units, x.scale))
  {
    var s := "-" + body;
    StripNumberWhiteNoop(s);
    assert s[1..] == body;
  }

  lemma ParseFormatNegative(d: Decimal)
    requires d.units < 0
    ensures ParseDecimal(FormatDecimal(d)) == Some(d)
  {
    var a: nat := -d.units;
    var body := FormatUnsigned(a, d.scale);
    assert FormatDecimal(d) == "-" + body;
    assert ParseDecimal("-" + body) == Some(d) by {
      ParseNegativeText(a, d.scale);
      assert Decimal(-(a as int), d.scale) == d;
    }
  }

  lemma ParseNegativeText(a: nat, scale: nat)
    ensures ParseDecimal("-" + FormatUnsigned(a, scale)) == Some(Decimal(-(a as int), scale))
  {
    var body := FormatUnsigned(a, scale);
    var x := Decimal(a, scale);
    UnsignedDecimalOfFormat(a, scale);
    FormatUnsignedEnds(a, scale);
    ParseNegativeBody(body, x);
    assert Decimal(-x.units, x.scale) == Decimal(-(a as int), scale);
  }

  lemma ParseFormatNonNegative(d: Decimal)
    requires d.units >= 0
    ensures ParseDecimal(FormatDecimal(d)) == Some(d)
  {
    UnsignedDecimalOfFormat(d.units, d.scale);
    FormatUnsignedEnds(d.units, d.scale);
    ParseUnsignedBody(FormatUnsigned(d.units, d.scale));
  }

  /** What `decimal.ToString()` writes, `decimal.TryParse` reads back with the same value and scale. */
  lemma ParseFormatDecimal(d: Decimal)
    ensures ParseDecimal(FormatDecimal(d)) == Some(d)
  {
    if d.units < 0 {
      ParseFormatNegative(d);
    } else {
      ParseFormatNonNegative(d);
    }
  }

  /**
   * The `(decimal)` cast of a lap count of `tenths` tenths computed as a double: the same value,
   * written without a trailing zero (scale 0 for whole numbers, 1 otherwise).
   */
  function TenthsToDecimal(tenths: int): (r: Decimal)
    ensures SameValue(r, Decimal(tenths, 1))
    ensures r.scale <= 1 && (r.scale == 1 ==> r.units % 10 != 0)
  {
    if tenths % 10 == 0 then Decimal(tenths / 10, 0) else Decimal(tenths, 1)
  }
}
