/** Price display and parsing (utils/formatPrice.ts): `formatPrice` turns a
    stored price into the text shown to the user, `parsePrice` reads such a
    text back into a number. Numbers are exact reals; `toFixed(2)` is
    modelled by its defining rounding rule on the exact value. */
module PriceFormat {
  import opened JsValues

  /** The argument of `formatPrice`/`parsePrice`: `undefined`, `null`, a
      string or a number. */
  datatype PriceInput = Undefined | Null | Text(s: string) | Numeric(n: Num)

  const UnknownPrice: string := "未知"
  const Yen: char := '¥'
  const FullwidthYen: char := '￥'

  predicate IsCurrencySign(c: char) { c == Yen || c == FullwidthYen }

  predicate HasCurrencySign(s: string) { exists i :: 0 <= i < |s| && IsCurrencySign(s[i]) }

  /** A value with at most two fractional digits (a whole number of cents). */
  predicate IsCents(x: real) { (x * 100.0).Floor as real == x * 100.0 }

  /** `toFixed(2)` on a non-negative value picks the integer number of
      cents nearest to it, the larger one on a tie. */
  function CentsHalfUp(x: real): (n: nat)
    requires x >= 0.0
    ensures n as real <= x * 100.0 + 0.5 < n as real + 1.0
    ensures IsCents(x) ==> n as real == x * 100.0
  {
    var n := (x * 100.0 + 0.5).Floor;
    assert IsCents(x) ==> n == (x * 100.0).Floor;
    n
  }

  lemma {:induction false} NegatedCents(x: real)
    ensures IsCents(x) ==> IsCents(-x)
  {
    if IsCents(x) {
      var k := (x * 100.0).Floor;
      assert -x * 100.0 == (-k) as real;
      assert ((-k) as real).Floor == -k;
    }
  }

  /** The value `toFixed(2)` writes: the magnitude rounded to cents, halves
      rounded up, with the sign put back. */
  function Round2(x: real): (y: real)
    ensures -0.005 <= y - x <= 0.005
    ensures IsCents(x) ==> y == x
  {
    if x < 0.0 then
      var n := CentsHalfUp(-x);
      NegatedCents(x);
      -(n as real / 100.0)
    else CentsHalfUp(x) as real / 100.0
  }

  /** The integer part of a `toFixed` text: digits, with no leading zero
      unless it is the single digit 0. */
  predicate IntegerDigits(d: string) {
    d != [] && AllDigits(d) && (|d| > 1 ==> d[0] != '0')
  }

  /** A whole number of cents written as `toFixed(2)` writes it: the
      integer part, a point and exactly two fractional digits. */
  function CentsText(n: nat): (a: string)
    ensures |a| >= 4 && a[|a| - 3] == '.' && IsDigit(a[|a| - 2]) && IsDigit(a[|a| - 1])
    ensures IsDigit(a[0]) && forall i :: 0 <= i < |a| ==> IsDigit(a[i]) || a[i] == '.'
    ensures IntegerDigits(a[..|a| - 3])
  {
    var cents := n % 100;
    NatToString(n / 100) + "." + [DigitChar(cents / 10), DigitChar(cents % 10)]
  }

  /** A `toFixed(2)` text: a minus sign exactly when `negative`, then the
      integer part without superfluous leading zeros, a point and two
      fractional digits. */
  predicate FixedText(r: string, negative: bool) {
    var k := if negative then 1 else 0;
    && |r| >= k + 4 && (r[0] == '-' <==> negative)
    && IntegerDigits(r[k..|r| - 3]) && r[|r| - 3] == '.' && IsDigit(r[|r| - 2]) && IsDigit(r[|r| - 1])
  }

  /** `x.toFixed(2)`: an optional minus sign, the integer part, a point and
      exactly two fractional digits; `Number` reads it back as `Round2(x)`. */
  function ToFixed2(x: real): (r: string)
    ensures |r| >= 4 && r[|r| - 3] == '.' && IsDigit(r[|r| - 2]) && IsDigit(r[|r| - 1])
    ensures forall i :: 0 <= i < |r| ==> IsDigit(r[i]) || r[i] == '.' || r[i] == '-'
    ensures StringToNumber(r) == Real(Round2(x))
    ensures FixedText(r, x < 0.0)
  {
    var n := CentsHalfUp(if x < 0.0 then -x else x);
    assert Round2(x) == if x < 0.0 then -(n as real / 100.0) else n as real / 100.0;
    SignedCentsText(n, x < 0.0)
  }

  /** `n` cents written with a minus sign when `negative`. */
  function SignedCentsText(n: nat, negative: bool): (r: string)
    ensures |r| >= 4 && r[|r| - 3] == '.' && IsDigit(r[|r| - 2]) && IsDigit(r[|r| - 1])
    ensures forall i :: 0 <= i < |r| ==> IsDigit(r[i]) || r[i] == '.' || r[i] == '-'
    ensures StringToNumber(r) == Real(if negative then -(n as real / 100.0) else n as real / 100.0)
    ensures FixedText(r, negative)
  {
    CentsTextNumber(n);
    if negative then
      NegatedCentsText(n);
      "-" + CentsText(n)
    else
      CentsTextFixed(n);
      CentsText(n)
  }

  /** The cents text is a `toFixed(2)` text without a sign. */
  lemma CentsTextFixed(n: nat)
    ensures FixedText(CentsText(n), false)
  {
  }

  /** A minus sign before the cents text keeps its shape. */
  lemma NegatedCentsText(n: nat)
    ensures var r := "-" + CentsText(n);
      && |r| >= 4 && r[|r| - 3] == '.' && IsDigit(r[|r| - 2]) && IsDigit(r[|r| - 1])
      && (forall i :: 0 <= i < |r| ==> IsDigit(r[i]) || r[i] == '.' || r[i] == '-')
      && FixedText(r, true)
  {
    var a := CentsText(n);
    var r := "-" + a;
    assert r[1..|r| - 3] == a[..|a| - 3];
    assert forall i :: 1 <= i < |r| ==> r[i] == a[i - 1];
  }

  lemma {:induction false} CentsTextDecimal(n: nat)
    ensures UnsignedDecimal(CentsText(n)) == Some(n as real / 100.0)
  {
    var cents := n % 100;
    var q := NatToString(n / 100);
    var f := [DigitChar(cents / 10), DigitChar(cents % 10)];
    var a := CentsText(n);
    assert a == q + ("." + f);
    LeadingDigitsConcat(q, "." + f);
    NatToStringValue(n / 100);
    assert a[..|q|] == q;
    assert a[|q| + 1..] == f;
    TwoDigitsValue(f[0], f[1]);
    assert Pow10(2) == 100;
    assert UnsignedDecimal(a) == Some(DecimalValue(q, f));
    assert DecimalValue(q, f) == (n / 100) as real + cents as real / 100.0;
  }

  lemma {:induction false} CentsTextNumber(n: nat)
    ensures StringToNumber(CentsText(n)) == Real(n as real / 100.0)
    ensures StringToNumber("-" + CentsText(n)) == Real(-(n as real / 100.0))
  {
    CentsTextDecimal(n);
    NumberOfDecimal(CentsText(n), n as real / 100.0);
  }

  /** Every character that is a currency sign is dropped
      (`replace(/[¥￥]/g, '')`). */
  function RemoveCurrencySigns(s: string): (r: string)
    ensures !HasCurrencySign(r)
    ensures |r| <= |s|
    ensures !HasCurrencySign(s) ==> r == s
    ensures |s| == 1 ==> r == if IsCurrencySign(s[0]) then [] else s
  {
    if s == [] then []
    else
      var rest := RemoveCurrencySigns(s[1..]);
      assert !HasCurrencySign(s) ==> !HasCurrencySign(s[1..]) by {
        if HasCurrencySign(s[1..]) {
          var i :| 0 <= i < |s[1..]| && IsCurrencySign(s[1..][i]);
          assert IsCurrencySign(s[i + 1]);
        }
      }
      if IsCurrencySign(s[0]) then rest
      else
        var r := [s[0]] + rest;
        assert !HasCurrencySign(r) by {
          forall i | 0 <= i < |r| ensures !IsCurrencySign(r[i]) {
            if i > 0 { assert r[i] == rest[i - 1]; }
          }
        }
        r
  }

  /** Removing the signs works character by character: the text around
      them is kept, in order. */
  lemma {:induction false} RemoveCurrencySignsConcat(a: string, b: string)
    ensures RemoveCurrencySigns(a + b) == RemoveCurrencySigns(a) + RemoveCurrencySigns(b)
  {
    if a != [] {
      assert (a + b)[1..] == a[1..] + b;
      RemoveCurrencySignsConcat(a[1..], b);
    } else {
      assert a + b == b;
    }
  }

  /** `formatPrice(price)`: empty input shows as `未知`; a string that already
      carries a currency sign, or that is not a number, is shown as it is; a
      number is shown as `¥` and two fractional digits. */
  function FormatPrice(p: PriceInput): (r: string)
    ensures r != ""
    ensures p.Undefined? || p.Null? || p == Text("") || p == Numeric(NaN) ==> r == UnknownPrice
    ensures p.Text? && HasCurrencySign(p.s) ==> r == p.s
    ensures p.Text? && p.s != "" && StringToNumber(p.s).NaN? ==> r == p.s
    ensures r == UnknownPrice || (p.Text? && r == p.s) || (r[0] == Yen && !HasCurrencySign(r[1..]))
  {
    match p
    case Undefined => UnknownPrice
    case Null => UnknownPrice
    case Text(s) =>
      if s == "" then UnknownPrice
      else if HasCurrencySign(s) then s
      else (
        match StringToNumber(s)
        case NaN => s
        case Real(x) => WithYen(x))
    case Numeric(n) =>
      match n
      case NaN => UnknownPrice
      case Real(x) => WithYen(x)
  }

  /** `¥` followed by `x.toFixed(2)`. */
  function WithYen(x: real): (r: string)
    ensures |r| >= 5 && r[0] == Yen && r[1..] == ToFixed2(x)
    ensures !HasCurrencySign(r[1..])
  {
    var t := ToFixed2(x);
    assert !HasCurrencySign(t) by {
      forall i | 0 <= i < |t| ensures !IsCurrencySign(t[i]) {
        assert IsDigit(t[i]) || t[i] == '.' || t[i] == '-';
      }
    }
    [Yen] + t
  }

  /** `parsePrice(price)`: 0 for empty input and NaN; a number as it is; a
      string with its currency signs and surrounding white space removed,
      read by `Number`, and 0 when that is NaN. It never fails. */
  function ParsePrice(p: PriceInput): (v: real)
    ensures p.Undefined? || p.Null? || p == Text("") || p == Numeric(NaN) ==> v == 0.0
    ensures p.Numeric? && p.n.Real? ==> v == p.n.r
    ensures p.Text? && StringToNumber(Trim(RemoveCurrencySigns(p.s))).NaN? ==> v == 0.0
  {
    match p
    case Undefined => 0.0
    case Null => 0.0
    case Numeric(n) => (match n case NaN => 0.0 case Real(x) => x)
    case Text(s) =>
      if s == "" then 0.0
      else
        match StringToNumber(Trim(RemoveCurrencySigns(s)))
        case NaN => 0.0
        case Real(x) => x
  }

  /** Currency signs are invisible to `parsePrice`: a text and the same text
      with its signs removed parse to the same number. */
  lemma {:induction false} ParseIgnoresCurrencySigns(s: string)
    ensures ParsePrice(Text(s)) == ParsePrice(Text(RemoveCurrencySigns(s)))
  {
    var c := RemoveCurrencySigns(s);
    if s != "" && c == "" {
      assert Trim(c) == "";
    }
  }

  /** What the display shows is read back by `parsePrice` as the value
      rounded to cents; for a value with at most two fractional digits that
      is the value itself. */
  lemma {:induction false} ParseOfFormattedNumber(x: real)
    ensures ParsePrice(Text(FormatPrice(Numeric(Real(x))))) == Round2(x)
    ensures IsCents(x) ==> ParsePrice(Text(FormatPrice(Numeric(Real(x))))) == x
  {
    FormatOfNumber(x);
    ToFixed2Unpadded(x);
    ParseOfYen(ToFixed2(x), Round2(x));
  }

  /** A number is shown as `¥` and its `toFixed(2)`. */
  lemma FormatOfNumber(x: real)
    ensures FormatPrice(Numeric(Real(x))) == [Yen] + ToFixed2(x)
  {
  }

  /** `toFixed(2)` starts with a sign or a digit, never with white space. */
  lemma ToFixed2Unpadded(x: real)
    ensures !IsSpace(ToFixed2(x)[0]) && !IsSpace(ToFixed2(x)[|ToFixed2(x)| - 1])
  {
    var t := ToFixed2(x);
    if x >= 0.0 {
      assert IsDigit(t[..|t| - 3][0]);
    }
  }

  /** `parsePrice` of `¥` and an unpadded number without currency signs
      is that number. */
  lemma ParseOfYen(t: string, v: real)
    requires t != [] && !HasCurrencySign(t) && !IsSpace(t[0]) && !IsSpace(t[|t| - 1])
    requires StringToNumber(t) == Real(v)
    ensures ParsePrice(Text([Yen] + t)) == v
  {
    RemovesLeadingYen(t);
    TrimOfUnpadded(t);
  }

  /** The same round trip starting from a numeric string, as stored in the
      catalogue's price column. */
  lemma {:induction false} ParseOfFormattedText(s: string, x: real)
    requires s != "" && !HasCurrencySign(s) && StringToNumber(s) == Real(x)
    ensures FormatPrice(Text(s)) == WithYen(x)
    ensures ParsePrice(Text(FormatPrice(Text(s)))) == Round2(x)
    ensures IsCents(x) ==> ParsePrice(Text(FormatPrice(Text(s)))) == x == ParsePrice(Text(s))
  {
    assert FormatPrice(Text(s)) == WithYen(x) == FormatPrice(Numeric(Real(x)));
    ParseOfFormattedNumber(x);
    ParseOfPlainText(s, x);
  }

  /** A numeric text without currency signs parses to its number. */
  lemma ParseOfPlainText(s: string, x: real)
    requires s != "" && !HasCurrencySign(s) && StringToNumber(s) == Real(x)
    ensures ParsePrice(Text(s)) == x
  {
    assert RemoveCurrencySigns(s) == s;
    assert StringToNumber(Trim(s)) == StringToNumber(s) by { TrimTwice(s); }
  }

  lemma {:induction false} TrimTwice(s: string)
    ensures Trim(Trim(s)) == Trim(s)
  {
    var t := Trim(s);
    if t != [] { TrimOfUnpadded(t); }
  }

  lemma {:induction false} RemovesLeadingYen(t: string)
    requires !HasCurrencySign(t)
    ensures RemoveCurrencySigns([Yen] + t) == t
  {
    assert ([Yen] + t)[1..] == t;
  }

  /** `未知` carries no currency sign and is not a number, so
      `formatPrice` shows it as it is. */
  lemma UnknownPriceIsText()
    ensures !HasCurrencySign(UnknownPrice) && StringToNumber(UnknownPrice) == NaN
  {
    var r := UnknownPrice;
    assert TrimStart(r) == r;
    assert TrimEnd(r) == r;
    assert LeadingDigits(r) == 0;
    assert !IsCurrencySign(r[0]) && !IsCurrencySign(r[1]);
  }

  /** Formatting what `formatPrice` produced changes nothing more. */
  lemma {:induction false} FormatIdempotent(p: PriceInput)
    ensures FormatPrice(Text(FormatPrice(p))) == FormatPrice(p)
  {
    var r := FormatPrice(p);
    if r == UnknownPrice {
      UnknownPriceIsText();
    } else if p.Text? && r == p.s {
    } else {
      assert IsCurrencySign(r[0]);
    }
  }
}
