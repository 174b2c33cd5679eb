/** Values as the JavaScript runtime hands them to the handlers (request
    bodies, query strings, configuration), and the conversions the handlers
    apply to them: truthiness, `trim`, `parseInt`, `Number(string)` and
    `parseFloat`. Numbers are held exactly as reals; IEEE rounding is not
    modelled. */
module JsValues {

  datatype Option<T> = None | Some(value: T)

  /** A JavaScript number: NaN, or a finite value held exactly. */
  datatype Num = NaN | Real(r: real)

  /** A JSON-like value. `Object` stands for any non-array object. */
  datatype Value = Undefined | Null | Bool(b: bool) | Number(n: Num) | Str(s: string) | Object

  /** JavaScript truthiness (`!v` is its negation). */
  predicate Truthy(v: Value) {
    match v
    case Undefined => false
    case Null => false
    case Bool(b) => b
    case Number(n) => n.Real? && n.r != 0.0
    case Str(s) => s != ""
    case Object => true
  }

  /** Strict equality `a === b`. NaN equals nothing; two objects coming from
      different places are never the same object. */
  predicate StrictEquals(a: Value, b: Value) {
    match (a, b)
    case (Undefined, Undefined) => true
    case (Null, Null) => true
    case (Bool(x), Bool(y)) => x == y
    case (Number(Real(x)), Number(Real(y))) => x == y
    case (Str(x), Str(y)) => x == y
    case _ => false
  }

  /** White space and line terminators of ECMAScript: what `trim` removes and
      what the regular-expression class `\s` matches. */
  predicate IsSpace(c: char) {
    c == '\t' || c == '\n' || c == '\U{000B}' || c == '\U{000C}' || c == '\r' || c == ' '
    || c == '\U{00A0}' || c == '\U{1680}' || ('\U{2000}' <= c <= '\U{200A}')
    || c == '\U{2028}' || c == '\U{2029}' || c == '\U{202F}' || c == '\U{205F}'
    || c == '\U{3000}' || c == '\U{FEFF}'
  }

  /** `s.trimStart()`: the suffix left after the leading white space. */
  function TrimStart(s: string): (r: string)
    ensures |r| <= |s|
    ensures r == [] || !IsSpace(r[0])
  {
    if s != [] && IsSpace(s[0]) then TrimStart(s[1..]) else s
  }

  /** `s.trimEnd()`: the prefix left before the trailing white space. */
  function TrimEnd(s: string): (r: string)
    ensures |r| <= |s| && (r == [] || r[0] == s[0])
    ensures r == [] || !IsSpace(r[|r| - 1])
  {
    if s != [] && IsSpace(s[|s| - 1]) then TrimEnd(s[..|s| - 1]) else s
  }

  /** `s.trim()`. */
  function Trim(s: string): (r: string)
    ensures r == [] || (!IsSpace(r[0]) && !IsSpace(r[|r| - 1]))
    ensures |r| <= |s|
  {
    TrimEnd(TrimStart(s))
  }

  /** `trimStart` drops a prefix of white space. */
  lemma {:induction false} TrimStartDrops(s: string) returns (i: nat)
    ensures i <= |s| && TrimStart(s) == s[i..]
    ensures forall k :: 0 <= k < i ==> IsSpace(s[k])
  {
    if s != [] && IsSpace(s[0]) {
      var i' := TrimStartDrops(s[1..]);
      i := i' + 1;
      assert s[1..][i'..] == s[i..];
      forall k | 0 <= k < i
        ensures IsSpace(s[k])
      {
        if k > 0 { assert s[k] == s[1..][k - 1]; }
      }
    } else {
      i := 0;
    }
  }

  /** `trimEnd` drops a suffix of white space. */
  lemma {:induction false} TrimEndDrops(s: string) returns (j: nat)
    ensures j <= |s| && TrimEnd(s) == s[..j]
    ensures forall k :: j <= k < |s| ==> IsSpace(s[k])
  {
    if s != [] && IsSpace(s[|s| - 1]) {
      var init := s[..|s| - 1];
      j := TrimEndDrops(init);
      assert init[..j] == s[..j];
      forall k | j <= k < |s|
        ensures IsSpace(s[k])
      {
        if k < |s| - 1 { assert s[k] == init[k]; }
      }
    } else {
      j := |s|;
    }
  }

  /** `trim` keeps a slice of the text and drops only white space around
      it. */
  lemma TrimIsSlice(s: string)
    ensures exists i, j ::
      && 0 <= i <= j <= |s| && Trim(s) == s[i..j]
      && forall k :: 0 <= k < i || j <= k < |s| ==> IsSpace(s[k])
  {
    var i := TrimStartDrops(s);
    var t := s[i..];
    var j := TrimEndDrops(t);
    assert Trim(s) == s[i..i + j];
    forall k | 0 <= k < i || i + j <= k < |s|
      ensures IsSpace(s[k])
    {
      if k >= i + j { assert s[k] == t[k - i]; }
    }
  }

  /** A text trims to nothing exactly when it is all white space (the
      blank-name test of the category handler). */
  lemma TrimEmptyIffBlank(s: string)
    ensures Trim(s) == [] <==> forall k :: 0 <= k < |s| ==> IsSpace(s[k])
  {
    var i := TrimStartDrops(s);
    var t := s[i..];
    var j := TrimEndDrops(t);
    if Trim(s) == [] {
      assert j == 0;
      forall k | 0 <= k < |s|
        ensures IsSpace(s[k])
      {
        if k >= i { assert s[k] == t[k - i]; }
      }
    }
  }

  lemma {:induction false} TrimOfUnpadded(s: string)
    requires s != [] && !IsSpace(s[0]) && !IsSpace(s[|s| - 1])
    ensures Trim(s) == s
  {
  }

  predicate IsDigit(c: char) { '0' <= c <= '9' }

  predicate AllDigits(s: string) { forall i :: 0 <= i < |s| ==> IsDigit(s[i]) }

  function DigitValue(c: char): (d: nat)
    requires IsDigit(c)
    ensures d < 10
  {
    (c as int) - ('0' as int)
  }

  function DigitChar(d: nat): (c: char)
    requires d < 10
    ensures IsDigit(c) && DigitValue(c) == d
  {
    ('0' as int + d) as char
  }

  /** The number a string of decimal digits denotes. */
  function DigitsValue(ds: string): nat
    requires AllDigits(ds)
  {
    if ds == [] then 0 else DigitsValue(ds[..|ds| - 1]) * 10 + DigitValue(ds[|ds| - 1])
  }

  function Pow10(n: nat): (p: nat)
    ensures p >= 1
  {
    if n == 0 then 1 else 10 * Pow10(n - 1)
  }

  /** The number of leading characters of `s` that satisfy `IsDigit`. */
  function LeadingDigits(s: string): (n: nat)
    ensures n <= |s| && AllDigits(s[..n])
    ensures n < |s| ==> !IsDigit(s[n])
  {
    if s != [] && IsDigit(s[0]) then
      var n := 1 + LeadingDigits(s[1..]);
      assert s[..n] == [s[0]] + s[1..][..n - 1];
      n
    else 0
  }

  predicate IsHexDigit(c: char) { IsDigit(c) || 'a' <= c <= 'f' || 'A' <= c <= 'F' }

  predicate AllHexDigits(s: string) { forall i :: 0 <= i < |s| ==> IsHexDigit(s[i]) }

  function HexDigitValue(c: char): (d: nat)
    requires IsHexDigit(c)
    ensures d < 16
  {
    if IsDigit(c) then DigitValue(c)
    else if 'a' <= c <= 'f' then (c as int) - ('a' as int) + 10
    else (c as int) - ('A' as int) + 10
  }

  function HexValue(ds: string): nat
    requires AllHexDigits(ds)
  {
    if ds == [] then 0 else HexValue(ds[..|ds| - 1]) * 16 + HexDigitValue(ds[|ds| - 1])
  }

  function LeadingHexDigits(s: string): (n: nat)
    ensures n <= |s| && AllHexDigits(s[..n])
    ensures n < |s| ==> !IsHexDigit(s[n])
  {
    if s != [] && IsHexDigit(s[0]) then
      var n := 1 + LeadingHexDigits(s[1..]);
      assert s[..n] == [s[0]] + s[1..][..n - 1];
      n
    else 0
  }

  /** Truncation toward zero, as `parseInt` applied to a number's string form. */
  function Trunc(x: real): (i: int)
    ensures 0.0 <= x ==> 0 <= i && i as real <= x < i as real + 1.0
    ensures x < 0.0 ==> i <= 0 && i as real - 1.0 < x <= i as real
  {
    if x >= 0.0 then x.Floor else -((-x).Floor)
  }

  /** `parseInt(s)` with no radix: leading white space, an optional sign,
      then either `0x`/`0X` and hexadecimal digits or decimal digits, read
      as far as they go; NaN (here `None`) when no digit is read. */
  function ParseIntString(s: string): (r: Option<int>)
    ensures TrimStart(s) == [] ==> r.None?
    ensures r.Some? && r.value < 0 ==> TrimStart(s)[0] == '-'
  {
    var t := TrimStart(s);
    var negative := t != [] && t[0] == '-';
    var u := if t != [] && (t[0] == '-' || t[0] == '+') then t[1..] else t;
    var magnitude: Option<nat> :=
      if |u| >= 2 && u[0] == '0' && (u[1] == 'x' || u[1] == 'X') then
        var n := LeadingHexDigits(u[2..]);
        if n == 0 then None else Some(HexValue(u[2..][..n]))
      else
        var n := LeadingDigits(u);
        if n == 0 then None else Some(DigitsValue(u[..n]));
    match magnitude
    case None => None
    case Some(m) => var v: int := m; Some(if negative then -v else v)
  }

  /** `parseInt(v)`: the value is first turned into a string. A number's
      string form is read back as its truncation; `undefined`, `null`,
      booleans and objects have string forms without leading digits. */
  function ParseInt(v: Value): (r: Option<int>)
    ensures v.Number? && v.n.Real? ==> r == Some(Trunc(v.n.r))
    ensures v.Undefined? || v.Null? || v.Bool? || v.Object? || v == Number(NaN) ==> r == None
  {
    match v
    case Str(s) => ParseIntString(s)
    case Number(Real(x)) => Some(Trunc(x))
    case _ => None
  }

  /** The value of `intPart.fracPart` written in decimal. */
  function DecimalValue(intPart: string, fracPart: string): real
    requires AllDigits(intPart) && AllDigits(fracPart)
  {
    DigitsValue(intPart) as real + DigitsValue(fracPart) as real / Pow10(|fracPart|) as real
  }

  /** An unsigned decimal literal that makes up the whole of `u`:
      digits, optionally followed by `.` and more digits, with at least one
      digit in all. */
  function UnsignedDecimal(u: string): (r: Option<real>)
    ensures r.Some? ==> r.value >= 0.0
  {
    var n := LeadingDigits(u);
    if n == |u| then
      if n == 0 then None else Some(DigitsValue(u) as real)
    else if u[n] == '.' && AllDigits(u[n + 1..]) && (n > 0 || n + 1 < |u|) then
      Some(DecimalValue(u[..n], u[n + 1..]))
    else None
  }

  /** The number `Number(s)` gives for a string: white space around it is
      ignored, an empty or all-blank string is 0, and otherwise the whole
      string must be an optionally signed decimal literal. */
  function StringToNumber(s: string): (r: Num)
    ensures Trim(s) == "" ==> r == Real(0.0)
  {
    var t := Trim(s);
    if t == "" then Real(0.0)
    else
      var negative := t[0] == '-';
      var u := if t[0] == '-' || t[0] == '+' then t[1..] else t;
      match UnsignedDecimal(u)
      case None => NaN
      case Some(x) => Real(if negative then -x else x)
  }

  /** `parseFloat(s)`: leading white space, an optional sign, then the
      longest decimal prefix (digits, optionally `.` and digits, at least one
      digit in all); NaN when there is none. Trailing text is ignored. */
  function ParseFloat(s: string): (r: Num)
    ensures TrimStart(s) == [] ==> r.NaN?
    ensures r.Real? && r.r < 0.0 ==> TrimStart(s)[0] == '-'
  {
    var t := TrimStart(s);
    var negative := t != [] && t[0] == '-';
    var u := if t != [] && (t[0] == '-' || t[0] == '+') then t[1..] else t;
    var n := LeadingDigits(u);
    var m := if n < |u| && u[n] == '.' then LeadingDigits(u[n + 1..]) else 0;
    if n == 0 && m == 0 then NaN
    else
      var x := DecimalValue(u[..n], if m == 0 then "" else u[n + 1..][..m]);
      Real(if negative then -x else x)
  }

  /** The decimal digits of a natural number, without leading zeros. */
  function NatToString(n: nat): (s: string)
    ensures s != [] && AllDigits(s)
    ensures |s| > 1 ==> s[0] != '0'
  {
    if n < 10 then [DigitChar(n)] else NatToString(n / 10) + [DigitChar(n % 10)]
  }

  lemma {:induction false} NatToStringValue(n: nat)
    ensures DigitsValue(NatToString(n)) == n
  {
    if n >= 10 {
      NatToStringValue(n / 10);
      var s := NatToString(n);
      assert s[..|s| - 1] == NatToString(n / 10);
    }
  }

  /** Every string of digits denotes the value it is read as: the parse of
      `parseInt` agrees with `Number` on a plain natural number. */
  lemma {:induction false} NatToStringNumber(n: nat)
    ensures StringToNumber(NatToString(n)) == Real(n as real)
    ensures ParseIntString(NatToString(n)) == Some(n)
  {
    var s := NatToString(n);
    NatToStringValue(n);
    DigitsNumber(s);
    DigitsParseInt(s);
  }

  /** `Number` reads a string of digits as its value. */
  lemma DigitsNumber(s: string)
    requires s != [] && AllDigits(s)
    ensures StringToNumber(s) == Real(DigitsValue(s) as real)
  {
    AllDigitsLeading(s);
    TrimOfUnpadded(s);
  }

  /** `parseInt` reads a string of digits as its value, leading zeros
      included. */
  lemma DigitsParseInt(s: string)
    requires s != [] && AllDigits(s)
    ensures ParseIntString(s) == Some(DigitsValue(s))
  {
    AllDigitsLeading(s);
    assert s[..|s|] == s;
    assert TrimStart(s) == s;
  }

  lemma {:induction false} AllDigitsLeading(s: string)
    requires AllDigits(s)
    ensures LeadingDigits(s) == |s|
  {
    if s != [] {
      AllDigitsLeading(s[1..]);
    }
  }

  /** The leading digits of `a + b` are those of `a` when `a` is all digits
      and `b` does not start with one. */
  lemma {:induction false} LeadingDigitsConcat(a: string, b: string)
    requires AllDigits(a) && (b == [] || !IsDigit(b[0]))
    ensures LeadingDigits(a + b) == |a|
  {
    if a != [] {
      assert (a + b)[1..] == a[1..] + b;
      LeadingDigitsConcat(a[1..], b);
    }
  }

  /** `Number` reads a decimal literal that starts and ends with a digit, or
      that literal with a minus sign in front, as its value. */
  lemma {:induction false} NumberOfDecimal(t: string, x: real)
    requires t != [] && IsDigit(t[0]) && IsDigit(t[|t| - 1]) && UnsignedDecimal(t) == Some(x)
    ensures StringToNumber(t) == Real(x)
    ensures StringToNumber("-" + t) == Real(-x)
  {
    TrimOfUnpadded(t);
    var m := "-" + t;
    TrimOfUnpadded(m);
    assert m[1..] == t;
  }

  /** Two decimal digits read as the number they write. */
  lemma {:induction false} TwoDigitsValue(a: char, b: char)
    requires IsDigit(a) && IsDigit(b)
    ensures DigitsValue([a, b]) == DigitValue(a) * 10 + DigitValue(b)
  {
    assert [a, b][..1] == [a];
    assert [a][..0] == [];
    assert DigitsValue([a]) == DigitValue(a);
  }
}
