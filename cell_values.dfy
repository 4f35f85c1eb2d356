/** Worksheet cell values as the spreadsheet reader hands them to the loader, and the
    two Python built-ins the loader applies to them: `str()` (with `str.strip()`)
    and `float()`. */
module CellValues {

  /** One cell value. The reader yields None for an empty cell, a str for text,
      an int or a float for a number, a bool for a boolean and a datetime for a date. */
  datatype Cell =
    | Empty
    | Text(s: string)
    | Int(i: int)
      /** `shown` is Python's `str()` of the float, which this model takes as given. */
    | Float(x: real, shown: string)
    | Bool(b: bool)
      /** A date or time cell; `shown` is its `str()`. */
    | Date(shown: string)

  /** Python's `str.isspace()`: the characters `str.strip()` removes. */
  predicate IsSpace(c: char)
  {
    || c == ' '
    || '\t' <= c <= '\r'
    || '\U{1C}' <= c <= '\U{1F}'
    || c == '\U{85}' || c == '\U{A0}' || c == '\U{1680}'
    || '\U{2000}' <= c <= '\U{200A}'
    || c == '\U{2028}' || c == '\U{2029}' || c == '\U{202F}' || c == '\U{205F}'
    || c == '\U{3000}'
  }

  /** The whitespace Python's `float()` ignores around a number: that of `str.isspace()`
      except the separator controls U+001C to U+001F, which make `float()` raise. */
  predicate IsFloatSpace(c: char)
  {
    IsSpace(c) && !('\U{1C}' <= c <= '\U{1F}')
  }

  /** Which whitespace a strip removes: that of `str.strip()` (IsSpace), or the one
      `float()` ignores around a number (IsFloatSpace). */
  datatype Blanks = StrBlanks | FloatBlanks

  predicate IsBlank(b: Blanks, c: char)
  {
    match b
    case StrBlanks => IsSpace(c)
    case FloatBlanks => IsFloatSpace(c)
  }

  /** `s` with its leading `sp` blanks removed. */
  function TrimStart(s: string, sp: Blanks): string
  {
    if s != [] && IsBlank(sp, s[0]) then TrimStart(s[1..], sp) else s
  }

  /** `s` with its trailing `sp` blanks removed. */
  function TrimEnd(s: string, sp: Blanks): string
  {
    if s != [] && IsBlank(sp, s[|s| - 1]) then TrimEnd(s[..|s| - 1], sp) else s
  }

  /** TrimStart removes a prefix of `sp` blanks, and only that. */
  lemma {:induction false} TrimStartSpec(s: string, sp: Blanks)
    ensures var r := TrimStart(s, sp);
            |r| <= |s| && r == s[|s| - |r|..]
            && (forall k :: 0 <= k < |s| - |r| ==> IsBlank(sp, s[k]))
            && (r != [] ==> !IsBlank(sp, r[0]))
  {
    if s != [] && IsBlank(sp, s[0]) {
      var r := TrimStart(s[1..], sp);
      TrimStartSpec(s[1..], sp);
      assert TrimStart(s, sp) == r;
      assert s[1..][|s| - 1 - |r|..] == s[|s| - |r|..];
      forall k | 1 <= k < |s| - |r| ensures IsBlank(sp, s[k]) { assert s[k] == s[1..][k - 1]; }
    }
  }

  /** TrimEnd removes a suffix of `sp` blanks, and only that. */
  lemma {:induction false} TrimEndSpec(s: string, sp: Blanks)
    ensures var r := TrimEnd(s, sp);
            |r| <= |s| && r == s[..|r|]
            && (forall k :: |r| <= k < |s| ==> IsBlank(sp, s[k]))
            && (r != [] ==> !IsBlank(sp, r[|r| - 1]))
  {
    if s != [] && IsBlank(sp, s[|s| - 1]) {
      TrimEndSpec(s[..|s| - 1], sp);
    }
  }

  /** `s` with the `sp` blanks removed from both ends: Python's `s.strip()` for
      StrBlanks, the trimming inside `float()` for FloatBlanks. */
  function Strip(s: string, sp: Blanks): string
  {
    TrimEnd(TrimStart(s, sp), sp)
  }

  /** Strip returns the longest slice of `s` that neither starts nor ends with an `sp`
      blank, everything cut off on either side being `sp` blanks. */
  lemma StripSpec(s: string, sp: Blanks)
    ensures var r := Strip(s, sp);
            exists i, j :: 0 <= i <= j <= |s| && r == s[i..j]
                        && (forall k :: 0 <= k < i ==> IsBlank(sp, s[k]))
                        && (forall k :: j <= k < |s| ==> IsBlank(sp, s[k]))
    ensures var r := Strip(s, sp); r != [] ==> !IsBlank(sp, r[0]) && !IsBlank(sp, r[|r| - 1])
  {
    var t := TrimStart(s, sp);
    var r := TrimEnd(t, sp);
    TrimStartSpec(s, sp);
    TrimEndSpec(t, sp);
    var i, j := |s| - |t|, |s| - |t| + |r|;
    assert r == s[i..j];
    assert forall k :: j <= k < |s| ==> IsBlank(sp, s[k]) by {
      forall k | j <= k < |s| ensures IsBlank(sp, s[k]) { assert s[k] == t[k - i]; }
    }
  }

  /** A string that neither starts nor ends with an `sp` blank is its own strip. */
  lemma StripUnpadded(s: string, sp: Blanks)
    requires s == [] || (!IsBlank(sp, s[0]) && !IsBlank(sp, s[|s| - 1]))
    ensures Strip(s, sp) == s
  {
  }

  /** Stripping padding made of `sp` blanks recovers the padded text. */
  lemma {:induction false} StripPadded(pre: string, s: string, post: string, sp: Blanks)
    requires forall k :: 0 <= k < |pre| ==> IsBlank(sp, pre[k])
    requires forall k :: 0 <= k < |post| ==> IsBlank(sp, post[k])
    requires s != [] && !IsBlank(sp, s[0]) && !IsBlank(sp, s[|s| - 1])
    ensures Strip(pre + s + post, sp) == s
  {
    TrimStartPadded(pre, s + post, sp);
    assert pre + s + post == pre + (s + post);
    TrimEndPadded(s, post, sp);
  }

  lemma {:induction false} TrimStartPadded(pre: string, s: string, sp: Blanks)
    requires forall k :: 0 <= k < |pre| ==> IsBlank(sp, pre[k])
    requires s != [] && !IsBlank(sp, s[0])
    ensures TrimStart(pre + s, sp) == s
  {
    if pre != [] {
      assert (pre + s)[1..] == pre[1..] + s;
      TrimStartPadded(pre[1..], s, sp);
    }
  }

  lemma {:induction false} TrimEndPadded(s: string, post: string, sp: Blanks)
    requires forall k :: 0 <= k < |post| ==> IsBlank(sp, post[k])
    requires s != [] && !IsBlank(sp, s[|s| - 1])
    ensures TrimEnd(s + post, sp) == s
  {
    if post != [] {
      assert (s + post)[..|s + post| - 1] == s + post[..|post| - 1];
      TrimEndPadded(s, post[..|post| - 1], sp);
    }
  }

  // ---------------------------------------------------------------------------
  // Decimal digits

  predicate IsDigit(c: char) { '0' <= c <= '9' }

  predicate AllDigits(s: string) { forall k :: 0 <= k < |s| ==> IsDigit(s[k]) }

  function DigitValue(c: char): nat
    requires IsDigit(c)
  {
    c as int - '0' as int
  }

  function DigitChar(d: nat): (c: char)
    requires d < 10
    ensures IsDigit(c) && DigitValue(c) == d
  {
    ('0' as int + d) as char
  }

  /** The number a string of decimal digits denotes, most significant digit first. */
  function DigitsValue(s: string): nat
    requires AllDigits(s)
  {
    if s == [] then 0 else DigitsValue(s[..|s| - 1]) * 10 + DigitValue(s[|s| - 1])
  }

  /** Python's `str()` of a non-negative int. */
  function FormatNat(n: nat): string
  {
    if n < 10 then [DigitChar(n)] else FormatNat(n / 10) + [DigitChar(n % 10)]
  }

  /** FormatNat gives the decimal digits of `n` without leading zeros. */
  lemma {:induction false} FormatNatSpec(n: nat)
    ensures var r := FormatNat(n);
            r != [] && AllDigits(r) && (r[0] == '0' ==> n == 0 && |r| == 1)
            && DigitsValue(r) == n
  {
    if n >= 10 {
      FormatNatSpec(n / 10);
      var r := FormatNat(n);
      assert r[..|r| - 1] == FormatNat(n / 10);
    }
  }

  /** Python's `str()` of an int. */
  function FormatInt(i: int): string
  {
    if i < 0 then "-" + FormatNat(-i) else FormatNat(i)
  }

  /** FormatInt gives a minus sign exactly for negative numbers, then the digits of
      the magnitude; the text has no whitespace at either end. */
  lemma FormatIntSpec(i: int)
    ensures var r := FormatInt(i);
            r != [] && !IsSpace(r[0]) && !IsSpace(r[|r| - 1])
            && (i < 0 <==> r[0] == '-')
            && (i >= 0 ==> AllDigits(r) && DigitsValue(r) == i)
            && (i < 0 ==> AllDigits(r[1..]) && DigitsValue(r[1..]) == -i)
  {
    var r := FormatInt(i);
    if i < 0 {
      var d := FormatNat(-i);
      FormatNatSpec(-i);
      assert r == "-" + d;
      assert r[1..] == d;
      assert r[|r| - 1] == d[|d| - 1];
      assert IsDigit(d[|d| - 1]);
    } else {
      FormatNatSpec(i);
      assert IsDigit(r[0]) && IsDigit(r[|r| - 1]);
    }
  }

  /** Python's `str()` of a cell value. */
  function Str(c: Cell): string
  {
    match c
    case Empty => "None"
    case Text(s) => s
    case Int(i) => FormatInt(i)
    case Float(_, shown) => shown
    case Bool(b) => if b then "True" else "False"
    case Date(shown) => shown
  }

  // ---------------------------------------------------------------------------
  // Python's float()

  datatype Option<T> = None | Some(value: T)

  /** The index of the first character of `s` satisfying `p`, or `|s|` if there is none. */
  function IndexOf(s: string, p: char -> bool): (k: nat)
    ensures k <= |s|
  {
    if s == [] then 0
    else if p(s[0]) then 0
    else 1 + IndexOf(s[1..], p)
  }

  /** IndexOf finds the first match: `p` fails before it and holds at it. */
  lemma {:induction false} IndexOfSpec(s: string, p: char -> bool)
    ensures var k := IndexOf(s, p);
            (k < |s| ==> p(s[k])) && forall j :: 0 <= j < k ==> !p(s[j])
  {
    if s != [] && !p(s[0]) {
      IndexOfSpec(s[1..], p);
    }
  }

  /** Without a match, IndexOf runs to the end. */
  lemma {:induction false} IndexOfNone(s: string, p: char -> bool)
    requires forall j :: 0 <= j < |s| ==> !p(s[j])
    ensures IndexOf(s, p) == |s|
  {
    if s != [] {
      assert !p(s[0]);
      assert forall j :: 0 <= j < |s| - 1 ==> s[1..][j] == s[j + 1];
      IndexOfNone(s[1..], p);
    }
  }

  predicate IsExponentMark(c: char) { c == 'e' || c == 'E' }

  predicate IsPoint(c: char) { c == '.' }

  /** Ten to the power `n`. */
  function Pow10(n: nat): (p: nat)
    ensures p >= 1
  {
    if n == 0 then 1 else Pow10(n - 1) * 10
  }

  /** `digits`, `digits.`, `digits.digits` or `.digits`, without sign: the whole digits
      plus the digits after the point over their power of ten. */
  function ParseMantissa(m: string): Option<real>
  {
    var d := IndexOf(m, IsPoint);
    if d < |m| then Decimal(m[..d], m[d + 1..]) else Decimal(m, [])
  }

  /** The mantissa with whole digits `whole` and the digits `frac` after the point. */
  function Decimal(whole: string, frac: string): Option<real>
  {
    if AllDigits(whole) && AllDigits(frac) && |whole| + |frac| > 0
    then Some(DigitsValue(whole) as real + DigitsValue(frac) as real / Pow10(|frac|) as real)
    else None
  }

  /** An optional sign, `+` or `-`, and what follows it. */
  function SplitSign(t: string): (bool, string)
  {
    if t != [] && (t[0] == '-' || t[0] == '+') then (t[0] == '-', t[1..]) else (false, t)
  }

  /** An optionally signed, non-empty string of digits. */
  function ParseExponent(e: string): Option<int>
  {
    var (negative, digits) := SplitSign(e);
    if digits != [] && AllDigits(digits)
    then Some(if negative then -(DigitsValue(digits) as int) else DigitsValue(digits))
    else None
  }

  /** `v` times ten to the power `e`. */
  function Scale(v: real, e: int): real
    decreases if e < 0 then -e else e
  {
    if e > 0 then Scale(v, e - 1) * 10.0
    else if e < 0 then Scale(v, e + 1) / 10.0
    else v
  }

  /** A float literal without sign: a mantissa with an optional exponent part. */
  function ParseUnsigned(t: string): Option<real>
  {
    var k := IndexOf(t, IsExponentMark);
    match ParseMantissa(t[..k])
    case None => None
    case Some(v) =>
      if k == |t| then Some(v)
      else match ParseExponent(t[k + 1..])
        case None => None
        case Some(e) => Some(Scale(v, e))
  }

  /** Python's `float()` of a string: surrounding whitespace (IsFloatSpace) is ignored, then an
      optional sign and a decimal literal; anything else is a ValueError (None). */
  function ParseFloat(s: string): Option<real>
  {
    var (negative, body) := SplitSign(Strip(s, FloatBlanks));
    match ParseUnsigned(body)
    case None => None
    case Some(v) => Some(if negative then -v else v)
  }

  /** Python's `float()` of a cell value; None where Python raises
      (TypeError for None and dates, ValueError for text that is not a number). */
  function ToFloat(c: Cell): Option<real>
  {
    match c
    case Empty => None
    case Text(s) => ParseFloat(s)
    case Int(i) => Some(i as real)
    case Float(x, _) => Some(x)
    case Bool(b) => Some(if b then 1.0 else 0.0)
    case Date(_) => None
  }

  /** A string of digits parses as the number it denotes. */
  lemma DigitsParse(s: string)
    requires s != [] && AllDigits(s)
    ensures ParseUnsigned(s) == Some(DigitsValue(s) as real)
  {
    IndexOfNone(s, IsExponentMark);
    assert s[..|s|] == s;
    MantissaOfDigits(s);
  }

  lemma MantissaOfDigits(s: string)
    requires s != [] && AllDigits(s)
    ensures ParseMantissa(s) == Some(DigitsValue(s) as real)
  {
    IndexOfNone(s, IsPoint);
    assert s[..|s|] == s;
    assert Pow10(0) == 1;
  }

  /** Round trip: `float(str(i)) == i`, even with whitespace around the text,
      so a credit typed as the text " 4 " converts like the number 4. */
  lemma FloatOfIntText(pre: string, i: int, post: string)
    requires forall k :: 0 <= k < |pre| ==> IsFloatSpace(pre[k])
    requires forall k :: 0 <= k < |post| ==> IsFloatSpace(post[k])
    ensures ToFloat(Text(pre + Str(Int(i)) + post)) == ToFloat(Int(i))
  {
    var r := FormatInt(i);
    FormatIntSpec(i);
    StripPadded(pre, r, post, FloatBlanks);
    StripUnpadded(r, FloatBlanks);
    assert ParseFloat(pre + r + post) == ParseFloat(r);
    FloatOfFormatInt(i);
  }

  lemma FloatOfFormatInt(i: int)
    ensures ParseFloat(FormatInt(i)) == Some(i as real)
  {
    var r := FormatInt(i);
    FormatIntSpec(i);
    StripUnpadded(r, FloatBlanks);
    if i < 0 {
      DigitsParse(r[1..]);
    } else {
      DigitsParse(r);
    }
  }

  // ---------------------------------------------------------------------------
  // Decimal points and exponents

  /** The first match of `p` is at `k` when `p` fails before `k` and holds at `k`. */
  lemma IndexOfAt(s: string, p: char -> bool, k: nat)
    requires k < |s| && p(s[k]) && forall j :: 0 <= j < k ==> !p(s[j])
    ensures IndexOf(s, p) == k
  {
    IndexOfSpec(s, p);
  }

  /** Scaling by a non-negative exponent multiplies by that power of ten. */
  lemma {:induction false} ScaleUp(v: real, e: nat)
    ensures Scale(v, e) == v * Pow10(e) as real
  {
    if e > 0 {
      ScaleUp(v, e - 1);
      assert Pow10(e) as real == Pow10(e - 1) as real * 10.0;
    }
  }

  /** Scaling by a negative exponent divides by that power of ten. */
  lemma {:induction false} ScaleDown(v: real, e: nat)
    ensures Scale(v, -(e as int)) == v / Pow10(e) as real
  {
    if e > 0 {
      ScaleDown(v, e - 1);
      var p := Pow10(e - 1) as real;
      assert Pow10(e) as real == p * 10.0;
      DivideTwice(v, p, 10.0);
    }
  }

  lemma DivideTwice(v: real, a: real, b: real)
    requires a > 0.0 && b > 0.0
    ensures v / a / b == v / (a * b)
  {
    var q := v / a / b;
    assert q * b == v / a;
    assert q * b * a == v;
    assert q * (a * b) == v;
  }

  /** In `w.f`, the first decimal point is the one after the whole digits. */
  lemma PointAfterWhole(w: string, f: string)
    requires AllDigits(w)
    ensures IndexOf(w + "." + f, IsPoint) == |w|
  {
    var t := w + "." + f;
    forall j | 0 <= j < |w| ensures !IsPoint(t[j]) {
      assert t[j] == w[j];
    }
    IndexOfAt(t, IsPoint, |w|);
  }

  /** A mantissa whose first point follows the whole digits splits there. */
  lemma MantissaAtPoint(w: string, f: string, t: string)
    requires AllDigits(w) && AllDigits(f) && |w| + |f| > 0
    requires t == w + "." + f && IndexOf(t, IsPoint) == |w|
    ensures ParseMantissa(t) == Some(DigitsValue(w) as real + DigitsValue(f) as real / Pow10(|f|) as real)
  {
    assert t[..|w|] == w;
    assert t[|w| + 1..] == f;
    assert ParseMantissa(t) == Decimal(w, f);
  }

  /** `w.f`, with digits on at least one side of the point and no exponent, parses as
      the whole part plus the fraction. */
  lemma DecimalParse(w: string, f: string)
    requires AllDigits(w) && AllDigits(f) && |w| + |f| > 0
    ensures ParseUnsigned(w + "." + f)
         == Some(DigitsValue(w) as real + DigitsValue(f) as real / Pow10(|f|) as real)
  {
    var t := w + "." + f;
    forall j | 0 <= j < |t| ensures !IsExponentMark(t[j]) {
      if j < |w| { assert t[j] == w[j]; }
      else if j > |w| { assert t[j] == f[j - |w| - 1]; }
    }
    IndexOfNone(t, IsExponentMark);
    PointAfterWhole(w, f);
    MantissaAtPoint(w, f, t);
    UnsignedWithoutExponent(t);
  }

  /** Text without an exponent mark is parsed as a mantissa alone. */
  lemma UnsignedWithoutExponent(t: string)
    requires IndexOf(t, IsExponentMark) == |t|
    ensures ParseUnsigned(t) == ParseMantissa(t)
  {
    assert t[..|t|] == t;
  }

  /** In `m` followed by an exponent mark and `x`, the first exponent mark is the one
      after `m` when `m` has none. */
  lemma MarkAfterMantissa(m: string, mark: char, x: string)
    requires IsExponentMark(mark) && forall j :: 0 <= j < |m| ==> !IsExponentMark(m[j])
    ensures IndexOf(m + [mark] + x, IsExponentMark) == |m|
  {
    var t := m + [mark] + x;
    forall j | 0 <= j < |m| ensures !IsExponentMark(t[j]) {
      assert t[j] == m[j];
    }
    IndexOfAt(t, IsExponentMark, |m|);
  }

  /** Text whose first exponent mark follows the mantissa scales the mantissa. */
  lemma UnsignedAtMark(m: string, mark: char, x: string, t: string)
    requires t == m + [mark] + x && IndexOf(t, IsExponentMark) == |m|
    requires ParseMantissa(m).Some? && ParseExponent(x).Some?
    ensures ParseUnsigned(t) == Some(Scale(ParseMantissa(m).value, ParseExponent(x).value))
  {
    assert t[..|m|] == m;
    assert t[|m| + 1..] == x;
  }

  /** A mantissa followed by `e` or `E` and an exponent parses as the mantissa scaled
      by that power of ten (see ScaleUp and ScaleDown for what Scale computes). */
  lemma ExponentParse(m: string, mark: char, x: string, v: real, e: int)
    requires IsExponentMark(mark) && forall j :: 0 <= j < |m| ==> !IsExponentMark(m[j])
    requires ParseMantissa(m) == Some(v) && ParseExponent(x) == Some(e)
    ensures ParseUnsigned(m + [mark] + x) == Some(Scale(v, e))
  {
    MarkAfterMantissa(m, mark, x);
    UnsignedAtMark(m, mark, x, m + [mark] + x);
  }
}
