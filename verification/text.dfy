/**
 * The string-to-number conversions style values go through: `str.strip()`,
 * `int(s)` and `float(s)` on decimal text. Exponents, `inf` and `nan`,
 * which Python's `float` also accepts, are not modelled.
 */
module Text {
  import opened Wrappers

  /** The characters `str.strip()` removes (ASCII whitespace). */
  predicate IsSpace(c: char) {
    c == ' ' || c == '\t' || c == '\n' || c == '\r' || c as int == 11 || c as int == 12
  }

  /** `s.strip()`: `s` without leading and trailing whitespace. */
  function Strip(s: string): (r: string)
    ensures |r| <= |s|
    ensures |r| > 0 ==> !IsSpace(r[0]) && !IsSpace(r[|r| - 1])
  {
    if |s| > 0 && IsSpace(s[0]) then Strip(s[1..])
    else if |s| > 0 && IsSpace(s[|s| - 1]) then Strip(s[..|s| - 1])
    else s
  }

  /** Text with no whitespace at either end is its own strip. */
  lemma StripTrimmed(s: string)
    requires |s| == 0 || (!IsSpace(s[0]) && !IsSpace(s[|s| - 1]))
    ensures Strip(s) == s
  {
  }

  /** Leading whitespace in front of trimmed text is stripped away. */
  lemma {:induction false} StripPadded(pad: string, u: string)
    requires forall i :: 0 <= i < |pad| ==> IsSpace(pad[i])
    requires |u| > 0 && !IsSpace(u[0]) && !IsSpace(u[|u| - 1])
    ensures Strip(pad + u) == u
  {
    if |pad| == 0 {
      assert pad + u == u;
      StripTrimmed(u);
    } else {
      assert (pad + u)[1..] == pad[1..] + u;
      StripPadded(pad[1..], u);
    }
  }

  predicate IsDigit(c: char) {
    '0' <= c <= '9'
  }

  predicate AllDigits(s: string) {
    forall i :: 0 <= i < |s| ==> IsDigit(s[i])
  }

  /** The value of a string of decimal digits, most significant first. */
  function DigitsValue(s: string): (n: nat)
    requires AllDigits(s)
    ensures |s| == 0 ==> n == 0
  {
    if |s| == 0 then 0
    else 10 * DigitsValue(s[..|s| - 1]) + (s[|s| - 1] as int - '0' as int)
  }

  /** The decimal digits of `n`, without leading zeros (`"0"` for zero). */
  function ShowNat(n: nat): (s: string)
    ensures |s| > 0 && AllDigits(s)
  {
    if n < 10 then [('0' as int + n) as char]
    else ShowNat(n / 10) + [('0' as int + n % 10) as char]
  }

  /** `str(n)` for an integer. */
  function ShowInt(n: int): (s: string)
    ensures |s| > 0 && !IsSpace(s[0]) && !IsSpace(s[|s| - 1])
  {
    if n < 0 then "-" + ShowNat(-n) else ShowNat(n)
  }

  /** Reading back the digits of `n` gives `n`. */
  lemma {:induction false} DigitsOfShowNat(n: nat)
    ensures DigitsValue(ShowNat(n)) == n
  {
    if n >= 10 {
      DigitsOfShowNat(n / 10);
      var s := ShowNat(n);
      assert s[..|s| - 1] == ShowNat(n / 10);
    }
  }

  /** Splits an optional leading sign off `t`: the sign factor and the rest. */
  function Sign(t: string): (r: (int, string))
    ensures r.0 == 1 || r.0 == -1
    ensures |r.1| <= |t|
    ensures |t| > 0 && t[0] == '-' ==> r == (-1, t[1..])
    ensures |t| > 0 && t[0] == '+' ==> r == (1, t[1..])
    ensures (|t| == 0 || (t[0] != '-' && t[0] != '+')) ==> r == (1, t)
  {
    if |t| > 0 && t[0] == '-' then (-1, t[1..])
    else if |t| > 0 && t[0] == '+' then (1, t[1..])
    else (1, t)
  }

  /** `int(s)`: an optionally signed run of digits, whitespace around it allowed; `None` is Python's `ValueError`. */
  function ParseInt(s: string): (r: Option<int>)
    ensures r.Some? ==> |Strip(s)| > 0
  {
    var sg := Sign(Strip(s));
    if |sg.1| > 0 && AllDigits(sg.1) then Some(sg.0 * DigitsValue(sg.1)) else None
  }

  /** `int(str(n)) == n`. */
  lemma ParseIntShow(n: int)
    ensures ParseInt(ShowInt(n)) == Some(n)
  {
    var m: nat := if n < 0 then -n else n;
    ShowSign(n);
    DigitsOfShowNat(m);
  }

  /** `str(n)` is the sign of `n` followed by the digits of its magnitude. */
  lemma ShowSign(n: int)
    ensures var m: nat := if n < 0 then -n else n;
            Strip(ShowInt(n)) == ShowInt(n) && Sign(ShowInt(n)) == (if n < 0 then -1 else 1, ShowNat(m))
  {
    var s := ShowInt(n);
    StripTrimmed(s);
    var m: nat := if n < 0 then -n else n;
    var u := ShowNat(m);
    if n < 0 {
      assert s[0] == '-' && s[1..] == u;
    } else {
      assert IsDigit(u[0]);
    }
  }

  /** `10 ** k` as a real. */
  function Pow10(k: nat): (p: real)
    ensures p >= 1.0
  {
    if k == 0 then 1.0 else 10.0 * Pow10(k - 1)
  }

  /** Index of the first `'.'` in `s`, or `|s|` when there is none. */
  function DotIndex(s: string): (i: nat)
    ensures i <= |s|
    ensures forall j :: 0 <= j < i ==> s[j] != '.'
    ensures i < |s| ==> s[i] == '.'
  {
    if |s| == 0 then 0
    else if s[0] == '.' then 0
    else 1 + DotIndex(s[1..])
  }

  /** The value of the digits after a decimal point. */
  function Fraction(b: string): (f: real)
    requires AllDigits(b)
    ensures f >= 0.0
    ensures |b| == 0 ==> f == 0.0
  {
    if |b| == 0 then 0.0 else DigitsValue(b) as real / Pow10(|b|)
  }

  /**
   * An unsigned decimal: digits, optionally one `'.'` and more digits, with
   * at least one digit in all.
   */
  function ParseUnsigned(u: string): (r: Option<real>)
    ensures r.Some? ==> r.value >= 0.0
  {
    var i := DotIndex(u);
    var a := u[..i];
    var b := if i < |u| then u[i + 1..] else [];
    if |a| + |b| > 0 && AllDigits(a) && AllDigits(b) then
      Some(DigitsValue(a) as real + Fraction(b))
    else None
  }

  /** `float(s)` on decimal text; `None` is Python's `ValueError`. */
  function ParseFloat(s: string): (r: Option<real>)
    ensures r.Some? ==> |Strip(s)| > 0
  {
    var sg := Sign(Strip(s));
    match ParseUnsigned(sg.1)
    case None => None
    case Some(v) => Some(sg.0 as real * v)
  }

  /** A plain run of digits reads as the integer it spells. */
  lemma ParseUnsignedDigits(u: string)
    requires |u| > 0 && AllDigits(u)
    ensures ParseUnsigned(u) == Some(DigitsValue(u) as real)
  {
    assert DotIndex(u) == |u| by {
      assert forall j :: 0 <= j < |u| ==> u[j] != '.';
    }
    assert u[..|u|] == u;
  }

  /** `float(s)` is the sign times the unsigned part. */
  lemma FloatFromSign(s: string, c: int, u: string, v: real)
    requires Sign(Strip(s)) == (c, u) && ParseUnsigned(u) == Some(v)
    ensures ParseFloat(s) == Some(c as real * v)
  {
    var sg := Sign(Strip(s));
    assert ParseUnsigned(sg.1) == Some(v);
  }

  /** `float(str(n)) == n`. */
  lemma ParseFloatShow(n: int)
    ensures ParseFloat(ShowInt(n)) == Some(n as real)
  {
    var m: nat := if n < 0 then -n else n;
    var c := if n < 0 then -1 else 1;
    ShowSign(n);
    DigitsOfShowNat(m);
    ParseUnsignedDigits(ShowNat(m));
    FloatFromSign(ShowInt(n), c, ShowNat(m), m as real);
    assert c as real * m as real == n as real;
  }
}
