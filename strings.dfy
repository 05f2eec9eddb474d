/** The text primitives the app leans on: SQLite's ordering of TEXT values,
    Kotlin's `Char.isDigit`, `String.toIntOrNull`, `Int.toString`,
    `String.isBlank`, and the `%0Nd` conversion of `String.format`. */
module Strings {
  import opened Wrappers
  import opened Int32

  // ---------------------------------------------------------------------
  // Text order (SQLite's BINARY collation, seen on code points)
  // ---------------------------------------------------------------------

  /** `a` sorts at or before `b`: the first differing character decides,
      and a proper prefix sorts first. */
  predicate TextLe(a: string, b: string)
    ensures a <= b ==> TextLe(a, b)
    decreases |a|
  {
    if a == [] then true
    else if b == [] then false
    else if a[0] != b[0] then a[0] < b[0]
    else TextLe(a[1..], b[1..])
  }

  /** Past a common part of length `k`, the first differing character decides. */
  lemma {:induction false} TextLeFirstDifference(a: string, b: string, k: nat)
    requires k < |a| && k < |b| && a[..k] == b[..k] && a[k] != b[k]
    ensures TextLe(a, b) <==> a[k] < b[k]
    decreases k
  {
    if k > 0 {
      assert a[0] == a[..k][0] && b[0] == b[..k][0];
      assert a[1..][..k - 1] == a[..k][1..] && b[1..][..k - 1] == b[..k][1..];
      TextLeFirstDifference(a[1..], b[1..], k - 1);
    }
  }

  /** The empty text sorts before every text. */
  lemma EmptyTextFirst(s: string)
    ensures TextLe("", s)
  {
  }

  lemma {:induction false} TextLeTotal(a: string, b: string)
    ensures TextLe(a, b) || TextLe(b, a)
    decreases |a|
  {
    if a != [] && b != [] && a[0] == b[0] {
      TextLeTotal(a[1..], b[1..]);
    }
  }

  lemma {:induction false} TextLeTransitive(a: string, b: string, c: string)
    requires TextLe(a, b) && TextLe(b, c)
    ensures TextLe(a, c)
    decreases |a|
  {
    if a != [] && a[0] == b[0] && b[0] == c[0] {
      TextLeTransitive(a[1..], b[1..], c[1..]);
    }
  }

  lemma {:induction false} TextLeAntisymmetric(a: string, b: string)
    requires TextLe(a, b) && TextLe(b, a)
    ensures a == b
    decreases |a|
  {
    if a != [] {
      TextLeAntisymmetric(a[1..], b[1..]);
      assert a == [a[0]] + a[1..] && b == [b[0]] + b[1..];
    }
  }

  /** Comparing two texts that start with parts of the same length: the
      first parts decide unless they are equal. */
  lemma {:induction false} TextLeConcat(x: string, u: string, y: string, v: string)
    requires |x| == |y|
    ensures TextLe(x + u, y + v) == if x == y then TextLe(u, v) else TextLe(x, y)
    decreases |x|
  {
    if x == [] {
      assert x + u == u && y + v == v;
    } else {
      assert (x + u)[0] == x[0] && (y + v)[0] == y[0];
      assert (x + u)[1..] == x[1..] + u && (y + v)[1..] == y[1..] + v;
      TextLeConcat(x[1..], u, y[1..], v);
      if x[0] == y[0] {
        assert x == y <==> x[1..] == y[1..] by {
          assert x == [x[0]] + x[1..] && y == [y[0]] + y[1..];
        }
      }
    }
  }

  // ---------------------------------------------------------------------
  // Decimal digits
  // ---------------------------------------------------------------------

  /** `Char.isDigit`, restricted to the ASCII digits. */
  predicate IsDigit(c: char) {
    '0' <= c <= '9'
  }

  predicate AllDigits(s: string) {
    forall i :: 0 <= i < |s| ==> IsDigit(s[i])
  }

  function DigitChar(d: nat): (c: char)
    requires d < 10
  {
    ('0' as int + d) as char
  }

  /** The number a string of decimal digits denotes. */
  function DigitsValue(s: string): nat
    requires AllDigits(s)
  {
    if s == [] then 0
    else 10 * DigitsValue(s[..|s| - 1]) + (s[|s| - 1] as int - '0' as int)
  }

  function Pow10(w: nat): (p: nat)
    ensures p >= 1
  {
    if w == 0 then 1 else 10 * Pow10(w - 1)
  }

  /** The decimal digits of `n`, padded on the left with '0' to at least
      `minWidth` characters; at least one digit is always written. */
  function DecimalDigits(n: nat, minWidth: nat): (r: string)
    ensures AllDigits(r) && DigitsValue(r) == n
    ensures |r| >= 1 && |r| >= minWidth
    ensures |r| > 1 && |r| > minWidth ==> r[0] != '0'
    decreases n, minWidth
  {
    if n < 10 && minWidth <= 1 then [DigitChar(n)]
    else
      var prefix := DecimalDigits(n / 10, if minWidth == 0 then 0 else minWidth - 1);
      var r := prefix + [DigitChar(n % 10)];
      assert r[..|r| - 1] == prefix;
      r
  }

  /** A number below 10^w is written in exactly w digits. */
  lemma {:induction false} DecimalDigitsLength(n: nat, w: nat)
    requires 1 <= w && n < Pow10(w)
    ensures |DecimalDigits(n, w)| == w
    decreases w
  {
    if w > 1 {
      assert n / 10 < Pow10(w - 1);
      DecimalDigitsLength(n / 10, w - 1);
    }
  }

  /** Comparing by the leading digits first, then by the last digit. */
  lemma DivModOrder(n: nat, m: nat)
    ensures n <= m <==> n / 10 < m / 10 || (n / 10 == m / 10 && n % 10 <= m % 10)
  {
    assert n == 10 * (n / 10) + n % 10 && m == 10 * (m / 10) + m % 10;
  }

  lemma DigitCharOrder(a: nat, b: nat)
    requires a < 10 && b < 10
    ensures TextLe([DigitChar(a)], [DigitChar(b)]) <==> a <= b
  {
    assert [DigitChar(a)][1..] == [] && [DigitChar(b)][1..] == [];
  }

  lemma Pow10Div(n: nat, w: nat)
    requires 1 <= w && n < Pow10(w)
    ensures n / 10 < Pow10(w - 1)
  {
  }

  /** Above one digit, the text is the leading digits followed by the last. */
  lemma DecimalDigitsSplit(n: nat, w: nat)
    requires w >= 2
    ensures DecimalDigits(n, w) == DecimalDigits(n / 10, w - 1) + [DigitChar(n % 10)]
  {
  }

  lemma DecimalDigitsInjective(n: nat, m: nat, w: nat)
    ensures DecimalDigits(n, w) == DecimalDigits(m, w) <==> n == m
  {
    if DecimalDigits(n, w) == DecimalDigits(m, w) {
      assert DigitsValue(DecimalDigits(n, w)) == DigitsValue(DecimalDigits(m, w));
    }
  }

  /** One digit more: the order of the leading digits and of the last
      digit give the order of the whole text. */
  lemma DecimalDigitsOrderStep(n: nat, m: nat, w: nat)
    requires 2 <= w && n < Pow10(w) && m < Pow10(w)
    requires TextLe(DecimalDigits(n / 10, w - 1), DecimalDigits(m / 10, w - 1)) <==> n / 10 <= m / 10
    ensures TextLe(DecimalDigits(n, w), DecimalDigits(m, w)) <==> n <= m
  {
    var pn, pm := DecimalDigits(n / 10, w - 1), DecimalDigits(m / 10, w - 1);
    Pow10Div(n, w);
    Pow10Div(m, w);
    DecimalDigitsSplit(n, w);
    DecimalDigitsSplit(m, w);
    DecimalDigitsLength(n / 10, w - 1);
    DecimalDigitsLength(m / 10, w - 1);
    TextLeConcat(pn, [DigitChar(n % 10)], pm, [DigitChar(m % 10)]);
    DigitCharOrder(n % 10, m % 10);
    DecimalDigitsInjective(n / 10, m / 10, w - 1);
    DivModOrder(n, m);
  }

  /** Fixed-width decimal texts sort as the numbers they denote. */
  lemma {:induction false} DecimalDigitsOrder(n: nat, m: nat, w: nat)
    requires 1 <= w && n < Pow10(w) && m < Pow10(w)
    ensures TextLe(DecimalDigits(n, w), DecimalDigits(m, w)) <==> n <= m
    decreases w
  {
    if w == 1 {
      DigitCharOrder(n, m);
    } else {
      Pow10Div(n, w);
      Pow10Div(m, w);
      DecimalDigitsOrder(n / 10, m / 10, w - 1);
      DecimalDigitsOrderStep(n, m, w);
    }
  }

  // ---------------------------------------------------------------------
  // Kotlin conversions between Int and String
  // ---------------------------------------------------------------------

  /** `String.format("%0<width>d", n)`: the sign, then the digits of |n|
      padded with '0' so that sign and digits fill `width` characters. */
  function FormatPadded(n: int, width: nat): (r: string)
    requires width >= 1
    ensures |r| >= width
    ensures r[0] == '-' <==> n < 0
    ensures var d := if n < 0 then r[1..] else r;
      && |d| >= 1 && AllDigits(d) && DigitsValue(d) == (if n < 0 then -n else n)
      && (|r| > width && |d| > 1 ==> d[0] != '0')
  {
    if n < 0 then
      var d := DecimalDigits(-n, width - 1);
      assert ("-" + d)[1..] == d;
      "-" + d
    else
      var d := DecimalDigits(n, width);
      assert IsDigit(d[0]);
      d
  }

  /** An optional sign, then at least one digit. */
  predicate SignedDigits(s: string) {
    || (s != [] && AllDigits(s))
    || (|s| >= 2 && (s[0] == '-' || s[0] == '+') && AllDigits(s[1..]))
  }

  /** The number such a text denotes. */
  function SignedValue(s: string): int
    requires SignedDigits(s)
  {
    if AllDigits(s) then DigitsValue(s)
    else if s[0] == '-' then 0 - DigitsValue(s[1..])
    else DigitsValue(s[1..])
  }

  /** `Int.toString()`: the same as `%1d`, the canonical form: a '-'
      exactly for negative numbers, never a '+', and no leading zero. */
  function IntToString(n: int32): (r: string)
    ensures SignedDigits(r) && SignedValue(r) == n
    ensures r[0] == '-' <==> n < 0
    ensures n >= 0 ==> AllDigits(r)
    ensures var d := if n < 0 then r[1..] else r; |d| >= 1 && (d[0] == '0' ==> |d| == 1)
  {
    var r := FormatPadded(n, 1);
    if n < 0 then
      assert !AllDigits(r) by { assert !IsDigit(r[0]); }
      assert r[1..] == DecimalDigits(-(n as int), 0);
      r
    else r
  }

  /** `String.toIntOrNull()` for ASCII input. Kotlin looks at the first
      character: below '0' it can only be a sign, which must be followed
      by digits; the value must fit in 32 bits. */
  function ParseInt(s: string): (r: Option<int32>)
    ensures r.Some? <==> SignedDigits(s) && MinValue <= SignedValue(s) <= MaxValue
    ensures r.Some? ==> r.value == SignedValue(s)
  {
    assert s != [] && s[0] < '0' ==> !AllDigits(s) by {
      if s != [] && s[0] < '0' { assert !IsDigit(s[0]); }
    }
    assert s != [] && s[0] >= '0' ==> s[0] != '-' && s[0] != '+';
    if s == [] then None
    else if s[0] < '0' then
      if |s| == 1 then None
      else if s[0] == '-' then
        if AllDigits(s[1..]) && DigitsValue(s[1..]) <= -MinValue then Some(0 - DigitsValue(s[1..])) else None
      else if s[0] == '+' then
        if AllDigits(s[1..]) && DigitsValue(s[1..]) <= MaxValue then Some(DigitsValue(s[1..])) else None
      else None
    else if AllDigits(s) && DigitsValue(s) <= MaxValue then Some(DigitsValue(s))
    else None
  }

  /** Printing an Int and parsing it back gives the same Int. */
  lemma ParseIntRoundTrip(n: int32)
    ensures ParseInt(IntToString(n)) == Some(n)
  {
  }

  /** A non-empty digit string parses exactly when its value fits in an
      Int, and then to that value. */
  lemma ParseIntDigits(s: string)
    requires AllDigits(s) && s != []
    ensures ParseInt(s) == if DigitsValue(s) <= MaxValue then Some(DigitsValue(s)) else None
  {
    assert IsDigit(s[0]);
  }

  // ---------------------------------------------------------------------
  // Blank text
  // ---------------------------------------------------------------------

  /** Kotlin's `Char.isWhitespace()` on the JVM: the Unicode space,
      line and paragraph separators, and the controls U+0009..U+000D and
      U+001C..U+001F. */
  predicate IsWhitespace(c: char) {
    || c == ' '
    || ('\t' <= c <= '\r')
    || ('\U{1C}' <= c <= '\U{1F}')
    || c == '\U{A0}'
    || c == '\U{1680}'
    || ('\U{2000}' <= c <= '\U{200A}')
    || c == '\U{2028}' || c == '\U{2029}'
    || c == '\U{202F}' || c == '\U{205F}' || c == '\U{3000}'
  }

  /** `String.isBlank()`: empty or made only of whitespace. */
  predicate IsBlank(s: string) {
    forall i :: 0 <= i < |s| ==> IsWhitespace(s[i])
  }
}
