/** Exact decimals, their shortest notation and its parser. */
module Decimals {

  /** m / 10^k */
  datatype Decimal = Decimal(m: int, k: nat)

  function Pow10(k: nat): nat
    ensures Pow10(k) > 0
  {
    if k == 0 then 1 else 10 * Pow10(k - 1)
  }

  function Quotient(x: real, y: real): real
    requires y > 0.0
  {
    x / y
  }

  function Value(d: Decimal): real {
    Quotient(d.m as real, Pow10(d.k) as real)
  }

  // ---------------------------------------------------------------- digits

  predicate IsDigit(c: char) {
    '0' <= c <= '9'
  }

  predicate AllDigits(s: string) {
    forall i :: 0 <= i < |s| ==> IsDigit(s[i])
  }

  function DigitChar(d: nat): char
    requires d < 10
  {
    '0' + d as char
  }

  function DigitValue(c: char): nat
    requires IsDigit(c)
  {
    (c - '0') as nat
  }

  function Digits(n: nat): (s: string)
    ensures s != "" && AllDigits(s)
  {
    if n < 10 then [DigitChar(n)] else Digits(n / 10) + [DigitChar(n % 10)]
  }

  function Num(s: string): nat
    requires AllDigits(s)
  {
    if s == "" then 0 else Num(s[..|s| - 1]) * 10 + DigitValue(s[|s| - 1])
  }

  lemma {:induction false} NumDigits(n: nat)
    ensures Num(Digits(n)) == n
  {
    if n >= 10 {
      NumDigits(n / 10);
      assert Digits(n)[..|Digits(n)| - 1] == Digits(n / 10);
    }
  }

  function Zeros(n: nat): (s: string)
    ensures |s| == n && AllDigits(s)
  {
    seq(n, _ => '0')
  }

  /** s with zeros in front, to at least n characters. */
  function PadTo(s: string, n: nat): (r: string)
    requires AllDigits(s)
    ensures AllDigits(r) && |r| >= n && |r| >= |s|
  {
    if |s| >= n then s else Zeros(n - |s|) + s
  }

  lemma {:induction false} NumZeros(n: nat, s: string)
    requires AllDigits(s)
    ensures Num(Zeros(n) + s) == Num(s)
  {
    if s != "" {
      NumZeros(n, s[..|s| - 1]);
      assert (Zeros(n) + s)[..n + |s| - 1] == Zeros(n) + s[..|s| - 1];
    } else if n > 0 {
      NumZeros(n - 1, "");
      assert Zeros(n) + "" == Zeros(n) && Zeros(n)[..n - 1] == Zeros(n - 1) && Zeros(n - 1) + "" == Zeros(n - 1);
    }
  }

  // ---------------------------------------------------------------- notation

  /** Trailing zeros of the fraction dropped. */
  function Strip(d: Decimal): Decimal
    decreases d.k
  {
    if d.k > 0 && d.m % 10 == 0 then Strip(Decimal(d.m / 10, d.k - 1)) else d
  }

  /** Shortest plain notation of a non-negative decimal. */
  function Format(d: Decimal): (s: string)
    requires d.m >= 0
    ensures IsNumber(s)
  {
    StripSign(d);
    var e := Strip(d);
    Layout(PadTo(Digits(e.m), e.k + 1), e.k)
  }

  /** A point before the last k digits, none for k = 0. */
  function Layout(digits: string, k: nat): (s: string)
    requires AllDigits(digits) && |digits| > k
    ensures IsNumber(s)
  {
    if k == 0 then NoPoint(digits); digits
    else
      var cut := |digits| - k;
      PointAt(digits[..cut], digits[cut..]);
      digits[..cut] + "." + digits[cut..]
  }

  lemma {:induction false} StripSign(d: Decimal)
    ensures d.m >= 0 ==> Strip(d).m >= 0
    decreases d.k
  {
    if d.k > 0 && d.m % 10 == 0 { StripSign(Decimal(d.m / 10, d.k - 1)); }
  }

  /** Position of the first c in s, |s| if there is none. */
  function Index(s: string, c: char): (i: nat)
    ensures i <= |s| && (i < |s| ==> s[i] == c) && c !in s[..i]
  {
    if s == "" || s[0] == c then 0
    else
      assert forall j :: 1 <= j <= |s| ==> s[..j] == [s[0]] + s[1..][..j - 1];
      1 + Index(s[1..], c)
  }

  /** [0-9]+(\.[0-9]+)? */
  predicate IsNumber(s: string) {
    var p := Index(s, '.');
    p > 0 && AllDigits(s[..p]) && (p < |s| ==> p + 1 < |s| && AllDigits(s[p + 1..]))
  }

  function ParseNumber(s: string): (d: Decimal)
    requires IsNumber(s)
    ensures d.m >= 0
  {
    var p := Index(s, '.');
    if p == |s| then assert s[..p] == s; Decimal(Num(s), 0)
    else
      assert AllDigits(s[..p] + s[p + 1..]);
      Decimal(Num(s[..p] + s[p + 1..]), |s| - p - 1)
  }

  lemma IndexIs(a: string, c: char, b: string)
    requires c !in a
    ensures Index(a + [c] + b, c) == |a|
  {
    var s := a + [c] + b;
    var i := Index(s, c);
    assert forall j :: 0 <= j < |a| ==> s[j] == a[j];
    assert forall j :: 0 <= j < i ==> s[..i][j] == s[j];
    assert s[|a|] == c;
  }

  lemma NoPoint(s: string)
    requires AllDigits(s)
    ensures Index(s, '.') == |s| && s[..|s|] == s
  {}

  lemma PointAt(a: string, b: string)
    requires AllDigits(a) && AllDigits(b)
    ensures Index(a + "." + b, '.') == |a|
    ensures (a + "." + b)[..|a|] == a && (a + "." + b)[|a| + 1..] == b
  {
    assert '.' !in a;
    IndexIs(a, '.', b);
  }

  lemma ParseLayout(digits: string, k: nat)
    requires AllDigits(digits) && |digits| > k
    ensures ParseNumber(Layout(digits, k)) == Decimal(Num(digits), k)
  {
    hide ParseNumber, Num, IsNumber;
    if k == 0 {
      ParseWhole(digits);
    } else {
      var a, b := digits[..|digits| - k], digits[|digits| - k..];
      ParsePoint(a, b);
      assert a + b == digits;
    }
  }

  lemma ParseWhole(s: string)
    requires AllDigits(s) && s != ""
    ensures IsNumber(s) && ParseNumber(s) == Decimal(Num(s), 0)
  {
    NoPoint(s);
  }

  lemma ParsePoint(a: string, b: string)
    requires AllDigits(a) && AllDigits(b) && a != "" && b != ""
    ensures IsNumber(a + "." + b) && ParseNumber(a + "." + b) == Decimal(Num(a + b), |b|)
  {
    PointAt(a, b);
    var s := a + "." + b;
    assert |s| - |a| - 1 == |b|;
  }

  /** Parsing the notation gives the stripped decimal back. */
  lemma ParseFormat(d: Decimal)
    requires d.m >= 0
    ensures ParseNumber(Format(d)) == Strip(d)
  {
    StripSign(d);
    var e := Strip(d);
    PadDigits(e.m, e.k + 1);
    ParseLayout(PadTo(Digits(e.m), e.k + 1), e.k);
  }

  lemma PadDigits(m: nat, n: nat)
    ensures Num(PadTo(Digits(m), n)) == m
  {
    var s := Digits(m);
    NumDigits(m);
    hide Num, Digits, Zeros;
    if |s| < n { NumZeros(n - |s|, s); }
  }

  lemma {:induction false} StripValue(d: Decimal)
    ensures Value(Strip(d)) == Value(d)
    decreases d.k
  {
    if d.k > 0 && d.m % 10 == 0 {
      var e := Decimal(d.m / 10, d.k - 1);
      StripValue(e);
      assert d.m == 10 * e.m && Pow10(d.k) == 10 * Pow10(e.k);
      Cancel10(e.m, Pow10(e.k));
    }
  }

  lemma Cancel10(a: int, b: nat)
    requires b > 0
    ensures Quotient((10 * a) as real, (10 * b) as real) == Quotient(a as real, b as real)
  {
    var x, y := a as real, b as real;
    assert (10 * a) as real == 10.0 * x && (10 * b) as real == 10.0 * y;
    assert (10.0 * x) / (10.0 * y) == x / y;
  }

  /** Notation keeps the value exactly. */
  lemma FormatValue(d: Decimal)
    requires d.m >= 0
    ensures Value(ParseNumber(Format(d))) == Value(d)
  {
    ParseFormat(d);
    StripValue(d);
  }

  lemma DivideUnique(x: real, y: real, q: real)
    requires y > 0.0 && q * y == x
    ensures x / y == q
  {}

  lemma Hundredfold(x: real, y: real)
    requires y > 0.0
    ensures Quotient(100.0 * x, y) == 100.0 * Quotient(x, y)
    ensures Quotient(x, 100.0 * y) == Quotient(x, y) / 100.0
  {
    var q := x / y;
    assert q * y == x;
    DivideUnique(100.0 * x, y, 100.0 * q);
    assert (q / 100.0) * (100.0 * y) == x;
    DivideUnique(x, 100.0 * y, q / 100.0);
  }

  lemma TimesHundred(d: Decimal)
    ensures Value(Decimal(d.m * 100, d.k)) == 100.0 * Value(d)
    ensures Value(Decimal(d.m, d.k + 2)) == Value(d) / 100.0
    ensures Strip(Decimal(d.m * 100, d.k + 2)) == Strip(d)
  {
    hide Quotient;
    var x, y := d.m as real, Pow10(d.k) as real;
    assert (d.m * 100) as real == 100.0 * x;
    assert Pow10(d.k + 2) == 100 * Pow10(d.k);
    assert Pow10(d.k + 2) as real == 100.0 * y;
    Hundredfold(x, y);
    assert Strip(Decimal(d.m * 100, d.k + 2)) == Strip(Decimal(d.m * 10, d.k + 1));
  }

  lemma ValueSign(d: Decimal)
    ensures Value(d) >= 0.0 <==> d.m >= 0
  {
    var x, y := d.m as real, Pow10(d.k) as real;
    assert y > 0.0;
    if x < 0.0 { assert x / y < 0.0; } else { assert x / y >= 0.0; }
  }

  // ---------------------------------------------------------------- canonical notation

  /** No superfluous zero: neither in front of the integer part nor at the end of the fraction. */
  predicate CanonicalNumber(s: string)
    requires IsNumber(s)
  {
    var p := Index(s, '.');
    (p == 1 || s[0] != '0') && (p < |s| ==> s[|s| - 1] != '0')
  }

  lemma {:induction false} SameLengthSameNum(s: string, t: string)
    requires AllDigits(s) && AllDigits(t) && |s| == |t| && Num(s) == Num(t)
    ensures s == t
  {
    if s == "" {
    } else {
      var n := |s| - 1;
      LastDigit(s);
      LastDigit(t);
      hide Num;
      SameLengthSameNum(s[..n], t[..n]);
    }
  }

  /** A numeral is its last digit after the tens. */
  lemma LastDigit(s: string)
    requires AllDigits(s) && s != ""
    ensures s == s[..|s| - 1] + [s[|s| - 1]]
    ensures Num(s) % 10 == DigitValue(s[|s| - 1]) && Num(s) / 10 == Num(s[..|s| - 1])
  {
    var a, d := Num(s[..|s| - 1]), DigitValue(s[|s| - 1]);
    assert Num(s) == a * 10 + d;
    hide Num, DigitValue;
    Tens(a, d);
  }

  lemma Tens(a: nat, d: nat)
    requires d < 10
    ensures (a * 10 + d) % 10 == d && (a * 10 + d) / 10 == a
  {}

  lemma {:induction false} DigitsLength(s: string)
    requires AllDigits(s) && s != ""
    ensures |Digits(Num(s))| <= |s|
    ensures s[0] != '0' ==> |Digits(Num(s))| == |s| && Num(s) > 0
  {
    if |s| > 1 {
      var r := s[..|s| - 1];
      DigitsLength(r);
      if Num(s) >= 10 {
        assert Num(s) / 10 == Num(r);
      }
    } else {
      assert s[..0] == "";
      assert Num(s) == DigitValue(s[0]);
    }
  }

  /** Padding the digits of a number to the length it was written in gives the writing back. */
  lemma PadDigitsNum(s: string)
    requires AllDigits(s) && s != ""
    ensures PadTo(Digits(Num(s)), |s|) == s
  {
    DigitsLength(s);
    var t := Digits(Num(s));
    NumDigits(Num(s));
    NumZeros(|s| - |t|, t);
    SameLengthSameNum(PadTo(t, |s|), s);
  }

  /** Exactly the canonical numerals are reproduced. */
  lemma FormatParseIff(s: string)
    requires IsNumber(s)
    ensures Format(ParseNumber(s)) == s <==> CanonicalNumber(s)
  {
    if CanonicalNumber(s) { FormatParse(s); }
    if Format(ParseNumber(s)) == s { FormatCanonical(ParseNumber(s)); }
  }

  lemma FormatParse(s: string)
    requires IsNumber(s) && CanonicalNumber(s)
    ensures Format(ParseNumber(s)) == s
  {
    var p := Index(s, '.');
    if p == |s| {
      assert s[..p] == s;
      FormatParseWhole(s);
    } else {
      var a, b := s[..p], s[p + 1..];
      assert s == a + "." + b;
      assert b[|b| - 1] == s[|s| - 1] && a[0] == s[0];
      FormatParsePoint(a, b);
    }
  }

  lemma FormatParseWhole(s: string)
    requires AllDigits(s) && s != "" && (|s| == 1 || s[0] != '0')
    ensures IsNumber(s) && Format(ParseNumber(s)) == s
  {
    NoPoint(s);
    PadDigitsNum(s);
    DigitsLength(s);
    var d := Decimal(Num(s), 0);
    assert ParseNumber(s) == d && Strip(d) == d;
    assert PadTo(Digits(d.m), 1) == s;
  }

  lemma FormatParsePoint(a: string, b: string)
    requires AllDigits(a) && AllDigits(b) && a != "" && b != ""
    requires (|a| == 1 || a[0] != '0') && b[|b| - 1] != '0'
    ensures IsNumber(a + "." + b) && Format(ParseNumber(a + "." + b)) == a + "." + b
  {
    PointAt(a, b);
    var digits := a + b;
    var d := Decimal(Num(digits), |b|);
    assert ParseNumber(a + "." + b) == d;
    assert digits[|digits| - 1] == b[|b| - 1];
    assert Num(digits) % 10 == DigitValue(digits[|digits| - 1]);
    assert Strip(d) == d;
    PadDigitsNum(digits);
    DigitsLength(digits);
    assert digits[0] == a[0];
    assert PadTo(Digits(d.m), d.k + 1) == digits;
    assert digits[..|a|] == a && digits[|a|..] == b;
  }

  lemma {:induction false} StripDone(d: Decimal)
    ensures Strip(d).k > 0 ==> Strip(d).m % 10 != 0
    decreases d.k
  {
    if d.k > 0 && d.m % 10 == 0 { StripDone(Decimal(d.m / 10, d.k - 1)); }
  }

  lemma {:induction false} DigitsEnds(n: nat)
    ensures var s := Digits(n);
            (|s| > 1 ==> s[0] != '0') && DigitValue(s[|s| - 1]) == n % 10
  {
    if n >= 10 { DigitsEnds(n / 10); DigitsPositive(n / 10); }
  }

  lemma {:induction false} DigitsPositive(n: nat)
    requires n > 0
    ensures Digits(n)[0] != '0'
  {
    if n >= 10 { DigitsPositive(n / 10); }
  }

  lemma FormatCanonical(d: Decimal)
    requires d.m >= 0
    ensures CanonicalNumber(Format(d))
  {
    StripSign(d);
    StripDone(d);
    var e := Strip(d);
    DigitsEnds(e.m);
    var digits := PadTo(Digits(e.m), e.k + 1);
    if e.k == 0 {
      NoPoint(digits);
    } else {
      PointAt(digits[..|digits| - e.k], digits[|digits| - e.k..]);
      assert digits[|digits| - 1] == Digits(e.m)[|Digits(e.m)| - 1];
    }
  }

  // ---------------------------------------------------------------- positional notation

  /** A digit is worth its place in this list; one more digit multiplies by ten. */
  lemma DigitsExact(s: string, c: char)
    requires AllDigits(s) && IsDigit(c)
    ensures DigitValue(c) < 10 && "0123456789"[DigitValue(c)] == c
    ensures AllDigits(s + [c]) && Num(s + [c]) == 10 * Num(s) + DigitValue(c)
  {
    assert (s + [c])[..|s|] == s;
  }

  /** A whole numeral is worth its digits, and each place after the point a
      tenth of the one before. */
  lemma PlacesExact(a: string, b: string)
    requires AllDigits(a) && AllDigits(b) && a != "" && b != ""
    ensures IsNumber(a) && Value(ParseNumber(a)) == Num(a) as real
    ensures IsNumber(a + "." + b)
    ensures Scaled(Value(ParseNumber(a + "." + b)), Pow10(|b|)) == Num(a + b) as real
    ensures Pow10(0) == 1 && Pow10(|b|) == 10 * Pow10(|b| - 1)
  {
    TenMore(|b| - 1);
    ParseWhole(a);
    ParsePoint(a, b);
    WholeValue(Num(a));
    ScaledValue(Num(a + b), |b|);
    hide *;
  }

  lemma TenMore(k: nat)
    ensures Pow10(0) == 1 && Pow10(k + 1) == 10 * Pow10(k)
  {}

  lemma WholeValue(n: nat)
    ensures Value(Decimal(n, 0)) == n as real
  {
    DivideUnique(n as real, 1.0, n as real);
  }

  function Scaled(x: real, n: nat): real {
    x * n as real
  }

  lemma ScaledValue(m: nat, k: nat)
    ensures Scaled(Value(Decimal(m, k)), Pow10(k)) == m as real
  {
    ScaledBack(m as real, Pow10(k));
  }

  lemma ScaledBack(x: real, n: nat)
    requires n > 0
    ensures Scaled(Quotient(x, n as real), n) == x
  {}
}
