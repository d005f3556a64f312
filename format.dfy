/**
 * Go's `%.2f` verb, as the out-of-bounds error message uses it: the value
 * rounded to hundredths (ties to the even hundredth, exactly as strconv
 * rounds the decimal expansion), a leading '-' for negative values (also
 * when they round to zero), the integer part without leading zeros, a dot
 * and two digits.
 */
module Format {

  function DigitChar(d: int): (c: char)
    requires 0 <= d < 10
    ensures '0' <= c <= '9'
  {
    ('0' as int + d) as char
  }

  function DigitValue(c: char): int
  {
    c as int - '0' as int
  }

  predicate IsDigits(s: string)
  {
    forall i :: 0 <= i < |s| ==> '0' <= s[i] <= '9'
  }

  /** The number a string of decimal digits denotes (the reading side of Decimal). */
  function DecimalValue(s: string): nat
    requires IsDigits(s)
  {
    if s == [] then 0
    else DecimalValue(s[..|s| - 1]) * 10 + DigitValue(s[|s| - 1])
  }

  /** The decimal text of a natural number, as strconv writes it. */
  function Decimal(n: nat): (s: string)
    ensures |s| > 0 && IsDigits(s)
    ensures s[0] == '0' ==> n == 0 && |s| == 1
    ensures DecimalValue(s) == n
  {
    if n < 10 then [DigitChar(n)]
    else
      var front := Decimal(n / 10);
      var s := front + [DigitChar(n % 10)];
      assert s[..|s| - 1] == front;
      s
  }

  /** The integer nearest to x; of two equally near, the even one. */
  function RoundHalfEven(x: real): (n: int)
    ensures x - 0.5 <= n as real <= x + 0.5
    ensures (n as real == x - 0.5 || n as real == x + 0.5) ==> n % 2 == 0
  {
    var f := x.Floor;
    var d := x - f as real;
    if d > 0.5 || (d == 0.5 && f % 2 == 1) then f + 1 else f
  }

  function Abs(x: real): (a: real)
    ensures a >= 0.0 && (a == x || a == -x)
  {
    if x < 0.0 then -x else x
  }

  /** The text without its sign. */
  function Unsigned(s: string): string
  {
    if |s| > 0 && s[0] == '-' then s[1..] else s
  }

  /** An optional '-', at least one integer digit, a dot and exactly two decimals. */
  predicate IsFixed2(s: string)
  {
    var u := Unsigned(s);
    |u| >= 4 && u[|u| - 3] == '.' && IsDigits(u[..|u| - 3]) && IsDigits(u[|u| - 2..])
  }

  /** Reads a fixed-point text back as a count of hundredths (ignoring the sign). */
  function Hundredths(s: string): nat
    requires IsFixed2(s)
  {
    var u := Unsigned(s);
    DecimalValue(u[..|u| - 3]) * 100 + DecimalValue(u[|u| - 2..])
  }

  /** The last two decimal digits of n are its tens digit and its units digit. */
  lemma HundredsSplit(n: nat)
    ensures n % 100 == (n / 10 % 10) * 10 + n % 10
    ensures n / 100 == n / 10 / 10
  {
  }

  /** Two digits read back. */
  lemma TwoDigitsValue(d1: int, d0: int)
    requires 0 <= d1 < 10 && 0 <= d0 < 10
    ensures DecimalValue([DigitChar(d1), DigitChar(d0)]) == 10 * d1 + d0
  {
    var cents := [DigitChar(d1), DigitChar(d0)];
    assert cents[..1] == [DigitChar(d1)] && cents[..1][..0] == [];
    assert DigitValue(DigitChar(d1)) == d1 && DigitValue(DigitChar(d0)) == d0;
    assert DecimalValue(cents[..1]) == d1;
  }

  /** The text of a count of hundredths, without sign. */
  function UnsignedFixedText(n: nat): (u: string)
    ensures |u| >= 4 && '0' <= u[0] <= '9' && u[|u| - 3] == '.'
    ensures IsDigits(u[..|u| - 3]) && IsDigits(u[|u| - 2..])
    ensures DecimalValue(u[..|u| - 3]) * 100 + DecimalValue(u[|u| - 2..]) == n
    ensures u[0] == '0' ==> u[1] == '.'
  {
    var whole := Decimal(n / 100);
    var cents := [DigitChar(n / 10 % 10), DigitChar(n % 10)];
    var u := whole + "." + cents;
    assert u[..|u| - 3] == whole && u[|u| - 2..] == cents;
    TwoDigitsValue(n / 10 % 10, n % 10);
    HundredsSplit(n);
    u
  }

  /** The text of a signed count of hundredths. */
  function FixedText(negative: bool, n: nat): (s: string)
    ensures IsFixed2(s)
    ensures s[0] == '-' <==> negative
    ensures Hundredths(s) == n
    ensures Unsigned(s)[0] == '0' ==> Unsigned(s)[1] == '.'
  {
    var u := UnsignedFixedText(n);
    if negative then
      var s := "-" + u;
      assert s[0] == '-' && s[1..] == u;
      assert Unsigned(s) == u;
      s
    else
      assert u[0] != '-';
      assert Unsigned(u) == u;
      u
  }

  /** `fmt.Sprintf("%.2f", x)`. */
  function Fixed2(x: real): (s: string)
    ensures IsFixed2(s)
    ensures s[0] == '-' <==> x < 0.0
    ensures Hundredths(s) == RoundHalfEven(Abs(x) * 100.0)
    ensures Unsigned(s)[0] == '0' ==> Unsigned(s)[1] == '.'
  {
    FixedText(x < 0.0, RoundHalfEven(Abs(x) * 100.0))
  }

  lemma DigitRoundTrip(c: char)
    requires '0' <= c <= '9'
    ensures 0 <= DigitValue(c) < 10 && DigitChar(DigitValue(c)) == c
  {
  }

  /** Digits that do not start with '0' denote a positive number. */
  lemma {:induction false} DecimalValuePositive(s: string)
    requires IsDigits(s) && |s| > 0 && s[0] != '0'
    ensures DecimalValue(s) >= 1
  {
    if |s| > 1 {
      var front := s[..|s| - 1];
      assert front[0] == s[0];
      DecimalValuePositive(front);
    }
  }

  /** Digits without a leading zero are the decimal text of the number they denote. */
  lemma {:induction false} DecimalOfValue(s: string)
    requires IsDigits(s) && |s| > 0 && (s[0] == '0' ==> |s| == 1)
    ensures Decimal(DecimalValue(s)) == s
  {
    var last := s[|s| - 1];
    DigitRoundTrip(last);
    if |s| > 1 {
      var front := s[..|s| - 1];
      assert front[0] == s[0] && IsDigits(front);
      DecimalValuePositive(front);
      DecimalOfValue(front);
      var v := DecimalValue(s);
      assert v == DecimalValue(front) * 10 + DigitValue(last);
      assert v / 10 == DecimalValue(front) && v % 10 == DigitValue(last);
      assert s == front + [last];
    }
  }

  /** An unsigned fixed-point text in canonical form is the one UnsignedFixedText gives for its value. */
  lemma UnsignedDetermined(u: string)
    requires |u| >= 4 && u[|u| - 3] == '.'
    requires IsDigits(u[..|u| - 3]) && IsDigits(u[|u| - 2..])
    requires u[0] == '0' ==> u[1] == '.'
    ensures u == UnsignedFixedText(DecimalValue(u[..|u| - 3]) * 100 + DecimalValue(u[|u| - 2..]))
  {
    var whole, cents := u[..|u| - 3], u[|u| - 2..];
    assert |whole| > 1 ==> whole[0] == u[0] && whole[1] == u[1];
    DecimalOfValue(whole);
    var d1, d0 := DigitValue(cents[0]), DigitValue(cents[1]);
    DigitRoundTrip(cents[0]);
    DigitRoundTrip(cents[1]);
    TwoDigitsValue(d1, d0);
    assert cents == [DigitChar(d1), DigitChar(d0)];
    var w := DecimalValue(whole);
    var n := w * 100 + (10 * d1 + d0);
    assert n / 100 == w && n % 100 == 10 * d1 + d0;
    HundredsSplit(n);
    assert n / 10 % 10 == d1 && n % 10 == d0;
    assert u == whole + "." + cents;
  }

  /**
   * The contract of Fixed2 leaves no freedom: a text with the sign of x, a
   * canonical integer part, two decimals and the rounded hundredths of |x|
   * is the text Fixed2 gives.
   */
  lemma Fixed2Determined(x: real, s: string)
    requires IsFixed2(s)
    requires |s| > 0 && (s[0] == '-' <==> x < 0.0)
    requires Hundredths(s) == RoundHalfEven(Abs(x) * 100.0)
    requires Unsigned(s)[0] == '0' ==> Unsigned(s)[1] == '.'
    ensures s == Fixed2(x)
  {
    var u := Unsigned(s);
    UnsignedDetermined(u);
    assert u == UnsignedFixedText(Hundredths(s));
    if x < 0.0 {
      assert s == "-" + u;
    }
  }

  /** A value inside the bounds' usual range. */
  lemma Fixed2Whole()
    ensures Fixed2(5.0) == "5.00"
  {
    assert RoundHalfEven(Abs(5.0) * 100.0) == 500;
    assert UnsignedFixedText(500) == "5.00";
  }

  /** Two bounds of a market, with a trailing zero printed. */
  lemma Fixed2Bounds()
    ensures Fixed2(1.5) == "1.50" && Fixed2(4.0) == "4.00"
  {
    assert RoundHalfEven(Abs(1.5) * 100.0) == 150;
    assert UnsignedFixedText(150) == "1.50";
    assert RoundHalfEven(Abs(4.0) * 100.0) == 400;
    assert UnsignedFixedText(400) == "4.00";
  }

  /**
   * An exact tie (0.125 is a tie in binary floating point too) goes to the
   * even hundredth.
   */
  lemma Fixed2Tie()
    ensures Fixed2(0.125) == "0.12" && Fixed2(0.375) == "0.38"
  {
    assert RoundHalfEven(Abs(0.125) * 100.0) == 12;
    assert UnsignedFixedText(12) == "0.12";
    assert RoundHalfEven(Abs(0.375) * 100.0) == 38;
    assert UnsignedFixedText(38) == "0.38";
  }

  /** A negative value keeps its sign when it rounds to zero. */
  lemma Fixed2NegativeZero()
    ensures Fixed2(-0.001) == "-0.00"
  {
    assert RoundHalfEven(Abs(-0.001) * 100.0) == 0;
    assert UnsignedFixedText(0) == "0.00";
  }
}
