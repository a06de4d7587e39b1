/** Decimal rendering of integers (fmt's %d, strconv.Itoa, and the way
    go-redis writes an int argument) and strconv.Atoi on a 64-bit platform. */
module Decimal {
  import opened Common

  const MinInt64: int := -0x8000_0000_0000_0000
  const MaxInt64: int := 0x7fff_ffff_ffff_ffff

  function DigitChar(d: nat): (c: char)
    requires d < 10
    ensures IsDigit(c)
  {
    ['0', '1', '2', '3', '4', '5', '6', '7', '8', '9'][d]
  }

  function DigitValue(c: char): (d: nat)
    requires IsDigit(c)
    ensures d < 10 && DigitChar(d) == c
  {
    (c as int - '0' as int) as nat
  }

  /** The shortest decimal numeral of n, without sign. */
  function FormatNat(n: nat): (s: string)
    ensures |s| > 0 && AllDigits(s)
    decreases n
  {
    if n < 10 then [DigitChar(n)] else FormatNat(n / 10) + [DigitChar(n % 10)]
  }

  /** %d: a leading '-' for negative numbers, then the digits. */
  function FormatInt(n: int): string
  {
    if n < 0 then "-" + FormatNat(-n) else FormatNat(n)
  }

  /** The value of a string of decimal digits. */
  function DigitsValue(s: string): nat
    requires AllDigits(s)
    decreases |s|
  {
    if |s| == 0 then 0 else DigitsValue(s[..|s| - 1]) * 10 + DigitValue(s[|s| - 1])
  }

  /** An optional sign ('+' or '-') followed by at least one decimal digit,
      read without any bound on the value. */
  function ParseDecimal(s: string): (r: Option<int>)
    ensures r.Some? ==> |s| > 0
  {
    if |s| > 0 && (s[0] == '+' || s[0] == '-') then
      var body := s[1..];
      if |body| > 0 && AllDigits(body) then
        Some(if s[0] == '-' then -(DigitsValue(body) as int) else DigitsValue(body) as int)
      else None
    else if |s| > 0 && AllDigits(s) then Some(DigitsValue(s))
    else None
  }

  /** strconv.Atoi with a 64-bit int: the syntax of ParseDecimal, and a value that
      fits in int64 (out-of-range numerals are errors). No spaces, no
      underscores, no other base. */
  function Atoi(s: string): (r: Option<int>)
    ensures r.Some? ==> MinInt64 <= r.value <= MaxInt64
    ensures r.Some? <==> ParseDecimal(s).Some? && MinInt64 <= ParseDecimal(s).value <= MaxInt64
  {
    match ParseDecimal(s)
    case Some(v) => if MinInt64 <= v <= MaxInt64 then Some(v) else None
    case None => None
  }

  lemma {:induction false} FormatNatValue(n: nat)
    ensures DigitsValue(FormatNat(n)) == n
    decreases n
  {
    var s := FormatNat(n);
    if n >= 10 {
      FormatNatValue(n / 10);
      assert s[..|s| - 1] == FormatNat(n / 10);
    }
  }

  /** Reading back what %d wrote gives the number again. */
  lemma FormatIntRoundTrip(n: int)
    ensures ParseDecimal(FormatInt(n)) == Some(n)
  {
    var m: nat := if n < 0 then -n else n;
    var d := FormatNat(m);
    FormatNatValue(m);
    ParseDigits(d);
  }

  /** A non-empty digit string reads as its value, and with a '-' in front
      as the negated value. */
  lemma ParseDigits(d: string)
    requires |d| > 0 && AllDigits(d)
    ensures ParseDecimal(d) == Some(DigitsValue(d) as int)
    ensures ParseDecimal("-" + d) == Some(-(DigitsValue(d) as int))
  {
    assert d[0] != '+' && d[0] != '-' by { assert IsDigit(d[0]); }
    ParseSigned(d, '-');
  }

  lemma ParseSigned(d: string, sign: char)
    requires |d| > 0 && AllDigits(d) && (sign == '+' || sign == '-')
    ensures ParseDecimal([sign] + d).Some?
    ensures ParseDecimal([sign] + d).value == if sign == '-' then -(DigitsValue(d) as int) else DigitsValue(d) as int
  {
    var s := [sign] + d;
    assert s[1..] == d;
  }

  /** strconv.Atoi inverts %d on every int64. */
  lemma AtoiFormatInt(n: int)
    requires MinInt64 <= n <= MaxInt64
    ensures Atoi(FormatInt(n)) == Some(n)
  {
    FormatIntRoundTrip(n);
  }

  /** Distinct integers render differently. */
  lemma FormatIntInjective(a: int, b: int)
    ensures FormatInt(a) == FormatInt(b) ==> a == b
  {
    FormatIntRoundTrip(a);
    FormatIntRoundTrip(b);
  }
}
