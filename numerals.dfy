/** Number formatting and parsing as the C++ code uses them: std::to_string,
    printf's "%06o" and "%+05d", and std::stol with base 8 or 10, together
    with the conversions of a long to uint16_t and int16_t. */
module Numerals {
  import opened Wrappers
  import opened Bytes

  const ZERO: byte := 48
  const PLUS: byte := 43
  const MINUS: byte := 45

  const MinLong: int := -0x8000_0000_0000_0000
  const MaxLong: int := 0x7FFF_FFFF_FFFF_FFFF
  const MinShort: int := -0x8000
  const MaxShort: int := 0x7FFF

  predicate IsDigit(c: byte, base: nat)
    requires 2 <= base <= 10
  {
    ZERO <= c < ZERO + base
  }

  predicate AllDigits(s: Bytes, base: nat)
    requires 2 <= base <= 10
  {
    forall i | 0 <= i < |s| :: IsDigit(s[i], base)
  }

  /** The shortest digit string of `n` in `base`. */
  function Digits(n: nat, base: nat): (r: Bytes)
    requires 2 <= base <= 10
    ensures |r| >= 1
  {
    if n < base then [ZERO + n] else Digits(n / base, base) + [ZERO + n % base]
  }

  lemma {:induction false} DigitsAreDigits(n: nat, base: nat)
    requires 2 <= base <= 10
    ensures AllDigits(Digits(n, base), base)
  {
    if n >= base {
      DigitsAreDigits(n / base, base);
    }
  }

  /** The value of a digit string, most significant digit first. */
  function Value(s: Bytes, base: nat): int
    requires 2 <= base <= 10
  {
    if s == [] then 0 else Value(s[..|s| - 1], base) * base + (s[|s| - 1] - ZERO)
  }

  lemma {:induction false} ValueOfDigitsNonNegative(s: Bytes, base: nat)
    requires 2 <= base <= 10 && AllDigits(s, base)
    ensures Value(s, base) >= 0
  {
    if s != [] {
      ValueOfDigitsNonNegative(s[..|s| - 1], base);
    }
  }

  /** `k` '0' characters, the zero padding of printf. */
  function ZeroDigits(k: nat): (r: Bytes)
    ensures |r| == k
  {
    seq(k, _ => ZERO)
  }

  lemma {:induction false} ValueOfDigits(n: nat, base: nat)
    requires 2 <= base <= 10
    ensures Value(Digits(n, base), base) == n
  {
    if n >= base {
      var d := Digits(n, base);
      var q, m := n / base, n % base;
      assert d[..|d| - 1] == Digits(q, base) && d[|d| - 1] - ZERO == m;
      DivSmaller(n, base);
      ValueOfDigits(q, base);
      assert Value(d, base) == Value(Digits(q, base), base) * base + m;
      assert q * base + m == n by {
        DivMod(n, base);
      }
    }
  }

  lemma {:induction false} ValueIgnoresLeadingZeros(k: nat, s: Bytes, base: nat)
    requires 2 <= base <= 10 && AllDigits(s, base)
    ensures Value(ZeroDigits(k) + s, base) == Value(s, base)
    decreases |s|
  {
    if s == [] {
      ValueOfZeros(k, base);
      assert ZeroDigits(k) + s == ZeroDigits(k);
    } else {
      var t := ZeroDigits(k) + s;
      assert t[..|t| - 1] == ZeroDigits(k) + s[..|s| - 1];
      ValueIgnoresLeadingZeros(k, s[..|s| - 1], base);
    }
  }

  lemma {:induction false} ValueOfZeros(k: nat, base: nat)
    requires 2 <= base <= 10
    ensures Value(ZeroDigits(k), base) == 0
  {
    if k > 0 {
      assert ZeroDigits(k)[..k - 1] == ZeroDigits(k - 1);
      ValueOfZeros(k - 1, base);
    }
  }

  /** Fewer than `k` digits are needed for values below base^k. */
  lemma {:induction false} DigitsLength(n: nat, base: nat, k: nat, bound: nat)
    requires 2 <= base <= 10 && 1 <= k
    requires bound == Pow(base, k) && n < bound
    ensures |Digits(n, base)| <= k
  {
    if n >= base {
      assert k >= 2;
      assert Pow(base, k) == base * Pow(base, k - 1);
      DivBelow(n, base, Pow(base, k - 1));
      DivSmaller(n, base);
      DigitsLength(n / base, base, k - 1, Pow(base, k - 1));
    }
  }

  lemma DivMod(n: nat, base: nat)
    requires 2 <= base
    ensures (n / base) * base + n % base == n
  {
  }

  lemma DivSmaller(n: nat, base: nat)
    requires 2 <= base && 1 <= n
    ensures n / base < n
  {
  }

  lemma DivBelow(n: nat, base: nat, p: nat)
    requires 2 <= base && n < base * p
    ensures n / base < p
  {
  }

  function Pow(base: nat, k: nat): nat {
    if k == 0 then 1 else base * Pow(base, k - 1)
  }

  /** std::to_string of a signed value. */
  function SignedDecimal(i: int): Bytes {
    if i < 0 then [MINUS] + Digits(-i, 10) else Digits(i, 10)
  }

  /** printf "%06o" of a 16-bit value: six octal digits, zero padded. */
  function Octal6(m: nat): (r: Bytes)
    requires m < 0x10000
    ensures |r| == 6
  {
    DigitsLength(m, 8, 6, Pow(8, 6));
    var d := Digits(m, 8);
    ZeroDigits(6 - |d|) + d
  }

  /** printf "%+05d": a sign, then at least four digits. */
  function TimezoneText(tz: int): (r: Bytes)
    ensures |r| >= 5
  {
    var d := Digits(if tz < 0 then -tz else tz, 10);
    var padded := if |d| < 4 then ZeroDigits(4 - |d|) + d else d;
    [if tz < 0 then MINUS else PLUS] + padded
  }

  /** Zero padding in front of digits leaves digits only. */
  lemma PaddedDigits(k: nat, d: Bytes, base: nat)
    requires 2 <= base <= 10 && AllDigits(d, base)
    ensures AllDigits(ZeroDigits(k) + d, base)
  {
  }

  /** "%+05d" writes a sign and then digits only. */
  lemma TimezoneTextShape(tz: int)
    ensures var r := TimezoneText(tz);
      (r[0] == PLUS || r[0] == MINUS) && AllDigits(r[1..], 10)
  {
    var r := TimezoneText(tz);
    var d := Digits(if tz < 0 then -tz else tz, 10);
    var padded := if |d| < 4 then ZeroDigits(4 - |d|) + d else d;
    DigitsAreDigits(if tz < 0 then -tz else tz, 10);
    if |d| < 4 {
      PaddedDigits(4 - |d|, d, 10);
    }
    assert r[1..] == padded;
  }

  /** isspace in the "C" locale. */
  predicate IsSpace(c: byte) {
    c == SP || 9 <= c <= 13
  }

  function SkipSpaces(s: Bytes): (r: Bytes)
    ensures |r| <= |s|
  {
    if s != [] && IsSpace(s[0]) then SkipSpaces(s[1..]) else s
  }

  /** Length of the longest prefix of `s` made of digits. */
  function DigitRun(s: Bytes, base: nat): (n: nat)
    requires 2 <= base <= 10
    ensures n <= |s|
  {
    if s != [] && IsDigit(s[0], base) then 1 + DigitRun(s[1..], base) else 0
  }

  /** std::stol(s, nullptr, base): leading white space, an optional sign and
      the longest run of digits; no digits is invalid_argument, a value
      outside long is out_of_range. Anything after the digits is ignored. */
  function StoL(s: Bytes, base: nat): (r: Result<int>)
    requires base == 8 || base == 10
    ensures r.Ok? ==> MinLong <= r.value <= MaxLong
    ensures r.Err? ==> r.error == InvalidNumber || r.error == NumberOutOfRange
  {
    var t := SkipSpaces(s);
    var negative := t != [] && t[0] == MINUS;
    var u := if t != [] && (t[0] == MINUS || t[0] == PLUS) then t[1..] else t;
    var n := DigitRun(u, base);
    if n == 0 then Err(InvalidNumber)
    else
      var v: int := Value(u[..n], base);
      var x := if negative then -v else v;
      if MinLong <= x <= MaxLong then Ok(x) else Err(NumberOutOfRange)
  }

  /** Conversion of a long to uint16_t (modulo 2^16). */
  function ToU16(x: int): (r: nat)
    ensures r < 0x10000 && (0 <= x < 0x10000 ==> r == x)
  {
    x % 0x10000
  }

  /** Conversion of a long to int16_t (modulo 2^16, two's complement). */
  function ToI16(x: int): (r: int)
    ensures MinShort <= r <= MaxShort && (MinShort <= x <= MaxShort ==> r == x)
  {
    (x + 0x8000) % 0x10000 - 0x8000
  }

  lemma DigitRunAll(s: Bytes, base: nat)
    requires 2 <= base <= 10 && AllDigits(s, base)
    ensures DigitRun(s, base) == |s|
  {
    if s != [] {
      DigitRunAll(s[1..], base);
    }
  }

  /** std::stol of an optional sign followed by digits only. */
  lemma StoLOfDigits(t: Bytes, ds: Bytes, base: nat)
    requires base == 8 || base == 10
    requires AllDigits(ds, base) && ds != []
    requires t == ds || t == [PLUS] + ds || t == [MINUS] + ds
    ensures StoL(t, base) == (
      var v: int := Value(ds, base);
      var x := if t[0] == MINUS then -v else v;
      if MinLong <= x <= MaxLong then Ok(x) else Err(NumberOutOfRange))
  {
    assert SkipSpaces(t) == t;
    var u := if t[0] == MINUS || t[0] == PLUS then t[1..] else t;
    assert u == ds;
    DigitRunAll(ds, base);
    assert ds[..|ds|] == ds;
  }

  /** std::stol reads back what std::to_string wrote. */
  lemma StoLSignedDecimal(i: int)
    requires MinLong <= i <= MaxLong
    ensures StoL(SignedDecimal(i), 10) == Ok(i)
  {
    var a := if i < 0 then -i else i;
    var d := Digits(a, 10);
    DigitsAreDigits(a, 10);
    ValueOfDigits(a, 10);
    StoLOfDigits(SignedDecimal(i), d, 10);
  }

  /** std::stol with base 8 reads back what "%06o" wrote. */
  lemma StoLOctal6(m: nat)
    requires m < 0x10000
    ensures StoL(Octal6(m), 8) == Ok(m)
  {
    var d := Digits(m, 8);
    DigitsAreDigits(m, 8);
    DigitsLength(m, 8, 6, Pow(8, 6));
    PaddedDigits(6 - |d|, d, 8);
    ValueIgnoresLeadingZeros(6 - |d|, d, 8);
    ValueOfDigits(m, 8);
    StoLOfDigits(Octal6(m), Octal6(m), 8);
  }

  /** std::stol reads back what "%+05d" wrote. */
  lemma StoLTimezone(tz: int)
    requires MinShort <= tz <= MaxShort
    ensures StoL(TimezoneText(tz), 10) == Ok(tz)
  {
    var a := if tz < 0 then -tz else tz;
    var d := Digits(a, 10);
    var padded := if |d| < 4 then ZeroDigits(4 - |d|) + d else d;
    assert TimezoneText(tz) == [if tz < 0 then MINUS else PLUS] + padded;
    DigitsAreDigits(a, 10);
    if |d| < 4 {
      PaddedDigits(4 - |d|, d, 10);
      ValueIgnoresLeadingZeros(4 - |d|, d, 10);
    }
    ValueOfDigits(a, 10);
    StoLOfDigits(TimezoneText(tz), padded, 10);
  }
}
