/**
 * Digit strings: the two digit classes of the token patterns, the value of a
 * digit run, what .NET's `Convert.ToInt32(digits, radix)` makes of the runs
 * the patterns capture, and the number layouts the program prints (`X2`,
 * `X4` and plain decimal).
 */
module Numerals {

  /** An unsigned 8-bit byte. */
  type Byte = b: int | 0 <= b < 0x100

  /** The two radixes the program converts from. */
  type Radix = r: int | r == 10 || r == 16 witness 10

  const Int32Min: int := -0x8000_0000
  const Int32Max: int := 0x7FFF_FFFF
  const UInt32Max: int := 0xFFFF_FFFF
  const TwoTo32: int := 0x1_0000_0000

  /** `[0-9]` */
  predicate IsDecimalDigit(c: char) {
    '0' <= c <= '9'
  }

  /** `[0-9A-Fa-f]` */
  predicate IsHexDigit(c: char) {
    '0' <= c <= '9' || 'A' <= c <= 'F' || 'a' <= c <= 'f'
  }

  predicate IsDigitOf(c: char, radix: Radix) {
    if radix == 10 then IsDecimalDigit(c) else IsHexDigit(c)
  }

  predicate AllDigits(s: string, radix: Radix) {
    forall i :: 0 <= i < |s| ==> IsDigitOf(s[i], radix)
  }

  /** A non-empty run of digits of the radix: `[0-9]+` or `[0-9A-Fa-f]+`. */
  predicate IsNumeral(s: string, radix: Radix) {
    |s| > 0 && AllDigits(s, radix)
  }

  /** No lower-case hex letter: how the `X` format writes digits. */
  predicate IsUpperCase(s: string) {
    forall i :: 0 <= i < |s| ==> !('a' <= s[i] <= 'f')
  }

  function DigitValue(c: char): (d: nat)
    requires IsHexDigit(c)
    ensures d < 16
    ensures IsDecimalDigit(c) <==> d < 10
  {
    if '0' <= c <= '9' then c as int - '0' as int
    else if 'A' <= c <= 'F' then c as int - 'A' as int + 10
    else c as int - 'a' as int + 10
  }

  /** The value of a digit string, most significant digit first. */
  function Value(s: string, radix: Radix): nat
    requires AllDigits(s, radix)
    decreases |s|
  {
    if s == [] then 0
    else Value(s[..|s| - 1], radix) * radix + DigitValue(s[|s| - 1])
  }

  function Power(radix: Radix, k: nat): nat {
    if k == 0 then 1 else radix * Power(radix, k - 1)
  }

  /** A run of k digits stays below radix^k. */
  lemma {:induction false} ValueBelowPower(s: string, radix: Radix)
    requires AllDigits(s, radix)
    ensures Value(s, radix) < Power(radix, |s|)
  {
    if s != [] {
      var init := s[..|s| - 1];
      ValueBelowPower(init, radix);
      assert Value(init, radix) + 1 <= Power(radix, |init|);
      if radix == 10 {
        assert Value(s, radix) < (Value(init, radix) + 1) * 10;
      } else {
        assert Value(s, radix) < (Value(init, radix) + 1) * 16;
      }
    }
  }

  /** Zeros in front of a digit run do not change its value. */
  lemma {:induction false} LeadingZerosKeepValue(zeros: string, s: string, radix: Radix)
    requires forall i :: 0 <= i < |zeros| ==> zeros[i] == '0'
    requires AllDigits(s, radix)
    ensures AllDigits(zeros + s, radix)
    ensures Value(zeros + s, radix) == Value(s, radix)
    decreases |s|
  {
    var t := zeros + s;
    assert AllDigits(t, radix) by {
      forall i | 0 <= i < |t| ensures IsDigitOf(t[i], radix) {
        if i < |zeros| { assert t[i] == zeros[i]; } else { assert t[i] == s[i - |zeros|]; }
      }
    }
    if s == [] {
      assert t == zeros;
      AllZerosHaveNoValue(zeros, radix);
    } else {
      var init := s[..|s| - 1];
      assert t[..|t| - 1] == zeros + init;
      LeadingZerosKeepValue(zeros, init, radix);
    }
  }

  lemma {:induction false} AllZerosHaveNoValue(zeros: string, radix: Radix)
    requires forall i :: 0 <= i < |zeros| ==> zeros[i] == '0'
    ensures AllDigits(zeros, radix)
    ensures Value(zeros, radix) == 0
    decreases |zeros|
  {
    if zeros != [] {
      AllZerosHaveNoValue(zeros[..|zeros| - 1], radix);
    }
  }

  /** The outcome of `Convert.ToInt32(digits, radix)`: an `int`, or the overflow it throws. */
  datatype Conversion = Converted(value: int) | Overflow

  /**
   * `Convert.ToInt32(s, radix)` on a digit run. Base 10 is read as a signed
   * number and overflows above `int.MaxValue`. Base 16 is read as an unsigned
   * 32-bit number, overflows above 0xFFFFFFFF, and has its top bit taken as
   * the sign, so eight digits from 80000000 up come back negative.
   */
  function ToInt32(s: string, radix: Radix): (r: Conversion)
    requires IsNumeral(s, radix)
    ensures radix == 10 ==> (r.Overflow? <==> Value(s, radix) > Int32Max)
    ensures radix == 16 ==> (r.Overflow? <==> Value(s, radix) > UInt32Max)
    ensures r.Converted? ==> Int32Min <= r.value <= Int32Max
    ensures r.Converted? ==> (r.value - Value(s, radix)) % TwoTo32 == 0
    ensures Value(s, radix) <= Int32Max ==> r == Converted(Value(s, radix))
    ensures r.Converted? && r.value >= 0 ==> r.value == Value(s, radix)
  {
    var n := Value(s, radix);
    if radix == 10 then
      if n <= Int32Max then Converted(n) else Overflow
    else if n > UInt32Max then Overflow
    else if n <= Int32Max then Converted(n)
    else Converted(n - TwoTo32)
  }

  /**
   * A group of at most seven hex or nine decimal digits converts to its own,
   * non-negative value; eight hex digits never overflow. Only a group longer
   * than that can come back negative or overflow.
   */
  lemma ShortNumeralsConvertExactly(s: string, radix: Radix)
    requires IsNumeral(s, radix)
    ensures |s| <= (if radix == 16 then 7 else 9) ==> ToInt32(s, radix) == Converted(Value(s, radix))
    ensures radix == 16 && |s| <= 8 ==> ToInt32(s, radix).Converted?
  {
    ValueBelowPower(s, radix);
    if radix == 16 {
      if |s| <= 7 { PowerGrows(16, |s|, 7); }
      if |s| <= 8 { PowerGrows(16, |s|, 8); }
    } else if |s| <= 9 {
      PowerGrows(10, |s|, 9);
    }
  }

  lemma {:induction false} PowerGrows(radix: Radix, j: nat, k: nat)
    requires j <= k
    ensures Power(radix, j) <= Power(radix, k)
    decreases k
  {
    if j < k {
      PowerGrows(radix, j, k - 1);
    }
  }

  function DigitChar(d: nat): (c: char)
    requires d < 16
    ensures IsHexDigit(c) && DigitValue(c) == d && !('a' <= c <= 'f')
  {
    if d < 10 then ('0' as int + d) as char else ('A' as int + d - 10) as char
  }

  /** The shortest upper-case digit string of n in the radix. */
  function Digits(n: nat, radix: Radix): (s: string)
    ensures IsNumeral(s, radix) && IsUpperCase(s)
    ensures Value(s, radix) == n
    ensures |s| == 1 || s[0] != '0'
    decreases n
  {
    if n < radix then [DigitChar(n)]
    else
      var init := Digits(n / radix, radix);
      var s := init + [DigitChar(n % radix)];
      assert s[..|s| - 1] == init;
      s
  }

  /** Below radix^k a number has at most k digits. */
  lemma {:induction false} DigitsWithin(n: nat, radix: Radix, k: nat)
    requires 0 < k && n < Power(radix, k)
    ensures |Digits(n, radix)| <= k
    decreases k
  {
    if n >= radix {
      assert k > 1;
      DigitsWithin(n / radix, radix, k - 1);
    }
  }

  function Zeros(k: nat): (z: string)
    ensures |z| == k && forall i :: 0 <= i < k ==> z[i] == '0'
  {
    seq(k, i => '0')
  }

  /**
   * The digits of n padded on the left with zeros to at least width
   * characters: `n.ToString("X<width>")` for radix 16.
   */
  function Format(n: nat, radix: Radix, width: nat): (s: string)
    ensures IsNumeral(s, radix) && IsUpperCase(s)
    ensures Value(s, radix) == n
    ensures |s| >= width
    ensures |Digits(n, radix)| <= width ==> |s| == width
    ensures |s| > width ==> |s| == 1 || s[0] != '0'
  {
    var digits := Digits(n, radix);
    var zeros := Zeros(if |digits| < width then width - |digits| else 0);
    LeadingZerosKeepValue(zeros, digits, radix);
    zeros + digits
  }

  /** A decimal `int` as string interpolation writes it: a minus sign, then the digits. */
  function DecimalString(v: int): (s: string)
    ensures v >= 0 ==> IsNumeral(s, 10) && Value(s, 10) == v
    ensures v < 0 ==> |s| > 1 && s[0] == '-' && IsNumeral(s[1..], 10) && Value(s[1..], 10) == -v
    ensures v >= 0 ==> |s| == 1 || s[0] != '0'
    ensures v < 0 ==> s[1] != '0'
  {
    if v < 0 then
      var digits := Digits(-v, 10);
      assert digits[0] != '0' by {
        if |digits| == 1 {
          assert Value(digits, 10) == DigitValue(digits[0]);
        }
      }
      "-" + digits
    else Digits(v, 10)
  }
}
