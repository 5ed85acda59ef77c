/**
 * Decimal rendering of integers, as Python's `str()` and `format(x, "0<w>d")`
 * and JavaScript's number-to-string conversion produce it for integers, and
 * a reader for such text. The reader is not part of the program: it is the
 * inverse against which the renderings are shown to lose nothing.
 */
module Decimal {
  import opened Wrappers

  predicate IsDigit(c: char) {
    '0' <= c <= '9'
  }

  predicate AllDigits(s: string) {
    forall i :: 0 <= i < |s| ==> IsDigit(s[i])
  }

  function DigitChar(d: nat): (c: char)
    requires d < 10
    ensures IsDigit(c)
  {
    ('0' as int + d) as char
  }

  function DigitValue(c: char): (d: nat)
    requires IsDigit(c)
    ensures d < 10 && DigitChar(d) == c
  {
    c as int - '0' as int
  }

  /** The decimal form of `n`: most significant digit first, no leading zero except for 0 itself. */
  function NatToString(n: nat): (s: string)
    ensures |s| >= 1 && AllDigits(s)
    ensures (s[0] == '0') == (n == 0)
    decreases n
  {
    if n < 10 then [DigitChar(n)] else NatToString(n / 10) + [DigitChar(n % 10)]
  }

  /** The value of a string of decimal digits (0 for the empty string). */
  function ParseDigits(s: string): nat
    requires AllDigits(s)
    decreases |s|
  {
    if s == [] then 0 else 10 * ParseDigits(s[..|s| - 1]) + DigitValue(s[|s| - 1])
  }

  function Pow10(k: nat): (p: nat)
    ensures p >= 1
  {
    if k == 0 then 1 else 10 * Pow10(k - 1)
  }

  /** Reading the decimal form back gives the number: the rendering is injective. */
  lemma {:induction false} ParseNatToString(n: nat)
    ensures ParseDigits(NatToString(n)) == n
  {
    if n >= 10 {
      var s := NatToString(n);
      assert s[..|s| - 1] == NatToString(n / 10);
      ParseNatToString(n / 10);
    }
  }

  /** A number has exactly k digits when it lies in [10^(k-1), 10^k) (or k = 1 and it is below 10). */
  lemma {:induction false} NatToStringLength(n: nat, k: nat)
    requires k >= 1 && n < Pow10(k) && (k == 1 || Pow10(k - 1) <= n)
    ensures |NatToString(n)| == k
  {
    if k > 1 {
      NatToStringLength(n / 10, k - 1);
    }
  }

  function Zeros(k: nat): (z: string)
    ensures |z| == k && forall i :: 0 <= i < k ==> z[i] == '0'
  {
    seq(k, _ => '0')
  }

  /** Zeros in front of a digit string until it is `width` characters long. */
  function ZeroPad(digits: string, width: nat): string
  {
    Zeros(if |digits| < width then width - |digits| else 0) + digits
  }

  /**
   * Python's `format(x, "0<width>d")` for an integer x: a minus sign for a
   * negative x, then the digits of |x|, with zeros inserted between sign and
   * digits until the whole has at least `width` characters.
   */
  function FormatInt(x: int, width: nat): (s: string)
    ensures |s| >= width && |s| >= 1
    ensures s[0] == '-' <==> x < 0
  {
    var sign := if x < 0 then "-" else "";
    sign + ZeroPad(NatToString(if x < 0 then -x else x), if |sign| < width then width - |sign| else 0)
  }

  /** The three cases of `:02d`: one zero before a single digit, larger values unpadded, negatives as "-" and digits. */
  lemma {:induction false} FormatWidth2(x: int)
    ensures 0 <= x < 10 ==> FormatInt(x, 2) == ['0', DigitChar(x)]
    ensures x >= 10 ==> FormatInt(x, 2) == NatToString(x)
    ensures x < 0 ==> FormatInt(x, 2) == "-" + NatToString(-x)
  {
    if x >= 10 {
      assert |NatToString(x)| >= 2;
    }
  }

  /** The length of the longest prefix of `s` made of digits. */
  function DigitRun(s: string): (k: nat)
    ensures k <= |s| && AllDigits(s[..k])
    ensures k < |s| ==> !IsDigit(s[k])
    decreases |s|
  {
    if s == [] || !IsDigit(s[0]) then 0 else 1 + DigitRun(s[1..])
  }

  /** Reads at least one digit; returns the value and the rest of the text. */
  function ParseNat(s: string): Option<(nat, string)>
  {
    var k := DigitRun(s);
    if k == 0 then None else Some((ParseDigits(s[..k]), s[k..]))
  }

  /** Reads an optional minus sign and at least one digit; returns the value and the rest of the text. */
  function ParseInt(s: string): Option<(int, string)>
  {
    if |s| > 0 && s[0] == '-' then
      var (v, rest) :- ParseNat(s[1..]);
      Some((-(v as int), rest))
    else
      var (v, rest) :- ParseNat(s);
      Some((v as int, rest))
  }

  /** Consumes the literal `lit` at the start of `s`. */
  function Expect(lit: string, s: string): Option<string>
  {
    if |lit| <= |s| && s[..|lit|] == lit then Some(s[|lit|..]) else None
  }

  lemma {:induction false} ExpectLiteral(lit: string, rest: string)
    ensures Expect(lit, lit + rest) == Some(rest)
  {
    assert (lit + rest)[..|lit|] == lit;
    assert (lit + rest)[|lit|..] == rest;
  }

  lemma {:induction false} ParseDigitsLeadingZeros(z: string, s: string)
    requires AllDigits(s) && forall i :: 0 <= i < |z| ==> z[i] == '0'
    ensures AllDigits(z + s) && ParseDigits(z + s) == ParseDigits(s)
    decreases |s|
  {
    if s == [] {
      assert z + s == z;
      ParseDigitsZeros(z);
    } else {
      assert (z + s)[..|z + s| - 1] == z + s[..|s| - 1];
      ParseDigitsLeadingZeros(z, s[..|s| - 1]);
    }
  }

  lemma {:induction false} ParseDigitsZeros(z: string)
    requires forall i :: 0 <= i < |z| ==> z[i] == '0'
    ensures AllDigits(z) && ParseDigits(z) == 0
    decreases |z|
  {
    if z != [] {
      ParseDigitsZeros(z[..|z| - 1]);
    }
  }

  /** A run of digits followed by a non-digit (or by nothing) is read exactly up to its end. */
  lemma {:induction false} DigitRunOf(d: string, rest: string)
    requires AllDigits(d) && (rest == [] || !IsDigit(rest[0]))
    ensures DigitRun(d + rest) == |d|
    ensures (d + rest)[..|d|] == d && (d + rest)[|d|..] == rest
  {
  }

  lemma {:induction false} ParseNatOf(d: string, rest: string)
    requires |d| >= 1 && AllDigits(d) && (rest == [] || !IsDigit(rest[0]))
    ensures ParseNat(d + rest) == Some((ParseDigits(d), rest))
  {
    DigitRunOf(d, rest);
  }

  lemma {:induction false} ParseUnsigned(d: string, rest: string)
    requires |d| >= 1 && AllDigits(d) && (rest == [] || !IsDigit(rest[0]))
    ensures ParseInt(d + rest) == Some((ParseDigits(d) as int, rest))
  {
    ParseNatOf(d, rest);
    assert (d + rest)[0] == d[0];
  }

  lemma {:induction false} ParseNegative(d: string, rest: string)
    requires |d| >= 1 && AllDigits(d) && (rest == [] || !IsDigit(rest[0]))
    ensures ParseInt("-" + d + rest) == Some((-(ParseDigits(d) as int), rest))
  {
    assert ("-" + d + rest)[1..] == d + rest;
    ParseNatOf(d, rest);
  }

  lemma {:induction false} ParseZeroPad(digits: string, width: nat)
    requires |digits| >= 1 && AllDigits(digits)
    ensures |ZeroPad(digits, width)| >= 1 && AllDigits(ZeroPad(digits, width))
    ensures ParseDigits(ZeroPad(digits, width)) == ParseDigits(digits)
  {
    var z := Zeros(if |digits| < width then width - |digits| else 0);
    ParseDigitsLeadingZeros(z, digits);
  }

  /** A formatted integer is a sign (for negatives) followed by digits whose value is the magnitude. */
  lemma {:induction false} FormatIntDigits(x: int, width: nat) returns (d: string)
    ensures |d| >= 1 && AllDigits(d)
    ensures ParseDigits(d) as int == (if x < 0 then -x else x)
    ensures FormatInt(x, width) == (if x < 0 then "-" + d else d)
  {
    var magnitude := if x < 0 then -x else x;
    var w := if x < 0 && 1 < width then width - 1 else if x < 0 then 0 else width;
    d := ZeroPad(NatToString(magnitude), w);
    ParseZeroPad(NatToString(magnitude), w);
    ParseNatToString(magnitude);
    if x >= 0 {
      assert FormatInt(x, width) == "" + d;
      assert "" + d == d;
    } else {
      assert FormatInt(x, width) == "-" + d;
    }
  }

  /** Reading a formatted integer back gives the integer and leaves what follows it untouched. */
  lemma {:induction false} ParseFormatInt(x: int, width: nat, rest: string)
    requires rest == [] || !IsDigit(rest[0])
    ensures ParseInt(FormatInt(x, width) + rest) == Some((x, rest))
  {
    var d := FormatIntDigits(x, width);
    if x >= 0 {
      ParseUnsigned(d, rest);
    } else {
      ParseNegative(d, rest);
    }
  }
}
