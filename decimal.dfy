/**
 * Decimal rendering of integers, as Go's fmt "%d" verb and the zero-padded
 * fields of time.Format produce it.
 */
module Decimal {

  import opened Common

  predicate IsDigit(c: char) {
    '0' <= c <= '9'
  }

  predicate AllDigits(s: string) {
    forall k :: 0 <= k < |s| ==> IsDigit(s[k])
  }

  function DigitChar(d: nat): (c: char)
    requires d < 10
    ensures IsDigit(c)
  {
    ('0' as int + d) as char
  }

  /** The digits of `n`, most significant first, without leading zeros. */
  function Digits(n: nat): (s: string)
    ensures s != [] && AllDigits(s)
    ensures s[0] == '0' ==> n == 0
    decreases n
  {
    if n < 10 then [DigitChar(n)] else Digits(n / 10) + [DigitChar(n % 10)]
  }

  /** The number a string of digits denotes. */
  function DigitsValue(s: string): nat
    requires AllDigits(s)
    decreases |s|
  {
    if s == [] then 0 else DigitsValue(s[..|s| - 1]) * 10 + (s[|s| - 1] as int - '0' as int)
  }

  /** Reading the digits back gives the number: the rendering loses nothing. */
  lemma {:induction false} DigitsRoundTrip(n: nat)
    ensures DigitsValue(Digits(n)) == n
    decreases n
  {
    if n >= 10 {
      DigitsRoundTrip(n / 10);
      var s := Digits(n);
      assert s[..|s| - 1] == Digits(n / 10);
    }
  }

  /** fmt.Sprintf("%d", n): a minus sign before the digits of a negative number. */
  function DecimalString(n: int): (s: string)
    ensures s != [] && '/' !in s && '.' !in s
    ensures IsDigit(s[0]) || s[0] == '-'
  {
    if n < 0 then "-" + Digits(-n) else Digits(n)
  }

  /** Reads back what DecimalString writes: an optional minus sign and digits. */
  function DecimalValue(s: string): Option<int> {
    if s != [] && s[0] == '-' && s[1..] != [] && AllDigits(s[1..]) then Some(0 - DigitsValue(s[1..]) as int)
    else if s != [] && AllDigits(s) then Some(DigitsValue(s))
    else None
  }

  /** The "%d" rendering of any integer reads back as that integer. */
  lemma DecimalRoundTrip(n: int)
    ensures DecimalValue(DecimalString(n)) == Some(n)
  {
    if n < 0 {
      var d := Digits(-n);
      DigitsRoundTrip(-n);
      assert DecimalString(n) == "-" + d;
      assert ("-" + d)[0] == '-' && ("-" + d)[1..] == d;
    } else {
      var d := Digits(n);
      DigitsRoundTrip(n);
      assert DecimalString(n) == d && IsDigit(d[0]);
    }
  }

  /** The length of a text of `len` characters padded to `width`: the larger of the two. */
  function PaddedLength(len: nat, width: nat): nat {
    if len >= width then len else width
  }

  /** Left-pads `s` with zeros to at least `width` characters (time.Format's "2006", "01", "02"). */
  function ZeroPad(s: string, width: nat): (r: string)
    ensures |r| == PaddedLength(|s|, width)
    ensures r[|r| - |s|..] == s
    ensures forall k :: 0 <= k < |r| - |s| ==> r[k] == '0'
    ensures AllDigits(s) ==> AllDigits(r)
    decreases width - |s|
  {
    if |s| >= width then s else ZeroPad("0" + s, width)
  }

  /** A leading zero does not change the number a string of digits denotes. */
  lemma {:induction false} LeadingZero(s: string)
    requires AllDigits(s)
    ensures AllDigits("0" + s) && DigitsValue("0" + s) == DigitsValue(s)
    decreases |s|
  {
    var z := "0" + s;
    assert AllDigits(z) by {
      forall k | 0 <= k < |z| ensures IsDigit(z[k]) {
        if k > 0 { assert z[k] == s[k - 1]; }
      }
    }
    if s != [] {
      var init := s[..|s| - 1];
      assert AllDigits(init) by {
        forall k | 0 <= k < |init| ensures IsDigit(init[k]) { assert init[k] == s[k]; }
      }
      assert z[..|z| - 1] == "0" + init;
      assert z[|z| - 1] == s[|s| - 1];
      LeadingZero(init);
    }
  }

  /** Zero padding keeps the value: "07" still reads as 7. */
  lemma {:induction false} ZeroPadValue(s: string, width: nat)
    requires AllDigits(s)
    ensures DigitsValue(ZeroPad(s, width)) == DigitsValue(s)
    decreases width - |s|
  {
    if |s| < width {
      LeadingZero(s);
      ZeroPadValue("0" + s, width);
    }
  }
}
