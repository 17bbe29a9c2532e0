/** Decimal text for the `%d` and `%0Nd` conversions the encoders apply to
    integers (Python's `%` operator in epilog.py, `sprintf` in
    web/epilog.js), a reader for such text, and the truncation toward zero
    that `%d` applies to a non-integral coordinate. */
module Decimal {
  import opened Results

  predicate IsDigit(c: char) {
    '0' <= c <= '9'
  }

  predicate AllDigits(s: string) {
    forall i :: 0 <= i < |s| ==> IsDigit(s[i])
  }

  function DigitChar(d: nat): (c: char)
    requires d < 10
    ensures IsDigit(c) && DigitValue(c) == d
  {
    (d + '0' as int) as char
  }

  function DigitValue(c: char): nat
    requires IsDigit(c)
  {
    c as int - '0' as int
  }

  /** The number a string of digits denotes, leading zeros allowed. */
  function DigitsValue(s: string): nat
    requires AllDigits(s)
  {
    if s == [] then 0 else DigitsValue(s[..|s| - 1]) * 10 + DigitValue(s[|s| - 1])
  }

  /** The shortest decimal numeral of n: digits only, never empty, no
      leading zero. */
  function NatToString(n: nat): (s: string)
    ensures |s| >= 1 && AllDigits(s)
    ensures |s| > 1 ==> s[0] != '0'
    ensures n < 10 <==> |s| == 1
  {
    if n < 10 then [DigitChar(n)] else NatToString(n / 10) + [DigitChar(n % 10)]
  }

  lemma {:induction false} NatToStringValue(n: nat)
    ensures DigitsValue(NatToString(n)) == n
  {
    if n >= 10 {
      NatToStringValue(n / 10);
      var s := NatToString(n);
      assert s[..|s| - 1] == NatToString(n / 10);
    }
  }

  /** `%d` of an integer: a minus sign for negatives, then the numeral of
      the magnitude. */
  function FormatInt(i: int): string {
    if i < 0 then "-" + NatToString(-i) else NatToString(i)
  }

  function Zeros(k: nat): (z: string)
    ensures |z| == k && AllDigits(z)
    ensures forall j :: 0 <= j < k ==> z[j] == '0'
  {
    if k == 0 then [] else Zeros(k - 1) + "0"
  }

  /** `%0Nd`: the sign, then zeros, then the numeral of the magnitude, with
      enough zeros that the whole is at least `width` long. */
  function FormatPadded(i: int, width: nat): (s: string)
    ensures |s| == if |FormatInt(i)| < width then width else |FormatInt(i)|
    ensures i >= 0 ==> AllDigits(s)
  {
    var sign := if i < 0 then "-" else "";
    var digits := NatToString(if i < 0 then -i else i);
    var len := |sign| + |digits|;
    sign + Zeros(if len < width then width - len else 0) + digits
  }

  /** Reads an optional minus sign followed by one or more digits; anything
      else is not a numeral. */
  function ParseInt(s: string): (r: Option<int>)
    ensures r.Some? ==> |s| >= 1
  {
    if |s| >= 1 && s[0] == '-' then
      if |s| >= 2 && AllDigits(s[1..]) then Some(-(DigitsValue(s[1..]) as int)) else None
    else if |s| >= 1 && AllDigits(s) then Some(DigitsValue(s))
    else None
  }

  /** Distinct integers have distinct `%d` texts. */
  lemma FormatIntInjective(i: int, j: int)
    requires FormatInt(i) == FormatInt(j)
    ensures i == j
  {
    ParseFormatInt(i);
    ParseFormatInt(j);
  }

  /** Leading zeros do not change the value of a numeral. */
  lemma {:induction false} LeadingZeros(k: nat, s: string)
    requires AllDigits(s)
    ensures AllDigits(Zeros(k) + s) && DigitsValue(Zeros(k) + s) == DigitsValue(s)
    decreases |s| + k
  {
    var z := Zeros(k) + s;
    if s == [] {
      assert z == Zeros(k);
      if k > 0 {
        LeadingZeros(k - 1, []);
        assert z[..|z| - 1] == Zeros(k - 1) + [];
      }
    } else {
      LeadingZeros(k, s[..|s| - 1]);
      assert z[..|z| - 1] == Zeros(k) + s[..|s| - 1];
    }
  }

  /** A numeral, with a minus sign in front when negative, reads back as
      its value. */
  lemma ParseSigned(negative: bool, body: string)
    requires |body| >= 1 && AllDigits(body)
    ensures ParseInt((if negative then "-" else "") + body) ==
            Some(if negative then -(DigitsValue(body) as int) else DigitsValue(body))
  {
    if negative {
      ParseNegative(body);
    } else {
      ParseUnsigned(body);
      assert "" + body == body;
    }
  }

  lemma ParseNegative(body: string)
    requires |body| >= 1 && AllDigits(body)
    ensures ParseInt("-" + body) == Some(-(DigitsValue(body) as int))
  {
    var s := "-" + body;
    assert s[0] == '-' && |s| >= 2;
    assert s[1..] == body;
  }

  lemma ParseUnsigned(body: string)
    requires |body| >= 1 && AllDigits(body)
    ensures ParseInt(body) == Some(DigitsValue(body))
  {
    assert IsDigit(body[0]) && body[0] != '-';
  }

  /** `%d` text reads back as the integer it came from. */
  lemma ParseFormatInt(i: int)
    ensures ParseInt(FormatInt(i)) == Some(i)
  {
    var m := if i < 0 then -i else i;
    NatToStringValue(m);
    ParseSigned(i < 0, NatToString(m));
  }

  /** `%0Nd` text also reads back as the integer it came from. */
  lemma ParseFormatPadded(i: int, width: nat)
    ensures ParseInt(FormatPadded(i, width)) == Some(i)
  {
    var sign := if i < 0 then "-" else "";
    var m := if i < 0 then -i else i;
    var digits := NatToString(m);
    var len := |sign| + |digits|;
    var k := if len < width then width - len else 0;
    NatToStringValue(m);
    LeadingZeros(k, digits);
    var body := Zeros(k) + digits;
    assert FormatPadded(i, width) == sign + body by {
      assert sign + Zeros(k) + digits == sign + (Zeros(k) + digits);
    }
    ParseSigned(i < 0, body);
  }

  /** Truncation toward zero, what `%d` does to a non-integral number. */
  function Trunc(r: real): (t: int)
    ensures r >= 0.0 ==> 0 <= t && t as real <= r < t as real + 1.0
    ensures r < 0.0 ==> t <= 0 && t as real - 1.0 < r <= t as real
  {
    if r >= 0.0 then r.Floor else -((-r).Floor)
  }

  /** Truncation keeps integers and is odd. */
  lemma TruncOfInt(n: int)
    ensures Trunc(n as real) == n
    ensures Trunc(-(n as real)) == -n
  {
  }
}
