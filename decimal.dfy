/**
 * Decimal rendering of unsigned integers, as Rust's `format!` prints them:
 * `{}` gives the shortest digit string, `{:02}` pads it with zeros on the
 * left to a width of at least two characters.
 */
module Decimal {

  predicate IsDigit(c: char) {
    '0' <= c <= '9'
  }

  predicate AllDigits(s: string) {
    forall i :: 0 <= i < |s| ==> IsDigit(s[i])
  }

  /** The numeric value of one digit character. */
  function DigitValue(c: char): (d: nat)
    requires IsDigit(c)
    ensures d < 10
  {
    c as int - '0' as int
  }

  /** The digit character for a value below ten. */
  function DigitChar(d: nat): (c: char)
    requires d < 10
    ensures IsDigit(c) && DigitValue(c) == d
  {
    ('0' as int + d) as char
  }

  /** The value a digit string denotes, most significant digit first; `""` is 0. */
  function ParseDecimal(s: string): nat
    requires AllDigits(s)
  {
    if s == [] then 0 else 10 * ParseDecimal(s[..|s| - 1]) + DigitValue(s[|s| - 1])
  }

  /** A digit string with no superfluous leading zero: the form `{}` prints. */
  predicate IsCanonical(s: string) {
    AllDigits(s) && |s| >= 1 && (s[0] == '0' ==> |s| == 1)
  }

  /** `format!("{}", n)` for an unsigned integer `n`. */
  function NatToString(n: nat): (s: string)
    ensures IsCanonical(s)
    ensures s[0] == '0' <==> n == 0
    ensures n < 10 <==> |s| == 1
  {
    if n < 10 then [DigitChar(n)] else NatToString(n / 10) + [DigitChar(n % 10)]
  }

  /** `format!("{:02}", n)`: the digits of `n`, zero-filled to at least two characters. */
  function ZeroPad2(n: nat): (s: string)
    ensures AllDigits(s)
    ensures |s| == if n < 10 then 2 else |NatToString(n)|
    ensures n < 100 ==> |s| == 2
    ensures n >= 10 ==> s == NatToString(n)
  {
    var digits := NatToString(n);
    if |digits| < 2 then "0" + digits else digits
  }

  lemma DigitRoundTrip(c: char)
    requires IsDigit(c)
    ensures DigitChar(DigitValue(c)) == c
  {
  }

  /** Reading back what `NatToString` prints gives the number. */
  lemma {:induction false} ParseNatToString(n: nat)
    ensures ParseDecimal(NatToString(n)) == n
  {
    var s := NatToString(n);
    if n < 10 {
      assert s[..0] == [];
    } else {
      ParseNatToString(n / 10);
      assert s[..|s| - 1] == NatToString(n / 10);
    }
  }

  /** Every canonical digit string is what `NatToString` prints for its value. */
  lemma {:induction false} NatToStringParse(s: string)
    requires IsCanonical(s)
    ensures NatToString(ParseDecimal(s)) == s
    decreases |s|
  {
    var n := ParseDecimal(s);
    var last := s[|s| - 1];
    DigitRoundTrip(last);
    if |s| == 1 {
      assert ParseDecimal(s[..0]) == 0;
      assert n == DigitValue(last);
    } else {
      var init := s[..|s| - 1];
      assert init[0] == s[0];
      NatToStringParse(init);
      var m := ParseDecimal(init);
      // init does not start with '0', so its value is not zero
      assert m != 0;
      assert n == 10 * m + DigitValue(last);
      assert n / 10 == m && n % 10 == DigitValue(last);
      assert s == init + [last];
    }
  }

  /** `NatToString` is injective: distinct numbers print differently. */
  lemma NatToStringInjective(a: nat, b: nat)
    requires NatToString(a) == NatToString(b)
    ensures a == b
  {
    ParseNatToString(a);
    ParseNatToString(b);
  }

  /** A leading zero does not change a digit string's value. */
  lemma {:induction false} ParseLeadingZero(s: string)
    requires AllDigits(s)
    ensures AllDigits("0" + s) && ParseDecimal("0" + s) == ParseDecimal(s)
    decreases |s|
  {
    var t := "0" + s;
    if s == [] {
      assert t[..0] == [];
    } else {
      ParseLeadingZero(s[..|s| - 1]);
      assert t[..|t| - 1] == "0" + s[..|s| - 1];
    }
  }

  /** Reading back what `ZeroPad2` prints gives the number. */
  lemma ParseZeroPad2(n: nat)
    ensures ParseDecimal(ZeroPad2(n)) == n
  {
    ParseNatToString(n);
    if n < 10 {
      ParseLeadingZero(NatToString(n));
    }
  }

  /** Every two-digit string is what `ZeroPad2` prints for its value. */
  lemma ZeroPad2Parse(s: string)
    requires AllDigits(s) && |s| == 2
    ensures ZeroPad2(ParseDecimal(s)) == s
  {
    assert s[..1][..0] == [] && s[..1][0] == s[0];
    assert ParseDecimal(s[..1]) == DigitValue(s[0]);
    DigitRoundTrip(s[0]);
    DigitRoundTrip(s[1]);
    var n := ParseDecimal(s);
    assert n == 10 * DigitValue(s[0]) + DigitValue(s[1]);
    if s[0] == '0' {
      assert n == DigitValue(s[1]);
      assert ZeroPad2(n) == "0" + [DigitChar(n)];
    } else {
      assert n / 10 == DigitValue(s[0]) && n % 10 == DigitValue(s[1]);
      assert NatToString(n / 10) == [s[0]];
    }
  }
}
