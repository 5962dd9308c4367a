/**
 * Rendering a countdown as `"  H:MM:SS  "` (`get_hms` in src/d4evts.rs):
 * hours unpadded, minutes and seconds zero-filled to two digits, two spaces
 * on either side.
 */
module Hms {

  import opened Arith
  import opened Decimal
  import opened Wrappers

  /** A duration split into hours, minutes and seconds. */
  datatype Parts = Parts(hours: nat, mins: nat, secs: nat)

  /**
   * The split `get_hms` performs: seconds first, then whole minutes, which
   * are carried into hours only once there are sixty or more of them.
   */
  function SplitHms(delta: nat): (t: Parts)
    ensures t.mins < 60 && t.secs < 60
    ensures 3600 * t.hours + 60 * t.mins + t.secs == delta
  {
    var seconds := delta % 60;
    var mins := (delta - seconds) / 60;
    if mins >= 60 then Parts(mins / 60, mins % 60, seconds) else Parts(0, mins, seconds)
  }

  /** Hours, minutes below 60 and seconds below 60 that add up to `delta` are the split. */
  lemma SplitHmsUnique(delta: nat, h: nat, m: nat, s: nat)
    requires m < 60 && s < 60 && 3600 * h + 60 * m + s == delta
    ensures SplitHms(delta) == Parts(h, m, s)
  {
    var t := SplitHms(delta);
    DivModUnique(delta, 60, 60 * h + m, s);
    DivModUnique(delta, 60, 60 * t.hours + t.mins, t.secs);
    DivModUnique(60 * h + m, 60, h, m);
    DivModUnique(60 * t.hours + t.mins, 60, t.hours, t.mins);
  }

  /** The conditional split agrees with the unconditional formulas. */
  lemma SplitHmsClosedForm(delta: nat)
    ensures SplitHms(delta) == Parts(delta / 3600, (delta / 60) % 60, delta % 60)
  {
    var t := SplitHms(delta);
    DivModUnique(delta, 3600, t.hours, 60 * t.mins + t.secs);
    DivModUnique(delta, 60, 60 * t.hours + t.mins, t.secs);
    DivModUnique(60 * t.hours + t.mins, 60, t.hours, t.mins);
  }

  /** `get_hms(delta)`. */
  function GetHms(delta: U64): (s: string)
    ensures |s| == |NatToString(delta / 3600)| + 10
    ensures s[..2] == "  " && s[|s| - 2..] == "  "
    ensures s[|s| - 8] == ':' && s[|s| - 5] == ':'
  {
    var t := SplitHms(delta);
    SplitHmsClosedForm(delta);
    "  " + NatToString(t.hours) + ":" + ZeroPad2(t.mins) + ":" + ZeroPad2(t.secs) + "  "
  }

  /**
   * Reads a duration back from its display: two spaces, canonical decimal
   * hours, `:`, two-digit minutes below 60, `:`, two-digit seconds below 60,
   * two spaces. Anything else is `None`.
   */
  function DecodeHms(s: string): Option<nat> {
    if |s| < 11 then None
    else
      var n := |s|;
      var hours, mins, secs := s[2..n - 8], s[n - 7..n - 5], s[n - 4..n - 2];
      if && s[..2] == "  " && s[n - 2..] == "  " && s[n - 8] == ':' && s[n - 5] == ':'
         && IsCanonical(hours) && AllDigits(mins) && AllDigits(secs)
         && ParseDecimal(mins) < 60 && ParseDecimal(secs) < 60
      then Some(3600 * ParseDecimal(hours) + 60 * ParseDecimal(mins) + ParseDecimal(secs))
      else None
  }

  /** The display of `delta` reads back as `delta`. */
  lemma DecodeGetHms(delta: U64)
    ensures DecodeHms(GetHms(delta)) == Some(delta)
  {
    var t := SplitHms(delta);
    var h, m, sec := NatToString(t.hours), ZeroPad2(t.mins), ZeroPad2(t.secs);
    var s := GetHms(delta);
    var n := |s|;
    assert s == "  " + h + ":" + m + ":" + sec + "  ";
    assert s[2..n - 8] == h;
    assert s[n - 7..n - 5] == m;
    assert s[n - 4..n - 2] == sec;
    ParseNatToString(t.hours);
    ParseZeroPad2(t.mins);
    ParseZeroPad2(t.secs);
  }

  /** Every string that reads back as some `delta` is exactly the display of `delta`. */
  lemma GetHmsDecode(s: string, delta: U64)
    requires DecodeHms(s) == Some(delta)
    ensures GetHms(delta) == s
  {
    var n := |s|;
    var hours, mins, secs := s[2..n - 8], s[n - 7..n - 5], s[n - 4..n - 2];
    var h, m, sec := ParseDecimal(hours), ParseDecimal(mins), ParseDecimal(secs);
    SplitHmsUnique(delta, h, m, sec);
    NatToStringParse(hours);
    ZeroPad2Parse(mins);
    ZeroPad2Parse(secs);
    assert s == s[..2] + hours + [s[n - 8]] + mins + [s[n - 5]] + secs + s[n - 2..];
  }

  /** `DecodeHms` and `GetHms` are inverse: a string decodes to `delta` exactly when it displays `delta`. */
  lemma DisplayIffDecodes(s: string, delta: U64)
    ensures DecodeHms(s) == Some(delta) <==> s == GetHms(delta)
  {
    if DecodeHms(s) == Some(delta) {
      GetHmsDecode(s, delta);
    }
    if s == GetHms(delta) {
      DecodeGetHms(delta);
    }
  }

  /** Distinct durations are displayed differently. */
  lemma GetHmsInjective(a: U64, b: U64)
    requires GetHms(a) == GetHms(b)
    ensures a == b
  {
    DecodeGetHms(a);
    DecodeGetHms(b);
  }

  // The cases of `test_get_hms` in src/d4evts.rs.

  lemma HmsVectorOneHour()
    ensures GetHms(3600 + 8 * 60 + 34) == "  1:08:34  "
  {
  }

  lemma HmsVectorJustUnderAnHour()
    ensures GetHms(3599) == "  0:59:59  "
  {
  }

  lemma HmsVectorOneSecond()
    ensures GetHms(1) == "  0:00:01  "
  {
  }
}
