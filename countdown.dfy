/** The countdown display of a task (formatTime). */
module Countdown {
  import opened Values
  import opened Text

  /**
   * `formatTime`: whole minutes, a colon, and the leftover seconds padded to two
   * digits. The minutes are written without leading zeros.
   */
  function FormatTime(seconds: nat): (r: string)
    ensures |r| >= 4 && r[|r| - 3] == ':'
    ensures AllDigits(r[..|r| - 3]) && AllDigits(r[|r| - 2..])
    ensures r[0] == '0' ==> |r| == 4
  {
    var mins := Decimal(seconds / 60);
    var secs := PadStart(Decimal(seconds % 60), 2, '0');
    assert |secs| == 2 && AllDigits(secs) by { SmallDecimal(seconds % 60); }
    var r := mins + ":" + secs;
    assert r[..|r| - 3] == mins;
    assert r[|r| - 2..] == secs;
    assert r[0] == mins[0];
    r
  }

  /** Reads a displayed countdown back as a number of seconds. */
  function ParseTime(t: string): Option<nat> {
    if |t| >= 4 && t[|t| - 3] == ':' && AllDigits(t[..|t| - 3]) && AllDigits(t[|t| - 2..]) then
      Some(ParseDecimal(t[..|t| - 3]) * 60 + ParseDecimal(t[|t| - 2..]))
    else
      None
  }

  lemma SmallDecimal(n: nat)
    requires n < 100
    ensures |Decimal(n)| == if n < 10 then 1 else 2
  {
    if n >= 10 {
      assert Decimal(n) == Decimal(n / 10) + [DigitChar(n % 10)];
    }
  }

  /** A leading zero does not change the value of a numeral. */
  lemma {:induction false} LeadingZero(s: string)
    requires AllDigits(s)
    ensures AllDigits("0" + s) && ParseDecimal("0" + s) == ParseDecimal(s)
  {
    var z := "0" + s;
    if s != [] {
      assert z[..|z| - 1] == "0" + s[..|s| - 1];
      LeadingZero(s[..|s| - 1]);
    }
  }

  /** The padded seconds field reads back as the seconds. */
  lemma PaddedRoundTrip(s: nat)
    requires s < 60
    ensures AllDigits(PadStart(Decimal(s), 2, '0'))
    ensures ParseDecimal(PadStart(Decimal(s), 2, '0')) == s
  {
    DecimalRoundTrip(s);
    SmallDecimal(s);
    if s < 10 {
      assert PadStart(Decimal(s), 2, '0') == "0" + Decimal(s);
      LeadingZero(Decimal(s));
    }
  }

  /**
   * The display shows the whole minutes before the colon and the leftover
   * seconds, below 60, after it; read back, they give the countdown.
   */
  lemma FormatTimeRoundTrip(seconds: nat)
    ensures var r := FormatTime(seconds);
      && ParseDecimal(r[..|r| - 3]) == seconds / 60
      && ParseDecimal(r[|r| - 2..]) == seconds % 60 < 60
    ensures ParseTime(FormatTime(seconds)) == Some(seconds)
  {
    var m, s := seconds / 60, seconds % 60;
    var r := FormatTime(seconds);
    var mins, secs := Decimal(m), PadStart(Decimal(s), 2, '0');
    assert r[..|r| - 3] == mins && r[|r| - 2..] == secs;
    DecimalRoundTrip(m);
    PaddedRoundTrip(s);
  }

  /** Since the seconds field is below 60, different countdowns display differently. */
  lemma FormatTimeInjective(a: nat, b: nat)
    requires FormatTime(a) == FormatTime(b)
    ensures a == b
  {
    FormatTimeRoundTrip(a);
    FormatTimeRoundTrip(b);
  }
}
