/**
 * The stopwatch's display formatter: elapsed milliseconds split into
 * minutes, seconds and centiseconds, each written in decimal and
 * left-padded with '0' to at least two characters (what
 * `n.toString().padStart(2, "0")` produces for a non-negative integer).
 */
module TimeFormat {

  const MsPerMinute: nat := 60000
  const MsPerSecond: nat := 1000
  const MsPerCentisecond: nat := 10

  /** The fields of the formatted time, as displayed. */
  datatype FormattedTime = FormattedTime(minutes: string, seconds: string, centiseconds: string)

  // ---------------------------------------------------------------------
  // Splitting milliseconds (floor division on non-negative integers)
  // ---------------------------------------------------------------------

  function Minutes(ms: nat): nat {
    ms / MsPerMinute
  }

  function Seconds(ms: nat): (r: nat)
    ensures r < 60
  {
    (ms % MsPerMinute) / MsPerSecond
  }

  function Centiseconds(ms: nat): (r: nat)
    ensures r < 100
  {
    (ms % MsPerSecond) / MsPerCentisecond
  }

  /** Division by 1000 and by 10 with remainder have only one answer. */
  lemma DivModUnique1000(a: nat, q: nat, r: nat)
    requires a == 1000 * q + r && r < 1000
    ensures a / 1000 == q && a % 1000 == r
  {
  }

  lemma DivModUnique10(a: nat, q: nat, r: nat)
    requires a == 10 * q + r && r < 10
    ensures a / 10 == q && a % 10 == r
  {
  }

  /** The three fields and the dropped sub-centisecond digit give back the input. */
  lemma Decompose(ms: nat)
    ensures Minutes(ms) * MsPerMinute + Seconds(ms) * MsPerSecond
            + Centiseconds(ms) * MsPerCentisecond + ms % 10 == ms
  {
    var q, r1 := ms / 60000, ms % 60000;
    var s, r2 := r1 / 1000, r1 % 1000;
    assert ms == 1000 * (60 * q + s) + r2;
    DivModUnique1000(ms, 60 * q + s, r2);
    var c, r3 := r2 / 10, r2 % 10;
    assert ms == 10 * (100 * (60 * q + s) + c) + r3;
    DivModUnique10(ms, 100 * (60 * q + s) + c, r3);
  }

  // ---------------------------------------------------------------------
  // Decimal digits
  // ---------------------------------------------------------------------

  predicate IsDigit(c: char) {
    '0' <= c <= '9'
  }

  predicate AllDigits(s: string) {
    forall i :: 0 <= i < |s| ==> IsDigit(s[i])
  }

  function DigitChar(d: nat): (c: char)
    requires d < 10
    ensures IsDigit(c)
  {
    ('0' as int + d) as char
  }

  function DigitValue(c: char): (d: nat)
    requires IsDigit(c)
    ensures d < 10
  {
    c as int - '0' as int
  }

  /** The decimal numeral of `n` without leading zeros, as `toString` writes it. */
  function NatToString(n: nat): (r: string)
    ensures 1 <= |r|
    ensures AllDigits(r)
    ensures |r| == 1 <==> n < 10
    ensures n < 100 ==> |r| <= 2
    ensures r[0] == '0' ==> n == 0
    decreases n
  {
    if n < 10 then [DigitChar(n)] else NatToString(n / 10) + [DigitChar(n % 10)]
  }

  /** The number a string of decimal digits denotes (the inverse of NatToString). */
  function DigitsValue(s: string): nat
    requires AllDigits(s)
    decreases |s|
  {
    if s == [] then 0 else 10 * DigitsValue(s[..|s| - 1]) + DigitValue(s[|s| - 1])
  }

  lemma {:induction false} NatToStringRoundTrip(n: nat)
    ensures DigitsValue(NatToString(n)) == n
    decreases n
  {
    if n >= 10 {
      var s := NatToString(n);
      assert s[..|s| - 1] == NatToString(n / 10);
      NatToStringRoundTrip(n / 10);
    }
  }

  /** A leading zero does not change the value of a numeral. */
  lemma {:induction false} LeadingZeroValue(s: string)
    requires AllDigits(s)
    ensures AllDigits(['0'] + s) && DigitsValue(['0'] + s) == DigitsValue(s)
    decreases |s|
  {
    var t := ['0'] + s;
    if s != [] {
      assert t[..|t| - 1] == ['0'] + s[..|s| - 1];
      LeadingZeroValue(s[..|s| - 1]);
    }
  }

  // ---------------------------------------------------------------------
  // padStart(2, "0")
  // ---------------------------------------------------------------------

  /** `s` left-padded with '0' up to length 2; a string already that long is kept. */
  function PadStart2(s: string): (r: string)
    ensures |r| == if |s| < 2 then 2 else |s|
    ensures r[|r| - |s|..] == s
    ensures forall i :: 0 <= i < |r| - |s| ==> r[i] == '0'
    ensures AllDigits(s) ==> AllDigits(r)
    decreases 2 - |s|
  {
    if |s| >= 2 then s else PadStart2(['0'] + s)
  }

  lemma {:induction false} PadStart2Value(s: string)
    requires AllDigits(s)
    ensures DigitsValue(PadStart2(s)) == DigitsValue(s)
    decreases 2 - |s|
  {
    if |s| < 2 {
      LeadingZeroValue(s);
      PadStart2Value(['0'] + s);
    }
  }

  /** The padded numeral of `n`: one '0' is added exactly when `n` is a single digit. */
  lemma PaddedNumeral(n: nat)
    ensures PadStart2(NatToString(n)) == if n < 10 then ['0', DigitChar(n)] else NatToString(n)
    ensures PadStart2(NatToString(n))[0] == '0' <==> n < 10
  {
    if n < 10 {
      assert NatToString(n) == [DigitChar(n)];
      assert PadStart2(NatToString(n)) == PadStart2(['0', DigitChar(n)]);
    }
  }

  /** `n.toString().padStart(2, "0")`. */
  function PadField(n: nat): (r: string)
    ensures AllDigits(r) && |r| >= 2
    ensures n < 100 ==> |r| == 2
  {
    PadStart2(NatToString(n))
  }

  lemma PadFieldValue(n: nat)
    ensures DigitsValue(PadField(n)) == n
  {
    NatToStringRoundTrip(n);
    PadStart2Value(NatToString(n));
  }

  /** One '0' is added exactly when `n` is a single digit; from 10 on the
      field is the plain numeral. */
  lemma PadFieldShape(n: nat)
    ensures n < 10 ==> PadField(n) == ['0', DigitChar(n)]
    ensures 10 <= n ==> PadField(n) == NatToString(n)
  {
    PaddedNumeral(n);
  }

  /** A field starts with '0' exactly when its value is below 10, and it is
      wider than two characters exactly from 100 on. */
  lemma PadFieldWidth(n: nat)
    ensures PadField(n)[0] == '0' <==> n < 10
    ensures |PadField(n)| == 2 <==> n < 100
  {
    PaddedNumeral(n);
    if n >= 100 {
      MinimumLength3(n);
    }
  }

  // ---------------------------------------------------------------------
  // formatTime
  // ---------------------------------------------------------------------

  function FormatTime(ms: nat): (r: FormattedTime)
    ensures |r.minutes| >= 2 && |r.seconds| == 2 && |r.centiseconds| == 2
    ensures AllDigits(r.minutes) && AllDigits(r.seconds) && AllDigits(r.centiseconds)
  {
    FormattedTime(PadField(Minutes(ms)), PadField(Seconds(ms)), PadField(Centiseconds(ms)))
  }

  /** The milliseconds a formatted time denotes, to centisecond precision. */
  function ParseTime(f: FormattedTime): nat
    requires AllDigits(f.minutes) && AllDigits(f.seconds) && AllDigits(f.centiseconds)
  {
    DigitsValue(f.minutes) * MsPerMinute + DigitsValue(f.seconds) * MsPerSecond
      + DigitsValue(f.centiseconds) * MsPerCentisecond
  }

  /** Each displayed field reads back as the quantity it was computed from. */
  lemma FormatTimeFields(ms: nat)
    ensures DigitsValue(FormatTime(ms).minutes) == Minutes(ms)
    ensures DigitsValue(FormatTime(ms).seconds) == Seconds(ms)
    ensures DigitsValue(FormatTime(ms).centiseconds) == Centiseconds(ms)
  {
    PadFieldValue(Minutes(ms));
    PadFieldValue(Seconds(ms));
    PadFieldValue(Centiseconds(ms));
  }

  /** Reading the display back loses exactly the sub-centisecond remainder. */
  lemma FormatTimeRoundTrip(ms: nat)
    ensures ParseTime(FormatTime(ms)) == ms - ms % 10
  {
    FormatTimeFields(ms);
    Decompose(ms);
  }

  /** A field starts with '0' exactly when its value is below 10; minutes stay
      two characters wide until 100 minutes. */
  lemma FormatTimeLeadingZeros(ms: nat)
    ensures FormatTime(ms).minutes[0] == '0' <==> Minutes(ms) < 10
    ensures FormatTime(ms).seconds[0] == '0' <==> Seconds(ms) < 10
    ensures FormatTime(ms).centiseconds[0] == '0' <==> Centiseconds(ms) < 10
    ensures |FormatTime(ms).minutes| == 2 <==> Minutes(ms) < 100
  {
    FormatTimeOf(ms, Minutes(ms), Seconds(ms), Centiseconds(ms));
    PadFieldWidth(Minutes(ms));
    PadFieldWidth(Seconds(ms));
    PadFieldWidth(Centiseconds(ms));
  }

  lemma {:induction false} MinimumLength3(n: nat)
    requires n >= 100
    ensures |NatToString(n)| >= 3
  {
    assert NatToString(n) == NatToString(n / 10) + [DigitChar(n % 10)];
    assert |NatToString(n / 10)| != 1;
  }

  /** The display just before the target, at the target, and at zero. */
  lemma FormatTimeJustBeforeTarget()
    ensures FormatTime(599999) == FormattedTime("09", "59", "99")
  {
    FormatTimeOf(599999, 9, 59, 99);
    PadFieldShape(9);
    TwoDigitField(59);
    TwoDigitField(99);
  }

  lemma FormatTimeAtTarget()
    ensures FormatTime(600000) == FormattedTime("10", "00", "00")
  {
    FormatTimeOf(600000, 10, 0, 0);
    TwoDigitField(10);
    PadFieldShape(0);
  }

  lemma FormatTimeAtZero()
    ensures FormatTime(0) == FormattedTime("00", "00", "00")
  {
    FormatTimeOf(0, 0, 0, 0);
    PadFieldShape(0);
  }

  lemma FormatTimeOf(ms: nat, m: nat, sec: nat, cs: nat)
    requires Minutes(ms) == m && Seconds(ms) == sec && Centiseconds(ms) == cs
    ensures FormatTime(ms) == FormattedTime(PadField(m), PadField(sec), PadField(cs))
  {
  }

  lemma TwoDigitField(n: nat)
    requires 10 <= n < 100
    ensures PadField(n) == [DigitChar(n / 10), DigitChar(n % 10)]
  {
    PadFieldShape(n);
    assert NatToString(n / 10) == [DigitChar(n / 10)];
  }
}
