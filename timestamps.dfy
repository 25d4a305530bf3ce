/** The manifest's capture time, "YYYY-MM-DD HH:MM:SS UTC": parsing it as
    `datetime.strptime(.., "%Y-%m-%d %H:%M:%S UTC")` does, rendering it as
    `strftime("%Y:%m:%d %H:%M:%S")` does, and its instant since the Unix epoch
    (what `pd.to_datetime(.., utc=True).timestamp()` gives for this layout). */
module Timestamps {
  import opened Wrappers
  import opened Text

  datatype DateTime = DateTime(year: nat, month: nat, day: nat, hour: nat, minute: nat, second: nat)

  function DigitValue(c: char): nat
    requires IsDigit(c)
  {
    c as int - '0' as int
  }

  predicate DigitsAt(s: string, i: nat, n: nat) {
    i + n <= |s| && forall k :: i <= k < i + n ==> IsDigit(s[k])
  }

  function Number2(s: string, i: nat): nat
    requires DigitsAt(s, i, 2)
  {
    10 * DigitValue(s[i]) + DigitValue(s[i + 1])
  }

  function Number4(s: string, i: nat): nat
    requires DigitsAt(s, i, 4)
  {
    100 * Number2(s, i) + Number2(s, i + 2)
  }

  predicate IsLeapYear(y: nat) {
    y % 4 == 0 && (y % 100 != 0 || y % 400 == 0)
  }

  function DaysInMonth(y: nat, m: nat): nat
    requires 1 <= m <= 12
  {
    if m == 2 then (if IsLeapYear(y) then 29 else 28)
    else if m == 4 || m == 6 || m == 9 || m == 11 then 30
    else 31
  }

  /** The values `datetime` accepts (years 1 to 9999, no leap second). */
  predicate ValidDateTime(dt: DateTime) {
    && 1 <= dt.year <= 9999
    && 1 <= dt.month <= 12
    && 1 <= dt.day <= DaysInMonth(dt.year, dt.month)
    && dt.hour < 24 && dt.minute < 60 && dt.second < 60
  }

  /** The character layout of "YYYY-MM-DD HH:MM:SS UTC". */
  predicate UtcLayout(s: string) {
    && |s| == 23
    && DigitsAt(s, 0, 4) && s[4] == '-' && DigitsAt(s, 5, 2) && s[7] == '-' && DigitsAt(s, 8, 2)
    && s[10] == ' ' && DigitsAt(s, 11, 2) && s[13] == ':' && DigitsAt(s, 14, 2) && s[16] == ':'
    && DigitsAt(s, 17, 2) && s[19..] == " UTC"
  }

  /** `datetime.strptime(s, "%Y-%m-%d %H:%M:%S UTC")` on the canonical layout. */
  function ParseUtc(s: string): (r: Option<DateTime>)
    ensures r.Some? ==> ValidDateTime(r.value)
  {
    if !UtcLayout(s) then None
    else
      var dt := DateTime(Number4(s, 0), Number2(s, 5), Number2(s, 8),
                         Number2(s, 11), Number2(s, 14), Number2(s, 17));
      if ValidDateTime(dt) then Some(dt) else None
  }

  function Pad2(n: nat): string
    requires n < 100
  {
    [DigitChar(n / 10), DigitChar(n % 10)]
  }

  function Pad4(n: nat): string
    requires n < 10000
  {
    Pad2(n / 100) + Pad2(n % 100)
  }

  /** The source layout, "YYYY-MM-DD HH:MM:SS UTC". */
  function FormatUtc(dt: DateTime): string
    requires ValidDateTime(dt)
  {
    Pad4(dt.year) + "-" + Pad2(dt.month) + "-" + Pad2(dt.day) + " "
    + Pad2(dt.hour) + ":" + Pad2(dt.minute) + ":" + Pad2(dt.second) + " UTC"
  }

  /** The Exif layout `strftime("%Y:%m:%d %H:%M:%S")` writes. */
  function ExifFormat(dt: DateTime): string
    requires ValidDateTime(dt)
  {
    Pad4(dt.year) + ":" + Pad2(dt.month) + ":" + Pad2(dt.day) + " "
    + Pad2(dt.hour) + ":" + Pad2(dt.minute) + ":" + Pad2(dt.second)
  }

  /** Days from 1970-01-01 to the given civil date (proleptic Gregorian),
      counting from March 1 of year 0 so that the leap day ends the year:
      the whole years before the date's March-based year, the months of that
      year before the date's month, then the days. */
  function DaysFromCivil(y: nat, m: nat, d: nat): int
    requires 1 <= y && 1 <= m <= 12
  {
    MarchYears(if m <= 2 then y - 1 else y) + MonthOffset(m) + d - 1 - 719468
  }

  /** Days from March 1 of year 0 to March 1 of year `yy`. */
  function MarchYears(yy: nat): nat {
    365 * yy + yy / 4 - yy / 100 + yy / 400
  }

  /** Days from March 1 to the first of month `m`, in the March-based year. */
  function MonthOffset(m: nat): nat
    requires 1 <= m <= 12
  {
    var months := if m >= 3 then m - 3 else m + 9;
    (153 * months + 2) / 5
  }

  /** Seconds since the Unix epoch, the time `os.utime` is given. */
  function EpochSeconds(dt: DateTime): int
    requires ValidDateTime(dt)
  {
    DaysFromCivil(dt.year, dt.month, dt.day) * 86400 + dt.hour * 3600 + dt.minute * 60 + dt.second
  }

  /** Milliseconds since the Unix epoch, the manifest's `timestamp` column. */
  function EpochMillis(dt: DateTime): int
    requires ValidDateTime(dt)
  {
    EpochSeconds(dt) * 1000
  }

  lemma DigitRoundTrip(c: char)
    requires IsDigit(c)
    ensures DigitValue(c) < 10 && DigitChar(DigitValue(c)) == c
  {
  }

  lemma {:induction false} Pad2OfNumber2(s: string, i: nat)
    requires DigitsAt(s, i, 2)
    ensures Number2(s, i) < 100 && Pad2(Number2(s, i)) == s[i..i + 2]
  {
    DigitRoundTrip(s[i]);
    DigitRoundTrip(s[i + 1]);
    var a, b := DigitValue(s[i]), DigitValue(s[i + 1]);
    assert (10 * a + b) / 10 == a && (10 * a + b) % 10 == b;
  }

  lemma {:induction false} Pad4OfNumber4(s: string, i: nat)
    requires DigitsAt(s, i, 4)
    ensures Number4(s, i) < 10000 && Pad4(Number4(s, i)) == s[i..i + 4]
  {
    Pad2OfNumber2(s, i);
    Pad2OfNumber2(s, i + 2);
    var hi, lo := Number2(s, i), Number2(s, i + 2);
    assert (100 * hi + lo) / 100 == hi && (100 * hi + lo) % 100 == lo;
  }

  lemma Number2OfPad2(n: nat)
    requires n < 100
    ensures DigitsAt(Pad2(n), 0, 2) && Number2(Pad2(n), 0) == n
  {
  }

  /** A parsed timestamp prints back as the text it was parsed from. */
  lemma {:induction false} FormatOfParsed(s: string)
    requires ParseUtc(s).Some?
    ensures FormatUtc(ParseUtc(s).value) == s
  {
    var dt := ParseUtc(s).value;
    var f := FormatUtc(dt);
    FormatUtcPieces(dt);
    Pad4OfNumber4(s, 0);
    Pad2OfNumber2(s, 5);
    Pad2OfNumber2(s, 8);
    Pad2OfNumber2(s, 11);
    Pad2OfNumber2(s, 14);
    Pad2OfNumber2(s, 17);
    forall k | 0 <= k < 23
      ensures f[k] == s[k]
    {
      if k >= 19 {
        assert f[k] == f[19..][k - 19] && s[k] == s[19..][k - 19];
      }
    }
  }

  /** Every valid date and time, printed in the source layout, parses back to itself. */
  lemma {:induction false} ParseOfFormatted(dt: DateTime)
    requires ValidDateTime(dt)
    ensures ParseUtc(FormatUtc(dt)) == Some(dt)
  {
    var s := FormatUtc(dt);
    FormatUtcPieces(dt);
    Number4At(s, 0, dt.year);
    Number2At(s, 5, dt.month);
    Number2At(s, 8, dt.day);
    Number2At(s, 11, dt.hour);
    Number2At(s, 14, dt.minute);
    Number2At(s, 17, dt.second);
    assert UtcLayout(s);
  }

  /** Where each field sits in the source layout. */
  lemma FormatUtcPieces(dt: DateTime)
    requires ValidDateTime(dt)
    ensures var s := FormatUtc(dt);
      var y, mo, d, h, mi, se := Pad4(dt.year), Pad2(dt.month), Pad2(dt.day),
                                 Pad2(dt.hour), Pad2(dt.minute), Pad2(dt.second);
      && |s| == 23
      && s[0] == y[0] && s[1] == y[1] && s[2] == y[2] && s[3] == y[3] && s[4] == '-'
      && s[5] == mo[0] && s[6] == mo[1] && s[7] == '-' && s[8] == d[0] && s[9] == d[1] && s[10] == ' '
      && s[11] == h[0] && s[12] == h[1] && s[13] == ':' && s[14] == mi[0] && s[15] == mi[1] && s[16] == ':'
      && s[17] == se[0] && s[18] == se[1] && s[19..] == " UTC"
  {
    var s := FormatUtc(dt);
    assert s[19..] == " UTC";
  }

  /** Two digits at `i` that print `n` read back as `n`. */
  lemma Number2At(s: string, i: nat, n: nat)
    requires n < 100 && i + 2 <= |s| && s[i] == Pad2(n)[0] && s[i + 1] == Pad2(n)[1]
    ensures DigitsAt(s, i, 2) && Number2(s, i) == n
  {
    Number2OfPad2(n);
  }

  /** Four digits at `i` that print `n` read back as `n`. */
  lemma Number4At(s: string, i: nat, n: nat)
    requires n < 10000 && i + 4 <= |s|
    requires s[i] == Pad4(n)[0] && s[i + 1] == Pad4(n)[1] && s[i + 2] == Pad4(n)[2] && s[i + 3] == Pad4(n)[3]
    ensures DigitsAt(s, i, 4) && Number4(s, i) == n
  {
    Number2At(s, i, n / 100);
    Number2At(s, i + 2, n % 100);
  }

  /** The Exif rendering of a parsed timestamp is the input with the date's
      dashes turned into colons and the " UTC" suffix dropped. */
  lemma {:induction false} ExifFormatOfParsed(s: string)
    requires ParseUtc(s).Some?
    ensures ExifFormat(ParseUtc(s).value) == s[..4] + ":" + s[5..7] + ":" + s[8..10] + " " + s[11..19]
  {
    Pad4OfNumber4(s, 0);
    Pad2OfNumber2(s, 5);
    Pad2OfNumber2(s, 8);
    Pad2OfNumber2(s, 11);
    Pad2OfNumber2(s, 14);
    Pad2OfNumber2(s, 17);
    assert s[11..19] == s[11..13] + ":" + s[14..16] + ":" + s[17..19];
  }

  /** The first instant of 2025 is 1735689600000 ms after the epoch. */
  lemma NewYear2025()
    ensures EpochMillis(DateTime(2025, 1, 1, 0, 0, 0)) == 1735689600000
  {
    NewYear2025Days();
  }

  lemma NewYear2025Days()
    ensures DaysFromCivil(2025, 1, 1) == 20089
  {
    assert MonthOffset(1) == 306;
    assert MarchYears(2024) == 739251;
  }

  /** The calendar date after `y-m-d`. */
  function NextDay(y: nat, m: nat, d: nat): (nat, nat, nat)
    requires 1 <= m <= 12
  {
    if d < DaysInMonth(y, m) then (y, m, d + 1)
    else if m < 12 then (y, m + 1, 1)
    else (y + 1, 1, 1)
  }

  /** A year from March to March has 366 days when it ends in a leap February. */
  lemma MarchYearsStep(y: nat)
    requires 1 <= y
    ensures MarchYears(y) == MarchYears(y - 1) + (if IsLeapYear(y) then 366 else 365)
  {
    DivStep4(y);
    DivStep100(y);
    DivStep400(y);
  }

  lemma DivStep4(y: nat)
    requires 1 <= y
    ensures y / 4 == (y - 1) / 4 + (if y % 4 == 0 then 1 else 0)
  {
  }

  lemma DivStep100(y: nat)
    requires 1 <= y
    ensures y / 100 == (y - 1) / 100 + (if y % 100 == 0 then 1 else 0)
    ensures y % 100 == 0 ==> y % 4 == 0
  {
  }

  lemma DivStep400(y: nat)
    requires 1 <= y
    ensures y / 400 == (y - 1) / 400 + (if y % 400 == 0 then 1 else 0)
    ensures y % 400 == 0 ==> y % 100 == 0
  {
  }

  /** `DaysFromCivil` counts days: the next date is one day later. */
  lemma NextDayIsOneLater(y: nat, m: nat, d: nat)
    requires 1 <= y && 1 <= m <= 12 && 1 <= d <= DaysInMonth(y, m)
    ensures DaysFromCivil(NextDay(y, m, d).0, NextDay(y, m, d).1, NextDay(y, m, d).2) == DaysFromCivil(y, m, d) + 1
  {
    if d < DaysInMonth(y, m) {
      WithinMonth(y, m, d);
    } else if m == 2 {
      FebruaryEnd(y);
    } else if m < 12 {
      MonthEnd(y, m);
    } else {
      DecemberEnd(y);
    }
  }

  /** The same clock time on the next calendar date is 86400 seconds later,
      across month ends, leap days and year ends alike. */
  lemma NextDayEpoch(dt: DateTime)
    requires ValidDateTime(dt) && (dt.month == 12 && dt.day == 31 ==> dt.year < 9999)
    ensures var next := NextDay(dt.year, dt.month, dt.day);
      var later := dt.(year := next.0, month := next.1, day := next.2);
      ValidDateTime(later) && EpochSeconds(later) == EpochSeconds(dt) + 86400
  {
    NextDayIsOneLater(dt.year, dt.month, dt.day);
  }

  lemma WithinMonth(y: nat, m: nat, d: nat)
    requires 1 <= y && 1 <= m <= 12
    ensures DaysFromCivil(y, m, d + 1) == DaysFromCivil(y, m, d) + 1
  {
  }

  /** New Year's Day follows December 31. */
  lemma DecemberEnd(y: nat)
    requires 1 <= y
    ensures DaysFromCivil(y + 1, 1, 1) == DaysFromCivil(y, 12, 31) + 1
  {
  }

  /** The first of March follows the last day of February, leap year or not. */
  lemma FebruaryEnd(y: nat)
    requires 1 <= y
    ensures DaysFromCivil(y, 3, 1) == DaysFromCivil(y, 2, DaysInMonth(y, 2)) + 1
  {
    MarchYearsStep(y);
  }

  /** The first of a month other than March follows the last day of the month before. */
  lemma MonthEnd(y: nat, m: nat)
    requires 1 <= y && 1 <= m < 12 && m != 2
    ensures DaysFromCivil(y, m + 1, 1) == DaysFromCivil(y, m, DaysInMonth(y, m)) + 1
  {
    MonthOffsetStep(m);
  }

  /** Month `m + 1` starts `DaysInMonth` days after month `m`, for every
      month but February, whose length depends on the year. */
  lemma MonthOffsetStep(m: nat)
    requires 1 <= m < 12 && m != 2
    ensures MonthOffset(m + 1) == MonthOffset(m) + DaysInMonth(1, m)
  {
    if m == 1 {
      assert MonthOffset(2) == 337 && MonthOffset(1) == 306;
    } else if m == 3 {
      assert MonthOffset(4) == 31 && MonthOffset(3) == 0;
    } else if m == 4 {
      assert MonthOffset(5) == 61;
    } else if m == 5 {
      assert MonthOffset(6) == 92;
    } else if m == 6 {
      assert MonthOffset(7) == 122;
    } else if m == 7 {
      assert MonthOffset(8) == 153;
    } else if m == 8 {
      assert MonthOffset(9) == 184;
    } else if m == 9 {
      assert MonthOffset(10) == 214;
    } else if m == 10 {
      assert MonthOffset(11) == 245;
    } else {
      assert MonthOffset(12) == 275;
    }
  }

}
