/**
 * The two directions of the fixed nine-hour offset between the display
 * zone (KST, UTC+9) and the query zone (UTC):
 *
 *  - a date picked in KST becomes the UTC date of its midnight, rendered
 *    `YYYY/MM/DD`, and two such dates make the Swarm range filter
 *    `@YYYY/MM/DD,@YYYY/MM/DD` (commits_automation.py:47-62);
 *  - a UTC instant read from a commit row becomes its KST wall-clock time on
 *    a 12-hour clock, `YYYY-MM-DD AM|PM hh:mm`, or "" when it cannot be
 *    converted (commits_automation.py:35-44).
 */
module TimeConversion {
  import opened Wrappers
  import opened Text
  import opened Calendar

  /** KST is this many hours ahead of UTC; no daylight saving is involved. */
  const KstOffsetHours := 9

  // ---------------------------------------------------------------------
  // Dates as text

  /** strftime with `%Y<sep>%m<sep>%d`. */
  function FormatDate(d: Date, sep: char): (s: string)
    requires ValidDate(d)
    ensures |s| == 10 && s[4] == sep && s[7] == sep
  {
    Pad4(d.year) + [sep] + Pad2(d.month) + [sep] + Pad2(d.day)
  }

  /** Reads `YYYY<sep>MM<sep>DD` naming an existing calendar date. */
  function ParseDate(s: string, sep: char): (r: Option<Date>)
    ensures r.Some? ==> ValidDate(r.value)
    ensures r.Some? ==> |s| == 10 && s[4] == sep && s[7] == sep
  {
    if |s| != 10 || s[4] != sep || s[7] != sep then None
    else
      match (ParseNumber(s[..4]), ParseNumber(s[5..7]), ParseNumber(s[8..]))
      case (Some(y), Some(m), Some(d)) =>
        if ValidDate(Date(y, m, d)) then Some(Date(y, m, d)) else None
      case _ => None
  }

  /** A formatted date reads back as the same date: formatting loses nothing. */
  lemma FormatDateRoundTrip(d: Date, sep: char)
    requires ValidDate(d)
    ensures ParseDate(FormatDate(d, sep), sep) == Some(d)
  {
    var s := FormatDate(d, sep);
    assert s[..4] == Pad4(d.year);
    assert s[5..7] == Pad2(d.month);
    assert s[8..] == Pad2(d.day);
    PadDigitsRoundTrip(d.year, 4);
    PadDigitsRoundTrip(d.month, 2);
    PadDigitsRoundTrip(d.day, 2);
  }

  /** The other direction: an accepted date string is the formatted date. */
  lemma ParseDateCanonical(s: string, sep: char, d: Date)
    requires ParseDate(s, sep) == Some(d)
    ensures s == FormatDate(d, sep)
  {
    var y, m, dd := ParseNumber(s[..4]), ParseNumber(s[5..7]), ParseNumber(s[8..]);
    assert y == Some(d.year) && m == Some(d.month) && dd == Some(d.day);
    ParseNumberCanonical(s[..4]);
    ParseNumberCanonical(s[5..7]);
    ParseNumberCanonical(s[8..]);
    calc {
      FormatDate(d, sep);
      Pad4(d.year) + [sep] + Pad2(d.month) + [sep] + Pad2(d.day);
      s[..4] + [sep] + s[5..7] + [sep] + s[8..];
      { assert s[4] == sep && s[7] == sep; }
      s;
    }
  }

  // ---------------------------------------------------------------------
  // KST date range to the UTC query window

  datatype ConversionError = DateOverflow

  /**
   * `convert_kst_date_to_utc_str`: KST midnight of `d` minus nine hours,
   * keeping only the date. For 0001-01-01 the subtraction overflows.
   */
  function ConvertKstDateToUtcStr(d: Date): (r: Result<string, ConversionError>)
    requires ValidDate(d)
    ensures r.Err? <==> d == FirstDate
    ensures r.Ok? ==> |r.value| == 10
  {
    match ShiftHours(Midnight(d), -KstOffsetHours)
    case None => Err(DateOverflow)
    case Some(u) => Ok(FormatDate(u.date, '/'))
  }

  /** The UTC date of a KST midnight is always the previous calendar day. */
  lemma ConvertIsPreviousDay(d: Date)
    requires ValidDate(d) && d != FirstDate
    ensures ConvertKstDateToUtcStr(d) == Ok(FormatDate(PrevDay(d), '/'))
    ensures ParseDate(ConvertKstDateToUtcStr(d).value, '/') == Some(PrevDay(d))
    ensures DayNumber(PrevDay(d)) == DayNumber(d) - 1
  {
    FormatDateRoundTrip(PrevDay(d), '/');
    PrevDayCounts(d);
  }

  /** `get_kst_range_str`: both picked dates rendered `YYYY/MM/DD`. */
  function KstRangeStr(start: Date, end: Date): (r: (string, string))
    requires ValidDate(start) && ValidDate(end)
    ensures ParseDate(r.0, '/') == Some(start)
    ensures ParseDate(r.1, '/') == Some(end)
  {
    FormatDateRoundTrip(start, '/');
    FormatDateRoundTrip(end, '/');
    (FormatDate(start, '/'), FormatDate(end, '/'))
  }

  /** `get_utc_range_str`: the Swarm filter `@<utc start>,@<utc end>`. */
  function UtcRangeStr(start: Date, end: Date): (r: Result<string, ConversionError>)
    requires ValidDate(start) && ValidDate(end)
    ensures r.Err? <==> start == FirstDate || end == FirstDate
    ensures r.Ok? ==> |r.value| == 23 && r.value[0] == '@' && r.value[11..13] == ",@"
  {
    match (ConvertKstDateToUtcStr(start), ConvertKstDateToUtcStr(end))
    case (Ok(s), Ok(e)) => Ok("@" + s + ",@" + e)
    case (Err(x), _) => Err(x)
    case (_, Err(x)) => Err(x)
  }

  /**
   * The range string names, between its fixed separators, the UTC days
   * before the two KST dates, and keeps their order: a range whose start is
   * not after its end gives a UTC window whose start is not after its end.
   */
  lemma UtcRangeIsPreviousDays(start: Date, end: Date)
    requires ValidDate(start) && ValidDate(end)
    requires start != FirstDate && end != FirstDate
    ensures UtcRangeStr(start, end).Ok?
    ensures ParseDate(UtcRangeStr(start, end).value[1..11], '/') == Some(PrevDay(start))
    ensures ParseDate(UtcRangeStr(start, end).value[13..], '/') == Some(PrevDay(end))
    ensures NotAfter(start, end) <==> NotAfter(PrevDay(start), PrevDay(end))
  {
    ConvertIsPreviousDay(start);
    ConvertIsPreviousDay(end);
    var a := ConvertKstDateToUtcStr(start).value;
    var b := ConvertKstDateToUtcStr(end).value;
    assert UtcRangeStr(start, end).value == "@" + a + ",@" + b;
    RangeFields(a, b);
    PrevDayMonotone(start, end);
  }

  /** The two dates sit at fixed positions of a range filter. */
  lemma RangeFields(a: string, b: string)
    requires |a| == 10
    ensures ("@" + a + ",@" + b)[1..11] == a
    ensures ("@" + a + ",@" + b)[13..] == b
  {
  }

  // ---------------------------------------------------------------------
  // UTC instant to KST display text

  /**
   * The accepted subset of `datetime.fromisoformat`: `YYYY-MM-DD`, or that
   * date followed by `T` or a space and `HH:MM` or `HH:MM:SS`. Every other
   * string, and every field out of range, is a parse failure.
   */
  function ParseIso(s: string): (r: Option<DateTime>)
    ensures r.Some? ==> ValidDateTime(r.value)
    ensures r.Some? ==> |s| == 10 || |s| == 16 || |s| == 19
  {
    if |s| < 10 then None
    else
      match ParseDate(s[..10], '-')
      case None => None
      case Some(d) =>
        if |s| == 10 then Some(DateTime(d, 0, 0, 0))
        else if (|s| == 16 || |s| == 19) && (s[10] == 'T' || s[10] == ' ') && s[13] == ':'
                && (|s| == 19 ==> s[16] == ':') then
          match (ParseNumber(s[11..13]), ParseNumber(s[14..16]),
                 if |s| == 19 then ParseNumber(s[17..]) else Some(0))
          case (Some(h), Some(mi), Some(se)) =>
            if h < 24 && mi < 60 && se < 60 then Some(DateTime(d, h, mi, se)) else None
          case _ => None
        else None
  }

  /** `YYYY-MM-DDTHH:MM:SS`, the canonical form the parser accepts. */
  function FormatIso(t: DateTime): (s: string)
    requires ValidDateTime(t)
    ensures |s| == 19
  {
    FormatDate(t.date, '-') + "T" + Pad2(t.hour) + ":" + Pad2(t.minute) + ":" + Pad2(t.second)
  }

  /** Every date-time written in ISO form is parsed back to itself. */
  lemma IsoRoundTrip(t: DateTime)
    requires ValidDateTime(t)
    ensures ParseIso(FormatIso(t)) == Some(t)
  {
    IsoSecondsAccepted(t, 'T');
  }

  /** A bare `YYYY-MM-DD` is accepted as that date at midnight. */
  lemma IsoDateOnlyAccepted(d: Date)
    requires ValidDate(d)
    ensures ParseIso(FormatDate(d, '-')) == Some(DateTime(d, 0, 0, 0))
  {
    var s := FormatDate(d, '-');
    assert s[..10] == s;
    FormatDateRoundTrip(d, '-');
  }

  /** The date, `T` or a space, and `HH:MM` is accepted with zero seconds. */
  lemma IsoMinutesAccepted(t: DateTime, sep: char)
    requires ValidDateTime(t) && (sep == 'T' || sep == ' ')
    ensures ParseIso(FormatDate(t.date, '-') + [sep] + Pad2(t.hour) + ":" + Pad2(t.minute))
              == Some(t.(second := 0))
  {
    var s := FormatDate(t.date, '-') + [sep] + Pad2(t.hour) + ":" + Pad2(t.minute);
    assert s[..10] == FormatDate(t.date, '-');
    FormatDateRoundTrip(t.date, '-');
    assert s[11..13] == Pad2(t.hour);
    assert s[14..16] == Pad2(t.minute);
    PadDigitsRoundTrip(t.hour, 2);
    PadDigitsRoundTrip(t.minute, 2);
  }

  /** The date, `T` or a space, and `HH:MM:SS` is accepted as written. */
  lemma IsoSecondsAccepted(t: DateTime, sep: char)
    requires ValidDateTime(t) && (sep == 'T' || sep == ' ')
    ensures ParseIso(FormatDate(t.date, '-') + [sep] + Pad2(t.hour) + ":" + Pad2(t.minute) + ":" + Pad2(t.second))
              == Some(t)
  {
    var s := FormatDate(t.date, '-') + [sep] + Pad2(t.hour) + ":" + Pad2(t.minute) + ":" + Pad2(t.second);
    assert s[..10] == FormatDate(t.date, '-');
    FormatDateRoundTrip(t.date, '-');
    assert s[11..13] == Pad2(t.hour);
    assert s[14..16] == Pad2(t.minute);
    assert s[17..] == Pad2(t.second);
    PadDigitsRoundTrip(t.hour, 2);
    PadDigitsRoundTrip(t.minute, 2);
    PadDigitsRoundTrip(t.second, 2);
  }

  /**
   * The other direction: an accepted string spells the returned date-time
   * in one of the three accepted shapes, `YYYY-MM-DD` for midnight, or the
   * date, `T` or a space, and `HH:MM` (zero seconds) or `HH:MM:SS`.
   */
  lemma ParseIsoCanonical(s: string, t: DateTime)
    requires ParseIso(s) == Some(t)
    ensures |s| == 10 || |s| == 16 || |s| == 19
    ensures s[..10] == FormatDate(t.date, '-')
    ensures |s| == 10 ==> t.hour == 0 && t.minute == 0 && t.second == 0
    ensures |s| > 10 ==> (s[10] == 'T' || s[10] == ' ') && s[11..16] == Pad2(t.hour) + ":" + Pad2(t.minute)
    ensures |s| == 16 ==> t.second == 0
    ensures |s| == 19 ==> s[16..] == ":" + Pad2(t.second)
  {
    ParseDateCanonical(s[..10], '-', t.date);
    if |s| > 10 {
      ParseNumberCanonical(s[11..13]);
      ParseNumberCanonical(s[14..16]);
      assert s[11..16] == s[11..13] + [s[13]] + s[14..16];
      if |s| == 19 {
        ParseNumberCanonical(s[17..]);
        assert s[16..] == [s[16]] + s[17..];
      }
    }
  }

  /** strftime `%I`: the hour on a 12-hour clock. */
  function Hour12(h: int): (r: int)
    requires 0 <= h < 24
    ensures 1 <= r <= 12
    ensures r == (h + 11) % 12 + 1
  {
    if h % 12 == 0 then 12 else h % 12
  }

  /** strftime `%p`, with the C locale's markers. */
  function Meridiem(h: int): (m: string)
    requires 0 <= h < 24
    ensures |m| == 2
  {
    if h < 12 then "AM" else "PM"
  }

  /** The marker and the 12-hour clock value together determine the hour. */
  function Hour24(marker: string, h12: int): int {
    (if h12 == 12 then 0 else h12) + (if marker == "PM" then 12 else 0)
  }

  lemma Hour12Inverse(h: int)
    requires 0 <= h < 24
    ensures Meridiem(h) == "AM" <==> h < 12
    ensures Hour24(Meridiem(h), Hour12(h)) == h
  {
  }

  /** strftime `%Y-%m-%d %p %I:%M`: seconds are dropped. */
  function FormatAmPm(t: DateTime): (s: string)
    requires ValidDateTime(t)
    ensures |s| == 19
  {
    FormatDate(t.date, '-') + " " + Meridiem(t.hour) + " " + Pad2(Hour12(t.hour)) + ":" + Pad2(t.minute)
  }

  /** Reads the display form back, as a date-time with zero seconds. */
  function ParseAmPm(s: string): (r: Option<DateTime>)
    ensures r.Some? ==> ValidDateTime(r.value) && r.value.second == 0
  {
    if |s| != 19 || s[10] != ' ' || s[13] != ' ' || s[16] != ':' then None
    else if s[11..13] != "AM" && s[11..13] != "PM" then None
    else
      match (ParseDate(s[..10], '-'), ParseNumber(s[14..16]), ParseNumber(s[17..]))
      case (Some(d), Some(h12), Some(mi)) =>
        if 1 <= h12 <= 12 && mi < 60 then Some(DateTime(d, Hour24(s[11..13], h12), mi, 0)) else None
      case _ => None
  }

  lemma AmPmRoundTrip(t: DateTime)
    requires ValidDateTime(t)
    ensures ParseAmPm(FormatAmPm(t)) == Some(t.(second := 0))
  {
    var s := FormatAmPm(t);
    assert s[..10] == FormatDate(t.date, '-');
    assert s[11..13] == Meridiem(t.hour);
    assert s[14..16] == Pad2(Hour12(t.hour));
    assert s[17..] == Pad2(t.minute);
    FormatDateRoundTrip(t.date, '-');
    PadDigitsRoundTrip(Hour12(t.hour), 2);
    PadDigitsRoundTrip(t.minute, 2);
    Hour12Inverse(t.hour);
  }

  /**
   * `utc_to_kst_ampm`: the instant nine hours later on a 12-hour clock, or
   * "" when the text does not parse or the addition overflows.
   */
  function UtcToKstAmPm(s: string): (r: string)
    ensures r == "" <==> ParseIso(s).None? || ShiftHours(ParseIso(s).value, KstOffsetHours).None?
    ensures r != "" ==> |r| == 19
  {
    match ParseIso(s)
    case None => ""
    case Some(t) =>
      match ShiftHours(t, KstOffsetHours)
      case None => ""
      case Some(k) => FormatAmPm(k)
  }

  /**
   * The fields of the display text of a KST date-time: its marker is AM
   * exactly before noon, and its hour field is the hour on a 12-hour clock.
   */
  lemma AmPmFields(k: DateTime)
    requires ValidDateTime(k)
    ensures FormatAmPm(k)[11..13] == "AM" <==> k.hour < 12
    ensures FormatAmPm(k)[14..16] == Pad2(Hour12(k.hour))
  {
    var r := FormatAmPm(k);
    Hour12Inverse(k.hour);
    assert r[11..13] == Meridiem(k.hour);
    assert r[14..16] == Pad2(Hour12(k.hour));
  }

  /**
   * A non-empty display string shows the parsed UTC instant moved nine
   * hours forward: read back it is that KST time with its seconds dropped,
   * its marker is AM exactly when the KST hour is before noon, and its hour
   * field is that hour on a 12-hour clock.
   */
  lemma UtcToKstAmPmDenotesKstTime(s: string, t: DateTime)
    requires ParseIso(s) == Some(t)
    requires UtcToKstAmPm(s) != ""
    ensures ShiftHours(t, KstOffsetHours).Some?
    ensures var k := ShiftHours(t, KstOffsetHours).value;
            && HourNumber(k) == HourNumber(t) + KstOffsetHours
            && k.minute == t.minute
            && ParseAmPm(UtcToKstAmPm(s)) == Some(k.(second := 0))
            && (UtcToKstAmPm(s)[11..13] == "AM" <==> k.hour < 12)
            && UtcToKstAmPm(s)[14..16] == Pad2(Hour12(k.hour))
  {
    var k := ShiftHours(t, KstOffsetHours).value;
    DisplayOfShift(s, t);
    ShiftHoursMovesClock(t, KstOffsetHours);
    AmPmRoundTrip(k);
    AmPmFields(k);
  }

  /** A convertible instant is displayed as the text of its shifted time. */
  lemma DisplayOfShift(s: string, t: DateTime)
    requires ParseIso(s) == Some(t) && ShiftHours(t, KstOffsetHours).Some?
    ensures UtcToKstAmPm(s) == FormatAmPm(ShiftHours(t, KstOffsetHours).value)
  {
  }

  /** A UTC instant late on 9999-12-31 cannot be shown in KST. */
  lemma LateLastDayIsBlank(s: string, t: DateTime)
    requires ParseIso(s) == Some(t)
    ensures UtcToKstAmPm(s) == "" <==> t.date == LastDate && t.hour >= 15
  {
  }

  // ---------------------------------------------------------------------
  // Worked examples

  /** The UTC date text of a KST date, written out field by field. */
  lemma UtcDateText(d: Date, y: int, m: int, dd: int)
    requires ValidDate(d) && d != FirstDate && PrevDay(d) == Date(y, m, dd)
    ensures ConvertKstDateToUtcStr(d) == Ok(Pad4(y) + "/" + Pad2(m) + "/" + Pad2(dd))
  {
    ConvertIsPreviousDay(d);
  }

  lemma Year2024() ensures Pad4(2024) == "2024" {}

  lemma Year2025() ensures Pad4(2025) == "2025" {}

  lemma KstMidnightIsPreviousUtcDay()
    ensures ConvertKstDateToUtcStr(Date(2025, 3, 21)) == Ok("2025/03/20")
  {
    UtcDateText(Date(2025, 3, 21), 2025, 3, 20);
    Year2025();
    Pad2Of(3, 0, 3);
    Pad2Of(20, 2, 0);
    assert "2025" + "/" + "03" + "/" + "20" == "2025/03/20";
  }

  lemma LeapDayBeforeMarch()
    ensures ConvertKstDateToUtcStr(Date(2024, 3, 1)) == Ok("2024/02/29")
  {
    UtcDateText(Date(2024, 3, 1), 2024, 2, 29);
    Year2024();
    Pad2Of(2, 0, 2);
    Pad2Of(29, 2, 9);
    assert "2024" + "/" + "02" + "/" + "29" == "2024/02/29";
  }

  lemma NewYearBecomesOldYear()
    ensures ConvertKstDateToUtcStr(Date(2025, 1, 1)) == Ok("2024/12/31")
  {
    UtcDateText(Date(2025, 1, 1), 2024, 12, 31);
    Year2024();
    Pad2Of(12, 1, 2);
    Pad2Of(31, 3, 1);
    assert "2024" + "/" + "12" + "/" + "31" == "2024/12/31";
  }

  lemma AfternoonExample()
    ensures UtcToKstAmPm("2025-03-20T07:18:00") == "2025-03-20 PM 04:18"
  {
    var t := DateTime(Date(2025, 3, 20), 7, 18, 0);
    AfternoonIso();
    AfternoonDisplay();
    assert ShiftHours(t, KstOffsetHours) == Some(t.(hour := 16));
    IsoDisplay(t);
  }

  lemma AfternoonIso()
    ensures FormatIso(DateTime(Date(2025, 3, 20), 7, 18, 0)) == "2025-03-20T07:18:00"
  {
    AfternoonDate();
    Pad2Of(7, 0, 7);
    Pad2Of(18, 1, 8);
    Pad2Of(0, 0, 0);
  }

  lemma AfternoonDisplay()
    ensures FormatAmPm(DateTime(Date(2025, 3, 20), 16, 18, 0)) == "2025-03-20 PM 04:18"
  {
    AfternoonDate();
    assert Hour12(16) == 4 && Meridiem(16) == "PM";
    Pad2Of(4, 0, 4);
    Pad2Of(18, 1, 8);
  }

  lemma AfternoonDate()
    ensures FormatDate(Date(2025, 3, 20), '-') == "2025-03-20"
  {
    Year2025();
    Pad2Of(3, 0, 3);
    Pad2Of(20, 2, 0);
  }

  lemma IsoDisplay(t: DateTime)
    requires ValidDateTime(t) && ShiftHours(t, KstOffsetHours).Some?
    ensures UtcToKstAmPm(FormatIso(t)) == FormatAmPm(ShiftHours(t, KstOffsetHours).value)
  {
    IsoRoundTrip(t);
  }
}
