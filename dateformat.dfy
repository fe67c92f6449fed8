/**
 * The page's `formatDate`: a UTC instant written in the basic DATE-TIME form
 * of RFC 5545 (section 3.3.5), YYYYMMDD "T" HHMMSS "Z", except that the
 * seconds are always written as "00". A reader for that form shows that the
 * rendering keeps exactly the instant's minute.
 */
module DateFormat {
  import opened Wrappers
  import opened Text

  /**
   * The UTC components of an instant, as the `getUTC*` accessors give them:
   * the month counts from 0.
   */
  datatype UtcDateTime = UtcDateTime(year: int, month0: int, day: int, hour: int, minute: int, second: int)

  /** An instant to the minute: what `formatDate` keeps of it. */
  datatype UtcMinute = UtcMinute(year: int, month0: int, day: int, hour: int, minute: int)

  function MinuteOf(d: UtcDateTime): UtcMinute {
    UtcMinute(d.year, d.month0, d.day, d.hour, d.minute)
  }

  /** Components as the accessors return them, with a four-digit year. */
  predicate WellFormed(d: UtcDateTime) {
    && 1000 <= d.year <= 9999
    && 0 <= d.month0 < 12
    && 1 <= d.day <= 31
    && 0 <= d.hour < 24
    && 0 <= d.minute < 60
    && 0 <= d.second < 60
  }

  /** 2026-01-05T20:00:00-03:00, the start of the event, in UTC. */
  const EventStart := UtcDateTime(2026, 0, 5, 23, 0, 0)
  /** 2026-01-06T04:00:00-03:00, the end of the event, in UTC. */
  const EventEnd := UtcDateTime(2026, 0, 6, 7, 0, 0)

  /** The page's `formatDate`: YYYYMMDD "T" HHMM "00Z", the month counted from 1. */
  function FormatDate(d: UtcDateTime): string {
    FormatFields(d.year, d.month0 + 1, d.day, d.hour, d.minute)
  }

  /** The five numbers `formatDate` writes, in its layout. */
  function FormatFields(year: int, month: int, day: int, hour: int, minute: int): string {
    JsString(year) + Pad(month) + Pad(day) + "T" + Pad(hour) + Pad(minute) + "00Z"
  }

  /** The numbers as a well-formed instant gives them to `FormatFields`. */
  predicate FieldRanges(year: int, month: int, day: int, hour: int, minute: int) {
    1000 <= year <= 9999 && 0 <= month < 100 && 0 <= day < 100 && 0 <= hour < 100 && 0 <= minute < 100
  }

  /**
   * For well-formed components the result has 16 characters: the year, the
   * month counted from 1, the day, a 'T', the hour and the minute, each two
   * digits past the year, and then "00Z" whatever the seconds were.
   */
  lemma FormatDateShape(d: UtcDateTime)
    requires WellFormed(d)
    ensures |FormatDate(d)| == 16
    ensures FormatDate(d)[..4] == NatString(d.year)
    ensures FormatDate(d)[4..6] == Pad(d.month0 + 1)
    ensures FormatDate(d)[6..8] == Pad(d.day)
    ensures FormatDate(d)[8] == 'T'
    ensures FormatDate(d)[9..11] == Pad(d.hour)
    ensures FormatDate(d)[11..13] == Pad(d.minute)
    ensures FormatDate(d)[13..] == "00Z"
  {
    assert FormatDate(d) == FormatFields(d.year, d.month0 + 1, d.day, d.hour, d.minute);
    FieldsShape(d.year, d.month0 + 1, d.day, d.hour, d.minute);
  }

  lemma FieldsShape(y: int, mo: int, da: int, h: int, mi: int)
    requires FieldRanges(y, mo, da, h, mi)
    ensures var s := FormatFields(y, mo, da, h, mi);
      && |s| == 16 && s[..4] == NatString(y) && s[4..6] == Pad(mo) && s[6..8] == Pad(da) && s[8] == 'T'
      && s[9..11] == Pad(h) && s[11..13] == Pad(mi) && s[13..] == "00Z"
  {
    YearLength(y);
    PadLength(mo);
    PadLength(da);
    PadLength(h);
    PadLength(mi);
    FieldSlices(JsString(y), Pad(mo), Pad(da), "T", Pad(h), Pad(mi), "00Z");
  }

  /** A four-digit year is written as four characters, its plain decimal digits. */
  lemma YearLength(year: int)
    requires 1000 <= year <= 9999
    ensures JsString(year) == NatString(year) && |NatString(year)| == 4
  {
    NatStringLength(year, 3);
  }

  /** A four-digit year is written as digits that read back as the year. */
  lemma YearDigits(year: int)
    requires 1000 <= year <= 9999
    ensures JsString(year) == NatString(year)
    ensures |NatString(year)| == 4 && AllDigits(NatString(year)) && DigitsValue(NatString(year)) == year
  {
    NatStringLength(year, 3);
    DigitsValueOfNatString(year);
  }

  /** Where each field of a 16-character date stands. */
  lemma FieldSlices(y: string, mo: string, da: string, t: string, h: string, mi: string, z: string)
    requires |y| == 4 && |mo| == 2 && |da| == 2 && |t| == 1 && |h| == 2 && |mi| == 2 && |z| == 3
    ensures var s := y + mo + da + t + h + mi + z;
      && |s| == 16 && s[..4] == y && s[4..6] == mo && s[6..8] == da && s[8] == t[0]
      && s[9..11] == h && s[11..13] == mi && s[13..] == z
  {
  }

  // ---------------------------------------------------------------------------
  // Reading a date back

  /** The value of a run of decimal digits; none if anything else is there. */
  function ReadDigits(t: string): (r: Option<nat>)
    ensures r.Some? <==> AllDigits(t)
  {
    if AllDigits(t) then Some(DigitsValue(t)) else None
  }

  /** The calendar date YYYYMMDD: the year, the month counted from 1, the day. */
  function ReadCalendarDate(t: string): Option<(int, int, int)> {
    if |t| == 8 then
      match (ReadDigits(t[..4]), ReadDigits(t[4..6]), ReadDigits(t[6..]))
      case (Some(y), Some(mo), Some(da)) => Some((y, mo, da))
      case _ => None
    else None
  }

  /** The time of day HHMM. */
  function ReadTimeOfDay(t: string): Option<(int, int)> {
    if |t| == 4 then
      match (ReadDigits(t[..2]), ReadDigits(t[2..]))
      case (Some(h), Some(mi)) => Some((h, mi))
      case _ => None
    else None
  }

  /** Reads a `formatDate` string back into the minute it names; none for anything else. */
  function ParseDate(s: string): Option<UtcMinute> {
    if |s| == 16 && s[8] == 'T' && s[13..] == "00Z" then
      match (ReadCalendarDate(s[..8]), ReadTimeOfDay(s[9..13]))
      case (Some((y, mo, da)), Some((h, mi))) => Some(UtcMinute(y, mo - 1, da, h, mi))
      case _ => None
    else None
  }

  /** Parsing what `formatDate` wrote gives back the instant to the minute. */
  lemma ParseFormatDate(d: UtcDateTime)
    requires WellFormed(d)
    ensures ParseDate(FormatDate(d)) == Some(MinuteOf(d))
  {
    assert FormatDate(d) == FormatFields(d.year, d.month0 + 1, d.day, d.hour, d.minute);
    ParseFieldValues(d.year, d.month0 + 1, d.day, d.hour, d.minute);
  }

  lemma ParseFieldValues(y: int, mo: int, da: int, h: int, mi: int)
    requires FieldRanges(y, mo, da, h, mi)
    ensures ParseDate(FormatFields(y, mo, da, h, mi)) == Some(UtcMinute(y, mo - 1, da, h, mi))
  {
    YearDigits(y);
    PadDigits(mo);
    PadDigits(da);
    PadDigits(h);
    PadDigits(mi);
    ParseFields(FormatFields(y, mo, da, h, mi), JsString(y), Pad(mo), Pad(da), Pad(h), Pad(mi),
                UtcMinute(y, mo - 1, da, h, mi));
  }

  /** Parsing five digit fields laid out as `formatDate` lays them out reads each one back. */
  lemma ParseFields(s: string, y: string, mo: string, da: string, h: string, mi: string, v: UtcMinute)
    requires |y| == 4 && |mo| == 2 && |da| == 2 && |h| == 2 && |mi| == 2
    requires AllDigits(y) && AllDigits(mo) && AllDigits(da) && AllDigits(h) && AllDigits(mi)
    requires && v.year == DigitsValue(y) && v.month0 == DigitsValue(mo) - 1 && v.day == DigitsValue(da)
             && v.hour == DigitsValue(h) && v.minute == DigitsValue(mi)
    requires s == y + mo + da + "T" + h + mi + "00Z"
    ensures ParseDate(s) == Some(v)
  {
    DateAndTimeSlices(y, mo, da, h, mi);
    ReadDate(y, mo, da);
    ReadTime(h, mi);
    ParseParts(s, y + mo + da, h + mi);
  }

  lemma DateAndTimeSlices(y: string, mo: string, da: string, h: string, mi: string)
    requires |y| == 4 && |mo| == 2 && |da| == 2 && |h| == 2 && |mi| == 2
    ensures var s := y + mo + da + "T" + h + mi + "00Z";
      |s| == 16 && s[8] == 'T' && s[13..] == "00Z" && s[..8] == y + mo + da && s[9..13] == h + mi
  {
    FieldSlices(y, mo, da, "T", h, mi, "00Z");
  }

  lemma ParseParts(s: string, date: string, time: string)
    requires |s| == 16 && s[8] == 'T' && s[13..] == "00Z" && s[..8] == date && s[9..13] == time
    requires ReadCalendarDate(date).Some? && ReadTimeOfDay(time).Some?
    ensures ParseDate(s) == Some(UtcMinute(
      ReadCalendarDate(date).value.0, ReadCalendarDate(date).value.1 - 1, ReadCalendarDate(date).value.2,
      ReadTimeOfDay(time).value.0, ReadTimeOfDay(time).value.1))
  {
  }

  lemma ReadDate(y: string, mo: string, da: string)
    requires |y| == 4 && |mo| == 2 && |da| == 2 && AllDigits(y) && AllDigits(mo) && AllDigits(da)
    ensures ReadCalendarDate(y + mo + da) == Some((DigitsValue(y), DigitsValue(mo), DigitsValue(da)))
  {
    var t := y + mo + da;
    assert t[..4] == y && t[4..6] == mo && t[6..] == da;
  }

  lemma ReadTime(h: string, mi: string)
    requires |h| == 2 && |mi| == 2 && AllDigits(h) && AllDigits(mi)
    ensures ReadTimeOfDay(h + mi) == Some((DigitsValue(h), DigitsValue(mi)))
  {
    var t := h + mi;
    assert t[..2] == h && t[2..] == mi;
  }

  /**
   * Two well-formed instants format alike exactly when they fall in the same
   * minute: the seconds are dropped and nothing else is.
   */
  lemma FormatDateSameMinute(a: UtcDateTime, b: UtcDateTime)
    requires WellFormed(a) && WellFormed(b)
    ensures FormatDate(a) == FormatDate(b) <==> MinuteOf(a) == MinuteOf(b)
  {
    if FormatDate(a) == FormatDate(b) {
      ParseFormatDate(a);
      ParseFormatDate(b);
    }
    if MinuteOf(a) == MinuteOf(b) {
      SameMinuteSameText(a, b);
    }
  }

  lemma SameMinuteSameText(a: UtcDateTime, b: UtcDateTime)
    requires MinuteOf(a) == MinuteOf(b)
    ensures FormatDate(a) == FormatDate(b)
  {
    assert a.year == b.year && a.month0 == b.month0 && a.day == b.day && a.hour == b.hour && a.minute == b.minute;
    assert FormatDate(a) == FormatFields(a.year, a.month0 + 1, a.day, a.hour, a.minute);
    assert FormatDate(b) == FormatFields(a.year, a.month0 + 1, a.day, a.hour, a.minute);
  }

  // ---------------------------------------------------------------------------
  // The event's own timestamps

  /** The DTSTART and DTEND values of the event. */
  lemma EventTimestamps()
    ensures FormatDate(EventStart) == "20260105T230000Z"
    ensures FormatDate(EventEnd) == "20260106T070000Z"
  {
    StartStamp();
    EndStamp();
  }

  lemma StartStamp()
    ensures FormatDate(EventStart) == "20260105T230000Z"
  {
    assert FormatDate(EventStart) == FormatFields(2026, 1, 5, 23, 0);
    EventYear();
    PadValues();
    StartFields(JsString(2026), Pad(1), Pad(5), Pad(23), Pad(0));
  }

  lemma EndStamp()
    ensures FormatDate(EventEnd) == "20260106T070000Z"
  {
    assert FormatDate(EventEnd) == FormatFields(2026, 1, 6, 7, 0);
    EventYear();
    PadValues();
    EndFields(JsString(2026), Pad(1), Pad(6), Pad(7), Pad(0));
  }

  lemma EventYear()
    ensures JsString(2026) == "2026"
  {
  }

  lemma PadValues()
    ensures Pad(0) == "00" && Pad(1) == "01" && Pad(5) == "05" && Pad(6) == "06"
    ensures Pad(7) == "07" && Pad(23) == "23"
  {
    PadShape(0);
    PadShape(1);
    PadShape(5);
    PadShape(6);
    PadShape(7);
    PadShape(23);
  }

  lemma StartFields(y: string, mo: string, da: string, h: string, mi: string)
    requires y == "2026" && mo == "01" && da == "05" && h == "23" && mi == "00"
    ensures y + mo + da + "T" + h + mi + "00Z" == "20260105T230000Z"
  {
  }

  lemma EndFields(y: string, mo: string, da: string, h: string, mi: string)
    requires y == "2026" && mo == "01" && da == "06" && h == "07" && mi == "00"
    ensures y + mo + da + "T" + h + mi + "00Z" == "20260106T070000Z"
  {
  }

  /** A formatted date is digits, a sign, 'T' and 'Z' only: it stays on one line. */
  lemma FormatDatePlain(d: UtcDateTime)
    ensures IsPlainLine(FormatDate(d))
  {
    assert FormatDate(d) == FormatFields(d.year, d.month0 + 1, d.day, d.hour, d.minute);
    FieldsPlain(d.year, d.month0 + 1, d.day, d.hour, d.minute);
  }

  lemma FieldsPlain(y: int, mo: int, da: int, h: int, mi: int)
    ensures IsPlainLine(FormatFields(y, mo, da, h, mi))
  {
    JsStringChars(y);
    PadChars(mo);
    PadChars(da);
    PadChars(h);
    PadChars(mi);
    PlainFields(JsString(y), Pad(mo), Pad(da), Pad(h), Pad(mi));
  }

  lemma PlainFields(y: string, mo: string, da: string, h: string, mi: string)
    requires forall i :: 0 <= i < |y| ==> IsDigit(y[i]) || y[i] == '-'
    requires forall i :: 0 <= i < |mo| ==> IsDigit(mo[i]) || mo[i] == '-'
    requires forall i :: 0 <= i < |da| ==> IsDigit(da[i]) || da[i] == '-'
    requires forall i :: 0 <= i < |h| ==> IsDigit(h[i]) || h[i] == '-'
    requires forall i :: 0 <= i < |mi| ==> IsDigit(mi[i]) || mi[i] == '-'
    ensures IsPlainLine(y + mo + da + "T" + h + mi + "00Z")
  {
    PlainConcat(y, mo);
    PlainConcat(y + mo, da);
    PlainConcat(y + mo + da, "T");
    PlainConcat(y + mo + da + "T", h);
    PlainConcat(y + mo + da + "T" + h, mi);
    PlainConcat(y + mo + da + "T" + h + mi, "00Z");
  }

}
