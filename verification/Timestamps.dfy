/**
 The stamp text of `rupi export` (src/export_pi.rs) and how `rupi import-pi` reads it back
 (crates/rupi-store/src/pi_import.rs).  The shape is a date-time of section 5.6 of RFC 3339.
 */
module Timestamps {
  import opened CivilTime
  import opened Text

  const I64_MAX := 0x7fff_ffff_ffff_ffff
  const U32_MAX := 0xffff_ffff
  const U64_MAX := 0xffff_ffff_ffff_ffff

  // ----- Writing -----

  function DateText(date: Date): string
    requires 0 <= date.year && 0 <= date.month && 0 <= date.day
  {
    Padded(date.year, 4) + "-" + Padded(date.month, 2) + "-" + Padded(date.day, 2)
  }

  function ClockText(timeOfDay: nat): string {
    Padded(timeOfDay / 3_600_000, 2) + ":" + Padded(timeOfDay / 60_000 % 60, 2) + ":"
    + SecondsText(timeOfDay)
  }

  function SecondsText(timeOfDay: nat): string {
    Padded(timeOfDay / 1_000 % 60, 2) + "." + Padded(timeOfDay % 1_000, 3)
  }

  /** The stamp of an instant, or `None` where the day arithmetic goes below zero. */
  function PiTimestamp(milliseconds: nat): Option<string> {
    match CivilFromDays(milliseconds / DAY_MS, WRITTEN_DIVISOR)
    case Underflow => None
    case Civil(date) => Some(DateText(date) + "T" + ClockText(milliseconds % DAY_MS) + "Z")
  }

  // ----- Reading -----

  /** The wall clock of a time, and the minutes its zone is ahead of UTC. */
  function SplitZone(time: string): (string, int) {
    var n := |time|;
    if n >= 6 && time[n - 6] in {'+', '-'} && IsDigit(time[n - 5]) && IsDigit(time[n - 4])
       && time[n - 3] == ':' && IsDigit(time[n - 2]) && IsDigit(time[n - 1])
    then
      var magnitude := DigitsValue(time[n - 5..n - 3]) * 60 + DigitsValue(time[n - 2..]);
      (time[..n - 6], if time[n - 6] == '-' then -magnitude else magnitude)
    else if n > 0 && time[n - 1] == 'Z' then (time[..n - 1], 0)
    else (time, 0)
  }

  /** Seconds with an optional fraction, as whole seconds and the rounded milliseconds. */
  function ParseSeconds(text: string): Option<(nat, nat)> {
    match Cut(text, '.')
    case None => if text != [] && AllDigits(text) then Some((DigitsValue(text), 0)) else None
    case Some((whole, fraction)) =>
      if whole != [] && AllDigits(whole) && AllDigits(fraction) then
        var scale := Power10(|fraction|);
        Some((DigitsValue(whole), (2_000 * DigitsValue(fraction) + scale) / (2 * scale)))
      else None
  }

  function ParseDate(text: string): Option<int> {
    var parts := Split(text, '-');
    if |parts| < 3 then None
    else
      match (ParseInteger(parts[0], -I64_MAX - 1, I64_MAX),
             ParseInteger(parts[1], 0, U32_MAX), ParseInteger(parts[2], 0, U32_MAX))
      case (Some(year), Some(month), Some(day)) => DaysFromEpoch(Date(year, month, day))
      case _ => None
  }

  /** Milliseconds since midnight that a wall clock reads. */
  function ParseClock(text: string): Option<int> {
    var parts := Split(text, ':');
    if |parts| < 3 then None
    else
      match (ParseInteger(parts[0], 0, U64_MAX), ParseInteger(parts[1], 0, U64_MAX), ParseSeconds(parts[2]))
      case (Some(hour), Some(minute), Some((second, millis))) =>
        Some((hour * 3_600 + minute * 60 + second) * 1_000 + millis)
      case _ => None
  }

  function IsToMillis(text: string): Option<nat> {
    match Cut(text, 'T')
    case None => None
    case Some((date, time)) =>
      var (clock, offsetMinutes) := SplitZone(time);
      match (ParseDate(date), ParseClock(clock))
      case (Some(days), Some(inDay)) =>
        var millis := days * DAY_MS + inDay - offsetMinutes * 60_000;
        if 0 <= millis <= I64_MAX then Some(millis) else None
      case _ => None
  }

  // ----- The shape of a stamp -----

  /** A date-time of section 5.6 of RFC 3339 with three digits of fraction, in UTC. */
  predicate IsStamp(text: string) {
    |text| == 24 && forall k :: 0 <= k < 24 ==> IsStampChar(k, text[k])
  }

  predicate IsStampChar(k: nat, c: char) {
    if k == 4 || k == 7 then c == '-'
    else if k == 10 then c == 'T'
    else if k == 13 || k == 16 then c == ':'
    else if k == 19 then c == '.'
    else if k == 23 then c == 'Z'
    else IsDigit(c)
  }

  /** The number at a place of a stamp. */
  predicate Shows(text: string, from: nat, until: nat, n: nat) {
    from <= until <= |text| && AllDigits(text[from..until]) && DigitsValue(text[from..until]) == n
  }

  predicate ShowsDate(text: string, date: Date)
    requires 0 <= date.year && 0 <= date.month && 0 <= date.day
  {
    Shows(text, 0, 4, date.year) && Shows(text, 5, 7, date.month) && Shows(text, 8, 10, date.day)
  }

  /** Hours, minutes, seconds and milliseconds put together are the time of day. */
  ghost predicate ShowsClock(text: string, timeOfDay: nat) {
    exists h: nat, m: nat, s: nat, f: nat ::
      && Shows(text, 11, 13, h) && Shows(text, 14, 16, m) && Shows(text, 17, 19, s) && Shows(text, 20, 23, f)
      && h < 24 && m < 60 && s < 60 && f < 1_000 && ((h * 60 + m) * 60 + s) * 1_000 + f == timeOfDay
  }

  /** Digits of these widths between the marks of a stamp. */
  lemma StampOfParts(y: string, mo: string, d: string, h: string, mi: string, s: string, f: string)
    requires |y| == 4 && |mo| == |d| == |h| == |mi| == |s| == 2 && |f| == 3
    requires AllDigits(y) && AllDigits(mo) && AllDigits(d) && AllDigits(h) && AllDigits(mi) && AllDigits(s)
    requires AllDigits(f)
    ensures
      var text := y + "-" + mo + "-" + d + "T" + (h + ":" + mi + ":" + (s + "." + f)) + "Z";
      && IsStamp(text) && text[0..4] == y && text[5..7] == mo && text[8..10] == d && text[11..13] == h
      && text[14..16] == mi && text[17..19] == s && text[20..23] == f
  {
  }

  lemma TwoDigits(n: nat)
    requires n < 100
    ensures |Padded(n, 2)| == 2 && DigitsValue(Padded(n, 2)) == n
  {
    hide Padded, DigitsValue;
    assert Power10(2) == 100 by { assert Power10(1) == 10; }
    PaddedLength(n, 2);
    PaddedValue(n, 2);
  }

  /** The text of a date and a time of day has the shape and shows both. */
  lemma StampShows(date: Date, timeOfDay: nat)
    requires 0 <= date.year <= 9_999 && 0 <= date.month < 100 && 0 <= date.day < 100 && timeOfDay < DAY_MS
    ensures
      var text := DateText(date) + "T" + ClockText(timeOfDay) + "Z";
      IsStamp(text) && ShowsDate(text, date) && ShowsClock(text, timeOfDay)
  {
    hide Padded, DigitsValue, IsStamp;
    var h, mi, s, f := timeOfDay / 3_600_000, timeOfDay / 60_000 % 60, timeOfDay / 1_000 % 60, timeOfDay % 1_000;
    FourDigits(date.year);
    ThreeDigits(f);
    TwoDigits(date.month);
    TwoDigits(date.day);
    TwoDigits(h);
    TwoDigits(mi);
    TwoDigits(s);
    StampOfParts(Padded(date.year, 4), Padded(date.month, 2), Padded(date.day, 2), Padded(h, 2), Padded(mi, 2),
                 Padded(s, 2), Padded(f, 3));
    var text := DateText(date) + "T" + ClockText(timeOfDay) + "Z";
    ClockRecomposes(timeOfDay);
    assert Shows(text, 11, 13, h) && Shows(text, 14, 16, mi) && Shows(text, 17, 19, s) && Shows(text, 20, 23, f);
  }

  lemma FourDigits(n: nat)
    requires n <= 9_999
    ensures |Padded(n, 4)| == 4 && DigitsValue(Padded(n, 4)) == n
  {
    hide Padded, DigitsValue;
    assert Power10(4) == 10_000 by { assert Power10(2) == 100; }
    PaddedLength(n, 4);
    PaddedValue(n, 4);
  }

  lemma ThreeDigits(n: nat)
    requires n <= 999
    ensures |Padded(n, 3)| == 3 && DigitsValue(Padded(n, 3)) == n
  {
    hide Padded, DigitsValue;
    assert Power10(3) == 1_000 by { assert Power10(1) == 10; }
    PaddedLength(n, 3);
    PaddedValue(n, 3);
  }

  lemma LongYear(date: Date, rest: string)
    requires date.year > 9_999 && 0 <= date.month && 0 <= date.day
    ensures 'T' !in DateText(date) && |DateText(date)| > 10 && !IsStamp(DateText(date) + "T" + rest)
  {
    hide Padded;
    var y, m, d := Padded(date.year, 4), Padded(date.month, 2), Padded(date.day, 2);
    NoLetter(y, m, d);
    assert |y| > 4 by { FiveDigits(date.year); }
    var text := DateText(date) + "T" + rest;
    assert text[10] == DateText(date)[10] && DateText(date)[10] in DateText(date);
    assert IsStamp(text) ==> IsStampChar(10, text[10]);
  }

  lemma FiveDigits(n: nat)
    requires n > 9_999
    ensures |Padded(n, 4)| > 4
  {
    assert Power10(4) == 10_000 by { assert Power10(2) == 100; }
    DecimalIsLonger(n, 4);
  }

  /**
   A stamp has the shape of RFC 3339 exactly up to the year 9999, and shows there the date that was
   computed and the time of day.
   */
  lemma StampHasShape(ms: nat)
    requires PiTimestamp(ms).Some?
    ensures
      var stamp, civil := PiTimestamp(ms).value, CivilFromDays(ms / DAY_MS, WRITTEN_DIVISOR);
      && civil.Civil? && IsDate(civil.date) && civil.date.year >= 1970
      && (IsStamp(stamp) <==> civil.date.year <= 9_999)
      && (civil.date.year <= 9_999 ==> ShowsDate(stamp, civil.date) && ShowsClock(stamp, ms % DAY_MS))
  {
    hide CivilFromDays, CalendarDate, DateText, ClockText, IsStamp, ShowsDate, ShowsClock;
    var days := ms / DAY_MS;
    WrittenDivisorIs(days);
    CorrectDivisorIsCalendar(days);
    CalendarIsLater(days);
    var date := CivilFromDays(days, WRITTEN_DIVISOR).date;
    assert IsDate(date);
    if date.year <= 9_999 {
      StampShows(date, ms % DAY_MS);
    } else {
      Assoc(DateText(date) + "T", ClockText(ms % DAY_MS), "Z");
      LongYear(date, ClockText(ms % DAY_MS) + "Z");
    }
  }

  lemma {:induction false} CalendarIsLater(days: nat)
    ensures CalendarDate(days).year >= 1970
  {
    if days > 0 { CalendarIsLater(days - 1); }
  }

  /** The first instant of all. */
  lemma StampOfZero()
    ensures PiTimestamp(0) == Some("1970-01-01T00:00:00.000Z")
  {
    hide CivilFromDays, Padded;
    WrittenDivisorIs(0);
    ZeroDigits();
    assert DateText(Date(1970, 1, 1)) == "1970-01-01";
    assert ClockText(0) == "00:00:00.000";
    assert "1970-01-01" + "T" + "00:00:00.000" + "Z" == "1970-01-01T00:00:00.000Z";
    assert CivilFromDays(0, WRITTEN_DIVISOR) == Civil(Date(1970, 1, 1));
  }

  lemma ZeroDigits()
    ensures Padded(1970, 4) == "1970" && Padded(1, 2) == "01" && Padded(0, 2) == "00" && Padded(0, 3) == "000"
  {
    assert Decimal(19) == "19" && Decimal(197) == "197" && Decimal(1970) == "1970";
    assert Padded(0, 3) == ['0', '0'] + "0" && Padded(1, 2) == ['0'] + "1";
  }

  // ----- Reading what was written -----

  lemma ParseDateText(date: Date)
    requires 0 <= date.year <= I64_MAX && 0 <= date.month <= U32_MAX && 0 <= date.day <= U32_MAX
    ensures ParseDate(DateText(date)) == DaysFromEpoch(date)
    ensures 'T' !in DateText(date)
  {
    hide DaysFromEpoch, ParseInteger, Padded;
    var y, m, d := Padded(date.year, 4), Padded(date.month, 2), Padded(date.day, 2);
    SplitThree(y, m, d, '-');
    ParsePadded(date.year, 4, -I64_MAX - 1, I64_MAX);
    ParsePadded(date.month, 2, 0, U32_MAX);
    ParsePadded(date.day, 2, 0, U32_MAX);
  }

  lemma ParseSecondsText(timeOfDay: nat)
    requires timeOfDay < DAY_MS
    ensures ParseSeconds(SecondsText(timeOfDay)) == Some((timeOfDay / 1_000 % 60, timeOfDay % 1_000))
    ensures ':' !in SecondsText(timeOfDay)
  {
    hide Padded, DigitsValue;
    var s, f := timeOfDay / 1_000 % 60, timeOfDay % 1_000;
    CutAt(Padded(s, 2), '.', Padded(f, 3));
    PaddedValue(s, 2);
    PaddedValue(f, 3);
    assert Power10(3) == 1_000 by { assert Power10(1) == 10; }
    PaddedLength(f, 3);
  }

  lemma ParseClockText(timeOfDay: nat)
    requires timeOfDay < DAY_MS
    ensures ParseClock(ClockText(timeOfDay)) == Some(timeOfDay)
  {
    hide ParseSeconds, SecondsText, ParseInteger, Padded, Split;
    var h, m := timeOfDay / 3_600_000, timeOfDay / 60_000 % 60;
    ParseSecondsText(timeOfDay);
    SplitThree(Padded(h, 2), Padded(m, 2), SecondsText(timeOfDay), ':');
    ParsePadded(h, 2, 0, U64_MAX);
    ParsePadded(m, 2, 0, U64_MAX);
    ClockRecomposes(timeOfDay);
  }

  lemma ClockRecomposes(t: nat)
    ensures (t / 3_600_000 * 3_600 + t / 60_000 % 60 * 60 + t / 1_000 % 60) * 1_000 + t % 1_000 == t
  {
    assert t / 60_000 == t / 1_000 / 60;
    assert t / 3_600_000 == t / 60_000 / 60;
  }

  /** The zone of a printed time is UTC: no sign stands where an offset would put one. */
  lemma SplitZoneOfClock(timeOfDay: nat)
    requires timeOfDay < DAY_MS
    ensures SplitZone(ClockText(timeOfDay) + "Z") == (ClockText(timeOfDay), 0)
  {
    hide Padded;
    PaddedLength(timeOfDay % 1_000, 3);
    var clock := ClockText(timeOfDay);
    var time := clock + "Z";
    assert time[..|time| - 1] == clock;
  }

  /** Whatever date was written, the importer reads that date and the time of day. */
  lemma IsToMillisReads(date: Date, timeOfDay: nat)
    requires 0 <= date.year <= I64_MAX && 0 <= date.month <= U32_MAX && 0 <= date.day <= U32_MAX
    requires timeOfDay < DAY_MS && DaysFromEpoch(date).Some? && DaysFromEpoch(date).value >= 0
    ensures var millis := DaysFromEpoch(date).value * DAY_MS + timeOfDay;
            IsToMillis(DateText(date) + "T" + ClockText(timeOfDay) + "Z") ==
              if millis <= I64_MAX then Some(millis) else None
  {
    hide DaysFromEpoch, DateText, ClockText, ParseDate, ParseClock, SplitZone;
    var dateText, clock := DateText(date), ClockText(timeOfDay);
    ParseDateText(date);
    ParseClockText(timeOfDay);
    SplitZoneOfClock(timeOfDay);
    assert dateText + "T" + clock + "Z" == dateText + ['T'] + (clock + "Z");
    CutAt(dateText, 'T', clock + "Z");
  }

  lemma YearIsBounded(days: nat)
    requires days <= U64_MAX
    ensures CalendarDate(days).year <= I64_MAX
  {
    hide CalendarDate;
    CorrectDivisorIsCalendar(days);
    CivilYearIsBounded(days, CORRECT_DIVISOR);
  }

  lemma CivilYearIsBounded(days: nat, divisor: nat)
    requires days <= U64_MAX && divisor in {WRITTEN_DIVISOR, CORRECT_DIVISOR}
    requires CivilFromDays(days, divisor).Civil?
    ensures CivilFromDays(days, divisor).date.year <= I64_MAX
  {
    hide MonthAndDay, YearStart;
  }

  /**
   The round trip through text.  A stamp reads back as the instant it was written for
   exactly off leap days and within a signed 64-bit clock; on the leap day of a year
   divisible by 400 it reads back one day late, and on other leap days there is no stamp.
   */
  lemma TimestampRoundTrip(ms: nat)
    requires ms <= U64_MAX
    ensures var stamp, date := PiTimestamp(ms), CalendarDate(ms / DAY_MS);
            && (stamp.None? <==> IsLeapDay(date) && date.year % 400 != 0)
            && (stamp.Some? && IsToMillis(stamp.value) == Some(ms) <==> !IsLeapDay(date) && ms <= I64_MAX)
            && (stamp.Some? && IsLeapDay(date) && ms + DAY_MS <= I64_MAX ==>
                  IsToMillis(stamp.value) == Some(ms + DAY_MS))
  {
    hide CivilFromDays, DaysFromEpoch, IsToMillis, DateText, ClockText, IsDate, NextDay;
    var days := ms / DAY_MS;
    WrittenDivisorIs(days);
    StampReadsAs(days, ms % DAY_MS);
    StampReadsAs(days + 1, ms % DAY_MS);
  }

  lemma StampReadsAs(days: nat, timeOfDay: nat)
    requires days <= U64_MAX && timeOfDay < DAY_MS
    ensures var date := CalendarDate(days);
            && 0 <= date.year && 0 <= date.month && 0 <= date.day
            && IsToMillis(DateText(date) + "T" + ClockText(timeOfDay) + "Z") ==
                 if days * DAY_MS + timeOfDay <= I64_MAX then Some(days * DAY_MS + timeOfDay) else None
  {
    hide CivilFromDays, CalendarDate, DaysFromEpoch, IsToMillis, DateText, ClockText;
    CorrectDivisorIsCalendar(days);
    YearIsBounded(days);
    IsToMillisReads(CalendarDate(days), timeOfDay);
  }

  // ----- A build without overflow checks -----

  /** The stamp such a build writes: there always is one. */
  function PiTimestampWrapping(milliseconds: nat): string {
    DateText(CivilWrapping(milliseconds / DAY_MS)) + "T" + ClockText(milliseconds % DAY_MS) + "Z"
  }

  lemma ParseTooLarge(n: nat, width: nat, low: int, high: int)
    requires low <= 0 <= high < n
    ensures ParseInteger(Padded(n, width), low, high) == None
  {
    PaddedValue(n, width);
    assert IsDigit(Padded(n, width)[0]);
  }

  /** A month of more than 32 bits is not read. */
  lemma LargeMonthIsRefused(date: Date, rest: string)
    requires 0 <= date.year && 0 <= date.day && date.month > U32_MAX
    ensures ParseDate(DateText(date)) == None && IsToMillis(DateText(date) + "T" + rest) == None
  {
    hide ParseInteger, Padded, Split, SplitZone, ParseClock;
    var y, m, d := Padded(date.year, 4), Padded(date.month, 2), Padded(date.day, 2);
    SplitThree(y, m, d, '-');
    ParseTooLarge(date.month, 2, 0, U32_MAX);
    assert 'T' !in DateText(date) by { NoLetter(y, m, d); }
    assert DateText(date) + "T" + rest == DateText(date) + ['T'] + rest;
    CutAt(DateText(date), 'T', rest);
  }

  lemma NoLetter(y: string, m: string, d: string)
    requires AllDigits(y) && AllDigits(m) && AllDigits(d)
    ensures 'T' !in y + "-" + m + "-" + d
  {
  }

  /**
   Where overflow is not checked a stamp is always written. It is the checked one wherever there is
   one; it reads back exactly off leap days within the signed range, a day late on the leap day
   of a year divisible by 400, and not at all on other leap days.
   */
  lemma WrappingRoundTrip(ms: nat)
    requires ms <= U64_MAX
    ensures
      var stamp, date := PiTimestampWrapping(ms), CalendarDate(ms / DAY_MS);
      && (PiTimestamp(ms).Some? ==> PiTimestamp(ms) == Some(stamp))
      && (IsToMillis(stamp) == Some(ms) <==> !IsLeapDay(date) && ms <= I64_MAX)
      && (IsLeapDay(date) && date.year % 400 == 0 && ms + DAY_MS <= I64_MAX ==> IsToMillis(stamp) == Some(ms + DAY_MS))
      && (IsLeapDay(date) && date.year % 400 != 0 ==> IsToMillis(stamp) == None)
  {
    hide CivilFromDays, CivilWrapping, DaysFromEpoch, IsToMillis, DateText, ClockText, IsDate, NextDay, CalendarDate;
    var days, rest := ms / DAY_MS, ClockText(ms % DAY_MS) + "Z";
    WrittenDivisorIs(days);
    CivilWrappingIs(days);
    TimestampRoundTrip(ms);
    Assoc(DateText(CivilWrapping(days)) + "T", ClockText(ms % DAY_MS), "Z");
    if PiTimestamp(ms).None? {
      assert CivilWrapping(days).month == WRAPPED_MONTH > U32_MAX;
      LargeMonthIsRefused(CivilWrapping(days), rest);
    }
  }

  // ----- Stamps of others -----

  /** A zone: UTC by its letter, none, or an offset in hours and minutes. */
  datatype Zone = Utc | NoZone | Offset(behind: bool, hours: nat, minutes: nat)

  function ZoneText(z: Zone): string {
    match z
    case Utc => "Z"
    case NoZone => ""
    case Offset(behind, hours, minutes) =>
      (if behind then "-" else "+") + (Padded(hours, 2) + ":" + Padded(minutes, 2))
  }

  predicate IsZone(z: Zone) {
    z.Offset? ==> z.hours < 100 && z.minutes < 100
  }

  /** The minutes a zone is ahead of UTC. */
  function Ahead(z: Zone): int {
    match z
    case Offset(behind, hours, minutes) => if behind then 0 - (hours * 60 + minutes) else hours * 60 + minutes
    case _ => 0
  }

  /** A time of day with any number of digits behind the seconds, or none. */
  datatype Clock = Clock(hour: nat, minute: nat, second: nat, fraction: Option<string>)

  predicate IsClock(c: Clock) {
    c.hour < 100 && c.minute < 100 && c.second < 100 && (c.fraction.Some? ==> AllDigits(c.fraction.value))
  }

  function SecondText(c: Clock): string {
    match c.fraction
    case None => Padded(c.second, 2)
    case Some(digits) => Padded(c.second, 2) + "." + digits
  }

  function TimeText(c: Clock): string {
    Padded(c.hour, 2) + ":" + Padded(c.minute, 2) + ":" + SecondText(c)
  }

  /** `n` is the number of milliseconds nearest to the fraction, the larger one in the middle. */
  predicate IsNearest(fraction: Option<string>, n: nat) {
    match fraction
    case None => n == 0
    case Some(digits) =>
      AllDigits(digits)
      && (2 * n - 1) * Power10(|digits|) <= 2_000 * DigitsValue(digits) < (2 * n + 1) * Power10(|digits|)
  }

  lemma NearestIs(value: nat, scale: nat)
    requires scale > 0
    ensures var n := (2_000 * value + scale) / (2 * scale);
            (2 * n - 1) * scale <= 2_000 * value < (2 * n + 1) * scale
  {
    var n := (2_000 * value + scale) / (2 * scale);
    var r := (2_000 * value + scale) % (2 * scale);
    assert 2_000 * value + scale == 2 * scale * n + r;
    assert 2 * scale * n == 2 * n * scale;
  }

  lemma SplitZoneIs(clock: string, z: Zone)
    requires '+' !in clock && '-' !in clock && 'Z' !in clock && IsZone(z)
    ensures SplitZone(clock + ZoneText(z)) == (clock, Ahead(z))
  {
    hide Padded, DigitsValue, SplitZone;
    match z
    case Utc => UtcIs(clock);
    case NoZone =>
      assert clock + "" == clock;
      NoZoneIs(clock);
    case Offset(behind, hours, minutes) =>
      TwoDigits(hours);
      TwoDigits(minutes);
      OffsetIs(clock, if behind then '-' else '+', Padded(hours, 2), Padded(minutes, 2));
  }

  lemma UtcIs(clock: string)
    ensures SplitZone(clock + "Z") == (clock, 0)
  {
    var time := clock + "Z";
    assert time[..|time| - 1] == clock && time[|time| - 1] == 'Z';
    hide DigitsValue;
  }

  lemma NoZoneIs(clock: string)
    requires '+' !in clock && '-' !in clock && 'Z' !in clock
    ensures SplitZone(clock) == (clock, 0)
  {
    hide DigitsValue;
    assert |clock| >= 6 ==> clock[|clock| - 6] in clock;
    assert clock != "" ==> clock[|clock| - 1] in clock;
  }

  lemma OffsetIs(clock: string, sign: char, hours: string, minutes: string)
    requires |hours| == |minutes| == 2 && AllDigits(hours) && AllDigits(minutes) && (sign == '+' || sign == '-')
    ensures
      var magnitude := DigitsValue(hours) * 60 + DigitsValue(minutes);
      SplitZone(clock + ([sign] + (hours + ":" + minutes))) == (clock, if sign == '-' then 0 - magnitude else magnitude)
  {
    hide DigitsValue, SplitZone, AllDigits;
    var zone := [sign] + (hours + ":" + minutes);
    assert zone[1..3] == hours && zone[4..] == minutes && zone[3] == ':' && zone[0] == sign;
    OffsetAt(clock, zone);
  }

  lemma OffsetAt(clock: string, zone: string)
    requires |zone| == 6 && (zone[0] == '+' || zone[0] == '-') && zone[3] == ':'
    requires AllDigits(zone[1..3]) && AllDigits(zone[4..])
    ensures
      var magnitude := DigitsValue(zone[1..3]) * 60 + DigitsValue(zone[4..]);
      SplitZone(clock + zone) == (clock, if zone[0] == '-' then 0 - magnitude else magnitude)
  {
    hide DigitsValue, AllDigits;
    var time, n := clock + zone, |clock| + 6;
    OffsetDigits(zone);
    assert forall k :: 0 <= k < 6 ==> time[|clock| + k] == zone[k];
    assert time[n - 6] == zone[0] && time[n - 5] == zone[1] && time[n - 4] == zone[2];
    assert time[n - 3] == zone[3] && time[n - 2] == zone[4] && time[n - 1] == zone[5];
    assert time[n - 5..n - 3] == zone[1..3] && time[n - 2..] == zone[4..] && time[..n - 6] == clock;
  }

  lemma OffsetDigits(zone: string)
    requires |zone| == 6 && AllDigits(zone[1..3]) && AllDigits(zone[4..])
    ensures IsDigit(zone[1]) && IsDigit(zone[2]) && IsDigit(zone[4]) && IsDigit(zone[5])
  {
    assert zone[1..3][0] == zone[1] && zone[1..3][1] == zone[2] && zone[4..][0] == zone[4] && zone[4..][1] == zone[5];
  }

  lemma SecondIsRead(c: Clock) returns (n: nat)
    requires IsClock(c)
    ensures ParseSeconds(SecondText(c)) == Some((c.second, n)) && IsNearest(c.fraction, n)
    ensures ':' !in SecondText(c)
  {
    hide Padded, DigitsValue, Power10, IsNearest, ParseSeconds;
    var text := Padded(c.second, 2);
    PaddedValue(c.second, 2);
    match c.fraction
    case None =>
      n := 0;
      WholeSecond(text);
      assert IsNearest(c.fraction, n) by { NoFraction(); }
    case Some(digits) =>
      n := FractionIs(text, digits);
  }

  lemma NoFraction()
    ensures IsNearest(None, 0)
  {
  }

  lemma WholeSecond(text: string)
    requires text != "" && AllDigits(text)
    ensures ParseSeconds(text) == Some((DigitsValue(text), 0))
  {
    hide DigitsValue;
    assert '.' !in text;
  }

  lemma FractionIs(text: string, digits: string) returns (n: nat)
    requires text != "" && AllDigits(text) && AllDigits(digits)
    ensures ParseSeconds(text + "." + digits) == Some((DigitsValue(text), n)) && IsNearest(Some(digits), n)
  {
    hide DigitsValue, Power10;
    assert '.' !in text;
    CutAt(text, '.', digits);
    n := (2_000 * DigitsValue(digits) + Power10(|digits|)) / (2 * Power10(|digits|));
    NearestIs(DigitsValue(digits), Power10(|digits|));
  }

  lemma TimeIsRead(c: Clock) returns (n: nat)
    requires IsClock(c)
    ensures ParseClock(TimeText(c)) == Some((c.hour * 3_600 + c.minute * 60 + c.second) * 1_000 + n)
    ensures IsNearest(c.fraction, n)
  {
    hide ParseSeconds, SecondText, ParseInteger, Padded, Split, IsNearest;
    n := SecondIsRead(c);
    SplitThree(Padded(c.hour, 2), Padded(c.minute, 2), SecondText(c), ':');
    ParsePadded(c.hour, 2, 0, U64_MAX);
    ParsePadded(c.minute, 2, 0, U64_MAX);
  }

  lemma TimeHasNoSign(c: Clock)
    requires IsClock(c)
    ensures '+' !in TimeText(c) && '-' !in TimeText(c) && 'Z' !in TimeText(c)
  {
    hide Padded;
  }

  /** Any date, any time of day and any zone are read as the instant they name, to the nearest millisecond. */
  lemma StampIsRead(date: Date, c: Clock, z: Zone) returns (n: nat)
    requires 0 <= date.year <= I64_MAX && 0 <= date.month <= U32_MAX && 0 <= date.day <= U32_MAX
    requires DaysFromEpoch(date).Some? && IsClock(c) && IsZone(z)
    ensures IsNearest(c.fraction, n)
    ensures
      var minutes := DaysFromEpoch(date).value * 1_440 + c.hour * 60 + c.minute - Ahead(z);
      var millis := (minutes * 60 + c.second) * 1_000 + n;
      IsToMillis(DateText(date) + "T" + TimeText(c) + ZoneText(z)) ==
      if 0 <= millis <= I64_MAX then Some(millis) else None
  {
    hide DaysFromEpoch, DateText, TimeText, ParseDate, ParseClock, SplitZone, ZoneText, IsNearest;
    var dateText, time := DateText(date), TimeText(c) + ZoneText(z);
    ParseDateText(date);
    n := TimeIsRead(c);
    TimeHasNoSign(c);
    SplitZoneIs(TimeText(c), z);
    assert dateText + "T" + TimeText(c) + ZoneText(z) == dateText + ['T'] + time;
    CutAt(dateText, 'T', time);
  }
}
