/**
 Epoch milliseconds as civil time: the stamp `rupi export` writes (src/export_pi.rs) and
 the reading `rupi import-pi` gives it (crates/rupi-store/src/pi_import.rs).

 The reference is the Gregorian calendar counted one day at a time from 1970-01-01.  The
 exporter divides by 1 461 where the algorithm needs 1 460; the lemmas below say on
 exactly which days that is visible.
 */
module CivilTime {
  import opened Text

  // ----- The Gregorian calendar, one day at a time -----

  datatype Date = Date(year: int, month: int, day: int)

  predicate IsLeap(year: int) {
    year % 4 == 0 && (year % 100 != 0 || year % 400 == 0)
  }

  function DaysInMonth(year: int, month: int): int {
    if month == 2 then (if IsLeap(year) then 29 else 28)
    else if month in {4, 6, 9, 11} then 30
    else 31
  }

  predicate IsDate(date: Date) {
    1 <= date.month <= 12 && 1 <= date.day <= DaysInMonth(date.year, date.month)
  }

  function NextDay(date: Date): Date {
    if date.day < DaysInMonth(date.year, date.month) then date.(day := date.day + 1)
    else if date.month < 12 then Date(date.year, date.month + 1, 1)
    else Date(date.year + 1, 1, 1)
  }

  /** The date `days` days after 1970-01-01. */
  function CalendarDate(days: nat): Date {
    if days == 0 then Date(1970, 1, 1) else NextDay(CalendarDate(days - 1))
  }

  predicate IsLeapDay(date: Date) {
    date.month == 2 && date.day == 29
  }

  // ----- The exporter -----

  const DAY_MS := 86_400_000
  const DAYS_TO_1970 := 719_468
  const DAYS_PER_ERA := 146_097

  /** The divisor written in the exporter, and the one its algorithm needs. */
  const WRITTEN_DIVISOR: nat := 1_461
  const CORRECT_DIVISOR: nat := 1_460

  /** A conversion that ran, or one whose unsigned subtraction went below zero. */
  datatype Civil = Civil(date: Date) | Underflow

  function YearOfEra(dayOfEra: nat, divisor: nat): nat
    requires divisor in {WRITTEN_DIVISOR, CORRECT_DIVISOR}
  {
    (dayOfEra - dayOfEra / divisor + dayOfEra / 36_524 - dayOfEra / 146_096) / 365
  }

  /** Days in front of a March-based year of an era. */
  function YearStart(yearOfEra: nat): nat {
    365 * yearOfEra + yearOfEra / 4 - yearOfEra / 100
  }

  function CivilFromDays(days: nat, divisor: nat): (civil: Civil)
    requires divisor in {WRITTEN_DIVISOR, CORRECT_DIVISOR}
    ensures civil.Civil? ==> 0 <= civil.date.year && 1 <= civil.date.month && 1 <= civil.date.day
  {
    var shifted := days + DAYS_TO_1970;
    var era := shifted / DAYS_PER_ERA;
    var dayOfEra := shifted - era * DAYS_PER_ERA;
    var yearOfEra := YearOfEra(dayOfEra, divisor);
    var year := yearOfEra + era * 400;
    if dayOfEra < YearStart(yearOfEra) then Underflow
    else
      Civil(MonthAndDay(year, dayOfEra - YearStart(yearOfEra)))
  }

  /** Days in front of the month `p` months after March. */
  function MonthStart(p: nat): nat {
    (153 * p + 2) / 5
  }

  /** The date of a day of a March-based year. */
  function MonthAndDay(year: int, dayOfYear: nat): (date: Date)
    ensures 1 <= date.month && 1 <= date.day && year <= date.year <= year + 1
  {
    var monthProbe := (5 * dayOfYear + 2) / 153;
    var day := dayOfYear - MonthStart(monthProbe) + 1;
    var month := if monthProbe < 10 then monthProbe + 3 else monthProbe - 9;
    Date(if month <= 2 then year + 1 else year, month, day)
  }

  // ----- The importer -----

  /** Division of signed integers that truncates toward zero. */
  function TruncatingDiv(a: int, b: int): int
    requires b > 0
  {
    if a >= 0 then a / b else -((-a) / b)
  }

  function DaysFromEpoch(date: Date): Option<int> {
    if !(1 <= date.month <= 12) || date.day <= 0 || date.day > 31 then None
    else
      var (year, month) := if date.month <= 2 then (date.year - 1, date.month + 9)
                           else (date.year, date.month - 3);
      var era := TruncatingDiv(if year >= 0 then year else year - 399, 400);
      var yearOfEra := year - era * 400;
      var dayOfEra := 365 * yearOfEra + TruncatingDiv(yearOfEra, 4) - TruncatingDiv(yearOfEra, 100)
                      + MonthStart(month) + date.day - 1;
      Some(era * DAYS_PER_ERA + dayOfEra - DAYS_TO_1970)
  }

  /** A date has a number when its month is one of twelve and its day one of thirty-one; days count on. */
  lemma AcceptedDates(date: Date)
    ensures DaysFromEpoch(date).Some? <==> 1 <= date.month <= 12 && 1 <= date.day <= 31
    ensures DaysFromEpoch(date).Some? ==>
      DaysFromEpoch(date).value == DaysFromEpoch(date.(day := 1)).value + date.day - 1
  {
  }

  // ----- March-based years -----

  /** Whether the March-based year ends in a 29 February. */
  predicate EndsInLeapDay(yearOfEra: nat) {
    IsLeap(yearOfEra + 1)
  }

  /** A day of an era, written as its March-based year and the day within that year. */
  ghost predicate IsDayOfYear(yearOfEra: nat, dayOfYear: nat) {
    yearOfEra < 400 && (dayOfYear < 365 || (dayOfYear == 365 && EndsInLeapDay(yearOfEra)))
  }

  /** The year formula with either divisor; they differ on leap days alone. */
  lemma YearOfEraIs(yearOfEra: nat, dayOfYear: nat)
    requires IsDayOfYear(yearOfEra, dayOfYear)
    ensures var dayOfEra := YearStart(yearOfEra) + dayOfYear;
            && dayOfEra < DAYS_PER_ERA
            && YearOfEra(dayOfEra, CORRECT_DIVISOR) == yearOfEra
            && YearOfEra(dayOfEra, WRITTEN_DIVISOR) == yearOfEra + if dayOfYear == 365 then 1 else 0
  {
    var c, q, r := yearOfEra / 100, yearOfEra % 100 / 4, yearOfEra % 4;
    var dayOfEra := YearStart(yearOfEra) + dayOfYear;
    assert yearOfEra == 100 * c + 4 * q + r;
    assert dayOfEra == 36_524 * c + 1_461 * q + 365 * r + dayOfYear;
    YearOfEraOfParts(c, q, r, dayOfYear);
  }

  lemma QuotientIs(n: int, divisor: int, quotient: int, rest: int)
    requires divisor > 0 && 0 <= rest < divisor && n == divisor * quotient + rest
    ensures n / divisor == quotient
  {
    var k := n / divisor - quotient;
    assert divisor * k == divisor * (n / divisor) - divisor * quotient == rest - n % divisor;
    Multiples(divisor, k);
  }

  lemma Multiples(d: int, k: int)
    requires d > 0
    ensures k >= 1 ==> d * k >= d
    ensures k <= -1 ==> d * k <= -d
  {
  }

  /** A day of an era, by century, four years, year and day. */
  predicate AreParts(c: nat, q: nat, r: nat, d: nat) {
    c <= 3 && q <= 24 && r <= 3 && (d < 365 || (d == 365 && r == 3 && (q < 24 || c == 3)))
  }

  function OfParts(c: nat, q: nat, r: nat, d: nat): nat {
    36_524 * c + 1_461 * q + 365 * r + d
  }

  /** The correction for the centuries. */
  lemma CenturyOfParts(c: nat, q: nat, r: nat, d: nat)
    requires AreParts(c, q, r, d)
    ensures var n := OfParts(c, q, r, d); n < DAYS_PER_ERA && n / 36_524 - n / 146_096 == c
  {
    var n, rest := OfParts(c, q, r, d), 1_461 * q + 365 * r + d;
    if rest < 36_524 { QuotientIs(n, 36_524, c, rest); }
  }

  lemma CorrectQuarters(c: nat, q: nat, r: nat, d: nat)
    requires AreParts(c, q, r, d)
    ensures var e := if 24 * c + q + 365 * r + d >= 1_460 then 1 else 0; OfParts(c, q, r, d) / 1_460 == 25 * c + q + e
  {
    var e := if 24 * c + q + 365 * r + d >= 1_460 then 1 else 0;
    QuotientIs(OfParts(c, q, r, d), 1_460, 25 * c + q + e, 24 * c + q + 365 * r + d - 1_460 * e);
  }

  lemma WrittenQuarters(c: nat, q: nat, r: nat, d: nat)
    requires AreParts(c, q, r, d)
    ensures var f := if 365 * r + d < c then 1 else 0; OfParts(c, q, r, d) / 1_461 == 25 * c + q - f
  {
    var f := if 365 * r + d < c then 1 else 0;
    QuotientIs(OfParts(c, q, r, d), 1_461, 25 * c + q - f, 365 * r + d - c + 1_461 * f);
  }

  lemma YearOfEraOfParts(c: nat, q: nat, r: nat, d: nat)
    requires AreParts(c, q, r, d)
    ensures var n := OfParts(c, q, r, d);
            && n < DAYS_PER_ERA
            && YearOfEra(n, CORRECT_DIVISOR) == 100 * c + 4 * q + r
            && YearOfEra(n, WRITTEN_DIVISOR) == 100 * c + 4 * q + r + if d == 365 then 1 else 0
  {
    CenturyOfParts(c, q, r, d);
    CorrectQuarters(c, q, r, d);
    WrittenQuarters(c, q, r, d);
    var year := 100 * c + 4 * q + r;
    var e := if 24 * c + q + 365 * r + d >= 1_460 then 1 else 0;
    var f := if 365 * r + d < c then 1 else 0;
    assert OfParts(c, q, r, d) == 365 * year + 24 * c + q + d;
    hide OfParts, AreParts;
    QuotientIs(365 * year + d - e, 365, year, d - e);
    if d == 365 {
      QuotientIs(365 * year + d + f, 365, year + 1, f);
    } else {
      QuotientIs(365 * year + d + f, 365, year, d + f);
    }
  }

  /** Every day of an era has such a form. */
  lemma DayOfYearExists(dayOfEra: nat) returns (yearOfEra: nat, dayOfYear: nat)
    requires dayOfEra < DAYS_PER_ERA
    ensures IsDayOfYear(yearOfEra, dayOfYear)
    ensures dayOfEra == YearStart(yearOfEra) + dayOfYear
  {
    var c := if dayOfEra / 36_524 < 3 then dayOfEra / 36_524 else 3;
    var inCentury := dayOfEra - 36_524 * c;
    var q := inCentury / 1_461;
    var inCycle := inCentury - 1_461 * q;
    var r := if inCycle / 365 < 3 then inCycle / 365 else 3;
    yearOfEra, dayOfYear := 100 * c + 4 * q + r, inCycle - 365 * r;
    assert yearOfEra / 100 == c && yearOfEra / 4 == 25 * c + q;
  }

  // ----- Months -----

  /** The most days the month `p` months after March can have. */
  function MonthLength(p: nat): nat {
    if p == 11 then 29 else if p in {1, 3, 6, 8} then 30 else 31
  }

  lemma MonthStartStep(p: nat)
    requires p < 12
    ensures MonthStart(p + 1) == MonthStart(p) + MonthLength(p) + if p == 11 then 1 else 0
  {
  }

  /** The probe finds the month a day of the year lies in. */
  lemma ProbeIs(dayOfYear: nat, p: nat)
    requires p <= 11 && MonthStart(p) <= dayOfYear < MonthStart(p) + MonthLength(p)
    ensures (5 * dayOfYear + 2) / 153 == p
    ensures dayOfYear <= 365 && (dayOfYear == 365 <==> p == 11 && dayOfYear == MonthStart(p) + 28)
  {
    MonthStartStep(p);
  }

  lemma ProbeExists(dayOfYear: nat)
    requires dayOfYear <= 365
    ensures var p := (5 * dayOfYear + 2) / 153;
            p <= 11 && MonthStart(p) <= dayOfYear < MonthStart(p) + MonthLength(p)
  {
    var p := (5 * dayOfYear + 2) / 153;
    assert 153 * p <= 5 * dayOfYear + 2 < 153 * p + 153;
    MonthStartStep(p);
  }

  // ----- Both conversions between a date and its March-based form -----

  lemma MonthAndDayIsDate(year: int, dayOfYear: nat)
    requires dayOfYear < 365 || (dayOfYear == 365 && IsLeap(year + 1))
    ensures var date := MonthAndDay(year, dayOfYear);
            && IsDate(date) && (IsLeapDay(date) <==> dayOfYear == 365)
            && (dayOfYear == 365 ==> date == Date(year + 1, 2, 29))
  {
    ProbeExists(dayOfYear);
    ProbeIs(dayOfYear, (5 * dayOfYear + 2) / 153);
  }

  /** One day on within a March-based year is one day on in the calendar. */
  lemma NextDayWithinYear(year: int, dayOfYear: nat)
    requires dayOfYear < 364 || (dayOfYear == 364 && IsLeap(year + 1))
    ensures NextDay(MonthAndDay(year, dayOfYear)) == MonthAndDay(year, dayOfYear + 1)
  {
    var p := (5 * dayOfYear + 2) / 153;
    ProbeExists(dayOfYear);
    MonthStartStep(p);
    ProbeIs(dayOfYear + 1, if dayOfYear + 1 < MonthStart(p) + MonthLength(p) then p else p + 1);
    hide MonthStart, IsLeap;
  }

  lemma NextDayAcrossYears(year: int, dayOfYear: nat)
    requires dayOfYear == if IsLeap(year + 1) then 365 else 364
    ensures NextDay(MonthAndDay(year, dayOfYear)) == MonthAndDay(year + 1, 0)
  {
  }

  lemma LeapOfEra(era: int, yearOfEra: nat)
    ensures IsLeap(era * 400 + yearOfEra) == IsLeap(yearOfEra)
    ensures (era * 400 + yearOfEra) % 400 == yearOfEra % 400
  {
    var year := era * 400 + yearOfEra;
    ResidueIs(year, 4, 100 * era + yearOfEra / 4, yearOfEra % 4);
    ResidueIs(year, 100, 4 * era + yearOfEra / 100, yearOfEra % 100);
    ResidueIs(year, 400, era + yearOfEra / 400, yearOfEra % 400);
  }

  lemma ResidueIs(year: int, modulus: nat, quotient: int, rest: nat)
    requires modulus in {4, 100, 400} && rest < modulus && year == modulus * quotient + rest
    ensures year % modulus == rest
  {
    if modulus == 4 {} else if modulus == 100 {} else {}
  }

  /** A date and its March-based form: the year as era and year of the era, and the day. */
  ghost predicate IsDateOf(date: Date, era: int, yearOfEra: nat, dayOfYear: nat) {
    && IsDayOfYear(yearOfEra, dayOfYear)
    && date == MonthAndDay(era * 400 + yearOfEra, dayOfYear)
  }

  /** The importer's number of a March-based day. */
  ghost function DayNumber(era: int, yearOfEra: nat, dayOfYear: nat): int {
    era * DAYS_PER_ERA + YearStart(yearOfEra) + dayOfYear - DAYS_TO_1970
  }

  lemma DateOfExists(date: Date) returns (era: int, yearOfEra: nat, dayOfYear: nat)
    requires IsDate(date)
    ensures IsDateOf(date, era, yearOfEra, dayOfYear)
  {
    var year := if date.month <= 2 then date.year - 1 else date.year;
    var p := if date.month <= 2 then date.month + 9 else date.month - 3;
    era, yearOfEra := year / 400, year % 400;
    dayOfYear := MonthStart(p) + date.day - 1;
    LeapOfEra(era, yearOfEra + 1);
    ProbeIs(dayOfYear, p);
  }

  lemma DayNumberExists(days: nat) returns (era: nat, yearOfEra: nat, dayOfYear: nat)
    ensures IsDayOfYear(yearOfEra, dayOfYear) && days == DayNumber(era, yearOfEra, dayOfYear)
  {
    era := (days + DAYS_TO_1970) / DAYS_PER_ERA;
    yearOfEra, dayOfYear := DayOfYearExists(days + DAYS_TO_1970 - era * DAYS_PER_ERA);
  }

  /** The exporter on a March-based day. */
  lemma CivilFromDayNumber(era: nat, yearOfEra: nat, dayOfYear: nat, days: nat)
    requires IsDayOfYear(yearOfEra, dayOfYear) && days == DayNumber(era, yearOfEra, dayOfYear)
    ensures CivilFromDays(days, CORRECT_DIVISOR) == Civil(MonthAndDay(era * 400 + yearOfEra, dayOfYear))
    ensures CivilFromDays(days, WRITTEN_DIVISOR) ==
      if dayOfYear < 365 then Civil(MonthAndDay(era * 400 + yearOfEra, dayOfYear))
      else if yearOfEra == 399 then Civil(MonthAndDay(era * 400 + 400, 0))
      else Underflow
  {
    hide YearOfEra, MonthAndDay, YearStart, EndsInLeapDay;
    YearOfEraIs(yearOfEra, dayOfYear);
    var dayOfEra := YearStart(yearOfEra) + dayOfYear;
    assert days + DAYS_TO_1970 == era * DAYS_PER_ERA + dayOfEra;
    EraOf(era, dayOfEra);
    if dayOfYear == 365 { NextYearStart(yearOfEra); }
  }

  lemma EraOf(era: nat, dayOfEra: nat)
    requires dayOfEra < DAYS_PER_ERA
    ensures (era * DAYS_PER_ERA + dayOfEra) / DAYS_PER_ERA == era
  {
  }

  /** The next year starts right behind a year of 365 or 366 days, except behind an era. */
  lemma NextYearStart(yearOfEra: nat)
    requires yearOfEra < 400
    ensures YearStart(yearOfEra + 1) ==
      YearStart(yearOfEra) + if EndsInLeapDay(yearOfEra) && yearOfEra < 399 then 366 else 365
  {
    var y := yearOfEra + 1;
    assert y / 4 == yearOfEra / 4 + if y % 4 == 0 then 1 else 0;
    assert y / 100 == yearOfEra / 100 + if y % 100 == 0 then 1 else 0;
  }

  lemma EraOfYear(era: int, yearOfEra: nat)
    requires yearOfEra < 400
    ensures var year := era * 400 + yearOfEra; TruncatingDiv(if year >= 0 then year else year - 399, 400) == era
  {
    var year := era * 400 + yearOfEra;
    if year < 0 { assert 399 - year == 400 * -era + (399 - yearOfEra); }
  }

  lemma PositiveDivision(a: nat, b: int)
    requires b > 0
    ensures TruncatingDiv(a, b) == a / b
  {
  }

  lemma MonthOf(year: int, dayOfYear: nat)
    requires dayOfYear <= 365
    ensures
      var date, p := MonthAndDay(year, dayOfYear), (5 * dayOfYear + 2) / 153;
      && 1 <= date.month <= 12 && 1 <= date.day <= 31
      && year == (if date.month <= 2 then date.year - 1 else date.year)
      && p == (if date.month <= 2 then date.month + 9 else date.month - 3)
      && MonthStart(p) + date.day - 1 == dayOfYear
  {
    ProbeExists(dayOfYear);
  }

  /** The importer on a March-based day. */
  lemma DaysFromEpochIs(date: Date, era: int, yearOfEra: nat, dayOfYear: nat)
    requires IsDateOf(date, era, yearOfEra, dayOfYear)
    ensures DaysFromEpoch(date) == Some(DayNumber(era, yearOfEra, dayOfYear))
  {
    hide MonthStart, MonthAndDay, TruncatingDiv, EndsInLeapDay, IsDate;
    MonthOf(era * 400 + yearOfEra, dayOfYear);
    EraOfYear(era, yearOfEra);
    PositiveDivision(yearOfEra, 4);
    PositiveDivision(yearOfEra, 100);
  }

  // ----- The two conversions are inverse -----

  /** With the correct divisor the exporter yields a date, and the importer reads it back. */
  lemma CivilFromDaysInverts(days: nat)
    ensures var civil := CivilFromDays(days, CORRECT_DIVISOR);
            civil.Civil? && IsDate(civil.date) && DaysFromEpoch(civil.date) == Some(days)
  {
    hide MonthAndDay, DaysFromEpoch, IsLeap, IsDate, CivilFromDays, DayNumber, YearStart;
    var era, y, d := DayNumberExists(days);
    CivilFromDayNumber(era, y, d, days);
    LeapOfEra(era, y + 1);
    MonthAndDayIsDate(era * 400 + y, d);
    DaysFromEpochIs(MonthAndDay(era * 400 + y, d), era, y, d);
  }

  /** The importer numbers dates without collisions, and the exporter undoes the numbering. */
  lemma DaysFromEpochInverts(date: Date)
    requires IsDate(date)
    ensures var days := DaysFromEpoch(date);
            days.Some? && (days.value >= 0 ==> CivilFromDays(days.value, CORRECT_DIVISOR) == Civil(date))
  {
    hide MonthAndDay, DaysFromEpoch, IsLeap, CivilFromDays, IsDate;
    var era, y, d := DateOfExists(date);
    DaysFromEpochIs(date, era, y, d);
    var days := DaysFromEpoch(date).value;
    if days >= 0 {
      YearOfEraIs(y, d);
      CivilFromDayNumber(era, y, d, days);
    }
  }

  lemma NextDayNumber(era: int, yearOfEra: nat, dayOfYear: nat)
    requires IsDayOfYear(yearOfEra, dayOfYear)
    ensures DayNumber(era, yearOfEra, dayOfYear) + 1 ==
      if dayOfYear < 364 || (dayOfYear == 364 && EndsInLeapDay(yearOfEra))
      then DayNumber(era, yearOfEra, dayOfYear + 1)
      else if yearOfEra < 399 then DayNumber(era, yearOfEra + 1, 0)
      else DayNumber(era + 1, 0, 0)
  {
    NextYearStart(yearOfEra);
    assert IsLeap(400);
    if yearOfEra < 399 { hide YearStart, IsLeap; }
  }

  lemma NextDayIsDate(date: Date)
    requires IsDate(date)
    ensures IsDate(NextDay(date))
  {
  }

  /** Moving on by one calendar day adds one to the importer's number. */
  lemma DaysFromEpochOfNextDay(date: Date)
    requires IsDate(date)
    ensures IsDate(NextDay(date))
    ensures DaysFromEpoch(date).Some? && DaysFromEpoch(NextDay(date)).Some?
    ensures DaysFromEpoch(NextDay(date)).value == DaysFromEpoch(date).value + 1
  {
    hide MonthAndDay, DaysFromEpoch, IsLeap, NextDay, DayNumber, YearStart, IsDate;
    NextDayIsDate(date);
    var era, y, d := DateOfExists(date);
    DaysFromEpochIs(date, era, y, d);
    var year := era * 400 + y;
    LeapOfEra(era, y + 1);
    NextDayNumber(era, y, d);
    if d < 364 || (d == 364 && EndsInLeapDay(y)) {
      NextDayWithinYear(year, d);
      DaysFromEpochIs(NextDay(date), era, y, d + 1);
    } else {
      NextDayAcrossYears(year, d);
      if y < 399 {
        DaysFromEpochIs(NextDay(date), era, y + 1, 0);
      } else {
        DaysFromEpochIs(NextDay(date), era + 1, 0, 0);
      }
    }
  }

  /** With 1 460 the exporter is the calendar, day after day without end. */
  lemma {:induction false} CorrectDivisorIsCalendar(days: nat)
    ensures CivilFromDays(days, CORRECT_DIVISOR) == Civil(CalendarDate(days))
    ensures IsDate(CalendarDate(days)) && DaysFromEpoch(CalendarDate(days)) == Some(days)
  {
    hide CivilFromDays, DaysFromEpoch, NextDay, IsDate;
    if days == 0 {
      Epoch();
    } else {
      CorrectDivisorIsCalendar(days - 1);
      DaysFromEpochOfNextDay(CalendarDate(days - 1));
    }
    DaysFromEpochInverts(CalendarDate(days));
  }

  lemma Epoch()
    ensures IsDate(CalendarDate(0)) && DaysFromEpoch(CalendarDate(0)) == Some(0)
  {
    assert CalendarDate(0) == Date(1970, 1, 1);
    hide CalendarDate;
    PositiveDivision(1969, 400);
    PositiveDivision(369, 4);
    PositiveDivision(369, 100);
  }

  /**
   With 1 461, as written: right on every day but 29 February.  On a 29 February the
   subtraction goes below zero, or, in years divisible by 400, the next day is named.
   */
  lemma WrittenDivisorIs(days: nat)
    ensures var date := CalendarDate(days);
            CivilFromDays(days, WRITTEN_DIVISOR) ==
              if !IsLeapDay(date) then Civil(date)
              else if date.year % 400 != 0 then Underflow
              else Civil(NextDay(date))
  {
    hide MonthAndDay, CivilFromDays, CalendarDate, IsLeap, NextDay, DayNumber, YearStart, DaysFromEpoch, IsDate;
    CorrectDivisorIsCalendar(days);
    var era, y, d := DayNumberExists(days);
    CivilFromDayNumber(era, y, d, days);
    var year := era * 400 + y;
    LeapOfEra(era, y + 1);
    MonthAndDayIsDate(year, d);
    if d == 365 {
      NextDayAcrossYears(year, d);
      assert y + 1 == 400 || (y + 1) % 400 != 0;
    }
  }

  /** Two days share a stamp date exactly when the first is the leap day of a 400-year. */
  lemma WrittenDivisorCollides(a: nat, b: nat)
    requires a < b && CivilFromDays(a, WRITTEN_DIVISOR).Civil?
    ensures CivilFromDays(a, WRITTEN_DIVISOR) == CivilFromDays(b, WRITTEN_DIVISOR) <==>
      b == a + 1 && IsLeapDay(CalendarDate(a)) && CalendarDate(a).year % 400 == 0
  {
    hide CivilFromDays, DaysFromEpoch;
    WrittenDivisorIs(a);
    WrittenDivisorIs(b);
    CorrectDivisorIsCalendar(a);
    CorrectDivisorIsCalendar(a + 1);
    CorrectDivisorIsCalendar(b);
    CorrectDivisorIsCalendar(b + 1);
  }

  // ----- A build without overflow checks -----

  const WORD := 0x1_0000_0000_0000_0000

  /** Where the subtraction goes below zero it leaves the largest word, and these are the rest. */
  const WRAPPED_MONTH := 120_566_954_730_127_779
  const WRAPPED_DAY := 14_757_395_258_967_641_303

  function MonthAndDayWrapping(year: int, dayOfYear: nat): (date: Date)
    ensures 0 <= date.month && 0 <= date.day && year <= date.year <= year + 1
  {
    var monthProbe := (5 * dayOfYear + 2) % WORD / 153;
    var day := (dayOfYear - (153 * monthProbe + 2) % WORD / 5 + 1) % WORD;
    var month := if monthProbe < 10 then monthProbe + 3 else monthProbe - 9;
    Date(if month <= 2 then year + 1 else year, month, day)
  }

  /** The exporter as written, with 64-bit arithmetic that wraps. */
  function CivilWrapping(days: nat): (date: Date)
    ensures 0 <= date.year && 0 <= date.month && 0 <= date.day
  {
    var shifted := days + DAYS_TO_1970;
    var era := shifted / DAYS_PER_ERA;
    var dayOfEra := shifted - era * DAYS_PER_ERA;
    var yearOfEra := YearOfEra(dayOfEra, WRITTEN_DIVISOR);
    MonthAndDayWrapping(yearOfEra + era * 400, (dayOfEra - YearStart(yearOfEra)) % WORD)
  }

  lemma SmallDaysDoNotWrap(year: int, dayOfYear: nat)
    requires dayOfYear < DAYS_PER_ERA
    ensures MonthAndDayWrapping(year, dayOfYear) == MonthAndDay(year, dayOfYear)
  {
    var probe := (5 * dayOfYear + 2) / 153;
    FitsWord(5 * dayOfYear + 2);
    FitsWord(153 * probe + 2);
    FitsWord(dayOfYear - MonthStart(probe) + 1);
  }

  lemma FitsWord(n: int)
    requires 0 <= n < WORD
    ensures n % WORD == n
  {
  }

  lemma LargestDayWraps(year: int)
    ensures MonthAndDayWrapping(year, WORD - 1) == Date(year, WRAPPED_MONTH, WRAPPED_DAY)
  {
    assert (5 * (WORD - 1) + 2) % WORD == WORD - 3;
    assert (WORD - 3) / 153 == WRAPPED_MONTH + 9;
    assert (153 * (WRAPPED_MONTH + 9) + 2) % WORD / 5 == WORD - WRAPPED_DAY;
  }

  /** The subtraction is off by one day, and the year is the one after the March-based year. */
  lemma WrappingOfDayNumber(era: nat, yearOfEra: nat, days: nat)
    requires IsDayOfYear(yearOfEra, 365) && yearOfEra < 399 && days == DayNumber(era, yearOfEra, 365)
    ensures CivilWrapping(days) == Date(era * 400 + yearOfEra + 1, WRAPPED_MONTH, WRAPPED_DAY)
  {
    hide YearOfEra, YearStart, EndsInLeapDay, MonthAndDayWrapping;
    YearOfEraIs(yearOfEra, 365);
    var dayOfEra := YearStart(yearOfEra) + 365;
    assert days + DAYS_TO_1970 == era * DAYS_PER_ERA + dayOfEra;
    EraOf(era, dayOfEra);
    NextYearStart(yearOfEra);
    assert (dayOfEra - YearStart(yearOfEra + 1)) % WORD == WORD - 1;
    LargestDayWraps(era * 400 + yearOfEra + 1);
  }

  /** Both builds agree where the checked one goes on; where it stops, month and day are of no calendar. */
  lemma CivilWrappingIs(days: nat)
    ensures
      match CivilFromDays(days, WRITTEN_DIVISOR)
      case Civil(date) => CivilWrapping(days) == date
      case Underflow => CivilWrapping(days) == Date(CalendarDate(days).year, WRAPPED_MONTH, WRAPPED_DAY)
  {
    match CivilFromDays(days, WRITTEN_DIVISOR)
    case Civil(date) => WrappingAgrees(days);
    case Underflow => WrappingOnLeapDay(days);
  }

  lemma WrappingAgrees(days: nat)
    requires CivilFromDays(days, WRITTEN_DIVISOR).Civil?
    ensures CivilWrapping(days) == CivilFromDays(days, WRITTEN_DIVISOR).date
  {
    hide YearOfEra, YearStart, MonthAndDay, MonthAndDayWrapping;
    var shifted := days + DAYS_TO_1970;
    var era := shifted / DAYS_PER_ERA;
    var dayOfEra := shifted - era * DAYS_PER_ERA;
    var yearOfEra := YearOfEra(dayOfEra, WRITTEN_DIVISOR);
    var dayOfYear := dayOfEra - YearStart(yearOfEra);
    assert 0 <= dayOfYear < DAYS_PER_ERA;
    SmallDaysDoNotWrap(yearOfEra + era * 400, dayOfYear);
  }

  lemma WrappingOnLeapDay(days: nat)
    requires CivilFromDays(days, WRITTEN_DIVISOR).Underflow?
    ensures CivilWrapping(days) == Date(CalendarDate(days).year, WRAPPED_MONTH, WRAPPED_DAY)
  {
    hide CivilFromDays, CivilWrapping, CalendarDate, MonthAndDay, IsLeap, NextDay, DayNumber, YearStart, DaysFromEpoch;
    CorrectDivisorIsCalendar(days);
    var era, y, d := DayNumberExists(days);
    CivilFromDayNumber(era, y, d, days);
    WrappingOfDayNumber(era, y, days);
    LeapOfEra(era, y + 1);
    MonthAndDayIsDate(era * 400 + y, d);
  }

  // ----- The failing days -----

  lemma DayOf(date: Date, days: nat)
    requires IsDate(date) && DaysFromEpoch(date) == Some(days)
    ensures CalendarDate(days) == date
  {
    hide CivilFromDays, CalendarDate, DaysFromEpoch, IsDate;
    DaysFromEpochInverts(date);
    CorrectDivisorIsCalendar(days);
  }

  /** 29 February 1972: the checked build stops, the other one names no day. */
  lemma LeapDayUnderflows()
    ensures CalendarDate(789) == Date(1972, 2, 29)
    ensures CivilFromDays(789, WRITTEN_DIVISOR) == Underflow
    ensures CivilWrapping(789) == Date(1972, WRAPPED_MONTH, WRAPPED_DAY)
  {
    hide CalendarDate, CivilWrapping, CivilFromDays;
    DayOf(Date(1972, 2, 29), 789);
    WrittenDivisorIs(789);
    CivilWrappingIs(789);
  }

  /** 29 February and 1 March 2000 share a date. */
  lemma LeapDayCollides()
    ensures CalendarDate(11_016) == Date(2000, 2, 29) && CalendarDate(11_017) == Date(2000, 3, 1)
    ensures CivilFromDays(11_016, WRITTEN_DIVISOR) == CivilFromDays(11_017, WRITTEN_DIVISOR) == Civil(Date(2000, 3, 1))
  {
    hide CalendarDate, CivilFromDays;
    DayOf(Date(2000, 2, 29), 11_016);
    DayOf(Date(2000, 3, 1), 11_017);
    WrittenDivisorIs(11_016);
    WrittenDivisorIs(11_017);
  }
}
