/** Proleptic Gregorian dates and wall-clock date-times, as Python's `datetime` handles
    them, restricted to four-digit years. */
module Calendar {

  datatype Date = Date(year: int, month: int, day: int)

  /** A naive date-time with whole seconds: the `%Y-%m-%d %H:%M:%S` values the scripts use. */
  datatype DateTime = DateTime(date: Date, hour: int, minute: int, second: int)

  const MinYear: int := 1000
  const MaxYear: int := 9999

  predicate IsLeapYear(y: int) {
    y % 4 == 0 && (y % 100 != 0 || y % 400 == 0)
  }

  function DaysInYear(y: int): int {
    if IsLeapYear(y) then 366 else 365
  }

  function DaysInMonth(y: int, m: int): int {
    if m == 2 then (if IsLeapYear(y) then 29 else 28)
    else if m == 4 || m == 6 || m == 9 || m == 11 then 30
    else 31
  }

  predicate ValidDate(d: Date) {
    && MinYear <= d.year <= MaxYear
    && 1 <= d.month <= 12
    && 1 <= d.day <= DaysInMonth(d.year, d.month)
  }

  predicate ValidDateTime(t: DateTime) {
    && ValidDate(t.date)
    && 0 <= t.hour < 24
    && 0 <= t.minute < 60
    && 0 <= t.second < 60
  }

  /** Chronological order of dates: year, then month, then day. */
  predicate DateLess(a: Date, b: Date) {
    || a.year < b.year
    || (a.year == b.year && a.month < b.month)
    || (a.year == b.year && a.month == b.month && a.day < b.day)
  }

  predicate DateLessEq(a: Date, b: Date) {
    a == b || DateLess(a, b)
  }

  /** Chronological order of date-times: the date, then the time of day. */
  predicate DateTimeLess(a: DateTime, b: DateTime) {
    || DateLess(a.date, b.date)
    || (a.date == b.date && a.hour < b.hour)
    || (a.date == b.date && a.hour == b.hour && a.minute < b.minute)
    || (a.date == b.date && a.hour == b.hour && a.minute == b.minute && a.second < b.second)
  }

  /** The date-time at the start of a given time of day. */
  function At(d: Date, hour: int, minute: int): DateTime {
    DateTime(d, hour, minute, 0)
  }

  // ---------------------------------------------------------------------------
  // Day numbers: the count of days since MinYear-01-01.

  function DaysBeforeYear(y: int): nat
    decreases y - MinYear
  {
    if y <= MinYear then 0 else DaysBeforeYear(y - 1) + DaysInYear(y - 1)
  }

  /** Days of year `y` that lie before the first of month `m` (m in 1..13). */
  function DaysBeforeMonth(y: int, m: int): int {
    var leap := if IsLeapYear(y) && m > 2 then 1 else 0;
    leap + (
      if m <= 1 then 0
      else if m == 2 then 31
      else if m == 3 then 59
      else if m == 4 then 90
      else if m == 5 then 120
      else if m == 6 then 151
      else if m == 7 then 181
      else if m == 8 then 212
      else if m == 9 then 243
      else if m == 10 then 273
      else if m == 11 then 304
      else if m == 12 then 334
      else 365)
  }

  function DayNumber(d: Date): int {
    DaysBeforeYear(d.year) + DaysBeforeMonth(d.year, d.month) + d.day - 1
  }

  /** Seconds since MinYear-01-01 00:00:00 on the same (zone-less) clock. */
  function Seconds(t: DateTime): int {
    DayNumber(t.date) * 86400 + t.hour * 3600 + t.minute * 60 + t.second
  }

  lemma MonthStep(y: int, m: int)
    requires 1 <= m <= 12
    ensures DaysBeforeMonth(y, m + 1) == DaysBeforeMonth(y, m) + DaysInMonth(y, m)
  {
  }

  /** A valid date lies inside its own year's block of day numbers. */
  lemma DayNumberWithinYear(d: Date)
    requires ValidDate(d)
    ensures DaysBeforeYear(d.year) <= DayNumber(d) < DaysBeforeYear(d.year) + DaysInYear(d.year)
  {
    MonthStep(d.year, d.month);
    assert DaysBeforeMonth(d.year, d.month + 1) <= DaysBeforeMonth(d.year, 13);
  }

  lemma {:induction false} YearBlocksOrdered(y1: int, y2: int)
    requires MinYear <= y1 < y2
    ensures DaysBeforeYear(y1) + DaysInYear(y1) <= DaysBeforeYear(y2)
    decreases y2 - y1
  {
    if y1 + 1 < y2 {
      YearBlocksOrdered(y1, y2 - 1);
    }
  }

  lemma MonthBlocksOrdered(y: int, m1: int, m2: int)
    requires 1 <= m1 < m2 <= 12
    ensures DaysBeforeMonth(y, m1) + DaysInMonth(y, m1) <= DaysBeforeMonth(y, m2)
  {
  }

  /** Day numbers put valid dates in chronological order. */
  lemma DayNumberOrder(a: Date, b: Date)
    requires ValidDate(a) && ValidDate(b)
    ensures DateLess(a, b) <==> DayNumber(a) < DayNumber(b)
    ensures a == b <==> DayNumber(a) == DayNumber(b)
  {
    DayNumberWithinYear(a);
    DayNumberWithinYear(b);
    if a.year < b.year {
      YearBlocksOrdered(a.year, b.year);
    } else if b.year < a.year {
      YearBlocksOrdered(b.year, a.year);
    } else if a.month < b.month {
      MonthBlocksOrdered(a.year, a.month, b.month);
    } else if b.month < a.month {
      MonthBlocksOrdered(a.year, b.month, a.month);
    }
  }

  /** Seconds put valid date-times in chronological order. */
  lemma SecondsOrder(a: DateTime, b: DateTime)
    requires ValidDateTime(a) && ValidDateTime(b)
    ensures DateTimeLess(a, b) <==> Seconds(a) < Seconds(b)
    ensures a == b <==> Seconds(a) == Seconds(b)
  {
    DayNumberOrder(a.date, b.date);
  }

  /** DateLess is a strict total order on dates. */
  lemma DateLessTotal(a: Date, b: Date)
    ensures DateLess(a, b) || a == b || DateLess(b, a)
    ensures !(DateLess(a, b) && DateLess(b, a))
  {
  }

  lemma DateTimeLessTotal(a: DateTime, b: DateTime)
    ensures DateTimeLess(a, b) || a == b || DateTimeLess(b, a)
    ensures !(DateTimeLess(a, b) && DateTimeLess(b, a))
  {
  }

  // ---------------------------------------------------------------------------
  // Stepping by one day, as `date + timedelta(days=1)` and its inverse.

  predicate IsLastDate(d: Date) {
    d.year == MaxYear && d.month == 12 && d.day == 31
  }

  predicate IsFirstDate(d: Date) {
    d.year == MinYear && d.month == 1 && d.day == 1
  }

  function NextDay(d: Date): (r: Date)
    requires ValidDate(d) && !IsLastDate(d)
    ensures ValidDate(r)
    ensures DayNumber(r) == DayNumber(d) + 1
  {
    if d.day < DaysInMonth(d.year, d.month) then Date(d.year, d.month, d.day + 1)
    else if d.month < 12 then (MonthStep(d.year, d.month); Date(d.year, d.month + 1, 1))
    else Date(d.year + 1, 1, 1)
  }

  function PrevDay(d: Date): (r: Date)
    requires ValidDate(d) && !IsFirstDate(d)
    ensures ValidDate(r)
    ensures DayNumber(r) == DayNumber(d) - 1
  {
    if d.day > 1 then Date(d.year, d.month, d.day - 1)
    else if d.month > 1 then (MonthStep(d.year, d.month - 1); Date(d.year, d.month - 1, DaysInMonth(d.year, d.month - 1)))
    else Date(d.year - 1, 12, 31)
  }

  /** A day before some valid day is not the last one. */
  lemma BeforeIsNotLast(d: Date, e: Date)
    requires ValidDate(e) && DateLess(d, e)
    ensures !IsLastDate(d)
  {
  }

  /** The next day is the immediate successor: nothing lies strictly between. */
  lemma NextDayIsSuccessor(d: Date, e: Date)
    requires ValidDate(d) && !IsLastDate(d) && ValidDate(e)
    ensures DateLess(d, NextDay(d))
    ensures DateLess(d, e) <==> DateLessEq(NextDay(d), e)
  {
    DayNumberOrder(d, NextDay(d));
    DayNumberOrder(d, e);
    DayNumberOrder(NextDay(d), e);
  }

  // ---------------------------------------------------------------------------
  // Moscow wall-clock time to GMT.

  /** Moscow keeps UTC+3 all year from this local instant on (the tz database's
      Europe/Moscow: the 2014-10-26 switch from UTC+4, at 02:00 local time). */
  const FixedOffsetSince: DateTime := DateTime(Date(2014, 10, 26), 2, 0, 0)

  predicate InFixedOffsetEra(t: DateTime) {
    !DateTimeLess(t, FixedOffsetSince)
  }

  /** Moscow local time to GMT: the same instant three hours earlier on the clock,
      rolling back across day, month and year boundaries. */
  function MskToGmt(t: DateTime): (r: DateTime)
    requires ValidDateTime(t) && InFixedOffsetEra(t)
    ensures ValidDateTime(r)
    ensures Seconds(r) == Seconds(t) - 3 * 3600
  {
    if t.hour >= 3 then DateTime(t.date, t.hour - 3, t.minute, t.second)
    else DateTime(PrevDay(t.date), t.hour + 21, t.minute, t.second)
  }

  /** The conversion is strictly monotone (and so injective): a window whose lower
      bound precedes its upper bound in Moscow time still does in GMT. */
  lemma MskToGmtMonotone(a: DateTime, b: DateTime)
    requires ValidDateTime(a) && InFixedOffsetEra(a)
    requires ValidDateTime(b) && InFixedOffsetEra(b)
    ensures DateTimeLess(a, b) <==> DateTimeLess(MskToGmt(a), MskToGmt(b))
    ensures a == b <==> MskToGmt(a) == MskToGmt(b)
  {
    SecondsOrder(a, b);
    SecondsOrder(MskToGmt(a), MskToGmt(b));
  }

  /** New Year's night: 2025-01-01 01:00:00 Moscow is 2024-12-31 22:00:00 GMT. */
  lemma MskToGmtYearRollover()
    ensures MskToGmt(DateTime(Date(2025, 1, 1), 1, 0, 0)) == DateTime(Date(2024, 12, 31), 22, 0, 0)
  {
  }
}
