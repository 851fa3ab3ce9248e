/** Proleptic Gregorian calendar arithmetic, in the terms ECMAScript uses for
    its `Date` objects: day numbers counted from 1 January 1970, time values in
    milliseconds, and the local civil reading (year, month, day, time of day)
    of an instant.  Months are 1-based here; ECMAScript's are 0-based, and
    `MakeDay` takes the 0-based month as ECMAScript does. */
module Calendar {

  /** Milliseconds in a day: `1000 * 60 * 60 * 24`. */
  const MsPerDay: int := 1000 * 60 * 60 * 24

  predicate IsLeapYear(year: int)
  {
    year % 4 == 0 && (year % 100 != 0 || year % 400 == 0)
  }

  function DaysInMonth(year: int, month: int): (n: int)
    requires 1 <= month <= 12
    ensures 28 <= n <= 31
    ensures month == 2 ==> (n == 29 <==> IsLeapYear(year))
    ensures month != 2 ==> n >= 30
  {
    if month == 2 then (if IsLeapYear(year) then 29 else 28)
    else if month == 4 || month == 6 || month == 9 || month == 11 then 30
    else 31
  }

  function DaysInYear(year: int): (n: int)
    ensures n == 365 || n == 366
    ensures n == 366 <==> IsLeapYear(year)
  {
    if IsLeapYear(year) then 366 else 365
  }

  /** The number of days of `year` that lie in the months before `month`. */
  function DaysBeforeMonth(year: int, month: int): int
    requires 1 <= month <= 13
  {
    if month == 1 then 0 else DaysBeforeMonth(year, month - 1) + DaysInMonth(year, month - 1)
  }

  /** A valid civil date: the only dates an ECMAScript `Date` can show. */
  datatype CivilDate = CivilDate(year: int, month: int, day: int)

  predicate IsValidDate(d: CivilDate)
  {
    1 <= d.month <= 12 && 1 <= d.day <= DaysInMonth(d.year, d.month)
  }

  type Date = d: CivilDate | IsValidDate(d) witness CivilDate(1970, 1, 1)

  /** The local reading of an instant: its calendar date and the milliseconds
      elapsed since local midnight. */
  datatype LocalDateTime = LocalDateTime(date: Date, msOfDay: int)

  predicate IsValidLocal(t: LocalDateTime)
  {
    0 <= t.msOfDay < MsPerDay
  }

  type LocalTime = t: LocalDateTime | IsValidLocal(t) witness LocalDateTime(CivilDate(1970, 1, 1), 0)

  /** The largest magnitude of an ECMAScript time value: 100 000 000 days of
      milliseconds either side of the epoch. */
  const MaxTimeValue: int := 8_640_000_000_000_000

  /** The milliseconds a valid `Date` can hold. */
  type TimeValue = t: int | -MaxTimeValue <= t <= MaxTimeValue

  /** An instant as a `Date` object holds it: `millis` is `getTime()`, the
      milliseconds since the epoch, and `local` is what the local-time getters
      and `toDateString()` report for it. */
  datatype Timestamp = Timestamp(millis: TimeValue, local: LocalTime)

  /** The calendar day of a timestamp, as `toDateString()` renders it: two
      renderings are equal exactly when the local dates are equal. */
  function CalendarDay(ts: Timestamp): Date
  {
    ts.local.date
  }

  /** ECMAScript DayFromYear: the day number of 1 January of `year`. */
  function DayFromYear(year: int): int
  {
    365 * (year - 1970) + (year - 1969) / 4 - (year - 1901) / 100 + (year - 1601) / 400
  }

  /** ECMAScript MakeDay for a 0-based month within the year; `date` may be any
      integer, and day 0 is the last day of the previous month. */
  function MakeDay(year: int, month0: int, date: int): int
    requires 0 <= month0 < 12
  {
    DayFromYear(year) + DaysBeforeMonth(year, month0 + 1) + date - 1
  }

  /** ECMAScript MakeDate: the time value of a day number and a time of day. */
  function MakeDate(day: int, ms: int): int
  {
    day * MsPerDay + ms
  }

  /** The local time value of a local reading. */
  function LocalTimeValue(t: LocalTime): int
  {
    MakeDate(MakeDay(t.date.year, t.date.month - 1, t.date.day), t.msOfDay)
  }

  /** The ordinal date: 1 January is day 1, 31 December is day 365 or 366. */
  function OrdinalDay(d: Date): (n: int)
    ensures 1 <= n <= DaysInYear(d.year)
    ensures n == 366 ==> IsLeapYear(d.year)
  {
    DaysBeforeMonthBounds(d.year, d.month);
    DaysBeforeMonth(d.year, d.month) + d.day
  }

  /** The day after `d`, in the same or in the next year. */
  function NextDay(d: Date): (e: Date)
  {
    if d.day < DaysInMonth(d.year, d.month) then CivilDate(d.year, d.month, d.day + 1)
    else if d.month < 12 then CivilDate(d.year, d.month + 1, 1)
    else CivilDate(d.year + 1, 1, 1)
  }

  /** The date whose ordinal day in `year` is `n`: the inverse of OrdinalDay. */
  function FromOrdinalDay(year: int, n: int): (d: Date)
    requires 1 <= n <= DaysInYear(year)
    ensures d.year == year && OrdinalDay(d) == n
  {
    YearIsTwelveMonths(year);
    FromOrdinalDayFrom(year, 1, n)
  }

  /** Finds the month holding ordinal day `n`, searching from `month` on. */
  function FromOrdinalDayFrom(year: int, month: int, n: int): (d: Date)
    requires 1 <= month <= 12
    requires DaysBeforeMonth(year, month) < n <= DaysBeforeMonth(year, 13)
    ensures d.year == year && month <= d.month
    ensures DaysBeforeMonth(year, d.month) + d.day == n
    decreases 12 - month
  {
    if n - DaysBeforeMonth(year, month) <= DaysInMonth(year, month) then
      CivilDate(year, month, n - DaysBeforeMonth(year, month))
    else
      FromOrdinalDayFrom(year, month + 1, n)
  }

  /** December closes the year: the months before it and December itself
      make up the whole year. */
  lemma YearIsTwelveMonths(year: int)
    ensures DaysBeforeMonth(year, 13) == DaysInYear(year)
  {
    var feb := DaysInMonth(year, 2);
    assert DaysBeforeMonth(year, 2) == 31;
    assert DaysBeforeMonth(year, 3) == 31 + feb;
    assert DaysBeforeMonth(year, 4) == 62 + feb;
    assert DaysBeforeMonth(year, 5) == 92 + feb;
    assert DaysBeforeMonth(year, 6) == 123 + feb;
    assert DaysBeforeMonth(year, 7) == 153 + feb;
    assert DaysBeforeMonth(year, 8) == 184 + feb;
    assert DaysBeforeMonth(year, 9) == 215 + feb;
    assert DaysBeforeMonth(year, 10) == 245 + feb;
    assert DaysBeforeMonth(year, 11) == 276 + feb;
    assert DaysBeforeMonth(year, 12) == 306 + feb;
  }

  /** The days before a month never decrease as the month advances. */
  lemma {:induction false} DaysBeforeMonthMonotone(year: int, month: int, later: int)
    requires 1 <= month <= later <= 13
    ensures 0 <= DaysBeforeMonth(year, month) <= DaysBeforeMonth(year, later)
  {
    if month < later {
      DaysBeforeMonthMonotone(year, month, later - 1);
    } else if month > 1 {
      DaysBeforeMonthMonotone(year, 1, month);
    }
  }

  /** Every month lies inside its year. */
  lemma DaysBeforeMonthBounds(year: int, month: int)
    requires 1 <= month <= 12
    ensures 0 <= DaysBeforeMonth(year, month)
    ensures DaysBeforeMonth(year, month) + DaysInMonth(year, month) <= DaysInYear(year)
  {
    DaysBeforeMonthMonotone(year, month + 1, 13);
    DaysBeforeMonthMonotone(year, 1, month);
    YearIsTwelveMonths(year);
  }

  /** Searching from any month up to `d`'s own finds `d` again. */
  lemma {:induction false} FromOrdinalDayFromFinds(d: Date, month: int)
    requires 1 <= month <= d.month
    ensures DaysBeforeMonth(d.year, month) < OrdinalDay(d) <= DaysBeforeMonth(d.year, 13)
    ensures FromOrdinalDayFrom(d.year, month, OrdinalDay(d)) == d
    decreases d.month - month
  {
    DaysBeforeMonthBounds(d.year, d.month);
    YearIsTwelveMonths(d.year);
    if month < d.month {
      DaysBeforeMonthMonotone(d.year, month + 1, d.month);
      FromOrdinalDayFromFinds(d, month + 1);
    }
  }

  /** A date is determined by its year and its ordinal day. */
  lemma OrdinalDayRoundTrip(d: Date)
    ensures FromOrdinalDay(d.year, OrdinalDay(d)) == d
  {
    FromOrdinalDayFromFinds(d, 1);
  }

  /** Two dates of one year with the same ordinal day are the same date. */
  lemma OrdinalDayInjective(d: Date, e: Date)
    requires d.year == e.year && OrdinalDay(d) == OrdinalDay(e)
    ensures d == e
  {
    OrdinalDayRoundTrip(d);
    OrdinalDayRoundTrip(e);
  }

  /** The ordinal day counts up by one from each day to the next, and starts
      again at 1 on the first day of the next year. */
  lemma NextDayOrdinal(d: Date)
    ensures NextDay(d).year == d.year ==> OrdinalDay(NextDay(d)) == OrdinalDay(d) + 1
    ensures NextDay(d).year != d.year ==>
      NextDay(d).year == d.year + 1 && OrdinalDay(d) == DaysInYear(d.year) && OrdinalDay(NextDay(d)) == 1
  {
    YearIsTwelveMonths(d.year);
  }

  /** 1 January is day 1 of its year and 31 December its last day. */
  lemma YearEnds(year: int)
    ensures OrdinalDay(CivilDate(year, 1, 1)) == 1
    ensures OrdinalDay(CivilDate(year, 12, 31)) == DaysInYear(year)
  {
    YearIsTwelveMonths(year);
  }
}
