/** Daily reflection prompt: a fixed list of prompts indexed by the local
    day of the year, so that every calendar day has its own prompt and the
    list comes round again every 24 days. */
module PromptService {
  import opened Calendar

  /** The reflection prompts, in their fixed order. */
  const Prompts: seq<string> := [
    "What made you smile today?",
    "What are you grateful for right now?",
    "What challenged you today and what did you learn?",
    "What's something small that brought you joy?",
    "Describe a moment of calm you experienced today.",
    "What's something kind you did for yourself or someone else?",
    "Share a tiny victory from your day, no matter how small.",
    "What's something you're looking forward to?",
    "What's a quality in yourself that you appreciate?",
    "Reflect on something beautiful you noticed today.",
    "What's a small step you took toward a goal?",
    "What's something that made you feel peaceful?",
    "What did you learn about yourself recently?",
    "Describe a moment when you felt fully present today.",
    "What's something that inspired you lately?",
    "What challenged you recently and how did you respond?",
    "What's something you'd like to let go of?",
    "What's giving you hope right now?",
    "What's a boundary you're proud of setting?",
    "What's something you're curious about these days?",
    "Describe a meaningful connection you had recently.",
    "What wisdom would you share with yourself from a year ago?",
    "What's a simple pleasure you enjoyed today?",
    "What are you nurturing in your life right now?"
  ]

  /** The day of the year of a local reading, computed as the number of whole
      days between day 0 of January (the last day of the previous year) and
      the reading: 1 January is day 1. */
  function GetDayOfYear(date: LocalTime): (dayOfYear: int)
    ensures dayOfYear == OrdinalDay(date.date)
    ensures 1 <= dayOfYear <= DaysInYear(date.date.year)
    ensures dayOfYear == 366 ==> IsLeapYear(date.date.year)
  {
    var start := MakeDate(MakeDay(date.date.year, 0, 0), 0);
    var diff := LocalTimeValue(date) - start;
    DayCountOfDiff(OrdinalDay(date.date), date.msOfDay);
    diff / MsPerDay
  }

  /** A span of whole days plus less than one day holds exactly that many
      whole days. */
  lemma DayCountOfDiff(days: int, ms: int)
    requires 0 <= ms < MsPerDay
    ensures (days * MsPerDay + ms) / MsPerDay == days
  {
  }

  /** The prompt index for a day of the year: it wraps round the list. */
  function PromptIndex(dayOfYear: nat): (i: nat)
    ensures i < |Prompts| == 24
    ensures (dayOfYear - i) % 24 == 0
  {
    dayOfYear % |Prompts|
  }

  /** The prompt for the local calendar day of `today`. */
  function GetPromptForToday(today: Timestamp): (prompt: string)
    ensures prompt in Prompts
    ensures prompt == Prompts[OrdinalDay(CalendarDay(today)) % 24]
  {
    var dayOfYear := GetDayOfYear(today.local);
    var promptIndex := PromptIndex(dayOfYear);
    Prompts[promptIndex]
  }

  /** The list holds 24 prompts and none appears twice. */
  lemma PromptsDistinct()
    ensures |Prompts| == 24
    ensures forall i, j :: 0 <= i < j < |Prompts| ==> Prompts[i] != Prompts[j]
  {
  }

  /** Two instants on the same local calendar day get the same prompt,
      whatever their time of day. */
  lemma SameDaySamePrompt(a: Timestamp, b: Timestamp)
    requires CalendarDay(a) == CalendarDay(b)
    ensures GetPromptForToday(a) == GetPromptForToday(b)
  {
  }

  /** Consecutive days of the year select consecutive indices, modulo 24. */
  lemma ConsecutiveIndices(dayOfYear: nat)
    ensures PromptIndex(dayOfYear + 1) == (PromptIndex(dayOfYear) + 1) % 24
  {
  }

  /** Within one year, the day after `a` gets the prompt after `a`'s. */
  lemma NextDayNextPrompt(a: Timestamp, b: Timestamp)
    requires CalendarDay(b) == NextDay(CalendarDay(a))
    requires CalendarDay(b).year == CalendarDay(a).year
    ensures GetPromptForToday(b) == Prompts[(PromptIndex(GetDayOfYear(a.local)) + 1) % 24]
  {
    NextDayOrdinal(CalendarDay(a));
    ConsecutiveIndices(GetDayOfYear(a.local));
  }

  /** Any two instants share a prompt exactly when their days of the year
      are congruent modulo 24: the prompts cycle with period 24. */
  lemma SamePromptIffCongruent(a: Timestamp, b: Timestamp)
    ensures GetPromptForToday(a) == GetPromptForToday(b) <==>
            GetDayOfYear(a.local) % 24 == GetDayOfYear(b.local) % 24
  {
    PromptsDistinct();
  }

  /** At the turn of the year the cycle restarts: 31 December (day 365 or
      366) selects index 5 or 6 and the next day, 1 January (day 1), selects
      index 1, so the next calendar day does not always get the next prompt. */
  lemma YearTurnRestartsCycle(year: int)
    ensures PromptIndex(OrdinalDay(CivilDate(year, 12, 31))) == if IsLeapYear(year) then 6 else 5
    ensures PromptIndex(OrdinalDay(CivilDate(year + 1, 1, 1))) == 1
    ensures PromptIndex(OrdinalDay(CivilDate(year + 1, 1, 1)))
         != (PromptIndex(OrdinalDay(CivilDate(year, 12, 31))) + 1) % 24
  {
    YearEnds(year);
    YearEnds(year + 1);
  }

  /** The day of the year as the millisecond subtraction computes it on
      instants: each local reading becomes an instant by subtracting its UTC
      offset, and the offsets of day 0 and of the reading differ when
      daylight saving time is in force at one and not the other. */
  function GetDayOfYearOnInstants(date: LocalTime, startOffset: int, dateOffset: int): (dayOfYear: int)
    ensures startOffset == dateOffset ==> dayOfYear == GetDayOfYear(date)
  {
    var start := MakeDate(MakeDay(date.date.year, 0, 0), 0) - startOffset;
    var diff := (LocalTimeValue(date) - dateOffset) - start;
    DayCountOfDiff(OrdinalDay(date.date), date.msOfDay);
    diff / MsPerDay
  }

  /** In the first hours of a day on which the clock stands ahead of where it
      stood on day 0 (summer time against winter time), the instant
      subtraction counts one day too few. */
  lemma DaylightSavingOffByOne(date: LocalTime, startOffset: int, dateOffset: int)
    requires 0 <= date.msOfDay < dateOffset - startOffset <= MsPerDay
    ensures GetDayOfYearOnInstants(date, startOffset, dateOffset) == GetDayOfYear(date) - 1
  {
    DayCountOfDiff(OrdinalDay(date.date) - 1, MsPerDay + date.msOfDay - (dateOffset - startOffset));
  }

  /** At 00:30 on 1 July 2026 in a zone one hour ahead of UTC in winter and
      two in summer, the instant subtraction yields day 181, the day before
      the ordinal day 182 that `GetDayOfYear` gives, so the prompt of 30 June
      is shown again. */
  lemma SummerTimeShowsYesterdaysPrompt()
    ensures GetDayOfYearOnInstants(LocalDateTime(CivilDate(2026, 7, 1), 30 * 60 * 1000), 3600000, 7200000)
         == GetDayOfYear(LocalDateTime(CivilDate(2026, 7, 1), 30 * 60 * 1000)) - 1
         == 181
  {
    assert !IsLeapYear(2026) by { assert 2026 % 4 == 2; }
    assert DaysBeforeMonth(2026, 3) == 59;
    assert DaysBeforeMonth(2026, 5) == 120;
    assert DaysBeforeMonth(2026, 7) == 181;
    DaylightSavingOffByOne(LocalDateTime(CivilDate(2026, 7, 1), 30 * 60 * 1000), 3600000, 7200000);
  }
}
