# Digital Bonsai journal core, in Dafny

A model of the logic behind the Digital Bonsai journaling widget. The user writes one short reflection a day and the app keeps it in browser-local storage. The number of entries decides how far a bonsai has grown, and the day of the year picks a reflection prompt. The model covers three pieces:

- `storage_service.dfy` (module `StorageService`): the entry store. It keeps two records: the entry list (key `digital-bonsai-entries`) and the time of the latest entry (key `digital-bonsai-last-entry-date`). A day counts as journaled when that time falls on today's local calendar day, and a save is refused on such a day. `JournalStore` is a class whose two fields are the two records; an absent key is `None`. Its methods change them in place. The object invariant `Valid()` says that a last-entry date is stored exactly when there are entries, and that it is the date of the newest one.
- `prompt_service.dfy` (module `PromptService`): the 24 prompts and the daily choice `prompts[dayOfYear % 24]`. The day of the year is the number of whole days between day 0 of January and the date, computed by ECMAScript's `MakeDay`/`MakeDate` arithmetic on local time values. It is proved equal to the ordinal date.
- `growth_stage.dfy` (module `GrowthStage`): the entry-count to growth-stage mapping (0 seedling … 4 full bonsai).

Supporting modules: `calendar.dfy` (Gregorian month lengths, leap years, ordinal dates and their inverse, `Timestamp` and the `CalendarDay` projection), `decimal.dfy` (the decimal numeral that `getTime().toString()` writes for an entry id, with its inverse) and `wrappers.dfy` (`Option`).

Time is an input. A `Timestamp` pairs `millis` (what `getTime()` returns) with its local reading: date plus milliseconds since local midnight. `CalendarDay(ts)` is the local date, which is what `toDateString()` renders; two renderings are equal exactly when the dates are. How the local reading follows from `millis` depends on the time zone, and the model does not capture that.

The code allows one entry per local calendar day and stores no mood; an entry carries the prompt it answered. `getEntries` does not catch a failing `JSON.parse`, so the model claims only that an absent key reads as empty, not that corrupt data does. Consecutive calendar days get consecutive prompts only within one year: at the turn of the year the index jumps from 5 or 6 back to 1 (`YearTurnRestartsCycle`).

## Model

| member | source | states |
|---|---|---|
| `StorageService.JournalStore.constructor` | src/services/storageService.ts:4-5 | a store whose two keys are both absent; it satisfies the store invariant |
| `StorageService.JournalStore.GetEntries` | src/services/storageService.ts:45-48 | the stored list in insertion order, or the empty sequence when the entries key is absent |
| `StorageService.JournalStore.CanSaveEntryToday` | src/services/storageService.ts:8-19 | true when no last-entry date is stored; in a valid store, true iff there is no entry or the newest entry's calendar day differs from today's |
| `StorageService.JournalStore.HasEntryToday` | src/services/storageService.ts:57-68 | always the exact negation of `CanSaveEntryToday` |
| `StorageService.JournalStore.SameDaySameAnswer` | src/services/storageService.ts:15-18 | both predicates depend on "now" only through its calendar day, not the time of day |
| `StorageService.JournalStore.SaveEntry` | src/services/storageService.ts:22-42 | refused (None) iff an entry was already saved on now's calendar day, and then both records are unchanged; otherwise exactly the entry made at now is appended after the unchanged earlier entries, the last-entry date becomes now, `HasEntryToday(now)` holds, the invariant is re-established and the growth stage does not decrease |
| `StorageService.JournalStore.ClearEntries` | src/services/storageService.ts:51-54 | both keys absent; afterwards `GetEntries` is empty and every day can take an entry |
| `StorageService.MakeEntry` | src/services/storageService.ts:27-33 | the entry keeps the given content and prompt, its date is now, and its id parses back to now's milliseconds |
| `StorageService.DistinctInstantsDistinctIds` | src/services/storageService.ts:29 | entries made at different milliseconds have different ids |
| `StorageService.SaveTwiceOnOneDay` | src/services/storageService.ts:22-25 | of two saves on one calendar day the second returns None, and both the entry list and the last-entry date are as the first save left them |
| `StorageService.FirstEntryThenNextDay` | src/services/storageService.ts:22-42 | a fresh store takes an entry, after which the day counts as journaled and the tree shows stage 1; on the next calendar day it takes a second one, and both are kept, in order |
| `Decimal.IntRoundTrip` | src/services/storageService.ts:29 | the numeral `toString()` writes for an integer reads back as that integer |
| `Decimal.IntToStringInjective` | src/services/storageService.ts:29 | distinct integers have distinct numerals |
| `Decimal.NatToString` | src/services/storageService.ts:29 | a non-empty string of digits that starts with '0' only for zero |
| `PromptService.PromptsDistinct` | src/services/promptService.ts:3-28 | the list holds 24 prompts, no two equal |
| `PromptService.GetDayOfYear` | src/services/promptService.ts:42-47 | whole days from day 0 of January equal the ordinal date: 1 January is 1, results lie in 1..365 or 1..366, and 366 only in leap years |
| `PromptService.PromptIndex` | src/services/promptService.ts:37 | the index lies in [0, 24) and is congruent to the day of the year modulo 24 |
| `PromptService.GetPromptForToday` | src/services/promptService.ts:31-39 | always a member of the list, namely the one at the ordinal date of today's calendar day modulo 24 |
| `PromptService.SameDaySamePrompt` | src/services/promptService.ts:33-38 | two instants on the same calendar day get the same prompt |
| `PromptService.ConsecutiveIndices` | src/services/promptService.ts:37 | consecutive days of the year select consecutive indices modulo 24 |
| `PromptService.NextDayNextPrompt` | src/services/promptService.ts:33-38 | within a year, the next calendar day gets the next prompt in the list |
| `PromptService.SamePromptIffCongruent` | src/services/promptService.ts:33-38 | two days share a prompt iff their days of the year are congruent modulo 24 |
| `PromptService.YearTurnRestartsCycle` | src/services/promptService.ts:37-47 | 31 December selects index 5 (6 in a leap year) and 1 January index 1, so the cycle breaks at the year's turn |
| `PromptService.GetDayOfYearOnInstants` | src/services/promptService.ts:43-46 | the subtraction on UTC instants agrees with `GetDayOfYear` whenever both readings have the same UTC offset |
| `PromptService.DaylightSavingOffByOne` | src/services/promptService.ts:43-46 | when the reading's UTC offset exceeds day 0's by more than its time since midnight, the instant subtraction is one day short |
| `PromptService.SummerTimeShowsYesterdaysPrompt` | src/services/promptService.ts:43-46 | at 00:30 on 1 July 2026 in a UTC+1/UTC+2 zone the instant subtraction gives 181 instead of 182 |
| `Calendar.OrdinalDay` | src/services/promptService.ts:41-47 | the ordinal date lies in 1..DaysInYear, and 366 only in a leap year |
| `Calendar.FromOrdinalDay` | src/services/promptService.ts:41-47 | the date of the year whose ordinal date is n |
| `Calendar.OrdinalDayRoundTrip` | src/services/promptService.ts:41-47 | a date is recovered from its year and ordinal date |
| `Calendar.OrdinalDayInjective` | src/services/promptService.ts:41-47 | distinct dates of one year have distinct days of the year |
| `Calendar.NextDayOrdinal` | src/services/promptService.ts:41-47 | the next day's ordinal date is one more, or 1 after the year's last day |
| `Calendar.YearEnds` | src/services/promptService.ts:41-47 | 1 January is day 1 and 31 December the year's last day |
| `Calendar.DaysInMonth` | src/services/promptService.ts:43 | 28..31 days; February has 29 exactly in leap years |
| `GrowthStage.GetGrowthStage` | src/components/BonsaiTree.tsx:12-18 | the stage lies in 0..4 and is 0 exactly for count 0 |
| `GrowthStage.StageCountsThresholds` | src/components/BonsaiTree.tsx:12-18 | for non-negative counts, the stage is the number of thresholds 1, 5, 10, 20 the count has reached |
| `GrowthStage.StageTable` | src/components/BonsaiTree.tsx:13-17 | 0 maps to 0, 1–4 to 1, 5–9 to 2, 10–19 to 3, 20 and more to 4 |
| `GrowthStage.StageMonotone` | src/components/BonsaiTree.tsx:12-18 | non-decreasing in the count over non-negative counts |
| `GrowthStage.StageReachedIff` | src/components/BonsaiTree.tsx:14-17 | stage s is reached iff the count reaches s's threshold |
| `GrowthStage.ReachedMonotone` | src/components/BonsaiTree.tsx:12-18 | the number of thresholds reached grows with the count |
| `GrowthStage.NegativeCountShowsStageOne` | src/components/BonsaiTree.tsx:13-14 | a negative count falls through to stage 1, so monotonicity holds only from 0 |

## Findings

| source | as written | input that shows it | evidently intended | confidence | as-written member | corrected member |
|---|---|---|---|---|---|---|
| src/services/promptService.ts:43-46 | the day of the year is the floor of the difference of two UTC instants divided by 86 400 000 ms | 1 July 2026 at 00:30 in a zone at UTC+1 in winter and UTC+2 in summer (Central European Time): 182 days less half an hour, floored to 181 | the local ordinal date, 182, so the prompt changes at local midnight | high, not executed | `PromptService.SummerTimeShowsYesterdaysPrompt` | `PromptService.GetDayOfYear` |

## Left out

- `localStorage` and JSON: the two keys are fields of `JournalStore`. Serialising and parsing are not modelled, and neither is a write failure or a corrupt stored list, which the source does not handle.
- The clock, `new Date()`, `toISOString()` and `toDateString()`: "now" is a parameter. The ISO string stored as the last-entry date and as the entry's `date` is modelled by the instant itself, because parsing it back gives the same instant.
- `StorageService.JournalStore.SaveEntry`: the source reads the clock twice, once in the guard and once for the stamp. The model uses one instant for both, so a save made across midnight is not modelled.
- Time zones: the relation between an instant's milliseconds and its local reading. The daylight-saving shift appears only through the explicit UTC offsets of `GetDayOfYearOnInstants`.
- `PromptService.GetDayOfYear`: it computes on local time values. The source subtracts UTC instants, whose result is off by one in the first hours of summer-time days (see Findings).
- `PromptService.GetDayOfYear`, `PromptService.GetDayOfYearOnInstants`: the `Date` constructor reads years 0–99 as 1900–1999, so for a clock in those years the source computes a large negative day and an undefined prompt; the model gives the ordinal date there. Local readings are also not bounded to the dates a time value within ±8.64e15 ms can reach (the instant's own `millis` is bounded by the `TimeValue` type).
- `getRandomPrompt`: it uses `Math.random` and floating point.
- All React rendering, state and effects, toasts and tab switching in the page, tree, mood selector, navigation, entry form and insights components. The page only re-checks `CanSaveEntryToday` before `SaveEntry`.
- The date sort in the insights view: a single library sort over parsed dates.
- The non-blank content check in the entry form: it is a caller-side check. `SaveEntry` accepts any content, as the source does.
