# Workday calendar — a Dafny model

This project models the library part of WorkdayCalendar. A `Calendar` holds a
daily work window (start and end time of day) and two lists of holidays:
one-off holidays (year, month, day) and recurring holidays (month, day, every
year). Saturdays, Sundays and registered holidays are not workdays.
`CalendarService.FindWorkday` moves a signed, fractional number of workdays
from a start instant. It scales the offset by the window length to get minutes.
It aligns the start onto a workday's window and walks the minutes off one
workday at a time. Finally it drops the seconds. `CalendarConfigurationConverter`
turns a calendar into the plain record it is stored as, and back.

Modules, one per source component:

- `Wrappers`: `Option` and `Result`.
- `Dates`: the part of .NET `DateTime`/`TimeOnly` the library uses. An instant is
  a day count from 1970-01-01 plus a clock reading in minutes, where the
  reading is a real so that seconds and ticks are kept. Weekday and civil date
  are computed from the day count. `AddDays` and `AddMinutes` are exact.
- `DateTimeExtension`: `SetTime` and `SetSecondsToZero`.
- `Holidays`: `Holiday` and `RecurringHoliday` with `IsDate` and the typed
  `Equals` overloads (`SameDate`).
- `Lists`: LINQ `OrderBy/ThenBy` as a stable insertion sort, `List.Remove` as
  "drop the first occurrence", and the no-duplicates invariant.
- `Calendars`: the `Calendar` class. This covers its window, register and remove
  operations, sorted listings, `IsWorkday` and the day search
  (`AdjustDay`, `MoveToNextWorkday`, `MoveToPreviousWorkday`).
- `WorkedTime`: a reference measure that does not depend on the algorithm.
  `WorkedMinutes(c, a, b)` is the number of minutes between two instants that
  lie inside the window on a workday. It is the partner that `FindWorkday`
  is proved against.
- `CalendarService`: `FindWorkday`, with its forward path (`IncrementDateAndTime`) and
  backward path (`SubtractMinutes`), each split into alignment and walking loop.
- `FindWorkdayProperties`: what `FindWorkday` promises.
  - Behaviour at the window edges and for offset 0.
  - Moving exactly `|workdays| × window length` worked minutes, less than a
    minute lost to truncation.
  - The result is unique: any workday instant at exactly that worked distance,
    on the correct side of the window edge, truncates to the result.
  - Never failing when workdays are never more than a horizon apart.
- `ConfigurationConverter`: `ToConfiguration`, `ToCalendar` and the round trips
  between them.
- `Scenarios`: the calendar from the library's service tests (08:00–16:00,
  recurring 17 May, one-off 27 May 2004). All ten rows of the test table in
  `CalendarServiceTest.cs` lines 309-318 are proved as lemmas, each stating the
  exact `FindWorkday` result the test expects. Seven further single-case tests
  (lines 38-246) are proved too; the remaining tests of that file are not.

The C# loops that search for the next or previous workday do not terminate
when no such day exists. Here every day search takes a horizon (`fuel`). A
search that runs past it comes back as `None`, and `FindWorkday` then fails
with `NoWorkdayWithinHorizon`. `MovesSucceedWithinHorizon` and
`FindWorkdaySucceedsWithinHorizon` prove that this failure cannot occur when
every run of non-workdays is shorter than the horizon.

## Model

| member | source | states |
|---|---|---|
| Dates.AddDays | WorkdayCalendarLibrary/Model/Calendar.cs:154-157 | keeps the time of day and moves the instant by whole days on the timeline |
| Dates.AddMinutes | WorkdayCalendarLibrary/Service/CalendarService.cs:81 | moves the instant by exactly the given minutes on the timeline; stays on the same day while the clock stays in the day |
| DateTimeExtension.SetTime | WorkdayCalendarLibrary/Util/DateTimeExtension.cs:12-15 | same year, month and day; hour and minute are the given ones; no seconds |
| DateTimeExtension.SetSecondsToZero | WorkdayCalendarLibrary/Util/DateTimeExtension.cs:22-25 | same date, hour and minute; no seconds; the result is at most, and less than one minute before, the input |
| DateTimeExtension.SetSecondsToZeroKeepsWholeMinutes | WorkdayCalendarLibrary/Util/DateTimeExtension.cs:22-25 | an instant is left unchanged exactly when it is on a whole minute; truncation is idempotent |
| DateTimeExtension.SetSecondsToZeroAfterSetTime | WorkdayCalendarLibrary/Util/DateTimeExtension.cs:12-25 | truncating after SetTime changes nothing |
| DateTimeExtension.WholeMinuteDeterminedByHourAndMinute | WorkdayCalendarLibrary/Util/DateTimeExtension.cs:12-15 | two whole-minute instants of one day with the same hour and minute are equal |
| Holidays.Holiday.IsDate | WorkdayCalendarLibrary/Model/Holiday.cs:31-34 | no contract of its own; its partner lemmas below state that only the day of the instant counts (HolidayIsDateIgnoresTime), that a matching date also matches the recurring holiday on the same month and day (HolidayDateMatchesRecurring), and that holidays equal under SameDate match the same dates |
| Holidays.Holiday.SameDate | WorkdayCalendarLibrary/Model/Holiday.cs:41-44 | no contract of its own; HolidaySameDateIsValueEquality states that it holds exactly for equal values, so it is reflexive and symmetric |
| Holidays.RecurringHoliday.IsDate | WorkdayCalendarLibrary/Model/RecurringHoliday.cs:25-28 | no contract of its own; RecurringIsDateIgnoresYear states that the year plays no part, and RecurringSameDateIsValueEquality that equal recurring holidays match the same dates |
| Holidays.RecurringHoliday.SameDate | WorkdayCalendarLibrary/Model/RecurringHoliday.cs:35-38 | no contract of its own; RecurringSameDateIsValueEquality states that it holds exactly for equal values, so it is reflexive and symmetric |
| Holidays.HolidaySameDateIsValueEquality | WorkdayCalendarLibrary/Model/Holiday.cs:41-44 | Equals on year, month and day is value equality, so it is reflexive and symmetric, and equal holidays match the same dates |
| Holidays.RecurringSameDateIsValueEquality | WorkdayCalendarLibrary/Model/RecurringHoliday.cs:35-38 | Equals on month and day is value equality, so it is reflexive and symmetric, and equal recurring holidays match the same dates |
| Holidays.HolidayIsDateIgnoresTime | WorkdayCalendarLibrary/Model/Holiday.cs:31-34 | whether a date matches depends only on its day, not on the time |
| Holidays.RecurringIsDateIgnoresYear | WorkdayCalendarLibrary/Model/RecurringHoliday.cs:25-28 | dates with the same month and day match alike, whatever the year |
| Holidays.HolidayDateMatchesRecurring | WorkdayCalendarLibrary/Model/Holiday.cs:31-34 | a date matching a one-off holiday matches the recurring holiday on its month and day |
| Lists.Sort | WorkdayCalendarLibrary/Model/Calendar.cs:43-46 | the result is sorted and is a permutation of the input |
| Lists.SortOfSorted | WorkdayCalendarLibrary/Model/Calendar.cs:43-46 | sorting an already sorted list returns it unchanged |
| Lists.RemoveFirst | WorkdayCalendarLibrary/Model/Calendar.cs:91-94 | an absent value leaves the list alone; otherwise exactly one occurrence is removed (multiset difference) |
| Lists.RemoveFirstUndoesAppend | WorkdayCalendarLibrary/Model/Calendar.cs:91-94 | removing a value just appended to a list that lacked it restores the list |
| Calendars.GetLengthOfWorkday | WorkdayCalendarLibrary/Model/Calendar.cs:31-37 | fails exactly when the start is after the end; otherwise the length is non-negative and start plus length is the end |
| Calendars.HolidayOrdersAreTotal | WorkdayCalendarLibrary/Model/Calendar.cs:43-54 | both listing orders are total preorders, and equal keys mean equal holidays |
| Calendars.GetHolidays | WorkdayCalendarLibrary/Model/Calendar.cs:43-46 | the holidays sorted by year, month, day, as a permutation of the registered list |
| Calendars.GetRecurringHolidays | WorkdayCalendarLibrary/Model/Calendar.cs:52-54 | the recurring holidays sorted by month, day, as a permutation of the registered list |
| Calendars.RegisterHoliday | WorkdayCalendarLibrary/Model/Calendar.cs:61-69 | returns true exactly when the holiday was new, in which case it is appended; otherwise the calendar is unchanged; nothing else changes; no duplicates are ever introduced |
| Calendars.RegisterRecurringHoliday | WorkdayCalendarLibrary/Model/Calendar.cs:76-84 | the same for recurring holidays |
| Calendars.RemoveHoliday | WorkdayCalendarLibrary/Model/Calendar.cs:91-94 | returns true exactly when the holiday was registered; one occurrence is removed, none remains in a duplicate-free calendar; nothing else changes |
| Calendars.RemoveRecurringHoliday | WorkdayCalendarLibrary/Model/Calendar.cs:101-104 | the same for recurring holidays |
| Calendars.IsWeekend | WorkdayCalendarLibrary/Model/Calendar.cs:114-115 | no contract of its own; its partners state that such a day is never a workday (WeekendIsNeverWorkday), that with nothing registered the workdays are exactly the other days (NoHolidaysWorkdayIsWeekday), and that the weekend repeats every seven days (WeekendRepeatsWeekly) |
| Calendars.IsWorkday | WorkdayCalendarLibrary/Model/Calendar.cs:112-124 | no contract of its own; its partners state that Saturdays and Sundays never are workdays, that with nothing registered Monday to Friday always are, that the time of day plays no part, that a registered holiday's date is not one and registering or removing a holiday changes no other date, and that the order and multiplicity of the holiday lists play no part (SameHolidaysSameWorkdays) |
| Calendars.NoHolidaysWorkdayIsWeekday | WorkdayCalendarLibrary/Model/Calendar.cs:112-124 | with no holidays and no recurring holidays registered, a date is a workday exactly when it is Monday to Friday |
| Calendars.WeekendRepeatsWeekly | WorkdayCalendarLibrary/Model/Calendar.cs:114-115 | moving a date by any whole number of weeks, forward or back, keeps it a weekend day or a weekday |
| Calendars.WeekendIsNeverWorkday | WorkdayCalendarLibrary/Model/Calendar.cs:114-115 | Saturdays and Sundays are never workdays, whatever is registered |
| Calendars.IsWorkdayIgnoresTime | WorkdayCalendarLibrary/Model/Calendar.cs:112-124 | two instants of the same day are both workdays or both not |
| Calendars.RegisteredHolidayIsNotWorkday | WorkdayCalendarLibrary/Model/Calendar.cs:61-69 | after registering a holiday its date is not a workday, whether or not it was new |
| Calendars.RegisterHolidayKeepsOtherDates | WorkdayCalendarLibrary/Model/Calendar.cs:61-69 | registering a holiday does not change whether any other date is a workday |
| Calendars.RegisteredRecurringIsNotWorkday | WorkdayCalendarLibrary/Model/Calendar.cs:76-84 | after registering a recurring holiday, its month and day are not workdays in any year |
| Calendars.RegisterRecurringKeepsOtherDates | WorkdayCalendarLibrary/Model/Calendar.cs:76-84 | registering a recurring holiday does not change any date with another month or day |
| Calendars.RemoveUndoesRegisterHoliday | WorkdayCalendarLibrary/Model/Calendar.cs:91-94 | removing a newly registered holiday returns true and restores the calendar exactly |
| Calendars.RemoveUndoesRegisterRecurring | WorkdayCalendarLibrary/Model/Calendar.cs:101-104 | removing a newly registered recurring holiday returns true and restores the calendar exactly |
| Calendars.RemoveHolidayFreesOnlyItsDate | WorkdayCalendarLibrary/Model/Calendar.cs:91-94 | after removal a date is a workday exactly when it is a weekday matched by no other holiday and no recurring holiday |
| Calendars.RemoveRecurringFreesOnlyItsDates | WorkdayCalendarLibrary/Model/Calendar.cs:101-104 | after removal a date is a workday exactly when it is a weekday matched by no holiday and no other recurring holiday |
| Calendars.AdjustDay | WorkdayCalendarLibrary/Model/Calendar.cs:152-160 | steps at least one day in the given direction, keeps the time, and stops at the nearest workday; every day skipped is a non-workday; an empty result means no workday lies within the horizon |
| Calendars.MoveToNextWorkday | WorkdayCalendarLibrary/Model/Calendar.cs:131-137 | the first workday strictly after the date, at the start of the window, with no workday skipped |
| Calendars.MoveToPreviousWorkday | WorkdayCalendarLibrary/Model/Calendar.cs:144-150 | the last workday strictly before the date, at the end of the window, with no workday skipped |
| Calendars.NextWorkdayIsTomorrow | WorkdayCalendarLibrary/Model/Calendar.cs:131-137 | when the next day is a workday, the search returns that day at the start of the window |
| Calendars.PreviousWorkdayIsYesterday | WorkdayCalendarLibrary/Model/Calendar.cs:144-150 | when the previous day is a workday, the search returns that day at the end of the window |
| Calendars.NextWorkdayAfterGap | WorkdayCalendarLibrary/Model/Calendar.cs:131-137 | when the first workday after a date is `gap` days ahead and `gap` is within the horizon, the search returns that day at the start of the window |
| Calendars.PreviousWorkdayAfterGap | WorkdayCalendarLibrary/Model/Calendar.cs:144-150 | when the last workday before a date is `gap` days back and `gap` is within the horizon, the search returns that day at the end of the window |
| Calendars.MovesSucceedWithinHorizon | WorkdayCalendarLibrary/Model/Calendar.cs:152-160 | when workdays are never more than `n` days apart, a search of `n` days always finds one, in both directions |
| CalendarService.AlignForward | WorkdayCalendarLibrary/Service/CalendarService.cs:51-67 | lands on a workday inside the window, not before the input and, for a non-empty window, before the end; an in-window instant on a workday is left where it is |
| CalendarService.AlignBackward | WorkdayCalendarLibrary/Service/CalendarService.cs:89-105 | lands on a workday inside the window, not after the input; an in-window instant on a workday is left where it is |
| CalendarService.WalkForward | WorkdayCalendarLibrary/Service/CalendarService.cs:69-81 | the forward loop ends on a workday inside the window, not before where it started |
| CalendarService.WalkBackward | WorkdayCalendarLibrary/Service/CalendarService.cs:107-119 | the backward loop ends on a workday inside the window, not after where it started |
| CalendarService.IncrementDateAndTime | WorkdayCalendarLibrary/Service/CalendarService.cs:49-85 | the forward path ends on a workday inside the window, not before the start |
| CalendarService.SubtractMinutes | WorkdayCalendarLibrary/Service/CalendarService.cs:87-123 | the backward path ends on a workday inside the window, not after the start |
| CalendarService.FindWorkday | WorkdayCalendarLibrary/Service/CalendarService.cs:32-47 | fails with the window error exactly when the start is after the end; a result is a whole-minute instant inside the window of a workday |
| CalendarService.Truncate | WorkdayCalendarLibrary/Service/CalendarService.cs:46 | dropping the seconds keeps a workday instant inside the window and moves it back by less than a minute |
| FindWorkdayProperties.FindWorkdayZeroInWindow | WorkdayCalendarLibrary/Service/CalendarService.cs:51-67 | offset 0 from a whole-minute instant inside the window of a workday returns that instant |
| FindWorkdayProperties.FindWorkdayZeroFromEnd | WorkdayCalendarLibrary/Service/CalendarService.cs:57-61 | offset 0 from the end of the window or later returns the start of the next workday |
| FindWorkdayProperties.FindWorkdayBackOneFromEnd | WorkdayCalendarLibrary/Service/CalendarService.cs:89-93 | one workday back from exactly the end of a workday's window is the start of that same day |
| FindWorkdayProperties.WalkForwardStopsAtEnd | WorkdayCalendarLibrary/Service/CalendarService.cs:71 | because the loop test is a strict `>`, a walk of exactly what is left of the day ends at the end of that day's window |
| FindWorkdayProperties.WalkForwardPastEndMovesOn | WorkdayCalendarLibrary/Service/CalendarService.cs:71-79 | a walk longer than what is left of the day ends on a later day |
| FindWorkdayProperties.WalkBackwardStopsAtStart | WorkdayCalendarLibrary/Service/CalendarService.cs:109 | because the loop test is a strict `<`, a walk back of exactly what has passed of the day ends at the start of that day's window |
| FindWorkdayProperties.WalkBackwardPastStartMovesOn | WorkdayCalendarLibrary/Service/CalendarService.cs:109-117 | a walk back longer than what has passed of the day ends on an earlier day |
| FindWorkdayProperties.FindWorkdayZeroIdempotent | WorkdayCalendarLibrary/Service/CalendarService.cs:32-47 | with a non-empty window, applying offset 0 to the result of offset 0 gives the same result |
| FindWorkdayProperties.FindWorkdayZeroMovesOnEmptyWindow | WorkdayCalendarLibrary/Service/CalendarService.cs:57-61 | with start equal to end, offset 0 always moves to a later day, so the idempotence above fails there |
| FindWorkdayProperties.AlignForwardIsIdle | WorkdayCalendarLibrary/Service/CalendarService.cs:51-67 | forward alignment skips no working time |
| FindWorkdayProperties.AlignBackwardIsIdle | WorkdayCalendarLibrary/Service/CalendarService.cs:89-105 | backward alignment skips no working time |
| FindWorkdayProperties.RestOfDayAfter | WorkdayCalendarLibrary/Service/CalendarService.cs:69-78 | one forward iteration spends exactly what is left of the day's window |
| FindWorkdayProperties.WholeDayBefore | WorkdayCalendarLibrary/Service/CalendarService.cs:107-116 | one backward iteration spends exactly what has passed of the day's window |
| FindWorkdayProperties.LastStepBack | WorkdayCalendarLibrary/Service/CalendarService.cs:119 | the final backward step stays on the day and spends exactly the remaining minutes |
| FindWorkdayProperties.WalkForwardWorks | WorkdayCalendarLibrary/Service/CalendarService.cs:69-81 | the forward loop covers exactly the requested worked minutes |
| FindWorkdayProperties.WalkBackwardWorks | WorkdayCalendarLibrary/Service/CalendarService.cs:107-119 | the backward loop covers exactly the requested worked minutes |
| FindWorkdayProperties.ForwardPath | WorkdayCalendarLibrary/Service/CalendarService.cs:42-46 | before truncation, the forward path ends on a workday in the window, exactly `workdays × length` worked minutes after any start, and for a positive offset strictly after the window's start; the result is that instant with its seconds dropped |
| FindWorkdayProperties.BackwardPath | WorkdayCalendarLibrary/Service/CalendarService.cs:42-46 | before truncation, the backward path ends on a workday in the window, exactly `-workdays × length` worked minutes before the start, and strictly before the window's end; the result is that instant with its seconds dropped |
| FindWorkdayProperties.FindWorkdayForwardDetermined | WorkdayCalendarLibrary/Service/CalendarService.cs:32-47 | forward, any workday instant after the window's start and up to its end that lies exactly `workdays × length` worked minutes after the start is, with seconds dropped, the result |
| FindWorkdayProperties.FindWorkdayBackwardDetermined | WorkdayCalendarLibrary/Service/CalendarService.cs:32-47 | backward, any workday instant from the window's start and before its end that lies exactly `-workdays × length` worked minutes before the start is, with seconds dropped, the result |
| WorkedTime.ForwardEndIsUnique | WorkdayCalendarLibrary/Service/CalendarService.cs:69-81 | two workday instants after the window's start and up to its end, at the same worked distance after a common start, are the same instant |
| WorkedTime.BackwardEndIsUnique | WorkdayCalendarLibrary/Service/CalendarService.cs:107-119 | two workday instants from the window's start and before its end, at the same worked distance before a common end, are the same instant |
| FindWorkdayProperties.WalkForwardWithinDay | WorkdayCalendarLibrary/Service/CalendarService.cs:71-81 | a forward walk that fits in what is left of the day ends the given minutes later on the same day |
| FindWorkdayProperties.WalkForwardToNextWorkday | WorkdayCalendarLibrary/Service/CalendarService.cs:71-79 | a forward walk longer than what is left of the day continues from the next workday's start with the rest of the day subtracted |
| FindWorkdayProperties.WalkBackwardWithinDay | WorkdayCalendarLibrary/Service/CalendarService.cs:109-119 | a backward walk that fits in what has passed of the day ends the given minutes earlier on the same day |
| FindWorkdayProperties.WalkBackwardToPreviousWorkday | WorkdayCalendarLibrary/Service/CalendarService.cs:109-117 | a backward walk longer than what has passed of the day continues from the previous workday's end with the passed part subtracted |
| FindWorkdayProperties.TruncatedAfterStart | WorkdayCalendarLibrary/Service/CalendarService.cs:46 | dropping seconds after a forward move loses less than one worked minute |
| FindWorkdayProperties.TruncatedBeforeEnd | WorkdayCalendarLibrary/Service/CalendarService.cs:46 | dropping seconds after a backward move adds less than one worked minute |
| FindWorkdayProperties.FindWorkdayForwardWorkedMinutes | WorkdayCalendarLibrary/Service/CalendarService.cs:32-47 | forward, the result is not before the start and lies between `m - 1` (exclusive) and `m` worked minutes after it, where `m` is the offset times the window length |
| FindWorkdayProperties.FindWorkdayBackwardWorkedMinutes | WorkdayCalendarLibrary/Service/CalendarService.cs:32-47 | backward, the result is not after the start, lies between `m` and `m + 1` (exclusive) worked minutes before it, and for a non-empty window is before the window's end |
| FindWorkdayProperties.WalkForwardSucceeds | WorkdayCalendarLibrary/Service/CalendarService.cs:71-79 | under the horizon assumption the forward loop always finishes |
| FindWorkdayProperties.WalkBackwardSucceeds | WorkdayCalendarLibrary/Service/CalendarService.cs:109-117 | under the horizon assumption the backward loop always finishes |
| FindWorkdayProperties.AlignForwardSucceeds | WorkdayCalendarLibrary/Service/CalendarService.cs:51-67 | under the horizon assumption forward alignment always finds a workday |
| FindWorkdayProperties.AlignBackwardSucceeds | WorkdayCalendarLibrary/Service/CalendarService.cs:89-105 | under the horizon assumption backward alignment always finds a workday |
| FindWorkdayProperties.FindWorkdaySucceedsWithinHorizon | WorkdayCalendarLibrary/Service/CalendarService.cs:32-47 | with a valid window and workdays never more than the horizon apart, FindWorkday always succeeds |
| ConfigurationConverter.ToConfiguration | WorkdayCalendarLibrary/Service/CalendarConfigurationConverter.cs:26-37 | copies the window; the holiday lists are sorted permutations of the calendar's |
| ConfigurationConverter.RegisterHolidays | WorkdayCalendarLibrary/Service/CalendarConfigurationConverter.cs:47-48 | registering a list of holidays touches neither the recurring holidays nor the window, and keeps a calendar duplicate-free |
| ConfigurationConverter.RegisterRecurringHolidays | WorkdayCalendarLibrary/Service/CalendarConfigurationConverter.cs:50-51 | registering a list of recurring holidays touches neither the one-off holidays nor the window, and keeps a calendar duplicate-free |
| ConfigurationConverter.RegisterHolidaysElements | WorkdayCalendarLibrary/Service/CalendarConfigurationConverter.cs:47-48 | the registered holidays afterwards are the old ones plus those of the list |
| ConfigurationConverter.RegisterHolidaysStep | WorkdayCalendarLibrary/Service/CalendarConfigurationConverter.cs:47-48 | a new holiday at the head of the list is appended before the rest are registered |
| ConfigurationConverter.RegisterHolidaysAppends | WorkdayCalendarLibrary/Service/CalendarConfigurationConverter.cs:47-48 | a duplicate-free list of new holidays is appended in order |
| ConfigurationConverter.RegisterRecurringHolidaysElements | WorkdayCalendarLibrary/Service/CalendarConfigurationConverter.cs:50-51 | the registered recurring holidays afterwards are the old ones plus those of the list |
| ConfigurationConverter.RegisterRecurringHolidaysStep | WorkdayCalendarLibrary/Service/CalendarConfigurationConverter.cs:50-51 | a new recurring holiday at the head of the list is appended before the rest are registered |
| ConfigurationConverter.RegisterRecurringHolidaysAppends | WorkdayCalendarLibrary/Service/CalendarConfigurationConverter.cs:50-51 | a duplicate-free list of new recurring holidays is appended in order |
| ConfigurationConverter.ToCalendar | WorkdayCalendarLibrary/Service/CalendarConfigurationConverter.cs:39-54 | the calendar has the configured window, no duplicates, and exactly the configured holidays and recurring holidays |
| ConfigurationConverter.ToCalendarKeepsDistinctLists | WorkdayCalendarLibrary/Service/CalendarConfigurationConverter.cs:39-54 | duplicate-free configured lists come back in the configured order |
| ConfigurationConverter.SameHolidaysSameWorkdays | WorkdayCalendarLibrary/Model/Calendar.cs:112-124 | calendars with the same holidays, in any order or multiplicity, agree on every date |
| ConfigurationConverter.CalendarRoundTrip | WorkdayCalendarLibrary/Service/CalendarConfigurationConverter.cs:26-54 | storing and reading back a duplicate-free calendar gives the same calendar with sorted lists and the same workdays; storing it again gives the same configuration |
| ConfigurationConverter.ConfigurationRoundTrip | WorkdayCalendarLibrary/Service/CalendarConfigurationConverter.cs:26-54 | a sorted, duplicate-free configuration survives reading and storing unchanged |
| Scenarios.ExampleIsRegistered | WorkdayCalendarTest/Service/CalendarServiceTest.cs:19-31 | the example calendar is a new calendar with the two test holidays registered |
| Scenarios.ExampleWorkdaysInMay | WorkdayCalendarTest/Service/CalendarServiceTest.cs:19-31 | in May 2004 the example's workdays are the weekdays other than the 17th and the 27th |
| Scenarios.ExampleWorkdays | WorkdayCalendarTest/Service/CalendarServiceTest.cs:19-31 | on the days of May to July 2004 and October 2022, the example's workdays are exactly the weekdays other than 17 and 27 May 2004 |
| Scenarios.ExampleForwardAgrees | WorkdayCalendarLibrary/Service/CalendarService.cs:69-81 | on the example calendar the forward loop ends where the day-number reference walk ends |
| Scenarios.ExampleBackwardAgrees | WorkdayCalendarLibrary/Service/CalendarService.cs:107-119 | on the example calendar the backward loop ends where the day-number reference walk ends |
| Scenarios.MondayEveningBackFiveAndAHalf | WorkdayCalendarTest/Service/CalendarServiceTest.cs:309 | 24 May 2004 18:05 minus 5.5 workdays is 14 May 2004 12:00 |
| Scenarios.MondayNightForwardFortyFourWorkdays | WorkdayCalendarTest/Service/CalendarServiceTest.cs:310 | 24 May 2004 19:03 plus 44.723656 workdays is 27 July 2004 13:47 |
| Scenarios.MondayEveningBackSixPointSeven | WorkdayCalendarTest/Service/CalendarServiceTest.cs:311 | 24 May 2004 18:03 minus 6.7470217 workdays is 13 May 2004 10:01 |
| Scenarios.MondayMorningForwardTwelvePointEight | WorkdayCalendarTest/Service/CalendarServiceTest.cs:312 | 24 May 2004 08:03 plus 12.782709 workdays is 10 June 2004 14:18 |
| Scenarios.BeforeOpeningForwardEightPointTwo | WorkdayCalendarTest/Service/CalendarServiceTest.cs:313 | 24 May 2004 07:03 plus 8.276628 workdays is 4 June 2004 10:12 |
| Scenarios.BeforeOpeningForwardEightAndAHalf | WorkdayCalendarTest/Service/CalendarServiceTest.cs:314 | 10 October 2022 07:03 plus 8.5 workdays is 20 October 2022 12:00 |
| Scenarios.AtOpeningForwardEightAndAHalf | WorkdayCalendarTest/Service/CalendarServiceTest.cs:315 | 10 October 2022 08:00 plus 8.5 workdays is 20 October 2022 12:00 |
| Scenarios.BeforeOpeningBackThreeAndAHalf | WorkdayCalendarTest/Service/CalendarServiceTest.cs:316 | 10 October 2022 07:03 minus 3.5 workdays is 4 October 2022 12:00 |
| Scenarios.AfternoonForwardQuarterDay | WorkdayCalendarTest/Service/CalendarServiceTest.cs:317 | 10 October 2022 15:07 plus 0.25 workdays is 11 October 2022 09:07 |
| Scenarios.EarlyMorningForwardHalfDay | WorkdayCalendarTest/Service/CalendarServiceTest.cs:318 | 10 October 2022 04:00 plus 0.5 workdays is 10 October 2022 12:00 |
| Scenarios.QuarterDayCrossesEvening | WorkdayCalendarTest/Service/CalendarServiceTest.cs:38-51 | Monday 24 May 15:07 plus 0.25 workdays is Tuesday 09:07 |
| Scenarios.ZeroOnHolidayMovesToNextMorning | WorkdayCalendarTest/Service/CalendarServiceTest.cs:83-96 | offset 0 on the one-off holiday gives 08:00 the next day |
| Scenarios.ZeroOnRecurringHolidayMovesToNextMorning | WorkdayCalendarTest/Service/CalendarServiceTest.cs:98-111 | offset 0 on the recurring holiday gives 08:00 the next day |
| Scenarios.ZeroOnWeekendMovesToMonday | WorkdayCalendarTest/Service/CalendarServiceTest.cs:113-126 | offset 0 on a Sunday gives Monday 08:00 |
| Scenarios.AfterEndStartsNextMorning | WorkdayCalendarTest/Service/CalendarServiceTest.cs:143-156 | from Monday 18:03, offset 0 gives Tuesday 08:00 and three minutes more give 08:03 |
| Scenarios.BackFromHolidayEndsWednesdayAfternoon | WorkdayCalendarTest/Service/CalendarServiceTest.cs:203-216 | three minutes back from the holiday is Wednesday 15:57 |
| Scenarios.BackOneDayFromTuesdayEvening | WorkdayCalendarTest/Service/CalendarServiceTest.cs:233-246 | one workday back from Tuesday 16:00 is Tuesday 08:00 |

## Left out

- Logging: the `ILogger` calls in `CalendarService` have no effect on results.
- Persistence, the JSON `TimeOnly` converter, `FileService`, `CalendarRepository` and the console front end are not part of this model.
- CalendarService.FindWorkday: the offset `workdays * length` (CalendarService.cs:37) and the minute counters are IEEE doubles in the source; here they are exact reals, so rounding of very long or very fine offsets is not modelled.
- Dates.AddMinutes: .NET keeps instants in 100-nanosecond ticks and limits `DateTime` to years 1 to 9999; here instants are exact and days are unbounded, so the out-of-range exception is not modelled.
- Calendars.AdjustDay: the C# loop has no bound and runs forever when no workday exists in the searched direction; the model searches at most `fuel` days and returns `None` past that (see `MovesSucceedWithinHorizon`).
- CalendarService.FindWorkday: takes the same horizon and reports `NoWorkdayWithinHorizon` whenever a day search runs past `horizon` days. The C# code then keeps searching, and never returns if no workday exists.
- Calendars.RemoveHoliday: `List.Remove` compares by reference, because `Holiday` overrides neither `Equals(object)` nor `GetHashCode`. The model compares by value. The two agree when the caller passes an object obtained from the calendar, as the console front end does. They differ for a fresh object with the same fields, which the C# code does not remove.
- Calendars.RemoveRecurringHoliday: the same reference-versus-value difference for recurring holidays.
- DateTimeExtension.SetTime: the .NET constructor throws for an hour outside 0..23 or a minute outside 0..59. Every caller passes the parts of a `TimeOfDay`, so this is a precondition instead of an error path.
- Window times are whole minutes (`TimeOfDay`). A `TimeOnly` with seconds would have its seconds dropped by `SetTime` at the alignment steps; this is not modelled.
- Holiday fields are unconstrained integers. The source documents the ranges 1..9999, 1..12 and 1..31 but does not check them. A holiday outside those ranges is registered and listed like any other. Whether it can ever match depends on `Dates.CivilFromDays` producing only real calendar dates, which this model does not prove.
- Dates.CivilFromDays: follows the civil-from-days algorithm for the proleptic Gregorian calendar. It is not proved that the month lies in 1..12, that the day lies within the month, or that successive day numbers give successive dates. The arithmetic of those proofs exceeds the solver budget this project keeps to.
- FindWorkdayProperties.FindWorkdayForwardWorkedMinutes: requires a whole-minute start. From a start with seconds on a workday inside the window, dropping the seconds can put the result a fraction of a minute before the start.
- FindWorkdayProperties.FindWorkdayZeroIdempotent: requires a window with start strictly before end. `GetLengthOfWorkday` throws only when start is after end, so an empty window is accepted, and then offset 0 always moves on a day (`FindWorkdayZeroMovesOnEmptyWindow`). Idempotence under offset 0 therefore holds only for non-empty windows. The doc comments at WorkdayCalendarLibrary/Model/Calendar.cs:30 and WorkdayCalendarLibrary/Service/CalendarService.cs:18 say the start must be earlier than the end, which would also rule out start = end. The check at Calendar.cs:33 throws only for start > end, and this model follows the check.
