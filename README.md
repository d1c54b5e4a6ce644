# datenel-react calendar core in Dafny

This project models the date logic behind the week picker of datenel-react, a React date-picker library. It covers four pieces.

- `getCalendarDates` builds the month grid: every day from the Monday that opens the first row to the Sunday that closes the last.
- `calculateWeekNum` gives the week-year and week number of a date.
- `getL10Weekday` produces the seven weekday labels.
- The state logic of the `SingleWeekPicker` component covers month and year navigation, the year input, cutting the grid into week rows, and selecting and highlighting a week.

Dates follow ECMAScript `Date` semantics on integer time values, in milliseconds since 1970-01-01.

- `civil.dfy` (module `Civil`) holds proleptic-Gregorian arithmetic on day numbers: `DayFromYear`, `YearFromDay`, `MonthFromDay` and `DateFromDay` (ECMA-262's `YearFromTime`, `MonthFromTime` and `DateFromTime`, taken on day numbers), `MakeDay` with its month and date carry, and `WeekDay`.
- `js_date.dfy` (module `JsDate`) adds the two-digit-year rule of the `Date` constructor (a year 0..99 is read as 1900 + year), the getters, `setDate` and `setHours(0, 0, 0, 0)` on time values. It also defines a `Date` class whose `time` field its one mutating method, `SetDate`, updates.
- `calendar_grid.dfy` (module `CalendarGrid`):
  - `GetCalendarDates` is a method that mutates `Date` objects in place like the source does.
  - It is proved equal to the day list `CalendarDays`, and the grid properties are proved about that list.
- `week_number.dfy` (module `WeekNumber`):
  - `CalculateWeekNum` is a function that follows the source's steps on time values.
  - `WeekNumFormula` reduces it to day numbers.
  - At that level, the properties are proved, along with how it compares with ISO 8601.
- `weekday_labels.dfy` (module `WeekdayLabels`) holds the label loop. The locale formatter is a function parameter.
- `week_picker.dfy` (module `WeekPicker`) holds the component's state as a class `SingleWeekPicker`.
  - Every handler and effect is a method.
  - It uses `JsNumber` (an integer or NaN), because the year can become NaN: `adjustYear` on a negative year gives `Number("20-5")`.

The documentation describes the week numbering as ISO 8601 (src/components/SingleWeekPicker.tsx:45-47). The code in fact names each Monday-to-Sunday week after its Wednesday, and week 1 is the week of 5 January. The model follows the code. `AgreesWithIsoIff` states exactly when the two differ: in week-years that begin on a Thursday. The ISO 8601 text documents an `onSelect` callback. The component never takes `onSelect` out of its props (line 73), so it never calls it: `selectWeek` (lines 127-129) only sets state, and so does `SelectWeek`.

The claim that week numbers always lie in 1..53 also needs a condition. It holds exactly when the week-year is not a two-digit year. For such a year, line 7 of calculateWeekNum.ts builds a date in 19xx (`WeekNumRange`).

## Model

| member | source | states |
|---|---|---|
| Civil.YearFromDay | src/utils/getCalendarDates.ts:4 | `getFullYear`: the year returned is the one whose 1 January is on or before the day and whose next 1 January is after it |
| Civil.YearFromDayUnique | src/utils/getCalendarDates.ts:4 | a day belongs to exactly one year |
| Civil.MonthFromDay | src/utils/getCalendarDates.ts:4 | `getMonth`: a month 0..11 whose days, counted from 1 January, include the day |
| Civil.DateFromDay | src/utils/getCalendarDates.ts:6 | `getDate`: a day of the month from 1 to that month's length |
| Civil.DaysInMonth | src/utils/getCalendarDates.ts:8 | months have 28 to 31 days; February has 29 exactly in leap years; April, June, September and November have 30 |
| Civil.MakeDayOfParts | src/utils/getCalendarDates.ts:6 | putting a day's year, month and date back together gives the same day |
| Civil.PartsOfMakeDay | src/utils/getCalendarDates.ts:4 | a valid year, month and date survive the round trip through a day number |
| Civil.MonthEnd | src/utils/getCalendarDates.ts:8 | day 0 of the next month is the last day of the month |
| Civil.MakeDayCarry | src/utils/getCalendarDates.ts:2 | a month outside 0..11 carries into the year |
| Civil.IsLeapYear | src/utils/getCalendarDates.ts:8 | no contract; the Gregorian leap rule, which DaysInYear and DaysInMonth state in terms of month lengths |
| Civil.DaysInYear | src/utils/getCalendarDates.ts:8 | 365 or 366 days, 366 exactly in a leap year |
| Civil.DayFromYear | src/utils/getCalendarDates.ts:4 | no contract; ECMA-262 DayFromYear. DayFromYearStep states that each year starts DaysInYear days after the previous one |
| Civil.DayFromYearStep | src/utils/getCalendarDates.ts:4 | year y + 1 starts DaysInYear(y) days after year y |
| Civil.DaysBeforeMonth | src/utils/getCalendarDates.ts:8 | no contract; cumulative month lengths. DaysInMonth states the twelve lengths and DaysBeforeYearEnd their total |
| Civil.DaysBeforeYearEnd | src/utils/getCalendarDates.ts:8 | the twelve month lengths add up to the length of the year |
| Civil.MonthOfYearDay | src/utils/getCalendarDates.ts:4 | the month 0..11 whose days, counted from 1 January, include the given day of the year |
| Civil.MakeDay | src/utils/getCalendarDates.ts:2-8 | no contract; ECMA-262 MakeDay. MakeDayOfParts and PartsOfMakeDay state that it is the inverse of splitting a day into parts; MakeDayCarry and MakeDayShift state the carry |
| Civil.MakeDayShift | src/utils/getCalendarDates.ts:13 | moving the date argument by k moves the day by k, whatever the month |
| Civil.WeekDay | src/utils/getCalendarDates.ts:5-10 | `getDay`: a weekday 0..6 (0 is Sunday). WeekDayShift states that it repeats every 7 days |
| Civil.WeekDayShift | src/utils/getCalendarDates.ts:5-10 | the weekday repeats every seven days |
| JsDate.NewDateMidnight | src/utils/getCalendarDates.ts:4 | `new Date(y, m, d)` is the midnight of the day MakeDay names, after the two-digit-year rule |
| JsDate.SetDateMoves | src/utils/getCalendarDates.ts:13 | `setDate(getDate() + k)` moves a date exactly k days, whatever the month |
| JsDate.ForgetsTimeOfDay | src/utils/calculateWeekNum.ts:3 | `setHours(0, 0, 0, 0)` gives the midnight of the same day, not after the original time |
| JsDate.Day | src/utils/getCalendarDates.ts:4 | no contract; floor division by the length of a day. DayOfMidnight and DayShift state what it computes |
| JsDate.TimeWithinDay | src/utils/calculateWeekNum.ts:3 | the milliseconds since midnight, 0 up to one day |
| JsDate.DayOfMidnight | src/utils/getCalendarDates.ts:4 | a time value built from a day and a time of day gives back that day and that time of day |
| JsDate.DayShift | src/utils/getCalendarDates.ts:13 | adding k days of milliseconds moves the day by k |
| JsDate.FullYear | src/utils/getCalendarDates.ts:2 | the constructor's year: 0..99 read as 1900 + year, any other year kept |
| JsDate.NewDate | src/utils/getCalendarDates.ts:2-8 | no contract; `new Date(y, m, d)`. NewDateMidnight states what it computes |
| JsDate.DayOfWeek | src/utils/getCalendarDates.ts:5-10 | no contract; `getDay()`, the WeekDay of the day (0..6) |
| JsDate.DateOf | src/utils/getCalendarDates.ts:6 | no contract; `getDate()`, the DateFromDay of the day. SetDateMoves states how it moves with setDate |
| JsDate.MonthOf | src/utils/getCalendarDates.ts:4 | `getMonth()`: a month 0..11 |
| JsDate.YearOf | src/utils/getCalendarDates.ts:4 | no contract; `getFullYear()`, the YearFromDay of the day |
| JsDate.WithDate | src/utils/getCalendarDates.ts:6 | no contract; `setDate(date)`. SetDateMoves states that setting the current date plus k moves the time exactly k days |
| JsDate.SetHoursZero | src/utils/calculateWeekNum.ts:3 | no contract; `setHours(0, 0, 0, 0)`. ForgetsTimeOfDay states what it computes |
| JsDate.Date.constructor | src/utils/getCalendarDates.ts:4 | a new object holding the time value of `new Date(y, m, d)` |
| JsDate.Date.Copy | src/utils/getCalendarDates.ts:14 | `new Date(other)`: a new object holding the same time value |
| JsDate.Date.SetDate | src/utils/getCalendarDates.ts:6 | the object's time becomes WithDate of its old time |
| JsDate.Date.GetTime | src/utils/getCalendarDates.ts:13 | no contract; the object's time value |
| JsDate.Date.GetDay | src/utils/getCalendarDates.ts:5 | no contract; DayOfWeek of the object's time |
| JsDate.Date.GetDate | src/utils/getCalendarDates.ts:6 | no contract; DateOf of the object's time |
| JsDate.Date.GetMonth | src/utils/getCalendarDates.ts:4 | no contract; MonthOf of the object's time |
| JsDate.Date.GetFullYear | src/utils/getCalendarDates.ts:4 | no contract; YearOf of the object's time |
| CalendarGrid.GetCalendarDates | src/utils/getCalendarDates.ts:1-16 | the returned list holds one midnight per day of `CalendarDays`, in order |
| CalendarGrid.StartSnaps | src/utils/getCalendarDates.ts:4-6 | after line 6, `calendarStart` is the midnight of the grid's first day |
| CalendarGrid.EndSnaps | src/utils/getCalendarDates.ts:8-10 | after line 10, `calendarEnd` is the midnight of the grid's last day |
| CalendarGrid.NextMidnight | src/utils/getCalendarDates.ts:13 | the loop step moves `i` to the next midnight |
| CalendarGrid.SnapStartWindow | src/utils/getCalendarDates.ts:5-6 | the start snaps to a Monday at most 5 days earlier; only a Sunday moves forward, one day |
| CalendarGrid.SnapEndWindow | src/utils/getCalendarDates.ts:9-10 | the end snaps to the Sunday on or at most 6 days after it |
| CalendarGrid.RangeShape | src/utils/getCalendarDates.ts:4-14 | for any month of 28 to 31 days, the range is 28, 35 or 42 days (a multiple of 7); day k falls on weekday (k + 1) mod 7; it ends on a Sunday; each day is one more than the previous |
| CalendarGrid.MonthSpan | src/utils/getCalendarDates.ts:8 | the last day of the target month is its length minus one day after the first |
| CalendarGrid.GridStartIsMonday | src/utils/getCalendarDates.ts:5-6 | the grid starts on a Monday, from 5 days before the 1st up to the 2nd; it starts after the 1st exactly when the 1st is a Sunday |
| CalendarGrid.GridEndIsSunday | src/utils/getCalendarDates.ts:8-10 | the grid ends on a Sunday, on or at most 6 days after the last of the month |
| CalendarGrid.GridBounds | src/utils/getCalendarDates.ts:4-10 | the grid spans at least 27 days, so the loop runs |
| CalendarGrid.GridOfMonth | src/utils/getCalendarDates.ts:4-10 | the grid is the range between the snapped first and last days of the target month |
| CalendarGrid.GridShape | src/utils/getCalendarDates.ts:4-14 | the grid has 28, 35 or 42 days (a multiple of 7); it runs Monday first to Sunday last, one day apart |
| CalendarGrid.GridColumns | src/utils/getCalendarDates.ts:4-14 | entry k falls on weekday (k + 1) mod 7, so columns run Monday to Sunday |
| CalendarGrid.MonthDaysInGrid | src/utils/getCalendarDates.ts:4-10 | a day of the target month is in the grid exactly when it is not a 1st that falls on a Sunday |
| CalendarGrid.GridWithinOverflow | src/utils/getCalendarDates.ts:4-10 | every entry lies between 5 days before the 1st and 6 days after the last |
| CalendarGrid.TargetOf | src/utils/getCalendarDates.ts:2-4 | the month shown is month mod 12 of the carried year, read through the two-digit rule twice |
| CalendarGrid.TargetOfFourDigitYear | src/utils/getCalendarDates.ts:2-4 | outside two-digit years, the month shown is month mod 12 of year + month div 12 |
| CalendarGrid.MonthAfterDecember | src/utils/getCalendarDates.ts:2-4 | month 12 of a year gives the grid of January of the next year |
| CalendarGrid.MonthBeforeJanuary | src/utils/getCalendarDates.ts:2-4 | month -1 of a year gives the grid of December of the previous year |
| CalendarGrid.SameTarget | src/utils/getCalendarDates.ts:2-10 | the grid depends on its arguments only through the month shown |
| CalendarGrid.GridOfTarget | src/utils/getCalendarDates.ts:4-10 | the grid of a month written out from its year and month |
| CalendarGrid.GridStartOf | src/utils/getCalendarDates.ts:4-6 | the grid is non-empty and starts within 5 days before to 1 day after the 1st |
| CalendarGrid.CarryBreaksAtYear99 | src/utils/getCalendarDates.ts:2-4 | month 12 of year 99 (January 2000) and month 0 of year 100 give different grids |
| CalendarGrid.CarryBreaksAtYear0 | src/utils/getCalendarDates.ts:2-4 | month -1 of year 0 (December 1899) and month 11 of year -1 give different grids |
| CalendarGrid.June2025 | src/utils/getCalendarDates.ts:1-16 | June 2025 gives 35 days, 2 June to 6 July, without 1 June |
| CalendarGrid.January2025 | src/utils/getCalendarDates.ts:1-16 | January 2025 gives 35 days, 30 December 2024 to 2 February 2025 |
| CalendarGrid.Baseline | src/utils/getCalendarDates.ts:2 | no contract; `new Date(currentYear, currentDate)`. TargetOf states which month it falls in |
| CalendarGrid.TargetYear | src/utils/getCalendarDates.ts:4 | no contract; the year `calendarStart` is built in. TargetOf states it as FullYear(FullYear(year) + month div 12) |
| CalendarGrid.TargetMonth | src/utils/getCalendarDates.ts:4 | the month of the baseline date, in 0..11; TargetOf states it as month mod 12 |
| CalendarGrid.FirstOfMonth | src/utils/getCalendarDates.ts:4 | no contract; day number of `calendarStart` before line 6. GridStartIsMonday relates it to the grid's start |
| CalendarGrid.LastOfMonth | src/utils/getCalendarDates.ts:8 | no contract; day number of `calendarEnd` before line 10. MonthSpan states that it is the last day of the month |
| CalendarGrid.SnapStart | src/utils/getCalendarDates.ts:5-6 | no contract; line 6 on day numbers. SnapStartWindow states where it lands |
| CalendarGrid.SnapEnd | src/utils/getCalendarDates.ts:9-10 | no contract; line 10 on day numbers. SnapEndWindow states where it lands |
| CalendarGrid.GridStart | src/utils/getCalendarDates.ts:4-6 | no contract; the snapped start of the grid. GridStartIsMonday states what it is |
| CalendarGrid.GridEnd | src/utils/getCalendarDates.ts:8-10 | no contract; the snapped end of the grid. GridEndIsSunday states what it is |
| CalendarGrid.DayRange | src/utils/getCalendarDates.ts:13-14 | the days from lo to hi, one after another (empty when hi < lo) |
| CalendarGrid.CalendarDays | src/utils/getCalendarDates.ts:1-16 | no contract; the day numbers the source pushes. GetCalendarDates is proved to return them, and GridShape, GridColumns and MonthDaysInGrid state what they are |
| WeekNumber.Wednesday | src/utils/calculateWeekNum.ts:5 | the shift lands on a Wednesday, 2 days after the week's Monday and 4 before its Sunday |
| WeekNumber.WednesdayOfWeek | src/utils/calculateWeekNum.ts:5 | every day of a Monday-to-Sunday week shifts to the same Wednesday |
| WeekNumber.CeilDiv | src/utils/calculateWeekNum.ts:12 | `Math.ceil(n / k)` is the least q with n <= q * k |
| WeekNumber.AnchorOfMidnight | src/utils/calculateWeekNum.ts:5 | line 5 moves a midnight to the midnight of its week's Wednesday |
| WeekNumber.TempDateOf | src/utils/calculateWeekNum.ts:2-5 | `tempDate` is the midnight of the date's Wednesday, and its year is that Wednesday's year |
| WeekNumber.FirstFridayOf | src/utils/calculateWeekNum.ts:7-8 | `firstFriday`, once moved, is the Wednesday of the week of 5 January |
| WeekNumber.WeekNumFormula | src/utils/calculateWeekNum.ts:1-18 | result = (year of the Wednesday, whole weeks from that year's first Wednesday + 1) |
| WeekNumber.FirstWednesdayWindow | src/utils/calculateWeekNum.ts:7-8 | the first Wednesday lies in 1..7 January, in the week that holds 5 January |
| WeekNumber.WeekNumberIsOrdinal | src/utils/calculateWeekNum.ts:10-12 | the week number is one more than the whole weeks from 1 January to the Wednesday |
| WeekNumber.WeekNumRange | src/utils/calculateWeekNum.ts:7-12 | the week number is in 1..53 exactly when the week-year is not 0..99 |
| WeekNumber.WeekOneHoldsJanuary5 | src/utils/calculateWeekNum.ts:7-12 | 5 January of every year is in week 1 of the year the constructor reads (a year 0..99 as 1900 + year) |
| WeekNumber.SameWeekIff | src/utils/calculateWeekNum.ts:5-15 | two dates get the same result exactly when they lie in the same Monday-to-Sunday week |
| WeekNumber.WholeWeek | src/utils/calculateWeekNum.ts:5-15 | all seven days from a Monday to the Sunday get the same result |
| WeekNumber.NextWeek | src/utils/calculateWeekNum.ts:10-12 | seven days later, in the same week-year, the week number is one higher |
| WeekNumber.DependsOnlyOnDay | src/utils/calculateWeekNum.ts:2-3 | the time of day does not matter |
| WeekNumber.IsoWeekOf | src/components/SingleWeekPicker.tsx:45-47 | the ISO 8601 week the documentation promises: year of the week's Thursday, week in 1..53 |
| WeekNumber.WednesdayAgainstThursday | src/utils/calculateWeekNum.ts:5-12 | for a Wednesday, the two numberings agree exactly when the ISO week-year does not begin on a Thursday |
| WeekNumber.AgreesWithIsoIff | src/utils/calculateWeekNum.ts:5-15 | the result equals the ISO 8601 week exactly when the ISO week-year does not begin on a Thursday |
| WeekNumber.January1st2024 | src/utils/calculateWeekNum.ts:1-18 | 1 January 2024 gives (2024, 1) |
| WeekNumber.January1st2023 | src/utils/calculateWeekNum.ts:1-18 | 1 January 2023 gives (2022, 52) |
| WeekNumber.December31st2020 | src/utils/calculateWeekNum.ts:1-18 | 31 December 2020 gives (2020, 53) |
| WeekNumber.January1st2015 | src/utils/calculateWeekNum.ts:1-18 | 1 January 2015 gives (2014, 53), where ISO 8601 gives (2015, 1) |
| WeekNumber.IsoWeekday | src/utils/calculateWeekNum.ts:5 | no contract; `getDay() \|\| 7`, Sunday read as 7. Wednesday states what the shift built from it gives |
| WeekNumber.AnchorOnWednesday | src/utils/calculateWeekNum.ts:5-8 | no contract; `setDate(getDate() + 3 - (getDay() \|\| 7))`. AnchorOfMidnight states that it moves a midnight to its week's Wednesday |
| WeekNumber.FirstWednesday | src/utils/calculateWeekNum.ts:7-8 | a Wednesday in the same Monday-to-Sunday week as 5 January of the year the constructor reads |
| WeekNumber.CalculateWeekNum | src/utils/calculateWeekNum.ts:1-18 | no contract; the source's steps on a time value. WeekNumFormula states what it computes, and SameWeekIff, WeekNumRange, WeekOneHoldsJanuary5, NextWeek and AgreesWithIsoIff state its properties |
| WeekdayLabels.GetL10Weekday | src/utils/getL10Weekday.ts:1-8 | seven labels; label i is the default-locale formatting of 4 + i January 2021 |
| WeekdayLabels.ReferenceWeek | src/utils/getL10Weekday.ts:4 | the reference dates are consecutive midnights, Monday 4 to Sunday 10 January 2021 |
| WeekdayLabels.LabelsMatchColumns | src/utils/getL10Weekday.ts:3-6 | label c is the weekday of every grid entry in column c |
| WeekdayLabels.ReferenceDate | src/utils/getL10Weekday.ts:4 | no contract; `new Date(2021, 0, i + 4)`. ReferenceWeek states which days these are |
| WeekPicker.Plus | src/components/SingleWeekPicker.tsx:85 | adding to the year keeps NaN as NaN and otherwise adds |
| WeekPicker.MonthSteps | src/components/SingleWeekPicker.tsx:82-96 | stepping keeps the month in 0..11, moves the month count by one, and keeps NaN as NaN |
| WeekPicker.MonthStepsRoundTrip | src/components/SingleWeekPicker.tsx:82-96 | next then last, and last then next, restore (month, year) |
| WeekPicker.NextMonthGrid | src/components/SingleWeekPicker.tsx:90-96 | after stepping forward, the grid is that of month + 1 |
| WeekPicker.LastMonthGrid | src/components/SingleWeekPicker.tsx:82-88 | after stepping back, the grid is that of month - 1 |
| WeekPicker.SingleWeekPicker.SkipToLastMonth | src/components/SingleWeekPicker.tsx:82-88 | December of the previous year from January, the previous month otherwise; nothing else changes |
| WeekPicker.SingleWeekPicker.SkipToNextMonth | src/components/SingleWeekPicker.tsx:90-96 | January of the next year from December, the next month otherwise; nothing else changes |
| WeekPicker.NatStringRoundTrip | src/components/SingleWeekPicker.tsx:138 | printing a natural number in decimal and reading it back gives the number |
| WeekPicker.DigitsValueAppend | src/components/SingleWeekPicker.tsx:138 | reading "20" followed by digits shifts 20 by the number of digits |
| WeekPicker.AdjustedYearValue | src/components/SingleWeekPicker.tsx:137-139 | years 0..9 become 200..209, years 10..99 become 2010..2099, and negative years become NaN |
| WeekPicker.AdjustedYearExamples | src/components/SingleWeekPicker.tsx:137-139 | 25 becomes 2025, 5 becomes 205, 0 becomes 200, -5 becomes NaN |
| WeekPicker.SingleWeekPicker.AdjustYear | src/components/SingleWeekPicker.tsx:137-139 | a year below 100 gets "20" written in front; any other year, or NaN, is kept |
| WeekPicker.SingleWeekPicker.ChangeYear | src/components/SingleWeekPicker.tsx:131-135 | NaN or negative input leaves the year unchanged; any other input becomes the year |
| WeekPicker.SingleWeekPicker.PrevYear | src/components/SingleWeekPicker.tsx:144-147 | a no-op at year 100 or below; otherwise subtracts one (NaN stays NaN); from year 100 or above it never reaches the two-digit years the `Date` constructor reads as 19xx (the month stepper can: from January of year 100, SkipToLastMonth shows December 1999) |
| WeekPicker.SingleWeekPicker.NextYear | src/components/SingleWeekPicker.tsx:154-156 | adds one to the year |
| WeekPicker.PartitionWeeks | src/components/SingleWeekPicker.tsx:113-119 | the rows are `slice(7k, 7k + 7)` for each k, (n + 6) / 7 of them, and they concatenate back to the dates |
| WeekPicker.FullRows | src/components/SingleWeekPicker.tsx:115-117 | a multiple of 7 dates gives length / 7 rows of exactly seven |
| WeekPicker.SingleWeekPicker.RefreshWeeks | src/components/SingleWeekPicker.tsx:113-119 | the rows become the 7-slices of the grid of the month shown (none for a NaN year) |
| WeekPicker.RowStart | src/components/SingleWeekPicker.tsx:114-117 | row r starts with grid day 7r |
| WeekPicker.WeekRowsOfGrid | src/components/SingleWeekPicker.tsx:113-119 | for a numeric year there are grid length / 7 rows, 4, 5 or 6 of them; each row holds seven grid dates in order, Monday to Sunday |
| WeekPicker.GridRowWeeksDistinct | src/components/SingleWeekPicker.tsx:185 | two rows of a grid get the same week identifier only if they are the same row |
| WeekPicker.SingleWeekPicker.SelectWeek | src/components/SingleWeekPicker.tsx:127-129 | the selection becomes the week of the date |
| WeekPicker.SingleWeekPicker.IsActiveRow | src/components/SingleWeekPicker.tsx:197 | a row is highlighted exactly when both fields of its week equal the selection |
| WeekPicker.SingleWeekPicker.SelectRow | src/components/SingleWeekPicker.tsx:196-198 | clicking a row selects the week of its first date; with current rows, that row is then the only highlighted one |
| WeekPicker.SingleWeekPicker.RefreshLabels | src/components/SingleWeekPicker.tsx:108-111 | the labels become the seven default-locale labels, whatever locale was asked for |
| WeekPicker.SingleWeekPicker.constructor | src/components/SingleWeekPicker.tsx:74-79 | the state starts at the month, year and week of the clock reading, with no rows and no labels |
| WeekPicker.SingleWeekPicker.OpenMonthSelect | src/components/SingleWeekPicker.tsx:175 | opens the month and year quick-select |
| WeekPicker.SingleWeekPicker.PickMonth | src/components/SingleWeekPicker.tsx:160-162 | sets the month shown and closes the quick-select |
| WeekPicker.StepBackFromYear100 | src/components/SingleWeekPicker.tsx:82-88 | from January of year 100 the month stepper goes to December of year 99, and the grid shown is December 1999 |
| WeekPicker.NextMonth | src/components/SingleWeekPicker.tsx:90-96 | no contract; the (month, year) that skipToNextMonth sets. MonthSteps, MonthStepsRoundTrip and NextMonthGrid state what it computes |
| WeekPicker.LastMonth | src/components/SingleWeekPicker.tsx:82-88 | no contract; the (month, year) that skipToLastMonth sets. MonthSteps, MonthStepsRoundTrip and LastMonthGrid state what it computes |
| WeekPicker.MonthIndex | src/components/SingleWeekPicker.tsx:82-96 | no contract; 12 * year + month, the month count MonthSteps moves by one |
| WeekPicker.ParseNumber | src/components/SingleWeekPicker.tsx:138 | no contract; `Number()` on a string of decimal digits, NaN otherwise. NatStringRoundTrip and AdjustedYearValue state what it gives |
| WeekPicker.DecimalString | src/components/SingleWeekPicker.tsx:138 | no contract; a year written in decimal, with '-' for a negative year. NatStringRoundTrip states that reading it back gives the number |
| WeekPicker.AdjustedYear | src/components/SingleWeekPicker.tsx:138 | no contract; `Number(\`20${currentYear}\`)`. AdjustedYearValue and AdjustedYearExamples state what it gives |
| WeekPicker.Rows | src/components/SingleWeekPicker.tsx:115-117 | (n + 6) / 7 rows, row k being dates[7k .. min(7k + 7, n)], the slices the loop pushes |
| WeekPicker.GridTimes | src/components/SingleWeekPicker.tsx:114 | for a numeric year, the midnights of CalendarDays in order; for NaN, no dates |

## Left out

- Time zones and daylight saving are not modelled: local time is taken to be UTC. Line 10 of calculateWeekNum.ts divides a millisecond difference by one day, which is exact only without a daylight-saving shift in between.
- The `Date` range limit (TimeClip) and invalid dates are not modelled, except for the NaN year of the picker. There, `getCalendarDates` gets an invalid date, its loop condition is false at once, and it returns no dates (`GridTimes`).
- Instead of an array of `Date` objects, the dates returned and stored in the rows are their time values. The source pushes fresh copies, so nothing is shared.
- `Number()` string parsing in `changeYear` is not modelled. The input arrives already parsed as an integer or NaN, so fractional years, `Infinity` and `""` (read as 0) are outside the model.
- ParseNumber: reads a non-empty run of decimal digits as a number and gives NaN for anything else. The only strings `adjustYear` builds are "20" followed by a year's digits, or by '-' and digits, and `Number()` agrees with ParseNumber on both. Whitespace, signs, exponents and fractions are not modelled.
- Weekday names depend on the locale, so `toLocaleDateString` is a function parameter. The fixed `{weekday: 'short'}` option is not passed. `navigator.language` and the clock reading `new Date()` are parameters too. Lines 74-76 of src/components/SingleWeekPicker.tsx read the clock three times; the constructor takes the three readings to be one value `now`.
- Rendering is not modelled: JSX, aria labels, month names, the today marker, `applyColor`, `generateUniqueId` and the debug effect at src/components/SingleWeekPicker.tsx:121-125.
- React schedules its effects after each render. Here each effect is a method for the caller to run when its dependencies change. `RefreshLabels` stands for the labels effect (src/components/SingleWeekPicker.tsx:108-111), which runs on mount and when `localization` changes. `RefreshWeeks` stands for the rows effect (src/components/SingleWeekPicker.tsx:113-119), which runs on mount and when `currentMonth` or `currentYear` changes.
- Which handlers exist depends on the view, and the model does not capture this: every handler method can be called in either view. In the source, SkipToLastMonth, SkipToNextMonth, SelectRow and OpenMonthSelect belong to the day view, which is shown while `selectMonth` is false (src/components/SingleWeekPicker.tsx:170-211). PrevYear, NextYear, ChangeYear, AdjustYear and PickMonth belong to the month and year quick-select, which is shown while `selectMonth` is true (src/components/SingleWeekPicker.tsx:141-169).
- SingleDatePicker.tsx, playground/app.tsx and vite.config.ts are not part of this model.
- MonthAfterDecember: excludes year 99. `new Date(99, 12)` is January 2000 while year 100 is read as it is, so the carry fails there (`CarryBreaksAtYear99`).
- MonthBeforeJanuary: excludes year 0. `new Date(0, -1)` is December 1899 while year -1 is read as it is, so the carry fails there (`CarryBreaksAtYear0`).
- NextMonthGrid: excludes year 99, for the same reason as MonthAfterDecember.
- LastMonthGrid: excludes year 0, for the same reason as MonthBeforeJanuary.
- WeekNumberIsOrdinal: requires a week-year outside 0..99. For those years, line 7 builds 5 January of 1900 + year (see WeekNumRange).
- AgreesWithIsoIff: requires a week-year outside 0..99, for the same reason.
- SelectRow: its only-highlighted-row guarantee holds when the rows are those of the month shown and the year is a number. Otherwise it states only the new selection.
