/** The part of ECMAScript's `Date` that the calendar code uses, on integer
    time values (milliseconds since 1970-01-01T00:00). Local time is taken to be
    UTC: there is no time-zone offset and no daylight-saving shift. */
module JsDate {
  import opened Civil

  const MsPerDay: int := 86400000

  /** `Day` of ECMA-262: the day number of a time value (floor division). */
  function Day(t: int): int {
    t / MsPerDay
  }

  /** `TimeWithinDay` of ECMA-262: milliseconds since that day's midnight. */
  function TimeWithinDay(t: int): (ms: int)
    ensures 0 <= ms < MsPerDay
  {
    t % MsPerDay
  }

  /** The `Date` constructor maps a year 0..99 to 1900 + year. */
  function FullYear(year: int): (y: int)
    ensures 0 <= year <= 99 ==> y == 1900 + year
    ensures !(0 <= year <= 99) ==> y == year
  {
    if 0 <= year <= 99 then 1900 + year else year
  }

  /** `new Date(year, month, date)`: local midnight of that day, with month and date carried. */
  function NewDate(year: int, month: int, date: int): int {
    MakeDay(FullYear(year), month, date) * MsPerDay
  }

  /** `getDay()`, `getDate()`, `getMonth()` and `getFullYear()` of a time value. */
  function DayOfWeek(t: int): int { WeekDay(Day(t)) }
  function DateOf(t: int): int { DateFromDay(Day(t)) }
  function MonthOf(t: int): (m: int) ensures 0 <= m < 12 { MonthFromDay(Day(t)) }
  function YearOf(t: int): int { YearFromDay(Day(t)) }

  /** `setDate(date)`: same year, month and time of day, with the day of the month
      replaced (and carried when outside the month). */
  function WithDate(t: int, date: int): int {
    MakeDay(YearOf(t), MonthOf(t), date) * MsPerDay + TimeWithinDay(t)
  }

  /** `setHours(0, 0, 0, 0)`: midnight of the same day. */
  function SetHoursZero(t: int): int {
    Day(t) * MsPerDay
  }

  lemma DayOfMidnight(d: int, ms: int)
    requires 0 <= ms < MsPerDay
    ensures Day(d * MsPerDay + ms) == d
    ensures TimeWithinDay(d * MsPerDay + ms) == ms
  {
  }

  /** `new Date(year, month, date)` is a local midnight, of the day MakeDay names. */
  lemma NewDateMidnight(year: int, month: int, date: int)
    ensures Day(NewDate(year, month, date)) == MakeDay(FullYear(year), month, date)
    ensures TimeWithinDay(NewDate(year, month, date)) == 0
  {
    DayOfMidnight(MakeDay(FullYear(year), month, date), 0);
  }

  /** Adding k days' worth of milliseconds moves the day number by k. */
  lemma DayShift(t: int, k: int)
    ensures Day(t + k * MsPerDay) == Day(t) + k
  {
    DayOfMidnight(Day(t) + k, TimeWithinDay(t));
  }

  /** Setting the day of the month to the current one plus k moves the date k whole days. */
  lemma SetDateMoves(t: int, k: int)
    ensures WithDate(t, DateOf(t) + k) == t + k * MsPerDay
  {
    MakeDayOfParts(Day(t));
    MakeDayShift(YearOf(t), MonthOf(t), DateOf(t), k);
  }

  lemma ForgetsTimeOfDay(t: int)
    ensures SetHoursZero(t) <= t < SetHoursZero(t) + MsPerDay
    ensures Day(SetHoursZero(t)) == Day(t) && TimeWithinDay(SetHoursZero(t)) == 0
  {
    DayOfMidnight(Day(t), 0);
  }

  /** A `Date` object: a mutable time value. */
  class Date {
    var time: int

    /** `new Date(year, month, date)` */
    constructor (year: int, month: int, date: int)
      ensures time == NewDate(year, month, date)
    {
      time := NewDate(year, month, date);
    }

    /** `new Date(other)`: an independent copy. */
    constructor Copy(other: Date)
      ensures time == other.time
    {
      time := other.time;
    }

    function GetTime(): int reads this { time }
    function GetDay(): int reads this { DayOfWeek(time) }
    function GetDate(): int reads this { DateOf(time) }
    function GetMonth(): int reads this { MonthOf(time) }
    function GetFullYear(): int reads this { YearOf(time) }

    method SetDate(date: int)
      modifies this
      ensures time == WithDate(old(time), date)
    {
      time := WithDate(time, date);
    }
  }
}
