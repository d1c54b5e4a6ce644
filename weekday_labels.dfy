/** `getL10Weekday`: the seven short weekday names shown above the grid's columns, read off
    the dates 4 to 10 January 2021. Locale formatting is outside the model: it is the
    parameter `toLocaleDateString`, given the requested locale (None for `undefined`, the
    runtime's default) and the time value to format. */
module WeekdayLabels {
  import opened Civil
  import opened JsDate
  import opened CalendarGrid

  datatype Option<T> = None | Some(value: T)

  /** Line 4: the date formatted for label i. */
  function ReferenceDate(i: int): int {
    NewDate(2021, 0, i + 4)
  }

  method GetL10Weekday(toLocaleDateString: (Option<string>, int) -> string) returns (newL10nDays: seq<string>)
    ensures |newL10nDays| == 7
    ensures forall i :: 0 <= i < 7 ==> newL10nDays[i] == toLocaleDateString(None, ReferenceDate(i))
  {
    newL10nDays := [];
    for i := 0 to 7
      invariant |newL10nDays| == i
      invariant forall j :: 0 <= j < i ==> newL10nDays[j] == toLocaleDateString(None, ReferenceDate(j))
    {
      var date := new Date(2021, 0, i + 4);
      newL10nDays := newL10nDays + [toLocaleDateString(None, date.GetTime())];
    }
  }

  /** The reference dates are seven consecutive midnights from Monday 4 January 2021 to
      Sunday 10 January 2021: label i names weekday (i + 1) % 7. */
  lemma ReferenceWeek(i: int)
    requires 0 <= i < 7
    ensures Day(ReferenceDate(i)) == MakeDay(2021, 0, 4) + i
    ensures TimeWithinDay(ReferenceDate(i)) == 0
    ensures DayOfWeek(ReferenceDate(i)) == (i + 1) % 7
  {
    hide MakeDay;
    NewDateMidnight(2021, 0, i + 4);
    MakeDayShift(2021, 0, 4, i);
    January4th2021();
  }

  lemma January4th2021()
    ensures MakeDay(2021, 0, 4) == 18631 && WeekDay(18631) == 1
  {
  }

  /** Label c names the weekday of every day in column c of a month grid. */
  lemma LabelsMatchColumns(month: int, year: int, k: int)
    requires 0 <= k < |CalendarDays(month, year)|
    ensures DayOfWeek(ReferenceDate(k % 7)) == WeekDay(CalendarDays(month, year)[k])
  {
    hide CalendarDays, ReferenceDate;
    ReferenceWeek(k % 7);
    GridColumns(month, year, k);
  }
}
