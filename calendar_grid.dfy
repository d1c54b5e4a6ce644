/** The month grid of a date picker: the consecutive days shown for one month,
    from the Monday that opens its first row to the Sunday that closes its last. */
module CalendarGrid {
  import opened Civil
  import opened JsDate

  /** `new Date(currentYear, currentDate)`: its year and month are the month the grid shows. */
  function Baseline(month: int, year: int): int {
    NewDate(year, month, 1)
  }

  /** Year and month of the days the grid is built around; the second `Date` constructor
      call maps a year 0..99 to 1900 + year once more. */
  function TargetYear(month: int, year: int): int {
    FullYear(YearOf(Baseline(month, year)))
  }

  function TargetMonth(month: int, year: int): (m: int)
    ensures 0 <= m < 12
  {
    MonthOf(Baseline(month, year))
  }

  /** Day number of the first of the target month. */
  function FirstOfMonth(month: int, year: int): int {
    MakeDay(TargetYear(month, year), TargetMonth(month, year), 1)
  }

  /** Day number of `new Date(y, m + 1, 0)`, day 0 of the following month. */
  function LastOfMonth(month: int, year: int): int {
    MakeDay(TargetYear(month, year), TargetMonth(month, year) + 1, 0)
  }

  /** Line 6: the start moved back by getDay() - 1 days unless it is a Monday.
      On a Sunday (getDay() == 0) that moves it forward one day. */
  function SnapStart(f: int): int {
    if WeekDay(f) != 1 then f - WeekDay(f) + 1 else f
  }

  /** Line 10: the end moved forward by 7 - getDay() days unless it is a Sunday. */
  function SnapEnd(l: int): int {
    if WeekDay(l) != 0 then l + 7 - WeekDay(l) else l
  }

  function GridStart(month: int, year: int): int {
    SnapStart(FirstOfMonth(month, year))
  }

  function GridEnd(month: int, year: int): int {
    SnapEnd(LastOfMonth(month, year))
  }

  /** The days lo, lo + 1, ..., hi. */
  function DayRange(lo: int, hi: int): (r: seq<int>)
    ensures |r| == if lo <= hi then hi - lo + 1 else 0
    ensures forall k :: 0 <= k < |r| ==> r[k] == lo + k
  {
    if lo <= hi then seq(hi - lo + 1, k => lo + k) else []
  }

  /** The day numbers listed by the grid of (month, year). */
  function CalendarDays(month: int, year: int): seq<int> {
    DayRange(GridStart(month, year), GridEnd(month, year))
  }

  /** The source's builder: snap a start date back to Monday and an end date forward to
      Sunday in place, then push a copy of every day between them. Each pushed `Date`
      appears here as its time value, a local midnight. */
  method GetCalendarDates(currentDate: int, currentYear: int) returns (newDates: seq<int>)
    ensures |newDates| == |CalendarDays(currentDate, currentYear)|
    ensures forall k :: 0 <= k < |newDates| ==>
              newDates[k] == CalendarDays(currentDate, currentYear)[k] * MsPerDay
  {
    hide NewDate, YearOf, MonthOf, DateOf, DayOfWeek, WithDate, GridStart, GridEnd;
    var baselineDate := new Date(currentYear, currentDate, 1);

    var calendarStart := new Date(baselineDate.GetFullYear(), baselineDate.GetMonth(), 1);
    StartSnaps(currentDate, currentYear);
    if calendarStart.GetDay() != 1 {
      calendarStart.SetDate(calendarStart.GetDate() - calendarStart.GetDay() + 1);
    }

    var calendarEnd := new Date(baselineDate.GetFullYear(), baselineDate.GetMonth() + 1, 0);
    EndSnaps(currentDate, currentYear);
    if calendarEnd.GetDay() != 0 {
      calendarEnd.SetDate(calendarEnd.GetDate() + 7 - calendarEnd.GetDay());
    }

    ghost var lo, hi := GridStart(currentDate, currentYear), GridEnd(currentDate, currentYear);
    GridBounds(currentDate, currentYear);

    newDates := [];
    var i := calendarStart;
    while i.GetTime() <= calendarEnd.GetTime()
      invariant i.time == (lo + |newDates|) * MsPerDay
      invariant calendarEnd.time == hi * MsPerDay
      invariant lo + |newDates| <= hi + 1
      invariant forall k :: 0 <= k < |newDates| ==> newDates[k] == (lo + k) * MsPerDay
      decreases hi + 1 - (lo + |newDates|)
    {
      var copy := new Date.Copy(i);
      newDates := newDates + [copy.GetTime()];
      NextMidnight(lo + |newDates| - 1);
      i.SetDate(i.GetDate() + 1);
    }
  }

  /** Lines 4-6 on time values: the first of the month, moved to its row's Monday. */
  lemma StartSnaps(month: int, year: int)
    ensures var b := Baseline(month, year);
            var s := NewDate(YearOf(b), MonthOf(b), 1);
            (if DayOfWeek(s) != 1 then WithDate(s, DateOf(s) - DayOfWeek(s) + 1) else s)
              == GridStart(month, year) * MsPerDay
  {
    hide YearOf, MonthOf, DateOf, DayOfWeek, WithDate;
    var b := Baseline(month, year);
    assert NewDate(YearOf(b), MonthOf(b), 1) == FirstOfMonth(month, year) * MsPerDay;
    SnapStartTime(FirstOfMonth(month, year));
  }

  lemma SnapStartTime(f: int)
    ensures var s := f * MsPerDay;
            (if DayOfWeek(s) != 1 then WithDate(s, DateOf(s) - DayOfWeek(s) + 1) else s)
              == SnapStart(f) * MsPerDay
  {
    hide YearOf, MonthOf, DateOf, WithDate;
    DayOfMidnight(f, 0);
    SetDateMoves(f * MsPerDay, 1 - WeekDay(f));
  }

  /** Lines 8-10 on time values: the last of the month, moved to its row's Sunday. */
  lemma EndSnaps(month: int, year: int)
    ensures var b := Baseline(month, year);
            var e := NewDate(YearOf(b), MonthOf(b) + 1, 0);
            (if DayOfWeek(e) != 0 then WithDate(e, DateOf(e) + 7 - DayOfWeek(e)) else e)
              == GridEnd(month, year) * MsPerDay
  {
    hide YearOf, MonthOf, DateOf, DayOfWeek, WithDate;
    var b := Baseline(month, year);
    assert NewDate(YearOf(b), MonthOf(b) + 1, 0) == LastOfMonth(month, year) * MsPerDay;
    SnapEndTime(LastOfMonth(month, year));
  }

  lemma SnapEndTime(l: int)
    ensures var e := l * MsPerDay;
            (if DayOfWeek(e) != 0 then WithDate(e, DateOf(e) + 7 - DayOfWeek(e)) else e)
              == SnapEnd(l) * MsPerDay
  {
    hide YearOf, MonthOf, DateOf, WithDate;
    DayOfMidnight(l, 0);
    SetDateMoves(l * MsPerDay, 7 - WeekDay(l));
  }

  /** Line 13: setDate(getDate() + 1) moves a midnight to the next one. */
  lemma NextMidnight(d: int)
    ensures WithDate(d * MsPerDay, DateOf(d * MsPerDay) + 1) == (d + 1) * MsPerDay
  {
    SetDateMoves(d * MsPerDay, 1);
  }

  // ---------------------------------------------------------------------------
  // Where the grid starts and ends

  /** The snapped start is the Monday among f - 5 .. f + 1: the Monday on or before f,
      except when f is a Sunday, where it is the Monday after. */
  lemma SnapStartWindow(f: int)
    ensures WeekDay(SnapStart(f)) == 1
    ensures f - 5 <= SnapStart(f) <= f + 1
    ensures SnapStart(f) <= f <==> WeekDay(f) != 0
  {
  }

  /** The snapped end is the Sunday on or after l. */
  lemma SnapEndWindow(l: int)
    ensures WeekDay(SnapEnd(l)) == 0
    ensures l <= SnapEnd(l) <= l + 6
  {
  }

  /** The grid around a month of n days starting on day f is 4, 5 or 6 whole weeks:
      Monday first, Sunday last, one day apart. */
  lemma {:induction false} RangeShape(f: int, n: int)
    requires 28 <= n <= 31
    ensures var r := DayRange(SnapStart(f), SnapEnd(f + n - 1));
      && |r| % 7 == 0
      && |r| in {28, 35, 42}
      && (forall k :: 0 <= k < |r| ==> WeekDay(r[k]) == (k + 1) % 7)
      && WeekDay(r[|r| - 1]) == 0
      && (forall k :: 0 <= k < |r| - 1 ==> r[k + 1] == r[k] + 1)
  {
    hide DayRange, SnapStart, SnapEnd;
    var lo, hi := SnapStart(f), SnapEnd(f + n - 1);
    SnapStartWindow(f);
    SnapEndWindow(f + n - 1);
    var a, b := (lo + 4) / 7, (hi + 4) / 7;
    assert lo + 4 == 7 * a + 1 && hi + 4 == 7 * b;
    assert 4 <= b - a <= 6;
    var r := DayRange(lo, hi);
    assert |r| == 7 * (b - a);
    forall k | 0 <= k < |r| ensures WeekDay(r[k]) == (k + 1) % 7 {
      assert r[k] == (k - 3) + 7 * a;
      WeekDayShift(k - 3, a);
    }
  }

  /** The last day of the month is DaysInMonth - 1 days after the first. */
  lemma MonthSpan(month: int, year: int)
    ensures LastOfMonth(month, year) ==
            FirstOfMonth(month, year) + DaysInMonth(TargetYear(month, year), TargetMonth(month, year)) - 1
  {
    var y, m := TargetYear(month, year), TargetMonth(month, year);
    hide YearOf, MonthOf;
    MonthEnd(y, m);
    assert m / 12 == 0 && m % 12 == m;
  }

  /** The grid starts on a Monday no more than 5 days before the first of the month; when the
      first is a Sunday, it starts on Monday the 2nd and the 1st is not shown. */
  lemma GridStartIsMonday(month: int, year: int)
    ensures WeekDay(GridStart(month, year)) == 1
    ensures FirstOfMonth(month, year) - 5 <= GridStart(month, year) <= FirstOfMonth(month, year) + 1
    ensures GridStart(month, year) <= FirstOfMonth(month, year) <==> WeekDay(FirstOfMonth(month, year)) != 0
  {
    SnapStartWindow(FirstOfMonth(month, year));
  }

  /** The grid ends on the Sunday on or after the last day of the month, at most 6 days later. */
  lemma GridEndIsSunday(month: int, year: int)
    ensures WeekDay(GridEnd(month, year)) == 0
    ensures LastOfMonth(month, year) <= GridEnd(month, year) <= LastOfMonth(month, year) + 6
  {
    SnapEndWindow(LastOfMonth(month, year));
  }

  lemma GridBounds(month: int, year: int)
    ensures GridStart(month, year) + 26 <= GridEnd(month, year)
  {
    var f, n := FirstOfMonth(month, year), DaysInMonth(TargetYear(month, year), TargetMonth(month, year));
    MonthSpan(month, year);
    SnapStartWindow(f);
    SnapEndWindow(f + n - 1);
  }

  /** The grid of a month is the range between its snapped first and last days. */
  lemma GridOfMonth(month: int, year: int)
    ensures CalendarDays(month, year) ==
            DayRange(SnapStart(FirstOfMonth(month, year)),
                     SnapEnd(FirstOfMonth(month, year) + DaysInMonth(TargetYear(month, year), TargetMonth(month, year)) - 1))
  {
    MonthSpan(month, year);
  }

  /** The grid is 4, 5 or 6 whole weeks: Monday first, Sunday last, one day apart. */
  lemma GridShape(month: int, year: int)
    ensures |CalendarDays(month, year)| % 7 == 0
    ensures |CalendarDays(month, year)| in {28, 35, 42}
    ensures WeekDay(CalendarDays(month, year)[0]) == 1
    ensures WeekDay(CalendarDays(month, year)[|CalendarDays(month, year)| - 1]) == 0
    ensures forall k :: 0 <= k < |CalendarDays(month, year)| - 1 ==>
              CalendarDays(month, year)[k + 1] == CalendarDays(month, year)[k] + 1
  {
    hide *;
    GridOfMonth(month, year);
    RangeShape(FirstOfMonth(month, year), DaysInMonth(TargetYear(month, year), TargetMonth(month, year)));
  }

  /** Column c of the grid (0 = first) holds weekday c + 1 modulo 7: Monday first. */
  lemma GridColumns(month: int, year: int, k: int)
    requires 0 <= k < |CalendarDays(month, year)|
    ensures WeekDay(CalendarDays(month, year)[k]) == (k + 1) % 7
  {
    hide *;
    GridOfMonth(month, year);
    RangeShape(FirstOfMonth(month, year), DaysInMonth(TargetYear(month, year), TargetMonth(month, year)));
  }

  /** Which days of the target month the grid lists: every day from the 2nd to the last,
      and the 1st exactly when it is not a Sunday. */
  lemma MonthDaysInGrid(month: int, year: int, dt: int)
    requires 1 <= dt <= DaysInMonth(TargetYear(month, year), TargetMonth(month, year))
    ensures FirstOfMonth(month, year) + dt - 1 in CalendarDays(month, year)
            <==> dt != 1 || WeekDay(FirstOfMonth(month, year)) != 0
  {
    hide YearOf, MonthOf, MakeDay, FirstOfMonth, LastOfMonth, TargetYear, TargetMonth, SnapStart, SnapEnd, WeekDay;
    var f, n := FirstOfMonth(month, year), DaysInMonth(TargetYear(month, year), TargetMonth(month, year));
    var lo, hi := GridStart(month, year), GridEnd(month, year);
    MonthSpan(month, year);
    SnapStartWindow(f);
    SnapEndWindow(f + n - 1);
    var g := DayRange(lo, hi);
    if dt != 1 || WeekDay(f) != 0 {
      assert g[f + dt - 1 - lo] == f + dt - 1;
    }
  }

  /** Every grid day lies within 5 days before the first and 6 days after the last of the month. */
  lemma GridWithinOverflow(month: int, year: int, k: int)
    requires 0 <= k < |CalendarDays(month, year)|
    ensures FirstOfMonth(month, year) - 5 <= CalendarDays(month, year)[k] <= LastOfMonth(month, year) + 6
  {
    GridStartIsMonday(month, year);
    GridEndIsSunday(month, year);
  }

  // ---------------------------------------------------------------------------
  // Which month is shown

  /** The `Date` constructor carries the month into the year, after mapping a year 0..99 to
      1900 + year; the second constructor call then maps the carried year once more. */
  lemma TargetOf(month: int, year: int)
    ensures TargetYear(month, year) == FullYear(FullYear(year) + month / 12)
    ensures TargetMonth(month, year) == month % 12
    ensures FirstOfMonth(month, year) == MakeDay(FullYear(FullYear(year) + month / 12), month % 12, 1)
  {
    var y, m := FullYear(year) + month / 12, month % 12;
    var d := MakeDay(FullYear(year), month, 1);
    MakeDayCarry(FullYear(year), month, 1);
    assert d == MakeDay(y, m, 1);
    DayOfMidnight(d, 0);
    assert Day(Baseline(month, year)) == d;
    PartsOfMakeDay(y, m, 1);
    assert YearOf(Baseline(month, year)) == y;
    assert MonthOf(Baseline(month, year)) == m;
  }

  /** Outside the two-digit years, the grid shows month `month % 12` of year `year + month / 12`. */
  lemma TargetOfFourDigitYear(month: int, year: int)
    requires !(0 <= year <= 99) && !(0 <= year + month / 12 <= 99)
    ensures TargetYear(month, year) == year + month / 12
    ensures TargetMonth(month, year) == month % 12
  {
    TargetOf(month, year);
  }

  /** Month 12 is January of the next year, for every year but 99 (new Date(99, 12) is
      January 2000, whereas year 100 is left alone). */
  lemma MonthAfterDecember(year: int)
    requires year != 99
    ensures CalendarDays(12, year) == CalendarDays(0, year + 1)
  {
    TargetOf(12, year);
    TargetOf(0, year + 1);
    hide YearOf, MonthOf, MakeDay, CalendarDays;
    SameTarget(12, year, 0, year + 1);
  }

  /** Month -1 is December of the previous year, for every year but 0 (new Date(0, -1) is
      December 1899, whereas year -1 is left alone). */
  lemma MonthBeforeJanuary(year: int)
    requires year != 0
    ensures CalendarDays(-1, year) == CalendarDays(11, year - 1)
  {
    TargetOf(-1, year);
    TargetOf(11, year - 1);
    PreviousFullYear(year);
    hide YearOf, MonthOf, MakeDay, CalendarDays;
    SameTarget(-1, year, 11, year - 1);
  }

  lemma PreviousFullYear(year: int)
    requires year != 0
    ensures FullYear(FullYear(year) + (-1) / 12) == FullYear(FullYear(year - 1) + 11 / 12)
    ensures (-1) % 12 == 11 % 12
  {
  }

  /** The grid depends on (month, year) only through the target month. */
  lemma SameTarget(m1: int, y1: int, m2: int, y2: int)
    requires TargetYear(m1, y1) == TargetYear(m2, y2) && TargetMonth(m1, y1) == TargetMonth(m2, y2)
    ensures CalendarDays(m1, y1) == CalendarDays(m2, y2)
  {
    assert FirstOfMonth(m1, y1) == FirstOfMonth(m2, y2);
    assert LastOfMonth(m1, y1) == LastOfMonth(m2, y2);
    assert GridStart(m1, y1) == GridStart(m2, y2);
    assert GridEnd(m1, y1) == GridEnd(m2, y2);
  }

  /** The grid of a month whose target is known. */
  lemma GridOfTarget(month: int, year: int, y: int, m: int)
    requires TargetYear(month, year) == y && TargetMonth(month, year) == m
    ensures 0 <= m < 12
    ensures CalendarDays(month, year) == DayRange(SnapStart(MakeDay(y, m, 1)), SnapEnd(MakeDay(y, m, 1) + DaysInMonth(y, m) - 1))
  {
    GridOfMonth(month, year);
  }

  /** Two consecutive years around 99/100 give different grids: month 12 of year 99 is
      January 2000 while month 0 of year 100 is January of year 100. */
  lemma CarryBreaksAtYear99()
    ensures CalendarDays(12, 99) != CalendarDays(0, 100)
  {
    TargetOfYear99();
    TargetOfYear100();
    FirstOfJanuary2000();
    FirstOfJanuary100();
    hide *;
    GridStartOf(12, 99, 2000, 0);
    GridStartOf(0, 100, 100, 0);
  }

  lemma TargetOfYear99()
    ensures TargetYear(12, 99) == 2000 && TargetMonth(12, 99) == 0
  {
    TargetOf(12, 99);
    hide *;
  }

  lemma TargetOfYear100()
    ensures TargetYear(0, 100) == 100 && TargetMonth(0, 100) == 0
  {
    TargetOf(0, 100);
    hide *;
  }

  lemma FirstOfJanuary2000()
    ensures MakeDay(2000, 0, 1) == 10957
  {
  }

  lemma FirstOfJanuary100()
    ensures MakeDay(100, 0, 1) == -683003
  {
  }

  /** Month -1 of year 0 is December 1899, since the constructor reads year 0 as 1900,
      while month 11 of year -1 is December of year -1: the carry into year 0 breaks too. */
  lemma CarryBreaksAtYear0()
    ensures CalendarDays(-1, 0) != CalendarDays(11, -1)
  {
    TargetOfYear0();
    TargetOfYearMinus1();
    FirstOfDecember1899();
    FirstOfDecemberMinus1();
    hide *;
    GridStartOf(-1, 0, 1899, 11);
    GridStartOf(11, -1, -1, 11);
  }

  lemma TargetOfYear0()
    ensures TargetYear(-1, 0) == 1899 && TargetMonth(-1, 0) == 11
  {
    TargetOf(-1, 0);
    hide *;
  }

  lemma TargetOfYearMinus1()
    ensures TargetYear(11, -1) == -1 && TargetMonth(11, -1) == 11
  {
    TargetOf(11, -1);
    hide *;
  }

  lemma FirstOfDecember1899()
    ensures MakeDay(1899, 11, 1) == -25598
  {
  }

  lemma FirstOfDecemberMinus1()
    ensures MakeDay(-1, 11, 1) == -719559
  {
  }

  /** The grid is never empty and starts near the first of its target month. */
  lemma GridStartOf(month: int, year: int, y: int, m: int)
    requires TargetYear(month, year) == y && TargetMonth(month, year) == m
    ensures |CalendarDays(month, year)| > 0
    ensures MakeDay(y, m, 1) - 5 <= CalendarDays(month, year)[0] <= MakeDay(y, m, 1) + 1
  {
    GridBounds(month, year);
    GridStartIsMonday(month, year);
  }

  // ---------------------------------------------------------------------------
  // Worked examples

  /** In a four-digit year, month m of 0..11 is shown as itself. */
  lemma TargetOf2025(m: int)
    requires 0 <= m < 12
    ensures TargetYear(m, 2025) == 2025 && TargetMonth(m, 2025) == m
  {
    TargetOf(m, 2025);
  }

  /** June 2025 begins on a Sunday, so its grid runs from Monday 2 June to Sunday 6 July. */
  lemma June2025()
    ensures |CalendarDays(5, 2025)| == 35
    ensures CalendarDays(5, 2025)[0] == MakeDay(2025, 5, 2)
    ensures CalendarDays(5, 2025)[34] == MakeDay(2025, 6, 6)
    ensures MakeDay(2025, 5, 1) !in CalendarDays(5, 2025)
  {
    June2025Days();
    TargetOf2025(5);
    hide *;
    GridOfTarget(5, 2025, 2025, 5);
  }

  lemma June2025Days()
    ensures MakeDay(2025, 5, 1) == 20240 && DaysInMonth(2025, 5) == 30
    ensures SnapStart(20240) == 20241 && SnapEnd(20269) == 20275
    ensures MakeDay(2025, 5, 2) == 20241 && MakeDay(2025, 6, 6) == 20275
  {
    assert DayFromYear(2025) == 20089;
    assert DaysBeforeMonth(2025, 5) == 151 && DaysBeforeMonth(2025, 6) == 181;
    hide DayFromYear, DaysBeforeMonth;
  }

  /** January 2025 begins on a Wednesday: its grid runs from Monday 30 December 2024
      to Sunday 2 February 2025. */
  lemma January2025()
    ensures |CalendarDays(0, 2025)| == 35
    ensures CalendarDays(0, 2025)[0] == MakeDay(2024, 11, 30)
    ensures CalendarDays(0, 2025)[34] == MakeDay(2025, 1, 2)
  {
    January2025Days();
    TargetOf2025(0);
    hide *;
    GridOfTarget(0, 2025, 2025, 0);
  }

  lemma January2025Days()
    ensures MakeDay(2025, 0, 1) == 20089 && DaysInMonth(2025, 0) == 31
    ensures SnapStart(20089) == 20087 && SnapEnd(20119) == 20121
    ensures MakeDay(2024, 11, 30) == 20087 && MakeDay(2025, 1, 2) == 20121
  {
    assert DayFromYear(2024) == 19723 && DayFromYear(2025) == 20089;
    hide DayFromYear;
  }
}
