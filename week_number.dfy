/** `calculateWeekNum`: the week-year and week number of a date. Each Monday-to-Sunday week
    is named after its Wednesday: the week-year is the year of that Wednesday, and week 1 is
    the week holding 5 January, whose Wednesday is the first Wednesday of the year. */
module WeekNumber {
  import opened Civil
  import opened JsDate

  datatype WeekId = WeekId(weekYear: int, weekNum: int)

  /** `getDay() || 7`: the weekday numbered 1 (Monday) to 7 (Sunday). */
  function IsoWeekday(wd: int): int {
    if wd == 0 then 7 else wd
  }

  /** The Wednesday of the Monday-to-Sunday week of day d. */
  function Wednesday(d: int): (w: int)
    ensures WeekDay(w) == 3
    ensures w - 2 <= d <= w + 4
  {
    d + 3 - IsoWeekday(WeekDay(d))
  }

  /** A week has only one Wednesday. */
  lemma WednesdayOfWeek(d: int, w: int)
    requires WeekDay(w) == 3 && w - 2 <= d <= w + 4
    ensures Wednesday(d) == w
  {
  }

  /** `Math.ceil(n / k)`: the least q with n <= q * k. */
  function CeilDiv(n: int, k: int): (q: int)
    requires k > 0
    ensures (q - 1) * k < n <= q * k
  {
    (n + k - 1) / k
  }

  /** Line 5 (and line 8): `setDate(getDate() + 3 - (getDay() || 7))`. */
  function AnchorOnWednesday(t: int): int {
    WithDate(t, DateOf(t) + 3 - IsoWeekday(DayOfWeek(t)))
  }

  /** The source function on a time value: copy, truncate to midnight, move to the week's
      Wednesday, then count whole weeks from the Wednesday of the week of 5 January. */
  function CalculateWeekNum(date: int): WeekId {
    var tempDate := AnchorOnWednesday(SetHoursZero(date));
    var firstFriday := AnchorOnWednesday(NewDate(YearOf(tempDate), 0, 5));
    var diffInDays := (tempDate - firstFriday) / MsPerDay;
    WeekId(YearOf(tempDate), CeilDiv(diffInDays + 1, 7))
  }

  /** Day number of the source's `firstFriday` once moved (line 8): the Wednesday of the
      week of 5 January, in the year `new Date(y, 0, 5)` picks. */
  function FirstWednesday(y: int): (w: int)
    ensures WeekDay(w) == 3
    ensures w - 2 <= MakeDay(FullYear(y), 0, 5) <= w + 4
  {
    Wednesday(MakeDay(FullYear(y), 0, 5))
  }

  lemma AnchorOfMidnight(d: int)
    ensures AnchorOnWednesday(d * MsPerDay) == Wednesday(d) * MsPerDay
  {
    hide YearOf, MonthOf, DateOf, WithDate, Wednesday;
    DayOfMidnight(d, 0);
    SetDateMoves(d * MsPerDay, 3 - IsoWeekday(WeekDay(d)));
  }

  /** Lines 2-5: the copy of the date, moved to midnight of its week's Wednesday. */
  lemma TempDateOf(date: int)
    ensures AnchorOnWednesday(SetHoursZero(date)) == Wednesday(Day(date)) * MsPerDay
    ensures YearOf(Wednesday(Day(date)) * MsPerDay) == YearFromDay(Wednesday(Day(date)))
  {
    hide YearFromDay, Wednesday, AnchorOnWednesday;
    AnchorOfMidnight(Day(date));
    DayOfMidnight(Wednesday(Day(date)), 0);
  }

  /** Lines 7-8: `firstFriday`, moved to midnight of its week's Wednesday. */
  lemma FirstFridayOf(y: int)
    ensures AnchorOnWednesday(NewDate(y, 0, 5)) == FirstWednesday(y) * MsPerDay
  {
    AnchorOfMidnight(MakeDay(FullYear(y), 0, 5));
  }

  /** The result in day numbers: the year of the date's Wednesday, and one more than the
      number of whole weeks from that year's first Wednesday. */
  lemma WeekNumFormula(date: int)
    ensures var w := Wednesday(Day(date));
            var y := YearFromDay(w);
            CalculateWeekNum(date) == WeekId(y, (w - FirstWednesday(y)) / 7 + 1)
  {
    var w := Wednesday(Day(date));
    var y := YearFromDay(w);
    TempDateOf(date);
    FirstFridayOf(y);
    hide AnchorOnWednesday, SetHoursZero, YearOf, NewDate, Wednesday, FirstWednesday, YearFromDay;
    var diff := w - FirstWednesday(y);
    assert w * MsPerDay - FirstWednesday(y) * MsPerDay == diff * MsPerDay;
  }

  // ---------------------------------------------------------------------------
  // Week 1 and the range of week numbers

  /** Two days on the same weekday are a whole number of weeks apart. */
  lemma WeeksApart(a: int, b: int)
    requires WeekDay(a) == WeekDay(b)
    ensures a - b == 7 * ((a - b) / 7)
  {
    assert a + 4 == 7 * ((a + 4) / 7) + WeekDay(a);
    assert b + 4 == 7 * ((b + 4) / 7) + WeekDay(b);
  }

  lemma JanuaryFifth(y: int)
    ensures MakeDay(y, 0, 5) == DayFromYear(y) + 4
  {
  }

  /** Outside the two-digit years the first Wednesday lies in 1..7 January, and its week
      holds 5 January. */
  lemma FirstWednesdayWindow(y: int)
    requires !(0 <= y <= 99)
    ensures DayFromYear(y) <= FirstWednesday(y) <= DayFromYear(y) + 6
    ensures FirstWednesday(y) - 2 <= MakeDay(y, 0, 5) <= FirstWednesday(y) + 4
  {
    JanuaryFifth(y);
    hide MakeDay, FirstWednesday;
  }

  /** Outside the two-digit week-years the week number counts weeks from 1 January: it is
      one more than the whole weeks between 1 January and the Wednesday. */
  lemma WeekNumberIsOrdinal(date: int)
    requires !(0 <= CalculateWeekNum(date).weekYear <= 99)
    ensures CalculateWeekNum(date).weekNum ==
            (Wednesday(Day(date)) - DayFromYear(CalculateWeekNum(date).weekYear)) / 7 + 1
  {
    hide CalculateWeekNum, Wednesday, FirstWednesday, YearFromDay, MakeDay, DayFromYear;
    WeekNumFormula(date);
    var w := Wednesday(Day(date));
    var y := YearFromDay(w);
    FirstWednesdayWindow(y);
    WeeksApart(w, FirstWednesday(y));
  }

  /** The week number lies in 1..53 exactly when the week-year is not a two-digit year;
      for those, line 7 builds 5 January of 1900 + year and the count goes far below 1. */
  lemma WeekNumRange(date: int)
    ensures 1 <= CalculateWeekNum(date).weekNum <= 53 <==> !(0 <= CalculateWeekNum(date).weekYear <= 99)
  {
    hide CalculateWeekNum, Wednesday, FirstWednesday, YearFromDay, MakeDay, DayFromYear;
    WeekNumFormula(date);
    var w := Wednesday(Day(date));
    var y := YearFromDay(w);
    DayFromYearStep(y);
    if 0 <= y <= 99 {
      JanuaryFifth(1900 + y);
      DayFromYearGrowth(y + 1, 1900 + y);
    } else {
      WeekNumberIsOrdinal(date);
    }
  }

  /** Line 7: 5 January of a year is in week 1 of that year; a year 0..99 is read by the
      constructor as 1900 + year, so its 5 January is in week 1 of 19xx. */
  lemma WeekOneHoldsJanuary5(y: int)
    ensures CalculateWeekNum(NewDate(y, 0, 5)) == WeekId(FullYear(y), 1)
  {
    assert NewDate(FullYear(y), 0, 5) == NewDate(y, 0, 5);
    JanuaryFifthInWeekOne(FullYear(y));
  }

  lemma JanuaryFifthInWeekOne(y: int)
    requires !(0 <= y <= 99)
    ensures CalculateWeekNum(NewDate(y, 0, 5)) == WeekId(y, 1)
  {
    hide CalculateWeekNum, FirstWednesday, YearFromDay, MakeDay, DayFromYear, NewDate;
    var j := MakeDay(y, 0, 5);
    NewDateMidnight(y, 0, 5);
    FirstWednesdayWindow(y);
    WednesdayOfWeek(j, FirstWednesday(y));
    DayFromYearStep(y);
    YearFromDayUnique(FirstWednesday(y), y);
    WeekNumFormula(NewDate(y, 0, 5));
  }

  // ---------------------------------------------------------------------------
  // Weeks

  /** Two dates get the same result exactly when they lie in the same Monday-to-Sunday week. */
  lemma SameWeekIff(t1: int, t2: int)
    ensures CalculateWeekNum(t1) == CalculateWeekNum(t2) <==> Wednesday(Day(t1)) == Wednesday(Day(t2))
  {
    hide CalculateWeekNum, Wednesday, YearFromDay, FirstWednesday;
    WeekNumFormula(t1);
    WeekNumFormula(t2);
    var w1, w2 := Wednesday(Day(t1)), Wednesday(Day(t2));
    var y1, y2 := YearFromDay(w1), YearFromDay(w2);
    if y1 == y2 {
      WeeksApart(w1, FirstWednesday(y1));
      WeeksApart(w2, FirstWednesday(y1));
    }
  }

  /** All seven days from a Monday to the following Sunday get the Monday's result. */
  lemma WholeWeek(monday: int, k: int)
    requires WeekDay(monday) == 1 && 0 <= k < 7
    ensures CalculateWeekNum((monday + k) * MsPerDay) == CalculateWeekNum(monday * MsPerDay)
  {
    hide CalculateWeekNum, Wednesday;
    DayOfMidnight(monday + k, 0);
    DayOfMidnight(monday, 0);
    WednesdayOfWeek(monday + k, monday + 2);
    WednesdayOfWeek(monday, monday + 2);
    SameWeekIff((monday + k) * MsPerDay, monday * MsPerDay);
  }

  /** The date seven days later, when still in the same week-year, is in the next week. */
  lemma NextWeek(date: int)
    requires CalculateWeekNum(date + 7 * MsPerDay).weekYear == CalculateWeekNum(date).weekYear
    ensures CalculateWeekNum(date + 7 * MsPerDay).weekNum == CalculateWeekNum(date).weekNum + 1
  {
    hide CalculateWeekNum, YearFromDay, FirstWednesday;
    var d := Day(date);
    DayShift(date, 7);
    WeekDayShift(d, 1);
    assert Wednesday(d + 7) == Wednesday(d) + 7;
    WeekNumFormula(date);
    WeekNumFormula(date + 7 * MsPerDay);
  }

  /** Only the calendar day matters, not the time of day. */
  lemma DependsOnlyOnDay(t1: int, t2: int)
    requires Day(t1) == Day(t2)
    ensures CalculateWeekNum(t1) == CalculateWeekNum(t2)
  {
    hide CalculateWeekNum;
    SameWeekIff(t1, t2);
  }

  // ---------------------------------------------------------------------------
  // Comparison with ISO 8601

  /** The ISO 8601 week of day d (section 2.2.10 of ISO 8601:2004): weeks also run Monday to
      Sunday, but the week-year is the year of the week's Thursday, and week 1 is the week of
      the year's first Thursday. */
  function IsoWeekOf(d: int): (r: WeekId)
    ensures 1 <= r.weekNum <= 53
  {
    var thursday := Wednesday(d) + 1;
    var y := YearFromDay(thursday);
    DayFromYearStep(y);
    WeekId(y, (thursday - DayFromYear(y)) / 7 + 1)
  }

  /** Counting whole weeks from day a to a Wednesday w, or to the Thursday after it, differs
      exactly when a is a Thursday. */
  lemma WeeksToThursday(w: int, a: int)
    requires WeekDay(w) == 3 && a <= w
    ensures (w - a) / 7 == (w + 1 - a) / 7 <==> WeekDay(a) != 4
  {
    assert a + 4 == 7 * ((a + 4) / 7) + WeekDay(a);
    assert w + 4 == 7 * ((w + 4) / 7) + 3;
  }

  /** On day numbers: the Wednesday-anchored week of a Wednesday w in year y equals the ISO
      week exactly when the ISO week-year does not begin on a Thursday. */
  lemma WednesdayAgainstThursday(w: int, y: int)
    requires WeekDay(w) == 3 && DayFromYear(y) <= w < DayFromYear(y + 1)
    ensures var yt := YearFromDay(w + 1);
            WeekId(y, (w - DayFromYear(y)) / 7 + 1) == WeekId(yt, (w + 1 - DayFromYear(yt)) / 7 + 1)
            <==> WeekDay(DayFromYear(yt)) != 4
  {
    hide YearFromDay, DayFromYear;
    if w + 1 < DayFromYear(y + 1) {
      YearFromDayUnique(w + 1, y);
      WeeksToThursday(w, DayFromYear(y));
    } else {
      DayFromYearStep(y + 1);
      YearFromDayUnique(w + 1, y + 1);
    }
  }

  /** The source's result equals the ISO 8601 week except in the weeks of week-years that
      begin on a Thursday (such as 2009, 2015 and 2026), where the source numbers every week
      of the year one lower or moves it into the previous year. */
  lemma AgreesWithIsoIff(date: int)
    requires !(0 <= CalculateWeekNum(date).weekYear <= 99)
    ensures CalculateWeekNum(date) == IsoWeekOf(Day(date))
            <==> WeekDay(DayFromYear(IsoWeekOf(Day(date)).weekYear)) != 4
  {
    hide CalculateWeekNum, YearFromDay, Wednesday, DayFromYear, FirstWednesday;
    WeekNumFormula(date);
    WeekNumberIsOrdinal(date);
    var w := Wednesday(Day(date));
    WednesdayAgainstThursday(w, YearFromDay(w));
  }

  // ---------------------------------------------------------------------------
  // Worked examples

  /** The result for midnight of day d, given its Wednesday w, the week-year y and
      y's first Wednesday f. */
  lemma WeekOfMidnight(d: int, w: int, y: int, f: int)
    requires Wednesday(d) == w && DayFromYear(y) <= w < DayFromYear(y + 1) && FirstWednesday(y) == f
    ensures CalculateWeekNum(d * MsPerDay) == WeekId(y, (w - f) / 7 + 1)
  {
    hide CalculateWeekNum, Wednesday, FirstWednesday, DayFromYear;
    DayOfMidnight(d, 0);
    YearFromDayUnique(w, y);
    WeekNumFormula(d * MsPerDay);
  }

  /** Monday 1 January 2024 opens week 1 of 2024. */
  lemma January1st2024()
    ensures CalculateWeekNum(NewDate(2024, 0, 1)) == WeekId(2024, 1)
  {
    hide CalculateWeekNum, YearFromDay;
    assert DayFromYear(2024) == 19723 && DayFromYear(2025) == 20089;
    hide DayFromYear;
    assert NewDate(2024, 0, 1) == 19723 * MsPerDay;
    assert FirstWednesday(2024) == 19725;
    WeekOfMidnight(19723, 19725, 2024, 19725);
  }

  /** Sunday 1 January 2023 closes week 52 of 2022. */
  lemma January1st2023()
    ensures CalculateWeekNum(NewDate(2023, 0, 1)) == WeekId(2022, 52)
  {
    hide CalculateWeekNum, YearFromDay;
    assert DayFromYear(2022) == 18993 && DayFromYear(2023) == 19358;
    hide DayFromYear;
    assert NewDate(2023, 0, 1) == 19358 * MsPerDay;
    assert FirstWednesday(2022) == 18997;
    WeekOfMidnight(19358, 19354, 2022, 18997);
  }

  /** Thursday 31 December 2020 is in week 53 of 2020. */
  lemma December31st2020()
    ensures CalculateWeekNum(NewDate(2020, 11, 31)) == WeekId(2020, 53)
  {
    hide CalculateWeekNum, YearFromDay;
    assert DayFromYear(2020) == 18262 && DayFromYear(2021) == 18628;
    hide DayFromYear;
    assert DaysBeforeMonth(2020, 11) == 335;
    assert MakeDay(2020, 11, 31) == 18627;
    assert NewDate(2020, 11, 31) == 18627 * MsPerDay;
    assert FirstWednesday(2020) == 18262;
    WeekOfMidnight(18627, 18626, 2020, 18262);
  }

  /** Thursday 1 January 2015 is in week 53 of 2014, whereas ISO 8601 puts it in week 1
      of 2015. */
  lemma January1st2015()
    ensures CalculateWeekNum(NewDate(2015, 0, 1)) == WeekId(2014, 53)
    ensures IsoWeekOf(Day(NewDate(2015, 0, 1))) == WeekId(2015, 1)
  {
    hide CalculateWeekNum, YearFromDay;
    assert DayFromYear(2014) == 16071 && DayFromYear(2015) == 16436;
    hide DayFromYear;
    assert NewDate(2015, 0, 1) == 16436 * MsPerDay;
    assert FirstWednesday(2014) == 16071;
    WeekOfMidnight(16436, 16435, 2014, 16071);
    IsoJanuary1st2015();
  }

  lemma IsoJanuary1st2015()
    ensures IsoWeekOf(Day(16436 * MsPerDay)) == WeekId(2015, 1)
  {
    DayOfMidnight(16436, 0);
    assert DayFromYear(2015) == 16436 && DayFromYear(2016) == 16801;
    YearFromDayUnique(16436, 2015);
    hide YearFromDay, DayFromYear;
  }
}
