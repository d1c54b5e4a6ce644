/** The state logic of the `SingleWeekPicker` component: the month and year shown, the
    selected week, the grid cut into week rows, and the handlers that change them. React
    state hooks become the fields of a `WeekPicker` object; each handler is a method, and
    each effect that recomputes derived state is a method too, run after the fields it
    depends on have changed. Dates in the rows are time values, as in `getCalendarDates`. */
module WeekPicker {
  import opened Civil
  import opened JsDate
  import opened CalendarGrid
  import opened WeekNumber
  import opened WeekdayLabels

  /** A JavaScript number as the year state holds it: an integer, or NaN. */
  datatype JsNumber = NaN | Num(value: int)

  /** `n + k` on a JavaScript number: NaN stays NaN. */
  function Plus(n: JsNumber, k: int): (r: JsNumber)
    ensures r.NaN? <==> n.NaN?
    ensures n.Num? ==> r.value - n.value == k
  {
    match n
    case NaN => NaN
    case Num(v) => Num(v + k)
  }

  // ---------------------------------------------------------------------------
  // Month navigation (lines 82-96)

  /** The (month, year) that `skipToNextMonth` moves to. */
  function NextMonth(month: int, year: JsNumber): (int, JsNumber) {
    if month == 11 then (0, Plus(year, 1)) else (month + 1, year)
  }

  /** The (month, year) that `skipToLastMonth` moves to. */
  function LastMonth(month: int, year: JsNumber): (int, JsNumber) {
    if month == 0 then (11, Plus(year, -1)) else (month - 1, year)
  }

  /** A month counted from January of year 0. */
  function MonthIndex(month: int, year: int): int {
    12 * year + month
  }

  /** Stepping a month forward or back keeps the month in 0..11 and moves the month index
      by one; a NaN year stays NaN. */
  lemma MonthSteps(month: int, year: JsNumber)
    requires 0 <= month < 12
    ensures var (m, y) := NextMonth(month, year);
            0 <= m < 12 && y.NaN? == year.NaN? &&
            (year.Num? ==> MonthIndex(m, y.value) == MonthIndex(month, year.value) + 1)
    ensures var (m, y) := LastMonth(month, year);
            0 <= m < 12 && y.NaN? == year.NaN? &&
            (year.Num? ==> MonthIndex(m, y.value) == MonthIndex(month, year.value) - 1)
  {
  }

  /** Next then last, or last then next, comes back to the same month. */
  lemma MonthStepsRoundTrip(month: int, year: JsNumber)
    requires 0 <= month < 12
    ensures LastMonth(NextMonth(month, year).0, NextMonth(month, year).1) == (month, year)
    ensures NextMonth(LastMonth(month, year).0, LastMonth(month, year).1) == (month, year)
  {
    match year
    case NaN =>
    case Num(v) =>
  }

  /** The grid after stepping forward is the grid of month + 1, except from December of
      year 99 (see MonthAfterDecember). */
  lemma NextMonthGrid(month: int, year: int)
    requires 0 <= month < 12 && year != 99
    ensures var (m, y) := NextMonth(month, Num(year));
            CalendarDays(m, y.value) == CalendarDays(month + 1, year)
  {
    hide CalendarDays;
    if month == 11 {
      MonthAfterDecember(year);
    }
  }

  /** The grid after stepping back is the grid of month - 1, except from January of year 0
      (see MonthBeforeJanuary). */
  lemma LastMonthGrid(month: int, year: int)
    requires 0 <= month < 12 && year != 0
    ensures var (m, y) := LastMonth(month, Num(year));
            CalendarDays(m, y.value) == CalendarDays(month - 1, year)
  {
    hide CalendarDays;
    if month == 0 {
      MonthBeforeJanuary(year);
    }
  }

  /** The month stepper has no year guard: from January of year 100 it steps back to
      December of year 99, which the `Date` constructor reads as December 1999. */
  lemma StepBackFromYear100()
    ensures LastMonth(0, Num(100)) == (11, Num(99))
    ensures TargetYear(11, 99) == 1999 && TargetMonth(11, 99) == 11
  {
    TargetOf(11, 99);
  }

  // ---------------------------------------------------------------------------
  // Year completion (lines 137-139): Number(`20${currentYear}`)

  function Pow10(k: nat): (p: nat)
    ensures p >= 1
  {
    if k == 0 then 1 else 10 * Pow10(k - 1)
  }

  predicate IsDigit(c: char) {
    '0' <= c <= '9'
  }

  predicate AllDigits(s: string) {
    forall i :: 0 <= i < |s| ==> IsDigit(s[i])
  }

  function DigitChar(n: int): (c: char)
    requires 0 <= n < 10
    ensures IsDigit(c) && c as int - '0' as int == n
  {
    (48 + n) as char
  }

  /** The value of a string of decimal digits. */
  function DigitsValue(s: string): nat
    requires AllDigits(s)
    decreases |s|
  {
    if s == [] then 0 else DigitsValue(s[..|s| - 1]) * 10 + (s[|s| - 1] as int - '0' as int)
  }

  /** `Number(s)` for the strings built here: a non-empty run of decimal digits is read as
      a decimal integer, and anything else (such as "20-5") is NaN. */
  function ParseNumber(s: string): JsNumber {
    if |s| > 0 && AllDigits(s) then Num(DigitsValue(s)) else NaN
  }

  /** The decimal digits of n, without leading zeros. */
  function NatString(n: nat): string
    decreases n
  {
    if n < 10 then [DigitChar(n)] else NatString(n / 10) + [DigitChar(n % 10)]
  }

  /** `String(n)` for an integer: its digits, after a minus sign when negative. */
  function DecimalString(n: int): string {
    if n < 0 then "-" + NatString(-n) else NatString(n)
  }

  /** Printing a natural number and reading it back gives the number. */
  lemma {:induction false} NatStringRoundTrip(n: nat)
    ensures |NatString(n)| >= 1 && AllDigits(NatString(n))
    ensures DigitsValue(NatString(n)) == n
    ensures |NatString(n)| == 1 <==> n < 10
    decreases n
  {
    if n >= 10 {
      NatStringRoundTrip(n / 10);
      var s := NatString(n);
      assert s[..|s| - 1] == NatString(n / 10);
    }
  }

  /** Reading a concatenation of digit strings: the left part is shifted by the length of
      the right part. */
  lemma {:induction false} DigitsValueAppend(a: string, b: string)
    requires AllDigits(a) && AllDigits(b)
    ensures AllDigits(a + b)
    ensures DigitsValue(a + b) == DigitsValue(a) * Pow10(|b|) + DigitsValue(b)
    decreases |b|
  {
    if b != [] {
      var b', c := b[..|b| - 1], b[|b| - 1];
      assert (a + b)[..|a + b| - 1] == a + b';
      DigitsValueAppend(a, b');
      var d := c as int - '0' as int;
      assert DigitsValue(a + b) == DigitsValue(a + b') * 10 + d;
      assert DigitsValue(b) == DigitsValue(b') * 10 + d && Pow10(|b|) == Pow10(|b'|) * 10;
      hide DigitsValue, Pow10;
      ShiftDigit(DigitsValue(a), Pow10(|b'|), DigitsValue(b'), d);
    } else {
      assert a + b == a;
    }
  }

  lemma ShiftDigit(x: int, p: int, v: int, d: int)
    ensures (x * p + v) * 10 + d == x * (p * 10) + (v * 10 + d)
  {
  }

  /** The year `adjustYear` sets for a year below 100. */
  function AdjustedYear(year: int): JsNumber {
    ParseNumber("20" + DecimalString(year))
  }

  /** Writing "20" in front of a year's digits: one digit gives 200..209, two digits give
      2010..2099, and a negative year gives NaN. */
  lemma AdjustedYearValue(year: int)
    ensures 0 <= year < 10 ==> AdjustedYear(year) == Num(200 + year)
    ensures 10 <= year < 100 ==> AdjustedYear(year) == Num(2000 + year)
    ensures year < 0 ==> AdjustedYear(year) == NaN
  {
    if year >= 0 {
      NatStringRoundTrip(year);
      if year >= 10 {
        NatStringRoundTrip(year / 10);
      }
      assert DigitsValue("20") == 20 by {
        assert "20"[..1] == "2";
      }
      DigitsValueAppend("20", NatString(year));
    } else {
      var s := "20" + DecimalString(year);
      assert !IsDigit(s[2]);
    }
  }

  lemma AdjustedYearExamples()
    ensures AdjustedYear(25) == Num(2025)
    ensures AdjustedYear(5) == Num(205)
    ensures AdjustedYear(0) == Num(200)
    ensures AdjustedYear(-5) == NaN
  {
    AdjustedYearValue(25);
    AdjustedYearValue(5);
    AdjustedYearValue(0);
    AdjustedYearValue(-5);
  }

  // ---------------------------------------------------------------------------
  // Week rows (lines 113-119)

  function Min(a: int, b: int): int {
    if a <= b then a else b
  }

  /** `dates.slice(i, i + 7)` for every i = 0, 7, 14, ... below the length. */
  function Rows(dates: seq<int>): (rows: seq<seq<int>>)
    ensures |rows| == (|dates| + 6) / 7
    ensures forall k :: 0 <= k < |rows| ==> rows[k] == dates[7 * k .. Min(7 * k + 7, |dates|)]
  {
    seq((|dates| + 6) / 7, k requires 0 <= k < (|dates| + 6) / 7 => dates[7 * k .. Min(7 * k + 7, |dates|)])
  }

  function Flatten(rows: seq<seq<int>>): seq<int> {
    if rows == [] then [] else Flatten(rows[..|rows| - 1]) + rows[|rows| - 1]
  }

  lemma FlattenSnoc(rows: seq<seq<int>>, row: seq<int>)
    ensures Flatten(rows + [row]) == Flatten(rows) + row
  {
    assert (rows + [row])[..|rows|] == rows;
  }

  /** The partition effect's loop: push consecutive slices of seven dates. */
  method PartitionWeeks(dates: seq<int>) returns (weeks: seq<seq<int>>)
    ensures weeks == Rows(dates)
    ensures Flatten(weeks) == dates
  {
    weeks := [];
    var i := 0;
    while i < |dates|
      invariant i == 7 * |weeks| && i <= |dates| + 6
      invariant forall k :: 0 <= k < |weeks| ==> weeks[k] == dates[7 * k .. Min(7 * k + 7, |dates|)]
      invariant Flatten(weeks) == dates[..Min(i, |dates|)]
      decreases |dates| - i
    {
      var row := dates[i .. Min(i + 7, |dates|)];
      FlattenSnoc(weeks, row);
      assert dates[..Min(i, |dates|)] + row == dates[..Min(i + 7, |dates|)];
      weeks := weeks + [row];
      i := i + 7;
    }
    assert dates[..Min(i, |dates|)] == dates;
  }

  /** Cutting a whole number of weeks gives rows of exactly seven dates. */
  lemma FullRows(dates: seq<int>, k: int)
    requires |dates| % 7 == 0 && 0 <= k < |Rows(dates)|
    ensures |Rows(dates)| == |dates| / 7
    ensures |Rows(dates)[k]| == 7
    ensures forall c :: 0 <= c < 7 ==> Rows(dates)[k][c] == dates[7 * k + c]
  {
  }

  /** The time values of the grid the component asks for; with a NaN year the `Date` objects
      are invalid, the loop condition is false at once, and the list is empty. */
  function GridTimes(month: int, year: JsNumber): (dates: seq<int>)
    ensures year.Num? ==> |dates| == |CalendarDays(month, year.value)|
    ensures year.Num? ==> forall k :: 0 <= k < |dates| ==> dates[k] == CalendarDays(month, year.value)[k] * MsPerDay
    ensures year.NaN? ==> dates == []
  {
    match year
    case NaN => []
    case Num(y) => seq(|CalendarDays(month, y)|, k requires 0 <= k < |CalendarDays(month, y)| => CalendarDays(month, y)[k] * MsPerDay)
  }

  /** Row r of the rows the component shows starts with grid day 7 * r. */
  lemma RowStart(month: int, year: int, r: int)
    requires 0 <= r < |Rows(GridTimes(month, Num(year)))|
    ensures 7 * r < |CalendarDays(month, year)|
    ensures |Rows(GridTimes(month, Num(year)))[r]| > 0
    ensures Rows(GridTimes(month, Num(year)))[r][0] == CalendarDays(month, year)[7 * r] * MsPerDay
  {
  }

  /** The rows the picker shows for a numeric year are the grid cut into 4, 5 or 6 whole
      weeks: grid length / 7 rows of seven dates, each row running Monday to Sunday. */
  lemma WeekRowsOfGrid(month: int, year: int, r: int)
    requires 0 <= r < |Rows(GridTimes(month, Num(year)))|
    ensures |Rows(GridTimes(month, Num(year)))| == |CalendarDays(month, year)| / 7
    ensures |Rows(GridTimes(month, Num(year)))| in {4, 5, 6}
    ensures |Rows(GridTimes(month, Num(year)))[r]| == 7
    ensures forall c :: 0 <= c < 7 ==>
              Rows(GridTimes(month, Num(year)))[r][c] == CalendarDays(month, year)[7 * r + c] * MsPerDay
    ensures forall c :: 0 <= c < 7 ==> DayOfWeek(Rows(GridTimes(month, Num(year)))[r][c]) == (c + 1) % 7
  {
    var g := GridTimes(month, Num(year));
    hide CalendarDays, Rows, GridTimes;
    GridShape(month, year);
    FullRows(g, r);
    forall c | 0 <= c < 7
      ensures DayOfWeek(Rows(g)[r][c]) == (c + 1) % 7
    {
      GridColumns(month, year, 7 * r + c);
      DayOfMidnight(CalendarDays(month, year)[7 * r + c], 0);
    }
  }

  /** Rows of a grid start on Mondays seven days apart, so they are distinct weeks and
      get distinct week identifiers. */
  lemma GridRowWeeksDistinct(month: int, year: int, r1: int, r2: int)
    requires 0 <= 7 * r1 < |CalendarDays(month, year)| && 0 <= 7 * r2 < |CalendarDays(month, year)|
    ensures (CalculateWeekNum(CalendarDays(month, year)[7 * r1] * MsPerDay) ==
             CalculateWeekNum(CalendarDays(month, year)[7 * r2] * MsPerDay)) <==> r1 == r2
  {
    hide CalculateWeekNum, CalendarDays, Wednesday, Day, YearFromDay, DayFromYear;
    var g := CalendarDays(month, year);
    GridShape(month, year);
    GridConsecutive(g, 7 * r1);
    GridConsecutive(g, 7 * r2);
    var lo := g[0];
    DayOfMidnight(lo + 7 * r1, 0);
    DayOfMidnight(lo + 7 * r2, 0);
    WeekDayShift(lo, r1);
    WeekDayShift(lo, r2);
    WednesdayOfWeek(lo + 7 * r1, lo + 7 * r1 + 2);
    WednesdayOfWeek(lo + 7 * r2, lo + 7 * r2 + 2);
    SameWeekIff((lo + 7 * r1) * MsPerDay, (lo + 7 * r2) * MsPerDay);
  }

  /** A list of days, each one more than the one before, counts up from its first. */
  lemma {:induction false} GridConsecutive(g: seq<int>, k: int)
    requires forall j :: 0 <= j < |g| - 1 ==> g[j + 1] == g[j] + 1
    requires 0 <= k < |g|
    ensures g[k] == g[0] + k
  {
    if k > 0 {
      GridConsecutive(g, k - 1);
    }
  }

  // ---------------------------------------------------------------------------
  // The component's state

  class SingleWeekPicker {
    var currentMonth: int
    var currentYear: JsNumber
    var selectedWeek: WeekId
    var selectMonth: bool
    var calendarWeeks: seq<seq<int>>
    var l10nDays: seq<string>

    /** The month shown is always one of 0..11. */
    ghost predicate Valid()
      reads this
    {
      0 <= currentMonth < 12
    }

    /** The rows were recomputed for the month and year now shown. */
    ghost predicate WeeksCurrent()
      reads this
    {
      calendarWeeks == Rows(GridTimes(currentMonth, currentYear))
    }

    /** Lines 74-79, with `now` the clock reading of `new Date()`. */
    constructor (now: int)
      ensures Valid()
      ensures currentMonth == MonthOf(now) && currentYear == Num(YearOf(now))
      ensures selectedWeek == CalculateWeekNum(now)
      ensures !selectMonth && calendarWeeks == [] && l10nDays == []
    {
      hide CalculateWeekNum, MonthOf, YearOf;
      currentMonth := MonthOf(now);
      currentYear := Num(YearOf(now));
      selectedWeek := CalculateWeekNum(now);
      selectMonth := false;
      calendarWeeks := [];
      l10nDays := [];
    }

    /** Lines 82-88: the previous-month stepper; from January it moves to December of the previous year. */
    method SkipToLastMonth()
      requires Valid()
      modifies this
      ensures Valid()
      ensures (currentMonth, currentYear) == LastMonth(old(currentMonth), old(currentYear))
      ensures selectedWeek == old(selectedWeek) && selectMonth == old(selectMonth)
      ensures calendarWeeks == old(calendarWeeks) && l10nDays == old(l10nDays)
    {
      if currentMonth == 0 {
        currentMonth := 11;
        currentYear := Plus(currentYear, -1);
      } else {
        currentMonth := currentMonth - 1;
      }
    }

    /** Lines 90-96: the next-month stepper; from December it moves to January of the next year. */
    method SkipToNextMonth()
      requires Valid()
      modifies this
      ensures Valid()
      ensures (currentMonth, currentYear) == NextMonth(old(currentMonth), old(currentYear))
      ensures selectedWeek == old(selectedWeek) && selectMonth == old(selectMonth)
      ensures calendarWeeks == old(calendarWeeks) && l10nDays == old(l10nDays)
    {
      if currentMonth == 11 {
        currentMonth := 0;
        currentYear := Plus(currentYear, 1);
      } else {
        currentMonth := currentMonth + 1;
      }
    }

    /** Lines 108-111: the effect that loads the weekday labels. The locale it works out is
        handed to `getL10Weekday`, which takes no parameter, so the labels always come in
        the runtime's default locale. */
    method RefreshLabels(localization: Option<string>, navigatorLanguage: string,
                         toLocaleDateString: (Option<string>, int) -> string)
      modifies this
      ensures |l10nDays| == 7
      ensures forall i :: 0 <= i < 7 ==> l10nDays[i] == toLocaleDateString(None, ReferenceDate(i))
      ensures currentMonth == old(currentMonth) && currentYear == old(currentYear)
      ensures selectedWeek == old(selectedWeek) && selectMonth == old(selectMonth)
      ensures calendarWeeks == old(calendarWeeks)
    {
      var i18n := if localization.Some? && localization.value != "" then localization.value else navigatorLanguage;
      l10nDays := GetL10Weekday(toLocaleDateString);
    }

    /** Lines 113-119: the effect that rebuilds the week rows for the month shown. */
    method RefreshWeeks()
      modifies this
      ensures WeeksCurrent()
      ensures currentMonth == old(currentMonth) && currentYear == old(currentYear)
      ensures selectedWeek == old(selectedWeek) && selectMonth == old(selectMonth)
      ensures l10nDays == old(l10nDays)
    {
      var dates: seq<int>;
      match currentYear {
        case NaN =>
          dates := [];
        case Num(y) =>
          dates := GetCalendarDates(currentMonth, y);
      }
      assert dates == GridTimes(currentMonth, currentYear);
      var weeks := PartitionWeeks(dates);
      calendarWeeks := weeks;
    }

    /** Lines 127-129: selecting a date selects its week. */
    method SelectWeek(date: int)
      modifies this
      ensures selectedWeek == CalculateWeekNum(date)
      ensures currentMonth == old(currentMonth) && currentYear == old(currentYear)
      ensures selectMonth == old(selectMonth)
      ensures calendarWeeks == old(calendarWeeks) && l10nDays == old(l10nDays)
    {
      hide CalculateWeekNum;
      selectedWeek := CalculateWeekNum(date);
    }

    /** Lines 185 and 197: whether row r is shown as the selected week. */
    function IsActiveRow(r: int): (active: bool)
      reads this
      requires 0 <= r < |calendarWeeks| && calendarWeeks[r] != []
      ensures active <==> selectedWeek == CalculateWeekNum(calendarWeeks[r][0])
    {
      selectedWeek.weekYear == CalculateWeekNum(calendarWeeks[r][0]).weekYear &&
      selectedWeek.weekNum == CalculateWeekNum(calendarWeeks[r][0]).weekNum
    }

    /** Clicking row r (lines 185 and 198) selects the week of its first date; when the rows
        are those of the month shown, that row then is the only active one. */
    method SelectRow(r: int)
      requires 0 <= r < |calendarWeeks| && calendarWeeks[r] != []
      modifies this
      ensures calendarWeeks == old(calendarWeeks) && l10nDays == old(l10nDays)
      ensures currentMonth == old(currentMonth) && currentYear == old(currentYear)
      ensures selectMonth == old(selectMonth)
      ensures selectedWeek == CalculateWeekNum(calendarWeeks[r][0])
      ensures currentYear.Num? && WeeksCurrent() ==>
                forall j :: 0 <= j < |calendarWeeks| ==> calendarWeeks[j] != [] && (IsActiveRow(j) <==> j == r)
    {
      hide CalculateWeekNum;
      SelectWeek(calendarWeeks[r][0]);
      if currentYear.Num? && WeeksCurrent() {
        forall j | 0 <= j < |calendarWeeks|
          ensures calendarWeeks[j] != [] && (IsActiveRow(j) <==> j == r)
        {
          RowStart(currentMonth, currentYear.value, j);
          RowStart(currentMonth, currentYear.value, r);
          GridRowWeeksDistinct(currentMonth, currentYear.value, j, r);
        }
      }
    }

    /** Lines 131-135: the year typed in is taken unless it is NaN or negative. */
    method ChangeYear(year: JsNumber)
      modifies this
      ensures currentYear == if year.NaN? || year.value < 0 then old(currentYear) else year
      ensures currentMonth == old(currentMonth) && selectedWeek == old(selectedWeek)
      ensures selectMonth == old(selectMonth)
      ensures calendarWeeks == old(calendarWeeks) && l10nDays == old(l10nDays)
    {
      if year.NaN? {
        return;
      }
      if year.value < 0 {
        return;
      }
      currentYear := year;
    }

    /** Lines 137-139: on leaving the input, a year below 100 gets "20" written in front. */
    method AdjustYear()
      modifies this
      ensures currentYear == if old(currentYear).Num? && old(currentYear).value < 100
                             then AdjustedYear(old(currentYear).value) else old(currentYear)
      ensures currentMonth == old(currentMonth) && selectedWeek == old(selectedWeek)
      ensures selectMonth == old(selectMonth)
      ensures calendarWeeks == old(calendarWeeks) && l10nDays == old(l10nDays)
    {
      if currentYear.Num? && currentYear.value < 100 {
        currentYear := ParseNumber("20" + DecimalString(currentYear.value));
      }
    }

    /** Lines 144-147: the previous-year stepper does nothing at year 100 or below (a NaN
        year passes the guard and stays NaN), so from year 100 or above it never reaches the
        two-digit years that the `Date` constructor reads as 19xx. The month stepper has no
        such guard: from January of year 100, SkipToLastMonth gives December of year 99,
        whose grid is that of December 1999. */
    method PrevYear()
      modifies this
      ensures currentYear == if old(currentYear).Num? && old(currentYear).value <= 100
                             then old(currentYear) else Plus(old(currentYear), -1)
      ensures old(currentYear).Num? && old(currentYear).value >= 100 ==>
                currentYear.Num? && currentYear.value >= 100
      ensures currentMonth == old(currentMonth) && selectedWeek == old(selectedWeek)
      ensures selectMonth == old(selectMonth)
      ensures calendarWeeks == old(calendarWeeks) && l10nDays == old(l10nDays)
    {
      if currentYear.Num? && currentYear.value <= 100 {
        return;
      }
      currentYear := Plus(currentYear, -1);
    }

    /** Lines 154-156: the next-year stepper adds one to the year, with no bound. */
    method NextYear()
      modifies this
      ensures currentYear == Plus(old(currentYear), 1)
      ensures currentMonth == old(currentMonth) && selectedWeek == old(selectedWeek)
      ensures selectMonth == old(selectMonth)
      ensures calendarWeeks == old(calendarWeeks) && l10nDays == old(l10nDays)
    {
      currentYear := Plus(currentYear, 1);
    }

    /** Line 175: the month indicator opens the month and year quick-select. */
    method OpenMonthSelect()
      modifies this
      ensures selectMonth
      ensures currentMonth == old(currentMonth) && currentYear == old(currentYear)
      ensures selectedWeek == old(selectedWeek)
      ensures calendarWeeks == old(calendarWeeks) && l10nDays == old(l10nDays)
    {
      selectMonth := true;
    }

    /** Lines 160-162: choosing month `index` of the twelve buttons closes the quick-select. */
    method PickMonth(index: int)
      requires 0 <= index < 12
      modifies this
      ensures Valid() && currentMonth == index && !selectMonth
      ensures currentYear == old(currentYear) && selectedWeek == old(selectedWeek)
      ensures calendarWeeks == old(calendarWeeks) && l10nDays == old(l10nDays)
    {
      currentMonth := index;
      selectMonth := false;
    }
  }
}
