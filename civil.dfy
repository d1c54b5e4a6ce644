/** Proleptic-Gregorian calendar arithmetic on day numbers.
    A day number counts days from 1 January 1970 (day 0), as the time values
    of an ECMAScript Date do once divided by the length of a day. Months are
    numbered 0..11 and days of the month from 1, as in `Date`. */
module Civil {

  predicate IsLeapYear(y: int) {
    y % 4 == 0 && (y % 100 != 0 || y % 400 == 0)
  }

  function DaysInYear(y: int): (n: int)
    ensures n == 365 || n == 366
    ensures n == 366 <==> IsLeapYear(y)
  {
    if IsLeapYear(y) then 366 else 365
  }

  /** Day number of 1 January of year y (`DayFromYear` of ECMA-262). */
  function DayFromYear(y: int): int {
    365 * (y - 1970) + (y - 1969) / 4 - (y - 1901) / 100 + (y - 1601) / 400
  }

  lemma DayFromYearStep(y: int)
    ensures DayFromYear(y + 1) == DayFromYear(y) + DaysInYear(y)
  {
    QuarterStep(y);
    CenturyStep(y);
    QuadCenturyStep(y);
    LeapCount(y);
    hide IsLeapYear, DaysInYear;
  }

  /** The three leap rules add up to the leap day: 400 | y implies 100 | y implies 4 | y. */
  lemma LeapCount(y: int)
    ensures DaysInYear(y) == 365 + (if y % 4 == 0 then 1 else 0) - (if y % 100 == 0 then 1 else 0)
                                 + (if y % 400 == 0 then 1 else 0)
  {
    if y % 400 == 0 {
      assert y == 100 * (4 * (y / 400));
    }
    if y % 100 == 0 {
      assert y == 4 * (25 * (y / 100));
    }
  }

  /** The leap-day counts of DayFromYear grow by one exactly at a leap-rule boundary. */
  lemma QuarterStep(y: int)
    ensures (y + 1 - 1969) / 4 == (y - 1969) / 4 + (if y % 4 == 0 then 1 else 0)
  {
    var q, r := y / 4, y % 4;
    assert y == 4 * q + r;
    assert y - 1969 == 4 * (q - 493) + (r + 3);
  }

  lemma CenturyStep(y: int)
    ensures (y + 1 - 1901) / 100 == (y - 1901) / 100 + (if y % 100 == 0 then 1 else 0)
  {
    var q, r := y / 100, y % 100;
    assert y == 100 * q + r;
    assert y - 1901 == 100 * (q - 20) + (r + 99);
  }

  lemma QuadCenturyStep(y: int)
    ensures (y + 1 - 1601) / 400 == (y - 1601) / 400 + (if y % 400 == 0 then 1 else 0)
  {
    var q, r := y / 400, y % 400;
    assert y == 400 * q + r;
    assert y - 1601 == 400 * (q - 5) + (r + 399);
  }

  /** Years start at strictly increasing day numbers. */
  lemma {:induction false} DayFromYearMonotone(a: int, b: int)
    requires a < b
    ensures DayFromYear(a + 1) <= DayFromYear(b)
    decreases b - a
  {
    DayFromYearStep(a);
    if a + 1 < b {
      DayFromYearMonotone(a + 1, b);
      DayFromYearStep(a + 1);
    }
  }

  /** Every year has at least 365 days. */
  lemma {:induction false} DayFromYearGrowth(a: int, b: int)
    requires a <= b
    ensures DayFromYear(b) >= DayFromYear(a) + 365 * (b - a)
    decreases b - a
  {
    if a < b {
      DayFromYearStep(a);
      DayFromYearGrowth(a + 1, b);
    }
  }

  /** A year is 365.2425 days on average, so dividing by that length lands within one
      year of the right one. */
  lemma YearEstimate(d: int)
    ensures DayFromYear(1970 + (400 * d) / 146097 - 1) <= d < DayFromYear(1970 + (400 * d) / 146097 + 2)
  {
    var q := (400 * d) / 146097;
    assert 146097 * q <= 400 * d < 146097 * q + 146097;
    var u := q - 1;
    assert 4 * ((u + 1) / 4) <= u + 1 && 100 * ((u + 69) / 100) > u + 69 - 100
        && 400 * ((u + 369) / 400) <= u + 369;
    var v := q + 2;
    assert 4 * ((v + 1) / 4) > v + 1 - 4 && 100 * ((v + 69) / 100) <= v + 69
        && 400 * ((v + 369) / 400) > v + 369 - 400;
  }

  /** `YearFromTime` of ECMA-262, on day numbers: the year whose days include d. */
  function YearFromDay(d: int): (y: int)
    ensures DayFromYear(y) <= d < DayFromYear(y + 1)
  {
    var y0 := 1970 + (400 * d) / 146097;
    YearEstimate(d);
    if d < DayFromYear(y0) then y0 - 1
    else if d < DayFromYear(y0 + 1) then y0
    else y0 + 1
  }

  /** Only one year contains a given day. */
  lemma YearFromDayUnique(d: int, y: int)
    requires DayFromYear(y) <= d < DayFromYear(y + 1)
    ensures YearFromDay(d) == y
  {
    var r := YearFromDay(d);
    if r < y {
      DayFromYearMonotone(r, y);
    } else if y < r {
      DayFromYearMonotone(y, r);
    }
  }

  /** Days of year y that come before month m (m == 12 gives the whole year): 0, 31, 59, 90,
      120, 151, 181, 212, 243, 273, 304, 334, 365, one more from March on in a leap year. */
  function DaysBeforeMonth(y: int, m: int): int
    requires 0 <= m <= 12
  {
    (367 * m + 5) / 12 - (if m < 2 then 0 else if IsLeapYear(y) then 1 else 2)
  }

  function DaysInMonth(y: int, m: int): (n: int)
    requires 0 <= m < 12
    ensures 28 <= n <= 31
    ensures m == 1 ==> (n == 29 <==> IsLeapYear(y)) && (n == 28 <==> !IsLeapYear(y))
    ensures m in {3, 5, 8, 10} ==> n == 30
    ensures m in {0, 2, 4, 6, 7, 9, 11} ==> n == 31
  {
    DaysBeforeMonth(y, m + 1) - DaysBeforeMonth(y, m)
  }

  lemma DaysBeforeYearEnd(y: int)
    ensures DaysBeforeMonth(y, 12) == DaysInYear(y)
  {
  }

  lemma {:induction false} DaysBeforeMonthMonotone(y: int, a: int, b: int)
    requires 0 <= a < b <= 12
    ensures DaysBeforeMonth(y, a + 1) <= DaysBeforeMonth(y, b)
    decreases b - a
  {
    if a + 1 < b {
      DaysBeforeMonthMonotone(y, a + 1, b);
    }
  }

  /** Months have 28 to 31 days, so dividing by 31 lands on the month or the one before it. */
  lemma MonthEstimate(y: int, doy: int)
    requires 0 <= doy < DaysInYear(y)
    ensures 0 <= doy / 31 < 12
    ensures DaysBeforeMonth(y, doy / 31) <= doy
    ensures doy / 31 + 1 < 12 ==> doy < DaysBeforeMonth(y, doy / 31 + 2)
  {
  }

  /** The month of year y whose days include day-of-year doy. */
  function MonthOfYearDay(y: int, doy: int): (m: int)
    requires 0 <= doy < DaysInYear(y)
    ensures 0 <= m < 12
    ensures DaysBeforeMonth(y, m) <= doy < DaysBeforeMonth(y, m + 1)
  {
    var m0 := doy / 31;
    MonthEstimate(y, doy);
    if doy < DaysBeforeMonth(y, m0 + 1) then m0 else m0 + 1
  }

  /** `MonthFromTime` of ECMA-262, on day numbers. */
  function MonthFromDay(d: int): (m: int)
    ensures 0 <= m < 12
    ensures DaysBeforeMonth(YearFromDay(d), m) <= d - DayFromYear(YearFromDay(d))
                                                < DaysBeforeMonth(YearFromDay(d), m + 1)
  {
    var y := YearFromDay(d);
    DayFromYearStep(y);
    MonthOfYearDay(y, d - DayFromYear(y))
  }

  /** `DateFromTime` of ECMA-262, on day numbers: the day of the month, from 1. */
  function DateFromDay(d: int): (dt: int)
    ensures 1 <= dt <= DaysInMonth(YearFromDay(d), MonthFromDay(d))
  {
    d - DayFromYear(YearFromDay(d)) - DaysBeforeMonth(YearFromDay(d), MonthFromDay(d)) + 1
  }

  /** `MakeDay` of ECMA-262: the day number of date `date` of month `month` of year `year`;
      a month outside 0..11 carries into the year, and a date outside the month
      carries into the neighbouring months. */
  function MakeDay(year: int, month: int, date: int): int {
    var ym := year + month / 12;
    var mn := month % 12;
    DayFromYear(ym) + DaysBeforeMonth(ym, mn) + date - 1
  }

  /** `WeekDay` of ECMA-262: 0 is Sunday, 1 Monday, ..., 6 Saturday (1 January 1970 was a Thursday). */
  function WeekDay(d: int): (wd: int)
    ensures 0 <= wd < 7
  {
    (d + 4) % 7
  }

  /** A day decomposes into its year, month and date, and MakeDay puts it together again. */
  lemma MakeDayOfParts(d: int)
    ensures MakeDay(YearFromDay(d), MonthFromDay(d), DateFromDay(d)) == d
  {
    var y, m := YearFromDay(d), MonthFromDay(d);
    assert m / 12 == 0 && m % 12 == m;
  }

  /** A valid calendar date survives the round trip through its day number. */
  lemma PartsOfMakeDay(y: int, m: int, dt: int)
    requires 0 <= m < 12 && 1 <= dt <= DaysInMonth(y, m)
    ensures YearFromDay(MakeDay(y, m, dt)) == y
    ensures MonthFromDay(MakeDay(y, m, dt)) == m
    ensures DateFromDay(MakeDay(y, m, dt)) == dt
  {
    var d := MakeDay(y, m, dt);
    assert m / 12 == 0 && m % 12 == m;
    assert d == DayFromYear(y) + DaysBeforeMonth(y, m) + dt - 1;
    YearOfMakeDay(y, m, dt);
    var doy := d - DayFromYear(y);
    var r := MonthFromDay(d);
    assert DaysBeforeMonth(y, r) <= doy < DaysBeforeMonth(y, r + 1);
    if r < m {
      DaysBeforeMonthMonotone(y, r, m);
    } else if m < r {
      DaysBeforeMonthMonotone(y, m, r);
    }
  }

  lemma YearOfMakeDay(y: int, m: int, dt: int)
    requires 0 <= m < 12 && 1 <= dt <= DaysInMonth(y, m)
    ensures YearFromDay(MakeDay(y, m, dt)) == y
  {
    var d := MakeDay(y, m, dt);
    assert m / 12 == 0 && m % 12 == m;
    DayFromYearStep(y);
    DaysBeforeMonthMonotone(y, m, 12);
    YearFromDayUnique(d, y);
  }

  /** MakeDay shifts with its date argument, whatever the month. */
  lemma MakeDayShift(y: int, m: int, dt: int, k: int)
    ensures MakeDay(y, m, dt + k) == MakeDay(y, m, dt) + k
  {
  }

  /** Day 0 of the following month is the last day of the month: the month has
      DaysInMonth days after its normalised year and month. */
  lemma MonthEnd(y: int, m: int)
    ensures MakeDay(y, m + 1, 0) == MakeDay(y, m, 1) + DaysInMonth(y + m / 12, m % 12) - 1
  {
    var ym := y + m / 12;
    if m % 12 == 11 {
      assert (m + 1) / 12 == m / 12 + 1 && (m + 1) % 12 == 0;
      DayFromYearStep(ym);
    } else {
      assert (m + 1) / 12 == m / 12 && (m + 1) % 12 == m % 12 + 1;
    }
  }

  /** Month carry: the month index is reduced modulo 12 and the quotient added to the year. */
  lemma MakeDayCarry(y: int, m: int, dt: int)
    ensures MakeDay(y, m, dt) == MakeDay(y + m / 12, m % 12, dt)
  {
  }

  lemma WeekDayShift(d: int, k: int)
    ensures WeekDay(d + 7 * k) == WeekDay(d)
  {
  }
}
