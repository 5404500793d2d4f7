/** Day arithmetic of the proleptic Gregorian calendar, as ECMA-262 section 21.4.1
    defines it for Date values: DayFromYear, DaysInYear, InLeapYear, MonthFromTime,
    DateFromTime, YearFromTime and MakeDay, on whole day numbers counted from
    1970-01-01 (day 0). Months are 0-based (0 is January) as getMonth returns them;
    days of the month are 1-based. */
module Calendar {

  datatype CivilDate = CivilDate(year: int, month: int, day: int)

  /** ECMA-262 DayFromYear: the day number of January 1 of year y. */
  function DayFromYear(y: int): int
  {
    365 * (y - 1970) + (y - 1969) / 4 - (y - 1901) / 100 + (y - 1601) / 400
  }

  /** ECMA-262 DaysInYear. */
  function DaysInYear(y: int): int
  {
    if y % 4 != 0 then 365
    else if y % 100 != 0 then 366
    else if y % 400 != 0 then 365
    else 366
  }

  predicate InLeapYear(y: int)
  {
    DaysInYear(y) == 366
  }

  /** Days of the year before month m (0..12) starts; 12 gives the length of the year. */
  function MonthStart(m: int, leap: bool): int
    requires 0 <= m <= 12
  {
    var common := [0, 31, 59, 90, 120, 151, 181, 212, 243, 273, 304, 334, 365][m];
    if leap && m >= 2 then common + 1 else common
  }

  function DaysInMonth(m: int, leap: bool): int
    requires 0 <= m < 12
  {
    MonthStart(m + 1, leap) - MonthStart(m, leap)
  }

  lemma DaysInMonthRange(m: int, leap: bool)
    requires 0 <= m < 12
    ensures 28 <= DaysInMonth(m, leap) <= 31
  {
  }

  predicate ValidCivil(c: CivilDate)
  {
    0 <= c.month < 12 && 1 <= c.day <= DaysInMonth(c.month, InLeapYear(c.year))
  }

  /** ECMA-262 MonthFromTime, given the 0-based day within the year. */
  function MonthFromDayWithinYear(d: int, leap: bool): (m: int)
    requires 0 <= d < MonthStart(12, leap)
    ensures 0 <= m < 12 && MonthStart(m, leap) <= d < MonthStart(m + 1, leap)
  {
    var l := if leap then 1 else 0;
    if d < 31 then 0
    else if d < 59 + l then 1
    else if d < 90 + l then 2
    else if d < 120 + l then 3
    else if d < 151 + l then 4
    else if d < 181 + l then 5
    else if d < 212 + l then 6
    else if d < 243 + l then 7
    else if d < 273 + l then 8
    else if d < 304 + l then 9
    else if d < 334 + l then 10
    else 11
  }

  lemma Div4(k: int, e: int)
    requires 0 <= e < 4
    ensures (4 * k + e) / 4 == k && (4 * k + e) % 4 == e
  {
  }

  lemma Div100(k: int, e: int)
    requires 0 <= e < 100
    ensures (100 * k + e) / 100 == k && (100 * k + e) % 100 == e
  {
  }

  lemma Div400(k: int, e: int)
    requires 0 <= e < 400
    ensures (400 * k + e) / 400 == k && (400 * k + e) % 400 == e
  {
  }

  /** The year 1 + 400a + 100b + 4c + e, at position (b, c, e) of the a-th 400-year
      cycle after 0001-01-01, starts where the lengths of the cycle's parts say. */
  lemma CycleYearStart(a: int, b: int, c: int, e: int)
    requires 0 <= b <= 3 && 0 <= c <= 24 && 0 <= e <= 3
    ensures DayFromYear(1 + 400 * a + 100 * b + 4 * c + e)
         == 146097 * a + 36524 * b + 1461 * c + 365 * e - 719162
  {
    var y := 1 + 400 * a + 100 * b + 4 * c + e;
    Div4(100 * a + 25 * b + c - 492, e);
    assert y - 1969 == 4 * (100 * a + 25 * b + c - 492) + e;
    Div100(4 * a + b - 19, 4 * c + e);
    assert y - 1901 == 100 * (4 * a + b - 19) + (4 * c + e);
    Div400(a - 4, 100 * b + 4 * c + e);
    assert y - 1601 == 400 * (a - 4) + (100 * b + 4 * c + e);
  }

  /** That year is a leap year exactly when it closes a 4-year block that does not
      close a century, or closes the whole 400-year cycle. */
  lemma CycleYearLength(a: int, b: int, c: int, e: int)
    requires 0 <= b <= 3 && 0 <= c <= 24 && 0 <= e <= 3
    ensures DaysInYear(1 + 400 * a + 100 * b + 4 * c + e)
         == if e == 3 && (c != 24 || b == 3) then 366 else 365
  {
    var y := 1 + 400 * a + 100 * b + 4 * c + e;
    if e == 3 {
      Div4(100 * a + 25 * b + c + 1, 0);
      assert y == 4 * (100 * a + 25 * b + c + 1);
      if c == 24 {
        Div100(4 * a + b + 1, 0);
        assert y == 100 * (4 * a + b + 1);
        if b == 3 {
          Div400(a + 1, 0);
          assert y == 400 * (a + 1);
        } else {
          Div400(a, 100 * (b + 1));
          assert y == 400 * a + 100 * (b + 1);
        }
      } else {
        Div100(4 * a + b, 4 * (c + 1));
        assert y == 100 * (4 * a + b) + 4 * (c + 1);
      }
    } else {
      Div4(100 * a + 25 * b + c, e + 1);
      assert y == 4 * (100 * a + 25 * b + c) + (e + 1);
    }
  }

  lemma CycleYear(a: int, b: int, c: int, e: int)
    requires 0 <= b <= 3 && 0 <= c <= 24 && 0 <= e <= 3
    ensures DayFromYear(1 + 400 * a + 100 * b + 4 * c + e)
         == 146097 * a + 36524 * b + 1461 * c + 365 * e - 719162
    ensures DaysInYear(1 + 400 * a + 100 * b + 4 * c + e)
         == if e == 3 && (c != 24 || b == 3) then 366 else 365
  {
    CycleYearStart(a, b, c, e);
    CycleYearLength(a, b, c, e);
  }

  /** Day d - 719162 lies in the year at position (a, b, c, e) when d is that
      year's offset from 0001-01-01 plus a day r that the year still has. */
  lemma CyclePositionContains(d: int, a: int, b: int, c: int, e: int, r: int)
    requires 0 <= b <= 3 && 0 <= c <= 24 && 0 <= e <= 3 && 0 <= r <= 365
    requires r == 365 ==> e == 3 && (c != 24 || b == 3)
    requires d == 146097 * a + 36524 * b + 1461 * c + 365 * e + r
    ensures var y := 1 + 400 * a + 100 * b + 4 * c + e;
      DayFromYear(y) <= d - 719162 < DayFromYear(y) + DaysInYear(y)
  {
    CycleYear(a, b, c, e);
  }

  /** ECMA-262 YearFromTime: the year whose days contain day n, found by splitting
      the days since 0001-01-01 into 400-year cycles, centuries, 4-year blocks and years. */
  function YearFromDay(n: int): (y: int)
    ensures DayFromYear(y) <= n < DayFromYear(y) + DaysInYear(y)
  {
    var d := n + 719162;
    var q400 := d / 146097;
    var r400 := d - 146097 * q400;
    var q100 := if r400 / 36524 < 3 then r400 / 36524 else 3;
    var r100 := r400 - 36524 * q100;
    var q4 := r100 / 1461;
    var r4 := r100 - 1461 * q4;
    var q1 := if r4 / 365 < 3 then r4 / 365 else 3;
    var r1 := r4 - 365 * q1;
    assert 0 <= r400 < 146097;
    assert 0 <= r100 <= 36524 && (r100 == 36524 ==> q100 == 3);
    assert 0 <= q4 <= 24 && 0 <= r4 < 1461;
    assert 0 <= r1 <= 365 && (r1 == 365 ==> q1 == 3 && r4 == 1460);
    assert q4 == 24 && r4 == 1460 ==> r100 == 36524;
    CyclePositionContains(d, q400, q100, q4, q1, r1);
    1 + 400 * q400 + 100 * q100 + 4 * q4 + q1
  }

  /** The civil date of day n: ECMA-262 YearFromTime, MonthFromTime and DateFromTime. */
  function CivilFromDays(n: int): (c: CivilDate)
    ensures ValidCivil(c) && 1 <= c.day <= 31
    ensures DaysFromCivil(c) == n
  {
    var y := YearFromDay(n);
    var leap := InLeapYear(y);
    var dwy := n - DayFromYear(y);
    var m := MonthFromDayWithinYear(dwy, leap);
    DaysInMonthRange(m, leap);
    CivilDate(y, m, dwy - MonthStart(m, leap) + 1)
  }

  /** ECMA-262 MakeDay for an in-range month and day: the day number of a civil date. */
  function DaysFromCivil(c: CivilDate): int
    requires 0 <= c.month < 12
  {
    DayFromYear(c.year) + MonthStart(c.month, InLeapYear(c.year)) + c.day - 1
  }

  /** Within the cycle, the year after position (a, b, c, e) starts where that year ends. */
  lemma CycleYearStep(a: int, b: int, c: int, e: int)
    requires 0 <= b <= 3 && 0 <= c <= 24 && 0 <= e <= 3
    ensures var y := 1 + 400 * a + 100 * b + 4 * c + e;
      DayFromYear(y + 1) == DayFromYear(y) + DaysInYear(y)
  {
    CycleYear(a, b, c, e);
    if e < 3 {
      CycleYear(a, b, c, e + 1);
    } else if c < 24 {
      CycleYear(a, b, c + 1, 0);
    } else if b < 3 {
      CycleYear(a, b + 1, 0, 0);
    } else {
      CycleYear(a + 1, 0, 0, 0);
    }
  }

  /** Each year starts where the previous one ends. */
  lemma DayFromYearStep(y: int)
    ensures DayFromYear(y + 1) == DayFromYear(y) + DaysInYear(y)
  {
    var a := (y - 1) / 400;
    var r := (y - 1) - 400 * a;
    var b := r / 100;
    var c := (r - 100 * b) / 4;
    var e := r - 100 * b - 4 * c;
    assert 0 <= r < 400 && 0 <= b <= 3 && 0 <= c <= 24 && 0 <= e <= 3;
    CycleYearStep(a, b, c, e);
  }

  /** Years start in increasing order: every day of year a comes before year b starts. */
  lemma {:induction false} DayFromYearMonotone(a: int, b: int)
    requires a < b
    ensures DayFromYear(a) + DaysInYear(a) <= DayFromYear(b)
    decreases b - a
  {
    DayFromYearStep(a);
    if a + 1 < b {
      DayFromYearMonotone(a + 1, b);
      DayFromYearStep(a + 1);
    }
  }

  /** The year of a day is the only year whose days contain it. */
  lemma YearFromDayUnique(n: int, y: int)
    requires DayFromYear(y) <= n < DayFromYear(y) + DaysInYear(y)
    ensures YearFromDay(n) == y
  {
    var y' := YearFromDay(n);
    if y' < y {
      DayFromYearMonotone(y', y);
    } else if y < y' {
      DayFromYearMonotone(y, y');
    }
  }

  lemma MonthStartMonotone(i: int, j: int, leap: bool)
    requires 0 <= i < j <= 12
    ensures MonthStart(i + 1, leap) <= MonthStart(j, leap)
  {
  }

  /** MakeDay followed by YearFromTime, MonthFromTime and DateFromTime gives the date back. */
  lemma CivilRoundTrip(c: CivilDate)
    requires ValidCivil(c)
    ensures CivilFromDays(DaysFromCivil(c)) == c
  {
    var n := DaysFromCivil(c);
    var leap := InLeapYear(c.year);
    assert MonthStart(12, leap) == DaysInYear(c.year);
    MonthStartMonotone(c.month, 12, leap);
    YearFromDayUnique(n, c.year);
    var dwy := n - DayFromYear(c.year);
    var m := MonthFromDayWithinYear(dwy, leap);
    if m < c.month {
      MonthStartMonotone(m, c.month, leap);
    } else if c.month < m {
      MonthStartMonotone(c.month, m, leap);
    }
  }

  lemma CivilFromDaysInjective(n1: int, n2: int)
    requires CivilFromDays(n1) == CivilFromDays(n2)
    ensures n1 == n2
  {
  }

  /** The calendar day after a valid date. */
  function NextDay(c: CivilDate): (r: CivilDate)
    requires ValidCivil(c)
  {
    if c.day < DaysInMonth(c.month, InLeapYear(c.year)) then CivilDate(c.year, c.month, c.day + 1)
    else if c.month < 11 then CivilDate(c.year, c.month + 1, 1)
    else CivilDate(c.year + 1, 0, 1)
  }

  /** The next day is a valid date one day number later. */
  lemma NextDayAdvancesByOne(c: CivilDate)
    requires ValidCivil(c)
    ensures ValidCivil(NextDay(c)) && DaysFromCivil(NextDay(c)) == DaysFromCivil(c) + 1
  {
    var leap := InLeapYear(c.year);
    if c.day < DaysInMonth(c.month, leap) {
    } else if c.month < 11 {
      assert DaysInMonth(c.month + 1, leap) >= 1;
    } else {
      DayFromYearStep(c.year);
      assert MonthStart(12, leap) == DaysInYear(c.year);
      assert DaysInMonth(0, InLeapYear(c.year + 1)) == 31;
    }
  }

  /** Day n + 1 is the calendar day after day n. */
  lemma NextDayIsSuccessor(n: int)
    ensures CivilFromDays(n + 1) == NextDay(CivilFromDays(n))
  {
    NextDayAdvancesByOne(CivilFromDays(n));
    CivilRoundTrip(NextDay(CivilFromDays(n)));
  }

  /** Chronological order of civil dates: by year, then month, then day. */
  predicate CivilBefore(a: CivilDate, b: CivilDate)
  {
    a.year < b.year
    || (a.year == b.year && (a.month < b.month || (a.month == b.month && a.day < b.day)))
  }

  lemma DaysFromCivilOrdered(a: CivilDate, b: CivilDate)
    requires ValidCivil(a) && ValidCivil(b) && CivilBefore(a, b)
    ensures DaysFromCivil(a) < DaysFromCivil(b)
  {
    var la, lb := InLeapYear(a.year), InLeapYear(b.year);
    MonthStartMonotone(a.month, 12, la);
    if a.year < b.year {
      assert MonthStart(12, la) == DaysInYear(a.year);
      DayFromYearMonotone(a.year, b.year);
    } else if a.month < b.month {
      MonthStartMonotone(a.month, b.month, la);
    }
  }

  /** Day numbers and civil dates are in the same order. */
  lemma CivilOrderIsDayOrder(n1: int, n2: int)
    ensures n1 < n2 <==> CivilBefore(CivilFromDays(n1), CivilFromDays(n2))
  {
    var a, b := CivilFromDays(n1), CivilFromDays(n2);
    if CivilBefore(a, b) {
      DaysFromCivilOrdered(a, b);
    }
    if CivilBefore(b, a) {
      DaysFromCivilOrdered(b, a);
    }
  }
}
