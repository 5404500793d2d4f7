/** src/utils/dateUtils.ts: decoding a spreadsheet serial date into a Date at UTC
    midnight, and rendering a Date's local year, month and day as "Y-MM-DD".
    The serial is a real number of days in which serial 25569 is 1970-01-01; the
    fraction (time of day) is dropped by the floor. */
module DateUtils {
  import opened Wrappers
  import opened Strings
  import opened Calendar
  import opened JsDates

  /** The spreadsheet serial of 1970-01-01. */
  const UnixEpochSerial := 25569

  const SecondsPerDay := 86400

  /** Whole days from 1970-01-01 to the day of the serial: floor(serial - 25569). */
  function DayOffset(serial: real): int
  {
    (serial - UnixEpochSerial as real).Floor
  }

  /** excelDateToJSDate: the Date at UTC midnight of the serial's day; beyond
      10^8 days from 1970-01-01 the constructor gives an Invalid Date. */
  function ExcelDateToJSDate(serial: real): (date: JsDate)
    ensures date.Time? <==> -100000000 <= DayOffset(serial) <= 100000000
    ensures date.Time? ==> Day(date.ms) == DayOffset(serial) && date.ms % MsPerDay == 0
  {
    var utcDays := DayOffset(serial);
    var utcValue := utcDays * SecondsPerDay;
    DayOfMidnight(utcDays);
    NewDate(utcValue * 1000)
  }

  /** A valid decoded Date is the midnight that starts the serial's day. */
  lemma DecodedMidnight(serial: real)
    requires InDateRange(serial)
    ensures Day(ExcelDateToJSDate(serial).ms) == DayOffset(serial)
    ensures ExcelDateToJSDate(serial).ms % MsPerDay == 0
  {
    DayOfMidnight(DayOffset(serial));
  }

  /** The serial decodes to a valid Date. */
  predicate InDateRange(serial: real)
  {
    -100000000 <= DayOffset(serial) <= 100000000
  }

  /** The calendar date of the serial's day. */
  function SerialCivil(serial: real): CivilDate
  {
    CivilFromDays(DayOffset(serial))
  }

  /** The reference rendering of a valid date: the year's decimal digits, '-', the
      1-based month as two digits, '-', the day as two digits. */
  function CanonicalDate(c: CivilDate): string
    requires ValidCivil(c)
  {
    DaysInMonthRange(c.month, InLeapYear(c.year));
    IntToString(c.year) + "-" + TwoDigits(c.month + 1) + "-" + TwoDigits(c.day)
  }

  /** formatDate: getFullYear, then getMonth() + 1 and getDate() padded to two
      digits with '0', joined by '-'. An Invalid Date gives "NaN-NaN-NaN". */
  function FormatDate(date: JsDate): (s: string)
    ensures date.InvalidDate? ==> s == "NaN-NaN-NaN"
  {
    var year := GetFullYear(date);
    var month := PadStart(NumberToString(AddNum(GetMonth(date), 1)), 2, '0');
    var day := PadStart(NumberToString(GetDate(date)), 2, '0');
    NumberToString(year) + "-" + month + "-" + day
  }

  /** A valid Date formats as the canonical rendering of its local calendar date. */
  lemma FormatValidDate(t: int)
    ensures FormatDate(Time(t)) == CanonicalDate(LocalCivil(t))
  {
    YearField(t);
    MonthField(t);
    DayField(t);
  }

  /** String(getFullYear()): the decimal digits of the year. */
  lemma YearField(t: int)
    ensures NumberToString(GetFullYear(Time(t))) == IntToString(LocalCivil(t).year)
  {
  }

  /** getMonth() + 1, padded: the two digits of the 1-based month. */
  lemma MonthField(t: int)
    ensures LocalCivil(t).month + 1 < 100
    ensures PadStart(NumberToString(AddNum(GetMonth(Time(t)), 1)), 2, '0') == TwoDigits(LocalCivil(t).month + 1)
  {
    var m := LocalCivil(t).month;
    assert AddNum(GetMonth(Time(t)), 1) == Int(m + 1);
    PaddedNumber(m + 1);
  }

  /** getDate(), padded: the two digits of the day of the month. */
  lemma DayField(t: int)
    ensures 0 <= LocalCivil(t).day < 100
    ensures PadStart(NumberToString(GetDate(Time(t))), 2, '0') == TwoDigits(LocalCivil(t).day)
  {
    var d := LocalCivil(t).day;
    assert GetDate(Time(t)) == Int(d);
    PaddedNumber(d);
  }

  lemma PaddedNumber(v: int)
    requires 0 <= v < 100
    ensures PadStart(NumberToString(Int(v)), 2, '0') == TwoDigits(v)
  {
    PadStartTwoDigits(v);
  }

  /** Reads a canonical date back: the year is everything before the last six
      characters, which must be '-', two digits, '-', two digits. */
  function ParseCanonicalDate(s: string): Option<CivilDate>
  {
    if |s| < 7 || s[|s| - 6] != '-' || s[|s| - 3] != '-'
       || !AllDigits(s[|s| - 5..|s| - 3]) || !AllDigits(s[|s| - 2..])
    then None
    else
      match ParseInt(s[..|s| - 6])
      case None => None
      case Some(y) =>
        var c := CivilDate(y, DigitsValue(s[|s| - 5..|s| - 3]) - 1, DigitsValue(s[|s| - 2..]));
        if ValidCivil(c) then Some(c) else None
  }

  lemma TwoDigitsValue(v: nat)
    requires v < 100
    ensures AllDigits(TwoDigits(v)) && DigitsValue(TwoDigits(v)) == v
  {
    var s := TwoDigits(v);
    assert s[..1] == [s[0]] && s[..1][..0] == [];
    assert DigitsValue(s[..1]) == v / 10;
    assert DigitsValue(s) == 10 * (v / 10) + v % 10;
  }

  /** The rendering loses nothing: the date can be read back from it. */
  lemma ParseCanonicalDateRoundTrip(c: CivilDate)
    requires ValidCivil(c)
    ensures ParseCanonicalDate(CanonicalDate(c)) == Some(c)
  {
    var y := IntToString(c.year);
    var s := CanonicalDate(c);
    assert |s| == |y| + 6;
    assert s[..|s| - 6] == y;
    assert s[|s| - 5..|s| - 3] == TwoDigits(c.month + 1);
    assert s[|s| - 2..] == TwoDigits(c.day);
    TwoDigitsValue(c.month + 1);
    TwoDigitsValue(c.day);
    ParseIntToString(c.year);
  }

  /** formatDate tells valid dates apart. */
  lemma CanonicalDateInjective(a: CivilDate, b: CivilDate)
    requires ValidCivil(a) && ValidCivil(b)
    ensures CanonicalDate(a) == CanonicalDate(b) <==> a == b
  {
    ParseCanonicalDateRoundTrip(a);
    ParseCanonicalDateRoundTrip(b);
  }

  /** Strings of three '-'-separated fields whose first two fields have equal
      lengths compare field by field. */
  lemma LexLessFields(x: string, y: string, z: string, x': string, y': string, z': string)
    requires |x| == |x'| && |y| == |y'|
    ensures LexLess(x + "-" + y + "-" + z, x' + "-" + y' + "-" + z')
        <==> LexLess(x, x') || (x == x' && (LexLess(y, y') || (y == y' && LexLess(z, z'))))
  {
    LexLessIrreflexive("-");
    LexLessConcat(x, "-", x', "-");
    LexLessConcat(y, "-", y', "-");
    assert x + "-" == x' + "-" ==> x == x' by {
      if x + "-" == x' + "-" {
        assert x == (x + "-")[..|x|];
      }
    }
    assert y + "-" == y' + "-" ==> y == y' by {
      if y + "-" == y' + "-" {
        assert y == (y + "-")[..|y|];
      }
    }
    assert x + "-" + y + "-" + z == (x + "-") + ((y + "-") + z);
    assert x' + "-" + y' + "-" + z' == (x' + "-") + ((y' + "-") + z');
    LexLessConcat(x + "-", (y + "-") + z, x' + "-", (y' + "-") + z');
    LexLessConcat(y + "-", z, y' + "-", z');
  }

  lemma YearFieldOrder(y1: int, y2: int)
    requires 1000 <= y1 <= 9999 && 1000 <= y2 <= 9999
    ensures |IntToString(y1)| == |IntToString(y2)| == 4
    ensures LexLess(IntToString(y1), IntToString(y2)) <==> y1 < y2
    ensures IntToString(y1) == IntToString(y2) <==> y1 == y2
  {
    FourDigits(y1);
    FourDigits(y2);
    NatToStringValue(y1);
    NatToStringValue(y2);
    LexLessDigits(IntToString(y1), IntToString(y2));
  }

  lemma TwoDigitsOrder(v1: nat, v2: nat)
    requires v1 < 100 && v2 < 100
    ensures LexLess(TwoDigits(v1), TwoDigits(v2)) <==> v1 < v2
    ensures TwoDigits(v1) == TwoDigits(v2) <==> v1 == v2
  {
    TwoDigitsValue(v1);
    TwoDigitsValue(v2);
    LexLessDigits(TwoDigits(v1), TwoDigits(v2));
  }

  /** Renderings with four-digit years compare field by field: year, then month, then day. */
  lemma CanonicalDateFields(a: CivilDate, b: CivilDate)
    requires ValidCivil(a) && ValidCivil(b)
    requires 1000 <= a.year <= 9999 && 1000 <= b.year <= 9999
    ensures LexLess(CanonicalDate(a), CanonicalDate(b))
        <==> LexLess(IntToString(a.year), IntToString(b.year))
             || (IntToString(a.year) == IntToString(b.year)
                 && (LexLess(TwoDigits(a.month + 1), TwoDigits(b.month + 1))
                     || (TwoDigits(a.month + 1) == TwoDigits(b.month + 1)
                         && LexLess(TwoDigits(a.day), TwoDigits(b.day)))))
  {
    DaysInMonthRange(a.month, InLeapYear(a.year));
    DaysInMonthRange(b.month, InLeapYear(b.year));
    FourDigits(a.year);
    FourDigits(b.year);
    LexLessFields(IntToString(a.year), TwoDigits(a.month + 1), TwoDigits(a.day),
                  IntToString(b.year), TwoDigits(b.month + 1), TwoDigits(b.day));
  }

  /** With four-digit years, ordinal string order of the renderings is chronological order. */
  lemma CanonicalDateOrder(a: CivilDate, b: CivilDate)
    requires ValidCivil(a) && ValidCivil(b)
    requires 1000 <= a.year <= 9999 && 1000 <= b.year <= 9999
    ensures LexLess(CanonicalDate(a), CanonicalDate(b)) <==> CivilBefore(a, b)
  {
    DaysInMonthRange(a.month, InLeapYear(a.year));
    DaysInMonthRange(b.month, InLeapYear(b.year));
    CanonicalDateFields(a, b);
    YearFieldOrder(a.year, b.year);
    TwoDigitsOrder(a.month + 1, b.month + 1);
    TwoDigitsOrder(a.day, b.day);
  }

  /** A serial in range decodes to a valid Date whose local calendar date is the serial's day. */
  lemma DecodedCivil(serial: real)
    requires InDateRange(serial)
    ensures ExcelDateToJSDate(serial).Time?
    ensures LocalCivil(ExcelDateToJSDate(serial).ms) == SerialCivil(serial)
  {
    assert Day(ExcelDateToJSDate(serial).ms) == DayOffset(serial);
  }

  /** Every serial in [n, n + 1) falls on the same day, n - 25569 days after 1970-01-01. */
  lemma SameDayWithinSerialUnit(serial: real, n: int)
    requires n as real <= serial < n as real + 1.0
    ensures DayOffset(serial) == n - UnixEpochSerial
  {
  }

  /** Serial 25569 is 1970-01-01, time value 0. */
  lemma UnixEpochSerialIsEpoch()
    ensures ExcelDateToJSDate(UnixEpochSerial as real) == Time(0)
    ensures SerialCivil(UnixEpochSerial as real) == CivilDate(1970, 0, 1)
  {
    assert DayOffset(UnixEpochSerial as real) == 0;
    assert ExcelDateToJSDate(UnixEpochSerial as real) == Time(0);
    var epoch := CivilDate(1970, 0, 1);
    assert ValidCivil(epoch) && DaysFromCivil(epoch) == 0 by {
      assert DaysInYear(1970) == 365;
      assert DayFromYear(1970) == 0;
    }
    CivilRoundTrip(epoch);
    assert Day(0) == 0;
  }

  /** Decoding is monotone: a later serial never falls on an earlier day. */
  lemma DecodeMonotone(s: real, t: real)
    requires s <= t
    ensures !CivilBefore(SerialCivil(t), SerialCivil(s))
  {
    CivilOrderIsDayOrder(DayOffset(t), DayOffset(s));
  }

  /** Serial n + 1 decodes to the calendar day after serial n. */
  lemma NextSerialIsNextDay(n: int)
    ensures SerialCivil(n as real + 1.0) == NextDay(SerialCivil(n as real))
  {
    var d := n - UnixEpochSerial;
    assert DayOffset(n as real) == d && DayOffset(n as real + 1.0) == d + 1 by {
      SameDayWithinSerialUnit(n as real, n);
      SameDayWithinSerialUnit(n as real + 1.0, n + 1);
    }
    NextDayIsSuccessor(d);
  }

  /** A serial in range formats as the canonical rendering of its day. */
  lemma FormatSerial(s: real)
    requires InDateRange(s)
    ensures FormatDate(ExcelDateToJSDate(s)) == CanonicalDate(SerialCivil(s))
  {
    DecodedCivil(s);
    FormatValidDate(ExcelDateToJSDate(s).ms);
  }

  /** A serial in range does not format as an Invalid Date does: its rendering ends in a digit. */
  lemma FormatSerialNotNaN(s: real)
    requires InDateRange(s)
    ensures FormatDate(ExcelDateToJSDate(s)) != "NaN-NaN-NaN"
  {
    FormatSerial(s);
    var f := CanonicalDate(SerialCivil(s));
    assert IsDigit(f[|f| - 1]);
  }

  /** Two serials give the same string exactly when both are out of range or both fall on the same day. */
  lemma FormatDecodedInjective(s: real, t: real)
    ensures FormatDate(ExcelDateToJSDate(s)) == FormatDate(ExcelDateToJSDate(t))
        <==> (!InDateRange(s) && !InDateRange(t))
             || (InDateRange(s) && InDateRange(t) && DayOffset(s) == DayOffset(t))
  {
    if InDateRange(s) && InDateRange(t) {
      FormatSerial(s);
      FormatSerial(t);
      CanonicalDateInjective(SerialCivil(s), SerialCivil(t));
      if SerialCivil(s) == SerialCivil(t) {
        CivilFromDaysInjective(DayOffset(s), DayOffset(t));
      }
    } else if InDateRange(s) {
      FormatSerialNotNaN(s);
    } else if InDateRange(t) {
      FormatSerialNotNaN(t);
    }
  }

  /** For serials in years 1000 to 9999, the formatted strings sort like the days. */
  lemma FormatDecodedOrder(s: real, t: real)
    requires InDateRange(s) && InDateRange(t)
    requires 1000 <= SerialCivil(s).year <= 9999 && 1000 <= SerialCivil(t).year <= 9999
    ensures LexLess(FormatDate(ExcelDateToJSDate(s)), FormatDate(ExcelDateToJSDate(t)))
        <==> DayOffset(s) < DayOffset(t)
  {
    FormatSerial(s);
    FormatSerial(t);
    CanonicalDateOrder(SerialCivil(s), SerialCivil(t));
    CivilOrderIsDayOrder(DayOffset(s), DayOffset(t));
  }
}
