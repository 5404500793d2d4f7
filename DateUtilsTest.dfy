/** The fixed vectors of src/__tests__/dateUtils.test.ts, as lemmas about the model. */
module DateUtilsTest {
  import opened Calendar
  import opened JsDates
  import opened DateUtils

  /** The Date a serial decodes to, whenever the day is known to be the given valid date. */
  lemma DecodesTo(serial: real, c: CivilDate)
    requires ValidCivil(c) && DayOffset(serial) == DaysFromCivil(c)
    requires -100000000 <= DaysFromCivil(c) <= 100000000
    ensures GetFullYear(ExcelDateToJSDate(serial)) == Int(c.year)
    ensures GetMonth(ExcelDateToJSDate(serial)) == Int(c.month)
    ensures GetDate(ExcelDateToJSDate(serial)) == Int(c.day)
  {
    CivilRoundTrip(c);
  }

  /** Serial 40513 is 2010-12-01 (month index 11). */
  lemma Serial40513()
    ensures GetFullYear(ExcelDateToJSDate(40513.0)) == Int(2010)
    ensures GetMonth(ExcelDateToJSDate(40513.0)) == Int(11)
    ensures GetDate(ExcelDateToJSDate(40513.0)) == Int(1)
  {
    var c := CivilDate(2010, 11, 1);
    assert DaysInYear(2010) == 365 && DayFromYear(2010) == 14610;
    assert DaysFromCivil(c) == 14944;
    DecodesTo(40513.0, c);
  }

  /** Serial 1 falls in 1899: it is 1899-12-31, the spreadsheet epoch's off-by-two quirk kept. */
  lemma Serial1()
    ensures GetFullYear(ExcelDateToJSDate(1.0)) == Int(1899)
    ensures GetMonth(ExcelDateToJSDate(1.0)) == Int(11)
    ensures GetDate(ExcelDateToJSDate(1.0)) == Int(31)
  {
    var c := CivilDate(1899, 11, 31);
    assert DaysInYear(1899) == 365 && DayFromYear(1899) == -25932;
    assert DaysFromCivil(c) == -25568;
    DecodesTo(1.0, c);
  }

  /** Serial 44197 is 2021-01-01 (month index 0). */
  lemma Serial44197()
    ensures GetFullYear(ExcelDateToJSDate(44197.0)) == Int(2021)
    ensures GetMonth(ExcelDateToJSDate(44197.0)) == Int(0)
    ensures GetDate(ExcelDateToJSDate(44197.0)) == Int(1)
  {
    var c := CivilDate(2021, 0, 1);
    assert DaysInYear(2021) == 365 && DayFromYear(2021) == 18628;
    DecodesTo(44197.0, c);
  }

  /** new Date(y, m, d) formats as its canonical rendering. */
  lemma FormatsAs(c: CivilDate)
    requires ValidCivil(c) && !(0 <= c.year <= 99)
    requires -100000000 <= DaysFromCivil(c) <= 100000000
    ensures FormatDate(NewDateFromParts(c.year, c.month, c.day)) == CanonicalDate(c)
  {
    DayOfMidnight(DaysFromCivil(c));
    CivilRoundTrip(c);
    FormatValidDate(DaysFromCivil(c) * MsPerDay);
  }

  /** The four digits of a year from 1000 to 9999, most significant first. */
  lemma YearDigits(y: nat)
    requires 1000 <= y <= 9999
    ensures Strings.IntToString(y)
         == [Strings.DigitChar(y / 1000), Strings.DigitChar(y / 100 % 10),
             Strings.DigitChar(y / 10 % 10), Strings.DigitChar(y % 10)]
  {
    assert Strings.NatToString(y / 1000) == [Strings.DigitChar(y / 1000)];
    assert y / 100 / 10 == y / 1000 && y / 10 / 10 == y / 100;
    assert Strings.NatToString(y / 100) == [Strings.DigitChar(y / 1000), Strings.DigitChar(y / 100 % 10)];
    assert Strings.NatToString(y / 10)
        == [Strings.DigitChar(y / 1000), Strings.DigitChar(y / 100 % 10), Strings.DigitChar(y / 10 % 10)];
  }

  /** The rendering of a date in years 1000 to 9999, character by character. */
  lemma CanonicalDigits(c: CivilDate)
    requires ValidCivil(c) && 1000 <= c.year <= 9999
    ensures CanonicalDate(c)
         == [Strings.DigitChar(c.year / 1000), Strings.DigitChar(c.year / 100 % 10),
             Strings.DigitChar(c.year / 10 % 10), Strings.DigitChar(c.year % 10), '-',
             Strings.DigitChar((c.month + 1) / 10), Strings.DigitChar((c.month + 1) % 10), '-',
             Strings.DigitChar(c.day / 10), Strings.DigitChar(c.day % 10)]
  {
    YearDigits(c.year);
    DaysInMonthRange(c.month, InLeapYear(c.year));
  }

  lemma Canonical(c: CivilDate, s: string)
    requires ValidCivil(c) && 1000 <= c.year <= 9999
    requires s == [Strings.DigitChar(c.year / 1000), Strings.DigitChar(c.year / 100 % 10),
             Strings.DigitChar(c.year / 10 % 10), Strings.DigitChar(c.year % 10), '-',
             Strings.DigitChar((c.month + 1) / 10), Strings.DigitChar((c.month + 1) % 10), '-',
             Strings.DigitChar(c.day / 10), Strings.DigitChar(c.day % 10)]
    requires -100000000 <= DaysFromCivil(c) <= 100000000
    ensures FormatDate(NewDateFromParts(c.year, c.month, c.day)) == s
  {
    CanonicalDigits(c);
    FormatsAs(c);
  }

  lemma FormatDecember2010()
    ensures FormatDate(NewDateFromParts(2010, 11, 1)) == "2010-12-01"
  {
    assert DaysInYear(2010) == 365 && DayFromYear(2010) == 14610;
    Canonical(CivilDate(2010, 11, 1), "2010-12-01");
  }

  lemma FormatJanuary2021()
    ensures FormatDate(NewDateFromParts(2021, 0, 5)) == "2021-01-05"
  {
    assert DaysInYear(2021) == 365 && DayFromYear(2021) == 18628;
    Canonical(CivilDate(2021, 0, 5), "2021-01-05");
  }

  lemma FormatYearEnd2023()
    ensures FormatDate(NewDateFromParts(2023, 11, 31)) == "2023-12-31"
  {
    assert DaysInYear(2023) == 365 && DayFromYear(2023) == 19358;
    Canonical(CivilDate(2023, 11, 31), "2023-12-31");
  }
}
