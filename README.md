# Invoice statistics: date helpers and aggregation passes

This project models the data core of an invoice dashboard. The dashboard reads the rows
of a spreadsheet of invoice lines and computes two tables from them:

- `countryStats`: for each country, the number of distinct customer ids seen on its rows,
  sorted from the largest count to the smallest.
- `dailyStats`: for each calendar day, the number of rows invoiced on it, sorted by the
  `YYYY-MM-DD` string of the day.

Two date helpers serve the daily table:

- `excelDateToJSDate` turns a spreadsheet serial date into a JavaScript `Date` at UTC
  midnight.
- `formatDate` renders a `Date` as `YYYY-MM-DD`.

Three places hold this code:

- `src/utils/dateUtils.ts`: the helpers.
- `src/composables/useExcelData.ts`: a Vue composable with its own copies of the helpers.
  It runs both passes inside `loadData`.
- `scripts/processExcel.js`: a preprocessing script with a third copy of the helpers and of
  both passes.

The modules are:

- `Strings`: `Number::toString` of integers below 10^21 in magnitude, `padStart`, and ordinal string order. Parsing
  is given as the partner of rendering.
- `Calendar`: the proleptic Gregorian day arithmetic of ECMA-262 section 21.4.1, meaning
  `DayFromYear`, `YearFromTime`, `MonthFromTime`, `DateFromTime` and `MakeDay`.
  `DaysFromCivil` is the inverse of `CivilFromDays`.
- `JsDates`: the `Date` values the helpers touch. This covers the TimeClip of the
  constructor and the local getters with a time zone offset of 0.
- `DateUtils`: the two helpers, with:
  - their decoding and rendering properties;
  - a parser that reads the rendering back;
  - the proof that, for four-digit years, ordinal order of the rendered strings is
    chronological order.
- `DateUtilsTest`: the vectors of `src/__tests__/dateUtils.test.ts`, proved about the model.
- `Invoice`: the row fields the passes read, the two output records, and the truthiness
  tests of the passes.
- `CustomersByCountry` and `InvoicesByDay`: what each pass computes, stated as functions of
  the rows. Each module also holds the per-row step shared by the composable and the
  script, and the sort as the stable sort with the comparator the code passes.
- `UseExcelData`: the composable. Its loops are proved against those functions. Its state
  is a class whose `LoadData` method receives the outcome of the fetch and parse.
- `ProcessExcel`: the script. Its loops are proved against the same functions. It returns
  the two tables and the two lengths it logs.

## Model

| member | source | states |
|---|---|---|
| JsDates.NewDate | src/utils/dateUtils.ts:12 | `new Date(ms)` is valid exactly when `ms` lies within ±8.64e15 (TimeClip), and then it holds `ms` |
| JsDates.DayOfMidnight | src/utils/dateUtils.ts:11-12 | a whole number of days times 86400000 ms falls on that day |
| JsDates.Day | src/utils/dateUtils.ts:22-24 | no contract; defined as the time value divided by 86400000, rounded down (ECMA-262 Day); properties in JsDates.DayOfMidnight |
| JsDates.LocalTime | src/utils/dateUtils.ts:22-24 | no contract; defined as the time value itself, the local time in a zone of offset 0; properties in DateUtils.DecodedCivil |
| JsDates.LocalCivil | src/utils/dateUtils.ts:22-24 | no contract; defined as the calendar date of the local time's day; properties in Calendar.CivilFromDays and DateUtils.DecodedCivil |
| JsDates.GetFullYear | src/utils/dateUtils.ts:22 | no contract; defined as the local date's year, or NaN for an Invalid Date; properties in DateUtils.YearField and DateUtils.FormatDate |
| JsDates.GetMonth | src/utils/dateUtils.ts:23 | no contract; defined as the local date's 0-based month index, or NaN for an Invalid Date; properties in DateUtils.MonthField |
| JsDates.GetDate | src/utils/dateUtils.ts:24 | no contract; defined as the local date's day of the month, or NaN for an Invalid Date; properties in DateUtils.DayField |
| JsDates.AddNum | src/utils/dateUtils.ts:23 | no contract; defined as Number addition of an integer, NaN staying NaN; properties in DateUtils.MonthField and DateUtils.FormatDate |
| JsDates.NumberToString | src/utils/dateUtils.ts:22-25 | no contract; defined as `String(x)`: the decimal rendering of an integer, "NaN" for NaN; properties in DateUtils.YearField and Strings.ParseIntToString |
| JsDates.NewDateFromParts | src/__tests__/dateUtils.test.ts:30-42 | no contract; defined as `new Date(y, m, d)` at midnight, a year 0 to 99 meaning 1900 + year; properties in DateUtilsTest.FormatsAs |
| Calendar.MonthFromDayWithinYear | src/utils/dateUtils.ts:23 | the month found for a day of the year is the one whose start and end enclose it |
| Calendar.DayFromYear | src/utils/dateUtils.ts:22 | no contract; defined as ECMA-262 DayFromYear, the day number of 1 January of a year; properties in Calendar.DayFromYearStep and Calendar.DayFromYearMonotone |
| Calendar.DaysInYear | src/utils/dateUtils.ts:22 | no contract; defined as 366 for years divisible by 4 and not by 100, or by 400, else 365; properties in Calendar.DayFromYearStep and Calendar.YearFromDay |
| Calendar.InLeapYear | src/utils/dateUtils.ts:23-24 | no contract; defined as a year of 366 days; properties in Calendar.DaysInMonthRange |
| Calendar.MonthStart | src/utils/dateUtils.ts:23 | no contract; defined as the day within the year on which a month starts, one later from March in a leap year; properties in Calendar.MonthStartMonotone and Calendar.MonthFromDayWithinYear |
| Calendar.MonthStartMonotone | src/utils/dateUtils.ts:23 | months start in increasing order within a year |
| Calendar.DaysInMonth | src/utils/dateUtils.ts:24 | no contract; defined as the gap between a month's start and the next; properties in Calendar.DaysInMonthRange |
| Calendar.ValidCivil | src/utils/dateUtils.ts:22-24 | no contract; defined as a month index 0 to 11 and a day from 1 to the month's length; properties in Calendar.CivilFromDays and Calendar.CivilRoundTrip |
| Calendar.DaysFromCivil | src/utils/dateUtils.ts:22-24 | no contract; defined as ECMA-262 MakeDay: the year's first day, plus the month's start, plus the day - 1; properties in Calendar.CivilRoundTrip and Calendar.CivilFromDays |
| Calendar.NextDay | src/utils/dateUtils.ts:22-24 | no contract; defined as the next day of the month, or the first of the next month or year; properties in Calendar.NextDayAdvancesByOne and Calendar.NextDayIsSuccessor |
| Calendar.CivilBefore | src/utils/dateUtils.ts:22-24 | no contract; defined as earlier by year, then month, then day; properties in Calendar.DaysFromCivilOrdered and Calendar.CivilOrderIsDayOrder |
| Calendar.YearFromDay | src/utils/dateUtils.ts:22 | the year found for a day number is one whose days contain it |
| Calendar.YearFromDayUnique | src/utils/dateUtils.ts:22 | that year is the only year whose days contain the day |
| Calendar.CivilFromDays | src/utils/dateUtils.ts:22-24 | the year, month and day read from a day number form a valid date whose day number is that day |
| Calendar.DaysInMonthRange | src/utils/dateUtils.ts:24 | every month has 28 to 31 days |
| Calendar.DayFromYearStep | src/utils/dateUtils.ts:22 | each year starts where the previous one ends |
| Calendar.DayFromYearMonotone | src/utils/dateUtils.ts:22 | years start in increasing order |
| Calendar.CivilRoundTrip | src/utils/dateUtils.ts:22-24 | MakeDay followed by the getters gives back any valid date |
| Calendar.CivilFromDaysInjective | src/utils/dateUtils.ts:22-24 | different day numbers give different dates |
| Calendar.NextDayAdvancesByOne | src/utils/dateUtils.ts:22-24 | the calendar successor of a valid date is valid and one day number later |
| Calendar.NextDayIsSuccessor | src/utils/dateUtils.ts:22-24 | day n + 1 reads as the calendar successor of day n |
| Calendar.DaysFromCivilOrdered | src/utils/dateUtils.ts:22-24 | a date earlier by year, month, day has a smaller day number |
| Calendar.CivilOrderIsDayOrder | src/utils/dateUtils.ts:22-24 | day numbers and dates are in the same order, both directions |
| Strings.DigitChar | src/utils/dateUtils.ts:23-24 | a digit below 10 renders as the character with that digit value |
| Strings.IsDigit | src/utils/dateUtils.ts:22-25 | no contract; defined as a character from '0' to '9'; properties in Strings.DigitChar and Strings.NatToString |
| Strings.AllDigits | src/utils/dateUtils.ts:22-25 | no contract; defined as every character a digit; properties in Strings.NatToString |
| Strings.DigitValue | src/utils/dateUtils.ts:22-25 | no contract; defined as the digit's distance from '0'; properties in Strings.DigitChar |
| Strings.DigitsValue | src/utils/dateUtils.ts:22-25 | no contract; defined as the decimal value of a digit string; properties in Strings.NatToStringValue and DateUtils.TwoDigitsValue |
| Strings.ParseInt | src/utils/dateUtils.ts:22-25 | no contract; defined as the integer read from an optional '-' and digits without a leading zero, None otherwise; properties in Strings.ParseIntToString |
| Strings.PadStart | src/utils/dateUtils.ts:23-24 | no contract; defined as `padStart(target, fill)`: fill characters in front up to the target length; properties in Strings.PadStartShape and Strings.PadStartTwoDigits |
| Strings.TwoDigits | src/utils/dateUtils.ts:23-24 | no contract; defined as the tens digit then the units digit of a number below 100; properties in DateUtils.TwoDigitsValue, DateUtils.TwoDigitsOrder and Strings.PadStartTwoDigits |
| Strings.LexLess | src/composables/useExcelData.ts:80 | no contract; defined as ordinal string order, a proper prefix first; properties in Strings.LexLessIrreflexive, Strings.LexLessTransitive, Strings.LexLessTotal and Strings.LexLessDigits |
| Strings.NatToString | src/utils/dateUtils.ts:22-25 | the decimal rendering is non-empty, all digits, and starts with '0' only for 0 |
| Strings.IntToString | src/utils/dateUtils.ts:25 | `String(n)` starts with '-' exactly when n is negative |
| Strings.NatToStringValue | src/utils/dateUtils.ts:23-25 | the digits rendered for n have the value n |
| Strings.ParseIntToString | src/utils/dateUtils.ts:25 | parsing `String(n)` gives back n |
| Strings.IntToStringInjective | src/utils/dateUtils.ts:25 | different years render differently |
| Strings.FourDigits | src/utils/dateUtils.ts:22 | a year from 1000 to 9999 renders with four characters |
| Strings.PadStartShape | src/utils/dateUtils.ts:23-24 | `padStart` reaches the target length or keeps a longer string, ends with the string, and is filled in front |
| Strings.PadStartTwoDigits | src/utils/dateUtils.ts:23-24 | `String(v).padStart(2, "0")` for v below 100 is the tens digit, then the units digit |
| Strings.LexLessIrreflexive | src/composables/useExcelData.ts:80 | no string sorts before itself |
| Strings.LexLessTransitive | src/composables/useExcelData.ts:80 | ordinal order is transitive |
| Strings.LexLessTotal | src/composables/useExcelData.ts:80 | of two different strings, one sorts before the other |
| Strings.LexLessAsymmetric | src/composables/useExcelData.ts:80 | two strings never sort before each other |
| Strings.LexLessConcat | src/composables/useExcelData.ts:80 | concatenations whose first parts have equal length compare by first part, then by second part |
| Strings.LexLessDigits | src/composables/useExcelData.ts:80 | on digit strings of equal length, ordinal order is numeric order, and equality is equal value |
| DateUtils.ExcelDateToJSDate | src/utils/dateUtils.ts:9-13 | the Date is valid exactly when floor(serial - 25569) is within 10^8 days; a valid Date is midnight of that day |
| DateUtils.DayOffset | src/utils/dateUtils.ts:10 | no contract; defined as floor(serial - 25569); properties in DateUtils.SameDayWithinSerialUnit and DateUtils.ExcelDateToJSDate |
| DateUtils.InDateRange | src/utils/dateUtils.ts:10-12 | no contract; defined as a day offset within 10^8 days of 1970-01-01; properties in DateUtils.ExcelDateToJSDate and DateUtils.FormatSerialNotNaN |
| DateUtils.SerialCivil | src/utils/dateUtils.ts:9-13 | no contract; defined as the calendar date of the serial's day offset; properties in DateUtils.DecodedCivil and DateUtils.NextSerialIsNextDay |
| DateUtils.CanonicalDate | src/utils/dateUtils.ts:21-26 | no contract; defined as the year's digits, '-', two digits of the 1-based month, '-', two digits of the day; properties in DateUtils.ParseCanonicalDateRoundTrip, DateUtils.CanonicalDateInjective and DateUtils.CanonicalDateOrder |
| DateUtils.ParseCanonicalDate | src/utils/dateUtils.ts:21-26 | no contract; defined as the inverse reading of a YYYY-MM-DD string, None when malformed; properties in DateUtils.ParseCanonicalDateRoundTrip |
| DateUtils.DecodedMidnight | src/utils/dateUtils.ts:10-12 | a serial in range decodes to the midnight of day floor(serial - 25569) |
| DateUtils.DecodedCivil | src/utils/dateUtils.ts:9-13 | a serial in range decodes to a Date whose local date is the serial's calendar day |
| DateUtils.SameDayWithinSerialUnit | src/utils/dateUtils.ts:10 | every serial in [n, n + 1) falls on day n - 25569; the time of day is dropped |
| DateUtils.UnixEpochSerialIsEpoch | src/utils/dateUtils.ts:10 | serial 25569 decodes to time value 0, which is 1970-01-01 |
| DateUtils.DecodeMonotone | src/utils/dateUtils.ts:9-13 | a later serial never falls on an earlier day |
| DateUtils.NextSerialIsNextDay | src/utils/dateUtils.ts:9-13 | serial n + 1 falls on the calendar day after serial n |
| DateUtils.FormatDate | src/utils/dateUtils.ts:21-26 | an Invalid Date formats as "NaN-NaN-NaN" |
| DateUtils.FormatValidDate | src/utils/dateUtils.ts:21-26 | a valid Date formats as its local year, '-', the 1-based month in two digits, '-', the day in two digits |
| DateUtils.YearField | src/utils/dateUtils.ts:22 | `String(getFullYear())` is the decimal rendering of the local year |
| DateUtils.MonthField | src/utils/dateUtils.ts:23 | the padded `getMonth() + 1` is the two digits of the 1-based month |
| DateUtils.DayField | src/utils/dateUtils.ts:24 | the padded `getDate()` is the two digits of the day |
| DateUtils.PaddedNumber | src/utils/dateUtils.ts:23-24 | `String(v).padStart(2, "0")` for 0 <= v < 100 is v's two digits |
| DateUtils.TwoDigitsValue | src/utils/dateUtils.ts:23-24 | the two padded digits read back as the number |
| DateUtils.ParseCanonicalDateRoundTrip | src/utils/dateUtils.ts:21-26 | the formatted string of a valid date parses back to that date |
| DateUtils.CanonicalDateInjective | src/utils/dateUtils.ts:21-26 | two valid dates format alike exactly when they are equal |
| DateUtils.LexLessFields | src/utils/dateUtils.ts:25 | '-'-joined fields of equal widths compare field by field |
| DateUtils.YearFieldOrder | src/utils/dateUtils.ts:22 | four-digit years compare as strings as they compare as numbers |
| DateUtils.TwoDigitsOrder | src/utils/dateUtils.ts:23-24 | padded months and days compare as strings as they compare as numbers |
| DateUtils.CanonicalDateFields | src/utils/dateUtils.ts:21-26 | formatted dates with four-digit years compare by year, then month, then day field |
| DateUtils.CanonicalDateOrder | src/utils/dateUtils.ts:21-26 | for four-digit years, string order of formatted dates is chronological order, both directions |
| DateUtils.FormatSerial | src/utils/dateUtils.ts:9-26 | a serial in range formats as the rendering of its calendar day |
| DateUtils.FormatSerialNotNaN | src/utils/dateUtils.ts:9-26 | a serial in range never gives the Invalid Date string |
| DateUtils.FormatDecodedInjective | src/utils/dateUtils.ts:9-26 | two serials give the same string exactly when both are out of range or both fall on the same day |
| DateUtils.FormatDecodedOrder | src/utils/dateUtils.ts:9-26 | for serials in years 1000 to 9999, the strings sort exactly as the days do |
| DateUtilsTest.DecodesTo | src/__tests__/dateUtils.test.ts:7-24 | a serial whose day is a given valid date has that date's year, month index and day |
| DateUtilsTest.Serial40513 | src/__tests__/dateUtils.test.ts:7-12 | serial 40513 gives 2010, month index 11, day 1 |
| DateUtilsTest.Serial1 | src/__tests__/dateUtils.test.ts:14-17 | serial 1 gives year 1899 (1899-12-31) |
| DateUtilsTest.Serial44197 | src/__tests__/dateUtils.test.ts:19-24 | serial 44197 gives 2021, month index 0, day 1 |
| DateUtilsTest.FormatsAs | src/__tests__/dateUtils.test.ts:29-45 | `formatDate(new Date(y, m, d))` is the rendering of that date |
| DateUtilsTest.YearDigits | src/__tests__/dateUtils.test.ts:29-45 | a four-digit year renders as its four digits |
| DateUtilsTest.CanonicalDigits | src/__tests__/dateUtils.test.ts:29-45 | the rendering of a date in years 1000 to 9999, character by character |
| DateUtilsTest.Canonical | src/__tests__/dateUtils.test.ts:29-45 | `formatDate(new Date(y, m, d))` equals the character string spelled out for that date |
| DateUtilsTest.FormatDecember2010 | src/__tests__/dateUtils.test.ts:29-33 | `new Date(2010, 11, 1)` formats as "2010-12-01" |
| DateUtilsTest.FormatJanuary2021 | src/__tests__/dateUtils.test.ts:35-39 | `new Date(2021, 0, 5)` formats as "2021-01-05" |
| DateUtilsTest.FormatYearEnd2023 | src/__tests__/dateUtils.test.ts:41-45 | `new Date(2023, 11, 31)` formats as "2023-12-31" |
| Invoice.HasCountryAndCustomer | src/composables/useExcelData.ts:52 | no contract; defined as `record.Country && record.CustomerID` being truthy: a non-empty country and a non-zero id; properties in CustomersByCountry.Countries and CustomersByCountry.CustomersAreIds |
| Invoice.HasInvoiceDate | src/composables/useExcelData.ts:71 | no contract; defined as `record.InvoiceDate` being truthy: present and non-zero; properties in InvoicesByDay.DateKeysAreKeys and InvoicesByDay.DateKeysCount |
| CustomersByCountry.HasCountry | src/composables/useExcelData.ts:51-58 | no contract; defined as some qualifying row naming the country; properties in CustomersByCountry.HasCountryLast and CustomersByCountry.Countries |
| CustomersByCountry.HasCountryLast | src/composables/useExcelData.ts:51-58 | a country qualifies on rows exactly when it qualifies on all but the last row, or the last row qualifies with it |
| CustomersByCountry.Countries | src/composables/useExcelData.ts:50-58 | the keys of countryCustomerMap are distinct and are exactly the countries of rows with a truthy Country and CustomerID |
| CustomersByCountry.CountriesFirstAppearance | src/composables/useExcelData.ts:53-55 | a key earlier in countryCustomerMap belongs to a country named by a qualifying row before any row naming a later key: keys are in order of first appearance |
| CustomersByCountry.Customers | src/composables/useExcelData.ts:50-58 | no contract; defined as the ids of the qualifying rows of a country, gathered row by row; properties in CustomersByCountry.CustomersAreIds and CustomersByCountry.CustomersNonEmpty |
| CustomersByCountry.Groups | src/composables/useExcelData.ts:50-58 | no contract; defined as the Map's keys and Sets being those of the grouping of the rows seen; properties in CustomersByCountry.AddCustomer |
| CustomersByCountry.CustomersAreIds | src/composables/useExcelData.ts:50-58 | the Set under a country holds exactly the ids of that country's qualifying rows |
| CustomersByCountry.MapStep | src/composables/useExcelData.ts:52-56 | one more row adds its country at the end of the keys if new, and its id to that country's Set, and changes nothing else |
| CustomersByCountry.NoCustomersWithoutCountry | src/composables/useExcelData.ts:53-55 | a country not yet in the map has no ids, so starting it with an empty Set is right |
| CustomersByCountry.AddCustomer | src/composables/useExcelData.ts:51-58 | one turn of the forEach keeps the Map of Sets equal to the grouping of the rows seen so far |
| CustomersByCountry.CustomersNonEmpty | src/composables/useExcelData.ts:52-56 | every country in the map has at least one customer |
| CustomersByCountry.CountryTable | src/composables/useExcelData.ts:60-65 | no contract; defined as one (country, Set size) entry per key of the Map, in key order; properties in CustomersByCountry.CountryTableEntries |
| CustomersByCountry.CompareByCustomerCount | src/composables/useExcelData.ts:66 | no contract; defined as the comparator `b.customerCount - a.customerCount`; properties in CustomersByCountry.InsertPosition |
| CustomersByCountry.InsertByCustomerCount | src/composables/useExcelData.ts:66 | no contract; defined as putting an entry in front of the first one it compares below; properties in CustomersByCountry.InsertPosition, CustomersByCountry.InsertPermutes and CustomersByCountry.InsertWithCount |
| CustomersByCountry.SortByCustomerCount | src/composables/useExcelData.ts:66 | no contract; defined as the stable sort by that comparator, inserting the entries one by one; properties in CustomersByCountry.SortPermutes, CustomersByCountry.SortNonIncreasing and CustomersByCountry.SortStable |
| CustomersByCountry.CountryStats | src/composables/useExcelData.ts:60-66 | no contract; defined as the sorted country table; properties in CustomersByCountry.CountryStatsEntries, CustomersByCountry.CountryStatsOrdered and CustomersByCountry.CountryStatsTies |
| CustomersByCountry.NonIncreasing | src/composables/useExcelData.ts:66 | no contract; defined as counts never rising along the list; properties in CustomersByCountry.SortNonIncreasing |
| CustomersByCountry.WithCount | src/composables/useExcelData.ts:66 | no contract; defined as the entries of one count, in list order; properties in CustomersByCountry.SortStable |
| CustomersByCountry.DistinctCountries | src/composables/useExcelData.ts:60-66 | no contract; defined as no country listed twice; properties in CustomersByCountry.SortDistinct |
| CustomersByCountry.InsertPermutes | src/composables/useExcelData.ts:66 | one insertion step of the sort adds exactly the inserted entry |
| CustomersByCountry.SortPermutes | src/composables/useExcelData.ts:66 | the sort is a permutation of its input |
| CustomersByCountry.InsertPosition | src/composables/useExcelData.ts:66 | insertion puts an entry after every entry with a count at least as large, and before the next |
| CustomersByCountry.InsertNonIncreasing | src/composables/useExcelData.ts:66 | inserting into a non-increasing list keeps it non-increasing |
| CustomersByCountry.SortNonIncreasing | src/composables/useExcelData.ts:66 | the sorted list is non-increasing in customerCount |
| CustomersByCountry.WithCountConcat | src/composables/useExcelData.ts:66 | the entries of one count in a concatenation are those of each part, in order |
| CustomersByCountry.WithCountNone | src/composables/useExcelData.ts:66 | a list whose counts are all below n has no entries of count n |
| CustomersByCountry.WithCountSingle | src/composables/useExcelData.ts:66 | a one-entry list has that entry under its own count only |
| CustomersByCountry.TailBelow | src/composables/useExcelData.ts:66 | in a non-increasing list, everything from the insertion point on counts less than the inserted entry |
| CustomersByCountry.SpliceWithCount | src/composables/useExcelData.ts:66 | splicing an entry in front of smaller counts appends it to the entries of its own count |
| CustomersByCountry.InsertWithCount | src/composables/useExcelData.ts:66 | inserting into a non-increasing list appends the entry to those of its count |
| CustomersByCountry.SortStable | src/composables/useExcelData.ts:66 | entries with equal counts keep their relative order |
| CustomersByCountry.WithCountIndex | src/composables/useExcelData.ts:66 | every entry of count n is among the entries of count n |
| CustomersByCountry.WithCountMember | src/composables/useExcelData.ts:66 | every entry of count n comes from the list |
| CustomersByCountry.WithCountKeepsOrder | src/composables/useExcelData.ts:66 | two entries of count n appear among the entries of count n in their list order |
| CustomersByCountry.WithCountFromOrder | src/composables/useExcelData.ts:66 | two entries among those of count n appear in the list in the same order |
| CustomersByCountry.SortKeepsTies | src/composables/useExcelData.ts:66 | two sorted entries with equal counts appear in the unsorted input in the same order |
| CustomersByCountry.DistinctAfterInsert | src/composables/useExcelData.ts:60-66 | splicing in an entry of a new country keeps the countries distinct |
| CustomersByCountry.SortDistinct | src/composables/useExcelData.ts:60-66 | sorting entries of distinct countries keeps them distinct |
| CustomersByCountry.CountryTableEntries | src/composables/useExcelData.ts:60-65 | the unsorted table has one entry per qualifying country, holding that country's number of distinct ids, and no other entry |
| CustomersByCountry.CountryStatsOrdered | src/composables/useExcelData.ts:60-66 | countryStats is non-increasing, and entries with equal counts keep the Map's key order (first appearance, by CustomersByCountry.CountryStatsTies) |
| CustomersByCountry.CountryStatsTies | src/composables/useExcelData.ts:50-66 | of two countryStats entries with equal counts, the earlier one's country is named by a qualifying row before any row naming the later one's |
| CustomersByCountry.CountryStatsEntries | src/composables/useExcelData.ts:50-66 | countryStats lists each qualifying country once with its number of distinct ids, at least 1, and nothing else |
| CustomersByCountry.SameCountryFieldsSameMap | src/composables/useExcelData.ts:51-58 | rows agreeing on Country and CustomerID build the same map |
| CustomersByCountry.CountryStatsIgnoresDates | src/composables/useExcelData.ts:50-66 | countryStats does not depend on InvoiceDate |
| CustomersByCountry.SameCountryFields | src/composables/useExcelData.ts:50-66 | no contract; defined as rows agreeing on Country and CustomerID; properties in CustomersByCountry.SameCountryFieldsSameMap |
| CustomersByCountry.DuplicateCustomerCountsOnce | src/composables/useExcelData.ts:54-56 | three UK rows with ids 1, 1 and 2 give ("UK", 2) |
| CustomersByCountry.SortTwo | src/composables/useExcelData.ts:66 | of two entries, the one with the larger count comes first |
| CustomersByCountry.InsertSecond | src/composables/useExcelData.ts:66 | an entry between the two counts goes between them |
| CustomersByCountry.InsertAfterHead | src/composables/useExcelData.ts:66 | an entry not counting above the head goes after it |
| CustomersByCountry.LargerCountsFirst | src/composables/useExcelData.ts:66 | A:5, B:10, C:10 sort as B, C, A |
| CustomersByCountry.TieKeepsAppearanceOrder | src/composables/useExcelData.ts:66 | C:10 seen before B:10 stays before B: ties are not broken alphabetically |
| InvoicesByDay.DateKey | src/composables/useExcelData.ts:72-73 | no contract; defined as `formatDate(excelDateToJSDate(record.InvoiceDate))`; properties in DateUtils.FormatDecodedInjective and DateUtils.FormatSerial |
| InvoicesByDay.DateKeys | src/composables/useExcelData.ts:70-76 | there is at most one key per row |
| InvoicesByDay.DateKeysAreKeys | src/composables/useExcelData.ts:70-76 | a string is a key exactly when some row with a truthy InvoiceDate formats to it |
| InvoicesByDay.DateKeysCount | src/composables/useExcelData.ts:71 | there is one key per row with a truthy InvoiceDate |
| InvoicesByDay.DatedRows | src/composables/useExcelData.ts:71 | no contract; defined as the number of rows with a truthy InvoiceDate; properties in InvoicesByDay.DateKeysCount and InvoicesByDay.DailyStatsTotal |
| InvoicesByDay.DateKeysStep | src/composables/useExcelData.ts:71-75 | one more row adds its key if it has an InvoiceDate, and nothing otherwise |
| InvoicesByDay.DateKeysPrefix | src/composables/useExcelData.ts:70-76 | the keys of the first i + 1 rows are those of the first i, then row i's key if it is dated |
| InvoicesByDay.Dates | src/composables/useExcelData.ts:69-76 | the keys of dateCountMap are distinct and are exactly the formatted dates |
| InvoicesByDay.DatesFirstAppearance | src/composables/useExcelData.ts:74 | a key earlier in dateCountMap occurs among the formatted dates before any occurrence of a later key: keys are in order of first appearance |
| InvoicesByDay.Occurrences | src/composables/useExcelData.ts:74 | no contract; defined as the number of times a string occurs among the keys; properties in InvoicesByDay.OccurrencesPositive and InvoicesByDay.OccurrencesDistinct |
| InvoicesByDay.Tallies | src/composables/useExcelData.ts:69-76 | no contract; defined as the Map's keys and counts being those of the tally of the keys seen; properties in InvoicesByDay.CountDate |
| InvoicesByDay.OccurrencesPositive | src/composables/useExcelData.ts:74 | a string has a positive count exactly when it is a key |
| InvoicesByDay.MapStep | src/composables/useExcelData.ts:74 | one more key adds it at the end of the keys if new, raises its count by one, and changes no other count |
| InvoicesByDay.CountStep | src/composables/useExcelData.ts:74 | `set(dateStr, (get(dateStr) \|\| 0) + 1)` keeps the map equal to the tally of the keys seen |
| InvoicesByDay.CountDate | src/composables/useExcelData.ts:74 | the same, as the statement that updates the map |
| InvoicesByDay.NoOccurrences | src/composables/useExcelData.ts:74 | a missing key counts 0, as `get(...) \|\| 0` reads it |
| InvoicesByDay.Entries | src/composables/useExcelData.ts:78-79 | no contract; defined as one (date, count) entry per listed date; properties in InvoicesByDay.EntriesTotal and InvoicesByDay.DailyTableEntries |
| InvoicesByDay.DailyTable | src/composables/useExcelData.ts:78-79 | no contract; defined as the entries of the Map in key order; properties in InvoicesByDay.DailyTableEntries |
| InvoicesByDay.LocaleCompare | src/composables/useExcelData.ts:80 | no contract; defined as -1, 0 or 1 by ordinal string order; properties in Strings.LexLessTotal and Strings.LexLessAsymmetric |
| InvoicesByDay.CompareByDate | src/composables/useExcelData.ts:80 | no contract; defined as the comparator `a.date.localeCompare(b.date)`; properties in InvoicesByDay.InsertPosition |
| InvoicesByDay.InsertByDate | src/composables/useExcelData.ts:80 | no contract; defined as putting an entry in front of the first one it compares below; properties in InvoicesByDay.InsertPosition, InvoicesByDay.InsertPermutes and InvoicesByDay.InsertAscending |
| InvoicesByDay.SortByDate | src/composables/useExcelData.ts:80 | no contract; defined as the stable sort by that comparator, inserting the entries one by one; properties in InvoicesByDay.SortPermutes, InvoicesByDay.SortAscending and InvoicesByDay.SortTotal |
| InvoicesByDay.DailyStats | src/composables/useExcelData.ts:78-80 | no contract; defined as the sorted daily table; properties in InvoicesByDay.DailyStatsEntries, InvoicesByDay.DailyStatsAscending and InvoicesByDay.DailyStatsTotal |
| InvoicesByDay.Ascending | src/composables/useExcelData.ts:80 | no contract; defined as dates strictly rising in string order; properties in InvoicesByDay.SortAscending |
| InvoicesByDay.DistinctDates | src/composables/useExcelData.ts:78-80 | no contract; defined as no date listed twice; properties in InvoicesByDay.SortAscending |
| InvoicesByDay.Total | src/composables/useExcelData.ts:78-80 | no contract; defined as the sum of the counts; properties in InvoicesByDay.TotalConcat and InvoicesByDay.SortTotal |
| InvoicesByDay.InsertPermutes | src/composables/useExcelData.ts:80 | one insertion step of the sort adds exactly the inserted entry |
| InvoicesByDay.SortPermutes | src/composables/useExcelData.ts:80 | the sort is a permutation of its input |
| InvoicesByDay.InsertPosition | src/composables/useExcelData.ts:80 | insertion puts an entry after every entry whose date is not later, and before the next |
| InvoicesByDay.InsertAscending | src/composables/useExcelData.ts:80 | inserting a new date into an ascending list keeps it ascending |
| InvoicesByDay.SortAscending | src/composables/useExcelData.ts:80 | sorting entries of distinct dates makes them strictly ascending |
| InvoicesByDay.TotalConcat | src/composables/useExcelData.ts:78-80 | the count total of a concatenation is the sum of the totals |
| InvoicesByDay.TotalSplice | src/composables/useExcelData.ts:80 | splicing an entry in adds its count to the total |
| InvoicesByDay.InsertTotal | src/composables/useExcelData.ts:80 | an insertion step adds the inserted count to the total |
| InvoicesByDay.SortTotal | src/composables/useExcelData.ts:80 | sorting keeps the count total |
| InvoicesByDay.OccurrencesDistinct | src/composables/useExcelData.ts:74 | a string occurs once in a list of distinct strings exactly when it is in it |
| InvoicesByDay.EntriesNoKeys | src/composables/useExcelData.ts:78-79 | with no keys, the counts of the entries add up to 0 |
| InvoicesByDay.EntriesLastKey | src/composables/useExcelData.ts:78-79 | one more key adds, over the listed dates, one count for each time that key is among them |
| InvoicesByDay.EntriesTotal | src/composables/useExcelData.ts:78-79 | over distinct dates that cover every key, the counts add up to the number of keys |
| InvoicesByDay.DailyTableEntries | src/composables/useExcelData.ts:78-79 | the unsorted table has one entry per distinct key, with its number of dated rows, and no other |
| InvoicesByDay.SortSameElements | src/composables/useExcelData.ts:80 | the sort keeps the length and the elements |
| InvoicesByDay.DailyStatsAscending | src/composables/useExcelData.ts:68-80 | dailyStats is strictly ascending by date string, so no date appears twice |
| InvoicesByDay.DailyStatsChronological | src/composables/useExcelData.ts:68-80 | for dates in years 1000 to 9999, an earlier entry of dailyStats belongs to an earlier day |
| InvoicesByDay.DailyStatsEntries | src/composables/useExcelData.ts:68-80 | dailyStats lists each formatted date once, with its number of rows (at least 1), and nothing else |
| InvoicesByDay.DailyStatsTotal | src/composables/useExcelData.ts:68-80 | the counts of dailyStats add up to the number of rows with a truthy InvoiceDate |
| InvoicesByDay.SameDateFieldsSameKeys | src/composables/useExcelData.ts:70-76 | rows agreeing on InvoiceDate give the same keys |
| InvoicesByDay.DailyStatsIgnoresCustomers | src/composables/useExcelData.ts:68-80 | dailyStats does not depend on Country or CustomerID |
| InvoicesByDay.SameDateFields | src/composables/useExcelData.ts:68-80 | no contract; defined as rows agreeing on InvoiceDate; properties in InvoicesByDay.SameDateFieldsSameKeys |
| UseExcelData.ExcelDateToJSDate | src/composables/useExcelData.ts:11-15 | the composable's copy decodes every serial as the shared helper does |
| UseExcelData.FormatDate | src/composables/useExcelData.ts:18-23 | the composable's copy formats every Date as the shared helper does |
| UseExcelData.CountCustomersByCountry | src/composables/useExcelData.ts:50-66 | the forEach over the rows and the sort give exactly countryStats of the rows |
| UseExcelData.InvoiceDateKey | src/composables/useExcelData.ts:72-73 | a dated row's string is formatDate of its decoded serial |
| UseExcelData.CountDates | src/composables/useExcelData.ts:69-76 | after the forEach, dateCountMap holds exactly the tally of the formatted dates, with its keys in first-appearance order (InvoicesByDay.DatesFirstAppearance) |
| UseExcelData.CountInvoicesByDay | src/composables/useExcelData.ts:68-80 | the forEach and the sort give exactly dailyStats of the rows |
| UseExcelData.FailureMessage | src/composables/useExcelData.ts:83 | an Error yields its message; any other thrown value yields "Failed to load data" |
| UseExcelData.ExcelData.constructor | src/composables/useExcelData.ts:26-29 | the composable starts not loading, with no error and empty tables |
| UseExcelData.ExcelData.LoadData | src/composables/useExcelData.ts:31-87 | on rows: both tables are recomputed and the error is cleared; on a failure: the error is set and the tables are kept; loading ends false |
| ProcessExcel.ExcelDateToJSDate | scripts/processExcel.js:17-21 | the script's copy decodes every serial as the shared helper does |
| ProcessExcel.FormatDate | scripts/processExcel.js:24-29 | the script's copy formats every Date as the shared helper does |
| ProcessExcel.CountryPass | scripts/processExcel.js:46-62 | the forEach and the sort give exactly countryStats of the rows |
| ProcessExcel.InvoiceDateKey | scripts/processExcel.js:72-73 | a dated row's string is formatDate of its decoded serial |
| ProcessExcel.DatePass | scripts/processExcel.js:68-76 | after the forEach, dateCountMap holds exactly the tally of the formatted dates |
| ProcessExcel.DailyPass | scripts/processExcel.js:68-80 | the forEach and the sort give exactly dailyStats of the rows |
| ProcessExcel.Process | scripts/processExcel.js:46-82 | the script produces the same two tables as the composable; the logged lengths are the number of qualifying countries and of distinct dates; the daily counts add up to the dated rows |

## Left out

- Reading `exam.xlsx` is not modelled: `axios.get`, `XLSX.read`, `XLSX.readFile` and
  `sheet_to_json`. `LoadData` and `Process` receive the parsed rows, or the value the load
  threw.
- Writing the JSON files, `JSON.stringify`, the size and ratio figures, and all console
  output are not modelled. They do not feed back into the tables.
- Vue reactivity and the asynchrony of `loadData` are not modelled. `LoadData` runs as one
  step, so the intermediate state with `loading` true and `error` null is not observable.
- A throw from inside the two passes is not modelled, since the passes model no failure.
  Only a failed fetch or parse reaches the catch clause.
- The local time zone is taken to have offset 0. With a negative offset, the UTC midnight
  that `excelDateToJSDate` builds reads as the previous day in `getFullYear`, `getMonth`
  and `getDate`.
- Serials are exact reals, not IEEE-754 doubles. NaN and infinite serials are not modelled.
  A non-integral time value cannot arise, because the floor comes first.
- `localeCompare` is modelled as ordinal code-unit order. This agrees with the locale
  order on strings of digits and '-', which is all the daily keys contain. A key like
  "NaN-NaN-NaN" from an out-of-range serial is ordered ordinally as well.
- `Array.prototype.sort` is modelled as a stable insertion sort with the code's comparator.
  For a consistent comparator, the ECMAScript stable sort has exactly this result.
- CustomerID is an integer and Country a string. A NaN id and non-string countries are not
  modelled. Truthiness is "non-empty" and "non-zero".
- The unused row fields are not carried: InvoiceNo, StockCode, Description, Quantity and
  UnitPrice.
- Two-digit years in `new Date(y, m, d)` map to 1900 + y as ECMA-262 says. The vectors use
  four-digit years only.
- JsDates.NewDateFromParts: only month indexes 0 to 11 are modelled. ECMA-262 MakeDay carries
  other indexes into the year; the vectors do not use them.
- Ties in the country sort keep the countries' first-appearance order, as the code's
  comparator does. No alphabetical tie-break is applied.
- DateUtils.CanonicalDateOrder: proved only for years 1000 to 9999. Outside them the year
  field has a different width and string order is not chronological.
- DateUtils.FormatDecodedOrder: proved only for years 1000 to 9999, for the same reason.
- InvoicesByDay.DailyStatsChronological: proved only for years 1000 to 9999, for the same
  reason.
