/** scripts/processExcel.js: the preprocessing script. It carries its own copies of the
    date helpers and runs the same two aggregation passes as the composable, once, over
    the rows of the first sheet, then writes both tables out as JSON and logs their
    lengths. Reading the workbook, writing the files and the console output are not
    modelled: the script here receives the parsed rows and returns the two tables. */
module ProcessExcel {
  import opened JsDates
  import DateUtils
  import opened Invoice
  import opened CustomersByCountry
  import opened InvoicesByDay

  /** The script's excelDateToJSDate decodes every serial as the shared helper does. */
  function ExcelDateToJSDate(serial: real): (date: JsDate)
    ensures date == DateUtils.ExcelDateToJSDate(serial)
  {
    var utcDays := (serial - 25569.0).Floor;
    var utcValue := utcDays * 86400;
    NewDate(utcValue * 1000)
  }

  /** The script's formatDate renders every Date as the shared helper does. */
  function FormatDate(date: JsDate): (s: string)
    ensures s == DateUtils.FormatDate(date)
  {
    var year := GetFullYear(date);
    var month := Strings.PadStart(NumberToString(AddNum(GetMonth(date), 1)), 2, '0');
    var day := Strings.PadStart(NumberToString(GetDate(date)), 2, '0');
    NumberToString(year) + "-" + month + "-" + day
  }

  /** The first forEach and the countryStats it leaves: the Map of Sets of customer ids
      per country, listed with the Set sizes, largest first. */
  method CountryPass(rawData: seq<InvoiceRecord>) returns (countryStats: seq<CountryCustomerStats>)
    ensures countryStats == CountryStats(rawData)
  {
    // countryCustomerMap: its keys in insertion order, and the Set held under each key
    var countries: seq<string> := [];
    var customers: map<string, set<int>> := map[];
    var i := 0;
    assert rawData[..i] == [];
    while i < |rawData|
      invariant 0 <= i <= |rawData|
      invariant Groups(rawData[..i], countries, customers)
    {
      countries, customers := AddCustomer(rawData[..i], rawData[i], countries, customers);
      assert rawData[..i + 1] == rawData[..i] + [rawData[i]];
      i := i + 1;
    }
    assert rawData[..i] == rawData;
    var entries := seq(|countries|, k requires 0 <= k < |countries| =>
      CountryCustomerStats(countries[k], |customers[countries[k]]|));
    assert entries == CountryTable(rawData);
    countryStats := SortByCustomerCount(entries);
  }

  /** The string the second forEach files a dated row under. */
  method InvoiceDateKey(record: InvoiceRecord) returns (dateStr: string)
    requires HasInvoiceDate(record)
    ensures dateStr == DateKey(record)
  {
    var date := ExcelDateToJSDate(record.invoiceDate.value);
    dateStr := FormatDate(date);
  }

  /** The second forEach: dateCountMap, as its keys in insertion order and the count under each. */
  method DatePass(rawData: seq<InvoiceRecord>) returns (dates: seq<string>, counts: map<string, nat>)
    ensures Tallies(DateKeys(rawData), dates, counts)
  {
    dates, counts := [], map[];
    ghost var ks: seq<string> := [];
    var i := 0;
    assert rawData[..i] == [];
    while i < |rawData|
      invariant 0 <= i <= |rawData|
      invariant ks == DateKeys(rawData[..i])
      invariant Tallies(ks, dates, counts)
    {
      var record := rawData[i];
      DateKeysPrefix(rawData, i);
      if HasInvoiceDate(record) {
        var dateStr := InvoiceDateKey(record);
        dates, counts := CountDate(ks, dateStr, dates, counts);
        ks := ks + [dateStr];
      }
      i := i + 1;
    }
    assert rawData[..i] == rawData;
  }

  /** The daily pass: the second forEach, then the Map's entries in ascending date order. */
  method DailyPass(rawData: seq<InvoiceRecord>) returns (dailyStats: seq<DailyInvoiceStats>)
    ensures dailyStats == DailyStats(rawData)
  {
    var dates, counts := DatePass(rawData);
    var entries := seq(|dates|, k requires 0 <= k < |dates| => DailyInvoiceStats(dates[k], counts[dates[k]]));
    assert entries == DailyTable(rawData);
    dailyStats := SortByDate(entries);
  }

  /** The whole script on the parsed rows: both tables, and the two lengths it logs, which
      are the number of countries with a qualifying row and the number of distinct dates. */
  method Process(rawData: seq<InvoiceRecord>)
    returns (countryStats: seq<CountryCustomerStats>, dailyStats: seq<DailyInvoiceStats>,
             countryCount: nat, dateCount: nat)
    ensures countryStats == CountryStats(rawData) && dailyStats == DailyStats(rawData)
    ensures countryCount == |Countries(rawData)| && dateCount == |Dates(DateKeys(rawData))|
    ensures Total(dailyStats) == DatedRows(rawData)
  {
    countryStats := CountryPass(rawData);
    dailyStats := DailyPass(rawData);
    CountryStatsEntries(rawData);
    DailyStatsEntries(rawData);
    DailyStatsTotal(rawData);
    countryCount := |countryStats|;
    dateCount := |dailyStats|;
  }
}
