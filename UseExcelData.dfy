/** src/composables/useExcelData.ts: the composable's own copies of the date helpers,
    the two aggregation loops of loadData over the rows of the sheet, and the state
    (loading, error, countryStats, dailyStats) that loadData leaves behind. The
    fetch and the spreadsheet parsing are not modelled: loadData receives their
    outcome, either the parsed rows or the value they threw. */
module UseExcelData {
  import opened Wrappers
  import opened JsDates
  import DateUtils
  import opened Invoice
  import opened CustomersByCountry
  import opened InvoicesByDay

  /** The composable's excelDateToJSDate decodes every serial as the shared helper does. */
  function ExcelDateToJSDate(serial: real): (date: JsDate)
    ensures date == DateUtils.ExcelDateToJSDate(serial)
  {
    var utcDays := (serial - 25569.0).Floor;
    var utcValue := utcDays * 86400;
    NewDate(utcValue * 1000)
  }

  /** The composable's formatDate renders every Date as the shared helper does. */
  function FormatDate(date: JsDate): (s: string)
    ensures s == DateUtils.FormatDate(date)
  {
    var year := GetFullYear(date);
    var month := Strings.PadStart(NumberToString(AddNum(GetMonth(date), 1)), 2, '0');
    var day := Strings.PadStart(NumberToString(GetDate(date)), 2, '0');
    NumberToString(year) + "-" + month + "-" + day
  }

  /** The first forEach and the sort after it: collects the distinct customer ids of each
      country in a Map of Sets, then lists the Map's entries with their Set sizes, largest first. */
  method CountCustomersByCountry(rawData: seq<InvoiceRecord>) returns (countryStats: seq<CountryCustomerStats>)
    ensures countryStats == CountryStats(rawData)
  {
    // countryCustomerMap: its keys in insertion order, and the Set held under each key
    var countries: seq<string> := [];
    var customers: map<string, set<int>> := map[];
    var i := 0;
    assert rawData[..i] == [];
    while i < |rawData|
      invariant 0 <= i <= |rawData|
      invariant Groups(rawData[..i], countries, customers)
    {
      countries, customers := AddCustomer(rawData[..i], rawData[i], countries, customers);
      assert rawData[..i + 1] == rawData[..i] + [rawData[i]];
      i := i + 1;
    }
    assert rawData[..i] == rawData;
    var entries := seq(|countries|, k requires 0 <= k < |countries| =>
      CountryCustomerStats(countries[k], |customers[countries[k]]|));
    assert entries == CountryTable(rawData);
    countryStats := SortByCustomerCount(entries);
  }

  /** The string the second forEach files a dated row under. */
  method InvoiceDateKey(record: InvoiceRecord) returns (dateStr: string)
    requires HasInvoiceDate(record)
    ensures dateStr == DateKey(record)
  {
    var date := ExcelDateToJSDate(record.invoiceDate.value);
    dateStr := FormatDate(date);
  }

  /** The second forEach: counts the rows with an InvoiceDate under their formatted date
      in dateCountMap, given as its keys in insertion order and the count under each key. */
  method CountDates(rawData: seq<InvoiceRecord>) returns (dates: seq<string>, counts: map<string, nat>)
    ensures Tallies(DateKeys(rawData), dates, counts)
  {
    dates, counts := [], map[];
    ghost var ks: seq<string> := [];
    var i := 0;
    assert rawData[..i] == [];
    while i < |rawData|
      invariant 0 <= i <= |rawData|
      invariant ks == DateKeys(rawData[..i])
      invariant Tallies(ks, dates, counts)
    {
      var record := rawData[i];
      DateKeysPrefix(rawData, i);
      if HasInvoiceDate(record) {
        var dateStr := InvoiceDateKey(record);
        dates, counts := CountDate(ks, dateStr, dates, counts);
        ks := ks + [dateStr];
      }
      i := i + 1;
    }
    assert rawData[..i] == rawData;
  }

  /** The daily pass: the second forEach, then the Map's entries in ascending date order. */
  method CountInvoicesByDay(rawData: seq<InvoiceRecord>) returns (dailyStats: seq<DailyInvoiceStats>)
    ensures dailyStats == DailyStats(rawData)
  {
    var dates, counts := CountDates(rawData);
    var entries := seq(|dates|, k requires 0 <= k < |dates| => DailyInvoiceStats(dates[k], counts[dates[k]]));
    assert entries == DailyTable(rawData);
    dailyStats := SortByDate(entries);
  }

  /** What the try block can throw before the rows are in hand: an Error, or any other value. */
  datatype LoadFailure = ErrorThrown(message: string) | OtherThrown

  /** The outcome of fetching exam.xlsx and parsing its first sheet. */
  datatype FetchOutcome = Fetched(rawData: seq<InvoiceRecord>) | FetchFailed(failure: LoadFailure)

  /** The catch clause: an Error's message, otherwise a fixed text. */
  function FailureMessage(failure: LoadFailure): (message: string)
    ensures failure.ErrorThrown? ==> message == failure.message
    ensures failure.OtherThrown? ==> message == "Failed to load data"
  {
    match failure
    case ErrorThrown(m) => m
    case OtherThrown => "Failed to load data"
  }

  /** The state returned by useExcelData. */
  class ExcelData {
    var loading: bool
    var error: Option<string>
    var countryStats: seq<CountryCustomerStats>
    var dailyStats: seq<DailyInvoiceStats>

    /** useExcelData(): nothing loaded yet. */
    constructor ()
      ensures !loading && error == None && countryStats == [] && dailyStats == []
    {
      loading := false;
      error := None;
      countryStats := [];
      dailyStats := [];
    }

    /** loadData: on rows, both statistics are recomputed from them and the error is
        cleared; on a failure, the error is set and the statistics are left as they
        were. Either way loading ends false. */
    method LoadData(outcome: FetchOutcome)
      modifies this
      ensures !loading
      ensures outcome.Fetched? ==>
        error == None &&
        countryStats == CountryStats(outcome.rawData) &&
        dailyStats == DailyStats(outcome.rawData)
      ensures outcome.FetchFailed? ==>
        error == Some(FailureMessage(outcome.failure)) &&
        countryStats == old(countryStats) && dailyStats == old(dailyStats)
    {
      loading := true;
      error := None;
      match outcome {
        case Fetched(rawData) =>
          countryStats := CountCustomersByCountry(rawData);
          dailyStats := CountInvoicesByDay(rawData);
        case FetchFailed(failure) =>
          error := Some(FailureMessage(failure));
      }
      loading := false;
    }
  }
}
