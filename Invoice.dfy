/** src/types/invoice.ts: the fields of a spreadsheet row that the statistics read,
    and the two kinds of output record. A field the sheet leaves empty is None. */
module Invoice {
  import opened Wrappers

  /** One row of the sheet. InvoiceNo, StockCode, Description, Quantity and
      UnitPrice are carried by the sheet but read by neither pass. */
  datatype InvoiceRecord = InvoiceRecord(
    invoiceDate: Option<real>,   // spreadsheet serial date
    customerId: Option<int>,
    country: Option<string>)

  datatype CountryCustomerStats = CountryCustomerStats(country: string, customerCount: int)

  datatype DailyInvoiceStats = DailyInvoiceStats(date: string, count: int)

  /** `record.Country && record.CustomerID` is truthy: a non-empty country and a non-zero id. */
  predicate HasCountryAndCustomer(r: InvoiceRecord)
  {
    r.country.Some? && r.country.value != "" && r.customerId.Some? && r.customerId.value != 0
  }

  /** `record.InvoiceDate` is truthy: present and non-zero. */
  predicate HasInvoiceDate(r: InvoiceRecord)
  {
    r.invoiceDate.Some? && r.invoiceDate.value != 0.0
  }
}
