/** What the daily pass computes (src/composables/useExcelData.ts:68-80, repeated in
    scripts/processExcel.js:66-80), stated without the loop: every row with an
    InvoiceDate is counted under the string formatDate(excelDateToJSDate(serial)); the
    table lists each such string once, in Map insertion order, with its number of rows,
    and is then sorted by a.date.localeCompare(b.date) with the stable
    Array.prototype.sort. */
module InvoicesByDay {
  import opened Sequences
  import opened Strings
  import opened DateUtils
  import opened Invoice

  /** The key a dated row is counted under. */
  function DateKey(r: InvoiceRecord): string
    requires HasInvoiceDate(r)
  {
    FormatDate(ExcelDateToJSDate(r.invoiceDate.value))
  }

  /** The keys of the rows with an InvoiceDate, in row order: the strings the pass counts. */
  function DateKeys(rows: seq<InvoiceRecord>): (ks: seq<string>)
    ensures |ks| <= |rows|
  {
    if rows == [] then []
    else
      var r := rows[|rows| - 1];
      DateKeys(rows[..|rows| - 1]) + if HasInvoiceDate(r) then [DateKey(r)] else []
  }

  /** A string is a key exactly when some row with an InvoiceDate formats to it. */
  lemma {:induction false} DateKeysAreKeys(rows: seq<InvoiceRecord>, d: string)
    ensures d in DateKeys(rows) <==> exists k :: 0 <= k < |rows| && HasInvoiceDate(rows[k]) && DateKey(rows[k]) == d
  {
    if rows != [] {
      var init := rows[..|rows| - 1];
      DateKeysAreKeys(init, d);
      if exists k :: 0 <= k < |init| && HasInvoiceDate(init[k]) && DateKey(init[k]) == d {
        var k :| 0 <= k < |init| && HasInvoiceDate(init[k]) && DateKey(init[k]) == d;
        assert rows[k] == init[k];
      }
      if exists k :: 0 <= k < |rows| && HasInvoiceDate(rows[k]) && DateKey(rows[k]) == d {
        var k :| 0 <= k < |rows| && HasInvoiceDate(rows[k]) && DateKey(rows[k]) == d;
        if k < |rows| - 1 {
          assert init[k] == rows[k];
        }
      }
    }
  }

  /** The number of rows with an InvoiceDate. */
  function DatedRows(rows: seq<InvoiceRecord>): nat
  {
    if rows == [] then 0
    else DatedRows(rows[..|rows| - 1]) + if HasInvoiceDate(rows[|rows| - 1]) then 1 else 0
  }

  /** One key per row with an InvoiceDate. */
  lemma {:induction false} DateKeysCount(rows: seq<InvoiceRecord>)
    ensures |DateKeys(rows)| == DatedRows(rows)
  {
    if rows != [] {
      DateKeysCount(rows[..|rows| - 1]);
    }
  }

  /** The keys of dateCountMap: each key once, in order of first appearance (DatesFirstAppearance). */
  function Dates(ks: seq<string>): (ds: seq<string>)
    ensures forall i, j :: 0 <= i < j < |ds| ==> ds[i] != ds[j]
    ensures forall d :: d in ds <==> d in ks
  {
    if ks == [] then []
    else
      var prev := Dates(ks[..|ks| - 1]);
      assert ks == ks[..|ks| - 1] + [ks[|ks| - 1]];
      if ks[|ks| - 1] !in prev then prev + [ks[|ks| - 1]] else prev
  }

  /** The keys are in order of first appearance: every key before the key ks[k] occurs in
      ks before position k. */
  lemma {:induction false} DatesFirstAppearance(ks: seq<string>, i: nat, j: nat, k: nat)
    requires i < j < |Dates(ks)|
    requires k < |ks| && ks[k] == Dates(ks)[j]
    ensures exists k' :: 0 <= k' < k && ks[k'] == Dates(ks)[i]
  {
    var n := |ks| - 1;
    var init := ks[..n];
    var ds, ps := Dates(ks), Dates(init);
    assert ks == init + [ks[n]];
    if k < n {
      assert init[k] == ks[k];
    }
    if ds != ps && j == |ps| {
      // key j is the new last key, so k is the last position and key i is an older key
      assert ds == ps + [ks[n]];
      assert ds[i] == ps[i] && ps[i] in init;
      var k' :| 0 <= k' < |init| && init[k'] == ps[i];
      assert ks[k'] == init[k'];
    } else {
      assert j < |ps| && ds[i] == ps[i] && ds[j] == ps[j];
      var k0 := k;
      if k == n {
        assert ps[j] in init;
        k0 :| 0 <= k0 < |init| && init[k0] == ps[j];
      }
      DatesFirstAppearance(init, i, j, k0);
      var k' :| 0 <= k' < k0 && init[k'] == ps[i];
      assert ks[k'] == init[k'];
    }
  }

  /** How many times q occurs in ks: the count dateCountMap holds for q. */
  function Occurrences(ks: seq<string>, q: string): nat
  {
    if ks == [] then 0 else Occurrences(ks[..|ks| - 1], q) + if ks[|ks| - 1] == q then 1 else 0
  }

  /** A date is counted at all exactly when it is a key. */
  lemma {:induction false} OccurrencesPositive(ks: seq<string>, q: string)
    ensures Occurrences(ks, q) > 0 <==> q in ks
  {
    if ks != [] {
      OccurrencesPositive(ks[..|ks| - 1], q);
      assert ks == ks[..|ks| - 1] + [ks[|ks| - 1]];
    }
  }

  /** One more row: its key, if it has an InvoiceDate, joins the keys. */
  lemma DateKeysStep(rows: seq<InvoiceRecord>, r: InvoiceRecord)
    ensures DateKeys(rows + [r]) == DateKeys(rows) + if HasInvoiceDate(r) then [DateKey(r)] else []
  {
    assert (rows + [r])[..|rows|] == rows;
  }

  /** The keys of the first i + 1 rows: those of the first i, then the key of row i if it has an InvoiceDate. */
  lemma DateKeysPrefix(rows: seq<InvoiceRecord>, i: nat)
    requires i < |rows|
    ensures DateKeys(rows[..i + 1]) == DateKeys(rows[..i]) + if HasInvoiceDate(rows[i]) then [DateKey(rows[i])] else []
  {
    assert rows[..i + 1] == rows[..i] + [rows[i]];
    DateKeysStep(rows[..i], rows[i]);
  }

  /** One more key q: the map gains q if new, and q's count grows by one. */
  lemma MapStep(ks: seq<string>, q: string)
    ensures Dates(ks + [q]) == if q !in Dates(ks) then Dates(ks) + [q] else Dates(ks)
    ensures forall d :: Occurrences(ks + [q], d) == Occurrences(ks, d) + (if q == d then 1 else 0)
  {
    assert (ks + [q])[..|ks|] == ks;
  }

  /** A map of counts in insertion order, given as its keys and the count under each,
      holds exactly the dates of ks, each with its number of occurrences. */
  ghost predicate Tallies(ks: seq<string>, dates: seq<string>, counts: map<string, nat>)
  {
    && dates == Dates(ks)
    && (forall d :: d in counts <==> d in dates)
    && (forall d :: d in counts ==> counts[d] == Occurrences(ks, d))
  }

  /** dateCountMap.set(q, (dateCountMap.get(q) || 0) + 1) on a map that holds the counts
      of ks gives the map that holds the counts of ks + [q]. */
  lemma CountStep(ks: seq<string>, dates: seq<string>, counts: map<string, nat>, q: string)
    requires Tallies(ks, dates, counts)
    ensures Tallies(ks + [q], if q in counts then dates else dates + [q],
                    counts[q := (if q in counts then counts[q] else 0) + 1])
  {
    MapStep(ks, q);
    if q !in counts {
      OccurrencesPositive(ks, q);
    }
  }

  /** dateCountMap.set(dateStr, (dateCountMap.get(dateStr) || 0) + 1): a missing key reads
      as 0 and is entered at the end of the Map's key order. */
  method CountDate(ghost ks: seq<string>, dateStr: string, dates: seq<string>, counts: map<string, nat>)
    returns (dates': seq<string>, counts': map<string, nat>)
    requires Tallies(ks, dates, counts)
    ensures Tallies(ks + [dateStr], dates', counts')
  {
    CountStep(ks, dates, counts, dateStr);
    var current := if dateStr in counts then counts[dateStr] else 0;
    dates' := dates;
    if dateStr !in counts {
      dates' := dates + [dateStr];
    }
    counts' := counts[dateStr := current + 1];
  }

  /** A string the map has no key for has count 0. */
  lemma NoOccurrences(ks: seq<string>, q: string)
    requires q !in ks
    ensures Occurrences(ks, q) == 0
  {
    OccurrencesPositive(ks, q);
  }

  /** The entries for dates ds, each with its count. */
  function Entries(ks: seq<string>, ds: seq<string>): seq<DailyInvoiceStats>
  {
    seq(|ds|, i requires 0 <= i < |ds| => DailyInvoiceStats(ds[i], Occurrences(ks, ds[i])))
  }

  /** Array.from(dateCountMap.entries()).map(...): one entry per key, in key order. */
  function DailyTable(rows: seq<InvoiceRecord>): seq<DailyInvoiceStats>
  {
    var ks := DateKeys(rows);
    Entries(ks, Dates(ks))
  }

  /** String.prototype.localeCompare, taken as the order of code units. */
  function LocaleCompare(a: string, b: string): int
  {
    if LexLess(a, b) then -1 else if a == b then 0 else 1
  }

  /** The comparator (a, b) => a.date.localeCompare(b.date). */
  function CompareByDate(a: DailyInvoiceStats, b: DailyInvoiceStats): int
  {
    LocaleCompare(a.date, b.date)
  }

  /** One step of the stable sort: x goes in front of the first element it compares below. */
  function InsertByDate(s: seq<DailyInvoiceStats>, x: DailyInvoiceStats): seq<DailyInvoiceStats>
  {
    if s == [] then [x]
    else if CompareByDate(x, s[0]) < 0 then [x] + s
    else
      [s[0]] + InsertByDate(s[1..], x)
  }

  /** The stable sort of s by CompareByDate: a permutation of s. */
  function SortByDate(s: seq<DailyInvoiceStats>): seq<DailyInvoiceStats>
  {
    if s == [] then []
    else
      InsertByDate(SortByDate(s[..|s| - 1]), s[|s| - 1])
  }

  /** Inserting x adds x and keeps every element of s. */
  lemma {:induction false} InsertPermutes(s: seq<DailyInvoiceStats>, x: DailyInvoiceStats)
    ensures multiset(InsertByDate(s, x)) == multiset(s) + multiset{x}
  {
    if s != [] && !(CompareByDate(x, s[0]) < 0) {
      assert s == [s[0]] + s[1..];
      InsertPermutes(s[1..], x);
    }
  }

  /** The sort is a permutation. */
  lemma {:induction false} SortPermutes(s: seq<DailyInvoiceStats>)
    ensures multiset(SortByDate(s)) == multiset(s)
  {
    if s != [] {
      assert s == s[..|s| - 1] + [s[|s| - 1]];
      SortPermutes(s[..|s| - 1]);
      InsertPermutes(SortByDate(s[..|s| - 1]), s[|s| - 1]);
    }
  }

  /** dailyStats: the date table in the comparator's order. */
  function DailyStats(rows: seq<InvoiceRecord>): seq<DailyInvoiceStats>
  {
    SortByDate(DailyTable(rows))
  }

  /** Strictly ascending by date string, hence no date twice. */
  predicate Ascending(s: seq<DailyInvoiceStats>)
  {
    forall i, j :: 0 <= i < j < |s| ==> LexLess(s[i].date, s[j].date)
  }

  predicate DistinctDates(s: seq<DailyInvoiceStats>)
  {
    forall i, j :: 0 <= i < j < |s| ==> s[i].date != s[j].date
  }

  /** Where insertion puts x: behind every element it does not compare below, in front of the next one. */
  lemma {:induction false} InsertPosition(s: seq<DailyInvoiceStats>, x: DailyInvoiceStats) returns (k: nat)
    ensures k <= |s| && InsertByDate(s, x) == s[..k] + [x] + s[k..]
    ensures forall i :: 0 <= i < k ==> !LexLess(x.date, s[i].date)
    ensures k < |s| ==> LexLess(x.date, s[k].date)
  {
    if s == [] {
      k := 0;
    } else if CompareByDate(x, s[0]) < 0 {
      k := 0;
    } else {
      var k' := InsertPosition(s[1..], x);
      k := k' + 1;
      forall i | 0 <= i < k
        ensures !LexLess(x.date, s[i].date)
      {
        if i > 0 {
          assert s[i] == s[1..][i - 1];
        }
      }
      ConsSplice(s, x, k');
    }
  }

  /** Inserting a new date into an ascending sequence keeps it ascending. */
  lemma InsertAscending(a: seq<DailyInvoiceStats>, x: DailyInvoiceStats)
    requires Ascending(a)
    requires forall i :: 0 <= i < |a| ==> a[i].date != x.date
    ensures Ascending(InsertByDate(a, x))
  {
    var k := InsertPosition(a, x);
    var r := a[..k] + [x] + a[k..];
    Spliced(a, x, k);
    forall i, j | 0 <= i < j < |r|
      ensures LexLess(r[i].date, r[j].date)
    {
      if j == k {
        LexLessTotal(a[i].date, x.date);
      } else if i == k {
        if j - 1 > k {
          LexLessTransitive(x.date, a[k].date, a[j - 1].date);
        }
      }
    }
  }

  /** Sorting entries with distinct dates leaves them strictly ascending. */
  lemma {:induction false} SortAscending(s: seq<DailyInvoiceStats>)
    requires DistinctDates(s)
    ensures Ascending(SortByDate(s))
  {
    if s != [] {
      var init := s[..|s| - 1];
      var a := SortByDate(init);
      var x := s[|s| - 1];
      assert DistinctDates(init) by {
        forall i, j | 0 <= i < j < |init|
          ensures init[i].date != init[j].date
        {
          assert init[i] == s[i] && init[j] == s[j];
        }
      }
      SortAscending(init);
      SortPermutes(init);
      forall i | 0 <= i < |a|
        ensures a[i].date != x.date
      {
        assert a[i] in multiset(init);
        var j :| 0 <= j < |init| && init[j] == a[i];
        assert s[j] == a[i];
      }
      InsertAscending(a, x);
    }
  }

  /** The sum of the counts of s. */
  function Total(s: seq<DailyInvoiceStats>): int
  {
    if s == [] then 0 else Total(s[..|s| - 1]) + s[|s| - 1].count
  }

  lemma {:induction false} TotalConcat(a: seq<DailyInvoiceStats>, b: seq<DailyInvoiceStats>)
    ensures Total(a + b) == Total(a) + Total(b)
  {
    if b != [] {
      assert (a + b)[..|a + b| - 1] == a + b[..|b| - 1];
      TotalConcat(a, b[..|b| - 1]);
    } else {
      assert a + b == a;
    }
  }

  /** Splicing x into a sequence adds its count to the sum. */
  lemma TotalSplice(before: seq<DailyInvoiceStats>, x: DailyInvoiceStats, after: seq<DailyInvoiceStats>)
    ensures Total(before + [x] + after) == Total(before + after) + x.count
  {
    TotalConcat(before + [x], after);
    TotalConcat(before, [x]);
    TotalConcat(before, after);
    assert [x][..0] == [];
  }

  /** Inserting x adds its count to the sum. */
  lemma InsertTotal(a: seq<DailyInvoiceStats>, x: DailyInvoiceStats)
    ensures Total(InsertByDate(a, x)) == Total(a) + x.count
  {
    var k := InsertPosition(a, x);
    TotalSplice(a[..k], x, a[k..]);
    assert a[..k] + a[k..] == a;
  }

  /** Sorting does not change the sum of the counts. */
  lemma {:induction false} SortTotal(s: seq<DailyInvoiceStats>)
    ensures Total(SortByDate(s)) == Total(s)
  {
    if s != [] {
      SortTotal(s[..|s| - 1]);
      InsertTotal(SortByDate(s[..|s| - 1]), s[|s| - 1]);
    }
  }

  lemma {:induction false} OccurrencesDistinct(ds: seq<string>, q: string)
    requires forall i, j :: 0 <= i < j < |ds| ==> ds[i] != ds[j]
    ensures Occurrences(ds, q) == if q in ds then 1 else 0
  {
    if ds != [] {
      var init := ds[..|ds| - 1];
      assert forall i, j :: 0 <= i < j < |init| ==> init[i] != init[j];
      OccurrencesDistinct(init, q);
      assert ds == init + [ds[|ds| - 1]];
      if ds[|ds| - 1] == q {
        assert q !in init;
      }
    }
  }

  lemma {:induction false} EntriesNoKeys(ds: seq<string>)
    ensures Total(Entries([], ds)) == 0
  {
    if ds != [] {
      assert Entries([], ds)[..|ds| - 1] == Entries([], ds[..|ds| - 1]);
      EntriesNoKeys(ds[..|ds| - 1]);
    }
  }

  /** One more key q adds, over the dates ds, one count for every occurrence of q in ds. */
  lemma {:induction false} EntriesLastKey(ks: seq<string>, ds: seq<string>)
    requires ks != []
    ensures Total(Entries(ks, ds)) == Total(Entries(ks[..|ks| - 1], ds)) + Occurrences(ds, ks[|ks| - 1])
  {
    if ds != [] {
      var init := ds[..|ds| - 1];
      assert Entries(ks, ds)[..|ds| - 1] == Entries(ks, init);
      assert Entries(ks[..|ks| - 1], ds)[..|ds| - 1] == Entries(ks[..|ks| - 1], init);
      EntriesLastKey(ks, init);
    }
  }

  /** Over distinct dates that cover every key, the counts add up to the number of keys. */
  lemma {:induction false} EntriesTotal(ks: seq<string>, ds: seq<string>)
    requires forall i, j :: 0 <= i < j < |ds| ==> ds[i] != ds[j]
    requires forall d :: d in ks ==> d in ds
    ensures Total(Entries(ks, ds)) == |ks|
  {
    if ks == [] {
      EntriesNoKeys(ds);
    } else {
      var init := ks[..|ks| - 1];
      assert forall d :: d in init ==> d in ks;
      EntriesTotal(init, ds);
      EntriesLastKey(ks, ds);
      OccurrencesDistinct(ds, ks[|ks| - 1]);
    }
  }

  /** The date table lists each key once, with its number of occurrences. */
  lemma DailyTableEntries(rows: seq<InvoiceRecord>)
    ensures |DailyTable(rows)| == |Dates(DateKeys(rows))|
    ensures DistinctDates(DailyTable(rows))
    ensures forall e :: e in DailyTable(rows) <==>
      e.date in DateKeys(rows) && e.count == Occurrences(DateKeys(rows), e.date)
  {
    var t := DailyTable(rows);
    var ds := Dates(DateKeys(rows));
    forall e: DailyInvoiceStats | e.date in DateKeys(rows) && e.count == Occurrences(DateKeys(rows), e.date)
      ensures e in t
    {
      var i :| 0 <= i < |ds| && ds[i] == e.date;
      assert t[i] == e;
    }
  }

  /** A sort has the elements and the length of its input. */
  lemma SortSameElements(s: seq<DailyInvoiceStats>)
    ensures |SortByDate(s)| == |s|
    ensures forall e :: e in SortByDate(s) <==> e in s
  {
    var r := SortByDate(s);
    SortPermutes(s);
    assert |r| == |multiset(r)| == |multiset(s)| == |s|;
    forall e: DailyInvoiceStats
      ensures e in r <==> e in s
    {
      assert e in r <==> e in multiset(r);
      assert e in s <==> e in multiset(s);
    }
  }

  /** dailyStats is strictly ascending by date string, so no date appears twice. */
  lemma DailyStatsAscending(rows: seq<InvoiceRecord>)
    ensures Ascending(DailyStats(rows))
    ensures DistinctDates(DailyStats(rows))
  {
    DailyTableEntries(rows);
    SortAscending(DailyTable(rows));
    var stats := DailyStats(rows);
    forall i, j | 0 <= i < j < |stats|
      ensures stats[i].date != stats[j].date
    {
      LexLessIrreflexive(stats[i].date);
    }
  }

  /** For rows dated in years 1000 to 9999, dailyStats is in chronological order: the row
      behind an earlier entry falls on an earlier day than the row behind a later one. */
  lemma DailyStatsChronological(rows: seq<InvoiceRecord>, i: nat, j: nat, r: InvoiceRecord, r': InvoiceRecord)
    requires i < j < |DailyStats(rows)|
    requires HasInvoiceDate(r) && HasInvoiceDate(r')
    requires DateKey(r) == DailyStats(rows)[i].date && DateKey(r') == DailyStats(rows)[j].date
    requires InDateRange(r.invoiceDate.value) && InDateRange(r'.invoiceDate.value)
    requires 1000 <= SerialCivil(r.invoiceDate.value).year <= 9999
    requires 1000 <= SerialCivil(r'.invoiceDate.value).year <= 9999
    ensures DayOffset(r.invoiceDate.value) < DayOffset(r'.invoiceDate.value)
  {
    DailyStatsAscending(rows);
    FormatDecodedOrder(r.invoiceDate.value, r'.invoiceDate.value);
  }

  /** dailyStats holds one entry for each key of a dated row, none for any other string,
      and each count is the number of dated rows with that key, at least 1. */
  lemma DailyStatsEntries(rows: seq<InvoiceRecord>)
    ensures |DailyStats(rows)| == |Dates(DateKeys(rows))|
    ensures forall e :: e in DailyStats(rows) <==>
      e.date in DateKeys(rows) && e.count == Occurrences(DateKeys(rows), e.date)
    ensures forall d :: d in DateKeys(rows) <==> exists e :: e in DailyStats(rows) && e.date == d
    ensures forall e :: e in DailyStats(rows) ==> e.count >= 1
  {
    var ks := DateKeys(rows);
    var stats := DailyStats(rows);
    DailyTableEntries(rows);
    SortSameElements(DailyTable(rows));
    forall d | d in ks
      ensures exists e :: e in stats && e.date == d
    {
      assert DailyInvoiceStats(d, Occurrences(ks, d)) in stats;
    }
    forall e: DailyInvoiceStats | e in stats
      ensures e.count >= 1
    {
      OccurrencesPositive(ks, e.date);
    }
  }

  /** The counts of dailyStats add up to the number of rows with an InvoiceDate. */
  lemma DailyStatsTotal(rows: seq<InvoiceRecord>)
    ensures Total(DailyStats(rows)) == DatedRows(rows)
  {
    SortTotal(DailyTable(rows));
    EntriesTotal(DateKeys(rows), Dates(DateKeys(rows)));
    DateKeysCount(rows);
  }

  /** Two row sequences that agree on InvoiceDate, row by row. */
  predicate SameDateFields(rows: seq<InvoiceRecord>, rows': seq<InvoiceRecord>)
  {
    |rows| == |rows'| && forall i :: 0 <= i < |rows| ==> rows[i].invoiceDate == rows'[i].invoiceDate
  }

  lemma {:induction false} SameDateFieldsSameKeys(rows: seq<InvoiceRecord>, rows': seq<InvoiceRecord>)
    requires SameDateFields(rows, rows')
    ensures DateKeys(rows) == DateKeys(rows')
  {
    if rows != [] {
      var init, init' := rows[..|rows| - 1], rows'[..|rows'| - 1];
      assert SameDateFields(init, init') by {
        forall i | 0 <= i < |init|
          ensures init[i].invoiceDate == init'[i].invoiceDate
        {
          assert init[i] == rows[i] && init'[i] == rows'[i];
        }
      }
      SameDateFieldsSameKeys(init, init');
      var last, last' := rows[|rows| - 1], rows'[|rows'| - 1];
      assert last.invoiceDate == last'.invoiceDate;
      assert rows == init + [last] && rows' == init' + [last'];
      DateKeysStep(init, last);
      DateKeysStep(init', last');
    }
  }

  /** The daily pass reads only InvoiceDate: changing any row's Country or CustomerID (and
      with it whether the country pass keeps that row) leaves dailyStats as it is. */
  lemma DailyStatsIgnoresCustomers(rows: seq<InvoiceRecord>, rows': seq<InvoiceRecord>)
    requires SameDateFields(rows, rows')
    ensures DailyStats(rows) == DailyStats(rows')
  {
    SameDateFieldsSameKeys(rows, rows');
  }
}
