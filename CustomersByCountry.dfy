/** What the country pass computes (src/composables/useExcelData.ts:50-66, repeated in
    scripts/processExcel.js:46-62), stated without the loop: one entry per country of
    the rows that carry both a country and a customer id, holding the number of
    distinct ids seen for it, in Map insertion order (first appearance), then sorted
    by the comparator (a, b) => b.customerCount - a.customerCount with the stable
    Array.prototype.sort. */
module CustomersByCountry {
  import opened Wrappers
  import opened Sequences
  import opened Invoice

  /** Some row that passes the filter names country c. */
  predicate HasCountry(rows: seq<InvoiceRecord>, c: string)
  {
    exists k :: 0 <= k < |rows| && HasCountryAndCustomer(rows[k]) && rows[k].country.value == c
  }

  /** HasCountry on rows, split into its last row and the ones before. */
  lemma HasCountryLast(rows: seq<InvoiceRecord>)
    requires rows != []
    ensures forall c :: HasCountry(rows, c) <==>
      HasCountry(rows[..|rows| - 1], c) ||
      (HasCountryAndCustomer(rows[|rows| - 1]) && rows[|rows| - 1].country.value == c)
  {
    var init := rows[..|rows| - 1];
    forall c
      ensures HasCountry(rows, c) ==>
        HasCountry(init, c) || (HasCountryAndCustomer(rows[|rows| - 1]) && rows[|rows| - 1].country.value == c)
      ensures HasCountry(init, c) ==> HasCountry(rows, c)
    {
      if HasCountry(rows, c) {
        var k :| 0 <= k < |rows| && HasCountryAndCustomer(rows[k]) && rows[k].country.value == c;
        if k < |rows| - 1 {
          assert init[k] == rows[k];
        }
      }
      if HasCountry(init, c) {
        var k :| 0 <= k < |init| && HasCountryAndCustomer(init[k]) && init[k].country.value == c;
        assert rows[k] == init[k];
      }
    }
  }

  /** The keys of countryCustomerMap: each qualifying country once, in order of first
      appearance (CountriesFirstAppearance). */
  function Countries(rows: seq<InvoiceRecord>): (cs: seq<string>)
    ensures forall i, j :: 0 <= i < j < |cs| ==> cs[i] != cs[j]
    ensures forall c :: c in cs <==> HasCountry(rows, c)
  {
    if rows == [] then []
    else
      var prev := Countries(rows[..|rows| - 1]);
      var r := rows[|rows| - 1];
      HasCountryLast(rows);
      if HasCountryAndCustomer(r) && r.country.value !in prev then prev + [r.country.value] else prev
  }

  /** The keys are in order of first appearance: if a row qualifies with the country of
      key j, some earlier row qualifies with the country of every key i before j. */
  lemma {:induction false} CountriesFirstAppearance(rows: seq<InvoiceRecord>, i: nat, j: nat, k: nat)
    requires i < j < |Countries(rows)|
    requires k < |rows| && HasCountryAndCustomer(rows[k]) && rows[k].country.value == Countries(rows)[j]
    ensures exists k' :: 0 <= k' < k && HasCountryAndCustomer(rows[k']) && rows[k'].country.value == Countries(rows)[i]
  {
    var n := |rows| - 1;
    var init, last := rows[..n], rows[n];
    var cs, ps := Countries(rows), Countries(init);
    HasCountryLast(rows);
    if k < n {
      assert init[k] == rows[k];
    }
    if cs != ps && j == |ps| {
      // key j is the last row's new country, so k is the last row and key i is an older key
      assert cs == ps + [last.country.value];
      assert cs[i] == ps[i] && HasCountry(init, ps[i]);
      var k' :| 0 <= k' < |init| && HasCountryAndCustomer(init[k']) && init[k'].country.value == ps[i];
      assert rows[k'] == init[k'];
    } else {
      assert j < |ps| && cs[i] == ps[i] && cs[j] == ps[j];
      var k0 := k;
      if k == n {
        assert HasCountry(init, ps[j]);
        k0 :| 0 <= k0 < |init| && HasCountryAndCustomer(init[k0]) && init[k0].country.value == ps[j];
      }
      CountriesFirstAppearance(init, i, j, k0);
      var k' :| 0 <= k' < k0 && HasCountryAndCustomer(init[k']) && init[k'].country.value == ps[i];
      assert rows[k'] == init[k'];
    }
  }

  /** The Set of customer ids the map holds for country c. */
  function Customers(rows: seq<InvoiceRecord>, c: string): set<int>
  {
    if rows == [] then {}
    else
      var r := rows[|rows| - 1];
      Customers(rows[..|rows| - 1], c) +
        if HasCountryAndCustomer(r) && r.country.value == c then {r.customerId.value} else {}
  }

  /** The ids collected for c are exactly the ids of the qualifying rows of country c. */
  lemma {:induction false} CustomersAreIds(rows: seq<InvoiceRecord>, c: string)
    ensures forall id :: id in Customers(rows, c) <==>
      exists k :: 0 <= k < |rows| && HasCountryAndCustomer(rows[k]) &&
        rows[k].country.value == c && rows[k].customerId.value == id
  {
    if rows != [] {
      var init := rows[..|rows| - 1];
      CustomersAreIds(init, c);
      forall id
        ensures id in Customers(rows, c) <==>
          exists k :: 0 <= k < |rows| && HasCountryAndCustomer(rows[k]) &&
            rows[k].country.value == c && rows[k].customerId.value == id
      {
        if id in Customers(init, c) {
          var k :| 0 <= k < |init| && HasCountryAndCustomer(init[k]) &&
            init[k].country.value == c && init[k].customerId.value == id;
          assert rows[k] == init[k];
        }
        if exists k :: 0 <= k < |rows| && HasCountryAndCustomer(rows[k]) &&
            rows[k].country.value == c && rows[k].customerId.value == id {
          var k :| 0 <= k < |rows| && HasCountryAndCustomer(rows[k]) &&
            rows[k].country.value == c && rows[k].customerId.value == id;
          if k < |rows| - 1 {
            assert init[k] == rows[k];
          }
        }
      }
    }
  }

  /** One more row: the map gains its country if new, and its id under that country. */
  lemma MapStep(rows: seq<InvoiceRecord>, r: InvoiceRecord)
    ensures Countries(rows + [r]) ==
      if HasCountryAndCustomer(r) && r.country.value !in Countries(rows)
      then Countries(rows) + [r.country.value] else Countries(rows)
    ensures forall c ::
      Customers(rows + [r], c) == Customers(rows, c) + (if HasCountryAndCustomer(r) && r.country.value == c then {r.customerId.value} else {})
  {
    assert (rows + [r])[..|rows|] == rows;
  }

  /** A Map of Sets, given as its keys in insertion order and the Set under each key,
      holds exactly the countries of rows, each with the ids of its customers. */
  ghost predicate Groups(rows: seq<InvoiceRecord>, countries: seq<string>, customers: map<string, set<int>>)
  {
    && countries == Countries(rows)
    && (forall c :: c in customers <==> c in countries)
    && (forall c :: c in customers ==> customers[c] == Customers(rows, c))
  }

  /** A country the map has no key for has no customers. */
  lemma NoCustomersWithoutCountry(rows: seq<InvoiceRecord>, c: string)
    requires !HasCountry(rows, c)
    ensures Customers(rows, c) == {}
  {
    CustomersAreIds(rows, c);
  }

  /** One turn of the first forEach: a row with a Country and a CustomerID adds the id to
      its country's Set, entering the country with an empty Set first if it is new. */
  method AddCustomer(ghost seen: seq<InvoiceRecord>, record: InvoiceRecord,
                     countries: seq<string>, customers: map<string, set<int>>)
    returns (countries': seq<string>, customers': map<string, set<int>>)
    requires Groups(seen, countries, customers)
    ensures Groups(seen + [record], countries', customers')
  {
    MapStep(seen, record);
    countries', customers' := countries, customers;
    if HasCountryAndCustomer(record) {
      var country := record.country.value;
      if country !in customers {
        NoCustomersWithoutCountry(seen, country);
        countries' := countries + [country];
        customers' := customers[country := {}];
      }
      customers' := customers'[country := customers'[country] + {record.customerId.value}];
    }
  }

  /** Every country that reaches the map has at least one customer. */
  lemma CustomersNonEmpty(rows: seq<InvoiceRecord>, c: string)
    requires HasCountry(rows, c)
    ensures |Customers(rows, c)| >= 1
  {
    var k :| 0 <= k < |rows| && HasCountryAndCustomer(rows[k]) && rows[k].country.value == c;
    CustomersAreIds(rows, c);
    assert rows[k].customerId.value in Customers(rows, c);
  }

  /** Array.from(countryCustomerMap.entries()).map(...): one entry per key, in key order. */
  function CountryTable(rows: seq<InvoiceRecord>): seq<CountryCustomerStats>
  {
    var cs := Countries(rows);
    seq(|cs|, i requires 0 <= i < |cs| => CountryCustomerStats(cs[i], |Customers(rows, cs[i])|))
  }

  /** The comparator (a, b) => b.customerCount - a.customerCount. */
  function CompareByCustomerCount(a: CountryCustomerStats, b: CountryCustomerStats): int
  {
    b.customerCount - a.customerCount
  }

  /** One step of the stable sort: x goes in front of the first element it compares below. */
  function InsertByCustomerCount(s: seq<CountryCustomerStats>, x: CountryCustomerStats): seq<CountryCustomerStats>
  {
    if s == [] then [x]
    else if CompareByCustomerCount(x, s[0]) < 0 then [x] + s
    else
      [s[0]] + InsertByCustomerCount(s[1..], x)
  }

  /** The stable sort of s by CompareByCustomerCount: a permutation of s. */
  function SortByCustomerCount(s: seq<CountryCustomerStats>): seq<CountryCustomerStats>
  {
    if s == [] then []
    else
      InsertByCustomerCount(SortByCustomerCount(s[..|s| - 1]), s[|s| - 1])
  }

  /** Inserting x adds x and keeps every element of s. */
  lemma {:induction false} InsertPermutes(s: seq<CountryCustomerStats>, x: CountryCustomerStats)
    ensures multiset(InsertByCustomerCount(s, x)) == multiset(s) + multiset{x}
  {
    if s != [] && !(CompareByCustomerCount(x, s[0]) < 0) {
      assert s == [s[0]] + s[1..];
      InsertPermutes(s[1..], x);
    }
  }

  /** The sort is a permutation. */
  lemma {:induction false} SortPermutes(s: seq<CountryCustomerStats>)
    ensures multiset(SortByCustomerCount(s)) == multiset(s)
  {
    if s != [] {
      assert s == s[..|s| - 1] + [s[|s| - 1]];
      SortPermutes(s[..|s| - 1]);
      InsertPermutes(SortByCustomerCount(s[..|s| - 1]), s[|s| - 1]);
    }
  }

  /** countryStats: the country table in the comparator's order. */
  function CountryStats(rows: seq<InvoiceRecord>): seq<CountryCustomerStats>
  {
    SortByCustomerCount(CountryTable(rows))
  }

  predicate NonIncreasing(s: seq<CountryCustomerStats>)
  {
    forall i, j :: 0 <= i < j < |s| ==> s[i].customerCount >= s[j].customerCount
  }

  /** The entries of s with count n, in their order in s. */
  function WithCount(s: seq<CountryCustomerStats>, n: int): seq<CountryCustomerStats>
  {
    if s == [] then []
    else WithCount(s[..|s| - 1], n) + if s[|s| - 1].customerCount == n then [s[|s| - 1]] else []
  }

  predicate DistinctCountries(s: seq<CountryCustomerStats>)
  {
    forall i, j :: 0 <= i < j < |s| ==> s[i].country != s[j].country
  }

  /** Where insertion puts x: behind every element whose count is at least x's, in front of the next one. */
  lemma {:induction false} InsertPosition(s: seq<CountryCustomerStats>, x: CountryCustomerStats) returns (k: nat)
    ensures k <= |s| && InsertByCustomerCount(s, x) == s[..k] + [x] + s[k..]
    ensures forall i :: 0 <= i < k ==> s[i].customerCount >= x.customerCount
    ensures k < |s| ==> s[k].customerCount < x.customerCount
  {
    if s == [] {
      k := 0;
    } else if CompareByCustomerCount(x, s[0]) < 0 {
      k := 0;
    } else {
      var k' := InsertPosition(s[1..], x);
      k := k' + 1;
      forall i | 0 <= i < k
        ensures s[i].customerCount >= x.customerCount
      {
        if i > 0 {
          assert s[i] == s[1..][i - 1];
        }
      }
      ConsSplice(s, x, k');
    }
  }

  lemma {:induction false} WithCountConcat(a: seq<CountryCustomerStats>, b: seq<CountryCustomerStats>, n: int)
    ensures WithCount(a + b, n) == WithCount(a, n) + WithCount(b, n)
  {
    if b != [] {
      assert (a + b)[..|a + b| - 1] == a + b[..|b| - 1];
      WithCountConcat(a, b[..|b| - 1], n);
    } else {
      assert a + b == a;
    }
  }

  lemma {:induction false} WithCountNone(s: seq<CountryCustomerStats>, n: int)
    requires forall i :: 0 <= i < |s| ==> s[i].customerCount < n
    ensures WithCount(s, n) == []
  {
    if s != [] {
      WithCountNone(s[..|s| - 1], n);
    }
  }

  /** Inserting into a non-increasing sequence keeps it non-increasing. */
  lemma InsertNonIncreasing(a: seq<CountryCustomerStats>, x: CountryCustomerStats)
    requires NonIncreasing(a)
    ensures NonIncreasing(InsertByCustomerCount(a, x))
  {
    var k := InsertPosition(a, x);
    var r := a[..k] + [x] + a[k..];
    Spliced(a, x, k);
    forall i, j | 0 <= i < j < |r|
      ensures r[i].customerCount >= r[j].customerCount
    {
      if i == k && k < j {
        assert a[k].customerCount >= a[j - 1].customerCount;
      }
    }
  }

  /** The sort leaves counts non-increasing, as b.customerCount - a.customerCount asks. */
  lemma {:induction false} SortNonIncreasing(s: seq<CountryCustomerStats>)
    ensures NonIncreasing(SortByCustomerCount(s))
  {
    if s != [] {
      SortNonIncreasing(s[..|s| - 1]);
      InsertNonIncreasing(SortByCustomerCount(s[..|s| - 1]), s[|s| - 1]);
    }
  }

  lemma WithCountSingle(x: CountryCustomerStats, n: int)
    ensures WithCount([x], n) == if x.customerCount == n then [x] else []
  {
    assert [x][..0] == [];
  }

  /** What follows the insertion point of x in a non-increasing sequence counts less than x. */
  lemma TailBelow(a: seq<CountryCustomerStats>, x: CountryCustomerStats, k: nat)
    requires NonIncreasing(a) && k <= |a|
    requires k < |a| ==> a[k].customerCount < x.customerCount
    ensures forall i :: 0 <= i < |a[k..]| ==> a[k..][i].customerCount < x.customerCount
  {
    forall i | 0 <= i < |a[k..]|
      ensures a[k..][i].customerCount < x.customerCount
    {
      assert a[k..][i] == a[k + i];
    }
  }

  /** Splicing x in front of entries of smaller count only appends x to the entries of its own count. */
  lemma SpliceWithCount(before: seq<CountryCustomerStats>, x: CountryCustomerStats,
                        after: seq<CountryCustomerStats>, n: int)
    requires forall i :: 0 <= i < |after| ==> after[i].customerCount < x.customerCount
    ensures WithCount(before + [x] + after, n)
         == WithCount(before + after, n) + if x.customerCount == n then [x] else []
  {
    WithCountConcat(before, after, n);
    WithCountConcat(before + [x], after, n);
    WithCountConcat(before, [x], n);
    WithCountSingle(x, n);
    if x.customerCount == n {
      WithCountNone(after, n);
    }
  }

  /** Inserting x into a non-increasing sequence appends it to the entries of its own count. */
  lemma InsertWithCount(a: seq<CountryCustomerStats>, x: CountryCustomerStats, n: int)
    requires NonIncreasing(a)
    ensures WithCount(InsertByCustomerCount(a, x), n)
         == WithCount(a, n) + if x.customerCount == n then [x] else []
  {
    var k := InsertPosition(a, x);
    TailBelow(a, x, k);
    SpliceWithCount(a[..k], x, a[k..], n);
    assert a[..k] + a[k..] == a;
  }

  /** The sort is stable: entries of equal count keep their relative order. */
  lemma {:induction false} SortStable(s: seq<CountryCustomerStats>, n: int)
    ensures WithCount(SortByCustomerCount(s), n) == WithCount(s, n)
  {
    if s != [] {
      SortStable(s[..|s| - 1], n);
      SortNonIncreasing(s[..|s| - 1]);
      InsertWithCount(SortByCustomerCount(s[..|s| - 1]), s[|s| - 1], n);
    }
  }

  /** Insertion keeps countries distinct when x brings a new one. */
  lemma DistinctAfterInsert(a: seq<CountryCustomerStats>, x: CountryCustomerStats, k: nat)
    requires k <= |a| && DistinctCountries(a)
    requires forall i :: 0 <= i < |a| ==> a[i].country != x.country
    ensures DistinctCountries(a[..k] + [x] + a[k..])
  {
    var r := a[..k] + [x] + a[k..];
    Spliced(a, x, k);
  }

  /** Sorting entries with distinct countries leaves them distinct. */
  lemma {:induction false} SortDistinct(s: seq<CountryCustomerStats>)
    requires DistinctCountries(s)
    ensures DistinctCountries(SortByCustomerCount(s))
  {
    if s != [] {
      var init := s[..|s| - 1];
      var a := SortByCustomerCount(init);
      var x := s[|s| - 1];
      assert DistinctCountries(init) by {
        forall i, j | 0 <= i < j < |init|
          ensures init[i].country != init[j].country
        {
          assert init[i] == s[i] && init[j] == s[j];
        }
      }
      SortDistinct(init);
      var k := InsertPosition(a, x);
      SortPermutes(init);
      forall i | 0 <= i < |a|
        ensures a[i].country != x.country
      {
        assert a[i] in multiset(init);
        var j :| 0 <= j < |init| && init[j] == a[i];
        assert s[j] == a[i];
      }
      DistinctAfterInsert(a, x, k);
    }
  }

  /** The country table lists each qualifying country once, with its number of distinct customers. */
  lemma CountryTableEntries(rows: seq<InvoiceRecord>)
    ensures |CountryTable(rows)| == |Countries(rows)|
    ensures DistinctCountries(CountryTable(rows))
    ensures forall e :: e in CountryTable(rows) <==>
      HasCountry(rows, e.country) && e.customerCount == |Customers(rows, e.country)|
  {
    var t := CountryTable(rows);
    var cs := Countries(rows);
    forall e: CountryCustomerStats | HasCountry(rows, e.country) && e.customerCount == |Customers(rows, e.country)|
      ensures e in t
    {
      var i :| 0 <= i < |cs| && cs[i] == e.country;
      assert t[i] == e;
    }
  }

  /** countryStats is ordered by customerCount from largest to smallest, and entries
      with equal counts keep the order of the Map's keys (see CountryStatsTies). */
  lemma CountryStatsOrdered(rows: seq<InvoiceRecord>)
    ensures NonIncreasing(CountryStats(rows))
    ensures forall n :: WithCount(CountryStats(rows), n) == WithCount(CountryTable(rows), n)
  {
    SortNonIncreasing(CountryTable(rows));
    forall n
      ensures WithCount(CountryStats(rows), n) == WithCount(CountryTable(rows), n)
    {
      SortStable(CountryTable(rows), n);
    }
  }

  /** An entry of s with count n is among the entries WithCount(s, n) lists. */
  lemma {:induction false} WithCountIndex(s: seq<CountryCustomerStats>, n: int, i: nat)
    requires i < |s| && s[i].customerCount == n
    ensures exists i' :: 0 <= i' < |WithCount(s, n)| && WithCount(s, n)[i'] == s[i]
  {
    var m := |s| - 1;
    var w0 := WithCount(s[..m], n);
    if i < m {
      WithCountIndex(s[..m], n, i);
      var i' :| 0 <= i' < |w0| && w0[i'] == s[..m][i];
      assert WithCount(s, n)[i'] == w0[i'];
    } else {
      assert WithCount(s, n)[|w0|] == s[m];
    }
  }

  /** Every entry WithCount(s, n) lists is an entry of s. */
  lemma {:induction false} WithCountMember(s: seq<CountryCustomerStats>, n: int, i: nat)
    requires i < |WithCount(s, n)|
    ensures exists a :: 0 <= a < |s| && s[a] == WithCount(s, n)[i]
  {
    var m := |s| - 1;
    var w0 := WithCount(s[..m], n);
    if i < |w0| {
      WithCountMember(s[..m], n, i);
      var a :| 0 <= a < m && s[..m][a] == w0[i];
      assert s[a] == WithCount(s, n)[i];
    } else {
      assert WithCount(s, n)[i] == s[m];
    }
  }

  /** Two entries of count n in s appear in WithCount(s, n) in the same order. */
  lemma {:induction false} WithCountKeepsOrder(s: seq<CountryCustomerStats>, n: int, i: nat, j: nat)
    requires i < j < |s| && s[i].customerCount == n && s[j].customerCount == n
    ensures exists i', j' :: 0 <= i' < j' < |WithCount(s, n)|
                             && WithCount(s, n)[i'] == s[i] && WithCount(s, n)[j'] == s[j]
  {
    var m := |s| - 1;
    var w0 := WithCount(s[..m], n);
    var w := WithCount(s, n);
    if j < m {
      WithCountKeepsOrder(s[..m], n, i, j);
      var i', j' :| 0 <= i' < j' < |w0| && w0[i'] == s[..m][i] && w0[j'] == s[..m][j];
      assert w[i'] == w0[i'] && w[j'] == w0[j'];
    } else {
      WithCountIndex(s[..m], n, i);
      var i' :| 0 <= i' < |w0| && w0[i'] == s[..m][i];
      assert w[i'] == w0[i'] && w[|w0|] == s[m];
    }
  }

  /** Two entries listed by WithCount(s, n) in some order are entries of s in that order. */
  lemma {:induction false} WithCountFromOrder(s: seq<CountryCustomerStats>, n: int, i: nat, j: nat)
    requires i < j < |WithCount(s, n)|
    ensures exists a, b :: 0 <= a < b < |s| && s[a] == WithCount(s, n)[i] && s[b] == WithCount(s, n)[j]
  {
    var m := |s| - 1;
    var w0 := WithCount(s[..m], n);
    var w := WithCount(s, n);
    if j < |w0| {
      WithCountFromOrder(s[..m], n, i, j);
      var a, b :| 0 <= a < b < m && s[..m][a] == w0[i] && s[..m][b] == w0[j];
      assert s[a] == w[i] && s[b] == w[j];
    } else {
      WithCountMember(s[..m], n, i);
      var a :| 0 <= a < m && s[..m][a] == w0[i];
      assert s[a] == w[i] && w[j] == s[m];
    }
  }

  /** Sorting keeps ties in their input order: entries i < j of equal count in the sorted
      list are entries a < b of the input. */
  lemma SortKeepsTies(t: seq<CountryCustomerStats>, i: nat, j: nat)
    requires i < j < |SortByCustomerCount(t)|
    requires SortByCustomerCount(t)[i].customerCount == SortByCustomerCount(t)[j].customerCount
    ensures exists a, b :: 0 <= a < b < |t| && t[a] == SortByCustomerCount(t)[i] && t[b] == SortByCustomerCount(t)[j]
  {
    var r := SortByCustomerCount(t);
    var n := r[i].customerCount;
    WithCountKeepsOrder(r, n, i, j);
    var i', j' :| 0 <= i' < j' < |WithCount(r, n)| && WithCount(r, n)[i'] == r[i] && WithCount(r, n)[j'] == r[j];
    SortStable(t, n);
    WithCountFromOrder(t, n, i', j');
  }

  /** Ties in countryStats are broken by first appearance: when entries i < j have equal
      counts, and a qualifying row k names the country of entry j, an earlier qualifying
      row names the country of entry i. */
  lemma CountryStatsTies(rows: seq<InvoiceRecord>, i: nat, j: nat, k: nat)
    requires i < j < |CountryStats(rows)|
    requires CountryStats(rows)[i].customerCount == CountryStats(rows)[j].customerCount
    requires k < |rows| && HasCountryAndCustomer(rows[k]) && rows[k].country.value == CountryStats(rows)[j].country
    ensures exists k' :: 0 <= k' < k && HasCountryAndCustomer(rows[k']) && rows[k'].country.value == CountryStats(rows)[i].country
  {
    var stats, table := CountryStats(rows), CountryTable(rows);
    SortKeepsTies(table, i, j);
    var a, b :| 0 <= a < b < |table| && table[a] == stats[i] && table[b] == stats[j];
    assert Countries(rows)[a] == stats[i].country && Countries(rows)[b] == stats[j].country;
    CountriesFirstAppearance(rows, a, b, k);
  }

  /** countryStats holds one entry for each country of a row with both a country and a
      customer id, none for any other string, and each count is that country's number
      of distinct customer ids, at least 1. */
  lemma CountryStatsEntries(rows: seq<InvoiceRecord>)
    ensures |CountryStats(rows)| == |Countries(rows)|
    ensures DistinctCountries(CountryStats(rows))
    ensures forall e :: e in CountryStats(rows) <==>
      HasCountry(rows, e.country) && e.customerCount == |Customers(rows, e.country)|
    ensures forall c :: HasCountry(rows, c) <==> exists e :: e in CountryStats(rows) && e.country == c
    ensures forall e :: e in CountryStats(rows) ==> e.customerCount >= 1
  {
    var t := CountryTable(rows);
    var stats := CountryStats(rows);
    CountryTableEntries(rows);
    SortDistinct(t);
    SortPermutes(t);
    assert |stats| == |multiset(stats)| == |multiset(t)| == |t|;
    assert forall e :: e in stats <==> e in t by {
      forall e: CountryCustomerStats
        ensures e in stats <==> e in t
      {
        assert e in stats <==> e in multiset(stats);
        assert e in t <==> e in multiset(t);
      }
    }
    forall c | HasCountry(rows, c)
      ensures exists e :: e in stats && e.country == c
    {
      assert CountryCustomerStats(c, |Customers(rows, c)|) in stats;
    }
    forall e: CountryCustomerStats | e in stats
      ensures e.customerCount >= 1
    {
      CustomersNonEmpty(rows, e.country);
    }
  }

  /** Two row sequences that agree on Country and CustomerID, row by row. */
  predicate SameCountryFields(rows: seq<InvoiceRecord>, rows': seq<InvoiceRecord>)
  {
    |rows| == |rows'| &&
    forall i :: 0 <= i < |rows| ==> rows[i].country == rows'[i].country && rows[i].customerId == rows'[i].customerId
  }

  lemma {:induction false} SameCountryFieldsSameMap(rows: seq<InvoiceRecord>, rows': seq<InvoiceRecord>)
    requires SameCountryFields(rows, rows')
    ensures Countries(rows) == Countries(rows')
    ensures forall c :: Customers(rows, c) == Customers(rows', c)
  {
    if rows != [] {
      var init, init' := rows[..|rows| - 1], rows'[..|rows'| - 1];
      assert SameCountryFields(init, init') by {
        forall i | 0 <= i < |init|
          ensures init[i].country == init'[i].country && init[i].customerId == init'[i].customerId
        {
          assert init[i] == rows[i] && init'[i] == rows'[i];
        }
      }
      SameCountryFieldsSameMap(init, init');
      assert rows[|rows| - 1].country == rows'[|rows| - 1].country;
      assert rows[|rows| - 1].customerId == rows'[|rows| - 1].customerId;
    }
  }

  /** The country pass reads only Country and CustomerID: changing any row's InvoiceDate
      (and with it whether the daily pass keeps that row) leaves countryStats as it is. */
  lemma CountryStatsIgnoresDates(rows: seq<InvoiceRecord>, rows': seq<InvoiceRecord>)
    requires SameCountryFields(rows, rows')
    ensures CountryStats(rows) == CountryStats(rows')
  {
    SameCountryFieldsSameMap(rows, rows');
    assert CountryTable(rows) == CountryTable(rows');
  }

  /** Three rows of country "UK" with ids 1, 1 and 2 give the single entry ("UK", 2). */
  lemma DuplicateCustomerCountsOnce()
    ensures CountryStats([InvoiceRecord(None, Some(1), Some("UK")),
                          InvoiceRecord(None, Some(1), Some("UK")),
                          InvoiceRecord(None, Some(2), Some("UK"))])
         == [CountryCustomerStats("UK", 2)]
  {
    var r1 := InvoiceRecord(None, Some(1), Some("UK"));
    var r2 := InvoiceRecord(None, Some(2), Some("UK"));
    var rows := [r1, r1, r2];
    assert rows[..2] == [r1, r1] && [r1, r1][..1] == [r1] && [r1][..0] == [];
    assert HasCountryAndCustomer(r1) && HasCountryAndCustomer(r2);
    assert Countries([r1]) == ["UK"];
    assert Countries([r1, r1]) == ["UK"];
    assert Countries(rows) == ["UK"];
    assert Customers([r1], "UK") == {1};
    assert Customers([r1, r1], "UK") == {1};
    assert Customers(rows, "UK") == {1, 2};
    assert CountryTable(rows) == [CountryCustomerStats("UK", 2)];
  }

  lemma SortTwo(a: CountryCustomerStats, b: CountryCustomerStats)
    requires a.customerCount < b.customerCount
    ensures SortByCustomerCount([a, b]) == [b, a]
  {
    assert [a, b][..1] == [a] && [a][..0] == [];
    assert SortByCustomerCount([a]) == [a];
  }

  lemma InsertSecond(b: CountryCustomerStats, a: CountryCustomerStats, c: CountryCustomerStats)
    requires a.customerCount < c.customerCount <= b.customerCount
    ensures InsertByCustomerCount([b, a], c) == [b, c, a]
  {
    InsertAfterHead(b, [a], c);
    assert [b] + [a] == [b, a];
    assert InsertByCustomerCount([a], c) == [c] + [a];
    assert [b] + ([c] + [a]) == [b, c, a];
  }

  /** An entry whose count is not above the head's goes after the head. */
  lemma InsertAfterHead(h: CountryCustomerStats, t: seq<CountryCustomerStats>, x: CountryCustomerStats)
    requires x.customerCount <= h.customerCount
    ensures InsertByCustomerCount([h] + t, x) == [h] + InsertByCustomerCount(t, x)
  {
    assert ([h] + t)[0] == h && ([h] + t)[1..] == t;
  }

  /** With counts A:5, B:10, C:10 in that order of appearance, the entries of count 10 come
      first, B before C as they appeared, then A. */
  lemma LargerCountsFirst()
    ensures SortByCustomerCount([CountryCustomerStats("A", 5), CountryCustomerStats("B", 10),
                                 CountryCustomerStats("C", 10)])
         == [CountryCustomerStats("B", 10), CountryCustomerStats("C", 10), CountryCustomerStats("A", 5)]
  {
    var a, b, c := CountryCustomerStats("A", 5), CountryCustomerStats("B", 10), CountryCustomerStats("C", 10);
    assert [a, b, c][..2] == [a, b];
    SortTwo(a, b);
    InsertSecond(b, a, c);
  }

  /** Ties keep the order of appearance, not the alphabetical one: C seen before B stays before B. */
  lemma TieKeepsAppearanceOrder()
    ensures SortByCustomerCount([CountryCustomerStats("C", 10), CountryCustomerStats("B", 10)])
         == [CountryCustomerStats("C", 10), CountryCustomerStats("B", 10)]
  {
    var c, b := CountryCustomerStats("C", 10), CountryCustomerStats("B", 10);
    assert [c, b][..1] == [c] && [c][..0] == [];
    InsertAfterHead(c, [], b);
    assert [c] + [] == [c] && [c] + [b] == [c, b];
  }
}
