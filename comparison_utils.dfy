/** The cross-country comparison of src/comparison_utils.py: a manager that
    loads one cleaned table per country into a dictionary and derives the
    summary table, the ranking by mean, the box-plot records and the inputs
    of the statistical tests from it. */
module ComparisonUtils {
  import opened Tables
  import opened Stats
  import opened Strings
  import opened CountryTables

  const DefaultCountries: seq<string> := ["benin", "sierraleone", "togo"]

  // ------------- views of the dictionary, in insertion order -------------

  /** data.items(): the (key, table) pairs in the order the keys went in. */
  function ItemsOf(order: seq<string>, data: map<string, Table>): (items: seq<(string, Table)>)
    requires forall k :: k in order ==> k in data
    ensures |items| == |order|
    ensures forall i :: 0 <= i < |order| ==> items[i] == (order[i], data[order[i]])
  {
    seq(|order|, i requires 0 <= i < |order| => (order[i], data[order[i]]))
  }

  /** The number of tables holding the metric column. */
  function CountWith(items: seq<(string, Table)>, metric: string): nat
  {
    if items == [] then 0
    else (if metric in items[0].1.columns then 1 else 0) + CountWith(items[1..], metric)
  }

  /** The ranking rows before sorting: the capitalized key and the mean of
      the metric, for each table holding the metric column. */
  function RankingEntries(items: seq<(string, Table)>, metric: string): seq<(string, Option<real>)>
  {
    if items == [] then []
    else
      (if metric in items[0].1.columns
       then [(Capitalize(items[0].0), MeanOrNaN(ColumnValues(items[0].1.rows, metric)))]
       else [])
      + RankingEntries(items[1..], metric)
  }

  /** The records of one metric's box plot: every present value of every
      table holding the metric, tagged with its capitalized key. */
  function BoxplotRecords(items: seq<(string, Table)>, metric: string): seq<(string, real)>
  {
    if items == [] then []
    else
      (if metric in items[0].1.columns then Records(Capitalize(items[0].0), ColumnValues(items[0].1.rows, metric)) else [])
      + BoxplotRecords(items[1..], metric)
  }

  function Records(country: string, values: seq<real>): (r: seq<(string, real)>)
    ensures |r| == |values|
    ensures forall i :: 0 <= i < |values| ==> r[i] == (country, values[i])
  {
    seq(|values|, i requires 0 <= i < |values| => (country, values[i]))
  }

  function PresentTotal(items: seq<(string, Table)>, metric: string): nat
  {
    if items == [] then 0
    else (if metric in items[0].1.columns then |ColumnValues(items[0].1.rows, metric)| else 0)
         + PresentTotal(items[1..], metric)
  }

  /** The samples handed to the tests: df[metric].dropna() of each table
      holding the metric. */
  function TestGroups(items: seq<(string, Table)>, metric: string): seq<seq<real>>
  {
    if items == [] then []
    else (if metric in items[0].1.columns then [ColumnValues(items[0].1.rows, metric)] else [])
         + TestGroups(items[1..], metric)
  }

  function StatisticalTests(items: seq<(string, Table)>, metric: string): (r: TestOutcome)
    ensures r.NotEnoughData? <==> CountWith(items, metric) < 2
    ensures r.Tested? ==> r.samples == TestGroups(items, metric)
  {
    TestGroupsSpec(items, metric);
    var samples := TestGroups(items, metric);
    if |samples| < 2 then NotEnoughData else Tested(samples)
  }

  function Labelled(items: seq<(string, Table)>): (r: seq<(string, Table)>)
    ensures |r| == |items|
    ensures forall i :: 0 <= i < |items| ==> r[i] == (Capitalize(items[i].0), items[i].1)
  {
    seq(|items|, i requires 0 <= i < |items| => (Capitalize(items[i].0), items[i].1))
  }

  /** generate_summary_table: pd.concat of nothing raises ValueError;
      otherwise the tables tagged with their capitalized keys are stacked
      and summarized per country. */
  function SummaryTable(items: seq<(string, Table)>, metrics: seq<string>): Result<seq<GroupSummary>>
  {
    if items == [] then Failure(ValueError("No objects to concatenate"))
    else Summarize(Concat(Labelled(items)), metrics)
  }

  // ----------------------------- properties -----------------------------

  /** One ranking entry per table holding the metric column, with its
      capitalized key and the mean of its present values; the others are
      skipped. */
  lemma {:induction false} RankingEntriesSpec(items: seq<(string, Table)>, metric: string)
    ensures |RankingEntries(items, metric)| == CountWith(items, metric)
    ensures forall e :: e in RankingEntries(items, metric) <==>
              exists k :: 0 <= k < |items| && metric in items[k].1.columns &&
                e == (Capitalize(items[k].0), MeanOrNaN(ColumnValues(items[k].1.rows, metric)))
  {
    if items != [] {
      RankingEntriesSpec(items[1..], metric);
      forall e ensures e in RankingEntries(items, metric) <==>
                 exists k :: 0 <= k < |items| && metric in items[k].1.columns &&
                   e == (Capitalize(items[k].0), MeanOrNaN(ColumnValues(items[k].1.rows, metric)))
      {
        if exists k :: 0 <= k < |items| && metric in items[k].1.columns &&
             e == (Capitalize(items[k].0), MeanOrNaN(ColumnValues(items[k].1.rows, metric)))
        {
          var k :| 0 <= k < |items| && metric in items[k].1.columns &&
             e == (Capitalize(items[k].0), MeanOrNaN(ColumnValues(items[k].1.rows, metric)));
          if k > 0 {
            assert items[1..][k - 1] == items[k];
          }
        }
        if e in RankingEntries(items[1..], metric) {
          var k :| 0 <= k < |items[1..]| && metric in items[1..][k].1.columns &&
             e == (Capitalize(items[1..][k].0), MeanOrNaN(ColumnValues(items[1..][k].1.rows, metric)));
          assert items[k + 1] == items[1..][k];
        }
      }
    }
  }

  /** The records hold every present value of the metric of each table that
      has it, tagged with that table's capitalized key, and nothing else. */
  lemma BoxplotRecordsSpec(items: seq<(string, Table)>, metric: string)
    ensures |BoxplotRecords(items, metric)| == PresentTotal(items, metric)
    ensures forall rec :: rec in BoxplotRecords(items, metric) <==>
              exists k :: 0 <= k < |items| && metric in items[k].1.columns &&
                rec.0 == Capitalize(items[k].0) && rec.1 in ColumnValues(items[k].1.rows, metric)
  {
    BoxplotRecordsCount(items, metric);
    forall rec ensures rec in BoxplotRecords(items, metric) <==>
                 exists k :: 0 <= k < |items| && metric in items[k].1.columns &&
                   rec.0 == Capitalize(items[k].0) && rec.1 in ColumnValues(items[k].1.rows, metric)
    {
      BoxplotRecord(items, metric, rec);
    }
  }

  lemma {:induction false} BoxplotRecordsCount(items: seq<(string, Table)>, metric: string)
    ensures |BoxplotRecords(items, metric)| == PresentTotal(items, metric)
  {
    if items != [] {
      BoxplotRecordsCount(items[1..], metric);
    }
  }

  lemma RecordsMember(country: string, values: seq<real>, rec: (string, real))
    ensures rec in Records(country, values) <==> rec.0 == country && rec.1 in values
  {
    var r := Records(country, values);
    if rec in r {
      var i :| 0 <= i < |r| && r[i] == rec;
      assert rec.1 == values[i];
    }
    if rec.0 == country && rec.1 in values {
      var i :| 0 <= i < |values| && values[i] == rec.1;
      assert r[i] == rec;
    }
  }

  lemma {:induction false} BoxplotRecord(items: seq<(string, Table)>, metric: string, rec: (string, real))
    ensures rec in BoxplotRecords(items, metric) <==>
              exists k :: 0 <= k < |items| && metric in items[k].1.columns &&
                rec.0 == Capitalize(items[k].0) && rec.1 in ColumnValues(items[k].1.rows, metric)
  {
    if items != [] {
      var rest := items[1..];
      BoxplotRecord(rest, metric, rec);
      var inHead := metric in items[0].1.columns && rec.0 == Capitalize(items[0].0) && rec.1 in ColumnValues(items[0].1.rows, metric);
      var head := if metric in items[0].1.columns then Records(Capitalize(items[0].0), ColumnValues(items[0].1.rows, metric)) else [];
      assert BoxplotRecords(items, metric) == head + BoxplotRecords(rest, metric);
      RecordsMember(Capitalize(items[0].0), ColumnValues(items[0].1.rows, metric), rec);
      assert rec in head <==> inHead;
      if rec in BoxplotRecords(items, metric) && !inHead {
        var k :| 0 <= k < |rest| && metric in rest[k].1.columns &&
           rec.0 == Capitalize(rest[k].0) && rec.1 in ColumnValues(rest[k].1.rows, metric);
        assert items[k + 1] == rest[k];
      }
      if exists k :: 0 <= k < |items| && metric in items[k].1.columns &&
           rec.0 == Capitalize(items[k].0) && rec.1 in ColumnValues(items[k].1.rows, metric)
      {
        var k :| 0 <= k < |items| && metric in items[k].1.columns &&
           rec.0 == Capitalize(items[k].0) && rec.1 in ColumnValues(items[k].1.rows, metric);
        if k > 0 {
          assert rest[k - 1] == items[k];
        }
      }
    }
  }

  /** The values of the records tagged with `name`, in order: the data of
      one box in the plot. */
  function RecordValues(recs: seq<(string, real)>, name: string): seq<real>
  {
    if recs == [] then []
    else (if recs[0].0 == name then [recs[0].1] else []) + RecordValues(recs[1..], name)
  }

  lemma {:induction false} RecordValuesAppend(a: seq<(string, real)>, b: seq<(string, real)>, name: string)
    ensures RecordValues(a + b, name) == RecordValues(a, name) + RecordValues(b, name)
  {
    if a == [] {
      assert a + b == b;
    } else {
      var h := if a[0].0 == name then [a[0].1] else [];
      assert (a + b)[0] == a[0];
      assert (a + b)[1..] == a[1..] + b;
      RecordValuesAppend(a[1..], b, name);
      assert RecordValues(a + b, name) == h + RecordValues(a[1..] + b, name);
      assert RecordValues(a, name) == h + RecordValues(a[1..], name);
    }
  }

  lemma {:induction false} RecordValuesOfRecords(country: string, values: seq<real>, name: string)
    ensures RecordValues(Records(country, values), name) == if country == name then values else []
  {
    if values != [] {
      var r := Records(country, values);
      assert r[1..] == Records(country, values[1..]);
      RecordValuesOfRecords(country, values[1..], name);
    }
  }

  /** The first table's share of a box, followed by the rest's. */
  lemma BoxplotValuesStep(items: seq<(string, Table)>, metric: string, name: string)
    requires items != []
    ensures RecordValues(BoxplotRecords(items, metric), name) ==
              (if metric in items[0].1.columns && Capitalize(items[0].0) == name
               then ColumnValues(items[0].1.rows, metric) else [])
              + RecordValues(BoxplotRecords(items[1..], metric), name)
  {
    var head := if metric in items[0].1.columns then Records(Capitalize(items[0].0), ColumnValues(items[0].1.rows, metric)) else [];
    assert BoxplotRecords(items, metric) == head + BoxplotRecords(items[1..], metric);
    RecordValuesAppend(head, BoxplotRecords(items[1..], metric), name);
    RecordValuesOfRecords(Capitalize(items[0].0), ColumnValues(items[0].1.rows, metric), name);
  }

  /** A name that no table holding the metric is keyed by has an empty box. */
  lemma {:induction false} BoxplotValuesAbsent(items: seq<(string, Table)>, metric: string, name: string)
    requires forall i :: 0 <= i < |items| && metric in items[i].1.columns ==> Capitalize(items[i].0) != name
    ensures RecordValues(BoxplotRecords(items, metric), name) == []
  {
    if items != [] {
      var rest := items[1..];
      BoxplotValuesStep(items, metric, name);
      forall i | 0 <= i < |rest| && metric in rest[i].1.columns
        ensures Capitalize(rest[i].0) != name
      {
        assert rest[i] == items[i + 1];
      }
      BoxplotValuesAbsent(rest, metric, name);
    }
  }

  /** The box of a table holding the metric whose capitalized key no other
      such table shares holds exactly that table's present values of the
      metric, in their order and with their multiplicities. */
  lemma {:induction false} BoxplotValuesOfCountry(items: seq<(string, Table)>, metric: string, k: int)
    requires 0 <= k < |items| && metric in items[k].1.columns
    requires forall i :: 0 <= i < |items| && i != k && metric in items[i].1.columns ==>
               Capitalize(items[i].0) != Capitalize(items[k].0)
    ensures RecordValues(BoxplotRecords(items, metric), Capitalize(items[k].0)) == ColumnValues(items[k].1.rows, metric)
  {
    var name := Capitalize(items[k].0);
    var rest := items[1..];
    BoxplotValuesStep(items, metric, name);
    if k == 0 {
      forall i | 0 <= i < |rest| && metric in rest[i].1.columns
        ensures Capitalize(rest[i].0) != name
      {
        assert rest[i] == items[i + 1];
      }
      BoxplotValuesAbsent(rest, metric, name);
    } else {
      assert rest[k - 1] == items[k];
      assert metric in items[0].1.columns ==> Capitalize(items[0].0) != name;
      forall i | 0 <= i < |rest| && i != k - 1 && metric in rest[i].1.columns
        ensures Capitalize(rest[i].0) != Capitalize(rest[k - 1].0)
      {
        assert rest[i] == items[i + 1];
      }
      BoxplotValuesOfCountry(rest, metric, k - 1);
    }
  }

  /** One sample per table holding the metric, each being that table's
      present values of it, and every such table's values are a sample. */
  lemma {:induction false} TestGroupsSpec(items: seq<(string, Table)>, metric: string)
    ensures |TestGroups(items, metric)| == CountWith(items, metric)
    ensures forall g :: g in TestGroups(items, metric) ==>
              exists k :: 0 <= k < |items| && metric in items[k].1.columns && g == ColumnValues(items[k].1.rows, metric)
    ensures forall k :: 0 <= k < |items| && metric in items[k].1.columns ==>
              ColumnValues(items[k].1.rows, metric) in TestGroups(items, metric)
  {
    forall k | 0 <= k < |items| && metric in items[k].1.columns
      ensures ColumnValues(items[k].1.rows, metric) in TestGroups(items, metric)
    {
      TestGroupAt(items, metric, k);
    }
    TestGroupsMembers(items, metric);
  }

  /** The samples follow the tables' order: the table at position k that
      holds the metric gives the sample after those of the tables before it. */
  lemma {:induction false} TestGroupAt(items: seq<(string, Table)>, metric: string, k: int)
    requires 0 <= k < |items| && metric in items[k].1.columns
    ensures CountWith(items[..k], metric) < |TestGroups(items, metric)|
    ensures TestGroups(items, metric)[CountWith(items[..k], metric)] == ColumnValues(items[k].1.rows, metric)
  {
    TestGroupsMembers(items, metric);
    var head := if metric in items[0].1.columns then [ColumnValues(items[0].1.rows, metric)] else [];
    assert TestGroups(items, metric) == head + TestGroups(items[1..], metric);
    if k > 0 {
      var rest := items[1..];
      assert rest[k - 1] == items[k];
      assert items[..k][1..] == rest[..k - 1];
      assert CountWith(items[..k], metric) == |head| + CountWith(rest[..k - 1], metric);
      TestGroupAt(rest, metric, k - 1);
    }
  }

  lemma {:induction false} TestGroupsMembers(items: seq<(string, Table)>, metric: string)
    ensures |TestGroups(items, metric)| == CountWith(items, metric)
    ensures forall g :: g in TestGroups(items, metric) ==>
              exists k :: 0 <= k < |items| && metric in items[k].1.columns && g == ColumnValues(items[k].1.rows, metric)
  {
    if items != [] {
      TestGroupsMembers(items[1..], metric);
      forall g | g in TestGroups(items, metric)
        ensures exists k :: 0 <= k < |items| && metric in items[k].1.columns && g == ColumnValues(items[k].1.rows, metric)
      {
        if g in TestGroups(items[1..], metric) {
          var k :| 0 <= k < |items[1..]| && metric in items[1..][k].1.columns && g == ColumnValues(items[1..][k].1.rows, metric);
          assert items[k + 1] == items[1..][k];
        }
      }
    }
  }

  /** A country whose capitalized key no other key shares, and whose table
      has rows, gets the summary line of its own table: for each metric the
      mean and median of that table's present values. */
  lemma SummaryOfCountry(items: seq<(string, Table)>, metrics: seq<string>, k: int, j: int)
    requires SummaryTable(items, metrics).Success?
    requires 0 <= k < |items| && |items[k].1.rows| > 0 && 0 <= j < |metrics|
    requires forall i :: 0 <= i < |items| && i != k ==> Capitalize(items[i].0) != Capitalize(items[k].0)
    ensures exists i :: 0 <= i < |SummaryTable(items, metrics).value| &&
              SummaryTable(items, metrics).value[i].country == Capitalize(items[k].0) &&
              SummaryTable(items, metrics).value[i].metrics[j] ==
                SummarizeMetric(ColumnValues(items[k].1.rows, metrics[j]), metrics[j])
  {
    var parts := Labelled(items);
    assert parts[k].0 == Capitalize(items[k].0);
    assert SummaryTable(items, metrics) == Summarize(Concat(parts), metrics);
    SummaryOfPart(parts, metrics, k, j);
  }

  /** The summary has one line per loaded country that has rows, named by
      its capitalized key, in sorted order, and no other line. */
  lemma SummaryTableCountries(items: seq<(string, Table)>, metrics: seq<string>)
    requires SummaryTable(items, metrics).Success?
    ensures StrictlySorted(Names(SummaryTable(items, metrics).value))
    ensures forall g :: g in Names(SummaryTable(items, metrics).value) <==>
              exists k :: 0 <= k < |items| && Capitalize(items[k].0) == g && |items[k].1.rows| > 0
  {
    var parts := Labelled(items);
    assert SummaryTable(items, metrics) == Summarize(Concat(parts), metrics);
    GroupsOfConcat(parts);
  }

  // --------------------------- the manager ---------------------------

  /** A ranking line: the rank (1 for the first line), the capitalized key
      and the mean of the metric. */
  datatype RankEntry = RankEntry(rank: nat, country: string, mean: Option<real>)

  function Unranked(r: seq<RankEntry>): (pairs: seq<(string, Option<real>)>)
    ensures |pairs| == |r|
    ensures forall i :: 0 <= i < |r| ==> pairs[i] == (r[i].country, r[i].mean)
  {
    seq(|r|, i requires 0 <= i < |r| => (r[i].country, r[i].mean))
  }

  /** Every key of the dictionary is one of the countries and sits once in
      the insertion order. */
  ghost predicate Consistent(order: seq<string>, data: map<string, Table>, countries: seq<string>)
  {
    && (forall i, j :: 0 <= i < j < |order| ==> order[i] != order[j])
    && (forall k :: k in data <==> k in order)
    && (forall k :: k in data ==> k in countries)
  }

  /** The dictionary after load_data has gone through the countries cs:
      each country with a file is stored, a later store replacing an
      earlier one. */
  function LoadedData(data: map<string, Table>, cs: seq<string>, files: map<string, Table>): map<string, Table>
  {
    if cs == [] then data
    else
      var before := LoadedData(data, cs[..|cs| - 1], files);
      var c := cs[|cs| - 1];
      if FileName(c) in files then before[c := files[FileName(c)]] else before
  }

  lemma LoadedDataSnoc(data: map<string, Table>, cs: seq<string>, c: string, files: map<string, Table>)
    ensures LoadedData(data, cs + [c], files) ==
              if FileName(c) in files then LoadedData(data, cs, files)[c := files[FileName(c)]] else LoadedData(data, cs, files)
  {
    assert (cs + [c])[..|cs|] == cs;
  }

  /** A key is loaded when it was there or one of the countries with a file;
      its table is the file's when it has one, and the old one otherwise. */
  lemma {:induction false} LoadedDataAt(data: map<string, Table>, cs: seq<string>, files: map<string, Table>, k: string)
    ensures k in LoadedData(data, cs, files) <==> k in data || (k in cs && FileName(k) in files)
    ensures k in LoadedData(data, cs, files) ==>
              LoadedData(data, cs, files)[k] == if k in cs && FileName(k) in files then files[FileName(k)] else data[k]
  {
    if cs != [] {
      var front := cs[..|cs| - 1];
      LoadedDataAt(data, front, files, k);
      assert cs == front + [cs[|cs| - 1]];
    }
  }

  /** Loading more countries keeps the dictionary and its order in step. */
  lemma LoadedConsistent(order: seq<string>, data: map<string, Table>, countries: seq<string>, files: map<string, Table>)
    requires Consistent(order, data, countries)
    ensures Consistent(order + NewKeys(countries, files, data.Keys), LoadedData(data, countries, files), countries)
  {
    var added := NewKeys(countries, files, data.Keys);
    var after := order + added;
    NewKeysSpec(countries, files, data.Keys);
    forall i, j | 0 <= i < j < |after| ensures after[i] != after[j] {
      if j >= |order| && i < |order| {
        assert after[i] in data && after[j] == added[j - |order|];
      } else if i >= |order| {
        assert after[i] == added[i - |order|] && after[j] == added[j - |order|];
      }
    }
    forall k ensures k in LoadedData(data, countries, files) <==> k in after {
      LoadedDataAt(data, countries, files, k);
    }
    forall k | k in LoadedData(data, countries, files) ensures k in countries {
      LoadedDataAt(data, countries, files, k);
    }
  }

  /** The keys load_data adds to the dictionary, in the order it adds them:
      the countries that have a file and were not keys before, each at its
      first occurrence. */
  function NewKeys(cs: seq<string>, files: map<string, Table>, known: set<string>): seq<string>
  {
    if cs == [] then []
    else
      var earlier := NewKeys(cs[..|cs| - 1], files, known);
      var c := cs[|cs| - 1];
      if FileName(c) in files && c !in known && c !in earlier then earlier + [c] else earlier
  }

  /** One more country adds itself when it has a file and is new. */
  lemma NewKeysSnoc(cs: seq<string>, c: string, files: map<string, Table>, known: set<string>)
    ensures NewKeys(cs + [c], files, known) ==
              var earlier := NewKeys(cs, files, known);
              if FileName(c) in files && c !in known && c !in earlier then earlier + [c] else earlier
  {
    assert (cs + [c])[..|cs|] == cs;
  }

  lemma {:induction false} NewKeysMember(cs: seq<string>, files: map<string, Table>, known: set<string>, c: string)
    ensures c in NewKeys(cs, files, known) <==> c in cs && FileName(c) in files && c !in known
  {
    if cs != [] {
      var front := cs[..|cs| - 1];
      NewKeysMember(front, files, known, c);
      assert cs == front + [cs[|cs| - 1]];
    }
  }

  /** The new keys are distinct, are exactly the countries with a file that
      were not known, and keep the countries' order. */
  lemma {:induction false} NewKeysSpec(cs: seq<string>, files: map<string, Table>, known: set<string>)
    ensures forall i, j :: 0 <= i < j < |NewKeys(cs, files, known)| ==> NewKeys(cs, files, known)[i] != NewKeys(cs, files, known)[j]
    ensures forall c :: c in NewKeys(cs, files, known) <==> c in cs && FileName(c) in files && c !in known
    ensures IsSubsequence(NewKeys(cs, files, known), cs)
  {
    if cs != [] {
      var front := cs[..|cs| - 1];
      NewKeysSpec(front, files, known);
      assert cs == front + [cs[|cs| - 1]];
      SubsequenceSnoc(NewKeys(front, files, known), front, cs[|cs| - 1]);
    }
  }

  /** reset_index, index += 1 and the Rank column: the sorted lines numbered
      by position, from 1. */
  function Ranked(sorted: seq<(string, Option<real>)>): (r: seq<RankEntry>)
    ensures |r| == |sorted|
    ensures forall i :: 0 <= i < |r| ==> r[i].rank == i + 1
    ensures Unranked(r) == sorted
  {
    seq(|sorted|, i requires 0 <= i < |sorted| => RankEntry(i + 1, sorted[i].0, sorted[i].1))
  }

  class ComparisonManager {
    var countries: seq<string>
    var metrics: seq<string>
    /** The loaded tables by country key. */
    var data: map<string, Table>
    /** The keys of data in the order they were inserted. */
    var order: seq<string>
    /** Set to None on construction and not assigned afterwards. */
    var summary: Option<seq<GroupSummary>>

    /** Every key of data is one of the countries and sits once in `order`. */
    ghost predicate Valid()
      reads this
    {
      Consistent(order, data, countries)
    }

    function Items(): seq<(string, Table)>
      reads this
      requires Valid()
    {
      ItemsOf(order, data)
    }

    /** `countries or [...]`: a missing or empty list means the defaults;
        likewise for metrics. Nothing is loaded yet. */
    constructor (countryList: Option<seq<string>>, metricList: Option<seq<string>>)
      ensures countries == if countryList.None? || countryList.value == [] then DefaultCountries else countryList.value
      ensures metrics == if metricList.None? || metricList.value == [] then DefaultMetrics else metricList.value
      ensures data == map[] && order == [] && summary.None?
      ensures Valid()
    {
      countries := if countryList.None? || countryList.value == [] then DefaultCountries else countryList.value;
      metrics := if metricList.None? || metricList.value == [] then DefaultMetrics else metricList.value;
      data := map[];
      order := [];
      summary := None;
    }

    /** load_data: for each country in turn, the table read from its file
        is stored under the country; a file that is missing or does not
        parse (absent from `files`) leaves the entry as it was. A key seen
        before keeps its place in the order. */
    method LoadData(files: map<string, Table>)
      requires Valid()
      modifies this
      ensures Valid()
      ensures countries == old(countries) && metrics == old(metrics) && summary == old(summary)
      ensures order == old(order) + NewKeys(countries, files, old(data).Keys)
      ensures forall k :: k in data <==> k in old(data) || (k in countries && FileName(k) in files)
      ensures forall k :: k in data ==>
                data[k] == if k in countries && FileName(k) in files then files[FileName(k)] else old(data)[k]
    {
      var i := 0;
      while i < |countries|
        invariant 0 <= i <= |countries|
        invariant countries == old(countries) && metrics == old(metrics) && summary == old(summary)
        invariant order == old(order) + NewKeys(countries[..i], files, old(data).Keys)
        invariant data == LoadedData(old(data), countries[..i], files)
      {
        var country := countries[i];
        var path := FileName(country);
        assert countries[..i + 1] == countries[..i] + [country];
        NewKeysSnoc(countries[..i], country, files, old(data).Keys);
        LoadedDataSnoc(old(data), countries[..i], country, files);
        if path in files {
          NewKeysMember(countries[..i], files, old(data).Keys, country);
          LoadedDataAt(old(data), countries[..i], files, country);
          if country !in data {
            order := order + [country];
          }
          data := data[country := files[path]];
        }
        i := i + 1;
      }
      assert countries[..i] == countries;
      LoadedConsistent(old(order), old(data), countries, files);
      forall k ensures (k in data <==> k in old(data) || (k in countries && FileName(k) in files)) &&
                       (k in data ==> data[k] == if k in countries && FileName(k) in files then files[FileName(k)] else old(data)[k])
      {
        LoadedDataAt(old(data), countries, files, k);
      }
    }

    /** generate_summary_table (the standard deviation left out). */
    function GenerateSummaryTable(): Result<seq<GroupSummary>>
      reads this
      requires Valid()
    {
      SummaryTable(Items(), metrics)
    }

    /** generate_country_ranking without the plot: the entries of the tables
        holding the metric, sorted by mean (NaN last), numbered 1..n. With no
        entry the frame has no "Mean <metric>" column and the sort raises
        KeyError. */
    method GenerateCountryRanking(metric: string, ascending: bool) returns (r: Result<seq<RankEntry>>)
      requires Valid()
      ensures r.Failure? <==> CountWith(Items(), metric) == 0
      ensures r.Failure? ==> r.error == KeyError("Mean " + metric)
      ensures r.Success? ==> |r.value| == CountWith(Items(), metric)
      ensures r.Success? ==> forall i :: 0 <= i < |r.value| ==> r.value[i].rank == i + 1
      ensures r.Success? ==> SortedBy(Unranked(r.value), MeanKey, ascending)
      ensures r.Success? ==> multiset(Unranked(r.value)) == multiset(RankingEntries(Items(), metric))
    {
      var rankingData: seq<(string, Option<real>)> := [];
      var i := 0;
      while i < |order|
        invariant 0 <= i <= |order|
        invariant rankingData == RankingEntries(ItemsOf(order[..i], data), metric)
      {
        var country := order[i];
        var df := data[country];
        RankingEntriesAppend(ItemsOf(order[..i], data), (country, df), metric);
        assert ItemsOf(order[..i + 1], data) == ItemsOf(order[..i], data) + [(country, df)];
        if metric in df.columns {
          rankingData := rankingData + [(Capitalize(country), MeanOrNaN(ColumnValues(df.rows, metric)))];
        }
        i := i + 1;
      }
      assert order[..i] == order;
      RankingEntriesSpec(Items(), metric);
      if |rankingData| == 0 {
        return Failure(KeyError("Mean " + metric));
      }
      var sorted := SortBy(rankingData, MeanKey, ascending);
      return Success(Ranked(sorted));
    }

    /** One metric's records in plot_metric_boxplots, built by the nested
        append loops. */
    method MetricBoxplotRecords(metric: string) returns (records: seq<(string, real)>)
      requires Valid()
      ensures records == BoxplotRecords(Items(), metric)
    {
      records := [];
      var i := 0;
      while i < |order|
        invariant 0 <= i <= |order|
        invariant records == BoxplotRecords(ItemsOf(order[..i], data), metric)
      {
        var country := order[i];
        var df := data[country];
        BoxplotRecordsAppend(ItemsOf(order[..i], data), (country, df), metric);
        assert ItemsOf(order[..i + 1], data) == ItemsOf(order[..i], data) + [(country, df)];
        if metric in df.columns {
          records := AppendRecords(records, Capitalize(country), ColumnValues(df.rows, metric));
        }
        i := i + 1;
      }
      assert order[..i] == order;
    }

    /** The records of plot_metric_boxplots, one list per metric. */
    method PlotMetricBoxplots() returns (perMetric: seq<seq<(string, real)>>)
      requires Valid()
      ensures |perMetric| == |metrics|
      ensures forall m :: 0 <= m < |metrics| ==> perMetric[m] == BoxplotRecords(Items(), metrics[m])
    {
      perMetric := [];
      var m := 0;
      while m < |metrics|
        invariant 0 <= m <= |metrics|
        invariant |perMetric| == m
        invariant forall k :: 0 <= k < m ==> perMetric[k] == BoxplotRecords(Items(), metrics[k])
      {
        var records := MetricBoxplotRecords(metrics[m]);
        perMetric := perMetric + [records];
        m := m + 1;
      }
    }

    /** run_statistical_tests: None (NotEnoughData) with fewer than two
        tables holding the metric; otherwise the samples the tests run on. */
    function RunStatisticalTests(metric: string): TestOutcome
      reads this
      requires Valid()
    {
      StatisticalTests(Items(), metric)
    }
  }

  /** The inner loop of plot_metric_boxplots: one record per value. */
  method AppendRecords(records: seq<(string, real)>, country: string, values: seq<real>) returns (out: seq<(string, real)>)
    ensures out == records + Records(country, values)
  {
    out := records;
    var j := 0;
    while j < |values|
      invariant 0 <= j <= |values|
      invariant out == records + Records(country, values[..j])
    {
      out := out + [(country, values[j])];
      assert Records(country, values[..j + 1]) == Records(country, values[..j]) + [(country, values[j])];
      j := j + 1;
    }
    assert values[..j] == values;
  }

  lemma RankingEntriesAppend(items: seq<(string, Table)>, item: (string, Table), metric: string)
    ensures RankingEntries(items + [item], metric) ==
              RankingEntries(items, metric) +
              (if metric in item.1.columns then [(Capitalize(item.0), MeanOrNaN(ColumnValues(item.1.rows, metric)))] else [])
  {
    if items != [] {
      assert (items + [item])[1..] == items[1..] + [item];
      RankingEntriesAppend(items[1..], item, metric);
    } else {
      assert [item][1..] == [];
    }
  }

  lemma BoxplotRecordsAppend(items: seq<(string, Table)>, item: (string, Table), metric: string)
    ensures BoxplotRecords(items + [item], metric) ==
              BoxplotRecords(items, metric) +
              (if metric in item.1.columns then Records(Capitalize(item.0), ColumnValues(item.1.rows, metric)) else [])
  {
    if items != [] {
      assert (items + [item])[1..] == items[1..] + [item];
      BoxplotRecordsAppend(items[1..], item, metric);
    } else {
      assert [item][1..] == [];
    }
  }
}
