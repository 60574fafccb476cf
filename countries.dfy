/** Several countries' tables stacked into one, each row tagged with its
    country name (pd.concat after assigning a Country column), and the
    per-country aggregates that groupby("Country") computes over it. */
module CountryTables {
  import opened Tables
  import opened Stats
  import opened Strings

  const CountryColumn: string := "Country"

  /** The metrics compared when no list is given. */
  const DefaultMetrics: seq<string> := ["GHI", "DNI", "DHI"]
  /** The ending of every cleaned country file. */
  const CleanFileSuffix: string := "_clean.csv"

  /** The file a country's cleaned table is read from. */
  function FileName(country: string): string
  {
    country + CleanFileSuffix
  }

  datatype Tagged = Tagged(country: string, row: Row)

  /** The stacked table: the union of the parts' columns and the tagged rows. */
  datatype CountryTable = CountryTable(columns: seq<string>, rows: seq<Tagged>)

  /** df.assign(Country=label), or df["Country"] = label. */
  function Tag(name: string, rows: seq<Row>): (r: seq<Tagged>)
    ensures |r| == |rows|
    ensures forall i :: 0 <= i < |rows| ==> r[i] == Tagged(name, rows[i])
  {
    seq(|rows|, i requires 0 <= i < |rows| => Tagged(name, rows[i]))
  }

  /** The columns of b that a lacks, appended to a. */
  function MergeColumns(a: seq<string>, b: seq<string>): (r: seq<string>)
    ensures forall c :: c in r <==> c in a || c in b
    ensures a <= r
    decreases |b|
  {
    if b == [] then a
    else MergeColumns(if b[0] in a then a else a + [b[0]], b[1..])
  }

  /** pd.concat(..., ignore_index=True) of labelled tables, in order. */
  function Concat(parts: seq<(string, Table)>): CountryTable
  {
    if parts == [] then CountryTable([], [])
    else
      var init := Concat(parts[..|parts| - 1]);
      var last := parts[|parts| - 1];
      CountryTable(MergeColumns(init.columns, last.1.columns), init.rows + Tag(last.0, last.1.rows))
  }

  /** The stacked columns are exactly the union of the parts' columns. */
  lemma ConcatColumns(parts: seq<(string, Table)>)
    ensures forall c :: c in Concat(parts).columns <==> exists k :: 0 <= k < |parts| && c in parts[k].1.columns
  {
    forall c ensures c in Concat(parts).columns <==> exists k :: 0 <= k < |parts| && c in parts[k].1.columns {
      ConcatColumn(parts, c);
    }
  }

  lemma {:induction false} ConcatColumn(parts: seq<(string, Table)>, c: string)
    ensures c in Concat(parts).columns <==> exists k :: 0 <= k < |parts| && c in parts[k].1.columns
  {
    if parts != [] {
      var n := |parts| - 1;
      var init := parts[..n];
      ConcatColumn(init, c);
      if exists k :: 0 <= k < n && c in init[k].1.columns {
        var k :| 0 <= k < n && c in init[k].1.columns;
        assert parts[k] == init[k];
      }
      if exists k :: 0 <= k < |parts| && c in parts[k].1.columns {
        var k :| 0 <= k < |parts| && c in parts[k].1.columns;
        if k < n {
          assert parts[k] == init[k];
        }
      }
    }
  }

  function TotalRows(parts: seq<(string, Table)>): nat
  {
    if parts == [] then 0 else TotalRows(parts[..|parts| - 1]) + |parts[|parts| - 1].1.rows|
  }

  /** The stacked table has every part's rows, each tagged with its part's
      name, and nothing else. */
  lemma {:induction false} ConcatRows(parts: seq<(string, Table)>)
    ensures |Concat(parts).rows| == TotalRows(parts)
    ensures forall x :: x in Concat(parts).rows <==>
              exists k :: 0 <= k < |parts| && x.country == parts[k].0 && x.row in parts[k].1.rows
  {
    if parts != [] {
      var n := |parts| - 1;
      var init := parts[..n];
      ConcatRows(init);
      var tail := Tag(parts[n].0, parts[n].1.rows);
      forall x ensures x in Concat(parts).rows <==>
                 exists k :: 0 <= k < |parts| && x.country == parts[k].0 && x.row in parts[k].1.rows
      {
        if x in tail {
          var i :| 0 <= i < |tail| && tail[i] == x;
          assert x.row == parts[n].1.rows[i];
        }
        if x.country == parts[n].0 && x.row in parts[n].1.rows {
          var i :| 0 <= i < |parts[n].1.rows| && parts[n].1.rows[i] == x.row;
          assert tail[i] == x;
        }
        if exists k :: 0 <= k < n && x.country == parts[k].0 && x.row in parts[k].1.rows {
          var k :| 0 <= k < n && x.country == parts[k].0 && x.row in parts[k].1.rows;
          assert init[k] == parts[k];
        }
        if exists k :: 0 <= k < n && x.country == init[k].0 && x.row in init[k].1.rows {
          var k :| 0 <= k < n && x.country == init[k].0 && x.row in init[k].1.rows;
          assert init[k] == parts[k];
        }
      }
    }
  }

  function Labels(rows: seq<Tagged>): (r: seq<string>)
    ensures |r| == |rows|
    ensures forall i :: 0 <= i < |rows| ==> r[i] == rows[i].country
  {
    seq(|rows|, i requires 0 <= i < |rows| => rows[i].country)
  }

  /** The group keys of groupby("Country"): the distinct labels, sorted. */
  function Groups(t: CountryTable): (r: seq<string>)
    ensures StrictlySorted(r)
    ensures forall g :: g in r <==> exists i :: 0 <= i < |t.rows| && t.rows[i].country == g
  {
    var r := SortedDistinct(Labels(t.rows));
    assert forall g :: g in Labels(t.rows) <==> exists i :: 0 <= i < |t.rows| && t.rows[i].country == g by {
      forall g ensures g in Labels(t.rows) <==> exists i :: 0 <= i < |t.rows| && t.rows[i].country == g {
        if g in Labels(t.rows) {
          var i :| 0 <= i < |t.rows| && Labels(t.rows)[i] == g;
        }
      }
    }
    r
  }

  /** group[metric].dropna() for the group `label`, in row order. */
  function GroupValues(rows: seq<Tagged>, name: string, metric: string): seq<real>
  {
    if rows == [] then []
    else (if rows[0].country == name && metric in rows[0].row.cells then [rows[0].row.cells[metric]] else [])
         + GroupValues(rows[1..], name, metric)
  }

  lemma {:induction false} GroupValuesConcat(a: seq<Tagged>, b: seq<Tagged>, name: string, metric: string)
    ensures GroupValues(a + b, name, metric) == GroupValues(a, name, metric) + GroupValues(b, name, metric)
  {
    if a != [] {
      var head := if a[0].country == name && metric in a[0].row.cells then [a[0].row.cells[metric]] else [];
      assert (a + b)[0] == a[0] && (a + b)[1..] == a[1..] + b;
      calc {
        GroupValues(a + b, name, metric);
        head + GroupValues(a[1..] + b, name, metric);
        { GroupValuesConcat(a[1..], b, name, metric); }
        head + (GroupValues(a[1..], name, metric) + GroupValues(b, name, metric));
        (head + GroupValues(a[1..], name, metric)) + GroupValues(b, name, metric);
      }
    } else {
      assert a + b == b;
    }
  }

  lemma {:induction false} GroupValuesOfTag(tag: string, rows: seq<Row>, name: string, metric: string)
    ensures GroupValues(Tag(tag, rows), name, metric) == if tag == name then ColumnValues(rows, metric) else []
  {
    if rows != [] {
      GroupValuesOfTag(tag, rows[1..], name, metric);
      assert Tag(tag, rows)[1..] == Tag(tag, rows[1..]);
      assert Column(rows, metric)[1..] == Column(rows[1..], metric);
    }
  }

  /** A country's group in the stacked table holds exactly the values of its
      own table, when no other part carries the same name. */
  lemma {:induction false} GroupOfUniqueLabel(parts: seq<(string, Table)>, k: int, metric: string)
    requires 0 <= k < |parts|
    requires forall j :: 0 <= j < |parts| && j != k ==> parts[j].0 != parts[k].0
    ensures GroupValues(Concat(parts).rows, parts[k].0, metric) == ColumnValues(parts[k].1.rows, metric)
  {
    var n := |parts| - 1;
    var init := parts[..n];
    var name := parts[k].0;
    GroupValuesConcat(Concat(init).rows, Tag(parts[n].0, parts[n].1.rows), name, metric);
    GroupValuesOfTag(parts[n].0, parts[n].1.rows, name, metric);
    if k < n {
      GroupOfUniqueLabel(init, k, metric);
    } else {
      GroupValuesAbsent(init, name, metric);
    }
  }

  lemma {:induction false} GroupValuesAbsent(parts: seq<(string, Table)>, name: string, metric: string)
    requires forall j :: 0 <= j < |parts| ==> parts[j].0 != name
    ensures GroupValues(Concat(parts).rows, name, metric) == []
  {
    if parts != [] {
      var n := |parts| - 1;
      GroupValuesAbsent(parts[..n], name, metric);
      GroupValuesConcat(Concat(parts[..n]).rows, Tag(parts[n].0, parts[n].1.rows), name, metric);
      GroupValuesOfTag(parts[n].0, parts[n].1.rows, name, metric);
    }
  }

  // ----- agg(["mean", "median"]) per group -----

  datatype MetricSummary = MetricSummary(metric: string, mean: Option<real>, median: Option<real>)
  datatype GroupSummary = GroupSummary(country: string, metrics: seq<MetricSummary>)

  function SummarizeMetric(values: seq<real>, metric: string): (s: MetricSummary)
    ensures s.metric == metric
    ensures s.mean.Some? <==> |values| > 0
    ensures s.median.Some? <==> |values| > 0
  {
    MetricSummary(metric, MeanOrNaN(values), MedianOrNaN(values))
  }

  function SummarizeGroup(t: CountryTable, g: string, metrics: seq<string>): (r: GroupSummary)
    ensures r.country == g && |r.metrics| == |metrics|
    ensures forall j :: 0 <= j < |metrics| ==> r.metrics[j] == SummarizeMetric(GroupValues(t.rows, g, metrics[j]), metrics[j])
  {
    GroupSummary(g, seq(|metrics|, j requires 0 <= j < |metrics| => SummarizeMetric(GroupValues(t.rows, g, metrics[j]), metrics[j])))
  }

  function Names(r: seq<GroupSummary>): (names: seq<string>)
    ensures |names| == |r|
    ensures forall i :: 0 <= i < |r| ==> names[i] == r[i].country
  {
    seq(|r|, i requires 0 <= i < |r| => r[i].country)
  }

  /** groupby("Country")[metrics].agg(["mean", "median"]): a KeyError when a
      metric is in none of the stacked tables, otherwise one line per
      country, in sorted order. */
  function Summarize(t: CountryTable, metrics: seq<string>): (r: Result<seq<GroupSummary>>)
    ensures r.Failure? <==> exists m :: m in metrics && m !in t.columns
    ensures r.Success? ==> Names(r.value) == Groups(t)
    ensures r.Success? ==> forall i :: 0 <= i < |r.value| ==> r.value[i] == SummarizeGroup(t, Groups(t)[i], metrics)
  {
    match FirstAbsent(metrics, t.columns)
    case Some(m) => Failure(KeyError(m))
    case None =>
      var groups := Groups(t);
      Success(seq(|groups|, i requires 0 <= i < |groups| => SummarizeGroup(t, groups[i], metrics)))
  }

  /** The groups of the stacked table are the names of the parts that have
      rows; a part without rows contributes no group. */
  lemma GroupsOfConcat(parts: seq<(string, Table)>)
    ensures forall g :: g in Groups(Concat(parts)) <==>
              exists k :: 0 <= k < |parts| && parts[k].0 == g && |parts[k].1.rows| > 0
  {
    var t := Concat(parts);
    ConcatRows(parts);
    forall g ensures g in Groups(t) <==> exists k :: 0 <= k < |parts| && parts[k].0 == g && |parts[k].1.rows| > 0 {
      if g in Groups(t) {
        var i :| 0 <= i < |t.rows| && t.rows[i].country == g;
        assert t.rows[i] in t.rows;
      }
      if exists k :: 0 <= k < |parts| && parts[k].0 == g && |parts[k].1.rows| > 0 {
        var k :| 0 <= k < |parts| && parts[k].0 == g && |parts[k].1.rows| > 0;
        var i := GroupIndex(parts, k);
      }
    }
  }

  /** A part with rows gives its name a group of the stacked table. */
  lemma GroupIndex(parts: seq<(string, Table)>, k: int) returns (i: int)
    requires 0 <= k < |parts| && |parts[k].1.rows| > 0
    ensures 0 <= i < |Groups(Concat(parts))| && Groups(Concat(parts))[i] == parts[k].0
  {
    var t := Concat(parts);
    ConcatRows(parts);
    assert parts[k].1.rows[0] in parts[k].1.rows;
    var x := Tagged(parts[k].0, parts[k].1.rows[0]);
    assert x in t.rows;
    var row :| 0 <= row < |t.rows| && t.rows[row] == x;
    assert parts[k].0 in Groups(t);
    i :| 0 <= i < |Groups(t)| && Groups(t)[i] == parts[k].0;
  }

  /** A part whose name no other part carries, and which has rows, gets the
      summary line of its own table: for each metric the mean and median of
      that table's present values. */
  lemma SummaryOfPart(parts: seq<(string, Table)>, metrics: seq<string>, k: int, j: int)
    requires Summarize(Concat(parts), metrics).Success?
    requires 0 <= k < |parts| && |parts[k].1.rows| > 0 && 0 <= j < |metrics|
    requires forall i :: 0 <= i < |parts| && i != k ==> parts[i].0 != parts[k].0
    ensures exists i :: 0 <= i < |Summarize(Concat(parts), metrics).value| &&
              Summarize(Concat(parts), metrics).value[i].country == parts[k].0 &&
              Summarize(Concat(parts), metrics).value[i].metrics[j] ==
                SummarizeMetric(ColumnValues(parts[k].1.rows, metrics[j]), metrics[j])
  {
    var t := Concat(parts);
    var r := Summarize(t, metrics).value;
    var i := GroupIndex(parts, k);
    assert Names(r)[i] == parts[k].0;
    GroupOfUniqueLabel(parts, k, metrics[j]);
    assert r[i] == SummarizeGroup(t, parts[k].0, metrics);
  }

  /** The sort key of a (country, mean) line. */
  function MeanKey(e: (string, Option<real>)): Option<real> { e.1 }

  /** What a statistical-test helper does: nothing with fewer than two
      samples, otherwise the tests on the samples (the p-values themselves
      are not modelled). */
  datatype TestOutcome = NotEnoughData | Tested(samples: seq<seq<real>>)
}
