/** The profiling helpers of src/solar_eda.py: the table of missing values
    per column and the report of duplicated rows. */
module SolarProfile {
  import opened Tables
  import opened Stats

  // ============================ missing_table ============================

  /** One line of the table: the column, its missing count and its missing
      fraction (NaN, here None, on a table without rows). */
  datatype MissingEntry = MissingEntry(column: string, missing: nat, fraction: Option<real>)

  function Fraction(missing: nat, n: nat): Option<real>
  {
    if n == 0 then None else Some(missing as real / n as real)
  }

  /** df.isna().sum() and df.isna().mean() for column c. */
  function EntryFor(t: Table, c: string): (e: MissingEntry)
    ensures e.column == c
    ensures e.missing + |ColumnValues(t.rows, c)| == |t.rows|
  {
    PresentAndMissingPartition(Column(t.rows, c));
    var m := MissingCount(Column(t.rows, c));
    MissingEntry(c, m, Fraction(m, |t.rows|))
  }

  /** The unsorted lines: the Timestamp column, which is never missing, then
      every value column in order. */
  function Entries(t: Table): (r: seq<MissingEntry>)
    ensures |r| == |t.columns| + 1
    ensures r[0] == MissingEntry(TimestampColumn, 0, Fraction(0, |t.rows|))
    ensures forall i :: 0 <= i < |t.columns| ==> r[i + 1] == EntryFor(t, t.columns[i])
  {
    [MissingEntry(TimestampColumn, 0, Fraction(0, |t.rows|))]
      + seq(|t.columns|, i requires 0 <= i < |t.columns| => EntryFor(t, t.columns[i]))
  }

  function FractionKey(e: MissingEntry): Option<real> { e.fraction }

  predicate Reaches(e: MissingEntry, thresh: real)
  {
    e.fraction.Some? && e.fraction.value >= thresh
  }

  /** tbl[tbl["% missing"] >= thresh]; NaN >= thresh is False. */
  function KeepReaching(s: seq<MissingEntry>, thresh: real): seq<MissingEntry>
  {
    if s == [] then []
    else (if Reaches(s[0], thresh) then [s[0]] else []) + KeepReaching(s[1..], thresh)
  }

  /** missing_table: the lines sorted by fraction, highest first and NaN last;
      with a positive mv_thresh only the lines reaching it. */
  function MissingTable(t: Table, mvThresh: real): seq<MissingEntry>
  {
    var sorted := SortBy(Entries(t), FractionKey, false);
    if mvThresh > 0.0 then KeepReaching(sorted, mvThresh) else sorted
  }

  lemma {:induction false} KeepReachingSpec(s: seq<MissingEntry>, thresh: real)
    ensures forall e :: e in KeepReaching(s, thresh) <==> e in s && Reaches(e, thresh)
    ensures SortedBy(s, FractionKey, false) ==> SortedBy(KeepReaching(s, thresh), FractionKey, false)
  {
    if s != [] {
      KeepReachingSpec(s[1..], thresh);
      var tail := KeepReaching(s[1..], thresh);
      assert s == [s[0]] + s[1..];
      if SortedBy(s, FractionKey, false) && Reaches(s[0], thresh) {
        var r := [s[0]] + tail;
        forall i, j | 0 <= i < j < |r| ensures Before(FractionKey(r[i]), FractionKey(r[j]), false) {
          if i == 0 {
            assert r[j] in s[1..];
            var k :| 0 <= k < |s[1..]| && s[1..][k] == r[j];
            assert s[k + 1] == r[j];
          } else {
            assert r[i] == tail[i - 1] && r[j] == tail[j - 1];
          }
        }
      }
    }
  }

  lemma EntriesSpec(t: Table)
    ensures forall e :: e in Entries(t) ==>
              e.fraction == Fraction(e.missing, |t.rows|) &&
              (e.column == TimestampColumn || e.missing == MissingCount(Column(t.rows, e.column)))
  {
    var entries := Entries(t);
    forall e | e in entries
      ensures e.fraction == Fraction(e.missing, |t.rows|)
      ensures e.column == TimestampColumn || e.missing == MissingCount(Column(t.rows, e.column))
    {
      var k :| 0 <= k < |entries| && entries[k] == e;
      if k > 0 {
        assert e == EntryFor(t, t.columns[k - 1]);
      }
    }
  }

  /** Each line carries its column's missing count and count / rows; the
      lines are sorted by fraction, highest first; with a positive threshold
      exactly the lines reaching it remain, and otherwise all of them. */
  lemma MissingTableSpec(t: Table, mvThresh: real)
    ensures SortedBy(MissingTable(t, mvThresh), FractionKey, false)
    ensures forall e :: e in MissingTable(t, mvThresh) ==>
              e.fraction == Fraction(e.missing, |t.rows|) &&
              (e.column == TimestampColumn || e.missing == MissingCount(Column(t.rows, e.column)))
    ensures mvThresh > 0.0 ==> forall e :: e in MissingTable(t, mvThresh) <==> e in Entries(t) && Reaches(e, mvThresh)
    ensures mvThresh <= 0.0 ==> multiset(MissingTable(t, mvThresh)) == multiset(Entries(t))
  {
    var sorted := SortBy(Entries(t), FractionKey, false);
    KeepReachingSpec(sorted, mvThresh);
    SortByMembers(Entries(t), FractionKey, false);
    EntriesSpec(t);
  }

  /** Without a threshold every column has its line. */
  lemma MissingTableCoversColumns(t: Table, c: string)
    requires c in t.columns
    ensures EntryFor(t, c) in MissingTable(t, 0.0)
  {
    var entries := Entries(t);
    var k :| 0 <= k < |t.columns| && t.columns[k] == c;
    assert entries[k + 1] == EntryFor(t, c);
    SortByMembers(entries, FractionKey, false);
  }

  // ============================== dup_report ==============================

  /** Two rows agree on the checked columns; missing agrees with missing, as
      in DataFrame.duplicated. */
  predicate SameOn(a: Row, b: Row, cols: seq<string>)
  {
    forall k :: 0 <= k < |cols| ==>
      if cols[k] == TimestampColumn then a.stamp == b.stamp else Get(a, cols[k]) == Get(b, cols[k])
  }

  /** duplicated(keep=False): row i agrees with some other row. */
  ghost predicate IsDuplicate(rows: seq<Row>, i: int, cols: seq<string>)
    requires 0 <= i < |rows|
  {
    exists j :: 0 <= j < |rows| && j != i && SameOn(rows[i], rows[j], cols)
  }

  /** The search for another row agreeing with row i, from row j on. */
  predicate MatchFrom(rows: seq<Row>, i: nat, cols: seq<string>, j: nat)
    requires i < |rows| && j <= |rows|
    decreases |rows| - j
  {
    j < |rows| && ((j != i && SameOn(rows[i], rows[j], cols)) || MatchFrom(rows, i, cols, j + 1))
  }

  /** The flag duplicated(keep=False) computes for row i. */
  predicate Duplicated(rows: seq<Row>, i: nat, cols: seq<string>)
    requires i < |rows|
  {
    MatchFrom(rows, i, cols, 0)
  }

  lemma {:induction false} MatchFromSpec(rows: seq<Row>, i: nat, cols: seq<string>, j: nat)
    requires i < |rows| && j <= |rows|
    ensures MatchFrom(rows, i, cols, j) <==> exists m :: j <= m < |rows| && m != i && SameOn(rows[i], rows[m], cols)
    decreases |rows| - j
  {
    if j < |rows| {
      MatchFromSpec(rows, i, cols, j + 1);
    }
  }

  /** The flag is set exactly for the rows that agree with another row. */
  lemma DuplicatedSpec(rows: seq<Row>, i: nat, cols: seq<string>)
    requires i < |rows|
    ensures Duplicated(rows, i, cols) <==> IsDuplicate(rows, i, cols)
  {
    MatchFromSpec(rows, i, cols, 0);
  }

  /** df[dups] restricted to the rows from index `from` on. */
  function Marked(rows: seq<Row>, cols: seq<string>, from: nat): seq<Row>
    requires from <= |rows|
    decreases |rows| - from
  {
    if from == |rows| then []
    else (if Duplicated(rows, from, cols) then [rows[from]] else []) + Marked(rows, cols, from + 1)
  }

  /** dups.sum() over the rows from index `from` on. */
  function MarkedCount(rows: seq<Row>, cols: seq<string>, from: nat): nat
    requires from <= |rows|
    decreases |rows| - from
  {
    if from == |rows| then 0
    else (if Duplicated(rows, from, cols) then 1 else 0) + MarkedCount(rows, cols, from + 1)
  }

  /** The columns compared: all of them, or a subset, each of which must be
      a column (KeyError) and of which there must be at least one (an empty
      subset fails with ValueError). */
  function CheckedColumns(t: Table, subset: Option<seq<string>>): (r: Result<seq<string>>)
    ensures r.Success? ==> |r.value| > 0
    ensures r.Success? ==> forall c :: c in r.value ==> c == TimestampColumn || c in t.columns
    ensures subset.None? ==> r == Success([TimestampColumn] + t.columns)
    ensures subset.Some? && r.Success? ==> r.value == subset.value
    ensures r.Failure? ==> subset.Some?
    ensures subset == Some([]) ==> r.Failure? && r.error.ValueError?
    ensures subset.Some? && subset.value != [] ==>
              (r.Failure? <==> exists c :: c in subset.value && c !in [TimestampColumn] + t.columns)
    ensures r.Failure? && r.error.KeyError? ==>
              subset.Some? && r.error.column in subset.value && r.error.column !in [TimestampColumn] + t.columns
  {
    match subset
    case None => Success([TimestampColumn] + t.columns)
    case Some(cols) =>
      match FirstAbsent(cols, [TimestampColumn] + t.columns)
      case Some(c) => Failure(KeyError(c))
      case None => if cols == [] then Failure(ValueError("empty subset")) else Success(cols)
  }

  /** dup_report: the number of duplicated rows and those rows. On a table
      without rows pandas returns before it looks at the subset. */
  function DupReport(t: Table, subset: Option<seq<string>>): Result<(nat, seq<Row>)>
  {
    if |t.rows| == 0 then Success((0, []))
    else
      var cols :- CheckedColumns(t, subset);
      Success((MarkedCount(t.rows, cols, 0), Marked(t.rows, cols, 0)))
  }

  lemma MarkedSpec(rows: seq<Row>, cols: seq<string>, from: nat)
    requires from <= |rows|
    ensures MarkedCount(rows, cols, from) == |Marked(rows, cols, from)|
    ensures forall r :: r in Marked(rows, cols, from) <==>
              exists i :: from <= i < |rows| && rows[i] == r && IsDuplicate(rows, i, cols)
  {
    MarkedCounted(rows, cols, from);
    forall r ensures r in Marked(rows, cols, from) <==>
               exists i :: from <= i < |rows| && rows[i] == r && IsDuplicate(rows, i, cols)
    {
      MarkedMember(rows, cols, from, r);
      if exists i :: from <= i < |rows| && rows[i] == r && IsDuplicate(rows, i, cols) {
        var i :| from <= i < |rows| && rows[i] == r && IsDuplicate(rows, i, cols);
        DuplicatedSpec(rows, i, cols);
      }
      if exists i :: from <= i < |rows| && rows[i] == r && Duplicated(rows, i, cols) {
        var i :| from <= i < |rows| && rows[i] == r && Duplicated(rows, i, cols);
        DuplicatedSpec(rows, i, cols);
      }
    }
  }

  lemma {:induction false} MarkedCounted(rows: seq<Row>, cols: seq<string>, from: nat)
    requires from <= |rows|
    ensures MarkedCount(rows, cols, from) == |Marked(rows, cols, from)|
    decreases |rows| - from
  {
    if from < |rows| {
      MarkedCounted(rows, cols, from + 1);
    }
  }

  lemma {:induction false} MarkedMember(rows: seq<Row>, cols: seq<string>, from: nat, r: Row)
    requires from <= |rows|
    ensures r in Marked(rows, cols, from) <==>
              exists i :: from <= i < |rows| && rows[i] == r && Duplicated(rows, i, cols)
    decreases |rows| - from
  {
    if from < |rows| {
      MarkedMember(rows, cols, from + 1, r);
    }
  }

  lemma SameOnSymmetric(a: Row, b: Row, cols: seq<string>)
    requires SameOn(a, b, cols)
    ensures SameOn(b, a, cols)
  {
    forall k | 0 <= k < |cols|
      ensures if cols[k] == TimestampColumn then b.stamp == a.stamp else Get(b, cols[k]) == Get(a, cols[k])
    {
    }
  }

  /** One step of the scan: a duplicated row adds itself, any other row
      adds nothing. */
  lemma MarkedStep(rows: seq<Row>, cols: seq<string>, from: nat)
    requires from < |rows|
    ensures |Marked(rows, cols, from)| ==
              |Marked(rows, cols, from + 1)| + (if Duplicated(rows, from, cols) then 1 else 0)
  {
    var head := if Duplicated(rows, from, cols) then [rows[from]] else [];
    assert Marked(rows, cols, from) == head + Marked(rows, cols, from + 1);
  }

  lemma {:induction false} MarkedNonEmpty(rows: seq<Row>, cols: seq<string>, from: nat, j: nat)
    requires from <= j < |rows| && Duplicated(rows, j, cols)
    ensures |Marked(rows, cols, from)| >= 1
    decreases |rows| - from
  {
    MarkedStep(rows, cols, from);
    if from < j {
      MarkedNonEmpty(rows, cols, from + 1, j);
    }
  }

  lemma {:induction false} MarkedAtLeast(rows: seq<Row>, cols: seq<string>, from: nat, i: nat, j: nat)
    requires from <= i < |rows| && Duplicated(rows, i, cols)
    requires i < j < |rows| && Duplicated(rows, j, cols)
    ensures |Marked(rows, cols, from)| >= 2
    decreases |rows| - from
  {
    MarkedStep(rows, cols, from);
    if from < i {
      MarkedAtLeast(rows, cols, from + 1, i, j);
    } else {
      MarkedNonEmpty(rows, cols, i + 1, j);
    }
  }

  /** The count is the number of returned rows; every returned row is a
      row of the table that agrees with another row on the checked columns;
      every such row is returned; and so the count is never 1. */
  lemma DupReportSpec(t: Table, subset: Option<seq<string>>)
    requires DupReport(t, subset).Success? && |t.rows| > 0
    ensures var cols := CheckedColumns(t, subset).value;
            var (count, dups) := DupReport(t, subset).value;
            && count == |dups|
            && (forall r :: r in dups <==> exists i :: 0 <= i < |t.rows| && t.rows[i] == r && IsDuplicate(t.rows, i, cols))
            && count != 1
            && count == |set i | 0 <= i < |t.rows| && IsDuplicate(t.rows, i, cols)|
  {
    var cols := CheckedColumns(t, subset).value;
    assert DupReport(t, subset).value == (MarkedCount(t.rows, cols, 0), Marked(t.rows, cols, 0));
    MarkedSpec(t.rows, cols, 0);
    MarkedCardinality(t.rows, cols);
    var dups := Marked(t.rows, cols, 0);
    if |dups| > 0 {
      assert dups[0] in dups;
      var i :| 0 <= i < |t.rows| && t.rows[i] == dups[0] && IsDuplicate(t.rows, i, cols);
      var j :| 0 <= j < |t.rows| && j != i && SameOn(t.rows[i], t.rows[j], cols);
      SameOnSymmetric(t.rows[i], t.rows[j], cols);
      assert IsDuplicate(t.rows, j, cols);
      DuplicatedSpec(t.rows, i, cols);
      DuplicatedSpec(t.rows, j, cols);
      if i < j {
        MarkedAtLeast(t.rows, cols, 0, i, j);
      } else {
        MarkedAtLeast(t.rows, cols, 0, j, i);
      }
    }
  }

  /** dup_report fails exactly when the table has rows and the subset is
      rejected: a name that is not a column, or no name at all. */
  lemma DupReportFails(t: Table, subset: Option<seq<string>>)
    ensures DupReport(t, subset).Failure? <==> |t.rows| > 0 && CheckedColumns(t, subset).Failure?
    ensures DupReport(t, subset).Failure? ==> DupReport(t, subset).error == CheckedColumns(t, subset).error
  {
  }

  /** The returned rows are the duplicated rows in table order, each once:
      idx lists, increasing, exactly the indices of the rows that agree with
      another row on the checked columns, and the j-th returned row is the
      row at idx[j]. */
  lemma DupReportRows(t: Table, subset: Option<seq<string>>) returns (idx: seq<int>)
    requires DupReport(t, subset).Success? && |t.rows| > 0
    ensures var cols := CheckedColumns(t, subset).value;
            var dups := DupReport(t, subset).value.1;
            && |idx| == |dups|
            && (forall j :: 0 <= j < |idx| ==> 0 <= idx[j] < |t.rows| && dups[j] == t.rows[idx[j]])
            && (forall j1, j2 :: 0 <= j1 < j2 < |idx| ==> idx[j1] < idx[j2])
            && (forall i :: i in idx <==> 0 <= i < |t.rows| && IsDuplicate(t.rows, i, cols))
  {
    var cols := CheckedColumns(t, subset).value;
    assert DupReport(t, subset).value.1 == Marked(t.rows, cols, 0);
    idx := MarkedIndices(t.rows, cols, 0);
  }

  lemma MarkedIndices(rows: seq<Row>, cols: seq<string>, from: nat) returns (idx: seq<int>)
    requires from <= |rows|
    ensures |idx| == |Marked(rows, cols, from)|
    ensures forall j :: 0 <= j < |idx| ==> from <= idx[j] < |rows| && Marked(rows, cols, from)[j] == rows[idx[j]]
    ensures forall j1, j2 :: 0 <= j1 < j2 < |idx| ==> idx[j1] < idx[j2]
    ensures forall i :: i in idx <==> from <= i < |rows| && IsDuplicate(rows, i, cols)
  {
    idx := Positions(rows, cols, from);
    PositionsPick(rows, cols, from);
    PositionsIncreasing(rows, cols, from);
    forall i ensures i in idx <==> from <= i < |rows| && IsDuplicate(rows, i, cols) {
      PositionsMember(rows, cols, from, i);
      if from <= i < |rows| {
        DuplicatedSpec(rows, i, cols);
      }
    }
  }

  /** The indices the scan keeps, from index `from` on. */
  function Positions(rows: seq<Row>, cols: seq<string>, from: nat): seq<int>
    requires from <= |rows|
    decreases |rows| - from
  {
    if from == |rows| then []
    else (if Duplicated(rows, from, cols) then [from] else []) + Positions(rows, cols, from + 1)
  }

  lemma {:induction false} PositionsPick(rows: seq<Row>, cols: seq<string>, from: nat)
    requires from <= |rows|
    ensures |Positions(rows, cols, from)| == |Marked(rows, cols, from)|
    ensures forall j :: 0 <= j < |Positions(rows, cols, from)| ==>
              from <= Positions(rows, cols, from)[j] < |rows| &&
              Marked(rows, cols, from)[j] == rows[Positions(rows, cols, from)[j]]
    decreases |rows| - from
  {
    if from < |rows| {
      PositionsPick(rows, cols, from + 1);
      var p, m := Positions(rows, cols, from + 1), Marked(rows, cols, from + 1);
      if Duplicated(rows, from, cols) {
        assert Positions(rows, cols, from) == [from] + p;
        assert Marked(rows, cols, from) == [rows[from]] + m;
      } else {
        assert Positions(rows, cols, from) == p;
        assert Marked(rows, cols, from) == m;
      }
    }
  }

  lemma {:induction false} PositionsIncreasing(rows: seq<Row>, cols: seq<string>, from: nat)
    requires from <= |rows|
    ensures forall j :: 0 <= j < |Positions(rows, cols, from)| ==> from <= Positions(rows, cols, from)[j]
    ensures forall j1, j2 :: 0 <= j1 < j2 < |Positions(rows, cols, from)| ==>
              Positions(rows, cols, from)[j1] < Positions(rows, cols, from)[j2]
    decreases |rows| - from
  {
    if from < |rows| {
      PositionsIncreasing(rows, cols, from + 1);
      var p := Positions(rows, cols, from + 1);
      if Duplicated(rows, from, cols) {
        assert Positions(rows, cols, from) == [from] + p;
      } else {
        assert Positions(rows, cols, from) == p;
      }
    }
  }

  lemma {:induction false} PositionsMember(rows: seq<Row>, cols: seq<string>, from: nat, i: int)
    requires from <= |rows|
    ensures i in Positions(rows, cols, from) <==> from <= i < |rows| && Duplicated(rows, i, cols)
    decreases |rows| - from
  {
    if from < |rows| {
      PositionsMember(rows, cols, from + 1, i);
      var p := Positions(rows, cols, from + 1);
      if Duplicated(rows, from, cols) {
        assert Positions(rows, cols, from) == [from] + p;
      } else {
        assert Positions(rows, cols, from) == p;
      }
    }
  }

  /** The scan returns as many rows as there are duplicated indices. */
  lemma MarkedCardinality(rows: seq<Row>, cols: seq<string>)
    ensures |Marked(rows, cols, 0)| == |set i | 0 <= i < |rows| && IsDuplicate(rows, i, cols)|
  {
    var idx := MarkedIndices(rows, cols, 0);
    IncreasingCardinality(idx);
    assert (set i | i in idx) == (set i | 0 <= i < |rows| && IsDuplicate(rows, i, cols));
  }
}
