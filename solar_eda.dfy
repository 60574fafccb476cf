/** The cleaning pipeline of src/solar_eda.py: each step as a function on
    tables with the guarantees it keeps, and the steps that pandas performs
    in place (the night clamp, the median fill, the derived columns) also as
    methods of a mutable Frame. */
module SolarClean {
  import opened Tables
  import opened Stats

  const GHI: string := "GHI"
  const DNI: string := "DNI"
  const DHI: string := "DHI"
  const IrradianceCols: seq<string> := [GHI, DNI, DHI]

  /** The monitored columns screened for outliers. */
  const ZCols: seq<string> := ["GHI", "DNI", "DHI", "ModA", "ModB", "WS", "WSgust"]
  /** The key sensor columns that are median-imputed. */
  const KeyCols: seq<string> := ZCols + ["Tamb", "RH"]

  /** Below this value on all three irradiance sensors a row is night-time. */
  const DawnDuskThreshold: real := 1.0

  const PrecipitationColumn: string := "Precipitation"
  const HasRainColumn: string := "HasRain"
  const HourColumn: string := "Hour"
  const MonthColumn: string := "Month"

  // ===================== step 1: drop empty columns =====================

  /** The null fraction of column c reaches thresh. On a table without rows
      the fraction is NaN, which is never >= thresh. */
  predicate DropsColumn(t: Table, c: string, thresh: real)
  {
    |t.rows| > 0 && MissingCount(Column(t.rows, c)) as real / |t.rows| as real >= thresh
  }

  function EmptyColumns(t: Table, thresh: real): set<string>
  {
    set c | c in t.columns && DropsColumn(t, c, thresh)
  }

  function WithoutCells(rows: seq<Row>, drop: set<string>): (r: seq<Row>)
    ensures |r| == |rows|
    ensures forall i :: 0 <= i < |rows| ==> r[i] == Row(rows[i].stamp, rows[i].cells - drop)
  {
    seq(|rows|, i requires 0 <= i < |rows| => Row(rows[i].stamp, rows[i].cells - drop))
  }

  /** df.drop(columns=<columns whose null fraction is >= thresh>). */
  function DropEmptyColumns(t: Table, thresh: real): (r: Table)
    ensures |r.rows| == |t.rows|
    ensures forall c :: c in r.columns <==> c in t.columns && !DropsColumn(t, c, thresh)
    ensures forall i :: 0 <= i < |t.rows| ==> r.rows[i].stamp == t.rows[i].stamp
    ensures forall c :: c in r.columns ==> Column(r.rows, c) == Column(t.rows, c)
  {
    var drop := EmptyColumns(t, thresh);
    var r := Table(KeepColumns(t.columns, drop), WithoutCells(t.rows, drop));
    assert forall c :: c in r.columns ==> Column(r.rows, c) == Column(t.rows, c) by {
      forall c | c in r.columns ensures Column(r.rows, c) == Column(t.rows, c) {
        assert c !in drop;
      }
    }
    r
  }

  lemma RatioAtLeastOne(m: real, n: real)
    requires n > 0.0 && m >= 0.0
    ensures m / n >= 1.0 <==> m >= n
  {
    assert (m / n - 1.0) * n == m - n;
  }

  /** With the pipeline's threshold 1.0 a column is dropped exactly when the
      table has rows and every one of them misses the value. */
  lemma DropsExactlyAllMissing(t: Table, c: string)
    ensures DropsColumn(t, c, 1.0) <==> |t.rows| > 0 && forall i :: 0 <= i < |t.rows| ==> Get(t.rows[i], c).None?
  {
    var col := Column(t.rows, c);
    PresentAndMissingPartition(col);
    PresentExtremes(col);
    if |t.rows| > 0 {
      RatioAtLeastOne(MissingCount(col) as real, |t.rows| as real);
    }
  }

  /** Dropping with threshold 1.0 keeps the surviving columns in their order
      and leaves every row as it was: a dropped column had no cell anywhere. */
  lemma DropEmptyColumnsKeepsRows(t: Table)
    ensures IsSubsequence(DropEmptyColumns(t, 1.0).columns, t.columns)
    ensures DropEmptyColumns(t, 1.0).rows == t.rows
  {
    var drop := EmptyColumns(t, 1.0);
    KeepColumnsOrder(t.columns, drop);
    forall i | 0 <= i < |t.rows| ensures t.rows[i].cells - drop == t.rows[i].cells {
      forall c | c in drop ensures c !in t.rows[i].cells {
        DropsExactlyAllMissing(t, c);
        assert Get(t.rows[i], c).None?;
      }
    }
  }

  /** A second drop removes nothing: the row count and the surviving
      columns' null fractions are what they were. */
  lemma DropEmptyColumnsIdempotent(t: Table, thresh: real)
    ensures DropEmptyColumns(DropEmptyColumns(t, thresh), thresh) == DropEmptyColumns(t, thresh)
  {
    var r := DropEmptyColumns(t, thresh);
    assert EmptyColumns(r, thresh) == {} by {
      forall c | c in r.columns ensures !DropsColumn(r, c, thresh) {
        assert Column(r.rows, c) == Column(t.rows, c);
      }
    }
    KeepColumnsNothing(r.columns, {});
    assert WithoutCells(r.rows, {}) == r.rows by {
      forall i | 0 <= i < |r.rows| ensures r.rows[i].cells - {} == r.rows[i].cells {
      }
    }
  }

  // ================ step 2: clamp negative night irradiance ================

  /** The cell holds a value below `bound`; a missing cell compares False. */
  predicate Below(r: Row, c: string, bound: real)
  {
    c in r.cells && r.cells[c] < bound
  }

  /** All three irradiance readings are present and below the threshold. */
  predicate IsNight(r: Row, threshold: real)
  {
    Below(r, GHI, threshold) && Below(r, DNI, threshold) && Below(r, DHI, threshold)
  }

  predicate HasNegativeIrradiance(r: Row)
  {
    Below(r, GHI, 0.0) || Below(r, DNI, 0.0) || Below(r, DHI, 0.0)
  }

  /** Series.clip(lower=0). */
  function ClipAtZero(v: real): (r: real)
    ensures r >= 0.0 && (v >= 0.0 ==> r == v)
  {
    if v < 0.0 then 0.0 else v
  }

  /** One row of df.loc[night & neg, irr_cols] = ....clip(lower=0). */
  function ClampRow(r: Row, threshold: real): (s: Row)
    ensures s.stamp == r.stamp
    ensures forall c :: c !in IrradianceCols ==> Get(s, c) == Get(r, c)
    ensures s != r ==> IsNight(r, threshold) && HasNegativeIrradiance(r)
    ensures IsNight(r, threshold) && HasNegativeIrradiance(r) ==>
              forall c :: c in IrradianceCols ==> c in r.cells && Get(s, c) == Some(ClipAtZero(r.cells[c]))
  {
    if IsNight(r, threshold) && HasNegativeIrradiance(r) then
      Row(r.stamp, r.cells[GHI := ClipAtZero(r.cells[GHI])]
                          [DNI := ClipAtZero(r.cells[DNI])]
                          [DHI := ClipAtZero(r.cells[DHI])])
    else
      r
  }

  function ClampRows(rows: seq<Row>, threshold: real): (r: seq<Row>)
    ensures |r| == |rows|
    ensures forall i :: 0 <= i < |rows| ==> r[i] == ClampRow(rows[i], threshold)
  {
    seq(|rows|, i requires 0 <= i < |rows| => ClampRow(rows[i], threshold))
  }

  /** _zero_night_negatives as a value: a KeyError when an irradiance column
      is absent, otherwise the clamped table. */
  function NightClamped(t: Table, threshold: real): (r: Result<Table>)
    ensures r.Failure? <==> exists c :: c in IrradianceCols && c !in t.columns
    ensures r.Failure? ==> r.error.KeyError? && r.error.column in IrradianceCols && r.error.column !in t.columns
    ensures r.Success? ==> r.value.columns == t.columns && |r.value.rows| == |t.rows|
  {
    match FirstAbsent(IrradianceCols, t.columns)
    case Some(c) => Failure(KeyError(c))
    case None => Success(Table(t.columns, ClampRows(t.rows, threshold)))
  }

  /** After the clamp no night row carries a negative irradiance value. */
  lemma NoNegativeNightIrradiance(t: Table, threshold: real)
    requires NightClamped(t, threshold).Success?
    ensures forall s :: s in NightClamped(t, threshold).value.rows ==>
              IsNight(s, threshold) ==> !HasNegativeIrradiance(s)
  {
    var out := NightClamped(t, threshold).value.rows;
    forall s | s in out && IsNight(s, threshold)
      ensures !HasNegativeIrradiance(s)
    {
      var i :| 0 <= i < |out| && out[i] == s;
      var r := t.rows[i];
      if IsNight(r, threshold) && HasNegativeIrradiance(r) {
        assert Get(s, GHI).value >= 0.0 && Get(s, DNI).value >= 0.0 && Get(s, DHI).value >= 0.0;
      }
    }
  }

  // ======================= step 3: drop outlier rows =======================

  /** scipy's |zscore(x)| > zThresh for a present value x of a column whose
      non-missing values are `values` (nan_policy='omit', ddof = 0). With no
      spread the z-score is 0/0 = NaN and never exceeds. The square root is
      avoided: for zThresh >= 0 the squares are compared, and a negative
      threshold is exceeded by every finite z-score. */
  predicate ExceedsZ(x: real, values: seq<real>, zThresh: real)
  {
    && |values| > 0
    && Variance(values) > 0.0
    && (zThresh < 0.0 || Square(x - Mean(values)) > Square(zThresh) * Variance(values))
  }

  /** Some monitored column's z-score, over the whole input `rows`, exceeds
      the threshold in row r; a missing cell has a NaN z-score. */
  predicate IsOutlier(r: Row, rows: seq<Row>, zcols: seq<string>, zThresh: real)
  {
    exists k :: 0 <= k < |zcols| && zcols[k] in r.cells &&
      ExceedsZ(r.cells[zcols[k]], ColumnValues(rows, zcols[k]), zThresh)
  }

  /** df.loc[~mask] over a suffix `rows` of the screened table `all`. */
  function KeepInliers(rows: seq<Row>, all: seq<Row>, zcols: seq<string>, zThresh: real): seq<Row>
  {
    if rows == [] then []
    else (if IsOutlier(rows[0], all, zcols, zThresh) then [] else [rows[0]])
         + KeepInliers(rows[1..], all, zcols, zThresh)
  }

  /** mask.sum() over a suffix `rows` of the screened table `all`. */
  function CountOutliers(rows: seq<Row>, all: seq<Row>, zcols: seq<string>, zThresh: real): nat
  {
    if rows == [] then 0
    else (if IsOutlier(rows[0], all, zcols, zThresh) then 1 else 0)
         + CountOutliers(rows[1..], all, zcols, zThresh)
  }

  /** _clip_outliers: a KeyError when a monitored column is absent, otherwise
      the surviving rows and the number removed. */
  function ClipOutliers(t: Table, zcols: seq<string>, zThresh: real): (r: Result<(Table, nat)>)
    ensures r.Failure? <==> exists c :: c in zcols && c !in t.columns
    ensures r.Failure? ==> r.error.KeyError? && r.error.column in zcols && r.error.column !in t.columns
    ensures r.Success? ==> r.value.0.columns == t.columns
  {
    match FirstAbsent(zcols, t.columns)
    case Some(c) => Failure(KeyError(c))
    case None => Success((Table(t.columns, KeepInliers(t.rows, t.rows, zcols, zThresh)),
                          CountOutliers(t.rows, t.rows, zcols, zThresh)))
  }

  lemma {:induction false} KeepInliersSpec(rows: seq<Row>, all: seq<Row>, zcols: seq<string>, zThresh: real)
    ensures IsSubsequence(KeepInliers(rows, all, zcols, zThresh), rows)
    ensures CountOutliers(rows, all, zcols, zThresh) + |KeepInliers(rows, all, zcols, zThresh)| == |rows|
    ensures forall r :: r in KeepInliers(rows, all, zcols, zThresh) <==> r in rows && !IsOutlier(r, all, zcols, zThresh)
  {
    if rows != [] {
      KeepInliersSpec(rows[1..], all, zcols, zThresh);
      var tail := KeepInliers(rows[1..], all, zcols, zThresh);
      var kept := KeepInliers(rows, all, zcols, zThresh);
      assert rows == [rows[0]] + rows[1..];
      if IsOutlier(rows[0], all, zcols, zThresh) {
        assert kept == tail;
        if kept != [] {
          SubsequenceSkip(kept, rows);
        }
      } else {
        assert kept == [rows[0]] + tail;
        assert kept[0] == rows[0] && kept[1..] == tail;
      }
    }
  }

  /** The surviving rows are the input's non-outlier rows, unchanged and in
      their order, and the count makes up the difference in length. */
  lemma ClipOutliersSpec(t: Table, zcols: seq<string>, zThresh: real)
    requires ClipOutliers(t, zcols, zThresh).Success?
    ensures var (out, removed) := ClipOutliers(t, zcols, zThresh).value;
            && IsSubsequence(out.rows, t.rows)
            && removed + |out.rows| == |t.rows|
            && (forall r :: r in out.rows <==> r in t.rows && !IsOutlier(r, t.rows, zcols, zThresh))
            && removed == |set i | 0 <= i < |t.rows| && IsOutlier(t.rows[i], t.rows, zcols, zThresh)|
  {
    KeepInliersSpec(t.rows, t.rows, zcols, zThresh);
    OutlierCardinality(t.rows, zcols, zThresh);
  }

  /** The count is the number of row indices whose row is an outlier. */
  lemma OutlierCardinality(rows: seq<Row>, zcols: seq<string>, zThresh: real)
    ensures CountOutliers(rows, rows, zcols, zThresh) == |set i | 0 <= i < |rows| && IsOutlier(rows[i], rows, zcols, zThresh)|
  {
    var idx := OutlierIndices(rows, rows, zcols, zThresh);
    IncreasingCardinality(idx);
    assert (set i | i in idx) == (set i | 0 <= i < |rows| && IsOutlier(rows[i], rows, zcols, zThresh));
  }

  /** The outlier rows of a suffix, by index: an increasing list of exactly
      the indices whose row is an outlier, as long as the count. */
  lemma {:induction false} OutlierIndices(rows: seq<Row>, all: seq<Row>, zcols: seq<string>, zThresh: real) returns (idx: seq<int>)
    ensures |idx| == CountOutliers(rows, all, zcols, zThresh)
    ensures forall j1, j2 :: 0 <= j1 < j2 < |idx| ==> idx[j1] < idx[j2]
    ensures forall i :: i in idx <==> 0 <= i < |rows| && IsOutlier(rows[i], all, zcols, zThresh)
  {
    if rows == [] {
      idx := [];
    } else {
      var rest := OutlierIndices(rows[1..], all, zcols, zThresh);
      var shifted := seq(|rest|, j requires 0 <= j < |rest| => rest[j] + 1);
      forall i ensures i in shifted <==> 0 < i < |rows| && IsOutlier(rows[i], all, zcols, zThresh) {
        if i in shifted {
          var j :| 0 <= j < |shifted| && shifted[j] == i;
          assert rest[j] in rest;
          assert rows[1..][i - 1] == rows[i];
        }
        if 0 < i < |rows| && IsOutlier(rows[i], all, zcols, zThresh) {
          assert rows[1..][i - 1] == rows[i];
          var j :| 0 <= j < |rest| && rest[j] == i - 1;
          assert shifted[j] == i;
        }
      }
      forall j | 0 <= j < |shifted| ensures shifted[j] > 0 {
        assert rest[j] in rest;
      }
      var head := if IsOutlier(rows[0], all, zcols, zThresh) then [0] else [];
      idx := head + shifted;
    }
  }

  function Abs(x: real): real { if x < 0.0 then -x else x }

  lemma SquareAbs(x: real)
    ensures Square(Abs(x)) == Square(x)
  {
  }

  /** For non-negative u and v, u > v exactly when u * u > v * v. */
  lemma SquareMonotone(u: real, v: real)
    requires u >= 0.0 && v >= 0.0
    ensures u > v <==> Square(u) > Square(v)
  {
    var d, e := u - v, u + v;
    assert Square(u) - Square(v) == d * e;
    if u > v {
      assert d > 0.0 && e > 0.0;
      assert d * e > 0.0;
    } else {
      assert -d >= 0.0 && e >= 0.0;
      assert (-d) * e >= 0.0;
    }
  }

  lemma DivideCompare(a: real, sigma: real, t: real)
    requires sigma > 0.0
    ensures a / sigma > t <==> a > t * sigma
  {
    assert (a / sigma - t) * sigma == a - t * sigma;
  }

  /** The square-free test is scipy's: whenever sigma is the population
      standard deviation of a column with spread, |x - mean| / sigma > zThresh
      holds exactly when ExceedsZ does. */
  lemma ExceedsZIsZScoreTest(x: real, values: seq<real>, zThresh: real, sigma: real)
    requires |values| > 0 && sigma > 0.0 && Square(sigma) == Variance(values)
    ensures ExceedsZ(x, values, zThresh) <==> Abs(x - Mean(values)) / sigma > zThresh
  {
    var a := Abs(x - Mean(values));
    SquarePositive(sigma);
    DivideCompare(a, sigma, zThresh);
    if zThresh >= 0.0 {
      assert zThresh * sigma >= 0.0;
      SquareMonotone(a, zThresh * sigma);
      SquareAbs(x - Mean(values));
      assert Square(zThresh * sigma) == Square(zThresh) * Square(sigma);
    } else {
      assert zThresh * sigma < 0.0;
    }
  }

  // ==================== step 4: median-fill key columns ====================

  /** Series.fillna(Series.median()) on one column: present values stay,
      missing ones take the median of the present ones; a column without
      any present value has a NaN median and stays as it is. */
  function FilledColumn(col: seq<Option<real>>): (r: seq<Option<real>>)
    ensures |r| == |col|
    ensures forall i :: 0 <= i < |col| && col[i].Some? ==> r[i] == col[i]
    ensures |Present(col)| > 0 ==> forall i :: 0 <= i < |col| && col[i].None? ==> r[i] == Some(Median(Present(col)))
    ensures |Present(col)| > 0 ==> MissingCount(r) == 0
    ensures |Present(col)| == 0 ==> r == col
  {
    var values := Present(col);
    if |values| == 0 then col
    else
      var r := seq(|col|, i requires 0 <= i < |col| => if col[i].Some? then col[i] else Some(Median(values)));
      PresentExtremes(r);
      r
  }

  lemma FilledColumnIdempotent(col: seq<Option<real>>)
    ensures FilledColumn(FilledColumn(col)) == FilledColumn(col)
  {
    var f := FilledColumn(col);
    if |Present(col)| > 0 {
      PresentExtremes(f);
      PresentAndMissingPartition(f);
      PresentExtremes(col);
      assert |f| > 0;
    }
  }

  /** df[c] = df[c].fillna(v), row by row. */
  function FillRows(rows: seq<Row>, c: string, v: real): (r: seq<Row>)
    ensures |r| == |rows|
    ensures forall i :: 0 <= i < |rows| ==> r[i].stamp == rows[i].stamp
    ensures forall i :: 0 <= i < |rows| ==> Get(r[i], c) == Some(if c in rows[i].cells then rows[i].cells[c] else v)
    ensures forall i, d :: 0 <= i < |rows| && d != c ==> Get(r[i], d) == Get(rows[i], d)
  {
    seq(|rows|, i requires 0 <= i < |rows| =>
      if c in rows[i].cells then rows[i] else Row(rows[i].stamp, rows[i].cells[c := v]))
  }

  /** One iteration of the loop in _impute_median: column c median-filled,
      every other column left alone. */
  function FillColumn(t: Table, c: string): (r: Table)
    ensures r.columns == t.columns && |r.rows| == |t.rows|
    ensures forall i :: 0 <= i < |t.rows| ==> r.rows[i].stamp == t.rows[i].stamp
    ensures Column(r.rows, c) == FilledColumn(Column(t.rows, c))
    ensures forall d :: d != c ==> Column(r.rows, d) == Column(t.rows, d)
  {
    var values := ColumnValues(t.rows, c);
    if |values| == 0 then t
    else Table(t.columns, FillRows(t.rows, c, Median(values)))
  }

  /** The loop of _impute_median run over all of cols, in order. */
  function ImputeAll(t: Table, cols: seq<string>): Table
  {
    if cols == [] then t else FillColumn(ImputeAll(t, cols[..|cols| - 1]), cols[|cols| - 1])
  }

  lemma ImputeAllStep(t: Table, cols: seq<string>, i: int)
    requires 0 <= i < |cols|
    ensures ImputeAll(t, cols[..i + 1]) == FillColumn(ImputeAll(t, cols[..i]), cols[i])
  {
    assert cols[..i + 1][..i] == cols[..i];
  }

  /** _impute_median: a KeyError for the first absent column, otherwise every
      listed column median-filled. */
  function Imputed(t: Table, cols: seq<string>): (r: Result<Table>)
    ensures r.Failure? <==> exists c :: c in cols && c !in t.columns
    ensures r.Failure? ==> r.error == KeyError(cols[AbsentIndex(cols, t.columns)])
  {
    var k := AbsentIndex(cols, t.columns);
    if k < |cols| then Failure(KeyError(cols[k])) else Success(ImputeAll(t, cols))
  }

  /** Each listed column ends up filled with the median of its own present
      values before imputation (filling one column does not disturb
      another, and filling twice is filling once); the rest is untouched. */
  lemma {:induction false} ImputeAllSpec(t: Table, cols: seq<string>)
    ensures ImputeAll(t, cols).columns == t.columns
    ensures |ImputeAll(t, cols).rows| == |t.rows|
    ensures forall i :: 0 <= i < |t.rows| ==> ImputeAll(t, cols).rows[i].stamp == t.rows[i].stamp
    ensures forall d :: Column(ImputeAll(t, cols).rows, d) ==
              if d in cols then FilledColumn(Column(t.rows, d)) else Column(t.rows, d)
  {
    if cols != [] {
      var init, c := cols[..|cols| - 1], cols[|cols| - 1];
      assert cols == init + [c];
      ImputeAllSpec(t, init);
      var prev := ImputeAll(t, init);
      forall d ensures Column(ImputeAll(t, cols).rows, d) ==
                 if d in cols then FilledColumn(Column(t.rows, d)) else Column(t.rows, d)
      {
        if d == c && d in init {
          FilledColumnIdempotent(Column(t.rows, d));
        }
      }
    }
  }

  /** The fill leaves present values as they were and, in a column with at
      least one present value, leaves no value missing; a missing value takes
      that column's median. */
  lemma ImputedSpec(t: Table, cols: seq<string>, c: string, i: int)
    requires Imputed(t, cols).Success? && c in cols && 0 <= i < |t.rows|
    ensures |Imputed(t, cols).value.rows| == |t.rows|
    ensures c in t.rows[i].cells ==> Get(Imputed(t, cols).value.rows[i], c) == Get(t.rows[i], c)
    ensures |ColumnValues(t.rows, c)| > 0 ==>
              Get(Imputed(t, cols).value.rows[i], c) ==
                Some(if c in t.rows[i].cells then t.rows[i].cells[c] else Median(ColumnValues(t.rows, c)))
    ensures |ColumnValues(t.rows, c)| == 0 ==> Get(Imputed(t, cols).value.rows[i], c).None?
  {
    ImputeAllSpec(t, cols);
    var before := Column(t.rows, c);
    PresentExtremes(before);
    assert Column(Imputed(t, cols).value.rows, c)[i] == FilledColumn(before)[i];
  }

  // ===================== step 5: derived feature columns =====================

  /** df[name] = values: replaces the column where it exists, appends it
      otherwise. */
  function SetColumn(t: Table, name: string, values: seq<real>): (r: Table)
    requires |values| == |t.rows|
    ensures t.columns <= r.columns
    ensures forall c :: c in r.columns <==> c in t.columns || c == name
    ensures |r.columns| == |t.columns| + (if name in t.columns then 0 else 1)
    ensures |r.rows| == |t.rows|
    ensures forall i, c :: 0 <= i < |t.rows| ==>
              r.rows[i].stamp == t.rows[i].stamp &&
              Get(r.rows[i], c) == if c == name then Some(values[i]) else Get(t.rows[i], c)
  {
    Table(if name in t.columns then t.columns else t.columns + [name],
          seq(|t.rows|, i requires 0 <= i < |t.rows| => Row(t.rows[i].stamp, t.rows[i].cells[name := values[i]])))
  }

  /** (Precipitation > 0).astype(int) for one row; NaN > 0 is False. */
  function RainFlag(r: Row): real
  {
    if PrecipitationColumn in r.cells && r.cells[PrecipitationColumn] > 0.0 then 1.0 else 0.0
  }

  function RainFlags(rows: seq<Row>): (r: seq<real>)
    ensures |r| == |rows|
    ensures forall i :: 0 <= i < |rows| ==> r[i] == RainFlag(rows[i])
  {
    seq(|rows|, i requires 0 <= i < |rows| => RainFlag(rows[i]))
  }

  /** Timestamp.dt.hour */
  function Hours(rows: seq<Row>): (r: seq<real>)
    ensures |r| == |rows|
    ensures forall i :: 0 <= i < |rows| ==> r[i] == rows[i].stamp.hour as real
  {
    seq(|rows|, i requires 0 <= i < |rows| => rows[i].stamp.hour as real)
  }

  /** Timestamp.dt.month */
  function Months(rows: seq<Row>): (r: seq<real>)
    ensures |r| == |rows|
    ensures forall i :: 0 <= i < |rows| ==> r[i] == rows[i].stamp.month as real
  {
    seq(|rows|, i requires 0 <= i < |rows| => rows[i].stamp.month as real)
  }

  predicate IsFeatureColumn(c: string)
  {
    c == HasRainColumn || c == HourColumn || c == MonthColumn
  }

  /** _engineer_features: a KeyError without a Precipitation column,
      otherwise HasRain, Hour and Month set on every row. */
  function WithFeatures(t: Table): (r: Result<Table>)
    ensures r.Failure? <==> PrecipitationColumn !in t.columns
    ensures r.Failure? ==> r.error == KeyError(PrecipitationColumn)
    ensures r.Success? ==> |r.value.rows| == |t.rows|
  {
    if PrecipitationColumn !in t.columns then Failure(KeyError(PrecipitationColumn))
    else
      var withRain := SetColumn(t, HasRainColumn, RainFlags(t.rows));
      var withHour := SetColumn(withRain, HourColumn, Hours(t.rows));
      Success(SetColumn(withHour, MonthColumn, Months(t.rows)))
  }

  /** The old columns stay, in order, and exactly the three derived columns
      are added. */
  lemma WithFeaturesColumns(t: Table)
    requires WithFeatures(t).Success?
    ensures t.columns <= WithFeatures(t).value.columns
    ensures forall c :: c in WithFeatures(t).value.columns <==> c in t.columns || IsFeatureColumn(c)
  {
  }

  /** Row i of the featured table: its stamp and every cell the features do
      not write are row i's own. */
  lemma WithFeaturesKeepsCell(t: Table, i: int, c: string)
    requires WithFeatures(t).Success? && 0 <= i < |t.rows| && !IsFeatureColumn(c)
    ensures WithFeatures(t).value.rows[i].stamp == t.rows[i].stamp
    ensures Get(WithFeatures(t).value.rows[i], c) == Get(t.rows[i], c)
  {
  }

  /** HasRain is 1 exactly when Precipitation is present and positive and 0
      otherwise; Hour (0..23) and Month (1..12) come from the row's
      timestamp; every other cell is as it was. */
  lemma WithFeaturesSpec(t: Table, i: int)
    requires WithFeatures(t).Success? && 0 <= i < |t.rows|
    ensures var (r, s) := (WithFeatures(t).value.rows[i], t.rows[i]);
            && r.stamp == s.stamp
            && (Get(r, HasRainColumn) == Some(1.0) <==> PrecipitationColumn in s.cells && s.cells[PrecipitationColumn] > 0.0)
            && (Get(r, HasRainColumn) == Some(1.0) || Get(r, HasRainColumn) == Some(0.0))
            && Get(r, HourColumn).Some? && 0.0 <= Get(r, HourColumn).value <= 23.0
            && Get(r, HourColumn).value == s.stamp.hour as real
            && Get(r, MonthColumn).Some? && 1.0 <= Get(r, MonthColumn).value <= 12.0
            && Get(r, MonthColumn).value == s.stamp.month as real
            && forall c :: !IsFeatureColumn(c) ==> Get(r, c) == Get(s, c)
  {
    forall c | !IsFeatureColumn(c)
      ensures Get(WithFeatures(t).value.rows[i], c) == Get(t.rows[i], c)
    {
      WithFeaturesKeepsCell(t, i, c);
    }
  }

  /** Deriving the features a second time changes nothing. */
  lemma WithFeaturesIdempotent(t: Table)
    requires WithFeatures(t).Success?
    ensures WithFeatures(WithFeatures(t).value) == WithFeatures(t)
  {
    var r := WithFeatures(t).value;
    WithFeaturesColumns(t);
    var again := WithFeatures(r).value;
    assert again.columns == r.columns;
    forall i | 0 <= i < |r.rows| ensures again.rows[i] == r.rows[i] {
      FeaturesRowIdempotent(t, i);
    }
    assert again.rows == r.rows;
  }

  lemma FeaturesRowIdempotent(t: Table, i: int)
    requires WithFeatures(t).Success? && 0 <= i < |t.rows|
    ensures WithFeatures(WithFeatures(t).value).Success?
    ensures WithFeatures(WithFeatures(t).value).value.rows[i] == WithFeatures(t).value.rows[i]
  {
    var r := WithFeatures(t).value;
    WithFeaturesColumns(t);
    var again := WithFeatures(r).value;
    WithFeaturesKeepsCell(t, i, PrecipitationColumn);
    var row := r.rows[i];
    var m := row.cells;
    assert m == t.rows[i].cells[HasRainColumn := RainFlag(t.rows[i])]
                  [HourColumn := row.stamp.hour as real][MonthColumn := row.stamp.month as real];
    assert RainFlag(row) == RainFlag(t.rows[i]);
    assert again.rows[i] == Row(row.stamp, m[HasRainColumn := m[HasRainColumn]]
                                 [HourColumn := m[HourColumn]][MonthColumn := m[MonthColumn]]);
    SetSameValue(m, HasRainColumn);
    SetSameValue(m, HourColumn);
    SetSameValue(m, MonthColumn);
  }

  lemma SetSameValue(m: map<string, real>, k: string)
    requires k in m
    ensures m[k := m[k]] == m
  {
  }

  // ============================ the pipeline ============================

  /** The mandatory steps and the outlier screen: empty columns dropped
      (threshold 1.0), night negatives clamped (threshold 1.0), outlier rows
      removed over the monitored columns. */
  function Screened(raw: Table, zThresh: real): Result<(Table, nat)>
  {
    var clamped :- NightClamped(DropEmptyColumns(raw, 1.0), DawnDuskThreshold);
    ClipOutliers(clamped, ZCols, zThresh)
  }

  /** clean_solar_df on a copy of raw: the screen, then the optional median
      fill of the key columns, then the optional derived columns. */
  function CleanSolar(raw: Table, zThresh: real, impute: bool, addFeatures: bool): Result<Table>
  {
    var screened :- Screened(raw, zThresh);
    var imputed :- if impute then Imputed(screened.0, KeyCols) else Success(screened.0);
    if addFeatures then WithFeatures(imputed) else Success(imputed)
  }

  function Stamps(rows: seq<Row>): (r: seq<Timestamp>)
    ensures |r| == |rows|
    ensures forall i :: 0 <= i < |rows| ==> r[i] == rows[i].stamp
  {
    seq(|rows|, i requires 0 <= i < |rows| => rows[i].stamp)
  }

  lemma {:induction false} SubsequenceStamps(a: seq<Row>, b: seq<Row>)
    requires IsSubsequence(a, b)
    ensures IsSubsequence(Stamps(a), Stamps(b))
    decreases |b|
  {
    if a != [] {
      assert Stamps(a)[1..] == Stamps(a[1..]);
      assert Stamps(b)[1..] == Stamps(b[1..]);
      if a[0] == b[0] && IsSubsequence(a[1..], b[1..]) {
        SubsequenceStamps(a[1..], b[1..]);
      } else {
        SubsequenceStamps(a, b[1..]);
      }
    }
  }

  /** The table the pipeline hands on after its optional steps keeps the
      screened rows' count and timestamps, and the cells of every column the
      features do not write. */
  lemma AfterScreenSpec(screened: Table, impute: bool, addFeatures: bool)
    requires (if impute then Imputed(screened, KeyCols) else Success(screened)).Success?
    requires addFeatures ==> WithFeatures((if impute then Imputed(screened, KeyCols) else Success(screened)).value).Success?
    ensures var imputed := (if impute then Imputed(screened, KeyCols) else Success(screened)).value;
            var out := if addFeatures then WithFeatures(imputed).value else imputed;
            && |out.rows| == |imputed.rows| == |screened.rows|
            && Stamps(out.rows) == Stamps(screened.rows)
            && (forall c :: !IsFeatureColumn(c) ==> Column(out.rows, c) == Column(imputed.rows, c))
            && (forall c :: c in out.columns <==> c in screened.columns || (addFeatures && IsFeatureColumn(c)))
  {
    var imputed := (if impute then Imputed(screened, KeyCols) else Success(screened)).value;
    ImputeAllSpec(screened, KeyCols);
    assert Stamps(imputed.rows) == Stamps(screened.rows);
    if addFeatures {
      WithFeaturesColumns(imputed);
      FeaturesKeepStamps(imputed);
      forall c | !IsFeatureColumn(c)
        ensures Column(WithFeatures(imputed).value.rows, c) == Column(imputed.rows, c)
      {
        FeaturesKeepColumn(imputed, c);
      }
    }
  }

  lemma FeaturesKeepStamps(t: Table)
    requires WithFeatures(t).Success?
    ensures Stamps(WithFeatures(t).value.rows) == Stamps(t.rows)
  {
    var out := WithFeatures(t).value.rows;
    forall i | 0 <= i < |t.rows| ensures Stamps(out)[i] == Stamps(t.rows)[i] {
      WithFeaturesKeepsCell(t, i, PrecipitationColumn);
    }
  }

  lemma FeaturesKeepColumn(t: Table, c: string)
    requires WithFeatures(t).Success? && !IsFeatureColumn(c)
    ensures Column(WithFeatures(t).value.rows, c) == Column(t.rows, c)
  {
    var out := WithFeatures(t).value.rows;
    forall i | 0 <= i < |t.rows| ensures Column(out, c)[i] == Column(t.rows, c)[i] {
      WithFeaturesKeepsCell(t, i, c);
    }
  }

  /** Row removal is the pipeline's only change of length: the output has
      the input's rows less the outliers, with their timestamps in order. */
  lemma CleanSolarRows(raw: Table, zThresh: real, impute: bool, addFeatures: bool)
    requires CleanSolar(raw, zThresh, impute, addFeatures).Success?
    ensures Screened(raw, zThresh).Success?
    ensures |CleanSolar(raw, zThresh, impute, addFeatures).value.rows| + Screened(raw, zThresh).value.1 == |raw.rows|
    ensures IsSubsequence(Stamps(CleanSolar(raw, zThresh, impute, addFeatures).value.rows), Stamps(raw.rows))
  {
    var clamped := NightClamped(DropEmptyColumns(raw, 1.0), DawnDuskThreshold).value;
    var screened := Screened(raw, zThresh).value.0;
    KeepInliersSpec(clamped.rows, clamped.rows, ZCols, zThresh);
    AfterScreenSpec(screened, impute, addFeatures);
    SubsequenceStamps(screened.rows, clamped.rows);
    assert Stamps(clamped.rows) == Stamps(raw.rows);
  }

  lemma KeyColumnsAreNotFeatures(c: string)
    requires c in KeyCols
    ensures !IsFeatureColumn(c)
  {
  }

  lemma IrradianceColumnsAreNotFeatures()
    ensures !IsFeatureColumn(GHI) && !IsFeatureColumn(DNI) && !IsFeatureColumn(DHI)
  {
  }

  /** The median fill happens after the outlier screen: each key column of
      the result is that column of the screened table, median-filled. */
  lemma CleanSolarImputesScreenedMedians(raw: Table, zThresh: real, addFeatures: bool)
    requires CleanSolar(raw, zThresh, true, addFeatures).Success?
    ensures Screened(raw, zThresh).Success?
    ensures var screened := Screened(raw, zThresh).value.0;
            forall c :: c in KeyCols ==>
              Column(CleanSolar(raw, zThresh, true, addFeatures).value.rows, c) == FilledColumn(Column(screened.rows, c))
  {
    var screened := Screened(raw, zThresh).value.0;
    var imputed := Imputed(screened, KeyCols).value;
    var out := CleanSolar(raw, zThresh, true, addFeatures).value;
    assert out == if addFeatures then WithFeatures(imputed).value else imputed;
    AfterScreenSpec(screened, true, addFeatures);
    ImputeAllSpec(screened, KeyCols);
    forall c | c in KeyCols ensures Column(out.rows, c) == FilledColumn(Column(screened.rows, c)) {
      KeyColumnsAreNotFeatures(c);
    }
  }

  /** The output's columns are the raw columns that are not entirely
      missing, plus the derived ones when requested. */
  lemma CleanSolarColumns(raw: Table, zThresh: real, impute: bool, addFeatures: bool, c: string)
    requires CleanSolar(raw, zThresh, impute, addFeatures).Success?
    ensures c in CleanSolar(raw, zThresh, impute, addFeatures).value.columns <==>
              (c in raw.columns && !DropsColumn(raw, c, 1.0)) || (addFeatures && IsFeatureColumn(c))
  {
    var screened := Screened(raw, zThresh).value.0;
    AfterScreenSpec(screened, impute, addFeatures);
  }

  /** Deriving the features leaves the irradiance cells, so it keeps a
      table free of negative night irradiance. */
  lemma WithFeaturesKeepsNightFix(t: Table, threshold: real)
    requires WithFeatures(t).Success?
    requires forall s :: s in t.rows ==> IsNight(s, threshold) ==> !HasNegativeIrradiance(s)
    ensures forall s :: s in WithFeatures(t).value.rows ==> IsNight(s, threshold) ==> !HasNegativeIrradiance(s)
  {
    var out := WithFeatures(t).value.rows;
    IrradianceColumnsAreNotFeatures();
    forall s | s in out && IsNight(s, threshold)
      ensures !HasNegativeIrradiance(s)
    {
      var i :| 0 <= i < |out| && out[i] == s;
      WithFeaturesKeepsCell(t, i, GHI);
      WithFeaturesKeepsCell(t, i, DNI);
      WithFeaturesKeepsCell(t, i, DHI);
      SameIrradiance(s, t.rows[i], threshold);
      assert t.rows[i] in t.rows;
    }
  }

  /** Rows that agree on the three irradiance cells agree on being night and
      on carrying a negative value. */
  lemma SameIrradiance(a: Row, b: Row, threshold: real)
    requires Get(a, GHI) == Get(b, GHI) && Get(a, DNI) == Get(b, DNI) && Get(a, DHI) == Get(b, DHI)
    ensures IsNight(a, threshold) == IsNight(b, threshold)
    ensures HasNegativeIrradiance(a) == HasNegativeIrradiance(b)
  {
  }

  /** Without the median fill, no night row of the cleaned table carries a
      negative irradiance value. (The fill can complete a row that was not
      night for want of a reading and so make it night, with its negative
      values left in place, so this needs impute off.) */
  lemma CleanSolarNoNegativeNight(raw: Table, zThresh: real, addFeatures: bool)
    requires CleanSolar(raw, zThresh, false, addFeatures).Success?
    ensures forall r :: r in CleanSolar(raw, zThresh, false, addFeatures).value.rows ==>
              IsNight(r, DawnDuskThreshold) ==> !HasNegativeIrradiance(r)
  {
    var dropped := DropEmptyColumns(raw, 1.0);
    var clamped := NightClamped(dropped, DawnDuskThreshold).value;
    var screened := Screened(raw, zThresh).value.0;
    var out := CleanSolar(raw, zThresh, false, addFeatures).value;
    assert out == if addFeatures then WithFeatures(screened).value else screened;
    NoNegativeNightIrradiance(dropped, DawnDuskThreshold);
    ClipOutliersSpec(clamped, ZCols, zThresh);
    if addFeatures {
      WithFeaturesKeepsNightFix(screened, DawnDuskThreshold);
    }
  }

  // ===================== the mutable frame of the pipeline =====================

  /** A pandas DataFrame that the in-place steps write into. */
  class Frame {
    var columns: seq<string>
    var rows: seq<Row>

    function Snapshot(): Table
      reads this
    {
      Table(columns, rows)
    }

    /** DataFrame.copy(): a fresh frame holding t. */
    constructor (t: Table)
      ensures Snapshot() == t
    {
      columns, rows := t.columns, t.rows;
    }

    /** df[name] = values */
    method Assign(name: string, values: seq<real>)
      requires |values| == |rows|
      modifies this
      ensures Snapshot() == SetColumn(old(Snapshot()), name, values)
    {
      var t := SetColumn(Snapshot(), name, values);
      columns, rows := t.columns, t.rows;
    }

    /** _zero_night_negatives: the masked assignment writes the clamped
        irradiance of the night rows with a negative reading into the frame;
        an absent irradiance column raises before anything is written. */
    method ZeroNightNegatives(threshold: real) returns (err: Option<Error>)
      modifies this
      ensures err == ErrorOf(NightClamped(old(Snapshot()), threshold))
      ensures Snapshot() == if err.None? then NightClamped(old(Snapshot()), threshold).value else old(Snapshot())
    {
      var k := AbsentIndex(IrradianceCols, columns);
      if k < |IrradianceCols| {
        return Some(KeyError(IrradianceCols[k]));
      }
      rows := ClampRows(rows, threshold);
      return None;
    }

    /** df[c] = df[c].fillna(df[c].median()) */
    method FillMedian(c: string)
      modifies this
      ensures Snapshot() == FillColumn(old(Snapshot()), c)
    {
      var values := ColumnValues(rows, c);
      if |values| > 0 {
        rows := FillRows(rows, c, Median(values));
      }
    }

    /** _impute_median: for each listed column in turn, df[c] is replaced by
        its median-filled self. Reading an absent column raises KeyError and
        leaves the columns before it already filled. */
    method ImputeMedian(cols: seq<string>) returns (err: Option<Error>)
      modifies this
      ensures err == ErrorOf(Imputed(old(Snapshot()), cols))
      ensures Snapshot() == ImputeAll(old(Snapshot()), cols[..AbsentIndex(cols, old(columns))])
      ensures err.None? ==> Snapshot() == Imputed(old(Snapshot()), cols).value
    {
      var i := FillUntilAbsent(cols);
      if i < |cols| {
        return Some(KeyError(cols[i]));
      }
      assert cols[..i] == cols;
      return None;
    }

    /** The loop of _impute_median: fills the listed columns in turn and
        stops at the first that is not a column, returning its index. */
    method FillUntilAbsent(cols: seq<string>) returns (i: nat)
      modifies this
      ensures i == AbsentIndex(cols, old(columns)) && columns == old(columns)
      ensures Snapshot() == ImputeAll(old(Snapshot()), cols[..i])
    {
      ghost var start := Snapshot();
      i := 0;
      while i < |cols| && cols[i] in columns
        invariant i <= AbsentIndex(cols, start.columns)
        invariant columns == start.columns
        invariant Snapshot() == ImputeAll(start, cols[..i])
      {
        ImputeAllStep(start, cols, i);
        FillMedian(cols[i]);
        i := i + 1;
      }
    }

    /** _engineer_features: HasRain, Hour and Month assigned in turn. The
        Precipitation lookup fails before anything is written. */
    method EngineerFeatures() returns (err: Option<Error>)
      modifies this
      ensures err == ErrorOf(WithFeatures(old(Snapshot())))
      ensures Snapshot() == if err.None? then WithFeatures(old(Snapshot())).value else old(Snapshot())
    {
      if PrecipitationColumn !in columns {
        return Some(KeyError(PrecipitationColumn));
      }
      var stamps := rows;
      Assign(HasRainColumn, RainFlags(rows));
      Assign(HourColumn, Hours(stamps));
      Assign(MonthColumn, Months(stamps));
      return None;
    }
  }

  /** clean_solar_df: works on a copy of raw, which it never writes, and
      returns a fresh frame holding the cleaned table or the exception one
      of the steps raised. */
  method CleanSolarDf(raw: Frame, zThresh: real, impute: bool, addFeatures: bool) returns (r: Result<Frame>)
    ensures unchanged(raw)
    ensures r.Failure? <==> CleanSolar(raw.Snapshot(), zThresh, impute, addFeatures).Failure?
    ensures r.Failure? ==> r.error == CleanSolar(raw.Snapshot(), zThresh, impute, addFeatures).error
    ensures r.Success? ==> fresh(r.value)
    ensures r.Success? ==> r.value.Snapshot() == CleanSolar(raw.Snapshot(), zThresh, impute, addFeatures).value
  {
    ghost var t := raw.Snapshot();
    var df := new Frame(DropEmptyColumns(raw.Snapshot(), 1.0));
    var err := df.ZeroNightNegatives(DawnDuskThreshold);
    if err.Some? {
      assert Screened(t, zThresh).Failure?;
      return Failure(err.value);
    }
    var clipped := ClipOutliers(df.Snapshot(), ZCols, zThresh);
    assert clipped == Screened(t, zThresh);
    if clipped.Failure? {
      return Failure(clipped.error);
    }
    df := new Frame(clipped.value.0);
    ghost var imputed: Result<Table> := Success(df.Snapshot());
    if impute {
      err := df.ImputeMedian(KeyCols);
      imputed := Imputed(clipped.value.0, KeyCols);
      if err.Some? {
        return Failure(err.value);
      }
    }
    assert imputed.Success? && df.Snapshot() == imputed.value;
    assert CleanSolar(t, zThresh, impute, addFeatures) ==
             if addFeatures then WithFeatures(imputed.value) else imputed;
    if addFeatures {
      err := df.EngineerFeatures();
      if err.Some? {
        return Failure(err.value);
      }
    }
    return Success(df);
  }
}
