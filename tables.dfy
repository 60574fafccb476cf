/** Tables as the cleaning and comparison code sees them: an ordered list of
    named value columns over a sequence of timestamped rows. A cell that is
    absent from a row's map is a missing value (NaN in pandas). */
module Tables {

  datatype Option<+T> = None | Some(value: T)

  /** The exceptions that the modelled pandas calls raise. */
  datatype Error =
    | KeyError(column: string)     // a looked-up column is absent
    | ValueError(reason: string)   // pd.concat of nothing, duplicated(subset=[])

  datatype Result<+T> = Success(value: T) | Failure(error: Error) {
    predicate IsFailure() { Failure? }
    function PropagateFailure<U>(): Result<U> requires Failure? { Failure(error) }
    function Extract(): T requires Success? { value }
  }

  /** The exception a Result carries, if any. */
  function ErrorOf<T>(r: Result<T>): Option<Error>
  {
    if r.Failure? then Some(r.error) else None
  }

  type HourOfDay = h: int | 0 <= h < 24
  type MonthOfYear = m: int | 1 <= m <= 12 witness 1

  /** A parsed Timestamp cell; only hour and month are read by the core. */
  datatype Timestamp = Timestamp(year: int, month: MonthOfYear, day: int, hour: HourOfDay, minute: int)

  const TimestampColumn: string := "Timestamp"

  datatype Row = Row(stamp: Timestamp, cells: map<string, real>)

  datatype Table = Table(columns: seq<string>, rows: seq<Row>)

  function Get(r: Row, c: string): Option<real>
  {
    if c in r.cells then Some(r.cells[c]) else None
  }

  /** One column, top to bottom, with None for a missing cell. */
  function Column(rows: seq<Row>, c: string): (col: seq<Option<real>>)
    ensures |col| == |rows|
    ensures forall i :: 0 <= i < |rows| ==> col[i] == Get(rows[i], c)
  {
    seq(|rows|, i requires 0 <= i < |rows| => Get(rows[i], c))
  }

  /** The non-missing values of a column, in order (Series.dropna()). */
  function Present(col: seq<Option<real>>): seq<real>
  {
    if col == [] then []
    else (if col[0].Some? then [col[0].value] else []) + Present(col[1..])
  }

  /** The number of missing cells (Series.isna().sum()). */
  function MissingCount(col: seq<Option<real>>): nat
  {
    if col == [] then 0
    else (if col[0].None? then 1 else 0) + MissingCount(col[1..])
  }

  function ColumnValues(rows: seq<Row>, c: string): seq<real>
  {
    Present(Column(rows, c))
  }

  lemma {:induction false} PresentAndMissingPartition(col: seq<Option<real>>)
    ensures |Present(col)| + MissingCount(col) == |col|
  {
    if col != [] {
      PresentAndMissingPartition(col[1..]);
    }
  }

  lemma {:induction false} PresentMembers(col: seq<Option<real>>)
    ensures forall x :: x in Present(col) <==> Some(x) in col
  {
    if col != [] {
      PresentMembers(col[1..]);
      assert col == [col[0]] + col[1..];
    }
  }

  /** A column with no missing cell keeps every cell; one with no present
      cell has only missing ones. */
  lemma {:induction false} PresentExtremes(col: seq<Option<real>>)
    ensures MissingCount(col) == 0 <==> forall i :: 0 <= i < |col| ==> col[i].Some?
    ensures |Present(col)| == 0 <==> forall i :: 0 <= i < |col| ==> col[i].None?
  {
    if col != [] {
      PresentExtremes(col[1..]);
      assert forall i :: 1 <= i < |col| ==> col[i] == col[1..][i - 1];
    }
  }

  /** The index of the first of `wanted` that is not a column, or |wanted|. */
  function AbsentIndex(wanted: seq<string>, columns: seq<string>): (k: nat)
    ensures k <= |wanted|
    ensures forall j :: 0 <= j < k ==> wanted[j] in columns
    ensures k < |wanted| ==> wanted[k] !in columns
  {
    if wanted == [] then 0
    else if wanted[0] !in columns then 0
    else 1 + AbsentIndex(wanted[1..], columns)
  }

  /** The first of `wanted` that is not a column; pandas raises KeyError for it. */
  function FirstAbsent(wanted: seq<string>, columns: seq<string>): (r: Option<string>)
    ensures r.None? <==> forall c :: c in wanted ==> c in columns
    ensures r.Some? ==> r.value in wanted && r.value !in columns
  {
    var k := AbsentIndex(wanted, columns);
    if k == |wanted| then None else Some(wanted[k])
  }

  /** An increasing sequence lists as many numbers as it is long. */
  lemma {:induction false} IncreasingCardinality(idx: seq<int>)
    requires forall j1, j2 :: 0 <= j1 < j2 < |idx| ==> idx[j1] < idx[j2]
    ensures |set i | i in idx| == |idx|
  {
    if idx != [] {
      var rest := idx[1..];
      IncreasingCardinality(rest);
      assert (set i | i in idx) == {idx[0]} + (set i | i in rest);
      assert idx[0] !in rest;
    }
  }

  /** `a` is `b` with some elements left out, the rest in their order. */
  ghost predicate IsSubsequence<T>(a: seq<T>, b: seq<T>)
    decreases |b|
  {
    if a == [] then true
    else if b == [] then false
    else (a[0] == b[0] && IsSubsequence(a[1..], b[1..])) || IsSubsequence(a, b[1..])
  }

  /** Keep the named columns, in their order. */
  function KeepColumns(columns: seq<string>, drop: set<string>): (r: seq<string>)
    ensures forall c :: c in r <==> c in columns && c !in drop
    ensures |r| <= |columns|
  {
    if columns == [] then []
    else (if columns[0] in drop then [] else [columns[0]]) + KeepColumns(columns[1..], drop)
  }

  lemma {:induction false} KeepColumnsOrder(columns: seq<string>, drop: set<string>)
    ensures IsSubsequence(KeepColumns(columns, drop), columns)
  {
    if columns != [] {
      KeepColumnsOrder(columns[1..], drop);
      var r := KeepColumns(columns, drop);
      if columns[0] !in drop {
        assert r[0] == columns[0] && r[1..] == KeepColumns(columns[1..], drop);
      } else {
        assert r == KeepColumns(columns[1..], drop);
        if r != [] {
          SubsequenceSkip(r, columns);
        }
      }
    }
  }

  lemma {:induction false} SubsequenceSkip<T>(a: seq<T>, b: seq<T>)
    requires b != [] && IsSubsequence(a, b[1..])
    ensures IsSubsequence(a, b)
  {
  }

  /** Appending the same element to both sides, or to the longer one only,
      keeps a subsequence one. */
  lemma {:induction false} SubsequenceSnoc<T>(a: seq<T>, b: seq<T>, x: T)
    requires IsSubsequence(a, b)
    ensures IsSubsequence(a, b + [x]) && IsSubsequence(a + [x], b + [x])
    decreases |b|
  {
    if b != [] {
      assert (b + [x])[0] == b[0] && (b + [x])[1..] == b[1..] + [x];
      if a == [] {
        SubsequenceSnoc(a, b[1..], x);
        assert a + [x] == [x];
      } else {
        assert (a + [x])[0] == a[0] && (a + [x])[1..] == a[1..] + [x];
        if a[0] == b[0] && IsSubsequence(a[1..], b[1..]) {
          SubsequenceSnoc(a[1..], b[1..], x);
        } else {
          SubsequenceSnoc(a, b[1..], x);
        }
      }
    } else {
      assert a == [];
      assert a + [x] == b + [x] == [x];
      assert IsSubsequence([x][1..], [x][1..]);
    }
  }

  lemma {:induction false} KeepColumnsNothing(columns: seq<string>, drop: set<string>)
    requires forall c :: c in columns ==> c !in drop
    ensures KeepColumns(columns, drop) == columns
  {
    if columns != [] {
      KeepColumnsNothing(columns[1..], drop);
    }
  }
}
