/** The numeric aggregates the core takes from pandas and scipy, over exact
    reals: sum, mean, population variance (ddof = 0), median, and the sort
    that orders values with NaN (None) last. */
module Stats {
  import opened Tables

  function Sum(s: seq<real>): real
  {
    if s == [] then 0.0 else s[0] + Sum(s[1..])
  }

  function Mean(s: seq<real>): real
    requires |s| > 0
  {
    Sum(s) / |s| as real
  }

  function Square(x: real): real { x * x }

  /** Sum of squared deviations from m. */
  function SquaredDeviations(s: seq<real>, m: real): real
  {
    if s == [] then 0.0 else Square(s[0] - m) + SquaredDeviations(s[1..], m)
  }

  /** Population variance, the square of scipy's zscore denominator. */
  function Variance(s: seq<real>): real
    requires |s| > 0
  {
    SquaredDeviations(s, Mean(s)) / |s| as real
  }

  /** Series.mean(): NaN (None) when no value is present. */
  function MeanOrNaN(s: seq<real>): Option<real>
  {
    if |s| == 0 then None else Some(Mean(s))
  }

  /** Series.median(): NaN (None) when no value is present. */
  function MedianOrNaN(s: seq<real>): Option<real>
  {
    if |s| == 0 then None else Some(Median(s))
  }

  lemma {:induction false} SumBounds(s: seq<real>, lo: real, hi: real)
    requires forall i :: 0 <= i < |s| ==> lo <= s[i] <= hi
    ensures |s| as real * lo <= Sum(s) <= |s| as real * hi
  {
    if s != [] {
      SumBounds(s[1..], lo, hi);
    }
  }

  /** The mean lies between the smallest and the largest value. */
  lemma MeanWithinRange(s: seq<real>, lo: real, hi: real)
    requires |s| > 0
    requires forall i :: 0 <= i < |s| ==> lo <= s[i] <= hi
    ensures lo <= Mean(s) <= hi
  {
    SumBounds(s, lo, hi);
    var n := |s| as real;
    assert Sum(s) / n >= lo by {
      assert Sum(s) >= n * lo;
    }
    assert Sum(s) / n <= hi by {
      assert Sum(s) <= n * hi;
    }
  }

  lemma {:induction false} SquaredDeviationsZero(s: seq<real>, m: real)
    ensures SquaredDeviations(s, m) >= 0.0
    ensures SquaredDeviations(s, m) == 0.0 <==> forall i :: 0 <= i < |s| ==> s[i] == m
  {
    if s != [] {
      SquaredDeviationsZero(s[1..], m);
      SquarePositive(s[0] - m);
      if forall i :: 0 <= i < |s| ==> s[i] == m {
        assert forall i :: 0 <= i < |s[1..]| ==> s[1..][i] == m;
      } else {
        var k :| 0 <= k < |s| && s[k] != m;
        if k > 0 {
          assert s[1..][k - 1] != m;
        }
      }
    }
  }

  lemma SquarePositive(d: real)
    ensures Square(d) >= 0.0
    ensures d != 0.0 ==> Square(d) > 0.0
    ensures d == 0.0 ==> Square(d) == 0.0
  {
    if d < 0.0 {
      calc {
        Square(d);
        (-d) * (-d);
      >  { assert (-d) * (-d) > 0.0; }
        0.0;
      }
    } else if d > 0.0 {
      calc {
        Square(d);
        d * d;
      >  { assert d * d > 0.0; }
        0.0;
      }
    }
  }

  lemma {:induction false} SumConstant(s: seq<real>, x: real)
    requires forall i :: 0 <= i < |s| ==> s[i] == x
    ensures Sum(s) == |s| as real * x
  {
    if s != [] {
      SumConstant(s[1..], x);
    }
  }

  /** The variance is never negative, and it is zero exactly when every value
      is the same: only then is scipy's z-score 0/0. */
  lemma VarianceZeroIffConstant(s: seq<real>)
    requires |s| > 0
    ensures Variance(s) >= 0.0
    ensures Variance(s) == 0.0 <==> forall i, j :: 0 <= i < |s| && 0 <= j < |s| ==> s[i] == s[j]
  {
    var m := Mean(s);
    var n := |s| as real;
    SquaredDeviationsZero(s, m);
    if forall i, j :: 0 <= i < |s| && 0 <= j < |s| ==> s[i] == s[j] {
      SumConstant(s, s[0]);
      assert m == s[0];
    }
  }

  // ----- ordering with NaN last -----

  /** `a` may stand before `b` when sorting by value (ascending or not);
      pandas places NaN last in both directions. */
  predicate Before(a: Option<real>, b: Option<real>, ascending: bool)
  {
    match a
    case None => b.None?
    case Some(x) => b.None? || (if ascending then x <= b.value else b.value <= x)
  }

  lemma BeforeTotal(a: Option<real>, b: Option<real>, ascending: bool)
    ensures Before(a, b, ascending) || Before(b, a, ascending)
  {
  }

  ghost predicate SortedBy<T>(s: seq<T>, key: T -> Option<real>, ascending: bool)
  {
    forall i, j :: 0 <= i < j < |s| ==> Before(key(s[i]), key(s[j]), ascending)
  }

  function Insert<T>(x: T, s: seq<T>, key: T -> Option<real>, ascending: bool): (r: seq<T>)
    ensures |r| == |s| + 1
    ensures multiset(r) == multiset(s) + multiset{x}
  {
    if s == [] || Before(key(x), key(s[0]), ascending) then
      [x] + s
    else
      assert s == [s[0]] + s[1..];
      [s[0]] + Insert(x, s[1..], key, ascending)
  }

  lemma {:induction false} InsertSorted<T>(x: T, s: seq<T>, key: T -> Option<real>, ascending: bool)
    requires SortedBy(s, key, ascending)
    ensures SortedBy(Insert(x, s, key, ascending), key, ascending)
  {
    if s != [] && !Before(key(x), key(s[0]), ascending) {
      var tail := Insert(x, s[1..], key, ascending);
      InsertSorted(x, s[1..], key, ascending);
      BeforeTotal(key(x), key(s[0]), ascending);
      forall k | 0 <= k < |tail| ensures Before(key(s[0]), key(tail[k]), ascending) {
        assert tail[k] in multiset(tail);
        if tail[k] != x {
          assert tail[k] in multiset(s[1..]);
          var j :| 0 <= j < |s[1..]| && s[1..][j] == tail[k];
          assert s[j + 1] == tail[k];
        }
      }
      var r := [s[0]] + tail;
      assert r == Insert(x, s, key, ascending);
      forall i, j | 0 <= i < j < |r| ensures Before(key(r[i]), key(r[j]), ascending) {
        if i == 0 {
          assert r[j] == tail[j - 1];
        } else {
          assert r[i] == tail[i - 1] && r[j] == tail[j - 1];
        }
      }
    }
  }

  /** Sorting by a key; the order of equal keys is left to the implementation,
      as pandas' default (unstable) sort leaves it. */
  function SortBy<T>(s: seq<T>, key: T -> Option<real>, ascending: bool): (r: seq<T>)
    ensures |r| == |s|
    ensures multiset(r) == multiset(s)
    ensures SortedBy(r, key, ascending)
  {
    if s == [] then []
    else
      var rest := SortBy(s[1..], key, ascending);
      InsertSorted(s[0], rest, key, ascending);
      assert s == [s[0]] + s[1..];
      Insert(s[0], rest, key, ascending)
  }

  lemma SortByMembers<T>(s: seq<T>, key: T -> Option<real>, ascending: bool)
    ensures forall x :: x in SortBy(s, key, ascending) <==> x in s
  {
    forall x ensures x in SortBy(s, key, ascending) <==> x in s {
      SortByMember(s, key, ascending, x);
    }
  }

  lemma SortByMember<T>(s: seq<T>, key: T -> Option<real>, ascending: bool, x: T)
    ensures x in SortBy(s, key, ascending) <==> x in s
  {
    var r := SortBy(s, key, ascending);
    assert x in r <==> x in multiset(r);
    assert x in s <==> x in multiset(s);
  }

  function AsKey(x: real): Option<real> { Some(x) }

  /** The median: the middle value, or the mean of the two middle values. */
  function Median(s: seq<real>): real
    requires |s| > 0
  {
    MiddleOfSorted(SortBy(s, AsKey, true))
  }

  // ----- counting values on one side of a point -----

  /** The number of values <= x (below) or >= x (not below). */
  function CountSide(s: seq<real>, x: real, below: bool): nat
  {
    if s == [] then 0
    else (if (if below then s[0] <= x else s[0] >= x) then 1 else 0) + CountSide(s[1..], x, below)
  }

  lemma {:induction false} CountSideConcat(a: seq<real>, b: seq<real>, x: real, below: bool)
    ensures CountSide(a + b, x, below) == CountSide(a, x, below) + CountSide(b, x, below)
  {
    if a != [] {
      assert (a + b)[0] == a[0];
      assert (a + b)[1..] == a[1..] + b;
      CountSideConcat(a[1..], b, x, below);
    } else {
      assert a + b == b;
    }
  }

  function One(y: real, x: real, below: bool): nat
  {
    if (if below then y <= x else y >= x) then 1 else 0
  }

  lemma CountSideRemove(b: seq<real>, j: nat, x: real, below: bool)
    requires j < |b|
    ensures CountSide(b, x, below) == CountSide(b[..j] + b[j + 1..], x, below) + One(b[j], x, below)
  {
    assert b == b[..j] + ([b[j]] + b[j + 1..]);
    CountSideConcat(b[..j], [b[j]] + b[j + 1..], x, below);
    CountSideConcat(b[..j], b[j + 1..], x, below);
  }

  lemma MultisetRemove(a: seq<real>, b: seq<real>, j: nat)
    requires multiset(a) == multiset(b) && a != [] && j < |b| && b[j] == a[0]
    ensures multiset(a[1..]) == multiset(b[..j] + b[j + 1..])
  {
    assert a == [a[0]] + a[1..];
    assert b == b[..j] + [b[j]] + b[j + 1..];
    assert multiset(a[1..]) == multiset(a) - multiset{a[0]};
    assert multiset(b[..j] + b[j + 1..]) == multiset(b) - multiset{b[j]};
  }

  lemma {:induction false} CountSidePermutation(a: seq<real>, b: seq<real>, x: real, below: bool)
    requires multiset(a) == multiset(b)
    ensures CountSide(a, x, below) == CountSide(b, x, below)
    decreases |a|
  {
    if a == [] {
      assert |b| == |multiset(b)| == 0;
    } else {
      assert a[0] in multiset(b);
      var j :| 0 <= j < |b| && b[j] == a[0];
      MultisetRemove(a, b, j);
      CountSidePermutation(a[1..], b[..j] + b[j + 1..], x, below);
      CountSideRemove(b, j, x, below);
    }
  }

  /** Every value in s[lo..hi] is on the given side of x, so at least hi - lo
      values are. */
  lemma {:induction false} CountSideRange(s: seq<real>, lo: nat, hi: nat, x: real, below: bool)
    requires lo <= hi <= |s|
    requires forall i :: lo <= i < hi ==> (if below then s[i] <= x else s[i] >= x)
    ensures CountSide(s, x, below) >= hi - lo
    decreases hi - lo
  {
    if lo < hi {
      assert s == s[..lo] + s[lo..];
      CountSideConcat(s[..lo], s[lo..], x, below);
      assert s[lo..] == [s[lo]] + s[lo + 1..];
      CountSideRange(s[lo..][1..], 0, hi - lo - 1, x, below);
    }
  }

  lemma SortedAscending(s: seq<real>)
    ensures forall i, j :: 0 <= i < j < |s| ==> SortBy(s, AsKey, true)[i] <= SortBy(s, AsKey, true)[j]
  {
    var m := SortBy(s, AsKey, true);
    forall i, j | 0 <= i < j < |m| ensures m[i] <= m[j] {
      assert Before(AsKey(m[i]), AsKey(m[j]), true);
    }
  }

  /** The median formula applied to an already sorted sequence. */
  function MiddleOfSorted(m: seq<real>): real
    requires |m| > 0
  {
    var n := |m|;
    if n % 2 == 1 then m[n / 2] else (m[n / 2 - 1] + m[n / 2]) / 2.0
  }

  lemma MiddleOfSortedSplits(m: seq<real>)
    requires |m| > 0
    requires forall i, j :: 0 <= i < j < |m| ==> m[i] <= m[j]
    ensures 2 * CountSide(m, MiddleOfSorted(m), true) >= |m|
    ensures 2 * CountSide(m, MiddleOfSorted(m), false) >= |m|
  {
    var n := |m|;
    var med := MiddleOfSorted(m);
    if n % 2 == 1 {
      CountSideRange(m, 0, n / 2 + 1, med, true);
      CountSideRange(m, n / 2, n, med, false);
    } else {
      assert m[n / 2 - 1] <= m[n / 2];
      CountSideRange(m, 0, n / 2, med, true);
      CountSideRange(m, n / 2, n, med, false);
    }
  }

  /** The defining property of a median: at least half of the values are at
      most it, and at least half are at least it. */
  lemma MedianSplits(s: seq<real>)
    requires |s| > 0
    ensures 2 * CountSide(s, Median(s), true) >= |s|
    ensures 2 * CountSide(s, Median(s), false) >= |s|
  {
    var m := SortBy(s, AsKey, true);
    SortedAscending(s);
    assert Median(s) == MiddleOfSorted(m);
    MiddleOfSortedSplits(m);
    CountSidePermutation(s, m, Median(s), true);
    CountSidePermutation(s, m, Median(s), false);
  }

  /** A median is one of the values or lies between two of them. */
  lemma MedianWithinRange(s: seq<real>, lo: real, hi: real)
    requires |s| > 0
    requires forall i :: 0 <= i < |s| ==> lo <= s[i] <= hi
    ensures lo <= Median(s) <= hi
  {
    var m := SortBy(s, AsKey, true);
    assert forall k :: 0 <= k < |m| ==> lo <= m[k] <= hi by {
      forall k | 0 <= k < |m| ensures lo <= m[k] <= hi {
        assert m[k] in multiset(s);
      }
    }
  }
}
