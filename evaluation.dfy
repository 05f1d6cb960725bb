/**
 * `train_test_split_prophet` of src/evaluation.py: the series sorted by ds,
 * then cut so that the last `test_size` points form the test set, with
 * Python's slice rules for the index `-test_size`.
 */
module Evaluation {
  import opened Aggregation

  /** ds never decreases along the series. */
  predicate SortedByDs(s: seq<Point>) {
    forall i, j :: 0 <= i <= j < |s| ==> s[i].ds <= s[j].ds
  }

  /** Puts p before the first point whose ds is not below its own. */
  function InsertByDs(p: Point, s: seq<Point>): (r: seq<Point>)
    requires SortedByDs(s)
    ensures SortedByDs(r)
    ensures multiset(r) == multiset(s) + multiset{p}
    ensures |r| == |s| + 1
    ensures r[0] == if s == [] || p.ds <= s[0].ds then p else s[0]
  {
    if s == [] then [p]
    else if p.ds <= s[0].ds then [p] + s
    else
      var t := InsertByDs(p, s[1..]);
      assert s == [s[0]] + s[1..];
      assert s[0].ds <= t[0].ds;
      [s[0]] + t
  }

  /** `df.sort_values(by='ds')`: the same points, ascending by ds. */
  function SortByDs(s: seq<Point>): (r: seq<Point>)
    ensures SortedByDs(r)
    ensures multiset(r) == multiset(s)
    ensures |r| == |s|
  {
    if s == [] then []
    else
      assert s == [s[0]] + s[1..];
      InsertByDs(s[0], SortByDs(s[1..]))
  }

  /** A series already in ds order is returned as it is. */
  lemma {:induction false} SortByDsSorted(s: seq<Point>)
    requires SortedByDs(s)
    ensures SortByDs(s) == s
  {
    if s != [] {
      SortByDsSorted(s[1..]);
      assert s == [s[0]] + s[1..];
    }
  }

  /**
   * Where Python cuts a sequence of length n at index j: a negative index
   * counts from the end, and an index outside the sequence is clamped to it.
   */
  function PyCut(j: int, n: nat): (k: nat)
    ensures k <= n
    ensures 0 <= j <= n ==> k == j
    ensures -(n as int) <= j < 0 ==> k == j + n
    ensures j > n ==> k == n
    ensures j < -(n as int) ==> k == 0
  {
    if j < 0 then (if j + n < 0 then 0 else j + n)
    else if j > n then n else j
  }

  datatype Split = Split(train: seq<Point>, test: seq<Point>)

  /** `train_test_split_prophet(df, test_size)`. */
  function TrainTestSplit(df: seq<Point>, testSize: int): (r: Split)
    ensures r.train + r.test == SortByDs(df)
  {
    var sorted := SortByDs(df);
    var cut := PyCut(-testSize, |sorted|);
    assert sorted[..cut] + sorted[cut..] == sorted;
    Split(sorted[..cut], sorted[cut..])
  }

  /**
   * How large the two parts are: with 0 < test_size <= n the test set holds
   * exactly the last test_size points; a test_size of 0 or of at least n
   * leaves the training set empty and puts everything in the test set; a
   * negative test_size -m makes the first m points (at most n) the training
   * set.
   */
  lemma TrainTestSplitSizes(df: seq<Point>, testSize: int)
    ensures var r := TrainTestSplit(df, testSize);
            var n := |df|;
            && (0 < testSize <= n ==> |r.test| == testSize && |r.train| == n - testSize)
            && (testSize == 0 || testSize >= n ==> r.train == [] && r.test == SortByDs(df))
            && (testSize < 0 ==> |r.train| == (if -testSize <= n then -testSize else n))
  {
  }

  /** The test set is the tail of the sorted series: the points with the latest ds. */
  lemma TrainTestSplitTail(df: seq<Point>, testSize: int)
    requires 0 < testSize <= |df|
    ensures TrainTestSplit(df, testSize).test == SortByDs(df)[|df| - testSize..]
    ensures TrainTestSplit(df, testSize).train == SortByDs(df)[..|df| - testSize]
  {
  }

  /** No point is lost or duplicated by the split. */
  lemma TrainTestSplitPartition(df: seq<Point>, testSize: int)
    ensures var r := TrainTestSplit(df, testSize);
            multiset(r.train) + multiset(r.test) == multiset(df)
  {
    var r := TrainTestSplit(df, testSize);
    assert multiset(r.train + r.test) == multiset(r.train) + multiset(r.test);
  }

  /** Every training point is no later than every test point. */
  lemma TrainBeforeTest(df: seq<Point>, testSize: int)
    ensures var r := TrainTestSplit(df, testSize);
            forall i, j :: 0 <= i < |r.train| && 0 <= j < |r.test| ==> r.train[i].ds <= r.test[j].ds
  {
    var r := TrainTestSplit(df, testSize);
    var s := SortByDs(df);
    forall i, j | 0 <= i < |r.train| && 0 <= j < |r.test|
      ensures r.train[i].ds <= r.test[j].ds
    {
      assert r.train[i] == s[i] && r.test[j] == s[|r.train| + j];
    }
  }

  /**
   * With distinct dates in ascending order, as the daily aggregation gives,
   * sorting keeps the series as it is, and every training date is strictly
   * before every test date.
   */
  lemma TrainStrictlyBeforeTest(df: seq<Point>, testSize: int)
    requires Increasing(df)
    ensures var r := TrainTestSplit(df, testSize);
            && r.train + r.test == df
            && forall i, j :: 0 <= i < |r.train| && 0 <= j < |r.test| ==> r.train[i].ds < r.test[j].ds
  {
    assert SortedByDs(df) by {
      forall i, j | 0 <= i <= j < |df| ensures df[i].ds <= df[j].ds {
        if i < j {
          assert df[i].ds < df[j].ds;
        }
      }
    }
    SortByDsSorted(df);
    var r := TrainTestSplit(df, testSize);
    forall i, j | 0 <= i < |r.train| && 0 <= j < |r.test|
      ensures r.train[i].ds < r.test[j].ds
    {
      assert r.train[i] == df[i] && r.test[j] == df[|r.train| + j];
    }
  }
}
