/**
 * The forecasting data path of main.py up to the train/test split: keep the
 * trips picked up from 2024-01-01 up to (not including) 2025-02-01, clean
 * them, count trips per day, turn each date into a midnight timestamp and
 * hold out the last 30 days for testing.
 */
module Pipeline {
  import opened Wrappers
  import opened Trips
  import opened Preprocessing
  import opened Aggregation
  import opened Evaluation
  import CleaningProperties

  /** 2024-01-01 00:00, seconds since 1970-01-01 (day 19723). */
  const WINDOW_START: int := 1704067200
  /** 2025-02-01 00:00, seconds since 1970-01-01 (day 20120). */
  const WINDOW_END: int := 1738368000
  /** Days held out for testing. */
  const TEST_SIZE: int := 30

  /** The date filter: a pickup in [start, end); a missing pickup compares false and is dropped. */
  predicate InWindow(t: Trip) {
    t.pickup.Some? && WINDOW_START <= t.pickup.value < WINDOW_END
  }

  /** `df_raw[mask]`: the rows in the window, in their order. */
  function FilterWindow(rows: seq<Trip>): seq<Trip> {
    if rows == [] then []
    else (if InWindow(rows[0]) then [rows[0]] else []) + FilterWindow(rows[1..])
  }

  /** `pd.to_datetime` of the `ds` dates: each day number becomes its midnight in seconds. */
  function ToDatetime(pts: seq<Point>): (r: seq<Point>)
    ensures |r| == |pts|
    ensures forall i :: 0 <= i < |pts| ==> r[i].ds == pts[i].ds * SECONDS_PER_DAY && r[i].y == pts[i].y
  {
    seq(|pts|, i requires 0 <= i < |pts| => Point(pts[i].ds * SECONDS_PER_DAY, pts[i].y))
  }

  /** The daily series the model is trained and tested on. */
  function DailySeries(clean: seq<Trip>): seq<Point> {
    ToDatetime(AggregateDaily(clean))
  }

  /**
   * The path from the loaded frame to the split. A failure is the error
   * `preprocess_data` raises, which ends the program.
   */
  function PrepareSplit(raw: seq<Trip>): Result<Split, CleanError> {
    match Preprocess(FilterWindow(raw))
    case Failure(e) => Failure(e)
    case Success(clean) => Success(TrainTestSplit(DailySeries(clean), TEST_SIZE))
  }

  /**
   * The same path as main.py runs it: the filtered frame is cleaned in place
   * by `preprocess_data`, then aggregated, converted and split.
   */
  method RunPipeline(raw: seq<Trip>) returns (r: Result<Split, CleanError>)
    ensures r == PrepareSplit(raw)
  {
    var filtered := FilterWindow(raw);
    var frame := new Trip[|filtered|](i requires 0 <= i < |filtered| => filtered[i]);
    assert frame[..] == filtered;
    var ok := PreprocessData(frame);
    if !ok {
      return Failure(EmptyMode(StoreAndFwdFlag));
    }
    var series := DailySeries(frame[..]);
    r := Success(TrainTestSplit(series, TEST_SIZE));
  }

  // ---------------------------------------------------------------------
  // The date filter
  // ---------------------------------------------------------------------

  /** Filtering a concatenation filters each part. */
  lemma {:induction false} FilterWindowAppend(a: seq<Trip>, b: seq<Trip>)
    ensures FilterWindow(a + b) == FilterWindow(a) + FilterWindow(b)
  {
    if a != [] {
      FilterWindowAppend(a[1..], b);
      assert (a + b)[0] == a[0] && (a + b)[1..] == a[1..] + b;
      var head := if InWindow(a[0]) then [a[0]] else [];
      assert FilterWindow(a + b) == head + (FilterWindow(a[1..]) + FilterWindow(b));
      assert FilterWindow(a) == head + FilterWindow(a[1..]);
    } else {
      assert a + b == b;
    }
  }

  /** The positions, counted from offset, of the rows the filter keeps, ascending. */
  function KeptFrom(rows: seq<Trip>, offset: int): seq<int> {
    if rows == [] then []
    else (if InWindow(rows[0]) then [offset] else []) + KeptFrom(rows[1..], offset + 1)
  }

  function KeptPositions(rows: seq<Trip>): seq<int> {
    KeptFrom(rows, 0)
  }

  /** The kept positions are positions of the frame. */
  lemma {:induction false} KeptFromBounds(rows: seq<Trip>, offset: int)
    ensures forall k :: 0 <= k < |KeptFrom(rows, offset)| ==> offset <= KeptFrom(rows, offset)[k] < offset + |rows|
  {
    if rows != [] {
      KeptFromBounds(rows[1..], offset + 1);
    }
  }

  /** The kept positions are ascending. */
  lemma {:induction false} KeptFromAscending(rows: seq<Trip>, offset: int)
    ensures forall k, l :: 0 <= k < l < |KeptFrom(rows, offset)| ==> KeptFrom(rows, offset)[k] < KeptFrom(rows, offset)[l]
  {
    if rows != [] {
      var rest := KeptFrom(rows[1..], offset + 1);
      KeptFromAscending(rows[1..], offset + 1);
      if InWindow(rows[0]) {
        KeptFromBounds(rows[1..], offset + 1);
        var pos := [offset] + rest;
        assert KeptFrom(rows, offset) == pos;
        assert forall k :: 1 <= k < |pos| ==> pos[k] == rest[k - 1];
      } else {
        assert KeptFrom(rows, offset) == rest;
      }
    }
  }

  /** The kept rows are the rows at the kept positions, unchanged. */
  lemma {:induction false} KeptFromRows(rows: seq<Trip>, offset: int)
    ensures |KeptFrom(rows, offset)| == |FilterWindow(rows)|
    ensures forall k :: 0 <= k < |KeptFrom(rows, offset)| ==>
              0 <= KeptFrom(rows, offset)[k] - offset < |rows| && FilterWindow(rows)[k] == rows[KeptFrom(rows, offset)[k] - offset]
  {
    if rows != [] {
      var tail := rows[1..];
      KeptFromRows(tail, offset + 1);
      var pos := KeptFrom(tail, offset + 1);
      assert forall k :: 0 <= k < |pos| ==> tail[pos[k] - (offset + 1)] == rows[pos[k] - offset];
    }
  }

  /** A position is kept exactly when its row is in the window. */
  lemma {:induction false} KeptFromExactly(rows: seq<Trip>, offset: int)
    ensures forall i :: 0 <= i < |rows| ==> (InWindow(rows[i]) <==> offset + i in KeptFrom(rows, offset))
  {
    if rows != [] {
      var tail := rows[1..];
      KeptFromExactly(tail, offset + 1);
      KeptFromBounds(tail, offset + 1);
      var rest := KeptFrom(tail, offset + 1);
      var head := if InWindow(rows[0]) then [offset] else [];
      assert KeptFrom(rows, offset) == head + rest;
      forall i | 0 <= i < |rows| ensures InWindow(rows[i]) <==> offset + i in head + rest {
        assert offset + i in head + rest <==> offset + i in head || offset + i in rest;
        if i > 0 {
          assert rows[i] == tail[i - 1];
        } else {
          assert forall k :: 0 <= k < |rest| ==> rest[k] != offset;
        }
      }
    }
  }

  /**
   * The filter keeps a subsequence: the kept rows are the rows at ascending
   * positions, unchanged, and those positions are exactly the rows in the
   * window.
   */
  lemma FilterWindowSubsequence(rows: seq<Trip>)
    ensures var kept, pos := FilterWindow(rows), KeptPositions(rows);
            && |pos| == |kept|
            && (forall k :: 0 <= k < |pos| ==> 0 <= pos[k] < |rows| && kept[k] == rows[pos[k]])
            && (forall k, l :: 0 <= k < l < |pos| ==> pos[k] < pos[l])
            && (forall i :: 0 <= i < |rows| ==> (InWindow(rows[i]) <==> i in pos))
  {
    KeptFromBounds(rows, 0);
    KeptFromAscending(rows, 0);
    KeptFromRows(rows, 0);
    KeptFromExactly(rows, 0);
  }

  /** A row is kept exactly when it is in the window; nothing else appears. */
  lemma {:induction false} FilterWindowMembers(rows: seq<Trip>)
    ensures forall t :: t in FilterWindow(rows) <==> t in rows && InWindow(t)
  {
    if rows != [] {
      FilterWindowMembers(rows[1..]);
      assert rows == [rows[0]] + rows[1..];
    }
  }

  /** Filtering twice is filtering once. */
  lemma {:induction false} FilterWindowIdempotent(rows: seq<Trip>)
    ensures FilterWindow(FilterWindow(rows)) == FilterWindow(rows)
  {
    if rows != [] {
      FilterWindowIdempotent(rows[1..]);
      if InWindow(rows[0]) {
        assert FilterWindow(rows) == [rows[0]] + FilterWindow(rows[1..]);
        FilterWindowAppend([rows[0]], FilterWindow(rows[1..]));
        assert [rows[0]][1..] == [];
        assert FilterWindow([rows[0]]) == [rows[0]];
      } else {
        assert FilterWindow(rows) == [] + FilterWindow(rows[1..]) == FilterWindow(rows[1..]);
      }
    }
  }

  /** The window starts at the first second of 2024 and stops before the first of February 2025. */
  lemma WindowBoundaries(t: Trip)
    ensures t.pickup == Some(WINDOW_START) ==> InWindow(t)
    ensures t.pickup == Some(WINDOW_END - 1) ==> InWindow(t)
    ensures t.pickup == Some(WINDOW_END) ==> !InWindow(t)
    ensures t.pickup == Some(WINDOW_START - 1) ==> !InWindow(t)
    ensures t.pickup.None? ==> !InWindow(t)
  {
  }

  /** Every kept pickup is present and inside the window. */
  lemma PickupsInWindow(rows: seq<Trip>)
    ensures var ps := Pickups(FilterWindow(rows));
            forall i :: 0 <= i < |ps| ==> ps[i].Some? && WINDOW_START <= ps[i].value < WINDOW_END
  {
    var kept := FilterWindow(rows);
    FilterWindowMembers(rows);
    assert forall i :: 0 <= i < |kept| ==> kept[i] in kept;
  }

  // ---------------------------------------------------------------------
  // The daily series
  // ---------------------------------------------------------------------

  /** A day that holds a pickup of the window is a day of the window. */
  lemma DayInWindow(t: int)
    requires WINDOW_START <= t < WINDOW_END
    ensures WINDOW_START <= Bucket(t, Daily) * SECONDS_PER_DAY < WINDOW_END
  {
    var d := Bucket(t, Daily);
    DailyBucketContains(t);
    assert WINDOW_START == 19723 * SECONDS_PER_DAY;
  }

  /** The total of a concatenation. */
  lemma {:induction false} TotalAppend(a: seq<Point>, b: seq<Point>)
    ensures Total(a + b) == Total(a) + Total(b)
  {
    if a != [] {
      TotalAppend(a[1..], b);
      assert (a + b)[0] == a[0] && (a + b)[1..] == a[1..] + b;
    } else {
      assert a + b == b;
    }
  }

  /**
   * `pd.to_datetime` of a day gives a midnight: a whole number of days in
   * seconds, from which the day comes back by division. Counts are kept and
   * an ascending series stays ascending.
   */
  lemma ToDatetimeMidnights(pts: seq<Point>)
    ensures var r := ToDatetime(pts);
            && |r| == |pts|
            && (forall i :: 0 <= i < |r| ==>
                  && r[i].ds % SECONDS_PER_DAY == 0
                  && r[i].ds / SECONDS_PER_DAY == pts[i].ds
                  && r[i].y == pts[i].y)
            && (Increasing(pts) ==> Increasing(r))
  {
    var r := ToDatetime(pts);
    forall i | 0 <= i < |r|
      ensures r[i].ds % SECONDS_PER_DAY == 0 && r[i].ds / SECONDS_PER_DAY == pts[i].ds
    {
      MidnightOfDay(pts[i].ds);
    }
  }

  /** A day times 86400 is a midnight, and dividing gives the day back. */
  lemma MidnightOfDay(d: int)
    ensures (d * SECONDS_PER_DAY) % SECONDS_PER_DAY == 0
    ensures (d * SECONDS_PER_DAY) / SECONDS_PER_DAY == d
  {
  }

  /** Converting dates to timestamps keeps every count. */
  lemma {:induction false} ToDatetimeTotal(pts: seq<Point>)
    ensures Total(ToDatetime(pts)) == Total(pts)
  {
    if pts != [] {
      ToDatetimeTotal(pts[1..]);
      assert ToDatetime(pts)[1..] == ToDatetime(pts[1..]);
    }
  }

  /** A present pickup in every row means every row is counted. */
  lemma {:induction false} AllPickupsCounted(ps: seq<Option<int>>)
    requires forall i :: 0 <= i < |ps| ==> ps[i].Some?
    ensures PickupCount(ps) == |ps|
  {
    if ps != [] {
      AllPickupsCounted(ps[1..]);
    }
  }

  /**
   * The daily series of pickups that all lie in the window: midnights in
   * strictly ascending order, all inside the window, each with the number
   * of trips of its day, and counts that add up to the number of trips.
   */
  lemma SeriesOfWindow(ps: seq<Option<int>>)
    requires forall i :: 0 <= i < |ps| ==> ps[i].Some? && WINDOW_START <= ps[i].value < WINDOW_END
    ensures var s := ToDatetime(Aggregate(ps, Daily));
            && Increasing(s)
            && Total(s) == |ps|
            && (forall i :: 0 <= i < |s| ==>
                  && s[i].ds % SECONDS_PER_DAY == 0
                  && WINDOW_START <= s[i].ds < WINDOW_END
                  && s[i].y == TripsIn(ps, Daily, s[i].ds / SECONDS_PER_DAY)
                  && s[i].y >= 1)
  {
    var daily := Aggregate(ps, Daily);
    var s := ToDatetime(daily);
    AggregateSpec(ps, Daily);
    ToDatetimeTotal(daily);
    AllPickupsCounted(ps);
    forall i, j | 0 <= i < j < |s| ensures s[i].ds < s[j].ds {
      assert daily[i].ds < daily[j].ds;
    }
    forall i | 0 <= i < |s|
      ensures s[i].ds % SECONDS_PER_DAY == 0 && s[i].ds / SECONDS_PER_DAY == daily[i].ds
      ensures WINDOW_START <= s[i].ds < WINDOW_END
    {
      AggregateRowsFromTrips(ps, Daily, i);
      var k :| 0 <= k < |ps| && ps[k].Some? && Bucket(ps[k].value, Daily) == daily[i].ds;
      DayInWindow(ps[k].value);
    }
  }

  // ---------------------------------------------------------------------
  // The whole path
  // ---------------------------------------------------------------------

  /** The cleaned frame behind a successful run. */
  lemma PipelineUnfold(raw: seq<Trip>)
    ensures PrepareSplit(raw).Success? <==> Preprocess(FilterWindow(raw)).Success?
    ensures PrepareSplit(raw).Success? ==>
              PrepareSplit(raw).value == TrainTestSplit(DailySeries(Preprocess(FilterWindow(raw)).value), TEST_SIZE)
  {
  }

  /** The program stops with an error exactly when no trip of the window has a store_and_fwd_flag. */
  lemma PipelineFailsIffNoFlag(raw: seq<Trip>)
    ensures PrepareSplit(raw).Failure?
            <==> forall i :: 0 <= i < |raw| && InWindow(raw[i]) ==> raw[i].storeAndFwdFlag.None?
  {
    var kept := FilterWindow(raw);
    PipelineUnfold(raw);
    CleaningProperties.PreprocessFailsIffNoFlag(kept);
    FilterWindowMembers(raw);
    assert forall i :: 0 <= i < |kept| ==> kept[i] in kept;
    assert forall i :: 0 <= i < |raw| && InWindow(raw[i]) ==> raw[i] in kept;
  }

  /** Cleaning keeps the pickups, so the series counts the filtered trips. */
  lemma CleanSeries(raw: seq<Trip>)
    requires PrepareSplit(raw).Success?
    ensures Preprocess(FilterWindow(raw)).Success?
    ensures DailySeries(Preprocess(FilterWindow(raw)).value) == ToDatetime(Aggregate(Pickups(FilterWindow(raw)), Daily))
  {
    var kept := FilterWindow(raw);
    PipelineUnfold(raw);
    CleaningProperties.SucceedsFlagged(kept);
    CleaningProperties.PreprocessKeepsRows(kept);
    var clean := Preprocess(kept).value;
    assert Pickups(clean) == Pickups(kept) by {
      forall i | 0 <= i < |kept| ensures Pickups(clean)[i] == Pickups(kept)[i] {
        assert clean[i].pickup == kept[i].pickup;
      }
    }
  }

  /**
   * After a successful run the training and test points together are the
   * daily series in date order: one point per day of the window that has
   * trips, at its midnight, counting that day's trips of the window, with
   * every trip of the window counted once.
   */
  lemma PipelineSeries(raw: seq<Trip>)
    requires PrepareSplit(raw).Success?
    ensures var r := PrepareSplit(raw).value;
            var s := r.train + r.test;
            var ps := Pickups(FilterWindow(raw));
            && Increasing(s)
            && Total(r.train) + Total(r.test) == |FilterWindow(raw)|
            && (forall i :: 0 <= i < |s| ==>
                  && s[i].ds % SECONDS_PER_DAY == 0
                  && WINDOW_START <= s[i].ds < WINDOW_END
                  && s[i].y == TripsIn(ps, Daily, s[i].ds / SECONDS_PER_DAY)
                  && s[i].y >= 1)
  {
    var kept := FilterWindow(raw);
    var ps := Pickups(kept);
    PipelineUnfold(raw);
    CleanSeries(raw);
    PickupsInWindow(raw);
    SeriesOfWindow(ps);
    var series := ToDatetime(Aggregate(ps, Daily));
    var r := PrepareSplit(raw).value;
    TrainStrictlyBeforeTest(series, TEST_SIZE);
    TotalAppend(r.train, r.test);
  }

  /**
   * The held-out part is the last 30 days of the series, and the training
   * part every earlier day, strictly before them; with fewer than 30 days
   * nothing is left to train on and everything is in the test part.
   */
  lemma PipelineHoldsOutLastDays(raw: seq<Trip>)
    requires PrepareSplit(raw).Success?
    ensures var r := PrepareSplit(raw).value;
            var n := |r.train| + |r.test|;
            && (n >= TEST_SIZE ==> |r.test| == TEST_SIZE)
            && (n < TEST_SIZE ==> r.train == [])
            && (forall i, j :: 0 <= i < |r.train| && 0 <= j < |r.test| ==> r.train[i].ds < r.test[j].ds)
  {
    var kept := FilterWindow(raw);
    var ps := Pickups(kept);
    PipelineUnfold(raw);
    CleanSeries(raw);
    PickupsInWindow(raw);
    SeriesOfWindow(ps);
    var series := ToDatetime(Aggregate(ps, Daily));
    TrainStrictlyBeforeTest(series, TEST_SIZE);
    TrainTestSplitSizes(series, TEST_SIZE);
  }
}
