/**
 * The aggregation of src/aggregation.py: trips counted per calendar day or
 * per clock hour of their pickup time. A pickup is seconds since
 * 1970-01-01 00:00 (naive time, no zone); a missing pickup (NaT) belongs to
 * no group, as pandas' groupby drops missing keys.
 */
module Aggregation {
  import opened Wrappers
  import opened Trips

  const SECONDS_PER_DAY: int := 86400
  const SECONDS_PER_HOUR: int := 3600

  /** The grouping interval: `.dt.date` or `.dt.floor('h')`. */
  datatype Granularity = Daily | Hourly

  /**
   * The group key of a pickup. Daily: the day number of its date (days since
   * 1970-01-01). Hourly: the pickup rounded down to the start of its hour,
   * in seconds. Dafny's division rounds down for a positive divisor, as
   * both pandas operations do, also before 1970.
   */
  function Bucket(t: int, g: Granularity): int {
    match g
    case Daily => t / SECONDS_PER_DAY
    case Hourly => (t / SECONDS_PER_HOUR) * SECONDS_PER_HOUR
  }

  /** One row of the result: ds the group key, y the number of trips in it. */
  datatype Point = Point(ds: int, y: nat)

  /** Keys strictly ascending (the result is sorted by ds and keys are unique). */
  predicate Increasing(pts: seq<Point>) {
    forall i, j :: 0 <= i < j < |pts| ==> pts[i].ds < pts[j].ds
  }

  /** A well-formed count table: ascending keys, no empty group. */
  predicate ValidCounts(pts: seq<Point>) {
    Increasing(pts) && forall i :: 0 <= i < |pts| ==> pts[i].y >= 1
  }

  /** The count the table gives to key d, 0 if d has no row. */
  function CountOf(pts: seq<Point>, d: int): nat {
    if pts == [] then 0
    else (if pts[0].ds == d then pts[0].y else 0) + CountOf(pts[1..], d)
  }

  /** The sum of the y column. */
  function Total(pts: seq<Point>): nat {
    if pts == [] then 0 else pts[0].y + Total(pts[1..])
  }

  /** The table with one more occurrence of key k. */
  function Insert(pts: seq<Point>, k: int): (r: seq<Point>)
    requires ValidCounts(pts)
    ensures ValidCounts(r)
    ensures r != [] && r[0].ds == (if pts == [] || k < pts[0].ds then k else pts[0].ds)
  {
    if pts == [] then [Point(k, 1)]
    else if k < pts[0].ds then [Point(k, 1)] + pts
    else if k == pts[0].ds then [Point(k, pts[0].y + 1)] + pts[1..]
    else [pts[0]] + Insert(pts[1..], k)
  }

  /** `groupby(key).size()` sorted by key: every distinct key with its number of occurrences. */
  function GroupCount(keys: seq<int>): (r: seq<Point>)
    ensures ValidCounts(r)
  {
    if keys == [] then [] else Insert(GroupCount(keys[1..]), keys[0])
  }

  /** The pickup column of a frame. */
  function Pickups(rows: seq<Trip>): (ps: seq<Option<int>>)
    ensures |ps| == |rows| && forall i :: 0 <= i < |rows| ==> ps[i] == rows[i].pickup
  {
    seq(|rows|, i requires 0 <= i < |rows| => rows[i].pickup)
  }

  /** The group keys of the present pickups, in row order. */
  function Keys(ps: seq<Option<int>>, g: Granularity): seq<int> {
    if ps == [] then []
    else (if ps[0].Some? then [Bucket(ps[0].value, g)] else []) + Keys(ps[1..], g)
  }

  /** How many rows have a pickup in group d. */
  function TripsIn(ps: seq<Option<int>>, g: Granularity, d: int): nat {
    if ps == [] then 0
    else (if ps[0].Some? && Bucket(ps[0].value, g) == d then 1 else 0) + TripsIn(ps[1..], g, d)
  }

  /** How many rows have a pickup at all. */
  function PickupCount(ps: seq<Option<int>>): nat {
    if ps == [] then 0 else (if ps[0].Some? then 1 else 0) + PickupCount(ps[1..])
  }

  /** Trip counts per group of the pickup column. */
  function Aggregate(ps: seq<Option<int>>, g: Granularity): (r: seq<Point>)
    ensures ValidCounts(r)
  {
    GroupCount(Keys(ps, g))
  }

  /** `aggregate_daily`: ds the day number, y the trips picked up that day. */
  function AggregateDaily(rows: seq<Trip>): (r: seq<Point>)
    ensures ValidCounts(r)
  {
    Aggregate(Pickups(rows), Daily)
  }

  /** `aggregate_hourly`: ds the start of the hour in seconds, y the trips picked up in it. */
  function AggregateHourly(rows: seq<Trip>): (r: seq<Point>)
    ensures ValidCounts(r)
  {
    Aggregate(Pickups(rows), Hourly)
  }

  // ---------------------------------------------------------------------
  // Group keys
  // ---------------------------------------------------------------------

  /** A day key is the day that contains the pickup. */
  lemma DailyBucketContains(t: int)
    ensures var d := Bucket(t, Daily);
            d * SECONDS_PER_DAY <= t < (d + 1) * SECONDS_PER_DAY
  {
    var d := t / SECONDS_PER_DAY;
    assert t == d * SECONDS_PER_DAY + t % SECONDS_PER_DAY;
  }

  /** An hour key is a whole hour, at most one hour before the pickup. */
  lemma HourlyBucketContains(t: int)
    ensures var h := Bucket(t, Hourly);
            h % SECONDS_PER_HOUR == 0 && h <= t < h + SECONDS_PER_HOUR
  {
    var q := t / SECONDS_PER_HOUR;
    assert t == q * SECONDS_PER_HOUR + t % SECONDS_PER_HOUR;
    assert (q * SECONDS_PER_HOUR) % SECONDS_PER_HOUR == 0;
  }

  /** Rounding an hour key down again leaves it unchanged. */
  lemma HourlyBucketIdempotent(t: int)
    ensures Bucket(Bucket(t, Hourly), Hourly) == Bucket(t, Hourly)
  {
    var q := t / SECONDS_PER_HOUR;
    assert (q * SECONDS_PER_HOUR) / SECONDS_PER_HOUR == q;
  }

  // ---------------------------------------------------------------------
  // Count tables
  // ---------------------------------------------------------------------

  /** Every key of an ascending table is at least its first key. */
  lemma HeadIsLeast(pts: seq<Point>, d: int)
    requires ValidCounts(pts) && pts != [] && d < pts[0].ds
    ensures CountOf(pts, d) == 0
  {
    if |pts| > 1 {
      HeadIsLeast(pts[1..], d);
    }
  }

  /** In a valid table, the count of a listed key is its y, and of any other key 0. */
  lemma {:induction false} CountOfRows(pts: seq<Point>, d: int)
    requires ValidCounts(pts)
    ensures forall i :: 0 <= i < |pts| && pts[i].ds == d ==> CountOf(pts, d) == pts[i].y
    ensures (forall i :: 0 <= i < |pts| ==> pts[i].ds != d) ==> CountOf(pts, d) == 0
  {
    if pts != [] {
      CountOfRows(pts[1..], d);
      assert forall i :: 1 <= i < |pts| ==> pts[1..][i - 1] == pts[i];
      if pts[0].ds == d && |pts| > 1 {
        HeadIsLeast(pts[1..], d);
      }
    }
  }

  /** Inserting k adds one to the count of k, changes no other count, and adds one to the total. */
  lemma {:induction false} InsertCounts(pts: seq<Point>, k: int)
    requires ValidCounts(pts)
    ensures forall d :: CountOf(Insert(pts, k), d) == CountOf(pts, d) + (if d == k then 1 else 0)
    ensures Total(Insert(pts, k)) == Total(pts) + 1
  {
    var r := Insert(pts, k);
    if pts == [] {
    } else if k < pts[0].ds {
      assert r[1..] == pts;
    } else if k == pts[0].ds {
      assert r[1..] == pts[1..];
    } else {
      InsertCounts(pts[1..], k);
      assert r[1..] == Insert(pts[1..], k);
    }
  }

  /** The table counts every key as often as it occurs, and its total is the number of keys. */
  lemma {:induction false} GroupCountCounts(keys: seq<int>)
    ensures forall d :: CountOf(GroupCount(keys), d) == multiset(keys)[d]
    ensures Total(GroupCount(keys)) == |keys|
  {
    if keys != [] {
      GroupCountCounts(keys[1..]);
      InsertCounts(GroupCount(keys[1..]), keys[0]);
      assert keys == [keys[0]] + keys[1..];
    }
  }

  /** Two valid tables that agree on every count are the same table. */
  lemma {:induction false} CountsDetermineTable(p: seq<Point>, q: seq<Point>)
    requires ValidCounts(p) && ValidCounts(q)
    requires forall d :: CountOf(p, d) == CountOf(q, d)
    ensures p == q
    decreases |p| + |q|, |p|
  {
    if p == [] && q != [] {
      assert false;
    } else if p != [] && q == [] {
      CountsDetermineTable(q, p);
    } else if p != [] {
      CountOfRows(p, p[0].ds);
      CountOfRows(q, q[0].ds);
      if p[0].ds < q[0].ds {
        HeadIsLeast(q, p[0].ds);
        assert false;
      } else if q[0].ds < p[0].ds {
        HeadIsLeast(p, q[0].ds);
        assert false;
      }
      assert p[0] == q[0];
      forall d ensures CountOf(p[1..], d) == CountOf(q[1..], d) {
        assert CountOf(p, d) == (if p[0].ds == d then p[0].y else 0) + CountOf(p[1..], d);
        assert CountOf(q, d) == (if q[0].ds == d then q[0].y else 0) + CountOf(q[1..], d);
        if d == p[0].ds {
          if |p| > 1 {
            HeadIsLeast(p[1..], d);
          }
          if |q| > 1 {
            HeadIsLeast(q[1..], d);
          }
        }
      }
      CountsDetermineTable(p[1..], q[1..]);
      assert p == [p[0]] + p[1..] && q == [q[0]] + q[1..];
    }
  }

  /**
   * `GroupCount` is the only valid table with the occurrence counts of the
   * keys: it is what any correct `groupby(...).size()` followed by a sort
   * must return.
   */
  lemma GroupCountUnique(keys: seq<int>, pts: seq<Point>)
    requires ValidCounts(pts)
    requires forall d :: CountOf(pts, d) == multiset(keys)[d]
    ensures pts == GroupCount(keys)
  {
    GroupCountCounts(keys);
    CountsDetermineTable(pts, GroupCount(keys));
  }

  // ---------------------------------------------------------------------
  // From pickups to keys
  // ---------------------------------------------------------------------

  /** The keys hold each group as often as it has trips, one key per present pickup. */
  lemma {:induction false} KeysCount(ps: seq<Option<int>>, g: Granularity)
    ensures forall d :: multiset(Keys(ps, g))[d] == TripsIn(ps, g, d)
    ensures |Keys(ps, g)| == PickupCount(ps)
  {
    if ps != [] {
      KeysCount(ps[1..], g);
    }
  }

  /** A present pickup puts at least one trip in its group. */
  lemma {:induction false} TripsInPositive(ps: seq<Option<int>>, g: Granularity, i: int)
    requires 0 <= i < |ps| && ps[i].Some?
    ensures TripsIn(ps, g, Bucket(ps[i].value, g)) >= 1
  {
    if i > 0 {
      TripsInPositive(ps[1..], g, i - 1);
    }
  }

  /** A group with a trip in it holds a present pickup that falls in it. */
  lemma {:induction false} TripsInWitness(ps: seq<Option<int>>, g: Granularity, d: int)
    requires TripsIn(ps, g, d) >= 1
    ensures exists i :: 0 <= i < |ps| && ps[i].Some? && Bucket(ps[i].value, g) == d
  {
    if !(ps[0].Some? && Bucket(ps[0].value, g) == d) {
      TripsInWitness(ps[1..], g, d);
      var i :| 0 <= i < |ps[1..]| && ps[1..][i].Some? && Bucket(ps[1..][i].value, g) == d;
      assert ps[i + 1] == ps[1..][i];
    }
  }

  /**
   * What `aggregate_daily` and `aggregate_hourly` return: rows sorted by
   * strictly ascending ds, one per group that holds a trip and none for an
   * empty group, each y the number of trips in its group, and y summing to
   * the number of rows with a pickup (rows without one are dropped).
   */
  lemma AggregateSpec(ps: seq<Option<int>>, g: Granularity)
    ensures var r := Aggregate(ps, g);
            && Increasing(r)
            && (forall i :: 0 <= i < |r| ==> r[i].y == TripsIn(ps, g, r[i].ds) && r[i].y >= 1)
            && (forall d :: TripsIn(ps, g, d) >= 1 <==> exists i :: 0 <= i < |r| && r[i].ds == d)
            && Total(r) == PickupCount(ps)
  {
    var keys := Keys(ps, g);
    var r := GroupCount(keys);
    GroupCountCounts(keys);
    KeysCount(ps, g);
    forall d ensures TripsIn(ps, g, d) >= 1 <==> exists i :: 0 <= i < |r| && r[i].ds == d {
      CountOfRows(r, d);
    }
    forall i | 0 <= i < |r| ensures r[i].y == TripsIn(ps, g, r[i].ds) {
      CountOfRows(r, r[i].ds);
    }
  }

  /** Every trip with a pickup is counted in a row of the result whose group contains it. */
  lemma AggregateCoversTrips(ps: seq<Option<int>>, g: Granularity, i: int)
    requires 0 <= i < |ps| && ps[i].Some?
    ensures exists j :: 0 <= j < |Aggregate(ps, g)| && Aggregate(ps, g)[j].ds == Bucket(ps[i].value, g)
  {
    AggregateSpec(ps, g);
    TripsInPositive(ps, g, i);
  }

  /** Every row of the result is the group of some trip. */
  lemma AggregateRowsFromTrips(ps: seq<Option<int>>, g: Granularity, j: int)
    requires 0 <= j < |Aggregate(ps, g)|
    ensures exists i :: 0 <= i < |ps| && ps[i].Some? && Bucket(ps[i].value, g) == Aggregate(ps, g)[j].ds
  {
    AggregateSpec(ps, g);
    TripsInWitness(ps, g, Aggregate(ps, g)[j].ds);
  }
}
