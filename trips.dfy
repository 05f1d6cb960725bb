/**
 * One taxi trip record with the fixed schema the cleaning and aggregation
 * steps read. A missing value (NaN / NaT in the data frame) is None.
 * Timestamps are whole seconds since 1970-01-01 00:00, naive (no time zone).
 */
module Trips {
  import opened Wrappers

  datatype Trip = Trip(
    pickup: Option<int>,              // tpep_pickup_datetime
    tripDistance: Option<real>,       // trip_distance
    fareAmount: Option<real>,         // fare_amount
    totalAmount: Option<real>,        // total_amount
    passengerCount: Option<real>,     // passenger_count
    congestionSurcharge: Option<real>,// congestion_surcharge
    airportFee: Option<real>,         // Airport_fee
    ratecodeId: Option<real>,         // RatecodeID
    storeAndFwdFlag: Option<char>     // store_and_fwd_flag, a one-letter code
  )

  /** The numeric columns the cleaning steps name. */
  datatype NumCol =
    | TripDistance | FareAmount | TotalAmount
    | PassengerCount | CongestionSurcharge | AirportFee | RatecodeId

  /** The categorical columns the cleaning steps name. */
  datatype CatCol = StoreAndFwdFlag

  /** df[col] for one row. */
  function Get(t: Trip, c: NumCol): Option<real> {
    match c
    case TripDistance => t.tripDistance
    case FareAmount => t.fareAmount
    case TotalAmount => t.totalAmount
    case PassengerCount => t.passengerCount
    case CongestionSurcharge => t.congestionSurcharge
    case AirportFee => t.airportFee
    case RatecodeId => t.ratecodeId
  }

  /** Overwrites one numeric cell of a row. */
  function Set(t: Trip, c: NumCol, v: Option<real>): (r: Trip)
    ensures Get(r, c) == v
    ensures forall d :: d != c ==> Get(r, d) == Get(t, d)
    ensures r.pickup == t.pickup && r.storeAndFwdFlag == t.storeAndFwdFlag
  {
    match c
    case TripDistance => t.(tripDistance := v)
    case FareAmount => t.(fareAmount := v)
    case TotalAmount => t.(totalAmount := v)
    case PassengerCount => t.(passengerCount := v)
    case CongestionSurcharge => t.(congestionSurcharge := v)
    case AirportFee => t.(airportFee := v)
    case RatecodeId => t.(ratecodeId := v)
  }

  function GetCat(t: Trip, c: CatCol): Option<char> {
    match c
    case StoreAndFwdFlag => t.storeAndFwdFlag
  }

  function SetCat(t: Trip, c: CatCol, v: Option<char>): (r: Trip)
    ensures GetCat(r, c) == v
    ensures forall d :: Get(r, d) == Get(t, d)
    ensures r.pickup == t.pickup
  {
    match c
    case StoreAndFwdFlag => t.(storeAndFwdFlag := v)
  }

  /** The column c of a frame, as a series. */
  function Column(rows: seq<Trip>, c: NumCol): (col: seq<Option<real>>)
    ensures |col| == |rows|
  {
    seq(|rows|, i requires 0 <= i < |rows| => Get(rows[i], c))
  }

  function CatColumn(rows: seq<Trip>, c: CatCol): (col: seq<Option<char>>)
    ensures |col| == |rows|
  {
    seq(|rows|, i requires 0 <= i < |rows| => GetCat(rows[i], c))
  }

  /** df[c] = col: the column c replaced, every other column and the row order kept. */
  function ReplaceColumn(rows: seq<Trip>, c: NumCol, col: seq<Option<real>>): (r: seq<Trip>)
    requires |col| == |rows|
    ensures |r| == |rows|
    ensures Column(r, c) == col
    ensures forall i :: 0 <= i < |r| ==> r[i].pickup == rows[i].pickup
    ensures CatColumn(r, StoreAndFwdFlag) == CatColumn(rows, StoreAndFwdFlag)
  {
    seq(|rows|, i requires 0 <= i < |rows| => Set(rows[i], c, col[i]))
  }

  /** Replacing column c leaves every other column as it was. */
  lemma ReplaceColumnKeepsOthers(rows: seq<Trip>, c: NumCol, col: seq<Option<real>>, d: NumCol)
    requires |col| == |rows| && d != c
    ensures Column(ReplaceColumn(rows, c, col), d) == Column(rows, d)
  {
  }

  function ReplaceCatColumn(rows: seq<Trip>, c: CatCol, col: seq<Option<char>>): (r: seq<Trip>)
    requires |col| == |rows|
    ensures |r| == |rows|
    ensures CatColumn(r, c) == col
    ensures forall d :: Column(r, d) == Column(rows, d)
    ensures forall i :: 0 <= i < |r| ==> r[i].pickup == rows[i].pickup
  {
    seq(|rows|, i requires 0 <= i < |rows| => SetCat(rows[i], c, col[i]))
  }

  /**
   * The present entries of a series, in order (what pandas' statistics skip
   * NaN down to).
   */
  function Present<T(!new)>(col: seq<Option<T>>): (vals: seq<T>)
    ensures |vals| <= |col|
    ensures forall x :: x in vals <==> Some(x) in col
  {
    if col == [] then []
    else
      assert forall x :: Some(x) in col <==> Some(x) == col[0] || Some(x) in col[1..];
      (if col[0].Some? then [col[0].value] else []) + Present(col[1..])
  }

  /** `dropna` keeps every present value as often as it occurs. */
  lemma {:induction false} PresentCounts<T(!new)>(col: seq<Option<T>>)
    ensures forall x :: multiset(Present(col))[x] == multiset(col)[Some(x)]
  {
    if col != [] {
      PresentCounts(col[1..]);
      assert col == [col[0]] + col[1..];
    }
  }
}
