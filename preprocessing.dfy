/**
 * The cleaning steps of src/preprocessing.py. Each step overwrites columns
 * of the caller's frame in place; the frame is an array of rows here, and
 * every in-place method is tied to a function of the old contents. The
 * functions work on one column at a time (a pandas Series) and are where
 * the properties are proved.
 */
module Preprocessing {
  import opened Wrappers
  import opened Trips
  import Stats

  /** mode()[0] of a column with no present value: the mode is empty. */
  datatype CleanError = EmptyMode(col: CatCol)

  const NEGATIVE_COLS: seq<NumCol> := [TripDistance, FareAmount, TotalAmount]
  const NUMERIC_COLS: seq<NumCol> :=
    [PassengerCount, CongestionSurcharge, AirportFee, RatecodeId, FareAmount, TotalAmount]
  const CATEGORICAL_COLS: seq<CatCol> := [StoreAndFwdFlag]
  const CAP_COLS: seq<NumCol> := [TripDistance, FareAmount, TotalAmount]
  const LOWER_PERCENTILE: real := 0.01
  const UPPER_PERCENTILE: real := 0.99

  predicate NoDuplicates<T(==)>(s: seq<T>) {
    forall i, j :: 0 <= i < j < |s| ==> s[i] != s[j]
  }

  /** The values that are not negative, in order, each as often as it occurs. */
  function NonNegatives(vals: seq<real>): (r: seq<real>)
    ensures forall x :: x in r <==> x in vals && x >= 0.0
    ensures forall x :: multiset(r)[x] == if x >= 0.0 then multiset(vals)[x] else 0
  {
    if vals == [] then []
    else
      assert vals == [vals[0]] + vals[1..];
      (if vals[0] >= 0.0 then [vals[0]] else []) + NonNegatives(vals[1..])
  }

  // ---------------------------------------------------------------------
  // One column at a time
  // ---------------------------------------------------------------------

  /** The new value of a cell under `df.loc[df[col] < 0, col] = nan`; NaN < 0 is false. */
  function ScrubCell(v: Option<real>): (r: Option<real>)
    ensures r.Some? ==> r == v && r.value >= 0.0
    ensures r.None? <==> v.None? || v.value < 0.0
  {
    if v.Some? && v.value < 0.0 then None else v
  }

  /** A column with every negative value replaced by a missing one. */
  function ScrubNegatives(col: seq<Option<real>>): (r: seq<Option<real>>)
    ensures |r| == |col|
    ensures forall i :: 0 <= i < |r| && r[i].Some? ==> r[i].value >= 0.0
    ensures forall i :: 0 <= i < |r| && col[i].Some? && col[i].value < 0.0 ==> r[i].None?
    ensures forall i :: 0 <= i < |r| && (col[i].None? || col[i].value >= 0.0) ==> r[i] == col[i]
  {
    seq(|col|, i requires 0 <= i < |col| => ScrubCell(col[i]))
  }

  /** col.fillna(col.median()): a column with no present value stays as it is. */
  function FillWithMedian(col: seq<Option<real>>): (r: seq<Option<real>>)
    ensures |r| == |col|
    ensures forall i :: 0 <= i < |r| && col[i].Some? ==> r[i] == col[i]
  {
    var m := Stats.Median(Present(col));
    seq(|col|, i requires 0 <= i < |col| => if col[i].None? then m else col[i])
  }

  /** col.clip(lower, upper) with both bounds present; a missing cell stays missing. */
  function ClipCell(v: Option<real>, lo: real, hi: real): (r: Option<real>)
    ensures r.Some? <==> v.Some?
    ensures r.Some? && lo <= hi ==> lo <= r.value <= hi
    ensures v.Some? && lo <= v.value <= hi ==> r == v
  {
    match v
    case None => None
    case Some(x) => Some(if x < lo then lo else if x > hi then hi else x)
  }

  /**
   * The bounds `cap_outliers` clips to: the two quantiles of the present
   * values, put in increasing order as Series.clip does when they come
   * reversed. No present value: both quantiles are NaN and nothing is clipped.
   */
  function CapBounds(col: seq<Option<real>>, lowerP: real, upperP: real): (b: Option<(real, real)>)
    requires 0.0 <= lowerP <= 1.0 && 0.0 <= upperP <= 1.0
    ensures b.Some? <==> exists i :: 0 <= i < |col| && col[i].Some?
    ensures b.Some? ==> b.value.0 <= b.value.1
  {
    var vals := Present(col);
    assert (exists i :: 0 <= i < |col| && col[i].Some?) ==> |vals| > 0 by {
      if i :| 0 <= i < |col| && col[i].Some? {
        assert col[i].value in vals;
      }
    }
    assert |vals| > 0 ==> exists i :: 0 <= i < |col| && col[i].Some? by {
      if |vals| > 0 {
        assert Some(vals[0]) in col;
      }
    }
    if |vals| == 0 then None
    else
      var a := Stats.Quantile(vals, lowerP).value;
      var b := Stats.Quantile(vals, upperP).value;
      if a <= b then Some((a, b)) else Some((b, a))
  }

  /** The column after `cap_outliers`. */
  function CapSeries(col: seq<Option<real>>, lowerP: real, upperP: real): (r: seq<Option<real>>)
    requires 0.0 <= lowerP <= 1.0 && 0.0 <= upperP <= 1.0
    ensures |r| == |col|
  {
    match CapBounds(col, lowerP, upperP)
    case None => col
    case Some((lo, hi)) => seq(|col|, i requires 0 <= i < |col| => ClipCell(col[i], lo, hi))
  }

  /** col.fillna(col.mode()[0]), which raises when the mode is empty. */
  function FillWithMode(col: seq<Option<char>>, c: CatCol): (r: Result<seq<Option<char>>, CleanError>)
    ensures r.Success? ==> |r.value| == |col|
  {
    match Stats.Mode(Present(col))
    case None => Failure(EmptyMode(c))
    case Some(m) => Success(seq(|col|, i requires 0 <= i < |col| => if col[i].None? then Some(m) else col[i]))
  }

  // ---------------------------------------------------------------------
  // Whole frames
  // ---------------------------------------------------------------------

  /** The three per-column numeric operations. */
  datatype ColumnOp = Scrub | FillMedian | Cap(lowerP: real, upperP: real)

  predicate ValidOp(op: ColumnOp) {
    op.Cap? ==> 0.0 <= op.lowerP <= 1.0 && 0.0 <= op.upperP <= 1.0
  }

  function Transform(op: ColumnOp, col: seq<Option<real>>): (r: seq<Option<real>>)
    requires ValidOp(op)
    ensures |r| == |col|
  {
    match op
    case Scrub => ScrubNegatives(col)
    case FillMedian => FillWithMedian(col)
    case Cap(lowerP, upperP) => CapSeries(col, lowerP, upperP)
  }

  /** df[c] = op(df[c]). */
  function ApplyColumn(rows: seq<Trip>, op: ColumnOp, c: NumCol): (r: seq<Trip>)
    requires ValidOp(op)
    ensures |r| == |rows|
  {
    ReplaceColumn(rows, c, Transform(op, Column(rows, c)))
  }

  /** `for col in cols: df[col] = op(df[col])`, in list order. */
  function ApplyColumns(rows: seq<Trip>, op: ColumnOp, cols: seq<NumCol>): (r: seq<Trip>)
    requires ValidOp(op)
    ensures |r| == |rows|
    ensures forall i :: 0 <= i < |r| ==> r[i].pickup == rows[i].pickup
    ensures CatColumn(r, StoreAndFwdFlag) == CatColumn(rows, StoreAndFwdFlag)
    decreases |cols|
  {
    if cols == [] then rows
    else ApplyColumn(ApplyColumns(rows, op, cols[..|cols| - 1]), op, cols[|cols| - 1])
  }

  /** `df[c] = df[c].fillna(df[c].mode()[0])` on a frame. */
  function FillCategoricalColumn(rows: seq<Trip>, c: CatCol): Result<seq<Trip>, CleanError> {
    match FillWithMode(CatColumn(rows, c), c)
    case Failure(e) => Failure(e)
    case Success(col) => Success(ReplaceCatColumn(rows, c, col))
  }

  /** `fill_missing_categorical`: the columns in order; the first empty mode raises. */
  function FillCategorical(rows: seq<Trip>, cols: seq<CatCol>): Result<seq<Trip>, CleanError>
    decreases |cols|
  {
    if cols == [] then Success(rows)
    else
      match FillCategorical(rows, cols[..|cols| - 1])
      case Failure(e) => Failure(e)
      case Success(r) => FillCategoricalColumn(r, cols[|cols| - 1])
  }

  /** Step 1 of `preprocess_data`. */
  function Scrubbed(rows: seq<Trip>): seq<Trip> {
    ApplyColumns(rows, Scrub, NEGATIVE_COLS)
  }

  /** Steps 1 and 2 of `preprocess_data`. */
  function Imputed(rows: seq<Trip>): seq<Trip> {
    ApplyColumns(Scrubbed(rows), FillMedian, NUMERIC_COLS)
  }

  /** `preprocess_data`: scrub, impute numerics, impute categoricals, cap. */
  function Preprocess(rows: seq<Trip>): Result<seq<Trip>, CleanError> {
    match FillCategorical(Imputed(rows), CATEGORICAL_COLS)
    case Failure(e) => Failure(e)
    case Success(r) => Success(ApplyColumns(r, Cap(LOWER_PERCENTILE, UPPER_PERCENTILE), CAP_COLS))
  }

  // ---------------------------------------------------------------------
  // In place, as the source does it
  // ---------------------------------------------------------------------

  /** `df[c] = col`: every row's cell c overwritten. */
  method AssignColumn(a: array<Trip>, c: NumCol, col: seq<Option<real>>)
    requires |col| == a.Length
    modifies a
    ensures a[..] == ReplaceColumn(old(a[..]), c, col)
  {
    ghost var before := a[..];
    var i := 0;
    while i < a.Length
      invariant 0 <= i <= a.Length
      invariant forall k :: 0 <= k < i ==> a[k] == Set(before[k], c, col[k])
      invariant forall k :: i <= k < a.Length ==> a[k] == before[k]
    {
      a[i] := Set(a[i], c, col[i]);
      i := i + 1;
    }
  }

  /** `df.loc[df[c] < 0, c] = nan`: a missing value written over each negative cell of column c. */
  method MaskNegatives(a: array<Trip>, c: NumCol)
    modifies a
    ensures a[..] == ApplyColumn(old(a[..]), Scrub, c)
  {
    ghost var before := a[..];
    var i := 0;
    while i < a.Length
      invariant 0 <= i <= a.Length
      invariant forall k :: 0 <= k < i ==> a[k] == Set(before[k], c, ScrubCell(Get(before[k], c)))
      invariant forall k :: i <= k < a.Length ==> a[k] == before[k]
    {
      var v := Get(a[i], c);
      if v.Some? && v.value < 0.0 {
        a[i] := Set(a[i], c, None);
      } else {
        SetSameCell(a[i], c);
      }
      i := i + 1;
    }
  }

  /** `remove_negative_values`: the negatives of each listed column masked in turn. */
  method RemoveNegativeValues(a: array<Trip>, cols: seq<NumCol>)
    modifies a
    ensures a[..] == ApplyColumns(old(a[..]), Scrub, cols)
  {
    ghost var start := a[..];
    var j := 0;
    while j < |cols|
      invariant 0 <= j <= |cols|
      invariant a[..] == ApplyColumns(start, Scrub, cols[..j])
    {
      MaskNegatives(a, cols[j]);
      assert cols[..j + 1][..j] == cols[..j];
      j := j + 1;
    }
    assert cols[..j] == cols;
  }

  /** Writing a cell's own value back changes nothing. */
  lemma SetSameCell(t: Trip, c: NumCol)
    ensures Set(t, c, Get(t, c)) == t
  {
  }

  /** `fill_missing_numeric`: each listed column filled with its own median. */
  method FillMissingNumeric(a: array<Trip>, cols: seq<NumCol>)
    modifies a
    ensures a[..] == ApplyColumns(old(a[..]), FillMedian, cols)
  {
    ghost var start := a[..];
    var j := 0;
    while j < |cols|
      invariant 0 <= j <= |cols|
      invariant a[..] == ApplyColumns(start, FillMedian, cols[..j])
    {
      var filled := FillWithMedian(Column(a[..], cols[j]));
      AssignColumn(a, cols[j], filled);
      assert cols[..j + 1][..j] == cols[..j];
      j := j + 1;
    }
    assert cols[..j] == cols;
  }

  /** `fill_missing_categorical`; on an empty mode it stops, the earlier columns already filled. */
  method FillMissingCategorical(a: array<Trip>, cols: seq<CatCol>) returns (ok: bool)
    modifies a
    ensures ok <==> FillCategorical(old(a[..]), cols).Success?
    ensures ok ==> a[..] == FillCategorical(old(a[..]), cols).value
    ensures !ok ==> exists j :: 0 <= j < |cols| && FillCategorical(old(a[..]), cols[..j]) == Success(a[..])
                                && FillCategoricalColumn(a[..], cols[j]).Failure?
  {
    ghost var start := a[..];
    var j := 0;
    while j < |cols|
      invariant 0 <= j <= |cols|
      invariant FillCategorical(start, cols[..j]) == Success(a[..])
    {
      var c := cols[j];
      FillCategoricalExtend(start, cols, j, a[..]);
      var filled := FillWithMode(CatColumn(a[..], c), c);
      if filled.Failure? {
        FailureSticks(start, cols, j + 1);
        assert cols[..|cols|] == cols;
        return false;
      }
      AssignCatColumn(a, c, filled.value);
      j := j + 1;
    }
    assert cols[..j] == cols;
    return true;
  }

  /** `df[c] = col` for a categorical column. */
  method AssignCatColumn(a: array<Trip>, c: CatCol, col: seq<Option<char>>)
    requires |col| == a.Length
    modifies a
    ensures a[..] == ReplaceCatColumn(old(a[..]), c, col)
  {
    var i := 0;
    while i < a.Length
      invariant 0 <= i <= a.Length
      invariant forall k :: 0 <= k < i ==> a[k] == SetCat(old(a[k]), c, col[k])
      invariant forall k :: i <= k < a.Length ==> a[k] == old(a[k])
    {
      a[i] := SetCat(a[i], c, col[i]);
      i := i + 1;
    }
  }

  /** One more column extends a successful prefix by that column's fill. */
  lemma FillCategoricalExtend(rows: seq<Trip>, cols: seq<CatCol>, j: int, r: seq<Trip>)
    requires 0 <= j < |cols| && FillCategorical(rows, cols[..j]) == Success(r)
    ensures FillCategorical(rows, cols[..j + 1]) == FillCategoricalColumn(r, cols[j])
  {
    assert cols[..j + 1][..j] == cols[..j];
  }

  /** Once a prefix of the columns fails, every longer prefix fails too. */
  lemma {:induction false} FailureSticks(rows: seq<Trip>, cols: seq<CatCol>, j: nat)
    requires 0 < j <= |cols|
    requires FillCategorical(rows, cols[..j]).Failure?
    ensures FillCategorical(rows, cols).Failure?
    decreases |cols| - j
  {
    if j < |cols| {
      assert cols[..j + 1][..j] == cols[..j];
      FailureSticks(rows, cols, j + 1);
    } else {
      assert cols[..j] == cols;
    }
  }

  /** `cap_outliers(df, c, lowerP, upperP)`. */
  method CapOutliers(a: array<Trip>, c: NumCol, lowerP: real, upperP: real)
    requires 0.0 <= lowerP <= 1.0 && 0.0 <= upperP <= 1.0
    modifies a
    ensures a[..] == ApplyColumn(old(a[..]), Cap(lowerP, upperP), c)
  {
    var capped := CapSeries(Column(a[..], c), lowerP, upperP);
    AssignColumn(a, c, capped);
  }

  /** Step 4 of `preprocess_data`: `cap_outliers` on each listed column in turn. */
  method CapColumns(a: array<Trip>, cols: seq<NumCol>, lowerP: real, upperP: real)
    requires 0.0 <= lowerP <= 1.0 && 0.0 <= upperP <= 1.0
    modifies a
    ensures a[..] == ApplyColumns(old(a[..]), Cap(lowerP, upperP), cols)
  {
    ghost var start := a[..];
    var j := 0;
    while j < |cols|
      invariant 0 <= j <= |cols|
      invariant a[..] == ApplyColumns(start, Cap(lowerP, upperP), cols[..j])
    {
      CapOutliers(a, cols[j], lowerP, upperP);
      assert cols[..j + 1][..j] == cols[..j];
      j := j + 1;
    }
    assert cols[..j] == cols;
  }

  /**
   * `preprocess_data` on the caller's frame. When the categorical step
   * raises, the frame has already been scrubbed and numerically imputed.
   */
  method PreprocessData(a: array<Trip>) returns (ok: bool)
    modifies a
    ensures ok <==> Preprocess(old(a[..])).Success?
    ensures ok ==> a[..] == Preprocess(old(a[..])).value
    ensures !ok ==> a[..] == Imputed(old(a[..]))
  {
    ghost var start := a[..];
    RemoveNegativeValues(a, NEGATIVE_COLS);
    FillMissingNumeric(a, NUMERIC_COLS);
    ghost var imputed := a[..];
    ok := FillMissingCategorical(a, CATEGORICAL_COLS);
    if !ok {
      assert CATEGORICAL_COLS[..0] == [];
      return;
    }
    CapColumns(a, CAP_COLS, LOWER_PERCENTILE, UPPER_PERCENTILE);
  }
}
