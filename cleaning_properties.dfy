/**
 * What the cleaning steps of src/preprocessing.py guarantee: first of each
 * step on one column, then of `preprocess_data` as a whole.
 */
module CleaningProperties {
  import opened Wrappers
  import opened Trips
  import opened Preprocessing
  import Stats

  predicate HasPresent<T>(col: seq<Option<T>>) {
    exists i :: 0 <= i < |col| && col[i].Some?
  }

  lemma PresentNonEmpty<T(!new)>(col: seq<Option<T>>)
    ensures HasPresent(col) <==> |Present(col)| > 0
  {
    if HasPresent(col) {
      var i :| 0 <= i < |col| && col[i].Some?;
      assert col[i].value in Present(col);
    }
    if |Present(col)| > 0 {
      assert Some(Present(col)[0]) in col;
    }
  }

  // ---------------------------------------------------------------------
  // Negative-value scrubbing
  // ---------------------------------------------------------------------

  /** Scrubbing twice is scrubbing once. */
  lemma ScrubIdempotent(col: seq<Option<real>>)
    ensures ScrubNegatives(ScrubNegatives(col)) == ScrubNegatives(col)
  {
  }

  /** The present values left by scrubbing are exactly the non-negative originals, in order. */
  lemma {:induction false} ScrubbedPresent(col: seq<Option<real>>)
    ensures Present(ScrubNegatives(col)) == NonNegatives(Present(col))
  {
    if col != [] {
      var r := ScrubNegatives(col);
      assert r[0] == ScrubCell(col[0]);
      assert r[1..] == ScrubNegatives(col[1..]);
      ScrubbedPresent(col[1..]);
      var rest := NonNegatives(Present(col[1..]));
      if col[0].Some? {
        var p := Present(col);
        assert p == [col[0].value] + Present(col[1..]);
        assert p[0] == col[0].value && p[1..] == Present(col[1..]);
        if col[0].value >= 0.0 {
          assert NonNegatives(p) == [col[0].value] + rest;
          assert Present(r) == [col[0].value] + rest;
        } else {
          assert NonNegatives(p) == rest;
          assert Present(r) == rest;
        }
      } else {
        assert Present(col) == Present(col[1..]);
        assert Present(r) == rest;
      }
    }
  }

  // ---------------------------------------------------------------------
  // Median imputation
  // ---------------------------------------------------------------------

  /**
   * With some present value, every missing cell becomes the median of the
   * present values and nothing stays missing; with none, the column is
   * returned unchanged, still all missing.
   */
  lemma FillWithMedianSpec(col: seq<Option<real>>)
    ensures var r := FillWithMedian(col);
            HasPresent(col) ==>
              Stats.Median(Present(col)).Some?
              && (forall i :: 0 <= i < |col| ==> r[i].Some?)
              && (forall i :: 0 <= i < |col| && col[i].None? ==> r[i] == Stats.Median(Present(col)))
    ensures !HasPresent(col) ==> FillWithMedian(col) == col
  {
    PresentNonEmpty(col);
    FillCells(col, Stats.Median(Present(col)), FillWithMedian(col));
  }

  /** Filling the missing cells with v: nothing is left missing when v is present, nothing changes when it is not. */
  lemma FillCells<T>(col: seq<Option<T>>, v: Option<T>, r: seq<Option<T>>)
    requires |r| == |col| && forall i :: 0 <= i < |col| ==> r[i] == if col[i].None? then v else col[i]
    ensures v.Some? ==> forall i :: 0 <= i < |col| ==> r[i].Some?
    ensures v.None? ==> r == col
    ensures (forall i :: 0 <= i < |col| ==> col[i].Some?) ==> r == col
  {
  }

  /** A lower bound of every present value is one of every value after imputation. */
  lemma FillWithMedianAtLeast(col: seq<Option<real>>, lo: real)
    requires forall i :: 0 <= i < |col| && col[i].Some? ==> lo <= col[i].value
    ensures forall i :: 0 <= i < |col| && FillWithMedian(col)[i].Some?
              ==> lo <= FillWithMedian(col)[i].value
  {
    var vals := Present(col);
    if |vals| > 0 {
      Stats.MedianBetweenValues(vals);
      var k :| 0 <= k < |vals| && vals[k] <= Stats.Median(vals).value;
      assert Some(vals[k]) in col;
    }
  }

  /** Imputing an imputed column changes nothing. */
  lemma FillWithMedianIdempotent(col: seq<Option<real>>)
    ensures FillWithMedian(FillWithMedian(col)) == FillWithMedian(col)
  {
    FillWithMedianSpec(col);
    var r := FillWithMedian(col);
    if HasPresent(col) {
      FillCells(r, Stats.Median(Present(r)), FillWithMedian(r));
    }
  }

  // ---------------------------------------------------------------------
  // Categorical imputation
  // ---------------------------------------------------------------------

  /**
   * Filling with the mode raises exactly when no value is present; otherwise
   * no cell is left missing, present cells are kept and missing ones get the
   * smallest of the most frequent present values.
   */
  lemma FillWithModeSpec(col: seq<Option<char>>, c: CatCol)
    ensures FillWithMode(col, c).Failure? <==> !HasPresent(col)
    ensures FillWithMode(col, c).Success? ==>
              var r := FillWithMode(col, c).value;
              var vals := Present(col);
              var m := Stats.Mode(vals).value;
              && (forall i :: 0 <= i < |col| ==> r[i].Some?)
              && (forall i :: 0 <= i < |col| && col[i].Some? ==> r[i] == col[i])
              && (forall i :: 0 <= i < |col| && col[i].None? ==> r[i] == Some(m))
              && m in vals
              && (forall x :: x in vals ==> multiset(vals)[x] <= multiset(vals)[m])
              && (forall x :: x in vals && multiset(vals)[x] == multiset(vals)[m] ==> m <= x)
  {
    PresentNonEmpty(col);
  }

  // ---------------------------------------------------------------------
  // Outlier capping
  // ---------------------------------------------------------------------

  /**
   * Capping keeps missing cells missing and present cells present, puts every
   * present value inside the bounds, leaves values already inside unchanged
   * and never reverses the order of two values.
   */
  lemma CapSeriesSpec(col: seq<Option<real>>, lowerP: real, upperP: real)
    requires 0.0 <= lowerP <= 1.0 && 0.0 <= upperP <= 1.0
    ensures var r := CapSeries(col, lowerP, upperP);
            && (forall i :: 0 <= i < |col| ==> (r[i].Some? <==> col[i].Some?))
            && (CapBounds(col, lowerP, upperP).None? ==> r == col)
            && (CapBounds(col, lowerP, upperP).Some? ==>
                  var (lo, hi) := CapBounds(col, lowerP, upperP).value;
                  && (forall i :: 0 <= i < |col| && r[i].Some? ==> lo <= r[i].value <= hi)
                  && (forall i :: 0 <= i < |col| && col[i].Some? && lo <= col[i].value <= hi ==> r[i] == col[i]))
            && (forall i, j :: (0 <= i < |col| && 0 <= j < |col| && col[i].Some? && col[j].Some?
                  && col[i].value <= col[j].value) ==> r[i].value <= r[j].value)
  {
  }

  /** With the levels in order, the bounds are the lower and the upper quantile themselves. */
  lemma CapBoundsAreQuantiles(col: seq<Option<real>>, lowerP: real, upperP: real)
    requires 0.0 <= lowerP <= upperP <= 1.0
    requires HasPresent(col)
    ensures CapBounds(col, lowerP, upperP)
            == Some((Stats.Quantile(Present(col), lowerP).value, Stats.Quantile(Present(col), upperP).value))
  {
    PresentNonEmpty(col);
    Stats.QuantileMonotone(Present(col), lowerP, upperP);
  }

  /**
   * `cap_outliers` at the levels `preprocess_data` uses, on a column of two
   * values a <= b: both move a hundredth of the gap towards each other.
   */
  lemma CapTwoValues(col: seq<Option<real>>, a: real, b: real)
    requires |col| == 2 && col[0] == Some(a) && col[1] == Some(b) && a <= b
    ensures var r := CapSeries(col, 0.01, 0.99);
            |r| == 2 && r[0] == Some(a + (b - a) / 100.0) && r[1] == Some(b - (b - a) / 100.0)
  {
    var lo, hi := a + (b - a) / 100.0, b - (b - a) / 100.0;
    assert col == [Some(a), Some(b)];
    CapBoundsOfTwo(a, b);
    assert ClipCell(col[0], lo, hi) == Some(lo);
    assert ClipCell(col[1], lo, hi) == Some(hi);
  }

  lemma CapBoundsOfTwo(a: real, b: real)
    requires a <= b
    ensures CapBounds([Some(a), Some(b)], 0.01, 0.99) == Some((a + (b - a) / 100.0, b - (b - a) / 100.0))
  {
    var col := [Some(a), Some(b)];
    assert col[0].Some?;
    CapBoundsAreQuantiles(col, 0.01, 0.99);
    PresentOfTwo(a, b);
    QuantileOfTwo(a, b, 0.01);
    QuantileOfTwo(a, b, 0.99);
    assert Stats.Lerp(a, b, 0.01) == a + (b - a) / 100.0;
    assert Stats.Lerp(a, b, 0.99) == b - (b - a) / 100.0;
  }

  lemma PresentOfTwo(a: real, b: real)
    ensures Present([Some(a), Some(b)]) == [a, b]
  {
    var col := [Some(a), Some(b)];
    assert col[1..] == [Some(b)] && col[1..][1..] == [];
  }

  /** The q-quantile of two values a <= b, for q below 1, is a + q (b - a). */
  lemma QuantileOfTwo(a: real, b: real, q: real)
    requires a <= b && 0.0 <= q < 1.0
    ensures Stats.Quantile([a, b], q) == Some(Stats.Lerp(a, b, q))
  {
    SortTwo(a, b);
    InterpolateTwo(a, b, q);
    assert |[a, b]| == 2 && Stats.Rank(2, q) == q;
  }

  lemma InterpolateTwo(a: real, b: real, h: real)
    requires 0.0 <= h < 1.0
    ensures Stats.Interpolate([a, b], h) == Stats.Lerp(a, b, h)
  {
    assert h.Floor == 0;
  }

  lemma SortTwo(a: real, b: real)
    requires a <= b
    ensures Stats.SortReals([a, b]) == [a, b]
  {
    assert [a, b][1..] == [b];
    assert [b][1..] == [];
    assert Stats.SortReals([b]) == Stats.InsertSorted(b, []);
  }

  /**
   * Capping is not idempotent: the quantiles are taken afresh on every call,
   * so a second pass over a capped column with two distinct values moves
   * them again.
   */
  lemma CapNotIdempotent(a: real, b: real)
    requires a < b
    ensures var once := CapSeries([Some(a), Some(b)], 0.01, 0.99);
            CapSeries(once, 0.01, 0.99)[0] != once[0]
  {
    var lo, hi := a + (b - a) / 100.0, b - (b - a) / 100.0;
    var once := CapSeries([Some(a), Some(b)], 0.01, 0.99);
    CapTwoValues([Some(a), Some(b)], a, b);
    CapTwoValues(once, lo, hi);
  }

  /** A lower bound of every present value is one after capping. */
  lemma CapSeriesAtLeast(col: seq<Option<real>>, lowerP: real, upperP: real, lo: real)
    requires 0.0 <= lowerP <= 1.0 && 0.0 <= upperP <= 1.0
    requires forall i :: 0 <= i < |col| && col[i].Some? ==> lo <= col[i].value
    ensures forall i :: 0 <= i < |col| && CapSeries(col, lowerP, upperP)[i].Some?
              ==> lo <= CapSeries(col, lowerP, upperP)[i].value
  {
    var b := CapBounds(col, lowerP, upperP);
    if b.Some? {
      CapBoundsAtLeast(col, lowerP, upperP, lo);
      var (l, h) := b.value;
      var r := CapSeries(col, lowerP, upperP);
      forall i | 0 <= i < |col| && r[i].Some? ensures lo <= r[i].value {
        assert r[i] == ClipCell(col[i], l, h);
      }
    }
  }

  /** A lower bound of every present value bounds the lower clip bound too. */
  lemma CapBoundsAtLeast(col: seq<Option<real>>, lowerP: real, upperP: real, lo: real)
    requires 0.0 <= lowerP <= 1.0 && 0.0 <= upperP <= 1.0
    requires forall i :: 0 <= i < |col| && col[i].Some? ==> lo <= col[i].value
    ensures CapBounds(col, lowerP, upperP).Some? ==> lo <= CapBounds(col, lowerP, upperP).value.0
  {
    var vals := Present(col);
    if |vals| > 0 {
      var qa := Stats.Quantile(vals, lowerP).value;
      var qb := Stats.Quantile(vals, upperP).value;
      Stats.QuantileBetweenValues(vals, lowerP);
      Stats.QuantileBetweenValues(vals, upperP);
      var k1 :| 0 <= k1 < |vals| && vals[k1] <= qa;
      var k2 :| 0 <= k2 < |vals| && vals[k2] <= qb;
      assert Some(vals[k1]) in col;
      assert Some(vals[k2]) in col;
    }
  }



  // ---------------------------------------------------------------------
  // Whole frames
  // ---------------------------------------------------------------------

  /** After a column pass over distinct columns, a listed column holds the transformed original. */
  lemma {:induction false} ColumnAfterPasses(rows: seq<Trip>, op: ColumnOp, cols: seq<NumCol>, c: NumCol)
    requires ValidOp(op) && NoDuplicates(cols)
    ensures Column(ApplyColumns(rows, op, cols), c)
            == if c in cols then Transform(op, Column(rows, c)) else Column(rows, c)
    decreases |cols|
  {
    if cols != [] {
      var init := cols[..|cols| - 1];
      var d := cols[|cols| - 1];
      assert cols == init + [d];
      ColumnAfterPasses(rows, op, init, c);
      var prev := ApplyColumns(rows, op, init);
      if d == c {
        assert c !in init;
      } else {
        ReplaceColumnKeepsOthers(prev, d, Transform(op, Column(prev, d)), c);
      }
    }
  }

  /**
   * The same for `remove_negative_values` over any list: scrubbing is
   * idempotent, so a column listed twice ends up scrubbed once.
   */
  lemma {:induction false} ColumnAfterScrubs(rows: seq<Trip>, cols: seq<NumCol>, c: NumCol)
    ensures Column(ApplyColumns(rows, Scrub, cols), c)
            == if c in cols then ScrubNegatives(Column(rows, c)) else Column(rows, c)
    decreases |cols|
  {
    if cols != [] {
      var init := cols[..|cols| - 1];
      var d := cols[|cols| - 1];
      assert cols == init + [d];
      ColumnAfterScrubs(rows, init, c);
      var prev := ApplyColumns(rows, Scrub, init);
      if d == c {
        if c in init {
          ScrubIdempotent(Column(rows, c));
        }
      } else {
        ReplaceColumnKeepsOthers(prev, d, Transform(Scrub, Column(prev, d)), c);
      }
    }
  }

  /** Two frames with the same rows count, columns and pickups are the same frame. */
  lemma SameFrame(r1: seq<Trip>, r2: seq<Trip>)
    requires |r1| == |r2|
    requires forall c :: Column(r1, c) == Column(r2, c)
    requires CatColumn(r1, StoreAndFwdFlag) == CatColumn(r2, StoreAndFwdFlag)
    requires forall i :: 0 <= i < |r1| ==> r1[i].pickup == r2[i].pickup
    ensures r1 == r2
  {
    forall i | 0 <= i < |r1| ensures r1[i] == r2[i] {
      assert Column(r1, TripDistance)[i] == Column(r2, TripDistance)[i];
      assert Column(r1, FareAmount)[i] == Column(r2, FareAmount)[i];
      assert Column(r1, TotalAmount)[i] == Column(r2, TotalAmount)[i];
      assert Column(r1, PassengerCount)[i] == Column(r2, PassengerCount)[i];
      assert Column(r1, CongestionSurcharge)[i] == Column(r2, CongestionSurcharge)[i];
      assert Column(r1, AirportFee)[i] == Column(r2, AirportFee)[i];
      assert Column(r1, RatecodeId)[i] == Column(r2, RatecodeId)[i];
      assert CatColumn(r1, StoreAndFwdFlag)[i] == CatColumn(r2, StoreAndFwdFlag)[i];
    }
  }

  /**
   * `remove_negative_values` on a frame: no listed column holds a negative
   * value; negatives became missing; other cells of the listed columns, the
   * other columns, the row count and the pickups are unchanged.
   */
  lemma RemoveNegativesSpec(rows: seq<Trip>, cols: seq<NumCol>)
    ensures var out := ApplyColumns(rows, Scrub, cols);
            && |out| == |rows|
            && (forall i :: 0 <= i < |rows| ==> out[i].pickup == rows[i].pickup)
            && (forall i, c :: 0 <= i < |rows| && c in cols && Get(out[i], c).Some? ==> Get(out[i], c).value >= 0.0)
            && (forall i, c :: 0 <= i < |rows| && c in cols && Get(rows[i], c).Some? && Get(rows[i], c).value < 0.0
                  ==> Get(out[i], c).None?)
            && (forall i, c :: 0 <= i < |rows| && c in cols && (Get(rows[i], c).None? || Get(rows[i], c).value >= 0.0)
                  ==> Get(out[i], c) == Get(rows[i], c))
            && (forall c :: c !in cols ==> Column(out, c) == Column(rows, c))
  {
    var out := ApplyColumns(rows, Scrub, cols);
    forall c
      ensures c in cols ==> ScrubbedRows(rows, out, c)
      ensures c !in cols ==> Column(out, c) == Column(rows, c)
    {
      ColumnAfterScrubs(rows, cols, c);
      if c in cols {
        ScrubbedRowsFromColumn(rows, out, c);
      }
    }
  }

  /** Row by row, column c of out is column c of rows with negatives masked. */
  predicate ScrubbedRows(rows: seq<Trip>, out: seq<Trip>, c: NumCol)
    requires |out| == |rows|
  {
    && (forall i :: 0 <= i < |rows| && Get(out[i], c).Some? ==> Get(out[i], c).value >= 0.0)
    && (forall i :: 0 <= i < |rows| && Get(rows[i], c).Some? && Get(rows[i], c).value < 0.0 ==> Get(out[i], c).None?)
    && (forall i :: 0 <= i < |rows| && (Get(rows[i], c).None? || Get(rows[i], c).value >= 0.0)
          ==> Get(out[i], c) == Get(rows[i], c))
  }

  lemma ScrubbedRowsFromColumn(rows: seq<Trip>, out: seq<Trip>, c: NumCol)
    requires |out| == |rows| && Column(out, c) == ScrubNegatives(Column(rows, c))
    ensures ScrubbedRows(rows, out, c)
  {
    var before, after := Column(rows, c), Column(out, c);
    assert forall i :: 0 <= i < |rows| ==> before[i] == Get(rows[i], c) && after[i] == Get(out[i], c);
  }

  /** Applying `remove_negative_values` twice equals applying it once. */
  lemma RemoveNegativesIdempotent(rows: seq<Trip>, cols: seq<NumCol>)
    ensures ApplyColumns(ApplyColumns(rows, Scrub, cols), Scrub, cols) == ApplyColumns(rows, Scrub, cols)
  {
    var once := ApplyColumns(rows, Scrub, cols);
    var twice := ApplyColumns(once, Scrub, cols);
    forall c ensures Column(twice, c) == Column(once, c) {
      ColumnAfterScrubs(rows, cols, c);
      ColumnAfterScrubs(once, cols, c);
      ScrubIdempotent(Column(rows, c));
    }
    SameFrame(twice, once);
  }

  /** A column after step 1 of `preprocess_data`. */
  lemma ScrubbedColumn(rows: seq<Trip>, c: NumCol)
    ensures Column(Scrubbed(rows), c)
            == if c in NEGATIVE_COLS then ScrubNegatives(Column(rows, c)) else Column(rows, c)
  {
    ColumnAfterPasses(rows, Scrub, NEGATIVE_COLS, c);
  }

  /** A column after the imputation pass of step 2. */
  lemma FillPassColumn(s1: seq<Trip>, c: NumCol)
    ensures Column(ApplyColumns(s1, FillMedian, NUMERIC_COLS), c)
            == if c in NUMERIC_COLS then FillWithMedian(Column(s1, c)) else Column(s1, c)
  {
    ColumnAfterPasses(s1, FillMedian, NUMERIC_COLS, c);
  }

  /** A column after steps 1 and 2 of `preprocess_data`. */
  lemma ImputedColumn(rows: seq<Trip>, c: NumCol)
    ensures var scrubbed := if c in NEGATIVE_COLS then ScrubNegatives(Column(rows, c)) else Column(rows, c);
            Column(Imputed(rows), c) == if c in NUMERIC_COLS then FillWithMedian(scrubbed) else scrubbed
  {
    ScrubbedColumn(rows, c);
    FillPassColumn(Scrubbed(rows), c);
  }

  /** Step 4 of `preprocess_data` applies to what step 3 returned. */
  lemma PreprocessUnfold(rows: seq<Trip>)
    ensures Preprocess(rows).Success? <==> FillCategorical(Imputed(rows), CATEGORICAL_COLS).Success?
    ensures Preprocess(rows).Success? ==>
              Preprocess(rows).value
              == ApplyColumns(FillCategorical(Imputed(rows), CATEGORICAL_COLS).value,
                              Cap(LOWER_PERCENTILE, UPPER_PERCENTILE), CAP_COLS)
  {
  }

  /** The categorical step on the one categorical column. */
  lemma FillCategoricalSingle(s2: seq<Trip>)
    ensures FillCategorical(s2, CATEGORICAL_COLS) == FillCategoricalColumn(s2, StoreAndFwdFlag)
  {
    assert CATEGORICAL_COLS[..0] == [];
  }

  /** Step 3 raises exactly when the flag mode is empty, and otherwise changes only the flag column. */
  lemma CategoricalStep(s2: seq<Trip>)
    ensures FillCategorical(s2, CATEGORICAL_COLS).Success?
            <==> FillWithMode(CatColumn(s2, StoreAndFwdFlag), StoreAndFwdFlag).Success?
    ensures FillCategorical(s2, CATEGORICAL_COLS).Success? ==>
              var s3 := FillCategorical(s2, CATEGORICAL_COLS).value;
              && |s3| == |s2|
              && (forall i :: 0 <= i < |s2| ==> s3[i].pickup == s2[i].pickup)
              && (forall c :: Column(s3, c) == Column(s2, c))
              && FillWithMode(CatColumn(s2, StoreAndFwdFlag), StoreAndFwdFlag) == Success(CatColumn(s3, StoreAndFwdFlag))
  {
    FillCategoricalSingle(s2);
  }

  /** A column after the capping pass of step 4. */
  lemma CapPassColumn(s3: seq<Trip>, c: NumCol)
    ensures Column(ApplyColumns(s3, Cap(LOWER_PERCENTILE, UPPER_PERCENTILE), CAP_COLS), c)
            == if c in CAP_COLS then CapSeries(Column(s3, c), LOWER_PERCENTILE, UPPER_PERCENTILE)
               else Column(s3, c)
  {
    ColumnAfterPasses(s3, Cap(LOWER_PERCENTILE, UPPER_PERCENTILE), CAP_COLS, c);
  }

  /** A numeric column after a successful `preprocess_data`, from the one after step 2. */
  lemma CappedColumn(rows: seq<Trip>, c: NumCol)
    requires SomeFlag(rows)
    ensures Preprocess(rows).Success?
    ensures Column(Preprocess(rows).value, c)
            == if c in CAP_COLS then CapSeries(Column(Imputed(rows), c), LOWER_PERCENTILE, UPPER_PERCENTILE)
               else Column(Imputed(rows), c)
  {
    FlaggedSucceeds(rows);
    PreprocessUnfold(rows);
    var s2 := Imputed(rows);
    CategoricalStep(s2);
    CapPassColumn(FillCategorical(s2, CATEGORICAL_COLS).value, c);
  }

  /** Rows, pickups and the flag column around `preprocess_data`. */
  lemma PreprocessShape(rows: seq<Trip>)
    ensures Preprocess(rows).Success? <==> FillWithMode(CatColumn(rows, StoreAndFwdFlag), StoreAndFwdFlag).Success?
    ensures Preprocess(rows).Success? ==>
              var out := Preprocess(rows).value;
              && |out| == |rows|
              && (forall i :: 0 <= i < |rows| ==> out[i].pickup == rows[i].pickup)
              && FillWithMode(CatColumn(rows, StoreAndFwdFlag), StoreAndFwdFlag) == Success(CatColumn(out, StoreAndFwdFlag))
  {
    PreprocessUnfold(rows);
    var s2 := Imputed(rows);
    assert CatColumn(s2, StoreAndFwdFlag) == CatColumn(rows, StoreAndFwdFlag);
    CategoricalStep(s2);
  }

  /** Filling by mode fails exactly on a column with nothing present, and otherwise leaves nothing missing. */
  lemma FillWithModeTotal(col: seq<Option<char>>, c: CatCol)
    ensures FillWithMode(col, c).Failure? <==> !HasPresent(col)
    ensures FillWithMode(col, c).Success? ==> forall i :: 0 <= i < |col| ==> FillWithMode(col, c).value[i].Some?
  {
    PresentNonEmpty(col);
  }

  /** `preprocess_data` raises exactly when the flag column has nothing present. */
  lemma PreprocessFailsIffFlagsMissing(rows: seq<Trip>)
    ensures Preprocess(rows).Failure? <==> !HasPresent(CatColumn(rows, StoreAndFwdFlag))
  {
    PreprocessShape(rows);
    FillWithModeTotal(CatColumn(rows, StoreAndFwdFlag), StoreAndFwdFlag);
  }

  lemma FlagsMissing(rows: seq<Trip>)
    ensures !HasPresent(CatColumn(rows, StoreAndFwdFlag)) <==> forall i :: 0 <= i < |rows| ==> rows[i].storeAndFwdFlag.None?
  {
    var flags := CatColumn(rows, StoreAndFwdFlag);
    assert forall i :: 0 <= i < |rows| ==> flags[i] == rows[i].storeAndFwdFlag;
  }

  /** `preprocess_data` raises exactly when no row has a store_and_fwd_flag. */
  lemma PreprocessFailsIffNoFlag(rows: seq<Trip>)
    ensures Preprocess(rows).Failure? <==> forall i :: 0 <= i < |rows| ==> rows[i].storeAndFwdFlag.None?
  {
    PreprocessFailsIffFlagsMissing(rows);
    FlagsMissing(rows);
  }

  /** Some row carries a store_and_fwd_flag. */
  predicate SomeFlag(rows: seq<Trip>) {
    exists i :: 0 <= i < |rows| && rows[i].storeAndFwdFlag.Some?
  }

  /** With one flag present, `preprocess_data` does not raise. */
  lemma FlaggedSucceeds(rows: seq<Trip>)
    requires SomeFlag(rows)
    ensures Preprocess(rows).Success?
  {
    PreprocessFailsIffNoFlag(rows);
  }

  /** A `preprocess_data` that does not raise had a flag to fill with. */
  lemma SucceedsFlagged(rows: seq<Trip>)
    requires Preprocess(rows).Success?
    ensures SomeFlag(rows)
  {
    PreprocessFailsIffNoFlag(rows);
  }

  /** `preprocess_data` never drops or reorders rows, and leaves the pickup times alone. */
  lemma PreprocessKeepsRows(rows: seq<Trip>)
    requires SomeFlag(rows)
    ensures Preprocess(rows).Success?
    ensures |Preprocess(rows).value| == |rows|
    ensures forall i :: 0 <= i < |rows| ==> Preprocess(rows).value[i].pickup == rows[i].pickup
  {
    FlaggedSucceeds(rows);
    PreprocessShape(rows);
  }

  /** A scrubbed column holds no negative value at the end of `preprocess_data`. */
  lemma ScrubbedColumnStaysNonNegative(rows: seq<Trip>, c: NumCol)
    requires SomeFlag(rows) && c in NEGATIVE_COLS
    ensures Preprocess(rows).Success?
    ensures var col := Column(Preprocess(rows).value, c);
            forall i :: 0 <= i < |col| && col[i].Some? ==> col[i].value >= 0.0
  {
    FlaggedSucceeds(rows);
    assert c in CAP_COLS;
    ImputedColumn(rows, c);
    CappedColumn(rows, c);
    NonNegativeThroughCleaning(Column(rows, c), c in NUMERIC_COLS);
  }

  /** A scrubbed column, median-filled or not, and then capped, holds no negative value. */
  lemma NonNegativeThroughCleaning(col: seq<Option<real>>, fill: bool)
    ensures var scrubbed := ScrubNegatives(col);
            var imputed := if fill then FillWithMedian(scrubbed) else scrubbed;
            var capped := CapSeries(imputed, LOWER_PERCENTILE, UPPER_PERCENTILE);
            forall i :: 0 <= i < |capped| && capped[i].Some? ==> capped[i].value >= 0.0
  {
    var scrubbed := ScrubNegatives(col);
    var imputed := if fill then FillWithMedian(scrubbed) else scrubbed;
    FillWithMedianAtLeast(scrubbed, 0.0);
    CapSeriesAtLeast(imputed, LOWER_PERCENTILE, UPPER_PERCENTILE, 0.0);
  }


  /** A column without negative values read row by row. */
  lemma RowsNonNegative(rows: seq<Trip>, c: NumCol)
    requires var col := Column(rows, c);
             forall i :: 0 <= i < |col| && col[i].Some? ==> col[i].value >= 0.0
    ensures forall i :: 0 <= i < |rows| && Get(rows[i], c).Some? ==> Get(rows[i], c).value >= 0.0
  {
    var col := Column(rows, c);
    assert forall i :: 0 <= i < |rows| ==> col[i] == Get(rows[i], c);
  }

  /** After `preprocess_data`, no scrubbed column holds a negative value. */
  lemma PreprocessNoNegatives(rows: seq<Trip>)
    requires SomeFlag(rows)
    ensures Preprocess(rows).Success?
    ensures var out := Preprocess(rows).value;
            forall i, c :: 0 <= i < |out| && c in NEGATIVE_COLS && Get(out[i], c).Some? ==> Get(out[i], c).value >= 0.0
  {
    FlaggedSucceeds(rows);
    var out := Preprocess(rows).value;
    forall c | c in NEGATIVE_COLS
      ensures forall i :: 0 <= i < |out| && Get(out[i], c).Some? ==> Get(out[i], c).value >= 0.0
    {
      ScrubbedColumnStaysNonNegative(rows, c);
      RowsNonNegative(out, c);
    }
  }

  /** The flag column of a successful `preprocess_data` has no missing entry. */
  lemma PreprocessFlagColumn(rows: seq<Trip>)
    requires SomeFlag(rows)
    ensures Preprocess(rows).Success?
    ensures var flags := CatColumn(Preprocess(rows).value, StoreAndFwdFlag);
            forall i :: 0 <= i < |flags| ==> flags[i].Some?
  {
    FlaggedSucceeds(rows);
    PreprocessShape(rows);
    FillWithModeTotal(CatColumn(rows, StoreAndFwdFlag), StoreAndFwdFlag);
  }

  /** A flag column without missing entries, read row by row. */
  lemma RowsFlagged(rows: seq<Trip>)
    requires var flags := CatColumn(rows, StoreAndFwdFlag);
             forall i :: 0 <= i < |flags| ==> flags[i].Some?
    ensures forall i :: 0 <= i < |rows| ==> rows[i].storeAndFwdFlag.Some?
  {
    var flags := CatColumn(rows, StoreAndFwdFlag);
    assert forall i :: 0 <= i < |rows| ==> flags[i] == rows[i].storeAndFwdFlag;
  }

  /** The flag column has no missing entry after a successful `preprocess_data`. */
  lemma PreprocessFlagPresent(rows: seq<Trip>)
    requires SomeFlag(rows)
    ensures Preprocess(rows).Success?
    ensures forall i :: 0 <= i < |Preprocess(rows).value| ==> Preprocess(rows).value[i].storeAndFwdFlag.Some?
  {
    FlaggedSucceeds(rows);
    PreprocessFlagColumn(rows);
    RowsFlagged(Preprocess(rows).value);
  }

  /**
   * Along one numeric column of `preprocess_data`: once one usable value is
   * present, filling leaves nothing missing and capping keeps it so.
   */
  lemma NumericColumnPresent(col: seq<Option<real>>, scrub: bool, j: int)
    requires 0 <= j < |col| && col[j].Some? && (scrub ==> col[j].value >= 0.0)
    ensures var filled := FillWithMedian(if scrub then ScrubNegatives(col) else col);
            && (forall i :: 0 <= i < |col| ==> filled[i].Some?)
            && (forall i :: 0 <= i < |col| ==> CapSeries(filled, LOWER_PERCENTILE, UPPER_PERCENTILE)[i].Some?)
  {
    var s := if scrub then ScrubNegatives(col) else col;
    assert s[j] == col[j];
    FillWithMedianSpec(s);
    CapKeepsPresence(FillWithMedian(s), LOWER_PERCENTILE, UPPER_PERCENTILE);
  }

  /** Clipping neither fills a missing cell nor empties a present one. */
  lemma CapKeepsPresence(col: seq<Option<real>>, lowerP: real, upperP: real)
    requires 0.0 <= lowerP <= 1.0 && 0.0 <= upperP <= 1.0
    ensures forall i :: 0 <= i < |col| ==> (CapSeries(col, lowerP, upperP)[i].Some? <==> col[i].Some?)
  {
    var r := CapSeries(col, lowerP, upperP);
    match CapBounds(col, lowerP, upperP)
    case None =>
    case Some((lo, hi)) =>
      forall i | 0 <= i < |col| ensures r[i].Some? <==> col[i].Some? {
        assert r[i] == ClipCell(col[i], lo, hi);
      }
  }

  /** A column without missing entries, read row by row. */
  lemma RowsPresent(rows: seq<Trip>, c: NumCol)
    requires var col := Column(rows, c);
             forall i :: 0 <= i < |col| ==> col[i].Some?
    ensures forall i :: 0 <= i < |rows| ==> Get(rows[i], c).Some?
  {
    var col := Column(rows, c);
    assert forall i :: 0 <= i < |rows| ==> col[i] == Get(rows[i], c);
  }

  /**
   * An imputed numeric column is missing nowhere after `preprocess_data`
   * once one usable value was present: any value for a column that is not
   * scrubbed, a non-negative one for fare_amount and total_amount.
   */
  lemma ImputedColumnPresent(rows: seq<Trip>, c: NumCol, j: int)
    requires SomeFlag(rows) && c in NUMERIC_COLS
    requires 0 <= j < |rows| && Get(rows[j], c).Some?
    requires c in NEGATIVE_COLS ==> Get(rows[j], c).value >= 0.0
    ensures Preprocess(rows).Success?
    ensures forall i :: 0 <= i < |rows| ==> Get(Preprocess(rows).value[i], c).Some?
  {
    FlaggedSucceeds(rows);
    var out := Preprocess(rows).value;
    PreprocessKeepsRows(rows);
    ImputedColumn(rows, c);
    CappedColumn(rows, c);
    var col := Column(rows, c);
    assert col[j] == Get(rows[j], c);
    NumericColumnPresent(col, c in NEGATIVE_COLS, j);
    RowsPresent(out, c);
  }

  /** trip_distance at the end of `preprocess_data`: scrubbed, then capped, never imputed. */
  lemma PreprocessDistanceColumn(rows: seq<Trip>)
    requires SomeFlag(rows)
    ensures Preprocess(rows).Success?
    ensures Column(Preprocess(rows).value, TripDistance)
            == CapSeries(ScrubNegatives(Column(rows, TripDistance)), LOWER_PERCENTILE, UPPER_PERCENTILE)
  {
    FlaggedSucceeds(rows);
    ImputedDistance(rows);
    assert TripDistance in CAP_COLS;
    CappedColumn(rows, TripDistance);
  }

  /** trip_distance after steps 1 and 2: scrubbed, not imputed. */
  lemma ImputedDistance(rows: seq<Trip>)
    ensures Column(Imputed(rows), TripDistance) == ScrubNegatives(Column(rows, TripDistance))
  {
    assert TripDistance in NEGATIVE_COLS && TripDistance !in NUMERIC_COLS;
    ImputedColumn(rows, TripDistance);
  }

  /** After scrubbing and capping, a cell is present exactly when it was present and not negative. */
  lemma ScrubCapPresence(col: seq<Option<real>>)
    ensures var r := CapSeries(ScrubNegatives(col), LOWER_PERCENTILE, UPPER_PERCENTILE);
            |r| == |col| && forall i :: 0 <= i < |col| ==> (r[i].Some? <==> col[i].Some? && col[i].value >= 0.0)
  {
    CapKeepsPresence(ScrubNegatives(col), LOWER_PERCENTILE, UPPER_PERCENTILE);
  }

  /**
   * trip_distance is scrubbed and capped but never imputed: after
   * `preprocess_data` a distance is present exactly when it was present and
   * not negative, so a negative distance stays missing.
   */
  lemma PreprocessDistanceNotImputed(rows: seq<Trip>)
    requires SomeFlag(rows)
    ensures Preprocess(rows).Success?
    ensures var out := Preprocess(rows).value;
            forall i :: 0 <= i < |out| ==>
              (Get(out[i], TripDistance).Some?
               <==> Get(rows[i], TripDistance).Some? && Get(rows[i], TripDistance).value >= 0.0)
  {
    FlaggedSucceeds(rows);
    var out := Preprocess(rows).value;
    PreprocessDistanceColumn(rows);
    var col := Column(rows, TripDistance);
    ScrubCapPresence(col);
    var capped := Column(out, TripDistance);
    forall i | 0 <= i < |out|
      ensures Get(out[i], TripDistance).Some?
              <==> Get(rows[i], TripDistance).Some? && Get(rows[i], TripDistance).value >= 0.0
    {
      assert capped[i] == Get(out[i], TripDistance);
      assert col[i] == Get(rows[i], TripDistance);
    }
  }

  /** A missing cell of a column with no negative value is filled with a median that is not negative. */
  lemma FillMissingCell(col: seq<Option<real>>, i: int)
    requires 0 <= i < |col| && col[i].None? && HasPresent(col)
    requires forall k :: 0 <= k < |col| && col[k].Some? ==> col[k].value >= 0.0
    ensures var r := FillWithMedian(col);
            r[i] == Stats.Median(Present(col)) && r[i].Some? && r[i].value >= 0.0
  {
    FillWithMedianSpec(col);
    FillWithMedianAtLeast(col, 0.0);
  }

  /**
   * Scrubbing then median filling turns a missing or negative cell into the
   * median of the non-negative values, itself not negative, once one exists.
   */
  lemma ScrubFillCell(col: seq<Option<real>>, i: int)
    requires 0 <= i < |col| && (col[i].None? || col[i].value < 0.0)
    requires exists j :: 0 <= j < |col| && col[j].Some? && col[j].value >= 0.0
    ensures var r := FillWithMedian(ScrubNegatives(col));
            r[i] == Stats.Median(NonNegatives(Present(col))) && r[i].Some? && r[i].value >= 0.0
  {
    var scrubbed := ScrubNegatives(col);
    ScrubbedPresent(col);
    var j :| 0 <= j < |col| && col[j].Some? && col[j].value >= 0.0;
    assert scrubbed[j] == col[j];
    FillMissingCell(scrubbed, i);
  }

  /**
   * The median that fills fare_amount and total_amount is taken after
   * scrubbing: a fare that was missing or negative becomes the median of the
   * non-negative original fares, which is itself not negative.
   */
  lemma ImputedFromNonNegatives(rows: seq<Trip>, c: NumCol, i: int)
    requires c == FareAmount || c == TotalAmount
    requires 0 <= i < |rows|
    requires Get(rows[i], c).None? || Get(rows[i], c).value < 0.0
    requires exists j :: 0 <= j < |rows| && Get(rows[j], c).Some? && Get(rows[j], c).value >= 0.0
    ensures Get(Imputed(rows)[i], c) == Stats.Median(NonNegatives(Present(Column(rows, c))))
    ensures Get(Imputed(rows)[i], c).Some? && Get(Imputed(rows)[i], c).value >= 0.0
  {
    ImputedColumn(rows, c);
    var col := Column(rows, c);
    var j :| 0 <= j < |rows| && Get(rows[j], c).Some? && Get(rows[j], c).value >= 0.0;
    assert col[j] == Get(rows[j], c);
    assert col[i] == Get(rows[i], c);
    ScrubFillCell(col, i);
    assert Column(Imputed(rows), c)[i] == Get(Imputed(rows)[i], c);
  }
}
