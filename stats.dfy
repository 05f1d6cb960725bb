/**
 * The column statistics the cleaning steps take from pandas: median, the
 * linearly interpolated quantile and the mode. They are given explicit
 * definitions here; missing entries are skipped before they are called.
 */
module Stats {
  import opened Wrappers

  predicate Sorted(s: seq<real>) {
    forall i, j :: 0 <= i <= j < |s| ==> s[i] <= s[j]
  }

  /** Inserts x before the first element of s that is not below it. */
  function InsertSorted(x: real, s: seq<real>): (r: seq<real>)
    ensures multiset(r) == multiset(s) + multiset{x}
    ensures |r| == |s| + 1
    ensures r[0] == if s == [] || x <= s[0] then x else s[0]
  {
    if s == [] then [x]
    else if x <= s[0] then [x] + s
    else
      assert s == [s[0]] + s[1..];
      [s[0]] + InsertSorted(x, s[1..])
  }

  /** A value no larger than the head of a sorted sequence can go in front of it. */
  lemma ConsSorted(a: real, t: seq<real>)
    requires Sorted(t) && (t != [] ==> a <= t[0])
    ensures Sorted([a] + t)
  {
    var r := [a] + t;
    forall i, j | 0 <= i <= j < |r| ensures r[i] <= r[j] {
      if i == 0 && j > 0 {
        assert r[j] == t[j - 1] && t[0] <= t[j - 1];
      } else if i > 0 {
        assert r[i] == t[i - 1] && r[j] == t[j - 1];
      }
    }
  }

  /** Inserting into a sorted sequence keeps it sorted. */
  lemma {:induction false} InsertSortedSorted(x: real, s: seq<real>)
    requires Sorted(s)
    ensures Sorted(InsertSorted(x, s))
  {
    if s == [] {
    } else if x <= s[0] {
      ConsSorted(x, s);
    } else {
      var rest := s[1..];
      assert Sorted(rest) by {
        forall i, j | 0 <= i <= j < |rest| ensures rest[i] <= rest[j] {
          assert rest[i] == s[i + 1] && rest[j] == s[j + 1];
        }
      }
      InsertSortedSorted(x, rest);
      ConsSorted(s[0], InsertSorted(x, rest));
    }
  }

  /** The values in ascending order (what pandas sorts before taking a statistic). */
  function SortReals(s: seq<real>): (r: seq<real>)
    ensures Sorted(r)
    ensures multiset(r) == multiset(s)
    ensures |r| == |s|
  {
    if s == [] then []
    else
      assert s == [s[0]] + s[1..];
      var t := SortReals(s[1..]);
      InsertSortedSorted(s[0], t);
      InsertSorted(s[0], t)
  }

  /** Every element of the sorted copy is one of the values. */
  lemma SortedFromValues(vals: seq<real>, i: int)
    requires 0 <= i < |vals|
    ensures SortReals(vals)[i] in vals
  {
    var r := SortReals(vals);
    assert r[i] in multiset(r);
  }

  /** Series.median(): the middle value, or the mean of the two middle values. */
  function Median(vals: seq<real>): (r: Option<real>)
    ensures r.Some? <==> |vals| > 0
  {
    if |vals| == 0 then None
    else
      var s := SortReals(vals);
      var n := |s|;
      if n % 2 == 1 then Some(s[n / 2])
      else Some((s[n / 2 - 1] + s[n / 2]) / 2.0)
  }

  /** The point a fraction t of the way from a to b. */
  function Lerp(a: real, b: real, t: real): real {
    a + t * (b - a)
  }

  lemma MulNonNegative(x: real, y: real)
    requires 0.0 <= x && 0.0 <= y
    ensures 0.0 <= x * y
  {
  }

  lemma LerpBetween(a: real, b: real, t: real)
    requires a <= b && 0.0 <= t <= 1.0
    ensures a <= Lerp(a, b, t) <= b
  {
    MulNonNegative(t, b - a);
    MulNonNegative(1.0 - t, b - a);
    assert (1.0 - t) * (b - a) == (b - a) - t * (b - a);
  }

  lemma LerpMonotone(a: real, b: real, t1: real, t2: real)
    requires a <= b && t1 <= t2
    ensures Lerp(a, b, t1) <= Lerp(a, b, t2)
  {
    MulNonNegative(t2 - t1, b - a);
    assert (t2 - t1) * (b - a) == t2 * (b - a) - t1 * (b - a);
  }

  /** Position (n - 1) * q of a quantile in a sorted series of n values. */
  function Rank(n: nat, q: real): (h: real)
    requires n > 0 && 0.0 <= q <= 1.0
    ensures 0.0 <= h <= (n - 1) as real
  {
    var m := (n - 1) as real;
    MulNonNegative(q, m);
    MulNonNegative(1.0 - q, m);
    assert (1.0 - q) * m == m - q * m;
    q * m
  }

  /**
   * The value at real rank h of the sorted s: between the order statistics
   * floor(h) and floor(h) + 1, a fraction h - floor(h) of the way.
   */
  function Interpolate(s: seq<real>, h: real): real
    requires |s| > 0 && 0.0 <= h <= (|s| - 1) as real
  {
    var k := h.Floor;
    if k + 1 < |s| then Lerp(s[k], s[k + 1], h - k as real) else s[k]
  }

  /**
   * Series.quantile(q) with pandas' default 'linear' interpolation at rank
   * (n - 1) * q of the sorted values.
   */
  function Quantile(vals: seq<real>, q: real): (r: Option<real>)
    requires 0.0 <= q <= 1.0
    ensures r.Some? <==> |vals| > 0
  {
    if |vals| == 0 then None
    else Some(Interpolate(SortReals(vals), Rank(|vals|, q)))
  }

  /** An interpolated value lies between the order statistics around its rank. */
  lemma InterpolateBracket(s: seq<real>, h: real)
    requires Sorted(s) && |s| > 0 && 0.0 <= h <= (|s| - 1) as real
    ensures 0 <= h.Floor < |s|
    ensures s[h.Floor] <= Interpolate(s, h)
    ensures h.Floor + 1 < |s| ==> Interpolate(s, h) <= s[h.Floor + 1]
  {
    var k := h.Floor;
    if k + 1 < |s| {
      LerpBetween(s[k], s[k + 1], h - k as real);
    }
  }

  /** Interpolation at a higher rank never gives a lower value. */
  lemma InterpolateMonotone(s: seq<real>, h1: real, h2: real)
    requires Sorted(s) && |s| > 0 && 0.0 <= h1 <= h2 <= (|s| - 1) as real
    ensures Interpolate(s, h1) <= Interpolate(s, h2)
  {
    var k1, k2 := h1.Floor, h2.Floor;
    InterpolateBracket(s, h1);
    InterpolateBracket(s, h2);
    if k1 == k2 {
      if k1 + 1 < |s| {
        LerpMonotone(s[k1], s[k1 + 1], h1 - k1 as real, h2 - k2 as real);
      }
    } else {
      assert s[k1 + 1] <= s[k2];
    }
  }

  /** The median lies between the smallest and the largest value. */
  lemma MedianBetweenValues(vals: seq<real>)
    requires |vals| > 0
    ensures exists i :: 0 <= i < |vals| && vals[i] <= Median(vals).value
    ensures exists j :: 0 <= j < |vals| && Median(vals).value <= vals[j]
  {
    var n := |vals|;
    var s := SortReals(vals);
    SortedFromValues(vals, n / 2);
    if n % 2 == 0 {
      SortedFromValues(vals, n / 2 - 1);
    }
  }

  /** Every quantile lies between the smallest and the largest value. */
  lemma QuantileBetweenValues(vals: seq<real>, q: real)
    requires 0.0 <= q <= 1.0 && |vals| > 0
    ensures exists i :: 0 <= i < |vals| && vals[i] <= Quantile(vals, q).value
    ensures exists j :: 0 <= j < |vals| && Quantile(vals, q).value <= vals[j]
  {
    var n := |vals|;
    var s := SortReals(vals);
    var h := Rank(n, q);
    InterpolateBracket(s, h);
    var k := h.Floor;
    SortedFromValues(vals, k);
    if k + 1 < n {
      SortedFromValues(vals, k + 1);
    }
  }

  /** A higher quantile level never gives a lower value. */
  lemma QuantileMonotone(vals: seq<real>, q1: real, q2: real)
    requires 0.0 <= q1 <= q2 <= 1.0
    requires |vals| > 0
    ensures Quantile(vals, q1).value <= Quantile(vals, q2).value
  {
    var n := |vals|;
    var m := (n - 1) as real;
    MulNonNegative(q2 - q1, m);
    assert (q2 - q1) * m == q2 * m - q1 * m;
    InterpolateMonotone(SortReals(vals), Rank(n, q1), Rank(n, q2));
  }

  /** pandas' median is its 0.5 quantile. */
  lemma {:induction false} MedianIsHalfQuantile(vals: seq<real>)
    ensures Median(vals) == Quantile(vals, 0.5)
  {
    var n := |vals|;
    if n > 0 {
      var h := Rank(n, 0.5);
      var m := n / 2;
      if n % 2 == 1 {
        assert (n - 1) as real == 2.0 * m as real;
        assert h == m as real;
        assert h.Floor == m;
      } else {
        assert (n - 1) as real == 2.0 * (m - 1) as real + 1.0;
        assert h == (m - 1) as real + 0.5;
        assert h.Floor == m - 1;
        var s := SortReals(vals);
        assert Lerp(s[m - 1], s[m], 0.5) == (s[m - 1] + s[m]) / 2.0;
      }
    }
  }

  /** Whether a has the higher frequency in vals, the smaller value breaking a tie. */
  predicate Precedes(vals: seq<char>, a: char, b: char) {
    multiset(vals)[a] > multiset(vals)[b]
    || (multiset(vals)[a] == multiset(vals)[b] && a <= b)
  }

  /** The candidate that precedes all the others. */
  function BestOf(vals: seq<char>, cands: seq<char>): (r: char)
    requires |cands| > 0
    ensures r in cands
    ensures forall x :: x in cands ==> multiset(vals)[x] <= multiset(vals)[r]
    ensures forall x :: x in cands && multiset(vals)[x] == multiset(vals)[r] ==> r <= x
    decreases |cands|
  {
    if |cands| == 1 then cands[0]
    else
      var b := BestOf(vals, cands[1..]);
      assert forall x :: x in cands ==> x == cands[0] || x in cands[1..];
      if Precedes(vals, cands[0], b) then cands[0] else b
  }

  /**
   * Series.mode()[0]: pandas returns the most frequent values sorted, so
   * element 0 is the smallest value of maximal frequency. With no value
   * the mode is empty and there is no element 0.
   */
  function Mode(vals: seq<char>): (r: Option<char>)
    ensures r.Some? <==> |vals| > 0
    ensures r.Some? ==> r.value in vals
    ensures r.Some? ==> forall x :: x in vals ==> multiset(vals)[x] <= multiset(vals)[r.value]
    ensures r.Some? ==> forall x :: x in vals && multiset(vals)[x] == multiset(vals)[r.value] ==> r.value <= x
  {
    if |vals| == 0 then None else Some(BestOf(vals, vals))
  }
}
