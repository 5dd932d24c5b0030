/** IQR outlier detection (app.py lines 715-738): the quartiles of the
    chosen numeric column, the fences 1.5 interquartile ranges beyond them,
    the outlier rows, their share of the frame, and the clean frame that
    drops every row whose index label belongs to an outlier. */
module Outliers {
  import opened Wrappers
  import opened Seqs
  import opened Tables
  import opened Reals

  function Id(x: real): real { x }

  /** The interpolation position (n - 1)·q of `quantile(q)` over n values. */
  function Position(n: nat, q: real): (h: real)
    requires n > 0 && 0.0 <= q <= 1.0
    ensures 0.0 <= h <= (n - 1) as real
  {
    MulMono((n - 1) as real, q, 1.0);
    MulNonneg((n - 1) as real, q);
    (n - 1) as real * q
  }

  lemma PositionMonotone(n: nat, q: real, q': real)
    requires n > 0 && 0.0 <= q <= q' <= 1.0
    ensures Position(n, q) <= Position(n, q')
  {
    MulMono((n - 1) as real, q, q');
  }

  /** The order statistic just below position h. */
  function Below(h: real, n: nat): (lo: nat)
    requires n > 0 && 0.0 <= h <= (n - 1) as real
    ensures lo as real <= h < lo as real + 1.0 && lo < n
  {
    h.Floor
  }

  /** The value at position (n - 1)·q of an ascending sequence, linearly
      interpolated between its neighbouring order statistics. */
  function Interpolate(s: seq<real>, q: real): real
    requires s != [] && 0.0 <= q <= 1.0
  {
    var h := Position(|s|, q);
    var lo := Below(h, |s|);
    if lo + 1 < |s| then Lerp(s[lo], s[lo + 1], h - lo as real) else s[lo]
  }

  /** The point a fraction f of the way from a to b. */
  function Lerp(a: real, b: real, f: real): real {
    a + f * (b - a)
  }

  /** `Series.quantile(q)` with pandas' default linear interpolation; None
      (NaN) when the column holds no value. */
  function Quantile(values: seq<real>, q: real): (r: Option<real>)
    requires 0.0 <= q <= 1.0
    ensures r.None? <==> values == []
  {
    if values == [] then None else Some(Interpolate(SortBy(values, Id), q))
  }

  /** Linear interpolation between a and b <= ... stays between them. */
  lemma Between(a: real, b: real, f: real)
    requires a <= b && 0.0 <= f <= 1.0
    ensures a <= Lerp(a, b, f) <= b
  {
    MulMono(b - a, f, 1.0);
    MulNonneg(f, b - a);
    assert f * (b - a) == (b - a) * f;
  }

  /** ... and moves up with the weight. */
  lemma Steeper(a: real, b: real, f: real, f': real)
    requires a <= b && 0.0 <= f <= f'
    ensures Lerp(a, b, f) <= Lerp(a, b, f')
  {
    MulMono(b - a, f, f');
    assert f * (b - a) == (b - a) * f && f' * (b - a) == (b - a) * f';
  }

  /** On an ascending sequence the interpolated value lies between the
      first and the last element. */
  lemma InterpolateRange(s: seq<real>, q: real)
    requires s != [] && 0.0 <= q <= 1.0 && SortedBy(s, Id)
    ensures s[0] <= Interpolate(s, q) <= s[|s| - 1]
  {
    var h := Position(|s|, q);
    var lo := Below(h, |s|);
    assert Id(s[0]) <= Id(s[lo]);
    if lo + 1 < |s| {
      assert Id(s[lo]) <= Id(s[lo + 1]) && Id(s[lo + 1]) <= Id(s[|s| - 1]);
      Between(s[lo], s[lo + 1], h - lo as real);
    } else {
      assert Id(s[lo]) <= Id(s[|s| - 1]);
    }
  }

  /** On an ascending sequence the interpolated value grows with q. */
  lemma InterpolateMonotone(s: seq<real>, q: real, q': real)
    requires s != [] && 0.0 <= q <= q' <= 1.0 && SortedBy(s, Id)
    ensures Interpolate(s, q) <= Interpolate(s, q')
  {
    var n := |s|;
    var h, h' := Position(n, q), Position(n, q');
    PositionMonotone(n, q, q');
    var lo, lo' := Below(h, n), Below(h', n);
    assert lo as real < (lo' + 1) as real;
    if lo == lo' {
      if lo + 1 < n {
        assert Id(s[lo]) <= Id(s[lo + 1]);
        Steeper(s[lo], s[lo + 1], h - lo as real, h' - lo as real);
      }
    } else {
      assert lo + 1 <= lo' < n;
      assert Interpolate(s, q) <= s[lo + 1] by {
        assert Id(s[lo]) <= Id(s[lo + 1]);
        Between(s[lo], s[lo + 1], h - lo as real);
      }
      assert Id(s[lo + 1]) <= Id(s[lo']);
      if lo' + 1 < n {
        assert Id(s[lo']) <= Id(s[lo' + 1]);
        Between(s[lo'], s[lo' + 1], h' - lo' as real);
      }
    }
  }

  /** Every quantile lies between the smallest and the largest value: some
      value is at most it and some value is at least it. */
  lemma QuantileRange(values: seq<real>, q: real)
    requires 0.0 <= q <= 1.0 && values != []
    ensures exists i :: 0 <= i < |values| && values[i] <= Quantile(values, q).value
    ensures exists j :: 0 <= j < |values| && Quantile(values, q).value <= values[j]
  {
    var s := SortBy(values, Id);
    assert |s| == |values|;
    assert Quantile(values, q) == Some(Interpolate(s, q));
    InterpolateRange(s, q);
    assert s[0] in multiset(s) && s[|s| - 1] in multiset(s);
    assert s[0] in values && s[|s| - 1] in values;
  }

  /** Quantiles are monotone in q; in particular Q1 <= Q3, so the
      interquartile range is never negative. */
  lemma QuantileMonotone(values: seq<real>, q: real, q': real)
    requires 0.0 <= q <= q' <= 1.0 && values != []
    ensures Quantile(values, q).value <= Quantile(values, q').value
  {
    var s := SortBy(values, Id);
    assert |s| == |values|;
    assert Quantile(values, q) == Some(Interpolate(s, q));
    assert Quantile(values, q') == Some(Interpolate(s, q'));
    InterpolateMonotone(s, q, q');
  }

  /** The fences `Q1 - 1.5·IQR` and `Q3 + 1.5·IQR`. */
  datatype Fences = Fences(lower: real, upper: real)

  function IqrFences(q1: real, q3: real): (f: Fences)
    ensures f.upper - f.lower == 4.0 * (q3 - q1)
    ensures (f.lower + f.upper) / 2.0 == (q1 + q3) / 2.0
    ensures q1 <= q3 ==> f.lower <= q1 && q3 <= f.upper
  {
    var iqr := q3 - q1;
    Fences(q1 - 1.5 * iqr, q3 + 1.5 * iqr)
  }

  /** The fences for column c; None when the column holds no value, where
      the quartiles are NaN and every comparison with them is false. */
  function ColumnFences(t: Table, c: nat): (f: Option<Fences>)
    requires Valid(t) && c < |t.columns|
    ensures f.None? <==> NumValues(ColumnValues(t, c)) == []
  {
    var xs := NumValues(ColumnValues(t, c));
    if xs == [] then None
    else Some(IqrFences(Quantile(xs, 0.25).value, Quantile(xs, 0.75).value))
  }

  /** `df[col] < lower_bound | df[col] > upper_bound` for one cell: a missing
      value compares false on both sides. */
  predicate IsOutlier(cell: Cell, f: Option<Fences>) {
    f.Some? && cell.Num? && (cell.v < f.value.lower || cell.v > f.value.upper)
  }

  /** `(df[col] < lower_bound) | (df[col] > upper_bound)` (line 722). */
  function OutlierMask(t: Table, c: nat): (m: seq<bool>)
    requires Valid(t) && c < |t.columns|
    ensures |m| == |t.rows|
    ensures forall k :: 0 <= k < |t.rows| ==> (m[k] <==> IsOutlier(t.rows[k][c], ColumnFences(t, c)))
  {
    var f := ColumnFences(t, c);
    seq(|t.rows|, k requires 0 <= k < |t.rows| => IsOutlier(t.rows[k][c], f))
  }

  /** `outliers = df[mask]` (line 722). */
  function OutlierRows(t: Table, c: nat): Table
    requires Valid(t) && c < |t.columns|
  {
    Select(t, OutlierMask(t, c))
  }

  /** `~df.index.isin(outliers.index)`: rows whose label is not an outlier's. */
  function CleanMask(t: Table, outliers: Table): (m: seq<bool>)
    requires Valid(t)
    ensures |m| == |t.rows|
    ensures forall k :: 0 <= k < |t.rows| ==> (m[k] <==> t.index[k] !in outliers.index)
  {
    seq(|t.rows|, k requires 0 <= k < |t.rows| => t.index[k] !in outliers.index)
  }

  /** `clean_data` (line 738). */
  function CleanData(t: Table, c: nat): Table
    requires Valid(t) && c < |t.columns|
  {
    Select(t, CleanMask(t, OutlierRows(t, c)))
  }

  /** `len(outliers)/len(df)*100` (line 731); None where Python raises
      ZeroDivisionError on an empty frame. */
  function OutlierShare(t: Table, c: nat): (r: Option<real>)
    requires Valid(t) && c < |t.columns|
    ensures r.None? <==> |t.rows| == 0
    ensures r.Some? ==> 0.0 <= r.value <= 100.0
  {
    var n := |OutlierRows(t, c).rows|;
    if |t.rows| == 0 then None
    else
      PercentRange(n as real, |t.rows| as real);
      Some(n as real / |t.rows| as real * 100.0)
  }

  /** A row is among the outliers exactly when its value in the column is
      present and lies strictly outside the fences; the outlier frame holds
      those rows in their original order with their labels. */
  lemma OutlierMeaning(t: Table, c: nat, k: nat)
    requires Valid(t) && c < |t.columns| && k < |t.rows|
    ensures k in Kept(OutlierMask(t, c)) <==>
              match ColumnFences(t, c)
              case None => false
              case Some(f) => t.rows[k][c].Num? && (t.rows[k][c].v < f.lower || t.rows[k][c].v > f.upper)
    ensures RowsAt(OutlierRows(t, c), t, Kept(OutlierMask(t, c)))
  {
    if k in Kept(OutlierMask(t, c)) {
      KeptMember(OutlierMask(t, c), k);
    }
  }

  /** A value between the quartiles is never an outlier. */
  lemma InsideQuartilesNotOutlier(t: Table, c: nat, k: nat)
    requires Valid(t) && c < |t.columns| && k < |t.rows|
    requires var xs := NumValues(ColumnValues(t, c));
             t.rows[k][c].Num? &&
             Quantile(xs, 0.25).value <= t.rows[k][c].v <= Quantile(xs, 0.75).value
    ensures !OutlierMask(t, c)[k]
  {
    var xs := NumValues(ColumnValues(t, c));
    assert t.rows[k][c] == ColumnValues(t, c)[k];
    assert xs != [];
    QuantileMonotone(xs, 0.25, 0.75);
  }

  /** With unique index labels, dropping the rows whose label belongs to
      the rows chosen by a mask keeps exactly the rows the mask leaves out. */
  lemma DropSelected(t: Table, m: seq<bool>)
    requires Valid(t) && |m| == |t.rows| && NoDuplicates(t.index)
    ensures CleanMask(t, Select(t, m)) == Not(m)
  {
    var o := Select(t, m);
    var p := Kept(m);
    forall k | 0 <= k < |t.rows| ensures CleanMask(t, o)[k] == Not(m)[k] {
      if m[k] {
        var i :| 0 <= i < |p| && p[i] == k;
        assert o.index[i] == t.index[k];
      } else {
        forall i | 0 <= i < |o.index| ensures o.index[i] != t.index[k] {
          assert o.index[i] == t.index[p[i]] && m[p[i]];
        }
      }
    }
  }

  /** With unique index labels (a freshly loaded frame has 0, 1, 2, ...),
      the clean frame is exactly the rows that are not outliers, in their
      original order, and the two sizes add up to the row count. */
  lemma CleanIsComplement(t: Table, c: nat)
    requires Valid(t) && c < |t.columns| && NoDuplicates(t.index)
    ensures CleanData(t, c) == Select(t, Not(OutlierMask(t, c)))
    ensures |OutlierRows(t, c).rows| + |CleanData(t, c).rows| == |t.rows|
  {
    var m := OutlierMask(t, c);
    DropSelected(t, m);
    KeptLength(m);
    KeptLength(Not(m));
    CountComplement(m);
  }

  /** The worked example: the values 1, 2, 3, 4, 5, 100 have quartiles
      2.25 and 4.75 ... */
  lemma ExampleQuartiles(xs: seq<real>)
    requires xs == [1.0, 2.0, 3.0, 4.0, 5.0, 100.0]
    ensures Quantile(xs, 0.25) == Some(2.25) && Quantile(xs, 0.75) == Some(4.75)
  {
    ExampleSorted(xs);
    SortBySorted(xs, Id);
    LowerQuartileOfExample(xs);
    UpperQuartileOfExample(xs);
    assert Quantile(xs, 0.25) == Some(Interpolate(xs, 0.25));
    assert Quantile(xs, 0.75) == Some(Interpolate(xs, 0.75));
  }

  lemma ExampleSorted(xs: seq<real>)
    requires xs == [1.0, 2.0, 3.0, 4.0, 5.0, 100.0]
    ensures SortedBy(xs, Id)
  {
  }

  /** Position 1.25 lies a quarter of the way from 2 to 3. */
  lemma LowerQuartileOfExample(xs: seq<real>)
    requires xs == [1.0, 2.0, 3.0, 4.0, 5.0, 100.0]
    ensures Interpolate(xs, 0.25) == 2.25
  {
    assert Position(6, 0.25) == 1.25;
    assert Below(1.25, 6) == 1;
    assert Lerp(2.0, 3.0, 0.25) == 2.25;
  }

  /** Position 3.75 lies three quarters of the way from 4 to 5. */
  lemma UpperQuartileOfExample(xs: seq<real>)
    requires xs == [1.0, 2.0, 3.0, 4.0, 5.0, 100.0]
    ensures Interpolate(xs, 0.75) == 4.75
  {
    assert Position(6, 0.75) == 3.75;
    assert Below(3.75, 6) == 3;
    assert Lerp(4.0, 5.0, 0.75) == 4.75;
  }

  /** ... so its fences are [-1.5, 8.5] and 100 is its only outlier. */
  lemma WorkedExample(xs: seq<real>)
    requires xs == [1.0, 2.0, 3.0, 4.0, 5.0, 100.0]
    ensures IqrFences(Quantile(xs, 0.25).value, Quantile(xs, 0.75).value) == Fences(-1.5, 8.5)
    ensures var f := Some(Fences(-1.5, 8.5));
            && !IsOutlier(Num(xs[0]), f) && !IsOutlier(Num(xs[1]), f) && !IsOutlier(Num(xs[2]), f)
            && !IsOutlier(Num(xs[3]), f) && !IsOutlier(Num(xs[4]), f) && IsOutlier(Num(xs[5]), f)
  {
    ExampleQuartiles(xs);
    var q1, q3 := Quantile(xs, 0.25).value, Quantile(xs, 0.75).value;
    assert q1 == 2.25 && q3 == 4.75;
    ExampleFences();
    assert IqrFences(q1, q3) == Fences(-1.5, 8.5);
  }

  /** 2.25 - 1.5·2.5 and 4.75 + 1.5·2.5. */
  lemma ExampleFences()
    ensures IqrFences(2.25, 4.75) == Fences(-1.5, 8.5)
  {
  }
}
