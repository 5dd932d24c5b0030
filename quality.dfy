/** The data-quality tab (app.py lines 755-792): completeness, duplicate
    rows, the per-column missing-rate chart, the duplicate examples and the
    de-duplicated frame. Every metric is a function of the loaded frame. */
module Quality {
  import opened Wrappers
  import opened Seqs
  import opened Tables
  import opened Reals

  // ----- missing cells -----

  /** Missing cells in the first n columns (`df.isnull().sum()` summed). */
  function MissingUpTo(t: Table, n: nat): nat
    requires Valid(t) && n <= |t.columns|
  {
    if n == 0 then 0 else MissingUpTo(t, n - 1) + ColumnMissing(t, n - 1)
  }

  /** `df.isnull().sum().sum()`. */
  function TotalMissing(t: Table): nat
    requires Valid(t)
  {
    MissingUpTo(t, |t.columns|)
  }

  /** The missing count is zero exactly when no cell of those columns is
      missing, and it never exceeds the number of cells. */
  lemma {:induction false} MissingUpToMeaning(t: Table, n: nat)
    requires Valid(t) && n <= |t.columns|
    ensures MissingUpTo(t, n) == 0 <==>
              forall k, c :: 0 <= k < |t.rows| && 0 <= c < n ==> t.rows[k][c] != Missing
    ensures MissingUpTo(t, n) <= |t.rows| * n
  {
    if n > 0 {
      MissingUpToMeaning(t, n - 1);
      ColumnMissingPositive(t, n - 1);
      assert |t.rows| * n == |t.rows| * (n - 1) + |t.rows|;
    }
  }

  /** "完全性" (line 756): the percentage of cells that are not missing;
      None (NaN) when the frame has no cell. */
  function Completeness(t: Table): (r: Option<real>)
    requires Valid(t)
    ensures r.None? <==> |t.rows| * |t.columns| == 0
  {
    var cells := |t.rows| * |t.columns|;
    if cells == 0 then None
    else Some((1.0 - TotalMissing(t) as real / cells as real) * 100.0)
  }

  /** Completeness lies in [0, 100] and is 100 exactly when no cell is
      missing. */
  lemma CompletenessMeaning(t: Table)
    requires Valid(t) && Completeness(t).Some?
    ensures 0.0 <= Completeness(t).value <= 100.0
    ensures Completeness(t).value == 100.0 <==>
              forall k, c :: 0 <= k < |t.rows| && 0 <= c < |t.columns| ==> t.rows[k][c] != Missing
  {
    MissingUpToMeaning(t, |t.columns|);
    ComplementPercent(TotalMissing(t) as real, (|t.rows| * |t.columns|) as real);
  }

  // ----- duplicate rows -----

  /** `df.duplicated().sum()`: rows equal to an earlier row (missing values
      compare equal here). */
  function DuplicateCount(t: Table): nat {
    CountTrue(DuplicatedMask(t.rows))
  }

  /** Appending a copy of every row (with its label) adds exactly one
      duplicate per row: each copy repeats its original, and the originals
      are counted as before. */
  lemma DuplicateCountDoubled(t: Table)
    ensures DuplicateCount(Table(t.columns, t.rows + t.rows, t.index + t.index)) == DuplicateCount(t) + |t.rows|
  {
    DuplicatedMaskDoubled(t.rows);
    CountTrueAppend(DuplicatedMask(t.rows), AllTrue(|t.rows|));
    CountTrueAllTrue(|t.rows|);
  }

  /** "重複行" as a percentage (line 757); None (NaN) for an empty frame. */
  function DuplicateRate(t: Table): (r: Option<real>)
    ensures r.None? <==> |t.rows| == 0
    ensures r.Some? ==> 0.0 <= r.value <= 100.0
  {
    if |t.rows| == 0 then None
    else
      DuplicatesAtMost(t.rows);
      Some(Percent(DuplicateCount(t), |t.rows|))
  }

  lemma DuplicatesAtMost<T>(s: seq<T>)
    ensures CountTrue(DuplicatedMask(s)) <= |s|
  {
    KeptLength(DuplicatedMask(s));
  }

  /** No true entry means a zero count, and back. */
  lemma CountTrueZero(m: seq<bool>)
    ensures CountTrue(m) == 0 <==> forall k :: 0 <= k < |m| ==> !m[k]
  {
    KeptLength(m);
    if forall k :: 0 <= k < |m| ==> !m[k] {
      KeptNone(m);
    }
  }

  /** `df.drop_duplicates()` (line 787): every row that is not a repeat of
      an earlier one, with its label. */
  function DropDuplicates(t: Table): Table
    requires Valid(t)
  {
    Select(t, Not(DuplicatedMask(t.rows)))
  }

  /** The de-duplicated frame holds exactly the first occurrence of every
      distinct row, in order, without repeats, and has as many rows as the
      frame has minus the duplicate count. */
  lemma DropDuplicatesMeaning(t: Table)
    requires Valid(t)
    ensures var d := DropDuplicates(t);
            && Valid(d) && RowsAt(d, t, Kept(Not(DuplicatedMask(t.rows))))
            && d.rows == Distinct(t.rows)
            && NoDuplicates(d.rows)
            && (forall r :: r in t.rows ==> r in d.rows)
            && |d.rows| == |t.rows| - DuplicateCount(t)
  {
    var m := DuplicatedMask(t.rows);
    FirstOccurrencesAreDistinct(t.rows);
    KeptLength(Not(m));
    CountComplement(m);
    var d := DropDuplicates(t);
    forall r | r in t.rows ensures r in d.rows {
      var k :| 0 <= k < |t.rows| && t.rows[k] == r;
      assert t.rows[k] in Distinct(t.rows);
    }
  }

  /** A frame has no duplicate row exactly when its rows are pairwise
      different, and then dropping duplicates changes nothing. */
  lemma NoDuplicateRows(t: Table)
    requires Valid(t)
    ensures DuplicateCount(t) == 0 <==> NoDuplicates(t.rows)
    ensures NoDuplicates(t.rows) ==> DropDuplicates(t) == t
  {
    var m := DuplicatedMask(t.rows);
    CountTrueZero(m);
    if NoDuplicates(t.rows) {
      forall k | 0 <= k < |t.rows| ensures !m[k] {
        forall j | 0 <= j < k ensures t.rows[..k][j] != t.rows[k] {
          assert t.rows[..k][j] == t.rows[j];
        }
      }
      assert Not(m) == AllTrue(|t.rows|);
      SelectAllTrue(t);
    }
    if DuplicateCount(t) == 0 {
      forall i, j | 0 <= i < j < |t.rows| ensures t.rows[i] != t.rows[j] {
        assert !m[j];
        assert t.rows[..j][i] == t.rows[i];
      }
    }
  }

  /** `df.duplicated(keep=False)`: rows equal to some other row. */
  function AllDuplicatesMask<T(==)>(s: seq<T>): (m: seq<bool>)
    ensures |m| == |s|
    ensures forall k :: 0 <= k < |s| ==> (m[k] <==> exists j :: 0 <= j < |s| && j != k && s[j] == s[k])
  {
    seq(|s|, k requires 0 <= k < |s| => exists j :: 0 <= j < |s| && j != k && s[j] == s[k])
  }

  /** "重複行の例" (line 783): the first ten rows that have a twin. */
  function DuplicateExamples(t: Table): Table
    requires Valid(t)
  {
    Head(Select(t, AllDuplicatesMask(t.rows)), 10)
  }

  /** Every keep-first duplicate has a twin. */
  lemma RepeatHasTwin<T>(s: seq<T>, k: nat)
    requires k < |s| && DuplicatedMask(s)[k]
    ensures AllDuplicatesMask(s)[k]
  {
    var j :| 0 <= j < k && s[..k][j] == s[k];
    assert s[j] == s[k];
  }

  /** A row with a twin means the later of the two repeats an earlier row,
      and that repeat has the same value. */
  lemma TwinHasRepeat<T>(s: seq<T>, k: nat)
    requires k < |s| && AllDuplicatesMask(s)[k]
    ensures exists i :: 0 <= i < |s| && DuplicatedMask(s)[i] && s[i] == s[k]
  {
    var j :| 0 <= j < |s| && j != k && s[j] == s[k];
    var m := DuplicatedMask(s);
    if j < k {
      assert s[..k][j] == s[k];
      assert m[k];
    } else {
      assert s[..j][k] == s[j];
      assert m[j];
    }
  }

  /** `keep=False` and the default `keep='first'` flag the same values:
      a value has rows marked by `duplicated(keep=False)` exactly when
      `duplicated()` marks one of its rows. */
  lemma AllDuplicatesValues<T>(s: seq<T>)
    ensures (set k | 0 <= k < |s| && AllDuplicatesMask(s)[k] :: s[k]) ==
            (set i | 0 <= i < |s| && DuplicatedMask(s)[i] :: s[i])
  {
    var m, a := DuplicatedMask(s), AllDuplicatesMask(s);
    forall k | 0 <= k < |s| && a[k]
      ensures s[k] in (set i | 0 <= i < |s| && m[i] :: s[i])
    {
      TwinHasRepeat(s, k);
    }
    forall i | 0 <= i < |s| && m[i]
      ensures s[i] in (set k | 0 <= k < |s| && a[k] :: s[k])
    {
      RepeatHasTwin(s, i);
    }
  }

  /** Every keep-first duplicate has a twin, and the examples are non-empty
      exactly when the duplicate count is positive, which is the condition
      of line 781. */
  lemma DuplicateExamplesMeaning(t: Table)
    requires Valid(t)
    ensures forall k :: 0 <= k < |t.rows| && DuplicatedMask(t.rows)[k] ==> AllDuplicatesMask(t.rows)[k]
    ensures |DuplicateExamples(t).rows| <= 10
    ensures DuplicateCount(t) > 0 <==> |DuplicateExamples(t).rows| > 0
  {
    var s := t.rows;
    var m, a := DuplicatedMask(s), AllDuplicatesMask(s);
    forall k | 0 <= k < |s| && m[k] ensures a[k] {
      RepeatHasTwin(s, k);
    }
    forall k | 0 <= k < |s| && a[k] ensures exists i :: 0 <= i < |s| && m[i] {
      TwinHasRepeat(s, k);
    }
    CountTrueZero(m);
    CountTrueZero(a);
    KeptLength(a);
  }

  /** The examples are the first ten rows that have a twin, in frame order
      and with their labels: each shown row equals another row of the frame,
      and a row with a twin is left out only when ten earlier ones fill the
      list. */
  lemma DuplicateExamplesRows(t: Table)
    requires Valid(t)
    ensures var a := AllDuplicatesMask(t.rows);
            var keep := Take(Kept(a), 10);
            && DuplicateExamples(t) == Table(t.columns, Pick(t.rows, keep), Pick(t.index, keep))
            && Increasing(keep)
            && (forall i :: 0 <= i < |keep| ==>
                  keep[i] < |t.rows| && exists j :: 0 <= j < |t.rows| && j != keep[i] && t.rows[j] == t.rows[keep[i]])
            && (forall k :: 0 <= k < |t.rows| && a[k] && k !in keep ==>
                  |keep| == 10 && forall i :: 0 <= i < |keep| ==> keep[i] < k)
  {
    var a := AllDuplicatesMask(t.rows);
    var K := Kept(a);
    var keep := Take(K, 10);
    HeadOfSelect(t, a, 10);
    assert forall i :: 0 <= i < |keep| ==> keep[i] == K[i];
    forall i | 0 <= i < |keep|
      ensures keep[i] < |t.rows| && exists j :: 0 <= j < |t.rows| && j != keep[i] && t.rows[j] == t.rows[keep[i]]
    {
      var k := keep[i];
      assert k == K[i] && k < |a| && a[k];
      assert exists j :: 0 <= j < |t.rows| && j != k && t.rows[j] == t.rows[k];
    }
    forall k | 0 <= k < |t.rows| && a[k] && k !in keep
      ensures |keep| == 10 && forall i :: 0 <= i < |keep| ==> keep[i] < k
    {
      assert k in K;
      var j :| 0 <= j < |K| && K[j] == k;
      assert |keep| <= j;
    }
  }

  // ----- missing-rate chart -----

  /** One bar of the chart: a column and the percentage of its cells that
      are missing. */
  datatype MissingRate = MissingRate(column: string, percent: real)

  function NegPercent(r: MissingRate): real { -r.percent }

  /** `df.isnull().sum() / len(df) * 100` (line 769), in column order. */
  function Rates(t: Table): (rs: seq<MissingRate>)
    requires Valid(t) && |t.rows| > 0
    ensures |rs| == |t.columns|
    ensures forall c :: 0 <= c < |t.columns| ==>
              rs[c].column == t.columns[c].name && 0.0 <= rs[c].percent <= 100.0
  {
    seq(|t.columns|, c requires 0 <= c < |t.columns| =>
      MissingRate(t.columns[c].name, Percent(ColumnMissing(t, c), |t.rows|)))
  }

  /** `missing_pct.sum()` over the first n columns. */
  function PercentSum(rs: seq<MissingRate>): real {
    if rs == [] then 0.0 else PercentSum(rs[..|rs| - 1]) + rs[|rs| - 1].percent
  }

  /** What the right-hand panel shows: the bar chart, sorted by descending
      rate, or the "no missing values" message. For an empty frame every
      rate is NaN, their sum is 0, and the message is shown. */
  datatype MissingPanel = Chart(bars: seq<MissingRate>) | NoMissing

  function PanelOf(t: Table): MissingPanel
    requires Valid(t)
  {
    if |t.rows| == 0 then NoMissing
    else if PercentSum(Rates(t)) > 0.0 then Chart(SortBy(Rates(t), NegPercent))
    else NoMissing
  }

  /** The first n rates add up to a positive number exactly when one of
      those columns has a missing cell. */
  lemma {:induction false} PercentSumPositive(t: Table, n: nat)
    requires Valid(t) && |t.rows| > 0 && n <= |t.columns|
    ensures PercentSum(Rates(t)[..n]) >= 0.0
    ensures PercentSum(Rates(t)[..n]) > 0.0 <==> MissingUpTo(t, n) > 0
  {
    if n > 0 {
      var rs := Rates(t);
      assert rs[..n][..n - 1] == rs[..n - 1];
      PercentSumPositive(t, n - 1);
      assert rs[n - 1].percent == Percent(ColumnMissing(t, n - 1), |t.rows|);
    }
  }

  /** The chart appears exactly when some cell is missing; its bars are the
      columns' rates, every column once, sorted from the highest rate down. */
  lemma PanelMeaning(t: Table)
    requires Valid(t)
    ensures PanelOf(t).Chart? <==> TotalMissing(t) > 0
    ensures PanelOf(t).Chart? ==>
              && |t.rows| > 0
              && multiset(PanelOf(t).bars) == multiset(Rates(t))
              && (forall i, j :: 0 <= i < j < |PanelOf(t).bars| ==>
                    PanelOf(t).bars[i].percent >= PanelOf(t).bars[j].percent)
  {
    if |t.rows| > 0 {
      PercentSumPositive(t, |t.columns|);
      assert Rates(t)[..|t.columns|] == Rates(t);
      if PanelOf(t).Chart? {
        var bars := PanelOf(t).bars;
        forall i, j | 0 <= i < j < |bars| ensures bars[i].percent >= bars[j].percent {
          assert NegPercent(bars[i]) <= NegPercent(bars[j]);
        }
      }
    } else {
      MissingUpToMeaning(t, |t.columns|);
    }
  }

  // ----- a worked example -----

  /** The frame with a numeric column a and a text column b over the rows
      (1, x), (2, y), (1, x) has one duplicate row and no missing cell. */
  lemma WorkedExample(t: Table)
    requires t == Table([Column("a", Number), Column("b", Object)],
                        [[Num(1.0), Str("x")], [Num(2.0), Str("y")], [Num(1.0), Str("x")]], [0, 1, 2])
    ensures DuplicateCount(t) == 1 && DuplicateRate(t) == Some(100.0 / 3.0)
    ensures Completeness(t) == Some(100.0)
  {
    ExampleDuplicates(t.rows);
    ExampleComplete(t);
  }

  lemma ExampleDuplicates(rows: seq<Row>)
    requires rows == [[Num(1.0), Str("x")], [Num(2.0), Str("y")], [Num(1.0), Str("x")]]
    ensures CountTrue(DuplicatedMask(rows)) == 1
  {
    assert rows[2] == rows[..2][0];
    assert rows[1] != rows[0];
    var m := DuplicatedMask(rows);
    assert m == [false, false, true];
    assert [false, false][..1] == [false];
    assert CountTrue([false, false]) == 0;
    assert m[..2] == [false, false];
  }

  lemma ExampleComplete(t: Table)
    requires Valid(t) && |t.rows| == 3 && |t.columns| == 2
    requires forall k :: 0 <= k < 3 ==> t.rows[k][0].Num? && t.rows[k][1].Str?
    ensures Completeness(t) == Some(100.0)
  {
    CompletenessMeaning(t);
  }
}
