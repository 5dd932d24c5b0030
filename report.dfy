/** Which sections, rows and columns `generate_html_report` (app.py lines
    64-226) puts into the HTML report. The markup, the styling, the
    generation timestamp and the floating-point contents of the `describe()`
    and `corr()` tables are not modelled; the report is the record of what
    each section lists. */
module Report {
  import opened Wrappers
  import opened Seqs
  import opened Tables
  import opened Reals
  import opened Quality

  // ----- value counts -----

  /** One line of `value_counts()`: a value and how often it occurs. */
  datatype ValueCount = ValueCount(value: Cell, count: nat)

  function NegCount(e: ValueCount): real { -(e.count as real) }

  /** The cells that are not missing, in order. */
  function Present(cells: seq<Cell>): seq<Cell>
  {
    if cells == [] then []
    else Present(cells[..|cells| - 1]) + (if cells[|cells| - 1] == Missing then [] else [cells[|cells| - 1]])
  }

  lemma {:induction false} PresentMeaning(cells: seq<Cell>)
    ensures forall x :: x in Present(cells) <==> x in cells && x != Missing
  {
    if cells != [] {
      var init := cells[..|cells| - 1];
      PresentMeaning(init);
      assert cells == init + [cells[|cells| - 1]];
    }
  }

  /** `Series.value_counts()`: every distinct present value with its count,
      most frequent first; equal counts keep the order of first appearance. */
  function ValueCounts(cells: seq<Cell>): seq<ValueCount>
  {
    SortBy(Counted(cells), NegCount)
  }

  /** The distinct present values with their counts, in order of first
      appearance: what `value_counts` sorts. */
  function Counted(cells: seq<Cell>): seq<ValueCount>
  {
    var values := Distinct(Present(cells));
    seq(|values|, i requires 0 <= i < |values| => ValueCount(values[i], Count(cells, values[i])))
  }

  lemma CountedMeaning(cells: seq<Cell>)
    ensures var counted := Counted(cells);
            && (forall i :: 0 <= i < |counted| ==>
                  counted[i].value in cells && counted[i].value != Missing &&
                  counted[i].count == Count(cells, counted[i].value) && counted[i].count > 0)
            && (forall x :: x in cells && x != Missing ==> exists i :: 0 <= i < |counted| && counted[i].value == x)
            && (forall i, j :: 0 <= i < j < |counted| ==> counted[i].value != counted[j].value)
  {
    var present := Present(cells);
    PresentMeaning(cells);
    var values := Distinct(present);
    var counted := Counted(cells);
    forall x | x in cells && x != Missing ensures exists i :: 0 <= i < |counted| && counted[i].value == x {
      var k :| 0 <= k < |present| && present[k] == x;
      assert x in values;
      var i :| 0 <= i < |values| && values[i] == x;
      assert counted[i].value == x;
    }
    forall i | 0 <= i < |values| ensures Count(cells, values[i]) > 0 {
      CountPositive(cells, values[i]);
    }
  }

  /** Every count is positive and at most the number of cells, and the
      counts never increase down the list. */
  lemma ValueCountsOrder(cells: seq<Cell>)
    ensures var vc := ValueCounts(cells);
            && (forall i :: 0 <= i < |vc| ==> 0 < vc[i].count <= |cells|)
            && (forall i, j :: 0 <= i < j < |vc| ==> vc[i].count >= vc[j].count)
  {
    var counted := Counted(cells);
    CountedMeaning(cells);
    var vc := SortBy(counted, NegCount);
    PermutationMembers(counted, vc);
    assert forall i, j :: 0 <= i < j < |vc| ==> NegCount(vc[i]) <= NegCount(vc[j]);
  }

  /** Every element of a rearrangement comes from the original. */
  lemma PermutationMembers<T>(s: seq<T>, r: seq<T>)
    requires multiset(r) == multiset(s)
    ensures forall i :: 0 <= i < |r| ==> r[i] in s
  {
    forall i | 0 <= i < |r| ensures r[i] in s {
      assert r[i] in multiset(r);
    }
  }

  /** A value counted twice in a multiset occurs at a second position. */
  lemma CountTwice<T>(s: seq<T>, x: T, a: nat)
    requires a < |s| && s[a] == x && multiset(s)[x] >= 2
    ensures exists c :: 0 <= c < |s| && c != a && s[c] == x
  {
    var rest := s[..a] + s[a + 1..];
    assert s == s[..a] + [s[a]] + s[a + 1..];
    assert multiset(s) == multiset(s[..a]) + multiset{x} + multiset(s[a + 1..]);
    assert multiset(rest)[x] >= 1;
    assert x in rest;
    var r :| 0 <= r < |rest| && rest[r] == x;
    if r < a {
      assert s[r] == x;
    } else {
      assert s[r + 1] == x;
    }
  }

  /** Entries with pairwise different values are pairwise different. */
  lemma DistinctValues(counted: seq<ValueCount>)
    requires forall i, j :: 0 <= i < j < |counted| ==> counted[i].value != counted[j].value
    ensures NoDuplicates(counted)
  {
  }

  /** A rearrangement of a repeat-free sequence is repeat-free. */
  lemma PermutationNoDuplicates<T>(s: seq<T>, r: seq<T>)
    requires NoDuplicates(s) && multiset(r) == multiset(s)
    ensures NoDuplicates(r)
  {
    forall i, j | 0 <= i < j < |r| ensures r[i] != r[j] {
      if r[i] == r[j] {
        var x := r[i];
        assert r == r[..j] + [r[j]] + r[j + 1..];
        assert x in r[..j];
        assert multiset(r)[x] >= 2 by {
          assert multiset(r) == multiset(r[..j]) + multiset{x} + multiset(r[j + 1..]);
        }
        assert x in multiset(s);
        var a :| 0 <= a < |s| && s[a] == x;
        CountTwice(s, x, a);
      }
    }
  }

  /** Every line of the value counts is a present value with its number of
      occurrences. */
  lemma ValueCountsSound(cells: seq<Cell>)
    ensures var vc := ValueCounts(cells);
            forall i :: 0 <= i < |vc| ==>
              vc[i].value in cells && vc[i].value != Missing && vc[i].count == Count(cells, vc[i].value)
  {
    CountedMeaning(cells);
    PermutationMembers(Counted(cells), ValueCounts(cells));
  }

  /** Every present value has a line. */
  lemma ValueCountsComplete(cells: seq<Cell>, x: Cell)
    requires x in cells && x != Missing
    ensures exists i :: 0 <= i < |ValueCounts(cells)| && ValueCounts(cells)[i].value == x
  {
    var counted := Counted(cells);
    CountedMeaning(cells);
    PermutationMembers(ValueCounts(cells), counted);
    var j :| 0 <= j < |counted| && counted[j].value == x;
    assert counted[j] in ValueCounts(cells);
  }

  /** No value has two lines. */
  lemma ValueCountsUnique(cells: seq<Cell>)
    ensures var vc := ValueCounts(cells);
            forall i, j :: 0 <= i < j < |vc| ==> vc[i].value != vc[j].value
  {
    var counted := Counted(cells);
    var vc := ValueCounts(cells);
    CountedMeaning(cells);
    PermutationMembers(counted, vc);
    DistinctValues(counted);
    PermutationNoDuplicates(counted, vc);
    forall i, j | 0 <= i < j < |vc| ensures vc[i].value != vc[j].value {
      var a :| 0 <= a < |counted| && counted[a] == vc[i];
      var b :| 0 <= b < |counted| && counted[b] == vc[j];
    }
  }

  /** The value counts list every present value exactly once, with its
      number of occurrences, from the most to the least frequent, and
      nothing else. */
  lemma ValueCountsMeaning(cells: seq<Cell>)
    ensures var vc := ValueCounts(cells);
            && (forall i :: 0 <= i < |vc| ==>
                  vc[i].value in cells && vc[i].value != Missing && vc[i].count == Count(cells, vc[i].value))
            && (forall x :: x in cells && x != Missing ==> exists i :: 0 <= i < |vc| && vc[i].value == x)
            && (forall i, j :: 0 <= i < j < |vc| ==> vc[i].value != vc[j].value)
            && (forall i, j :: 0 <= i < j < |vc| ==> vc[i].count >= vc[j].count)
  {
    ValueCountsSound(cells);
    ValueCountsOrder(cells);
    forall x | x in cells && x != Missing
      ensures exists i :: 0 <= i < |ValueCounts(cells)| && ValueCounts(cells)[i].value == x
    {
      ValueCountsComplete(cells, x);
    }
    ValueCountsUnique(cells);
  }

  /** `value_counts().head(10)`. */
  function TopValues(cells: seq<Cell>): seq<ValueCount> {
    Take(ValueCounts(cells), 10)
  }

  /** The ten lines shown are the most frequent values: a present value
      that is left out occurs no more often than any value shown, and is
      only left out when all ten places are taken. */
  lemma TopValuesMeaning(cells: seq<Cell>, x: Cell)
    requires x in cells && x != Missing
    requires forall i :: 0 <= i < |TopValues(cells)| ==> TopValues(cells)[i].value != x
    ensures |TopValues(cells)| == 10
    ensures forall i :: 0 <= i < 10 ==> Count(cells, x) <= TopValues(cells)[i].count
  {
    var j := LineOf(cells, x);
    TopPrefix(cells, ValueCounts(cells), TopValues(cells), j);
  }

  lemma TopPrefix(cells: seq<Cell>, vc: seq<ValueCount>, top: seq<ValueCount>, j: nat)
    requires vc == ValueCounts(cells) && top == TopValues(cells)
    requires j < |vc| && forall i :: 0 <= i < |top| ==> top[i].value != vc[j].value
    ensures |top| == 10 && forall i :: 0 <= i < 10 ==> vc[j].count <= top[i].count
  {
    ValueCountsOrder(cells);
    assert forall i :: 0 <= i < |top| ==> top[i] == vc[i];
    assert forall i :: 0 <= i < |top| ==> vc[i].value != vc[j].value;
    assert |top| <= j;
    assert |top| == 10;
    assert forall i :: 0 <= i < 10 ==> vc[i].count >= vc[j].count;
  }

  /** The position of a present value's line. */
  lemma LineOf(cells: seq<Cell>, x: Cell) returns (j: nat)
    requires x in cells && x != Missing
    ensures j < |ValueCounts(cells)|
    ensures ValueCounts(cells)[j].value == x && ValueCounts(cells)[j].count == Count(cells, x)
  {
    ValueCountsComplete(cells, x);
    ValueCountsSound(cells);
    j :| 0 <= j < |ValueCounts(cells)| && ValueCounts(cells)[j].value == x;
  }

  // ----- the report record -----

  /** A line of a categorical table: value, count and percentage of rows. */
  datatype ValueRow = ValueRow(value: Cell, count: nat, percent: real)

  datatype CategoryTable = CategoryTable(column: string, values: seq<ValueRow>)

  /** A line of the missing-value table. */
  datatype MissingRow = MissingRow(column: string, count: nat, percent: real)

  /** A line of the data-type table: `count()` and `isnull().sum()`. */
  datatype DtypeRow = DtypeRow(column: string, dtype: DType, nonNull: nat, nulls: nat)

  /** What the report lists, section by section. `describe` and
      `correlation` name the columns of the `describe()` and `corr()`
      tables, or are None where the report prints a note or nothing. */
  datatype HtmlReport = HtmlReport(
    rowCount: nat, columnCount: nat, missingCells: nat,
    describe: Option<seq<string>>,
    categorical: Option<seq<CategoryTable>>,
    missing: Option<seq<MissingRow>>,
    correlation: Option<seq<string>>,
    preview: Table,
    dtypes: seq<DtypeRow>)

  function ValueRowOf(e: ValueCount, n: nat): ValueRow
    requires 0 < e.count <= n
  {
    ValueRow(e.value, e.count, Percent(e.count, n))
  }

  /** The table of column c: its ten most frequent values with their share
      of all rows. */
  function CategoryTableOf(df: Table, c: nat): CategoryTable
    requires Valid(df) && c < |df.columns|
  {
    ValueCountsOrder(ColumnValues(df, c));
    var top := TopValues(ColumnValues(df, c));
    CategoryTable(df.columns[c].name,
                  seq(|top|, i requires 0 <= i < |top| => ValueRowOf(top[i], |df.rows|)))
  }

  function Min(a: nat, b: nat): nat { if a < b then a else b }

  /** Lines 72-84: a table for each of the first five object columns; no
      section at all when there is none. */
  function CategoricalSection(df: Table): Option<seq<CategoryTable>>
    requires Valid(df)
  {
    var cats := Kept(DtypeMask(df.columns, Object));
    if |cats| == 0 then None else Some(MapPrefix(TableOfColumn(df), cats, Min(|cats|, 5)))
  }

  /** The table of each column of the frame. */
  function TableOfColumn(df: Table): (f: nat --> CategoryTable)
    requires Valid(df)
    ensures forall c: nat :: c < |df.columns| ==> f.requires(c)
  {
    (c: nat) requires c < |df.columns| => CategoryTableOf(df, c)
  }

  lemma TableOfColumnApply(df: Table, c: nat)
    requires Valid(df) && c < |df.columns|
    ensures TableOfColumn(df)(c) == CategoryTableOf(df, c)
  {
  }

  function MissingRowOf(df: Table, c: nat): MissingRow
    requires Valid(df) && c < |df.columns| && ColumnMissing(df, c) > 0
  {
    MissingRow(df.columns[c].name, ColumnMissing(df, c), Percent(ColumnMissing(df, c), |df.rows|))
  }

  /** The missing-value lines of the first n columns, skipping complete ones. */
  function MissingRowsUpTo(df: Table, n: nat): seq<MissingRow>
    requires Valid(df) && n <= |df.columns|
  {
    if n == 0 then []
    else MissingRowsUpTo(df, n - 1) + (if ColumnMissing(df, n - 1) > 0 then [MissingRowOf(df, n - 1)] else [])
  }

  /** Lines 87-99: the table appears only when some cell is missing. */
  function MissingSection(df: Table): Option<seq<MissingRow>>
    requires Valid(df)
  {
    if TotalMissing(df) > 0 then Some(MissingRowsUpTo(df, |df.columns|)) else None
  }

  function DtypeRowOf(df: Table, c: nat): DtypeRow
    requires Valid(df) && c < |df.columns|
  {
    DtypeRow(df.columns[c].name, df.columns[c].dtype, ColumnPresent(df, c), ColumnMissing(df, c))
  }

  /** The whole report, as a function of the frame. */
  function ReportOf(df: Table): HtmlReport
    requires Valid(df)
  {
    var numeric := NumericColumns(df);
    HtmlReport(
      |df.rows|, |df.columns|, TotalMissing(df),
      if |numeric| > 0 then Some(numeric) else None,
      CategoricalSection(df),
      MissingSection(df),
      if |numeric| > 1 then Some(numeric) else None,
      Head(df, 10),
      seq(|df.columns|, c requires 0 <= c < |df.columns| => DtypeRowOf(df, c)))
  }

  /** A categorical table names its column and lists at most ten present
      values of it, each once, from the most frequent down, each with its
      count and its share of all rows (count / rows * 100). */
  lemma CategoryTableMeaning(df: Table, c: nat)
    requires Valid(df) && c < |df.columns|
    ensures var t := CategoryTableOf(df, c);
            var cells := ColumnValues(df, c);
            && t.column == df.columns[c].name
            && |t.values| <= 10
            && (forall k :: 0 <= k < |t.values| ==>
                  && t.values[k].value in cells && t.values[k].value != Missing
                  && t.values[k].count == Count(cells, t.values[k].value)
                  && 0 < t.values[k].count <= |df.rows|
                  && t.values[k].percent == t.values[k].count as real / |df.rows| as real * 100.0)
            && (forall k, l :: 0 <= k < l < |t.values| ==>
                  t.values[k].count >= t.values[l].count && t.values[k].value != t.values[l].value)
  {
    var cells := ColumnValues(df, c);
    ValueCountsOrder(cells);
    ValueCountsSound(cells);
    ValueCountsUnique(cells);
    var top := TopValues(cells);
    assert forall k :: 0 <= k < |top| ==> top[k] == ValueCounts(cells)[k];
  }

  /** The categorical section exists exactly when there is an object
      column; it holds the tables of the first five object columns, in
      column order. */
  lemma CategoricalSectionMeaning(df: Table)
    requires Valid(df)
    ensures CategoricalSection(df).Some? <==> |CategoricalColumns(df)| > 0
    ensures CategoricalSection(df).Some? ==>
              var tables := CategoricalSection(df).value;
              var cats := Kept(DtypeMask(df.columns, Object));
              && |tables| == Min(|CategoricalColumns(df)|, 5)
              && forall i :: 0 <= i < |tables| ==>
                   && cats[i] < |df.columns| && df.columns[cats[i]].dtype == Object
                   && tables[i].column == CategoricalColumns(df)[i]
                   && tables[i] == CategoryTableOf(df, cats[i])
  {
    var cats := Kept(DtypeMask(df.columns, Object));
    if |cats| > 0 {
      var tables := CategoricalSection(df).value;
      MapPrefixMeaning(TableOfColumn(df), cats, Min(|cats|, 5));
      forall i | 0 <= i < |tables| ensures tables[i] == CategoryTableOf(df, cats[i]) {
        TableOfColumnApply(df, cats[i]);
      }
    }
  }

  lemma MissingRowsSnoc(df: Table, c: nat)
    requires Valid(df) && c < |df.columns|
    ensures MissingRowsUpTo(df, c + 1) ==
              MissingRowsUpTo(df, c) + (if ColumnMissing(df, c) > 0 then [MissingRowOf(df, c)] else [])
  {
  }

  /** The columns that have a missing cell, as a mask over the columns. */
  function HasMissing(df: Table): (m: seq<bool>)
    requires Valid(df)
    ensures |m| == |df.columns| && forall c :: 0 <= c < |df.columns| ==> (m[c] <==> ColumnMissing(df, c) > 0)
  {
    seq(|df.columns|, c requires 0 <= c < |df.columns| => ColumnMissing(df, c) > 0)
  }

    /** rows are the missing-value lines of the columns K, one each, in K's order. */
  predicate LinesOf(df: Table, K: seq<nat>, rows: seq<MissingRow>)
    requires Valid(df)
  {
    && |rows| == |K|
    && forall i :: 0 <= i < |K| ==>
         K[i] < |df.columns| && ColumnMissing(df, K[i]) > 0 && rows[i] == MissingRowOf(df, K[i])
  }

  lemma LinesOfSnoc(df: Table, K: seq<nat>, rows: seq<MissingRow>, c: nat)
    requires Valid(df) && LinesOf(df, K, rows) && c < |df.columns| && ColumnMissing(df, c) > 0
    ensures LinesOf(df, K + [c], rows + [MissingRowOf(df, c)])
  {
    forall i | 0 <= i < |K| + 1
      ensures (K + [c])[i] == (if i < |K| then K[i] else c)
      ensures (rows + [MissingRowOf(df, c)])[i] == (if i < |K| then rows[i] else MissingRowOf(df, c))
    {
    }
  }

  lemma MissingRowsStep(df: Table, n: nat)
    requires Valid(df) && 0 < n <= |df.columns|
    requires LinesOf(df, Kept(HasMissing(df)[..n - 1]), MissingRowsUpTo(df, n - 1))
    ensures LinesOf(df, Kept(HasMissing(df)[..n]), MissingRowsUpTo(df, n))
  {
    MissingRowsSnoc(df, n - 1);
    var h := HasMissing(df)[..n];
    assert h[..n - 1] == HasMissing(df)[..n - 1];
    KeptSnoc(h);
    if h[n - 1] {
      LinesOfSnoc(df, Kept(h[..n - 1]), MissingRowsUpTo(df, n - 1), n - 1);
    }
  }

  /** The lines of the first n columns are those of the columns with a
      missing cell, in column order. */
  lemma {:induction false} MissingRowsInOrder(df: Table, n: nat)
    requires Valid(df) && n <= |df.columns|
    ensures LinesOf(df, Kept(HasMissing(df)[..n]), MissingRowsUpTo(df, n))
  {
    if n > 0 {
      MissingRowsInOrder(df, n - 1);
      MissingRowsStep(df, n);
    }
  }

  /** The missing-value table lists the columns with a missing cell in
      column order, each once. */
  lemma MissingSectionOrder(df: Table)
    requires Valid(df) && MissingSection(df).Some?
    ensures var K := Kept(HasMissing(df));
            var rows := MissingSection(df).value;
            && Increasing(K)
            && |rows| == |K|
            && forall i :: 0 <= i < |K| ==> K[i] < |df.columns| && rows[i] == MissingRowOf(df, K[i])
  {
    MissingRowsInOrder(df, |df.columns|);
    assert HasMissing(df)[..|df.columns|] == HasMissing(df);
  }

  /** Every column among the first n with a missing cell has its line. */
  lemma {:induction false} MissingRowsComplete(df: Table, n: nat)
    requires Valid(df) && n <= |df.columns|
    ensures forall c :: 0 <= c < n && ColumnMissing(df, c) > 0 ==> MissingRowOf(df, c) in MissingRowsUpTo(df, n)
  {
    if n > 0 {
      MissingRowsComplete(df, n - 1);
      MissingRowsSnoc(df, n - 1);
      var prev := MissingRowsUpTo(df, n - 1);
      var rows := MissingRowsUpTo(df, n);
      forall c | 0 <= c < n && ColumnMissing(df, c) > 0
        ensures MissingRowOf(df, c) in rows
      {
        if c < n - 1 {
          assert MissingRowOf(df, c) in prev;
        } else {
          assert rows[|prev|] == MissingRowOf(df, c);
        }
      }
    }
  }

  /** Every line among those of the first n columns belongs to a column
      with a missing cell. */
  lemma {:induction false} MissingRowsSound(df: Table, n: nat)
    requires Valid(df) && n <= |df.columns|
    ensures forall r :: r in MissingRowsUpTo(df, n) ==>
              exists c :: 0 <= c < n && ColumnMissing(df, c) > 0 && r == MissingRowOf(df, c)
  {
    if n > 0 {
      MissingRowsSound(df, n - 1);
      MissingRowsSnoc(df, n - 1);
      var prev := MissingRowsUpTo(df, n - 1);
      var rows := MissingRowsUpTo(df, n);
      forall r | r in rows
        ensures exists c :: 0 <= c < n && ColumnMissing(df, c) > 0 && r == MissingRowOf(df, c)
      {
        if r !in prev {
          assert ColumnMissing(df, n - 1) > 0 && r == MissingRowOf(df, n - 1);
        }
      }
    }
  }

  /** The missing-value section exists exactly when some cell is missing;
      its lines are exactly the columns with a missing cell, each with its
      count and its share of the rows. */
  lemma MissingSectionMeaning(df: Table)
    requires Valid(df)
    ensures MissingSection(df).Some? <==>
              exists k, c :: 0 <= k < |df.rows| && 0 <= c < |df.columns| && df.rows[k][c] == Missing
    ensures MissingSection(df).Some? ==>
              var rows := MissingSection(df).value;
              && (forall c :: 0 <= c < |df.columns| && ColumnMissing(df, c) > 0 ==> MissingRowOf(df, c) in rows)
              && (forall i :: 0 <= i < |rows| ==>
                    exists c :: 0 <= c < |df.columns| && ColumnMissing(df, c) > 0 &&
                      rows[i] == MissingRowOf(df, c) && rows[i].count > 0)
  {
    MissingUpToMeaning(df, |df.columns|);
    MissingRowsComplete(df, |df.columns|);
    MissingRowsSound(df, |df.columns|);
    var rows := MissingRowsUpTo(df, |df.columns|);
    assert forall i :: 0 <= i < |rows| ==> rows[i] in rows;
  }

  /** The summary counts, the `describe()` block only with a numeric
      column and the correlation block only with at least two. */
  lemma ReportSummary(df: Table)
    requires Valid(df)
    ensures var r := ReportOf(df);
            && r.rowCount == |df.rows| && r.columnCount == |df.columns|
            && r.missingCells == TotalMissing(df)
            && (r.describe.Some? <==> |NumericColumns(df)| >= 1)
            && (r.correlation.Some? <==> |NumericColumns(df)| >= 2)
            && (r.correlation.Some? ==> r.correlation.value == NumericColumns(df))
  {
  }

  /** The preview holds at most the first ten rows, with every column. */
  lemma ReportPreview(df: Table)
    requires Valid(df)
    ensures var p := ReportOf(df).preview;
            && |p.rows| == Min(|df.rows|, 10)
            && p.rows == df.rows[..|p.rows|]
            && p.columns == df.columns
  {
    assert ReportOf(df).preview == Head(df, 10);
  }

  /** One data-type line per column, whose null and non-null counts add up
      to the rows. */
  lemma ReportDtypes(df: Table)
    requires Valid(df)
    ensures var d := ReportOf(df).dtypes;
            && |d| == |df.columns|
            && (forall c :: 0 <= c < |df.columns| ==>
                  && d[c].column == df.columns[c].name
                  && d[c].dtype == df.columns[c].dtype
                  && d[c].nulls == ColumnMissing(df, c)
                  && d[c].nonNull == ColumnPresent(df, c)
                  && d[c].nonNull + d[c].nulls == |df.rows|)
  {
    var d := ReportOf(df).dtypes;
    assert d == seq(|df.columns|, c requires 0 <= c < |df.columns| => DtypeRowOf(df, c));
    forall c | 0 <= c < |df.columns|
      ensures && d[c].column == df.columns[c].name
              && d[c].dtype == df.columns[c].dtype
              && d[c].nulls == ColumnMissing(df, c)
              && d[c].nonNull + d[c].nulls == |df.rows|
    {
      assert d[c] == DtypeRowOf(df, c);
      ColumnPresentComplement(df, c);
    }
  }

  // ----- a worked example -----

  /** In the frame with a numeric column a and a text column b over the rows
      (1, x), (2, y), (1, x), b's table lists x twice (two thirds of the
      rows) before y once (one third). */
  lemma ValueCountsExample(t: Table)
    requires t == Table([Column("a", Number), Column("b", Object)],
                        [[Num(1.0), Str("x")], [Num(2.0), Str("y")], [Num(1.0), Str("x")]], [0, 1, 2])
    ensures CategoryTableOf(t, 1) ==
              CategoryTable("b", [ValueRow(Str("x"), 2, 200.0 / 3.0), ValueRow(Str("y"), 1, 100.0 / 3.0)])
  {
    var cells := ColumnValues(t, 1);
    assert cells == [Str("x"), Str("y"), Str("x")];
    ExampleValueCounts(cells);
    ExampleCategoryTable(t);
  }

  lemma ExampleCategoryTable(df: Table)
    requires Valid(df) && |df.columns| == 2 && df.columns[1].name == "b" && |df.rows| == 3
    requires ValueCounts(ColumnValues(df, 1)) == [ValueCount(Str("x"), 2), ValueCount(Str("y"), 1)]
    ensures CategoryTableOf(df, 1) ==
              CategoryTable("b", [ValueRow(Str("x"), 2, 200.0 / 3.0), ValueRow(Str("y"), 1, 100.0 / 3.0)])
  {
    var top := TopValues(ColumnValues(df, 1));
    assert top == [ValueCount(Str("x"), 2), ValueCount(Str("y"), 1)];
    assert Percent(2, 3) == 200.0 / 3.0 && Percent(1, 3) == 100.0 / 3.0;
  }

  lemma ExampleValueCounts(cells: seq<Cell>)
    requires cells == [Str("x"), Str("y"), Str("x")]
    ensures ValueCounts(cells) == [ValueCount(Str("x"), 2), ValueCount(Str("y"), 1)]
  {
    ExampleCounted(cells);
    SortTwo(ValueCount(Str("x"), 2), ValueCount(Str("y"), 1), NegCount);
  }

  lemma ExampleCounted(cells: seq<Cell>)
    requires cells == [Str("x"), Str("y"), Str("x")]
    ensures Counted(cells) == [ValueCount(Str("x"), 2), ValueCount(Str("y"), 1)]
  {
    CountedRepeat(Str("x"), Str("y"));
  }

  /** The cells x, y, x (two distinct present values) count x twice and y once. */
  lemma CountedRepeat(x: Cell, y: Cell)
    requires x != y && x != Missing && y != Missing
    ensures Counted([x, y, x]) == [ValueCount(x, 2), ValueCount(y, 1)]
  {
    var c1, c2, c3 := [x], [x, y], [x, y, x];
    assert c3[..2] == c2 && c2[..1] == c1 && c1[..0] == [];
    PresentRepeat(x, y);
    DistinctRepeat(x, y);
    assert Count(c1, x) == 1 && Count(c2, x) == 1;
    assert Count(c3, x) == 2;
    assert Count(c1, y) == 0 && Count(c2, y) == 1;
    assert Count(c3, y) == 1;
  }

  lemma PresentRepeat(x: Cell, y: Cell)
    requires x != Missing && y != Missing
    ensures Present([x, y, x]) == [x, y, x]
  {
    var c1, c2, c3 := [x], [x, y], [x, y, x];
    assert c3[..2] == c2 && c2[..1] == c1 && c1[..0] == [];
    assert Present(c1) == c1 && Present(c2) == c2;
  }

  lemma DistinctRepeat(x: Cell, y: Cell)
    requires x != y
    ensures Distinct([x, y, x]) == [x, y]
  {
    var c1, c2, c3 := [x], [x, y], [x, y, x];
    assert c3[..2] == c2 && c2[..1] == c1 && c1[..0] == [];
    assert Distinct(c1) == c1 && Distinct(c2) == c2;
  }

  /** Lines 80-83: one line per value shown, with its percentage. */
  method ValueLines(top: seq<ValueCount>, n: nat) returns (lines: seq<ValueRow>)
    requires forall i :: 0 <= i < |top| ==> 0 < top[i].count <= n
    ensures lines == seq(|top|, i requires 0 <= i < |top| => ValueRowOf(top[i], n))
  {
    lines := [];
    var k := 0;
    while k < |top|
      invariant 0 <= k <= |top|
      invariant lines == seq(k, j requires 0 <= j < k => ValueRowOf(top[j], n))
    {
      var percentage := Percent(top[k].count, n);
      lines := lines + [ValueRow(top[k].value, top[k].count, percentage)];
      k := k + 1;
    }
  }

  /** Lines 75-84: the table of one column. */
  method CategoryTableFor(df: Table, c: nat) returns (table: CategoryTable)
    requires Valid(df) && c < |df.columns|
    ensures table == TableOfColumn(df)(c)
  {
    TableOfColumnApply(df, c);
    ValueCountsOrder(ColumnValues(df, c));
    var top := TopValues(ColumnValues(df, c));
    var lines := ValueLines(top, |df.rows|);
    table := CategoryTable(df.columns[c].name, lines);
  }

  /** Lines 72-84: the categorical tables, column after column. */
  method CategoricalTables(df: Table) returns (categorical: Option<seq<CategoryTable>>)
    requires Valid(df)
    ensures categorical == CategoricalSection(df)
  {
    var cats := Kept(DtypeMask(df.columns, Object));
    categorical := None;
    if |cats| > 0 {
      var tables := TablesFor(df, cats, Min(|cats|, 5));
      MapPrefixEqual(TableOfColumn(df), cats, Min(|cats|, 5), tables);
      categorical := Some(tables);
    }
  }

  /** The tables of the first n of the columns at positions `cats`. */
  method TablesFor(df: Table, cats: seq<nat>, n: nat) returns (tables: seq<CategoryTable>)
    requires Valid(df) && n <= |cats| && forall i :: 0 <= i < |cats| ==> cats[i] < |df.columns|
    ensures |tables| == n && forall j :: 0 <= j < n ==> tables[j] == TableOfColumn(df)(cats[j])
  {
    tables := [];
    var i := 0;
    while i < n
      invariant 0 <= i <= n
      invariant |tables| == i && forall j :: 0 <= j < i ==> tables[j] == TableOfColumn(df)(cats[j])
    {
      var table := CategoryTableFor(df, cats[i]);
      tables := tables + [table];
      i := i + 1;
    }
  }

  /** Lines 87-99: the missing-value table, column after column. */
  method MissingTable(df: Table) returns (missing: Option<seq<MissingRow>>)
    requires Valid(df)
    ensures missing == MissingSection(df)
  {
    missing := None;
    if TotalMissing(df) > 0 {
      var lines: seq<MissingRow> := [];
      var c := 0;
      while c < |df.columns|
        invariant 0 <= c <= |df.columns|
        invariant lines == MissingRowsUpTo(df, c)
      {
        MissingRowsSnoc(df, c);
        if ColumnMissing(df, c) > 0 {
          lines := lines + [MissingRowOf(df, c)];
        }
        c := c + 1;
      }
      missing := Some(lines);
    }
  }

  /** Lines 214-217: the data-type table, column after column. */
  method DtypeTable(df: Table) returns (dtypes: seq<DtypeRow>)
    requires Valid(df)
    ensures dtypes == seq(|df.columns|, c requires 0 <= c < |df.columns| => DtypeRowOf(df, c))
  {
    dtypes := [];
    var c := 0;
    while c < |df.columns|
      invariant 0 <= c <= |df.columns|
      invariant dtypes == seq(c, j requires 0 <= j < c => DtypeRowOf(df, j))
    {
      dtypes := dtypes + [DtypeRow(df.columns[c].name, df.columns[c].dtype,
                                   ColumnPresent(df, c), ColumnMissing(df, c))];
      c := c + 1;
    }
  }

  /** `generate_html_report`: the sections are built one after another. */
  method GenerateReport(df: Table) returns (r: HtmlReport)
    requires Valid(df)
    ensures r == ReportOf(df)
  {
    var numeric := NumericColumns(df);
    var categorical := CategoricalTables(df);
    var missing := MissingTable(df);
    var dtypes := DtypeTable(df);
    r := HtmlReport(
      |df.rows|, |df.columns|, TotalMissing(df),
      if |numeric| > 0 then Some(numeric) else None,
      categorical, missing,
      if |numeric| > 1 then Some(numeric) else None,
      Head(df, 10), dtypes);
  }
}
