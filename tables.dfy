/** The DataFrame the analyzer works on: named, typed columns over rows of
    cells, with pandas' row index labels. Values are immutable, so every
    stage that "filters" a frame builds a new one, as pandas does. */
module Tables {
  import opened Wrappers
  import opened Seqs

  /** A cell: a number (a float in pandas, an exact real here), a string,
      or missing (NaN / None). */
  datatype Cell = Num(v: real) | Str(s: string) | Missing

  /** The pandas dtype family of a column, as `select_dtypes` sees it:
      `number`, `object` (strings and mixed values), or anything else
      (datetimes, booleans, categories). */
  datatype DType = Number | Object | Other

  datatype Column = Column(name: string, dtype: DType)

  type Row = seq<Cell>

  datatype Table = Table(columns: seq<Column>, rows: seq<Row>, index: seq<nat>)

  /** Every row has one cell per column and one index label. */
  predicate Valid(t: Table) {
    && |t.index| == |t.rows|
    && forall i :: 0 <= i < |t.rows| ==> |t.rows[i]| == |t.columns|
  }

  /** The index a freshly loaded frame has: labels 0, 1, 2, ... */
  predicate DefaultIndex(t: Table) {
    && |t.index| == |t.rows|
    && forall i :: 0 <= i < |t.index| ==> t.index[i] == i
  }

  predicate UniqueNames(cols: seq<Column>) {
    forall i, j :: 0 <= i < j < |cols| ==> cols[i].name != cols[j].name
  }

  function Names(cols: seq<Column>): (r: seq<string>)
    ensures |r| == |cols| && forall k :: 0 <= k < |cols| ==> r[k] == cols[k].name
  {
    seq(|cols|, k requires 0 <= k < |cols| => cols[k].name)
  }

  /** The position of the column called `name` (`df[name]`), or None where
      pandas raises KeyError. */
  function ColumnIndex(cols: seq<Column>, name: string): (r: Option<nat>)
    ensures r.Some? ==> r.value < |cols| && cols[r.value].name == name
    ensures r.Some? ==> forall k :: 0 <= k < r.value ==> cols[k].name != name
    ensures r.None? ==> forall k :: 0 <= k < |cols| ==> cols[k].name != name
  {
    if cols == [] then None
    else if cols[0].name == name then Some(0)
    else match ColumnIndex(cols[1..], name)
         case None => None
         case Some(i) => Some(i + 1)
  }

  /** The cells of column c, top to bottom (`df[col]`). */
  function ColumnValues(t: Table, c: nat): (r: seq<Cell>)
    requires Valid(t) && c < |t.columns|
    ensures |r| == |t.rows| && forall i :: 0 <= i < |t.rows| ==> r[i] == t.rows[i][c]
  {
    seq(|t.rows|, i requires 0 <= i < |t.rows| => t.rows[i][c])
  }

  /** r holds the rows of t at the ascending positions p, with their index
      labels and t's columns: an order-preserving sub-frame of t. */
  predicate RowsAt(r: Table, t: Table, p: seq<nat>) {
    && r.columns == t.columns
    && |r.rows| == |p| && |r.index| == |p| && |t.index| == |t.rows|
    && Increasing(p)
    && forall i :: 0 <= i < |p| ==>
         p[i] < |t.rows| && r.rows[i] == t.rows[p[i]] && r.index[i] == t.index[p[i]]
  }

  /** Boolean indexing `df[mask]`: the rows where the mask holds, in order,
      with their index labels. */
  function Select(t: Table, mask: seq<bool>): (r: Table)
    requires Valid(t) && |mask| == |t.rows|
    ensures Valid(r) && RowsAt(r, t, Kept(mask))
  {
    var p := Kept(mask);
    Table(t.columns, Pick(t.rows, p), Pick(t.index, p))
  }

  /** A mask that keeps every row leaves the frame as it was. */
  lemma SelectAllTrue(t: Table)
    requires Valid(t)
    ensures Select(t, AllTrue(|t.rows|)) == t
  {
    KeptAllTrue(|t.rows|);
    var r := Select(t, AllTrue(|t.rows|));
    assert r.rows == t.rows;
    assert r.index == t.index;
  }

  /** Two successive boolean selections are one selection with the
      conjunction of the masks, when the second mask tests the rows that the
      first one kept. */
  lemma SelectSelect(t: Table, m1: seq<bool>, m: seq<bool>, m2: seq<bool>)
    requires Valid(t) && |m1| == |t.rows| && |m| == |t.rows|
    requires |m2| == |Kept(m1)|
    requires forall i :: 0 <= i < |m2| ==> m2[i] == m[Kept(m1)[i]]
    ensures Select(Select(t, m1), m2) == Select(t, And(m1, m))
  {
    KeptCompose(m1, m, m2);
    var p1, p2 := Kept(m1), Kept(m2);
    var lhs, rhs := Select(Select(t, m1), m2), Select(t, And(m1, m));
    assert lhs.rows == rhs.rows;
    assert lhs.index == rhs.index;
  }

  /** `df.head(n)`: the first n rows (all of them when there are fewer). */
  function Head(t: Table, n: nat): (r: Table)
    requires Valid(t)
    ensures Valid(r) && r.columns == t.columns
    ensures |r.rows| <= n && |r.rows| <= |t.rows|
    ensures |r.rows| == n || r == t
    ensures r.rows == t.rows[..|r.rows|] && r.index == t.index[..|r.rows|]
  {
    Table(t.columns, Take(t.rows, n), Take(t.index, n))
  }

  /** `head` of a row selection keeps the first selected positions. */
  lemma HeadOfSelect(df: Table, mask: seq<bool>, n: nat)
    requires Valid(df) && |mask| == |df.rows|
    ensures var keep := Take(Kept(mask), n);
            Head(Select(df, mask), n) == Table(df.columns, Pick(df.rows, keep), Pick(df.index, keep))
  {
    var keep := Take(Kept(mask), n);
    var h := Head(Select(df, mask), n);
    assert |h.rows| == |keep|;
    assert forall i :: 0 <= i < |keep| ==> h.rows[i] == df.rows[keep[i]];
    assert forall i :: 0 <= i < |keep| ==> h.index[i] == df.index[keep[i]];
  }

  /** Mask of the columns whose dtype is d. */
  function DtypeMask(cols: seq<Column>, d: DType): (m: seq<bool>)
    ensures |m| == |cols| && forall k :: 0 <= k < |cols| ==> (m[k] <==> cols[k].dtype == d)
  {
    seq(|cols|, k requires 0 <= k < |cols| => cols[k].dtype == d)
  }

  /** The names of `df.select_dtypes(include=[d]).columns`: each column of dtype d, and no other. */
  function SelectDtypes(cols: seq<Column>, d: DType): (names: seq<string>)
    ensures |names| <= |cols|
    ensures forall k :: 0 <= k < |cols| && cols[k].dtype == d ==> cols[k].name in names
    ensures forall i :: 0 <= i < |names| ==>
              exists k :: 0 <= k < |cols| && cols[k].dtype == d && cols[k].name == names[i]
  {
    var p := Kept(DtypeMask(cols, d));
    var names := Pick(Names(cols), p);
    assert forall k :: 0 <= k < |cols| && cols[k].dtype == d ==> k in p;
    assert forall i :: 0 <= i < |names| ==> cols[p[i]].name == names[i];
    names
  }

  /** `numeric_cols` (app.py line 270). */
  function NumericColumns(t: Table): seq<string> {
    SelectDtypes(t.columns, Number)
  }

  /** `categorical_cols` (app.py line 271). */
  function CategoricalColumns(t: Table): seq<string> {
    SelectDtypes(t.columns, Object)
  }

  /** With unique column names, a column's name is selected for dtype d
      exactly when the column has dtype d. */
  lemma SelectDtypesMember(cols: seq<Column>, d: DType, k: nat)
    requires UniqueNames(cols) && k < |cols|
    ensures cols[k].name in SelectDtypes(cols, d) <==> cols[k].dtype == d
  {
    if cols[k].name in SelectDtypes(cols, d) {
      var names := SelectDtypes(cols, d);
      var i :| 0 <= i < |names| && names[i] == cols[k].name;
      var j :| 0 <= j < |cols| && cols[j].dtype == d && cols[j].name == names[i];
      assert j == k;
    }
  }

  /** With unique column names, a column is numeric exactly when its dtype is
      number and categorical exactly when its dtype is object; no column is
      both, and a column of another dtype is neither. */
  lemma SchemaSplit(t: Table, k: nat)
    requires UniqueNames(t.columns) && k < |t.columns|
    ensures t.columns[k].name in NumericColumns(t) <==> t.columns[k].dtype == Number
    ensures t.columns[k].name in CategoricalColumns(t) <==> t.columns[k].dtype == Object
    ensures !(t.columns[k].name in NumericColumns(t) && t.columns[k].name in CategoricalColumns(t))
    ensures t.columns[k].dtype == Other ==>
              t.columns[k].name !in NumericColumns(t) && t.columns[k].name !in CategoricalColumns(t)
  {
    SelectDtypesMember(t.columns, Number, k);
    SelectDtypesMember(t.columns, Object, k);
  }

  /** The number of rows whose cell c is missing. */
  function MissingIn(rows: seq<Row>, c: nat): (m: nat)
    requires forall i :: 0 <= i < |rows| ==> c < |rows[i]|
    ensures m <= |rows|
  {
    if rows == [] then 0
    else MissingIn(rows[..|rows| - 1], c) + (if rows[|rows| - 1][c] == Missing then 1 else 0)
  }

  /** `df[c].isnull().sum()`. */
  function ColumnMissing(t: Table, c: nat): (m: nat)
    requires Valid(t) && c < |t.columns|
    ensures m <= |t.rows|
  {
    MissingIn(t.rows, c)
  }

  /** The missing count is the number of missing cells of the column; it
      is positive exactly when one of them is missing. */
  lemma {:induction false} ColumnMissingCount(t: Table, c: nat)
    requires Valid(t) && c < |t.columns|
    ensures ColumnMissing(t, c) == Count(ColumnValues(t, c), Missing)
    decreases |t.rows|
  {
    if t.rows != [] {
      var init := Table(t.columns, t.rows[..|t.rows| - 1], t.index[..|t.rows| - 1]);
      ColumnMissingCount(init, c);
      assert ColumnValues(t, c)[..|t.rows| - 1] == ColumnValues(init, c);
    }
  }

  lemma {:induction false} MissingInPositive(rows: seq<Row>, c: nat)
    requires forall i :: 0 <= i < |rows| ==> c < |rows[i]|
    ensures MissingIn(rows, c) > 0 <==> exists k :: 0 <= k < |rows| && rows[k][c] == Missing
  {
    if rows != [] {
      var init := rows[..|rows| - 1];
      MissingInPositive(init, c);
      if MissingIn(init, c) > 0 {
        var k :| 0 <= k < |init| && init[k][c] == Missing;
        assert rows[k][c] == Missing;
      }
      if exists k :: 0 <= k < |rows| && rows[k][c] == Missing {
        var k :| 0 <= k < |rows| && rows[k][c] == Missing;
        if k < |init| {
          assert init[k][c] == Missing;
        }
      }
    }
  }

  /** A column has a missing count above zero exactly when one of its cells
      is missing. */
  lemma ColumnMissingPositive(t: Table, c: nat)
    requires Valid(t) && c < |t.columns|
    ensures ColumnMissing(t, c) > 0 <==> exists k :: 0 <= k < |t.rows| && t.rows[k][c] == Missing
  {
    MissingInPositive(t.rows, c);
  }

  /** The number of rows whose cell c is present. */
  function PresentIn(rows: seq<Row>, c: nat): (m: nat)
    requires forall i :: 0 <= i < |rows| ==> c < |rows[i]|
    ensures m <= |rows|
  {
    if rows == [] then 0
    else PresentIn(rows[..|rows| - 1], c) + (if rows[|rows| - 1][c] != Missing then 1 else 0)
  }

  /** `df[col].count()`: the non-missing cells of column c. */
  function ColumnPresent(t: Table, c: nat): (m: nat)
    requires Valid(t) && c < |t.columns|
    ensures m <= |t.rows|
  {
    PresentIn(t.rows, c)
  }

  /** Every cell is either present or missing. */
  lemma {:induction false} PresentInComplement(rows: seq<Row>, c: nat)
    requires forall i :: 0 <= i < |rows| ==> c < |rows[i]|
    ensures PresentIn(rows, c) + MissingIn(rows, c) == |rows|
  {
    if rows != [] {
      PresentInComplement(rows[..|rows| - 1], c);
    }
  }

  /** `count()` and `isnull().sum()` of a column add up to its length. */
  lemma ColumnPresentComplement(t: Table, c: nat)
    requires Valid(t) && c < |t.columns|
    ensures ColumnPresent(t, c) + ColumnMissing(t, c) == |t.rows|
  {
    PresentInComplement(t.rows, c);
  }

  /** The present numeric values of a column, in row order (`dropna()`). */
  function NumValues(cells: seq<Cell>): (xs: seq<real>)
    ensures |xs| <= |cells|
    ensures forall i :: 0 <= i < |xs| ==> Num(xs[i]) in cells
    ensures forall i :: 0 <= i < |cells| && cells[i].Num? ==> cells[i].v in xs
  {
    if cells == [] then []
    else
      var init := NumValues(cells[..|cells| - 1]);
      var last := cells[|cells| - 1];
      assert forall i :: 0 <= i < |cells| - 1 ==> cells[..|cells| - 1][i] == cells[i];
      init + (if last.Num? then [last.v] else [])
  }

  /** A column without missing values contributes every value, in order. */
  lemma {:induction false} NumValuesAllPresent(cells: seq<Cell>)
    requires forall i :: 0 <= i < |cells| ==> cells[i].Num?
    ensures NumValues(cells) == seq(|cells|, i requires 0 <= i < |cells| => cells[i].v)
  {
    if cells != [] {
      NumValuesAllPresent(cells[..|cells| - 1]);
    }
  }

  /** A number column holds numbers and missing values only. */
  predicate NumericCells(cells: seq<Cell>) {
    forall i :: 0 <= i < |cells| ==> cells[i].Num? || cells[i].Missing?
  }

  /** In a number column, `dropna()` keeps every cell that is not missing. */
  lemma {:induction false} NumValuesCount(cells: seq<Cell>)
    requires NumericCells(cells)
    ensures |NumValues(cells)| + Count(cells, Missing) == |cells|
  {
    if cells != [] {
      NumValuesCount(cells[..|cells| - 1]);
    }
  }
}
