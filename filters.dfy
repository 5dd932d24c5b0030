/** The filtering panel (app.py lines 289-322): `display_df` starts as a copy
    of the loaded frame and is narrowed by a numeric range filter, a category
    membership filter, a column projection and `head(max_rows)`, in that
    order. */
module Filters {
  import opened Wrappers
  import opened Seqs
  import opened Tables

  /** pandas raises KeyError when a filter names an absent column; the
      analyzer's outer `except` turns it into an error message. */
  datatype FilterError = ColumnNotFound(name: string)

  /** The panel's choices. `None` is the "なし" (none) entry of a selectbox;
      `lo`/`hi` are the range slider's ends; `selectedValues` the category
      multiselect; `selectedColumns` the column multiselect, in the order
      chosen; `maxRows` the row-count slider. */
  datatype FilterSpec = FilterSpec(
    numericColumn: Option<string>, lo: real, hi: real,
    categoryColumn: Option<string>, selectedValues: seq<Cell>,
    selectedColumns: seq<string>,
    maxRows: nat)

  /** `(col >= lo) & (col <= hi)` on one cell: a missing value compares
      false on both sides. */
  predicate InRange(c: Cell, lo: real, hi: real) {
    c.Num? && lo <= c.v && c.v <= hi
  }

  function RangeMask(t: Table, c: nat, lo: real, hi: real): (m: seq<bool>)
    requires Valid(t) && c < |t.columns|
    ensures |m| == |t.rows|
    ensures forall k :: 0 <= k < |t.rows| ==> (m[k] <==> InRange(t.rows[k][c], lo, hi))
  {
    seq(|t.rows|, k requires 0 <= k < |t.rows| => InRange(t.rows[k][c], lo, hi))
  }

  /** `col.isin(values)`. A missing cell matches a missing entry of the
      selection, as pandas' `isin` matches NaN with NaN. */
  function MemberMask(t: Table, c: nat, values: seq<Cell>): (m: seq<bool>)
    requires Valid(t) && c < |t.columns|
    ensures |m| == |t.rows|
    ensures forall k :: 0 <= k < |t.rows| ==> (m[k] <==> t.rows[k][c] in values)
  {
    seq(|t.rows|, k requires 0 <= k < |t.rows| => t.rows[k][c] in values)
  }

  /** Stage 1 (lines 300-303): keeps exactly the rows whose cell in the named
      column is a number within [lo, hi], in order and with their labels. */
  function RangeFilter(t: Table, name: string, lo: real, hi: real): (r: Result<Table, FilterError>)
    requires Valid(t)
    ensures r.Err? <==> ColumnIndex(t.columns, name).None?
    ensures r.Err? ==> r.error == ColumnNotFound(name)
    ensures r.Ok? ==> Valid(r.value)
    ensures r.Ok? ==>
              var c := ColumnIndex(t.columns, name).value;
              var p := Kept(RangeMask(t, c, lo, hi));
              && RowsAt(r.value, t, p)
              && forall k :: 0 <= k < |t.rows| ==> (k in p <==> InRange(t.rows[k][c], lo, hi))
  {
    match ColumnIndex(t.columns, name)
    case None => Err(ColumnNotFound(name))
    case Some(c) => Ok(Select(t, RangeMask(t, c, lo, hi)))
  }

  /** Stage 2 (lines 306-315): the column is looked up first (`df[col].unique()`
      raises for an absent one); an empty selection leaves the frame as it
      is; otherwise exactly the rows whose cell is one of the selected values
      remain. */
  function CategoryFilter(t: Table, name: string, values: seq<Cell>): (r: Result<Table, FilterError>)
    requires Valid(t)
    ensures r.Err? <==> ColumnIndex(t.columns, name).None?
    ensures r.Err? ==> r.error == ColumnNotFound(name)
    ensures r.Ok? ==> Valid(r.value)
    ensures r.Ok? && values == [] ==> r.value == t
    ensures r.Ok? && values != [] ==>
              var c := ColumnIndex(t.columns, name).value;
              var p := Kept(MemberMask(t, c, values));
              && RowsAt(r.value, t, p)
              && forall k :: 0 <= k < |t.rows| ==> (k in p <==> t.rows[k][c] in values)
  {
    match ColumnIndex(t.columns, name)
    case None => Err(ColumnNotFound(name))
    case Some(c) => if values == [] then Ok(t) else Ok(Select(t, MemberMask(t, c, values)))
  }

  /** The column positions of `names`, in the order given, or the first
      name that is not a column. */
  function Lookup(cols: seq<Column>, names: seq<string>): (r: Result<seq<nat>, FilterError>)
    ensures r.Ok? <==> forall j :: 0 <= j < |names| ==> ColumnIndex(cols, names[j]).Some?
    ensures r.Ok? ==> |r.value| == |names|
    ensures r.Ok? ==> forall j :: 0 <= j < |names| ==> ColumnIndex(cols, names[j]) == Some(r.value[j])
    ensures r.Err? ==> exists j :: 0 <= j < |names| && ColumnIndex(cols, names[j]).None?
                                    && r.error == ColumnNotFound(names[j])
  {
    if names == [] then Ok([])
    else match ColumnIndex(cols, names[0])
      case None => Err(ColumnNotFound(names[0]))
      case Some(c) =>
        match Lookup(cols, names[1..])
        case Err(e) => Err(e)
        case Ok(rest) => Ok([c] + rest)
  }

  function ProjectRow(row: Row, pos: seq<nat>): (r: Row)
    requires forall j :: 0 <= j < |pos| ==> pos[j] < |row|
    ensures |r| == |pos| && forall j :: 0 <= j < |pos| ==> r[j] == row[pos[j]]
  {
    seq(|pos|, j requires 0 <= j < |pos| => row[pos[j]])
  }

  /** `display_df[selected_columns]` with the columns at positions pos. */
  function ProjectAt(t: Table, pos: seq<nat>): (r: Table)
    requires Valid(t) && forall j :: 0 <= j < |pos| ==> pos[j] < |t.columns|
    ensures Valid(r) && |r.rows| == |t.rows| && r.index == t.index
    ensures |r.columns| == |pos| && forall j :: 0 <= j < |pos| ==> r.columns[j] == t.columns[pos[j]]
  {
    Table(Pick(t.columns, pos),
          seq(|t.rows|, i requires 0 <= i < |t.rows| => ProjectRow(t.rows[i], pos)),
          t.index)
  }

  /** Stage 3 (lines 318-319): no selection keeps every column; otherwise the
      columns become exactly the selected ones, in the selected order. The
      rows and their labels are never changed in number or order. */
  function Project(t: Table, names: seq<string>): (r: Result<Table, FilterError>)
    requires Valid(t)
    ensures names == [] ==> r == Ok(t)
    ensures r.Err? <==> exists j :: 0 <= j < |names| && ColumnIndex(t.columns, names[j]).None?
    ensures r.Ok? ==> Valid(r.value) && |r.value.rows| == |t.rows| && r.value.index == t.index
    ensures r.Ok? && names != [] ==>
              && |r.value.columns| == |names|
              && forall j :: 0 <= j < |names| ==> r.value.columns[j].name == names[j]
    ensures r.Ok? && names != [] ==>
              forall j :: 0 <= j < |names| ==>
                r.value.columns[j].dtype == t.columns[ColumnIndex(t.columns, names[j]).value].dtype
    ensures r.Ok? && names != [] ==>
              forall i, j :: 0 <= i < |t.rows| && 0 <= j < |names| ==>
                r.value.rows[i][j] == t.rows[i][ColumnIndex(t.columns, names[j]).value]
  {
    if names == [] then Ok(t)
    else match Lookup(t.columns, names)
      case Err(e) => Err(e)
      case Ok(pos) => Ok(ProjectAt(t, pos))
  }

  // ----- the independent description of the whole panel -----

  /** The kept rows, in order, each narrowed to the positions pos. */
  function ProjectRows(rows: seq<Row>, keep: seq<nat>, pos: seq<nat>): (r: seq<Row>)
    requires forall i :: 0 <= i < |keep| ==> keep[i] < |rows|
    requires forall i, j :: 0 <= i < |keep| && 0 <= j < |pos| ==> pos[j] < |rows[keep[i]]|
    ensures |r| == |keep| && forall i :: 0 <= i < |keep| ==> r[i] == ProjectRow(rows[keep[i]], pos)
  {
    seq(|keep|, i requires 0 <= i < |keep| => ProjectRow(rows[keep[i]], pos))
  }

  /** The rows the range filter lets through (all rows when it is off). */
  function RangePass(df: Table, spec: FilterSpec): (m: seq<bool>)
    requires Valid(df)
    ensures |m| == |df.rows|
  {
    match spec.numericColumn
    case None => AllTrue(|df.rows|)
    case Some(name) =>
      match ColumnIndex(df.columns, name)
      case None => AllTrue(|df.rows|)
      case Some(c) => RangeMask(df, c, spec.lo, spec.hi)
  }

  /** The rows the category filter lets through (all rows when it is off or
      nothing is selected). */
  function CategoryPass(df: Table, spec: FilterSpec): (m: seq<bool>)
    requires Valid(df)
    ensures |m| == |df.rows|
  {
    match spec.categoryColumn
    case None => AllTrue(|df.rows|)
    case Some(name) =>
      match ColumnIndex(df.columns, name)
      case None => AllTrue(|df.rows|)
      case Some(c) => if spec.selectedValues == [] then AllTrue(|df.rows|) else MemberMask(df, c, spec.selectedValues)
  }

  function PassMask(df: Table, spec: FilterSpec): (m: seq<bool>)
    requires Valid(df)
    ensures |m| == |df.rows|
  {
    And(RangePass(df, spec), CategoryPass(df, spec))
  }

  /** The first error the panel raises, if any: the range column, then the
      category column, then the first absent selected column. */
  function PanelError(df: Table, spec: FilterSpec): Option<FilterError> {
    if spec.numericColumn.Some? && ColumnIndex(df.columns, spec.numericColumn.value).None? then
      Some(ColumnNotFound(spec.numericColumn.value))
    else if spec.categoryColumn.Some? && ColumnIndex(df.columns, spec.categoryColumn.value).None? then
      Some(ColumnNotFound(spec.categoryColumn.value))
    else if spec.selectedColumns != [] && Lookup(df.columns, spec.selectedColumns).Err? then
      Some(Lookup(df.columns, spec.selectedColumns).error)
    else None
  }

  /** What the panel shows, stated at once rather than stage by stage: the
      first `maxRows` source rows that pass both row filters, in source
      order and with their labels, each narrowed to the selected columns. */
  function Reference(df: Table, spec: FilterSpec): Result<Table, FilterError>
    requires Valid(df)
  {
    match PanelError(df, spec)
    case Some(e) => Err(e)
    case None =>
      var keep := Take(Kept(PassMask(df, spec)), spec.maxRows);
      if spec.selectedColumns == [] then
        Ok(Table(df.columns, Pick(df.rows, keep), Pick(df.index, keep)))
      else
        var pos := Lookup(df.columns, spec.selectedColumns).value;
        Ok(Table(Pick(df.columns, pos),
                 ProjectRows(df.rows, keep, pos),
                 Pick(df.index, keep)))
  }

  /** The panel as the source runs it: `display_df` is reassigned by each
      stage in turn. The result is the one-shot description above. */
  method ApplyFilters(df: Table, spec: FilterSpec) returns (r: Result<Table, FilterError>)
    requires Valid(df)
    ensures r == Reference(df, spec)
  {
    ErrorOrder(df, spec);
    var view := df;
    if spec.numericColumn.Some? {
      var filtered := RangeFilter(view, spec.numericColumn.value, spec.lo, spec.hi);
      if filtered.Err? {
        return Err(filtered.error);
      }
      view := filtered.value;
    }
    RangeStage(df, spec);
    assert view == Select(df, RangePass(df, spec));
    if spec.categoryColumn.Some? {
      var filtered := CategoryFilter(view, spec.categoryColumn.value, spec.selectedValues);
      if filtered.Err? {
        return Err(filtered.error);
      }
      view := filtered.value;
    }
    CategoryStage(df, spec);
    assert view == Select(df, PassMask(df, spec));
    ProjectFails(view, spec.selectedColumns);
    var projected := Project(view, spec.selectedColumns);
    if projected.Err? {
      return Err(projected.error);
    }
    view := projected.value;
    view := Head(view, spec.maxRows);
    r := Ok(view);
    LastStagesMatch(df, spec);
  }

  /** Stage 1 as a selection with the panel's range mask. */
  lemma RangeStage(df: Table, spec: FilterSpec)
    requires Valid(df)
    ensures spec.numericColumn.None? ==> df == Select(df, RangePass(df, spec))
    ensures spec.numericColumn.Some? && ColumnIndex(df.columns, spec.numericColumn.value).Some? ==>
              RangeFilter(df, spec.numericColumn.value, spec.lo, spec.hi) == Ok(Select(df, RangePass(df, spec)))
  {
    SelectAllTrue(df);
  }

  /** Stage 2, applied to the output of stage 1, as one selection with the
      panel's combined mask. */
  lemma CategoryStage(df: Table, spec: FilterSpec)
    requires Valid(df)
    ensures var v := Select(df, RangePass(df, spec));
            && (spec.categoryColumn.None? ==> v == Select(df, PassMask(df, spec)))
            && (spec.categoryColumn.Some? && ColumnIndex(df.columns, spec.categoryColumn.value).Some? ==>
                  CategoryFilter(v, spec.categoryColumn.value, spec.selectedValues) == Ok(Select(df, PassMask(df, spec))))
  {
    var m1, m := RangePass(df, spec), CategoryPass(df, spec);
    var v := Select(df, m1);
    if spec.categoryColumn.Some? && ColumnIndex(df.columns, spec.categoryColumn.value).Some? && spec.selectedValues != [] {
      var c := ColumnIndex(df.columns, spec.categoryColumn.value).value;
      SelectSelect(df, m1, m, MemberMask(v, c, spec.selectedValues));
    } else {
      assert And(m1, m) == m1;
    }
  }

  /** Which stage fails first decides the panel's error. */
  lemma ErrorOrder(df: Table, spec: FilterSpec)
    requires Valid(df)
    ensures spec.numericColumn.Some? && ColumnIndex(df.columns, spec.numericColumn.value).None? ==>
              Reference(df, spec) == Err(ColumnNotFound(spec.numericColumn.value))
    ensures (spec.numericColumn.None? || ColumnIndex(df.columns, spec.numericColumn.value).Some?) &&
            spec.categoryColumn.Some? && ColumnIndex(df.columns, spec.categoryColumn.value).None? ==>
              Reference(df, spec) == Err(ColumnNotFound(spec.categoryColumn.value))
    ensures (spec.numericColumn.None? || ColumnIndex(df.columns, spec.numericColumn.value).Some?) &&
            (spec.categoryColumn.None? || ColumnIndex(df.columns, spec.categoryColumn.value).Some?) ==>
              && (spec.selectedColumns != [] && Lookup(df.columns, spec.selectedColumns).Err? ==>
                    Reference(df, spec) == Err(Lookup(df.columns, spec.selectedColumns).error))
              && (spec.selectedColumns == [] || Lookup(df.columns, spec.selectedColumns).Ok? ==>
                    PanelError(df, spec).None?)
  {
  }

  /** Projection fails exactly when a selected name is not a column, with the
      error of the lookup. */
  lemma ProjectFails(t: Table, names: seq<string>)
    requires Valid(t)
    ensures Project(t, names).Err? <==> names != [] && Lookup(t.columns, names).Err?
    ensures Project(t, names).Err? ==> Project(t, names).error == Lookup(t.columns, names).error
  {
  }

  /** `head` of a projected row selection: the first selected rows, each
      narrowed to the chosen positions. */
  lemma HeadOfProjected(df: Table, mask: seq<bool>, pos: seq<nat>, n: nat)
    requires Valid(df) && |mask| == |df.rows|
    requires forall j :: 0 <= j < |pos| ==> pos[j] < |df.columns|
    ensures var keep := Take(Kept(mask), n);
            Head(ProjectAt(Select(df, mask), pos), n) ==
              Table(Pick(df.columns, pos),
                    ProjectRows(df.rows, keep, pos),
                    Pick(df.index, keep))
  {
    var keep := Take(Kept(mask), n);
    var v := Select(df, mask);
    var h := Head(ProjectAt(v, pos), n);
    assert |h.rows| == |keep|;
    forall i | 0 <= i < |keep| ensures h.rows[i] == ProjectRow(df.rows[keep[i]], pos) {
      assert h.rows[i] == ProjectAt(v, pos).rows[i] == ProjectRow(v.rows[i], pos);
    }
    assert forall i :: 0 <= i < |keep| ==> h.index[i] == df.index[keep[i]];
  }

  /** Projection and `head` applied to the row-filtered frame give the
      one-shot description. */
  lemma LastStagesMatch(df: Table, spec: FilterSpec)
    requires Valid(df) && PanelError(df, spec).None?
    ensures var v := Select(df, PassMask(df, spec));
            && Project(v, spec.selectedColumns).Ok?
            && Ok(Head(Project(v, spec.selectedColumns).value, spec.maxRows)) == Reference(df, spec)
  {
    var v := Select(df, PassMask(df, spec));
    if spec.selectedColumns == [] {
      HeadOfSelect(df, PassMask(df, spec), spec.maxRows);
    } else {
      var pos := Lookup(df.columns, spec.selectedColumns).value;
      assert Project(v, spec.selectedColumns) == Ok(ProjectAt(v, pos));
      HeadOfProjected(df, PassMask(df, spec), pos, spec.maxRows);
    }
  }

  /** Row k of the source satisfies both active row filters, stated on the
      cells themselves. */
  predicate Passes(df: Table, spec: FilterSpec, k: nat)
    requires Valid(df) && PanelError(df, spec).None? && k < |df.rows|
  {
    && (spec.numericColumn.Some? ==>
          InRange(df.rows[k][ColumnIndex(df.columns, spec.numericColumn.value).value], spec.lo, spec.hi))
    && (spec.categoryColumn.Some? && spec.selectedValues != [] ==>
          df.rows[k][ColumnIndex(df.columns, spec.categoryColumn.value).value] in spec.selectedValues)
  }

  /** The panel's mask holds exactly for the rows that pass. */
  lemma PassMaskMeaning(df: Table, spec: FilterSpec, k: nat)
    requires Valid(df) && PanelError(df, spec).None? && k < |df.rows|
    ensures PassMask(df, spec)[k] <==> Passes(df, spec, k)
  {
  }

  /** The rows the panel shows: at most `maxRows` of them, each a source row
      that passes both row filters, in source order, with its label. */
  lemma PanelRows(df: Table, spec: FilterSpec)
    requires Valid(df) && PanelError(df, spec).None?
    ensures Reference(df, spec).Ok?
    ensures var v := Reference(df, spec).value;
            var keep := Take(Kept(PassMask(df, spec)), spec.maxRows);
            && Valid(v)
            && |v.rows| == |keep| <= spec.maxRows
            && Increasing(keep)
            && forall i :: 0 <= i < |keep| ==>
                 keep[i] < |df.rows| && Passes(df, spec, keep[i]) && v.index[i] == df.index[keep[i]]
  {
    var K := Kept(PassMask(df, spec));
    var keep := Take(K, spec.maxRows);
    ReferenceShape(df, spec, keep);
    assert Increasing(keep) by {
      assert forall i :: 0 <= i < |keep| ==> keep[i] == K[i];
    }
    forall i | 0 <= i < |keep| ensures keep[i] < |df.rows| && Passes(df, spec, keep[i]) {
      assert keep[i] == K[i];
      PassMaskMeaning(df, spec, keep[i]);
    }
  }

  /** Whatever the column selection, the view is a well-formed frame with
      one row and one label per kept source row. */
  lemma ReferenceShape(df: Table, spec: FilterSpec, keep: seq<nat>)
    requires Valid(df) && PanelError(df, spec).None?
    requires keep == Take(Kept(PassMask(df, spec)), spec.maxRows)
    ensures Reference(df, spec).Ok?
    ensures Valid(Reference(df, spec).value)
    ensures |Reference(df, spec).value.rows| == |keep|
    ensures Reference(df, spec).value.index == Pick(df.index, keep)
  {
    if spec.selectedColumns == [] {
      assert Reference(df, spec) == Ok(Table(df.columns, Pick(df.rows, keep), Pick(df.index, keep)));
    } else {
      ProjectedReference(df, spec, keep);
    }
  }

  lemma ProjectedReference(df: Table, spec: FilterSpec, keep: seq<nat>)
    requires Valid(df) && PanelError(df, spec).None? && spec.selectedColumns != []
    requires keep == Take(Kept(PassMask(df, spec)), spec.maxRows)
    ensures Reference(df, spec).Ok?
    ensures Valid(Reference(df, spec).value)
    ensures |Reference(df, spec).value.rows| == |keep|
    ensures Reference(df, spec).value.index == Pick(df.index, keep)
  {
    var pos := Lookup(df.columns, spec.selectedColumns).value;
    assert Reference(df, spec) == Ok(Table(Pick(df.columns, pos), ProjectRows(df.rows, keep, pos), Pick(df.index, keep)));
    ProjectedRowsValid(df, keep, pos);
  }

  /** Rows narrowed to the positions pos have one cell per chosen column. */
  lemma ProjectedRowsValid(df: Table, keep: seq<nat>, pos: seq<nat>)
    requires Valid(df)
    requires forall i :: 0 <= i < |keep| ==> keep[i] < |df.rows|
    requires forall j :: 0 <= j < |pos| ==> pos[j] < |df.columns|
    ensures Valid(Table(Pick(df.columns, pos),
                        ProjectRows(df.rows, keep, pos),
                        Pick(df.index, keep)))
  {
  }

  /** No passing row is skipped: a passing source row is missing from the
      view only when `maxRows` earlier passing rows already fill it. */
  lemma PanelFirstRows(df: Table, spec: FilterSpec, k: nat)
    requires Valid(df) && PanelError(df, spec).None?
    requires k < |df.rows| && Passes(df, spec, k)
    ensures var keep := Take(Kept(PassMask(df, spec)), spec.maxRows);
            k !in keep ==> |keep| == spec.maxRows && forall i :: 0 <= i < |keep| ==> keep[i] < k
  {
    var K := Kept(PassMask(df, spec));
    var keep := Take(K, spec.maxRows);
    PassMaskMeaning(df, spec, k);
    if k !in keep {
      assert k in K;
      var j :| 0 <= j < |K| && K[j] == k;
      assert |keep| <= j;
    }
  }

  /** The columns the panel shows: all of them, unchanged, when none is
      selected; otherwise exactly the selected ones in the selected order,
      each cell taken from the named source column. */
  lemma PanelColumns(df: Table, spec: FilterSpec)
    requires Valid(df) && PanelError(df, spec).None?
    ensures Reference(df, spec).Ok?
    ensures var v := Reference(df, spec).value;
            var keep := Take(Kept(PassMask(df, spec)), spec.maxRows);
            && |v.rows| == |keep|
            && (spec.selectedColumns == [] ==>
                  v.columns == df.columns && forall i :: 0 <= i < |keep| ==> v.rows[i] == df.rows[keep[i]])
            && (spec.selectedColumns != [] ==>
                  && Names(v.columns) == spec.selectedColumns
                  && forall i, j :: 0 <= i < |keep| && 0 <= j < |spec.selectedColumns| ==>
                       v.rows[i][j] == df.rows[keep[i]][ColumnIndex(df.columns, spec.selectedColumns[j]).value])
  {
    if spec.selectedColumns != [] {
      var v := Reference(df, spec).value;
      assert Names(v.columns) == spec.selectedColumns;
    }
  }
}
