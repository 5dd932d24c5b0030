/** When the statistics tab runs its tests (app.py lines 669-675 and 694).
    Only the decisions and the samples handed to the tests are modelled;
    the tests themselves (`ttest_ind`, `shapiro`) are floating-point
    library calls. */
module Gating {
  import opened Seqs
  import opened Tables

  /** `df[g] == key` for one cell: NaN never compares equal. */
  predicate Matches(cell: Cell, key: Cell) {
    key != Missing && cell == key
  }

  function LabelMask(t: Table, g: nat, key: Cell): (m: seq<bool>)
    requires Valid(t) && g < |t.columns|
    ensures |m| == |t.rows|
    ensures forall k :: 0 <= k < |t.rows| ==> (m[k] <==> Matches(t.rows[k][g], key))
  {
    seq(|t.rows|, k requires 0 <= k < |t.rows| => Matches(t.rows[k][g], key))
  }

  /** `df[df[g] == key][x].dropna()`: the present values of column x in
      the rows labelled `key`, in row order. */
  function GroupValues(t: Table, g: nat, x: nat, key: Cell): (vs: seq<real>)
    requires Valid(t) && g < |t.columns| && x < |t.columns|
    ensures |vs| <= |t.rows|
    ensures forall v :: v in vs ==>
              exists k :: 0 <= k < |t.rows| && Matches(t.rows[k][g], key) && t.rows[k][x] == Num(v)
    ensures forall k :: 0 <= k < |t.rows| && Matches(t.rows[k][g], key) && t.rows[k][x].Num? ==>
              t.rows[k][x].v in vs
  {
    var m := LabelMask(t, g, key);
    var p := Kept(m);
    var cells := Pick(ColumnValues(t, x), p);
    var vs := NumValues(cells);
    forall v | v in vs
      ensures exists k :: 0 <= k < |t.rows| && Matches(t.rows[k][g], key) && t.rows[k][x] == Num(v)
    {
      var i :| 0 <= i < |cells| && cells[i] == Num(v);
      assert m[p[i]];
    }
    forall k | 0 <= k < |t.rows| && Matches(t.rows[k][g], key) && t.rows[k][x].Num?
      ensures t.rows[k][x].v in vs
    {
      var i :| 0 <= i < |p| && p[i] == k;
      assert cells[i] == t.rows[k][x];
    }
    vs
  }

  /** The sample read off the rows one after another: each row whose label
      equals `key` and whose value is a number contributes that number, in
      row order. `labels` and `values` are the group and value columns. */
  function MatchingValues(labels: seq<Cell>, values: seq<Cell>, key: Cell): seq<real>
    requires |labels| == |values|
  {
    if labels == [] then []
    else
      var n := |labels| - 1;
      MatchingValues(labels[..n], values[..n], key) +
        (if Matches(labels[n], key) && values[n].Num? then [values[n].v] else [])
  }

  /** `labels == key` as a mask. */
  function Marks(labels: seq<Cell>, key: Cell): (m: seq<bool>)
    ensures |m| == |labels| && forall k :: 0 <= k < |labels| ==> (m[k] <==> Matches(labels[k], key))
  {
    seq(|labels|, k requires 0 <= k < |labels| => Matches(labels[k], key))
  }

  /** `dropna` of one more cell. */
  lemma NumValuesSnoc(cells: seq<Cell>, c: Cell)
    ensures NumValues(cells + [c]) == NumValues(cells) + (if c.Num? then [c.v] else [])
  {
    assert (cells + [c])[..|cells|] == cells;
  }

  /** Selecting from one more row appends that row's value when the mask
      keeps it. */
  lemma PickKeptSnoc(values: seq<Cell>, m: seq<bool>)
    requires |values| == |m| > 0
    ensures var n := |m| - 1;
            Pick(values, Kept(m)) == Pick(values[..n], Kept(m[..n])) + (if m[n] then [values[n]] else [])
  {
    var n := |m| - 1;
    KeptSnoc(m);
    var p0 := Kept(m[..n]);
    PickPrefix(values, p0, n);
    if m[n] {
      PickSnoc(values, p0, n);
    }
  }

  /** The mask of a prefix of the labels is the prefix of the mask. */
  lemma MarksPrefix(labels: seq<Cell>, key: Cell, n: nat)
    requires n <= |labels|
    ensures Marks(labels[..n], key) == Marks(labels, key)[..n]
  {
  }

  /** One more row adds its value to the sample exactly when its label is
      the key and its cell is a number. */
  lemma SampleSnoc(labels: seq<Cell>, values: seq<Cell>, key: Cell)
    requires |labels| == |values| > 0
    ensures var n := |labels| - 1;
            NumValues(Pick(values, Kept(Marks(labels, key)))) ==
              NumValues(Pick(values[..n], Kept(Marks(labels, key)[..n]))) +
              (if Matches(labels[n], key) && values[n].Num? then [values[n].v] else [])
  {
    var n := |labels| - 1;
    var m := Marks(labels, key);
    var a := Pick(values[..n], Kept(m[..n]));
    var L := Pick(values, Kept(m));
    PickKeptSnoc(values, m);
    if m[n] {
      assert L == a + [values[n]];
      NumValuesSnoc(a, values[n]);
    } else {
      assert L == a;
    }
  }

  /** Selecting by the mask and then dropping missing values gives the
      row-by-row sample. */
  lemma {:induction false} SampleInRowOrder(labels: seq<Cell>, values: seq<Cell>, key: Cell)
    requires |labels| == |values|
    ensures NumValues(Pick(values, Kept(Marks(labels, key)))) == MatchingValues(labels, values, key)
  {
    if labels != [] {
      var n := |labels| - 1;
      SampleInRowOrder(labels[..n], values[..n], key);
      MarksPrefix(labels, key, n);
      SampleSnoc(labels, values, key);
    }
  }

  /** The selection-then-`dropna` sample is the row-by-row one: same values,
      same multiplicities, same order. */
  lemma GroupValuesInRowOrder(t: Table, g: nat, x: nat, key: Cell)
    requires Valid(t) && g < |t.columns| && x < |t.columns|
    ensures GroupValues(t, g, x, key) == MatchingValues(ColumnValues(t, g), ColumnValues(t, x), key)
  {
    assert LabelMask(t, g, key) == Marks(ColumnValues(t, g), key);
    SampleInRowOrder(ColumnValues(t, g), ColumnValues(t, x), key);
  }

  /** The outcome of the t-test panel: a warning that two groups are needed,
      or the two samples handed to `ttest_ind`. */
  datatype TTestPlan = NeedTwoGroups | RunTTest(group1: seq<real>, group2: seq<real>)

  /** Lines 669-673: `unique()` lists the group column's distinct values in
      order of appearance, NaN included; the test runs only when there are
      exactly two. */
  function PlanTTest(t: Table, g: nat, x: nat): TTestPlan
    requires Valid(t) && g < |t.columns| && x < |t.columns|
  {
    var groups := Distinct(ColumnValues(t, g));
    if |groups| == 2 then RunTTest(GroupValues(t, g, x, groups[0]), GroupValues(t, g, x, groups[1]))
    else NeedTwoGroups
  }

  /** The t-test runs exactly when the group column holds two distinct
      values, where a missing value counts as one of them. */
  lemma TTestGate(t: Table, g: nat, x: nat)
    requires Valid(t) && g < |t.columns| && x < |t.columns|
    ensures PlanTTest(t, g, x).RunTTest? <==> |set c | c in ColumnValues(t, g)| == 2
  {
    DistinctCardinality(ColumnValues(t, g));
  }

  /** When the test runs, the two samples are the present values of the
      rows carrying the two labels, row by row and in row order. */
  lemma TTestSamples(t: Table, g: nat, x: nat)
    requires Valid(t) && g < |t.columns| && x < |t.columns|
    requires PlanTTest(t, g, x).RunTTest?
    ensures var groups := Distinct(ColumnValues(t, g));
            var plan := PlanTTest(t, g, x);
            && groups[0] != groups[1]
            && groups[0] in ColumnValues(t, g) && groups[1] in ColumnValues(t, g)
            && (forall c :: c in ColumnValues(t, g) ==> c == groups[0] || c == groups[1])
            && plan.group1 == GroupValues(t, g, x, groups[0])
            && plan.group2 == GroupValues(t, g, x, groups[1])
  {
    var cells := ColumnValues(t, g);
    var groups := Distinct(cells);
    forall c | c in cells ensures c == groups[0] || c == groups[1] {
      var k :| 0 <= k < |cells| && cells[k] == c;
      assert c in groups;
    }
  }

  /** The two samples handed to `ttest_ind`, read row by row: every row
      labelled with the first (second) group that holds a number adds it,
      in row order, repeats kept. */
  lemma TTestSamplesInRowOrder(t: Table, g: nat, x: nat)
    requires Valid(t) && g < |t.columns| && x < |t.columns|
    requires PlanTTest(t, g, x).RunTTest?
    ensures var groups := Distinct(ColumnValues(t, g));
            var plan := PlanTTest(t, g, x);
            && plan.group1 == MatchingValues(ColumnValues(t, g), ColumnValues(t, x), groups[0])
            && plan.group2 == MatchingValues(ColumnValues(t, g), ColumnValues(t, x), groups[1])
  {
    var groups := Distinct(ColumnValues(t, g));
    GroupValuesInRowOrder(t, g, x, groups[0]);
    GroupValuesInRowOrder(t, g, x, groups[1]);
  }

  /** A missing key selects no row, so when NaN is one of the two
      "groups" the test is handed an empty sample. */
  lemma MissingLabelEmptyGroup(t: Table, g: nat, x: nat)
    requires Valid(t) && g < |t.columns| && x < |t.columns|
    ensures GroupValues(t, g, x, Missing) == []
  {
    KeptNone(LabelMask(t, g, Missing));
  }

  /** Line 694: Shapiro-Wilk runs only on at most 5000 present values. */
  predicate ShapiroApplies(t: Table, x: nat)
    requires Valid(t) && x < |t.columns|
  {
    |NumValues(ColumnValues(t, x))| <= 5000
  }

  /** On a number column the limit counts the cells that are not missing:
      missing values never push a column over it. */
  lemma ShapiroGate(t: Table, x: nat)
    requires Valid(t) && x < |t.columns| && NumericCells(ColumnValues(t, x))
    ensures ShapiroApplies(t, x) <==> ColumnPresent(t, x) <= 5000
    ensures ColumnPresent(t, x) > 5000 ==> !ShapiroApplies(t, x)
  {
    NumValuesCount(ColumnValues(t, x));
    ColumnMissingCount(t, x);
    ColumnPresentComplement(t, x);
  }
}
