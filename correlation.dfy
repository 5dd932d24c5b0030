/** Strong correlation pairs (app.py lines 633-643): the upper triangle of a
    correlation matrix is scanned row by row, and every entry whose absolute
    value reaches the threshold is reported with a sign label. The matrix is
    an input; computing it (`DataFrame.corr`) is not part of this model. */
module Correlation {

  /** An n-by-n matrix, indexed like `corr_matrix.iloc[i, j]`. */
  predicate IsSquare(m: seq<seq<real>>, n: nat) {
    |m| == n && forall i :: 0 <= i < n ==> |m[i]| == n
  }

  function Abs(x: real): real {
    if x < 0.0 then -x else x
  }

  /** '強い正の相関' (strong positive) or '強い負の相関' (strong negative). */
  datatype Strength = StrongPositive | StrongNegative

  /** One reported pair: the two column names, their matrix positions, the
      coefficient and its label. */
  datatype StrongPair = StrongPair(first: string, second: string, row: nat, col: nat,
                                   coefficient: real, strength: Strength)

  /** The record the loop appends for entry (i, j): positive only when the
      coefficient is above zero. */
  function PairAt(names: seq<string>, m: seq<seq<real>>, i: nat, j: nat): StrongPair
    requires IsSquare(m, |names|) && i < |names| && j < |names|
  {
    StrongPair(names[i], names[j], i, j, m[i][j], if m[i][j] > 0.0 then StrongPositive else StrongNegative)
  }

  /** Row-major order on matrix positions. */
  predicate Before(a: StrongPair, b: StrongPair) {
    a.row < b.row || (a.row == b.row && a.col < b.col)
  }

  predicate RowMajor(ps: seq<StrongPair>) {
    forall a, b :: 0 <= a < b < |ps| ==> Before(ps[a], ps[b])
  }

  /** Every element lies in row i, left of column j. */
  predicate InRow(ps: seq<StrongPair>, i: nat, j: nat) {
    forall a :: 0 <= a < |ps| ==> ps[a].row == i && ps[a].col < j
  }

  /** Every element lies above row i. */
  predicate AboveRow(ps: seq<StrongPair>, i: nat) {
    forall a :: 0 <= a < |ps| ==> ps[a].row < i
  }

  /** Every element is the record of a strong upper-triangle entry. */
  predicate Sound(names: seq<string>, m: seq<seq<real>>, threshold: real, ps: seq<StrongPair>)
    requires IsSquare(m, |names|)
  {
    forall a :: 0 <= a < |ps| ==>
      && ps[a].row < ps[a].col < |names|
      && Abs(m[ps[a].row][ps[a].col]) >= threshold
      && ps[a] == PairAt(names, m, ps[a].row, ps[a].col)
  }

  /** The pairs of row i with columns i < k < j. */
  function RowPairs(names: seq<string>, m: seq<seq<real>>, threshold: real, i: nat, j: nat): seq<StrongPair>
    requires IsSquare(m, |names|) && i < |names| && j <= |names|
    decreases j
  {
    if j <= i + 1 then []
    else
      RowPairs(names, m, threshold, i, j - 1)
      + (if Abs(m[i][j - 1]) >= threshold then [PairAt(names, m, i, j - 1)] else [])
  }

  /** The pairs of rows 0 .. i-1, row after row. */
  function PairsBefore(names: seq<string>, m: seq<seq<real>>, threshold: real, i: nat): seq<StrongPair>
    requires IsSquare(m, |names|) && i <= |names|
  {
    if i == 0 then []
    else PairsBefore(names, m, threshold, i - 1) + RowPairs(names, m, threshold, i - 1, |names|)
  }

  /** Joining two sound lists gives a sound list. */
  lemma SoundAppend(names: seq<string>, m: seq<seq<real>>, threshold: real, xs: seq<StrongPair>, ys: seq<StrongPair>)
    requires IsSquare(m, |names|)
    requires Sound(names, m, threshold, xs) && Sound(names, m, threshold, ys)
    ensures Sound(names, m, threshold, xs + ys)
  {
    var ps := xs + ys;
    forall a | 0 <= a < |ps|
      ensures && ps[a].row < ps[a].col < |names|
              && Abs(m[ps[a].row][ps[a].col]) >= threshold
              && ps[a] == PairAt(names, m, ps[a].row, ps[a].col)
    {
      if a < |xs| {
        assert ps[a] == xs[a];
      } else {
        assert ps[a] == ys[a - |xs|];
      }
    }
  }

  /** Joining two row-major lists, the first wholly before the second, gives
      a row-major list. */
  lemma RowMajorAppend(xs: seq<StrongPair>, ys: seq<StrongPair>)
    requires RowMajor(xs) && RowMajor(ys)
    requires forall a, b :: 0 <= a < |xs| && 0 <= b < |ys| ==> Before(xs[a], ys[b])
    ensures RowMajor(xs + ys)
  {
    var ps := xs + ys;
    forall a, b | 0 <= a < b < |ps| ensures Before(ps[a], ps[b]) {
      if b < |xs| {
        assert ps[a] == xs[a] && ps[b] == xs[b];
      } else if a >= |xs| {
        assert ps[a] == ys[a - |xs|] && ps[b] == ys[b - |xs|];
      } else {
        assert ps[a] == xs[a] && ps[b] == ys[b - |xs|];
      }
    }
  }

  /** Rows above r followed by row r, each row-major, are row-major. */
  lemma RowMajorAcross(xs: seq<StrongPair>, ys: seq<StrongPair>, r: nat, j: nat)
    requires RowMajor(xs) && RowMajor(ys) && AboveRow(xs, r) && InRow(ys, r, j)
    ensures RowMajor(xs + ys)
  {
    forall a, b | 0 <= a < |xs| && 0 <= b < |ys| ensures Before(xs[a], ys[b]) {
      assert xs[a].row < r && ys[b].row == r;
    }
    RowMajorAppend(xs, ys);
  }

  /** Row i yields only sound records. */
  lemma {:induction false} RowPairsSound(names: seq<string>, m: seq<seq<real>>, threshold: real, i: nat, j: nat)
    requires IsSquare(m, |names|) && i < |names| && j <= |names|
    ensures Sound(names, m, threshold, RowPairs(names, m, threshold, i, j))
    decreases j
  {
    if j > i + 1 {
      RowPairsSound(names, m, threshold, i, j - 1);
      var init := RowPairs(names, m, threshold, i, j - 1);
      if Abs(m[i][j - 1]) >= threshold {
        var last := [PairAt(names, m, i, j - 1)];
        assert Sound(names, m, threshold, last);
        assert RowPairs(names, m, threshold, i, j) == init + last;
        SoundAppend(names, m, threshold, init, last);
      }
    }
  }

  /** Row i yields records of row i only, left of column j. */
  lemma {:induction false} RowPairsRows(names: seq<string>, m: seq<seq<real>>, threshold: real, i: nat, j: nat)
    requires IsSquare(m, |names|) && i < |names| && j <= |names|
    ensures InRow(RowPairs(names, m, threshold, i, j), i, j)
    decreases j
  {
    if j > i + 1 {
      RowPairsRows(names, m, threshold, i, j - 1);
      var init := RowPairs(names, m, threshold, i, j - 1);
      if Abs(m[i][j - 1]) >= threshold {
        var p := PairAt(names, m, i, j - 1);
        var ps := init + [p];
        assert RowPairs(names, m, threshold, i, j) == ps;
        forall a | 0 <= a < |ps| ensures ps[a].row == i && ps[a].col < j {
          if a < |init| {
            assert ps[a] == init[a];
          } else {
            assert ps[a] == p;
          }
        }
      }
    }
  }

  /** Row i yields its records by increasing column. */
  lemma {:induction false} RowPairsOrder(names: seq<string>, m: seq<seq<real>>, threshold: real, i: nat, j: nat)
    requires IsSquare(m, |names|) && i < |names| && j <= |names|
    ensures RowMajor(RowPairs(names, m, threshold, i, j))
    decreases j
  {
    if j > i + 1 {
      RowPairsOrder(names, m, threshold, i, j - 1);
      RowPairsRows(names, m, threshold, i, j - 1);
      var init := RowPairs(names, m, threshold, i, j - 1);
      if Abs(m[i][j - 1]) >= threshold {
        var last := [PairAt(names, m, i, j - 1)];
        assert RowPairs(names, m, threshold, i, j) == init + last;
        RowMajorAppend(init, last);
      }
    }
  }

  /** Every strong entry of row i right of the diagonal and left of column j
      is reported. */
  lemma {:induction false} RowPairsComplete(names: seq<string>, m: seq<seq<real>>, threshold: real, i: nat, j: nat)
    requires IsSquare(m, |names|) && i < |names| && j <= |names|
    ensures forall k :: i < k < j && Abs(m[i][k]) >= threshold ==>
              PairAt(names, m, i, k) in RowPairs(names, m, threshold, i, j)
    decreases j
  {
    if j > i + 1 {
      RowPairsComplete(names, m, threshold, i, j - 1);
      var init := RowPairs(names, m, threshold, i, j - 1);
      if Abs(m[i][j - 1]) >= threshold {
        assert RowPairs(names, m, threshold, i, j) == init + [PairAt(names, m, i, j - 1)];
      } else {
        assert RowPairs(names, m, threshold, i, j) == init;
      }
    }
  }

  /** Rows 0 .. i-1 yield only sound records. */
  lemma {:induction false} PairsBeforeSound(names: seq<string>, m: seq<seq<real>>, threshold: real, i: nat)
    requires IsSquare(m, |names|) && i <= |names|
    ensures Sound(names, m, threshold, PairsBefore(names, m, threshold, i))
  {
    if i > 0 {
      PairsBeforeSound(names, m, threshold, i - 1);
      RowPairsSound(names, m, threshold, i - 1, |names|);
      var done := PairsBefore(names, m, threshold, i - 1);
      var row := RowPairs(names, m, threshold, i - 1, |names|);
      assert PairsBefore(names, m, threshold, i) == done + row;
      SoundAppend(names, m, threshold, done, row);
    }
  }

  /** Rows 0 .. i-1 yield records of those rows only. */
  lemma {:induction false} PairsBeforeRows(names: seq<string>, m: seq<seq<real>>, threshold: real, i: nat)
    requires IsSquare(m, |names|) && i <= |names|
    ensures AboveRow(PairsBefore(names, m, threshold, i), i)
  {
    if i > 0 {
      PairsBeforeRows(names, m, threshold, i - 1);
      RowPairsRows(names, m, threshold, i - 1, |names|);
      var done := PairsBefore(names, m, threshold, i - 1);
      var row := RowPairs(names, m, threshold, i - 1, |names|);
      var ps := done + row;
      assert PairsBefore(names, m, threshold, i) == ps;
      forall a | 0 <= a < |ps| ensures ps[a].row < i {
        if a < |done| {
          assert ps[a] == done[a];
        } else {
          assert ps[a] == row[a - |done|];
        }
      }
    }
  }

  /** Rows 0 .. i-1 yield their records in row-major order. */
  lemma {:induction false} PairsBeforeOrder(names: seq<string>, m: seq<seq<real>>, threshold: real, i: nat)
    requires IsSquare(m, |names|) && i <= |names|
    ensures RowMajor(PairsBefore(names, m, threshold, i))
  {
    if i > 0 {
      PairsBeforeOrder(names, m, threshold, i - 1);
      PairsBeforeRows(names, m, threshold, i - 1);
      RowPairsRows(names, m, threshold, i - 1, |names|);
      RowPairsOrder(names, m, threshold, i - 1, |names|);
      var done := PairsBefore(names, m, threshold, i - 1);
      var row := RowPairs(names, m, threshold, i - 1, |names|);
      assert PairsBefore(names, m, threshold, i) == done + row;
      RowMajorAcross(done, row, i - 1, |names|);
    }
  }

  /** Every strong upper-triangle entry of rows 0 .. i-1 is reported. */
  lemma {:induction false} PairsBeforeComplete(names: seq<string>, m: seq<seq<real>>, threshold: real, i: nat)
    requires IsSquare(m, |names|) && i <= |names|
    ensures forall r, k :: 0 <= r < i && r < k < |names| && Abs(m[r][k]) >= threshold ==>
              PairAt(names, m, r, k) in PairsBefore(names, m, threshold, i)
  {
    if i > 0 {
      PairsBeforeComplete(names, m, threshold, i - 1);
      RowPairsComplete(names, m, threshold, i - 1, |names|);
      var done := PairsBefore(names, m, threshold, i - 1);
      var row := RowPairs(names, m, threshold, i - 1, |names|);
      assert PairsBefore(names, m, threshold, i) == done + row;
      forall r, k | 0 <= r < i && r < k < |names| && Abs(m[r][k]) >= threshold
        ensures PairAt(names, m, r, k) in done + row
      {
        if r < i - 1 {
          assert PairAt(names, m, r, k) in done;
        } else {
          assert PairAt(names, m, r, k) in row;
        }
      }
    }
  }

  /** One more column of row i adds at most its own record. */
  lemma RowPairsStep(names: seq<string>, m: seq<seq<real>>, threshold: real, i: nat, j: nat)
    requires IsSquare(m, |names|) && i < j < |names|
    ensures RowPairs(names, m, threshold, i, j + 1) ==
              RowPairs(names, m, threshold, i, j) +
              (if Abs(m[i][j]) >= threshold then [PairAt(names, m, i, j)] else [])
  {
  }

  /** One more row appends that row's records. */
  lemma PairsBeforeStep(names: seq<string>, m: seq<seq<real>>, threshold: real, i: nat)
    requires IsSquare(m, |names|) && i < |names|
    ensures PairsBefore(names, m, threshold, i + 1) ==
              PairsBefore(names, m, threshold, i) + RowPairs(names, m, threshold, i, |names|)
  {
  }

  /** The loop of lines 633-643: `for i`, then `for j in range(i+1, n)`,
      appending a record whenever |c| >= threshold. */
  method StrongPairs(names: seq<string>, m: seq<seq<real>>, threshold: real) returns (pairs: seq<StrongPair>)
    requires IsSquare(m, |names|)
    ensures pairs == PairsBefore(names, m, threshold, |names|)
  {
    var n := |names|;
    pairs := [];
    var i := 0;
    while i < n
      invariant 0 <= i <= n
      invariant pairs == PairsBefore(names, m, threshold, i)
    {
      pairs := ScanRow(names, m, threshold, i, pairs);
      PairsBeforeStep(names, m, threshold, i);
      i := i + 1;
    }
  }

  /** The inner loop (lines 635-643) for row i: appends the row's strong
      entries right of the diagonal, by column. */
  method ScanRow(names: seq<string>, m: seq<seq<real>>, threshold: real, i: nat, before: seq<StrongPair>)
    returns (pairs: seq<StrongPair>)
    requires IsSquare(m, |names|) && i < |names|
    ensures pairs == before + RowPairs(names, m, threshold, i, |names|)
  {
    var n := |names|;
    pairs := before;
    var j := i + 1;
    while j < n
      invariant i + 1 <= j <= n
      invariant pairs == before + RowPairs(names, m, threshold, i, j)
    {
      var c := m[i][j];
      RowPairsStep(names, m, threshold, i, j);
      if Abs(c) >= threshold {
        var strength := if c > 0.0 then StrongPositive else StrongNegative;
        pairs := pairs + [StrongPair(names[i], names[j], i, j, c, strength)];
      }
      j := j + 1;
    }
  }

  /** What the strong-pair table holds: exactly the upper-triangle entries
      (i < j) whose absolute coefficient reaches the threshold, each once, in
      row-major order, labelled positive exactly when the coefficient is
      above zero. */
  lemma StrongPairsExact(names: seq<string>, m: seq<seq<real>>, threshold: real)
    requires IsSquare(m, |names|)
    ensures var ps := PairsBefore(names, m, threshold, |names|);
            && RowMajor(ps)
            && (forall a :: 0 <= a < |ps| ==>
                  && ps[a].row < ps[a].col < |names|
                  && Abs(ps[a].coefficient) >= threshold
                  && ps[a].coefficient == m[ps[a].row][ps[a].col]
                  && ps[a].first == names[ps[a].row] && ps[a].second == names[ps[a].col]
                  && (ps[a].strength == StrongPositive <==> ps[a].coefficient > 0.0))
            && (forall i, j :: 0 <= i < j < |names| && Abs(m[i][j]) >= threshold ==>
                  PairAt(names, m, i, j) in ps)
            && (forall a, b :: 0 <= a < b < |ps| ==> ps[a] != ps[b])
  {
    PairsBeforeSound(names, m, threshold, |names|);
    PairsBeforeOrder(names, m, threshold, |names|);
    PairsBeforeComplete(names, m, threshold, |names|);
    var ps := PairsBefore(names, m, threshold, |names|);
    forall a, b | 0 <= a < b < |ps| ensures ps[a] != ps[b] {
      assert Before(ps[a], ps[b]);
    }
  }
}
