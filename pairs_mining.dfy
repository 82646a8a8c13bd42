/** Greedy extraction of pairs of similar instances from a distance matrix: repeatedly take
    the smallest remaining distance, record its column and row labels, and overwrite the
    selected row (and, for a square matrix of one class, the selected column) so that it is
    not chosen again. */
module PairsMining {
  import opened Wrappers
  import opened Seqs

  /** A distance matrix, row by row. */
  type Matrix = seq<seq<real>>

  /** The value written over a selected row or column in threshold mode, and the value of
      the diagonal and of missing distances in a square matrix. */
  const Sentinel: real := 100.0

  /** The value of missing distances in a matrix between two treatment groups. */
  const CrossSentinel: real := 200.0

  /** `mode`: 'mixed' (one class against itself), 'treatment_sort' (a group against another),
      or any other string, for which the greedy loops do not overwrite anything. */
  datatype Mode = Mixed | TreatmentSort | OtherMode

  /** One selection: the row and the column of the chosen cell and the distance it held. */
  datatype Pick = Pick(row: nat, col: nat, dist: real)

  /** Every row has `cols` cells. */
  predicate Shape(m: Matrix, cols: nat)
  {
    forall i :: 0 <= i < |m| ==> |m[i]| == cols
  }

  /** A matrix with at least one cell, whose rows all have the length of the first. */
  predicate Proper(m: Matrix)
  {
    |m| > 0 && |m[0]| > 0 && Shape(m, |m[0]|)
  }

  predicate IsCell(m: Matrix, i: int, j: int)
  {
    0 <= i < |m| && 0 <= j < |m[i]|
  }

  // ---------------------------------------------------------------------------
  // Minimum, maximum and first position of a value

  /** `df_to_numpy.min()`: the smallest cell of the matrix. */
  function MatMin(m: Matrix): (v: real)
    requires Proper(m)
    ensures forall i, j :: IsCell(m, i, j) ==> v <= m[i][j]
  {
    if |m| == 1 then MinReal(m[0])
    else
      var init := m[..|m| - 1];
      var v := MatMin(init);
      var w := MinReal(m[|m| - 1]);
      assert forall i :: 0 <= i < |init| ==> init[i] == m[i];
      if w < v then w else v
  }

  /** The minimum is the value of a cell. */
  lemma {:induction false} MatMinIsCell(m: Matrix) returns (r: nat, c: nat)
    requires Proper(m)
    ensures IsCell(m, r, c) && m[r][c] == MatMin(m)
  {
    if |m| == 1 {
      c :| 0 <= c < |m[0]| && m[0][c] == MinReal(m[0]);
      r := 0;
    } else {
      var init := m[..|m| - 1];
      var w := MinReal(m[|m| - 1]);
      if w < MatMin(init) {
        c :| 0 <= c < |m[|m| - 1]| && m[|m| - 1][c] == w;
        r := |m| - 1;
      } else {
        r, c := MatMinIsCell(init);
        assert init[r] == m[r];
      }
    }
  }

  /** `df_to_numpy.max()`: the largest cell of the matrix. */
  function MatMax(m: Matrix): (v: real)
    requires Proper(m)
    ensures forall i, j :: IsCell(m, i, j) ==> m[i][j] <= v
  {
    if |m| == 1 then MaxReal(m[0])
    else
      var init := m[..|m| - 1];
      var v := MatMax(init);
      var w := MaxReal(m[|m| - 1]);
      assert forall i :: 0 <= i < |init| ==> init[i] == m[i];
      if w > v then w else v
  }

  /** The maximum is the value of a cell. */
  lemma {:induction false} MatMaxIsCell(m: Matrix) returns (r: nat, c: nat)
    requires Proper(m)
    ensures IsCell(m, r, c) && m[r][c] == MatMax(m)
  {
    if |m| == 1 {
      c :| 0 <= c < |m[0]| && m[0][c] == MaxReal(m[0]);
      r := 0;
    } else {
      var init := m[..|m| - 1];
      var w := MaxReal(m[|m| - 1]);
      if w > MatMax(init) {
        c :| 0 <= c < |m[|m| - 1]| && m[|m| - 1][c] == w;
        r := |m| - 1;
      } else {
        r, c := MatMaxIsCell(init);
        assert init[r] == m[r];
      }
    }
  }

  /** A cell no larger than any other is the minimum. */
  lemma MatMinUnique(m: Matrix, r: nat, c: nat)
    requires Proper(m) && IsCell(m, r, c)
    requires forall i, j :: IsCell(m, i, j) ==> m[r][c] <= m[i][j]
    ensures MatMin(m) == m[r][c]
  {
    var i, j := MatMinIsCell(m);
  }

  /** A cell no smaller than any other is the maximum. */
  lemma MatMaxUnique(m: Matrix, r: nat, c: nat)
    requires Proper(m) && IsCell(m, r, c)
    requires forall i, j :: IsCell(m, i, j) ==> m[i][j] <= m[r][c]
    ensures MatMax(m) == m[r][c]
  {
    var i, j := MatMaxIsCell(m);
  }

  /** Cell (i, j) comes before cell (r, c) in row-major order. */
  predicate Before(i: int, j: int, r: int, c: int)
  {
    i < r || (i == r && j < c)
  }

  /** `np.where(df_to_numpy == v)` followed by `[0]` on each index list: the first cell holding
      `v`, in row-major order. */
  function FirstCell(m: Matrix, v: real): (p: (nat, nat))
    requires exists i, j :: IsCell(m, i, j) && m[i][j] == v
    ensures IsCell(m, p.0, p.1) && m[p.0][p.1] == v
    ensures forall i, j :: IsCell(m, i, j) && Before(i, j, p.0, p.1) ==> m[i][j] != v
  {
    var r := FirstIndex(m, (row: seq<real>) => v in row);
    assert r < |m| by {
      var i, j := SomeCell(m, v);
      assert m[i][j] in m[i];
    }
    var c := FirstIndex(m[r], (x: real) => x == v);
    (r, c)
  }

  lemma SomeCell(m: Matrix, v: real) returns (i: nat, j: nat)
    requires exists i, j :: IsCell(m, i, j) && m[i][j] == v
    ensures IsCell(m, i, j) && m[i][j] == v
  {
    i, j :| IsCell(m, i, j) && m[i][j] == v;
  }

  /** The first cell holding the minimum: the cell the greedy loops select. */
  function ArgMin(m: Matrix): (p: (nat, nat))
    requires Proper(m)
    ensures IsCell(m, p.0, p.1) && m[p.0][p.1] == MatMin(m)
    ensures forall i, j :: IsCell(m, i, j) && Before(i, j, p.0, p.1) ==> m[i][j] != MatMin(m)
  {
    MatMinExists(m);
    FirstCell(m, MatMin(m))
  }

  lemma MatMinExists(m: Matrix)
    requires Proper(m)
    ensures exists i, j :: IsCell(m, i, j) && m[i][j] == MatMin(m)
  {
    var r, c := MatMinIsCell(m);
  }

  /** The first occurrence is determined by its two defining properties. */
  lemma FirstCellUnique(m: Matrix, v: real, r: nat, c: nat)
    requires IsCell(m, r, c) && m[r][c] == v
    requires forall i, j :: IsCell(m, i, j) && Before(i, j, r, c) ==> m[i][j] != v
    ensures FirstCell(m, v) == (r, c)
  {
  }

  // ---------------------------------------------------------------------------
  // Overwriting a row and a column

  /** Whether cell (i, j) is overwritten when (r, c) is selected in `mode`. */
  predicate Cleared(mode: Mode, r: int, c: int, i: int, j: int)
  {
    (mode != OtherMode && i == r) || (mode == Mixed && j == c)
  }

  /** `df_to_numpy[r] = [v]`, and in mixed mode also `df_to_numpy[:, c] = [v]`. */
  function Clear(m: Matrix, r: nat, c: nat, mode: Mode, v: real): Matrix
  {
    seq(|m|, i requires 0 <= i < |m| =>
      seq(|m[i]|, j requires 0 <= j < |m[i]| => if Cleared(mode, r, c, i, j) then v else m[i][j]))
  }

  /** Clearing keeps the shape, writes `v` over the cleared cells and leaves the others. */
  lemma ClearCells(m: Matrix, r: nat, c: nat, mode: Mode, v: real)
    ensures var m' := Clear(m, r, c, mode, v);
            |m'| == |m| && (forall i :: 0 <= i < |m| ==> |m'[i]| == |m[i]|) &&
            forall i, j :: IsCell(m, i, j) ==> m'[i][j] == if Cleared(mode, r, c, i, j) then v else m[i][j]
  {
  }

  lemma ClearProper(m: Matrix, r: nat, c: nat, mode: Mode, v: real)
    requires Proper(m)
    ensures Proper(Clear(m, r, c, mode, v)) && |Clear(m, r, c, mode, v)| == |m| && |Clear(m, r, c, mode, v)[0]| == |m[0]|
  {
    ClearCells(m, r, c, mode, v);
  }

  /** Overwriting with a value no smaller than the minimum cannot lower the minimum. */
  lemma ClearKeepsMinimum(m: Matrix, r: nat, c: nat, mode: Mode, v: real)
    requires Proper(m) && v >= MatMin(m)
    ensures Proper(Clear(m, r, c, mode, v))
    ensures MatMin(Clear(m, r, c, mode, v)) >= MatMin(m)
  {
    ClearProper(m, r, c, mode, v);
    ClearCells(m, r, c, mode, v);
    var m' := Clear(m, r, c, mode, v);
    var i, j := MatMinIsCell(m');
    assert IsCell(m, i, j);
  }

  // ---------------------------------------------------------------------------
  // Termination measure of the threshold loop

  /** The number of cells of a row below `t`. */
  function RowBelow(row: seq<real>, t: real): nat
  {
    if row == [] then 0 else RowBelow(row[..|row| - 1], t) + (if row[|row| - 1] < t then 1 else 0)
  }

  /** The number of cells of the matrix below `t`. */
  function CountBelow(m: Matrix, t: real): nat
  {
    if m == [] then 0 else CountBelow(m[..|m| - 1], t) + RowBelow(m[|m| - 1], t)
  }

  /** A row none of whose cells went below `t` has no more cells below `t`, and strictly fewer
      when one of them went from below to not below. */
  lemma {:induction false} RowBelowDecreases(row: seq<real>, row': seq<real>, t: real, k: int)
    requires |row'| == |row|
    requires forall j :: 0 <= j < |row| && row'[j] < t ==> row[j] < t
    ensures RowBelow(row', t) <= RowBelow(row, t)
    ensures 0 <= k < |row| && row[k] < t && row'[k] >= t ==> RowBelow(row', t) < RowBelow(row, t)
  {
    if row != [] {
      var n := |row| - 1;
      assert forall j :: 0 <= j < n ==> row[..n][j] == row[j] && row'[..n][j] == row'[j];
      RowBelowDecreases(row[..n], row'[..n], t, k);
    }
  }

  lemma {:induction false} CountBelowDecreases(m: Matrix, m': Matrix, t: real, r: int, c: int)
    requires |m'| == |m| && forall i :: 0 <= i < |m| ==> |m'[i]| == |m[i]|
    requires forall i, j :: IsCell(m, i, j) && m'[i][j] < t ==> m[i][j] < t
    ensures CountBelow(m', t) <= CountBelow(m, t)
    ensures IsCell(m, r, c) && m[r][c] < t && m'[r][c] >= t ==> CountBelow(m', t) < CountBelow(m, t)
  {
    if m != [] {
      var n := |m| - 1;
      assert forall i :: 0 <= i < n ==> m[..n][i] == m[i] && m'[..n][i] == m'[i];
      CountBelowDecreases(m[..n], m'[..n], t, r, c);
      RowBelowDecreases(m[n], m'[n], t, if r == n then c else -1);
    }
  }

  // ---------------------------------------------------------------------------
  // The two greedy selections

  /** The loop of `get_pairs_from_matrix_and_threshold` ends: either nothing is below the
      threshold, or each round overwrites the selected cell with the sentinel, which is not
      below the threshold. With a threshold above the sentinel the loop never ends. */
  predicate Terminates(m: Matrix, t: real, mode: Mode)
    requires Proper(m)
  {
    MatMin(m) >= t || (mode != OtherMode && t <= Sentinel)
  }

  /** One round of the threshold loop strictly decreases the cells below the threshold. */
  lemma GreedyRoundDecreases(m: Matrix, t: real, mode: Mode)
    requires Proper(m) && MatMin(m) < t && Terminates(m, t, mode)
    ensures var p := ArgMin(m);
            var m' := Clear(m, p.0, p.1, mode, Sentinel);
            Proper(m') && |m'| == |m| && |m'[0]| == |m[0]| && Terminates(m', t, mode) &&
            CountBelow(m', t) < CountBelow(m, t)
  {
    var p := ArgMin(m);
    ClearProper(m, p.0, p.1, mode, Sentinel);
    ClearCells(m, p.0, p.1, mode, Sentinel);
    var m' := Clear(m, p.0, p.1, mode, Sentinel);
    CountBelowDecreases(m, m', t, p.0, p.1);
  }

  /** The selections of the threshold loop, in order. */
  function Greedy(m: Matrix, t: real, mode: Mode): (ps: seq<Pick>)
    requires Proper(m) && Terminates(m, t, mode)
    ensures forall k :: 0 <= k < |ps| ==> ps[k].row < |m| && ps[k].col < |m[0]|
    decreases CountBelow(m, t)
  {
    var v := MatMin(m);
    if v >= t then []
    else
      var p := ArgMin(m);
      GreedyRoundDecreases(m, t, mode);
      [Pick(p.0, p.1, v)] + Greedy(Clear(m, p.0, p.1, mode, Sentinel), t, mode)
  }

  /** The selections of the proportion loop: `k` rounds, each overwriting with the current
      maximum. */
  function GreedyCount(m: Matrix, k: nat, mode: Mode): (ps: seq<Pick>)
    requires Proper(m)
    ensures |ps| == k
    ensures forall i :: 0 <= i < |ps| ==> ps[i].row < |m| && ps[i].col < |m[0]|
    decreases k
  {
    if k == 0 then []
    else
      var v := MatMin(m);
      var p := ArgMin(m);
      var m' := Clear(m, p.0, p.1, mode, MatMax(m));
      ClearProper(m, p.0, p.1, mode, MatMax(m));
      var rest := GreedyCount(m', k - 1, mode);
      assert forall i :: 0 < i < |rest| + 1 ==> ([Pick(p.0, p.1, v)] + rest)[i] == rest[i - 1];
      [Pick(p.0, p.1, v)] + rest
  }

  // ---------------------------------------------------------------------------
  // Properties of the selections

  /** Threshold mode selects nothing exactly when the minimum is already at or above the
      threshold. */
  lemma GreedyEmptyIff(m: Matrix, t: real, mode: Mode)
    requires Proper(m) && Terminates(m, t, mode)
    ensures Greedy(m, t, mode) == [] <==> MatMin(m) >= t
  {
  }

  /** Every selection is a cell of `m`, holds the distance `m` has there, and is below `t`. */
  predicate PicksBelow(ps: seq<Pick>, m: Matrix, t: real)
  {
    forall k :: 0 <= k < |ps| ==>
      IsCell(m, ps[k].row, ps[k].col) && ps[k].dist == m[ps[k].row][ps[k].col] && ps[k].dist < t
  }

  /** No two selections share a row. */
  predicate RowsDistinct(ps: seq<Pick>)
  {
    forall a, b :: 0 <= a < b < |ps| ==> ps[a].row != ps[b].row
  }

  /** No two selections share a column. */
  predicate ColsDistinct(ps: seq<Pick>)
  {
    forall a, b :: 0 <= a < b < |ps| ==> ps[a].col != ps[b].col
  }

  /** One round of the threshold loop leaves the cells below the threshold as they were. */
  lemma RoundKeepsLowCells(m: Matrix, t: real, mode: Mode)
    requires Proper(m) && MatMin(m) < t && Terminates(m, t, mode)
    ensures var p := ArgMin(m);
            var m' := Clear(m, p.0, p.1, mode, Sentinel);
            |m'| == |m| && (forall i :: 0 <= i < |m| ==> |m'[i]| == |m[i]|) &&
            (forall i, j :: IsCell(m, i, j) && m'[i][j] < t ==> m'[i][j] == m[i][j] && !Cleared(mode, p.0, p.1, i, j))
  {
    var p := ArgMin(m);
    ClearCells(m, p.0, p.1, mode, Sentinel);
  }

  /** One round of the threshold loop, unfolded. */
  lemma GreedyUnfold(m: Matrix, t: real, mode: Mode)
    requires Proper(m) && MatMin(m) < t && Terminates(m, t, mode)
    ensures var p := ArgMin(m);
            var m' := Clear(m, p.0, p.1, mode, Sentinel);
            Proper(m') && Terminates(m', t, mode) && CountBelow(m', t) < CountBelow(m, t) &&
            Greedy(m, t, mode) == [Pick(p.0, p.1, MatMin(m))] + Greedy(m', t, mode)
  {
    GreedyRoundDecreases(m, t, mode);
  }

  /** A first selection that is a low cell of `m`, followed by selections that are low cells of
      a matrix agreeing with `m` on its low cells, are all low cells of `m`. */
  lemma PicksBelowCons(p: Pick, rest: seq<Pick>, m: Matrix, m': Matrix, t: real)
    requires IsCell(m, p.row, p.col) && p.dist == m[p.row][p.col] && p.dist < t
    requires |m'| == |m| && (forall i :: 0 <= i < |m| ==> |m'[i]| == |m[i]|)
    requires forall i, j :: IsCell(m, i, j) && m'[i][j] < t ==> m'[i][j] == m[i][j]
    requires PicksBelow(rest, m', t)
    ensures PicksBelow([p] + rest, m, t)
  {
    var ps := [p] + rest;
    forall k | 1 <= k < |ps|
      ensures IsCell(m, ps[k].row, ps[k].col) && ps[k].dist == m[ps[k].row][ps[k].col] && ps[k].dist < t
    {
      assert ps[k] == rest[k - 1];
    }
  }

  /** Every selection was below the threshold and is the untouched cell of the caller's matrix:
      cells below the threshold are never overwritten before they are selected. */
  lemma {:induction false} GreedyPicksOriginalCells(m: Matrix, t: real, mode: Mode)
    requires Proper(m) && Terminates(m, t, mode)
    ensures PicksBelow(Greedy(m, t, mode), m, t)
    decreases CountBelow(m, t)
  {
    if MatMin(m) < t {
      var p := ArgMin(m);
      GreedyUnfold(m, t, mode);
      RoundKeepsLowCells(m, t, mode);
      var m' := Clear(m, p.0, p.1, mode, Sentinel);
      GreedyPicksOriginalCells(m', t, mode);
      PicksBelowCons(Pick(p.0, p.1, MatMin(m)), Greedy(m', t, mode), m, m', t);
    }
  }

  /** A first selection none of whose lines is used again keeps the selections distinct. */
  lemma DistinctCons(p: Pick, rest: seq<Pick>, mode: Mode)
    requires forall b :: 0 <= b < |rest| ==> !Cleared(mode, p.row, p.col, rest[b].row, rest[b].col)
    requires mode != OtherMode ==> RowsDistinct(rest)
    requires mode == Mixed ==> ColsDistinct(rest)
    ensures mode != OtherMode ==> RowsDistinct([p] + rest)
    ensures mode == Mixed ==> ColsDistinct([p] + rest)
  {
    var ps := [p] + rest;
    forall a, b | 0 <= a < b < |ps|
      ensures mode != OtherMode ==> ps[a].row != ps[b].row
      ensures mode == Mixed ==> ps[a].col != ps[b].col
    {
      assert ps[b] == rest[b - 1];
      if a > 0 {
        assert ps[a] == rest[a - 1];
      }
    }
  }

  /** Once a row has been selected, all its cells hold the sentinel, so it is not selected
      again; in mixed mode the same holds for columns. */
  lemma {:induction false} GreedyDistinct(m: Matrix, t: real, mode: Mode)
    requires Proper(m) && Terminates(m, t, mode)
    ensures mode != OtherMode ==> RowsDistinct(Greedy(m, t, mode))
    ensures mode == Mixed ==> ColsDistinct(Greedy(m, t, mode))
    decreases CountBelow(m, t)
  {
    if MatMin(m) < t {
      var p := ArgMin(m);
      GreedyUnfold(m, t, mode);
      RoundKeepsLowCells(m, t, mode);
      var m' := Clear(m, p.0, p.1, mode, Sentinel);
      GreedyDistinct(m', t, mode);
      GreedyPicksOriginalCells(m', t, mode);
      LaterPicksAvoidCleared(m, m', t, mode, p.0, p.1, Greedy(m', t, mode));
      DistinctCons(Pick(p.0, p.1, MatMin(m)), Greedy(m', t, mode), mode);
    }
  }

  /** Selections below the threshold in the cleared matrix avoid the cleared lines. */
  lemma LaterPicksAvoidCleared(m: Matrix, m': Matrix, t: real, mode: Mode, i: nat, j: nat, rest: seq<Pick>)
    requires Proper(m) && IsCell(m, i, j) && t <= Sentinel
    requires m' == Clear(m, i, j, mode, Sentinel)
    requires PicksBelow(rest, m', t)
    ensures forall b :: 0 <= b < |rest| ==> !Cleared(mode, i, j, rest[b].row, rest[b].col)
  {
    forall b | 0 <= b < |rest|
      ensures !Cleared(mode, i, j, rest[b].row, rest[b].col)
    {
      assert IsCell(m', rest[b].row, rest[b].col) && m'[rest[b].row][rest[b].col] < t;
    }
  }

  /** The selected distances are at least `lo` and never decrease. */
  predicate Ordered(ps: seq<Pick>, lo: real)
  {
    (forall k :: 0 <= k < |ps| ==> lo <= ps[k].dist) &&
    (forall k :: 0 <= k < |ps| - 1 ==> ps[k].dist <= ps[k + 1].dist)
  }

  /** Prepending a selection no larger than every later one keeps the selections ordered. */
  lemma OrderedCons(lo: real, p: Pick, rest: seq<Pick>, restLo: real)
    requires lo <= p.dist <= restLo && Ordered(rest, restLo)
    ensures Ordered([p] + rest, lo)
  {
    var ps := [p] + rest;
    forall k | 0 <= k < |ps| - 1
      ensures ps[k].dist <= ps[k + 1].dist
    {
      assert ps[k + 1] == rest[k];
      if k > 0 {
        assert ps[k] == rest[k - 1];
      }
    }
    forall k | 1 <= k < |ps|
      ensures lo <= ps[k].dist
    {
      assert ps[k] == rest[k - 1];
    }
  }

  /** Threshold mode: the selected distances never decrease, and none is below the starting
      minimum. */
  lemma {:induction false} GreedyNonDecreasing(m: Matrix, t: real, mode: Mode)
    requires Proper(m) && Terminates(m, t, mode)
    ensures Ordered(Greedy(m, t, mode), MatMin(m))
    decreases CountBelow(m, t)
  {
    var v := MatMin(m);
    if v < t {
      var p := ArgMin(m);
      GreedyRoundDecreases(m, t, mode);
      var m' := Clear(m, p.0, p.1, mode, Sentinel);
      ClearKeepsMinimum(m, p.0, p.1, mode, Sentinel);
      GreedyNonDecreasing(m', t, mode);
      assert Greedy(m, t, mode) == [Pick(p.0, p.1, v)] + Greedy(m', t, mode);
      OrderedCons(v, Pick(p.0, p.1, v), Greedy(m', t, mode), MatMin(m'));
    }
  }

  /** Proportion mode: the selected distances never decrease either, since the overwriting
      value is the current maximum. */
  lemma {:induction false} GreedyCountNonDecreasing(m: Matrix, k: nat, mode: Mode)
    requires Proper(m)
    ensures Ordered(GreedyCount(m, k, mode), MatMin(m))
    decreases k
  {
    if k > 0 {
      var v := MatMin(m);
      var p := ArgMin(m);
      var w := MatMax(m);
      assert v <= m[0][0] <= w;
      var m' := Clear(m, p.0, p.1, mode, w);
      ClearKeepsMinimum(m, p.0, p.1, mode, w);
      GreedyCountNonDecreasing(m', k - 1, mode);
      assert GreedyCount(m, k, mode) == [Pick(p.0, p.1, v)] + GreedyCount(m', k - 1, mode);
      OrderedCons(v, Pick(p.0, p.1, v), GreedyCount(m', k - 1, mode), MatMin(m'));
    }
  }

  /** A symmetric square matrix whose diagonal holds the sentinel, as built in mixed mode. */
  predicate MixedShaped(m: Matrix)
  {
    Proper(m) && |m[0]| == |m| &&
    (forall i, j :: 0 <= i < |m| && 0 <= j < |m| ==> m[i][j] == m[j][i]) &&
    (forall i :: 0 <= i < |m| ==> m[i][i] == Sentinel)
  }

  /** In mixed mode on such a matrix, row `c` and column `r` of the first selection (r, c) are
      not overwritten, so the mirrored cell (c, r) still holds the same distance: a second
      selection follows, at that same distance. */
  lemma GreedyMirror(m: Matrix, t: real)
    requires MixedShaped(m) && t <= Sentinel
    requires |Greedy(m, t, Mixed)| >= 1
    ensures |Greedy(m, t, Mixed)| >= 2 && Greedy(m, t, Mixed)[1].dist == Greedy(m, t, Mixed)[0].dist
  {
    GreedyEmptyIff(m, t, Mixed);
    var p := ArgMin(m);
    GreedyUnfold(m, t, Mixed);
    MirrorKeepsMinimum(m, t);
    GreedyUnfold(Clear(m, p.0, p.1, Mixed, Sentinel), t, Mixed);
  }

  /** After the first mixed-mode round the minimum is unchanged: the mirrored cell keeps it. */
  lemma MirrorKeepsMinimum(m: Matrix, t: real)
    requires MixedShaped(m) && MatMin(m) < t <= Sentinel
    ensures var p := ArgMin(m);
            Proper(Clear(m, p.0, p.1, Mixed, Sentinel)) && MatMin(Clear(m, p.0, p.1, Mixed, Sentinel)) == MatMin(m)
  {
    var v := MatMin(m);
    var (r, c) := ArgMin(m);
    assert r != c by {
      assert m[r][c] == v && m[r][r] == Sentinel;
    }
    var m' := Clear(m, r, c, Mixed, Sentinel);
    assert Proper(m') && |m'| == |m| && |m'[0]| == |m[0]| by {
      ClearProper(m, r, c, Mixed, Sentinel);
    }
    assert m'[c][r] == v by {
      ClearCells(m, r, c, Mixed, Sentinel);
      assert IsCell(m, c, r) && m[c][r] == v;
    }
    assert MatMin(m') >= v by {
      ClearKeepsMinimum(m, r, c, Mixed, Sentinel);
    }
    assert IsCell(m', c, r);
  }

  /** One round of the proportion loop, unfolded. */
  lemma GreedyCountUnfold(m: Matrix, k: nat, mode: Mode)
    requires Proper(m) && k > 0
    ensures var p := ArgMin(m);
            var m' := Clear(m, p.0, p.1, mode, MatMax(m));
            Proper(m') && |m'| == |m| && |m'[0]| == |m[0]| &&
            GreedyCount(m, k, mode) == [Pick(p.0, p.1, MatMin(m))] + GreedyCount(m', k - 1, mode)
  {
    var p := ArgMin(m);
    ClearProper(m, p.0, p.1, mode, MatMax(m));
  }

  // ---------------------------------------------------------------------------
  // The number of pairs the proportion loop builds

  /** `number_to_reach`: `n(n-1)/2 * proportion`, capped by the smaller side of the matrix. */
  function Target(rows: nat, cols: nat, n: int, proportion: real): (x: real)
    ensures x <= (if rows < cols then rows else cols) as real
  {
    var possible := if rows < cols then rows else cols;
    var toReach := (n * (n - 1)) as real / 2.0 * proportion;
    if (possible as real) < toReach then possible as real else toReach
  }

  /** The number of rounds of `while len(pairs) < number_to_reach`: the least natural number
      not below the target. */
  function Rounds(x: real): nat
  {
    if x <= 0.0 then 0
    else if x.Floor as real == x then x.Floor
    else x.Floor + 1
  }

  /** A list of length `k` is still short of the target exactly when `k` is below `Rounds`. */
  lemma RoundsCounts(x: real, k: nat)
    ensures (k as real) < x <==> k < Rounds(x)
  {
    assert x.Floor as real <= x < x.Floor as real + 1.0;
  }

  /** The proportion loop never asks for more pairs than the smaller side of the matrix. */
  lemma RoundsBounded(rows: nat, cols: nat, n: int, proportion: real)
    ensures Rounds(Target(rows, cols, n, proportion)) <= (if rows < cols then rows else cols)
  {
    var x := Target(rows, cols, n, proportion);
    var possible := if rows < cols then rows else cols;
    RoundsCounts(x, possible);
  }

  // ---------------------------------------------------------------------------
  // The loops on the array

  /** The array holds the matrix `m`. */
  ghost predicate Holds(a: array2<real>, m: Matrix)
    reads a
  {
    |m| == a.Length0 && Shape(m, a.Length1) &&
    forall i, j :: 0 <= i < a.Length0 && 0 <= j < a.Length1 ==> a[i, j] == m[i][j]
  }

  /** The pairs recorded for the selections: `[columns[c], index[r]]`. */
  /** Every pick names a row of `index` and a column of `columns`. */
  predicate Within(ps: seq<Pick>, rows: nat, cols: nat)
  {
    forall k :: 0 <= k < |ps| ==> ps[k].row < rows && ps[k].col < cols
  }

  function Labels(ps: seq<Pick>, index: seq<string>, columns: seq<string>): (r: seq<(string, string)>)
    requires Within(ps, |index|, |columns|)
    ensures |r| == |ps|
  {
    if ps == [] then []
    else
      var last := ps[|ps| - 1];
      Labels(ps[..|ps| - 1], index, columns) + [(columns[last.col], index[last.row])]
  }

  lemma LabelsSnoc(ps: seq<Pick>, p: Pick, index: seq<string>, columns: seq<string>)
    requires Within(ps, |index|, |columns|)
    requires p.row < |index| && p.col < |columns|
    ensures Within(ps + [p], |index|, |columns|)
    ensures Labels(ps + [p], index, columns) == Labels(ps, index, columns) + [(columns[p.col], index[p.row])]
  {
    assert (ps + [p])[..|ps|] == ps;
  }

  lemma SnocAssoc<T>(a: seq<T>, x: T, b: seq<T>)
    ensures a + ([x] + b) == (a + [x]) + b
  {
  }

  /** `copy.deepcopy(df).to_numpy()`: a fresh array with the same cells. */
  method CopyMatrix(a: array2<real>, ghost m: Matrix) returns (b: array2<real>)
    requires Holds(a, m)
    ensures fresh(b) && Holds(b, m)
  {
    b := new real[a.Length0, a.Length1];
    var i := 0;
    while i < a.Length0
      invariant 0 <= i <= a.Length0
      invariant forall i', j' :: 0 <= i' < i && 0 <= j' < a.Length1 ==> b[i', j'] == a[i', j']
    {
      var j := 0;
      while j < a.Length1
        invariant 0 <= j <= a.Length1
        invariant forall i', j' :: 0 <= i' < i && 0 <= j' < a.Length1 ==> b[i', j'] == a[i', j']
        invariant forall j' :: 0 <= j' < j ==> b[i, j'] == a[i, j']
      {
        b[i, j] := a[i, j];
        j := j + 1;
      }
      i := i + 1;
    }
  }

  /** `df_to_numpy.min()`. */
  method MatrixMin(a: array2<real>, ghost m: Matrix) returns (v: real)
    requires Holds(a, m) && Proper(m)
    ensures v == MatMin(m)
  {
    v := a[0, 0];
    ghost var vi, vj := 0, 0;
    var i := 0;
    while i < a.Length0
      invariant 0 <= i <= a.Length0
      invariant 0 <= vi < a.Length0 && 0 <= vj < a.Length1 && a[vi, vj] == v
      invariant forall i', j' :: 0 <= i' < i && 0 <= j' < a.Length1 ==> v <= a[i', j']
    {
      var j := 0;
      while j < a.Length1
        invariant 0 <= j <= a.Length1
        invariant 0 <= vi < a.Length0 && 0 <= vj < a.Length1 && a[vi, vj] == v
        invariant forall i', j' :: 0 <= i' < i && 0 <= j' < a.Length1 ==> v <= a[i', j']
        invariant forall j' :: 0 <= j' < j ==> v <= a[i, j']
      {
        if a[i, j] < v {
          v := a[i, j];
          vi, vj := i, j;
        }
        j := j + 1;
      }
      i := i + 1;
    }
    MatMinUnique(m, vi, vj);
  }

  /** `df_to_numpy.max()`. */
  method MatrixMax(a: array2<real>, ghost m: Matrix) returns (v: real)
    requires Holds(a, m) && Proper(m)
    ensures v == MatMax(m)
  {
    v := a[0, 0];
    ghost var vi, vj := 0, 0;
    var i := 0;
    while i < a.Length0
      invariant 0 <= i <= a.Length0
      invariant 0 <= vi < a.Length0 && 0 <= vj < a.Length1 && a[vi, vj] == v
      invariant forall i', j' :: 0 <= i' < i && 0 <= j' < a.Length1 ==> a[i', j'] <= v
    {
      var j := 0;
      while j < a.Length1
        invariant 0 <= j <= a.Length1
        invariant 0 <= vi < a.Length0 && 0 <= vj < a.Length1 && a[vi, vj] == v
        invariant forall i', j' :: 0 <= i' < i && 0 <= j' < a.Length1 ==> a[i', j'] <= v
        invariant forall j' :: 0 <= j' < j ==> a[i, j'] <= v
      {
        if a[i, j] > v {
          v := a[i, j];
          vi, vj := i, j;
        }
        j := j + 1;
      }
      i := i + 1;
    }
    MatMaxUnique(m, vi, vj);
  }

  /** `position = np.where(df_to_numpy == min_value)` and `position[0][0], position[1][0]`:
      the first cell holding the minimum, in row-major order. */
  method FirstPosition(a: array2<real>, ghost m: Matrix, v: real) returns (r: nat, c: nat)
    requires Holds(a, m) && Proper(m) && v == MatMin(m)
    ensures (r, c) == ArgMin(m)
  {
    ghost var p := ArgMin(m);
    r, c := 0, 0;
    while a[r, c] != v
      invariant 0 <= r < a.Length0 && 0 <= c < a.Length1
      invariant !Before(p.0, p.1, r, c)
      invariant forall i, j :: IsCell(m, i, j) && Before(i, j, r, c) ==> m[i][j] != v
      decreases a.Length0 - r, a.Length1 - c
    {
      if c + 1 < a.Length1 {
        c := c + 1;
      } else {
        r, c := r + 1, 0;
      }
    }
    FirstCellUnique(m, v, r, c);
  }

  /** The "replace value" step: overwrite row `r` with `v`, and in mixed mode column `c` too;
      any other mode writes nothing. */
  method ClearSelection(a: array2<real>, ghost m: Matrix, r: nat, c: nat, mode: Mode, v: real)
    requires Holds(a, m) && r < a.Length0 && c < a.Length1
    modifies a
    ensures Holds(a, Clear(m, r, c, mode, v))
  {
    if mode == Mixed || mode == TreatmentSort {
      var j := 0;
      while j < a.Length1
        invariant 0 <= j <= a.Length1
        invariant forall i', j' :: 0 <= i' < a.Length0 && 0 <= j' < a.Length1 ==>
                    a[i', j'] == if i' == r && j' < j then v else old(a[i', j'])
      {
        a[r, j] := v;
        j := j + 1;
      }
    }
    if mode == Mixed {
      var i := 0;
      while i < a.Length0
        invariant 0 <= i <= a.Length0
        invariant forall i', j' :: 0 <= i' < a.Length0 && 0 <= j' < a.Length1 ==>
                    a[i', j'] == if i' == r || (j' == c && i' < i) then v else old(a[i', j'])
      {
        a[i, c] := v;
        i := i + 1;
      }
    }
    HoldsAfterClear(a, m, r, c, mode, v);
  }

  /** After the replace step the array holds the cleared matrix. */
  lemma HoldsAfterClear(a: array2<real>, m: Matrix, r: nat, c: nat, mode: Mode, v: real)
    requires |m| == a.Length0 && Shape(m, a.Length1)
    requires forall i, j :: 0 <= i < a.Length0 && 0 <= j < a.Length1 ==>
               a[i, j] == if Cleared(mode, r, c, i, j) then v else m[i][j]
    ensures Holds(a, Clear(m, r, c, mode, v))
  {
    ClearCells(m, r, c, mode, v);
  }

  /** The `while min_value < distance_threshold` loop of `get_pairs_from_matrix_and_threshold`. */
  method GreedyThreshold(a: array2<real>, ghost m: Matrix, index: seq<string>, columns: seq<string>,
                         threshold: real, mode: Mode, minValue0: real)
    returns (pairs: seq<(string, string)>)
    requires Holds(a, m) && Proper(m) && Terminates(m, threshold, mode) && minValue0 == MatMin(m)
    requires |index| == |m| && |columns| == |m[0]|
    modifies a
    ensures pairs == Labels(Greedy(m, threshold, mode), index, columns)
  {
    var minValue := minValue0;
    pairs := [];
    ghost var cur := m;
    ghost var picks: seq<Pick> := [];
    while minValue < threshold
      invariant Holds(a, cur) && Proper(cur) && Terminates(cur, threshold, mode)
      invariant minValue == MatMin(cur)
      invariant picks + Greedy(cur, threshold, mode) == Greedy(m, threshold, mode)
      invariant Within(picks, |index|, |columns|)
      invariant pairs == Labels(picks, index, columns)
      decreases CountBelow(cur, threshold)
    {
      var r, c := FirstPosition(a, cur, minValue);
      LabelsSnoc(picks, Pick(r, c, minValue), index, columns);
      pairs := pairs + [(columns[c], index[r])];
      ClearSelection(a, cur, r, c, mode, Sentinel);
      ghost var next := Clear(cur, r, c, mode, Sentinel);
      GreedyStep(m, cur, picks, threshold, mode);
      picks := picks + [Pick(r, c, minValue)];
      cur := next;
      minValue := MatrixMin(a, cur);
    }
    assert picks == Greedy(m, threshold, mode);
  }

  /** The ghost bookkeeping of one round of the threshold loop. */
  lemma GreedyStep(m: Matrix, cur: Matrix, picks: seq<Pick>, t: real, mode: Mode)
    requires Proper(m) && Terminates(m, t, mode)
    requires Proper(cur) && Terminates(cur, t, mode) && MatMin(cur) < t
    requires picks + Greedy(cur, t, mode) == Greedy(m, t, mode)
    ensures var p := ArgMin(cur);
            var next := Clear(cur, p.0, p.1, mode, Sentinel);
            Proper(next) && Terminates(next, t, mode) && CountBelow(next, t) < CountBelow(cur, t) &&
            (picks + [Pick(p.0, p.1, MatMin(cur))]) + Greedy(next, t, mode) == Greedy(m, t, mode)
  {
    var p := ArgMin(cur);
    GreedyUnfold(cur, t, mode);
    SnocAssoc(picks, Pick(p.0, p.1, MatMin(cur)), Greedy(Clear(cur, p.0, p.1, mode, Sentinel), t, mode));
  }

  /** `get_pairs_from_matrix_and_threshold`, on a private copy of `df`. An empty matrix makes
      `min()` raise ValueError; 'optimal' returns no pairs and any other unknown strategy
      returns None. */
  method PairsFromThreshold(index: seq<string>, columns: seq<string>, df: array2<real>, ghost m: Matrix,
                            threshold: real, strategy: string, mode: Mode)
    returns (res: Result<Option<seq<(string, string)>>>)
    requires Holds(df, m) && |index| == df.Length0 && |columns| == df.Length1
    requires strategy == "greedy" && Proper(m) ==> Terminates(m, threshold, mode)
    ensures !Proper(m) ==> res == Err(ValueError)
    ensures Proper(m) && strategy == "greedy" ==> res == Ok(Some(Labels(Greedy(m, threshold, mode), index, columns)))
    ensures Proper(m) && strategy == "optimal" ==> res == Ok(Some([]))
    ensures Proper(m) && strategy != "greedy" && strategy != "optimal" ==> res == Ok(None)
  {
    if df.Length0 == 0 || df.Length1 == 0 {
      return Err(ValueError);
    }
    var a := CopyMatrix(df, m);
    var minValue := MatrixMin(a, m);
    var pairs: seq<(string, string)> := [];
    if strategy == "greedy" {
      if minValue >= threshold {
        return Ok(Some(pairs));
      }
      pairs := GreedyThreshold(a, m, index, columns, threshold, mode, minValue);
      return Ok(Some(pairs));
    } else if strategy == "optimal" {
      return Ok(Some(pairs));
    } else {
      return Ok(None);
    }
  }

  /** `picks` are the first rounds of `GreedyCount(m, k, mode)` and the rest are still to
      be taken from `cur`. */
  ghost predicate CountPrefix(picks: seq<Pick>, cur: Matrix, m: Matrix, k: nat, mode: Mode)
  {
    Proper(cur) && Proper(m) && |picks| <= k &&
    picks + GreedyCount(cur, k - |picks|, mode) == GreedyCount(m, k, mode)
  }

  /** The ghost bookkeeping of one round of the proportion loop. */
  lemma GreedyCountStep(m: Matrix, cur: Matrix, picks: seq<Pick>, k: nat, mode: Mode)
    requires CountPrefix(picks, cur, m, k, mode) && |picks| < k
    ensures var p := ArgMin(cur);
            var next := Clear(cur, p.0, p.1, mode, MatMax(cur));
            Proper(next) && |next| == |cur| && |next[0]| == |cur[0]| &&
            CountPrefix(picks + [Pick(p.0, p.1, MatMin(cur))], next, m, k, mode)
  {
    var p := ArgMin(cur);
    GreedyCountUnfold(cur, k - |picks|, mode);
    SnocAssoc(picks, Pick(p.0, p.1, MatMin(cur)), GreedyCount(Clear(cur, p.0, p.1, mode, MatMax(cur)), k - |picks| - 1, mode));
  }

  /** The `while len(pairs_closer_instances) < number_to_reach` loop of
      `get_pairs_from_matrix_and_proportion`, for a positive target. */
  method GreedyProportion(a: array2<real>, ghost m: Matrix, index: seq<string>, columns: seq<string>,
                          toReach: real, mode: Mode)
    returns (pairs: seq<(string, string)>)
    requires Holds(a, m) && Proper(m) && |index| == |m| && |columns| == |m[0]|
    modifies a
    ensures pairs == Labels(GreedyCount(m, Rounds(toReach), mode), index, columns)
  {
    ghost var k := Rounds(toReach);
    pairs := [];
    ghost var cur := m;
    ghost var picks: seq<Pick> := [];
    assert CountPrefix(picks, cur, m, k, mode) by {
      assert picks + GreedyCount(cur, k, mode) == GreedyCount(m, k, mode);
    }
    while (|pairs| as real) < toReach
      invariant Holds(a, cur) && Proper(cur) && |cur| == |m| && |cur[0]| == |m[0]|
      invariant |picks| <= k && Within(picks, |index|, |columns|)
      invariant CountPrefix(picks, cur, m, k, mode)
      invariant pairs == Labels(picks, index, columns)
      decreases k - |picks|
    {
      RoundsCounts(toReach, |pairs|);
      var r: nat, c: nat, minValue: real;
      ghost var next: Matrix;
      r, c, minValue, next := ProportionRound(a, m, cur, picks, k, mode);
      LabelsSnoc(picks, Pick(r, c, minValue), index, columns);
      pairs := pairs + [(columns[c], index[r])];
      picks := picks + [Pick(r, c, minValue)];
      cur := next;
    }
    RoundsCounts(toReach, |pairs|);
    assert picks == GreedyCount(m, k, mode) by {
      assert picks + GreedyCount(cur, 0, mode) == GreedyCount(m, k, mode);
    }
  }

  /** One round of the proportion loop: pick the first minimum, then clear its row (and, in
      mixed mode, its column) with the current maximum. */
  method ProportionRound(a: array2<real>, ghost m: Matrix, ghost cur: Matrix, ghost picks: seq<Pick>,
                         ghost k: nat, mode: Mode)
    returns (r: nat, c: nat, minValue: real, ghost next: Matrix)
    requires Holds(a, cur) && Proper(cur) && |cur| == |m| && |cur[0]| == |m[0]|
    requires |picks| < k && CountPrefix(picks, cur, m, k, mode)
    modifies a
    ensures r < |m| && c < |m[0]|
    ensures Holds(a, next) && Proper(next) && |next| == |m| && |next[0]| == |m[0]|
    ensures CountPrefix(picks + [Pick(r, c, minValue)], next, m, k, mode)
  {
    minValue := MatrixMin(a, cur);
    var maxValue := MatrixMax(a, cur);
    r, c := FirstPosition(a, cur, minValue);
    ClearSelection(a, cur, r, c, mode, maxValue);
    GreedyCountStep(m, cur, picks, k, mode);
    next := Clear(cur, r, c, mode, maxValue);
  }

  /** `get_pairs_from_matrix_and_proportion`, on a private copy of `df`: the target is
      `min(min(df.shape), n(n-1)/2 * proportion)` and the loop runs until the number of pairs
      reaches it. A non-positive target leaves the loop unentered, so `min()` is never called
      on an empty matrix. */
  method PairsFromProportion(index: seq<string>, columns: seq<string>, df: array2<real>, ghost m: Matrix,
                             n: int, proportion: real, mode: Mode)
    returns (pairs: seq<(string, string)>)
    requires Holds(df, m) && |index| == df.Length0 && |columns| == df.Length1
    ensures |pairs| == Rounds(Target(df.Length0, df.Length1, n, proportion))
    ensures |pairs| > 0 ==> Proper(m) && pairs == Labels(GreedyCount(m, |pairs|, mode), index, columns)
  {
    var a := CopyMatrix(df, m);
    var possible := if df.Length0 < df.Length1 then df.Length0 else df.Length1;
    var total := (n * (n - 1)) as real / 2.0;
    var toReach := total * proportion;
    if (possible as real) < toReach {
      toReach := possible as real;
    }
    assert toReach == Target(df.Length0, df.Length1, n, proportion);
    RoundsCounts(toReach, 0);
    if 0.0 < toReach {
      pairs := GreedyProportion(a, m, index, columns, toReach, mode);
    } else {
      pairs := [];
    }
  }
}
