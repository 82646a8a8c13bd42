/** The distance matrix that `get_matrix_similarity_pairs` hands to the greedy pair
    extraction: a frame indexed by instance labels, filled column by column from the
    nearest-neighbour distances of each column's instance, with the cells no neighbour list
    mentions set to a sentinel. The nearest-neighbour search itself is an oracle: for the
    instance of column `j`, `neighbours[j]` lists its neighbours with their rounded distances. */
module SimilarityMatrix {
  import opened Wrappers
  import opened Seqs
  import opened PairsMining

  /** One column's neighbour list: a label with its distance. */
  type Neighbours = seq<(string, real)>

  /** The distance one neighbour list assigns to `row`; a later entry for the same label
      overwrites an earlier one, as repeated `df.loc[...] = ...` assignments do. */
  function Recorded(ns: Neighbours, row: string): (r: Option<real>)
    ensures r.None? <==> forall k :: 0 <= k < |ns| ==> ns[k].0 != row
  {
    if ns == [] then None
    else if ns[|ns| - 1].0 == row then Some(ns[|ns| - 1].1)
    else Recorded(ns[..|ns| - 1], row)
  }

  /** The distance recorded for `row` is that of its last entry in the list. */
  lemma {:induction false} RecordedIsLast(ns: Neighbours, row: string, k: nat)
    requires k < |ns| && ns[k].0 == row
    requires forall k' :: k < k' < |ns| ==> ns[k'].0 != row
    ensures Recorded(ns, row) == Some(ns[k].1)
    decreases |ns|
  {
    if k < |ns| - 1 {
      var init := ns[..|ns| - 1];
      assert init[k] == ns[k];
      forall k' | k < k' < |init|
        ensures init[k'].0 != row
      {
        assert init[k'] == ns[k'];
      }
      RecordedIsLast(init, row, k);
    }
  }

  /** Appending one entry: its label now maps to its distance, every other label keeps its
      distance. */
  lemma RecordedSnoc(ns: Neighbours, e: (string, real), row: string)
    ensures Recorded(ns + [e], row) == if e.0 == row then Some(e.1) else Recorded(ns, row)
  {
    assert (ns + [e])[..|ns + [e]| - 1] == ns;
  }

  /** The frame after the neighbour loop and `fillna(fill)`; with `diagonal`, also
      `np.fill_diagonal(..., 100)`. */
  function Built(rows: seq<string>, cols: seq<string>, neighbours: seq<Neighbours>, fill: real,
                 diagonal: bool): (m: Matrix)
    requires |neighbours| == |cols|
    ensures |m| == |rows| && Shape(m, |cols|)
  {
    seq(|rows|, i requires 0 <= i < |rows| =>
      seq(|cols|, j requires 0 <= j < |cols| =>
        if diagonal && i == j then Sentinel
        else match Recorded(neighbours[j], rows[i])
          case None => fill
          case Some(d) => d))
  }

  /** Every neighbour named in a list is one of the frame's row labels (otherwise `df.loc`
      would grow the frame by a row). */
  predicate KnownNeighbours(rows: seq<string>, neighbours: seq<Neighbours>)
  {
    forall j, k :: 0 <= j < |neighbours| && 0 <= k < |neighbours[j]| ==> neighbours[j][k].0 in rows
  }

  /** The cell of row `i` and column `j`: the diagonal sentinel, else the last distance the
      column's list gives the row's label, else the fill value. */
  lemma BuiltCell(rows: seq<string>, cols: seq<string>, neighbours: seq<Neighbours>, fill: real,
                  diagonal: bool, i: nat, j: nat)
    requires |neighbours| == |cols| && i < |rows| && j < |cols|
    ensures diagonal && i == j ==> Built(rows, cols, neighbours, fill, diagonal)[i][j] == Sentinel
    ensures !(diagonal && i == j) && (forall k :: 0 <= k < |neighbours[j]| ==> neighbours[j][k].0 != rows[i]) ==>
              Built(rows, cols, neighbours, fill, diagonal)[i][j] == fill
    ensures forall k :: !(diagonal && i == j) && 0 <= k < |neighbours[j]| && neighbours[j][k].0 == rows[i] &&
                        (forall k' :: k < k' < |neighbours[j]| ==> neighbours[j][k'].0 != rows[i]) ==>
              Built(rows, cols, neighbours, fill, diagonal)[i][j] == neighbours[j][k].1
  {
    forall k | !(diagonal && i == j) && 0 <= k < |neighbours[j]| && neighbours[j][k].0 == rows[i] &&
               (forall k' :: k < k' < |neighbours[j]| ==> neighbours[j][k'].0 != rows[i])
      ensures Built(rows, cols, neighbours, fill, diagonal)[i][j] == neighbours[j][k].1
    {
      RecordedIsLast(neighbours[j], rows[i], k);
    }
  }

  /** The oracle is symmetric when the distance column `j` gives instance `i` equals the one
      column `i` gives instance `j`, both being present or both missing. */
  predicate Symmetric(labels: seq<string>, neighbours: seq<Neighbours>)
    requires |neighbours| == |labels|
  {
    forall i, j :: 0 <= i < |labels| && 0 <= j < |labels| ==>
      Recorded(neighbours[j], labels[i]) == Recorded(neighbours[i], labels[j])
  }

  /** A mixed-mode matrix over a non-empty class with a symmetric oracle is square and
      symmetric with the sentinel on its diagonal, which is the shape the mirrored-pair
      property of the threshold loop needs. */
  lemma MixedBuiltShaped(labels: seq<string>, neighbours: seq<Neighbours>)
    requires |labels| > 0 && |neighbours| == |labels| && Symmetric(labels, neighbours)
    ensures MixedShaped(Built(labels, labels, neighbours, Sentinel, true))
  {
    var m := Built(labels, labels, neighbours, Sentinel, true);
    forall i, j | 0 <= i < |m| && 0 <= j < |m|
      ensures m[i][j] == m[j][i]
    {
      assert Recorded(neighbours[j], labels[i]) == Recorded(neighbours[i], labels[j]);
    }
  }

  /** `df.loc[name]` on a frame whose labels are distinct: the one position of `name`. */
  method RowOf(rows: seq<string>, name: string) returns (i: nat)
    requires NoDup(rows) && name in rows
    ensures i < |rows| && rows[i] == name
  {
    i := 0;
    while rows[i] != name
      invariant i < |rows| && name !in rows[..i]
      decreases |rows| - i
    {
      assert rows[..i + 1] == rows[..i] + [rows[i]];
      i := i + 1;
    }
  }

  /** The neighbour loop: `df.loc[neighbors[0][i], t_] = round(dist[0][i], 3)` for every
      column `t_` and every entry of its list, on a frame that starts all-missing (NaN as
      `None`). */
  method FillFrame(rows: seq<string>, cols: seq<string>, neighbours: seq<Neighbours>)
    returns (df: array2<Option<real>>)
    requires NoDup(rows) && |neighbours| == |cols| && KnownNeighbours(rows, neighbours)
    ensures fresh(df) && df.Length0 == |rows| && df.Length1 == |cols|
    ensures forall i, j :: 0 <= i < |rows| && 0 <= j < |cols| ==> df[i, j] == Recorded(neighbours[j], rows[i])
  {
    df := new Option<real>[|rows|, |cols|]((i, j) => None);
    for j := 0 to |cols|
      invariant forall i, j' :: 0 <= i < |rows| && 0 <= j' < |cols| ==>
                  df[i, j'] == if j' < j then Recorded(neighbours[j'], rows[i]) else None
    {
      FillColumn(df, rows, neighbours[j], j);
    }
  }

  /** The inner loop for one column `j`. */
  method FillColumn(df: array2<Option<real>>, rows: seq<string>, ns: Neighbours, j: nat)
    requires NoDup(rows) && df.Length0 == |rows| && j < df.Length1
    requires forall k :: 0 <= k < |ns| ==> ns[k].0 in rows
    requires forall i :: 0 <= i < |rows| ==> df[i, j] == None
    modifies df
    ensures forall i, j' :: 0 <= i < df.Length0 && 0 <= j' < df.Length1 ==>
              df[i, j'] == if j' == j then Recorded(ns, rows[i]) else old(df[i, j'])
  {
    for k := 0 to |ns|
      invariant forall i, j' :: 0 <= i < df.Length0 && 0 <= j' < df.Length1 ==>
                  df[i, j'] == if j' == j then Recorded(ns[..k], rows[i]) else old(df[i, j'])
    {
      var i := RowOf(rows, ns[k].0);
      df[i, j] := Some(ns[k].1);
      assert ns[..k + 1] == ns[..k] + [ns[k]];
      forall i' | 0 <= i' < |rows|
        ensures Recorded(ns[..k + 1], rows[i']) == if i' == i then Some(ns[k].1) else Recorded(ns[..k], rows[i'])
      {
        RecordedSnoc(ns[..k], ns[k], rows[i']);
      }
    }
    assert ns[..|ns|] == ns;
  }

  /** `df.fillna(fill)` followed by `to_numpy()`. */
  method FillMissing(df: array2<Option<real>>, fill: real) returns (a: array2<real>)
    ensures fresh(a) && a.Length0 == df.Length0 && a.Length1 == df.Length1
    ensures forall i, j :: 0 <= i < a.Length0 && 0 <= j < a.Length1 ==>
              a[i, j] == match df[i, j] case None => fill case Some(d) => d
  {
    a := new real[df.Length0, df.Length1];
    for i := 0 to df.Length0
      invariant forall i', j :: 0 <= i' < i && 0 <= j < a.Length1 ==>
                  a[i', j] == match df[i', j] case None => fill case Some(d) => d
    {
      for j := 0 to df.Length1
        invariant forall i', j' :: 0 <= i' < i && 0 <= j' < a.Length1 ==>
                    a[i', j'] == match df[i', j'] case None => fill case Some(d) => d
        invariant forall j' :: 0 <= j' < j ==> a[i, j'] == match df[i, j'] case None => fill case Some(d) => d
      {
        a[i, j] := match df[i, j] case None => fill case Some(d) => d;
      }
    }
  }

  /** `np.fill_diagonal(a, v)`. */
  method FillDiagonal(a: array2<real>, v: real)
    modifies a
    ensures forall i, j :: 0 <= i < a.Length0 && 0 <= j < a.Length1 ==>
              a[i, j] == if i == j then v else old(a[i, j])
  {
    var i := 0;
    while i < a.Length0 && i < a.Length1
      invariant 0 <= i
      invariant forall i', j :: 0 <= i' < a.Length0 && 0 <= j < a.Length1 ==>
                  a[i', j] == if i' == j && i' < i then v else old(a[i', j])
    {
      a[i, i] := v;
      i := i + 1;
    }
  }

  /** `get_matrix_similarity_pairs`: in mixed mode the instances of the class label both the
      rows and the columns, missing distances become 100 and so does the diagonal; in
      treatment_sort mode the treated group labels the columns, the other group the rows,
      and missing distances become 200; any other mode returns None. */
  method MatrixSimilarityPairs(mode: Mode, instances: seq<string>, instances0: seq<string>,
                               instances1: seq<string>, neighbours: seq<Neighbours>)
    returns (res: Option<array2<real>>)
    requires mode == Mixed ==> NoDup(instances) && |neighbours| == |instances| && KnownNeighbours(instances, neighbours)
    requires mode == TreatmentSort ==>
               NoDup(instances1) && |neighbours| == |instances0| && KnownNeighbours(instances1, neighbours)
    ensures mode == OtherMode <==> res.None?
    ensures mode == Mixed ==>
              && res.Some? && fresh(res.value)
              && Holds(res.value, Built(instances, instances, neighbours, Sentinel, true))
    ensures mode == TreatmentSort ==>
              && res.Some? && fresh(res.value)
              && Holds(res.value, Built(instances1, instances0, neighbours, CrossSentinel, false))
  {
    if mode == Mixed {
      var df := FillFrame(instances, instances, neighbours);
      var a := FillMissing(df, Sentinel);
      FillDiagonal(a, Sentinel);
      BuiltHolds(a, instances, instances, neighbours, Sentinel, true);
      return Some(a);
    } else if mode == TreatmentSort {
      var df := FillFrame(instances1, instances0, neighbours);
      var a := FillMissing(df, CrossSentinel);
      BuiltHolds(a, instances1, instances0, neighbours, CrossSentinel, false);
      return Some(a);
    } else {
      return None;
    }
  }

  /** An array whose cells agree with the cell formula of `Built` holds `Built`. */
  lemma BuiltHolds(a: array2<real>, rows: seq<string>, cols: seq<string>, neighbours: seq<Neighbours>,
                   fill: real, diagonal: bool)
    requires |neighbours| == |cols| && a.Length0 == |rows| && a.Length1 == |cols|
    requires forall i, j :: 0 <= i < a.Length0 && 0 <= j < a.Length1 ==>
               a[i, j] == if diagonal && i == j then Sentinel
                          else match Recorded(neighbours[j], rows[i]) case None => fill case Some(d) => d
    ensures Holds(a, Built(rows, cols, neighbours, fill, diagonal))
  {
  }
}
