/**
 * The per-edge likelihood arrays of cogent/evolve/likelihood_tree.py: an array with
 * one row per distinct tuple of the edge and one column per state. The product of the
 * children's likelihoods is gathered through the edge's per-child index arrays, so it
 * is computed once per distinct tuple instead of once per alignment column.
 */
module LikelihoodArrays {
  import opened Wrappers
  import opened LikelihoodTree
  import opened LikelihoodEdge

  /** Every row of `rows` has `width` entries. */
  ghost predicate RowsOfWidth(rows: seq<Row>, width: nat)
  {
    forall u :: 0 <= u < |rows| ==> |rows[u]| == width
  }

  /**
   * The children's likelihood arrays an edge is handed: one per child, with a row per
   * distinct entry of that child and a column per state.
   */
  ghost predicate InputsFit(e: Node, lhs: seq<seq<Row>>)
  {
    && e.Edge? && ValidNode(e) && |lhs| == |e.children|
    && forall c :: 0 <= c < |lhs| ==> |lhs[c]| == UniqLength(e.children[c]) && RowsOfWidth(lhs[c], e.width)
  }

  /**
   * What gathering through the edge's index arrays needs: one array per index array,
   * every index in range and every gathered row of the edge's width.
   */
  ghost predicate Gatherable(e: Node, lhs: seq<seq<Row>>)
  {
    && e.Edge? && |lhs| == |e.indexes|
    && forall c :: 0 <= c < |lhs| ==> |e.indexes[c]| == |e.uniq| && GatherableRows(e.indexes[c], lhs[c], e.width)
  }

  ghost predicate GatherableRows(index: seq<nat>, rows: seq<Row>, width: nat)
  {
    forall k :: 0 <= k < |index| ==> index[k] < |rows| && |rows[index[k]]| == width
  }

  /** Arrays shaped after the children can be gathered through a valid edge. */
  lemma InputsFitGatherable(e: Node, lhs: seq<seq<Row>>)
    requires InputsFit(e, lhs)
    ensures Gatherable(e, lhs)
  {
    forall c | 0 <= c < |lhs|
      ensures |e.indexes[c]| == |e.uniq| && GatherableRows(e.indexes[c], lhs[c], e.width)
    {
      forall k | 0 <= k < |e.indexes[c]|
        ensures e.indexes[c][k] < |lhs[c]| && |lhs[c][e.indexes[c][k]]| == e.width
      {
        assert Fits(e.uniq[k], e.children);
        assert e.indexes[c][k] == e.uniq[k][c];
      }
    }
  }

  /** The gathered product over the first `n` children at distinct tuple `k` and state `s`. */
  ghost function GatherProduct(e: Node, lhs: seq<seq<Row>>, n: nat, k: nat, s: nat): real
    requires Gatherable(e, lhs) && n <= |lhs| && k < |e.uniq| && s < e.width
  {
    if n == 0 then 1.0
    else GatherProduct(e, lhs, n - 1, k, s) * lhs[n - 1][e.indexes[n - 1][k]][s]
  }

  /** The product over the first `n` children of each child's likelihood at its own entry `t[c]`. */
  ghost function TupleProduct(children: seq<Node>, lhs: seq<seq<Row>>, t: seq<nat>, n: nat, s: nat): real
    requires n <= |children| == |lhs| == |t|
    requires forall c :: 0 <= c < n ==> t[c] < |lhs[c]| && s < |lhs[c][t[c]]|
  {
    if n == 0 then 1.0 else TupleProduct(children, lhs, t, n - 1, s) * lhs[n - 1][t[n - 1]][s]
  }

  /** `makePartialLikelihoodsArray()`: an array of ones of the edge's shape. */
  method MakePartialLikelihoodsArray(e: Node) returns (a: array2<real>)
    requires e.Edge?
    ensures fresh(a) && a.Length0 == |e.uniq| && a.Length1 == e.width
    ensures forall k, s :: 0 <= k < a.Length0 && 0 <= s < a.Length1 ==> a[k, s] == 1.0
  {
    a := new real[|e.uniq|, e.width]((_, _) => 1.0);
  }

  /**
   * `sumInputLikelihoodsR(result, *likelihoods)`: resets `result` to ones, then for each
   * child multiplies it by that child's likelihoods gathered through the child's index
   * array.
   */
  method SumInputLikelihoodsR(e: Node, result: array2<real>, lhs: seq<seq<Row>>)
    requires Gatherable(e, lhs) && result.Length0 == |e.uniq| && result.Length1 == e.width
    modifies result
    ensures forall k, s :: 0 <= k < result.Length0 && 0 <= s < result.Length1 ==>
      result[k, s] == GatherProduct(e, lhs, |lhs|, k, s)
  {
    forall k, s | 0 <= k < result.Length0 && 0 <= s < result.Length1 {
      result[k, s] := 1.0;
    }
    var i := 0;
    while i < |lhs|
      invariant 0 <= i <= |lhs|
      invariant forall k, s :: 0 <= k < result.Length0 && 0 <= s < result.Length1 ==>
        result[k, s] == GatherProduct(e, lhs, i, k, s)
    {
      var rows, index := lhs[i], e.indexes[i];
      GatherStep(e, lhs, i);
      forall k, s | 0 <= k < result.Length0 && 0 <= s < result.Length1 {
        result[k, s] := result[k, s] * rows[index[k]][s];
      }
      i := i + 1;
    }
  }

  /** Gathering one more child multiplies every product by that child's gathered row. */
  lemma GatherStep(e: Node, lhs: seq<seq<Row>>, i: nat)
    requires Gatherable(e, lhs) && i < |lhs|
    ensures forall k :: 0 <= k < |e.uniq| ==> e.indexes[i][k] < |lhs[i]| && |lhs[i][e.indexes[i][k]]| == e.width
    ensures forall k, s :: 0 <= k < |e.uniq| && 0 <= s < e.width ==>
      GatherProduct(e, lhs, i + 1, k, s) == GatherProduct(e, lhs, i, k, s) * lhs[i][e.indexes[i][k]][s]
  {
    assert GatherableRows(e.indexes[i], lhs[i], e.width);
  }

  /** `sumInputLikelihoods(*likelihoods)`: a fresh array holding the gathered products. */
  method SumInputLikelihoods(e: Node, lhs: seq<seq<Row>>) returns (result: array2<real>)
    requires InputsFit(e, lhs)
    ensures fresh(result) && result.Length0 == |e.uniq| && result.Length1 == e.width
    ensures Gatherable(e, lhs) && |lhs| == |e.children|
    ensures forall k, s :: 0 <= k < result.Length0 && 0 <= s < result.Length1 ==>
      result[k, s] == GatherProduct(e, lhs, |e.children|, k, s)
  {
    InputsFitGatherable(e, lhs);
    result := MakePartialLikelihoodsArray(e);
    SumInputLikelihoodsR(e, result, lhs);
  }

  /**
   * The gathered product at a distinct tuple is the product of each child's likelihood
   * at that tuple's entry for the child.
   */
  lemma GatherIsTupleProduct(e: Node, lhs: seq<seq<Row>>, n: nat, k: nat, s: nat)
    requires InputsFit(e, lhs) && n <= |e.children| && k < |e.uniq| && s < e.width
    ensures Gatherable(e, lhs)
    ensures forall c :: 0 <= c < n ==> e.uniq[k][c] < |lhs[c]| && s < |lhs[c][e.uniq[k][c]]|
    ensures GatherProduct(e, lhs, n, k, s) == TupleProduct(e.children, lhs, e.uniq[k], n, s)
  {
    InputsFitGatherable(e, lhs);
    assert Fits(e.uniq[k], e.children);
    assert forall c :: 0 <= c < |lhs| ==> e.indexes[c][k] == e.uniq[k][c];
    GatherIsProduct(e, lhs, e.uniq[k], n, k, s);
  }

  /** The gathered product equals the product over the entries `t` the index arrays hold at `k`. */
  lemma {:induction false} GatherIsProduct(e: Node, lhs: seq<seq<Row>>, t: seq<nat>, n: nat, k: nat, s: nat)
    requires Gatherable(e, lhs) && k < |e.uniq| && s < e.width && n <= |lhs| == |e.children| == |t|
    requires forall c :: 0 <= c < |lhs| ==> e.indexes[c][k] == t[c]
    ensures forall c :: 0 <= c < n ==> t[c] < |lhs[c]| && s < |lhs[c][t[c]]|
    ensures GatherProduct(e, lhs, n, k, s) == TupleProduct(e.children, lhs, t, n, s)
  {
    if n > 0 {
      GatherIsProduct(e, lhs, t, n - 1, k, s);
      assert GatherableRows(e.indexes[n - 1], lhs[n - 1], e.width);
    }
  }

  /**
   * For an edge built from pre-aligned children, the gathered product at the tuple of
   * column `i` is the product of the children's likelihoods at their own entries of
   * column `i`: deduplicating the columns does not change any column's likelihood.
   */
  lemma {:induction false} SumInputPerColumn(children: seq<Node>, name: string, lhs: seq<seq<Row>>, i: nat, s: nat)
    requires forall c :: 0 <= c < |children| ==> ValidNode(children[c]) && !IsShared(children[c])
    requires MakeEdge(children, name, None).Ok?
    requires InputsFit(MakeEdge(children, name, None).value, lhs)
    requires i < |MakeEdge(children, name, None).value.index| && s < Width(children[0])
    ensures var e := MakeEdge(children, name, None).value;
      && Gatherable(e, lhs) && e.index[i] < |e.uniq| && e.width == Width(children[0])
      && (forall c :: 0 <= c < |children| ==> Index(children[c])[i] < |lhs[c]| && s < |lhs[c][Index(children[c])[i]]|)
      && GatherProduct(e, lhs, |children|, e.index[i], s) == TupleProduct(children, lhs, ColumnTuple(children, i), |children|, s)
  {
    var e := MakeEdge(children, name, None).value;
    MakeEdgeValid(children, name, None);
    MakeEdgeColumns(children, name);
    GatherIsTupleProduct(e, lhs, |children|, e.index[i], s);
  }

  /**
   * `restrictMotif(input_likelihoods, fixed_motif)`: keeps the column of state
   * `fixed_motif` (a numpy index, so it may be negative) and zeroes every other state
   * column, in place; a state outside the array raises IndexError before anything
   * changes.
   */
  method RestrictMotif(lh: array2<real>, fixedMotif: int) returns (failure: Option<Error>)
    modifies lh
    ensures PyIndex(fixedMotif, lh.Length1).None? ==> failure == Some(IndexError) && unchanged(lh)
    ensures PyIndex(fixedMotif, lh.Length1).Some? ==> failure.None?
    ensures PyIndex(fixedMotif, lh.Length1).Some? ==>
      forall k, s :: 0 <= k < lh.Length0 && 0 <= s < lh.Length1 ==>
        lh[k, s] == if s == PyIndex(fixedMotif, lh.Length1).value then old(lh[k, s]) else 0.0
  {
    var mask := new real[lh.Length1](_ => 0.0);
    var p := PyIndex(fixedMotif, lh.Length1);
    if p.None? {
      return Some(IndexError);
    }
    mask[p.value] := 1.0;
    forall k, s | 0 <= k < lh.Length0 && 0 <= s < lh.Length1 {
      lh[k, s] := lh[k, s] * mask[s];
    }
    failure := None;
  }

  /** `numpy.take(lh, index, 0)`: row `index[i]` for every `i`; an index past the last row raises IndexError. */
  function TakeRows(lh: seq<Row>, index: seq<nat>): (r: Result<seq<Row>, Error>)
    ensures r.Ok? <==> forall i :: 0 <= i < |index| ==> index[i] < |lh|
    ensures r.Err? ==> r.error == IndexError
    ensures r.Ok? ==> |r.value| == |index| && forall i :: 0 <= i < |index| ==> r.value[i] == lh[index[i]]
  {
    if forall i :: 0 <= i < |index| ==> index[i] < |lh| then Ok(Gather(lh, index)) else Err(IndexError)
  }
}
